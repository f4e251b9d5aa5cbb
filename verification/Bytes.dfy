/** Addresses as big-endian byte strings, masks on them, and the numbers they stand for. */
module Bytes {

  type byte = b: int | 0 <= b < 256

  function Pow2(n: nat): (p: nat)
    ensures p >= 1
  {
    if n == 0 then 1 else 2 * Pow2(n - 1)
  }

  lemma {:induction false} Pow2Add(a: nat, b: nat)
    ensures Pow2(a + b) == Pow2(a) * Pow2(b)
    decreases a
  {
    if a > 0 { Pow2Add(a - 1, b); }
  }

  lemma {:induction false} Pow2Monotone(a: nat, b: nat)
    requires a <= b
    ensures Pow2(a) <= Pow2(b)
    decreases b
  {
    if a < b { Pow2Monotone(a, b - 1); }
  }

  lemma Pow2Small()
    ensures Pow2(0) == 1 && Pow2(1) == 2 && Pow2(2) == 4 && Pow2(3) == 8 && Pow2(4) == 16
    ensures Pow2(5) == 32 && Pow2(6) == 64 && Pow2(7) == 128 && Pow2(8) == 256
  {
    assert Pow2(4) == 2 * Pow2(3) && Pow2(3) == 2 * Pow2(2);
    assert Pow2(8) == 2 * Pow2(7) && Pow2(7) == 2 * Pow2(6) && Pow2(6) == 2 * Pow2(5) && Pow2(5) == 2 * Pow2(4);
  }

  lemma DivModUnique(x: int, d: int, q: int, r: int)
    requires d > 0 && x == d * q + r && 0 <= r < d
    ensures x / d == q && x % d == r
  {
    var e := q - x / d;
    assert d * e == x % d - r;
    MulBound(d, e);
  }

  lemma MulBound(d: int, e: int)
    requires d > 0
    ensures e >= 1 ==> d * e >= d
    ensures e <= -1 ==> d * e <= -d
  {
  }

  /** Dividing 256 v + b by a divisor m of 256. */
  lemma SplitByte(v: nat, b: byte, m: nat, k: nat)
    requires m > 0 && m * k == 256
    ensures (256 * v + b) / m == k * v + b / m && (256 * v + b) % m == b % m && 0 <= b / m < k
  {
    assert b == m * (b / m) + b % m;
    assert m * (k * v) == (m * k) * v;
    assert 256 * v + b == m * (k * v + b / m) + b % m;
    DivModUnique(256 * v + b, m, k * v + b / m, b % m);
    MulMonotone(m, b / m, k);
  }

  lemma MulMonotone(m: int, x: int, k: int)
    requires m > 0 && m * x < m * k
    ensures x < k
  {
  }

  // ---- Bit operations ----

  /** The bitwise and of two numbers of `n` bits. */
  function BitAnd(a: nat, b: nat, n: nat): nat {
    if n == 0 then 0 else 2 * BitAnd(a / 2, b / 2, n - 1) + (if a % 2 == 1 && b % 2 == 1 then 1 else 0)
  }

  function BitOr(a: nat, b: nat, n: nat): nat {
    if n == 0 then 0 else 2 * BitOr(a / 2, b / 2, n - 1) + (if a % 2 == 1 || b % 2 == 1 then 1 else 0)
  }

  lemma ModDouble(b: nat, m: nat)
    requires m > 0
    ensures b % (2 * m) == 2 * ((b / 2) % m) + b % 2
  {
    var q, r := (b / 2) / m, (b / 2) % m;
    assert b / 2 == m * q + r;
    assert b == 2 * (b / 2) + b % 2;
    assert b == (2 * m) * q + (2 * r + b % 2);
    DivModUnique(b, 2 * m, q, 2 * r + b % 2);
  }

  lemma AndStep(b: nat, mask: nat, n: nat, m: nat)
    requires n > 0 && m > 0 && BitAnd(b / 2, mask, n - 1) == b / 2 - (b / 2) % m
    ensures BitAnd(b, 2 * mask, n) == b - b % (2 * m)
  {
    ModDouble(b, m);
    assert (2 * mask) / 2 == mask && (2 * mask) % 2 == 0;
  }

  lemma {:induction false} AndOnes(b: nat, n: nat)
    requires b < Pow2(n)
    ensures BitAnd(b, Pow2(n) - 1, n) == b
    decreases n
  {
    if n > 0 { AndOnes(b / 2, n - 1); }
  }

  /** Masking away the low `h` bits. */
  lemma {:induction false} AndMask(b: nat, h: nat, n: nat)
    requires h <= n && b < Pow2(n)
    ensures Pow2(n) >= Pow2(h) && BitAnd(b, Pow2(n) - Pow2(h), n) == b - b % Pow2(h)
    decreases h
  {
    if h == 0 {
      AndOnes(b, n);
    } else {
      AndMask(b / 2, h - 1, n - 1);
      AndStep(b, Pow2(n - 1) - Pow2(h - 1), n, Pow2(h - 1));
      assert 2 * (Pow2(n - 1) - Pow2(h - 1)) == Pow2(n) - Pow2(h);
    }
  }

  lemma OrStep(b: nat, n: nat, m: nat)
    requires n > 0 && m > 0 && BitOr(b / 2, m - 1, n - 1) == b / 2 - (b / 2) % m + m - 1
    ensures BitOr(b, 2 * m - 1, n) == b - b % (2 * m) + 2 * m - 1
  {
    ModDouble(b, m);
    assert (2 * m - 1) / 2 == m - 1 && (2 * m - 1) % 2 == 1;
  }

  lemma {:induction false} OrZero(b: nat, n: nat)
    requires b < Pow2(n)
    ensures BitOr(b, 0, n) == b
    decreases n
  {
    if n > 0 { OrZero(b / 2, n - 1); }
  }

  /** Setting the low `h` bits. */
  lemma {:induction false} OrMask(b: nat, h: nat, n: nat)
    requires h <= n && b < Pow2(n)
    ensures BitOr(b, Pow2(h) - 1, n) == b - b % Pow2(h) + Pow2(h) - 1
    decreases h
  {
    if h == 0 {
      OrZero(b, n);
    } else {
      OrMask(b / 2, h - 1, n - 1);
      OrStep(b, n, Pow2(h - 1));
    }
  }

  // ---- Byte strings ----

  type IP = seq<byte>

  function Value(ip: IP): nat {
    if ip == [] then 0 else 256 * Value(ip[..|ip| - 1]) + ip[|ip| - 1]
  }

  lemma {:induction false} ValueBound(ip: IP)
    ensures Value(ip) < Pow2(8 * |ip|)
    decreases |ip|
  {
    if ip != [] {
      ValueBound(ip[..|ip| - 1]);
      Pow2Add(8, 8 * (|ip| - 1));
      Pow2Small();
    }
  }

  lemma {:induction false} ValueInjective(a: IP, b: IP)
    requires |a| == |b| && Value(a) == Value(b)
    ensures a == b
    decreases |a|
  {
    if a != [] {
      ValueInjective(a[..|a| - 1], b[..|b| - 1]);
      assert a == a[..|a| - 1] + [a[|a| - 1]] && b == b[..|b| - 1] + [b[|b| - 1]];
    }
  }

  /** How many of the leading `ones` bits fall into byte `i`. */
  function OnesIn(ones: nat, i: nat): (k: nat)
    ensures k <= 8
  {
    if ones >= 8 * (i + 1) then 8 else if ones <= 8 * i then 0 else ones - 8 * i
  }

  /** Byte `i` of the mask with that many leading ones. */
  function MaskByte(ones: nat, i: nat): (m: byte) {
    Pow2Small();
    assert Pow2(8 - OnesIn(ones, i)) <= 256 by { Pow2Add(8 - OnesIn(ones, i), OnesIn(ones, i)); }
    256 - Pow2(8 - OnesIn(ones, i))
  }

  /** Byte by byte, the two addresses agree where the mask has ones. */
  predicate SameNetwork(ones: nat, a: IP, b: IP)
    requires |a| == |b|
  {
    forall i :: 0 <= i < |a| ==> BitAnd(a[i], MaskByte(ones, i), 8) == BitAnd(b[i], MaskByte(ones, i), 8)
  }

  lemma MaskedByte(b: byte, ones: nat, i: nat)
    ensures BitAnd(b, MaskByte(ones, i), 8) == b - b % Pow2(8 - OnesIn(ones, i))
    ensures BitOr(b, 255 - MaskByte(ones, i), 8) == b - b % Pow2(8 - OnesIn(ones, i)) + Pow2(8 - OnesIn(ones, i)) - 1
  {
    Pow2Small();
    AndMask(b, 8 - OnesIn(ones, i), 8);
    OrMask(b, 8 - OnesIn(ones, i), 8);
  }

  /** The number of the network that an address lies in, when `h` bits number the hosts. */
  function Block(ip: IP, h: nat): int {
    Value(ip) / Pow2(h)
  }

  /** The last byte moves out of the quotient when all its bits number hosts. */
  lemma BlockOfFront(ip: IP, h: nat)
    requires ip != [] && h >= 8
    ensures Block(ip, h) == Block(ip[..|ip| - 1], h - 8)
    ensures Value(ip) % Pow2(h) == 256 * (Value(ip[..|ip| - 1]) % Pow2(h - 8)) + ip[|ip| - 1]
  {
    var v, b, m := Value(ip[..|ip| - 1]), ip[|ip| - 1], Pow2(h - 8);
    Pow2Small();
    Pow2Add(8, h - 8);
    assert v == m * (v / m) + v % m;
    assert 256 * v + b == (256 * m) * (v / m) + (256 * (v % m) + b);
    DivModUnique(256 * v + b, 256 * m, v / m, 256 * (v % m) + b);
  }

  /** Otherwise the front numbers the network together with the last byte's leading bits. */
  lemma BlockOfLast(ip: IP, h: nat)
    requires ip != [] && h <= 8
    ensures Block(ip, h) == Pow2(8 - h) * Value(ip[..|ip| - 1]) + ip[|ip| - 1] / Pow2(h)
    ensures 0 <= ip[|ip| - 1] / Pow2(h) < Pow2(8 - h)
    ensures Value(ip) % Pow2(h) == ip[|ip| - 1] % Pow2(h)
  {
    Pow2Small();
    Pow2Add(h, 8 - h);
    SplitByte(Value(ip[..|ip| - 1]), ip[|ip| - 1], Pow2(h), Pow2(8 - h));
  }

  lemma FullByte(b: byte, ones: nat, i: nat)
    requires ones >= 8 * (i + 1)
    ensures BitAnd(b, MaskByte(ones, i), 8) == b && BitOr(b, 255 - MaskByte(ones, i), 8) == b
  {
    MaskedByte(b, ones, i);
    Pow2Small();
  }

  lemma FreeByte(b: byte, ones: nat, i: nat)
    requires ones <= 8 * i
    ensures BitAnd(b, MaskByte(ones, i), 8) == 0 && BitOr(b, 255 - MaskByte(ones, i), 8) == 255
  {
    assert OnesIn(ones, i) == 0;
    MaskedByte(b, ones, i);
    assert Pow2(8) == 256 by { Pow2Small(); }
    assert b % 256 == b;
  }

  lemma SameQuotient(a: byte, b: byte, m: nat)
    requires m > 0
    ensures a - a % m == b - b % m <==> a / m == b / m
  {
    assert a == m * (a / m) + a % m && b == m * (b / m) + b % m;
    if a / m < b / m { MulBound(m, b / m - a / m); }
    if a / m > b / m { MulBound(m, a / m - b / m); }
  }

  lemma SameDigits(k: int, v: int, x: int, w: int, y: int)
    requires 0 <= x < k && 0 <= y < k
    ensures k * v + x == k * w + y <==> v == w && x == y
  {
    if k * v + x == k * w + y {
      DivModUnique(k * v + x, k, v, x);
      DivModUnique(k * w + y, k, w, y);
    }
  }

  lemma ValueExact(a: IP, b: IP)
    requires |a| == |b|
    ensures Value(a) == Value(b) <==> a == b
  {
    if Value(a) == Value(b) { ValueInjective(a, b); }
  }

  /** The masked comparison, byte by byte, says that the addresses lie in the same network. */
  lemma {:induction false} SameNetworkIsBlock(ones: nat, a: IP, b: IP)
    requires |a| == |b| && ones <= 8 * |a|
    ensures SameNetwork(ones, a, b) <==> Block(a, 8 * |a| - ones) == Block(b, 8 * |a| - ones)
    decreases |a|
  {
    if a != [] {
      var n := |a| - 1;
      if ones <= 8 * n {
        SameNetworkIsBlock(ones, a[..n], b[..n]);
        BlockOfFront(a, 8 * |a| - ones);
        BlockOfFront(b, 8 * |a| - ones);
        FreeByte(a[n], ones, n);
        FreeByte(b[n], ones, n);
        SameNetworkFront(ones, a, b);
      } else {
        SameNetworkLast(ones, a, b);
      }
    }
  }

  lemma SameNetworkFront(ones: nat, a: IP, b: IP)
    requires |a| == |b| && a != []
    ensures
      var n := |a| - 1;
      SameNetwork(ones, a, b) <==>
        && SameNetwork(ones, a[..n], b[..n])
        && BitAnd(a[n], MaskByte(ones, n), 8) == BitAnd(b[n], MaskByte(ones, n), 8)
  {
    var n := |a| - 1;
    assert forall i :: 0 <= i < n ==> a[..n][i] == a[i] && b[..n][i] == b[i];
  }

  lemma FullFront(ones: nat, a: IP, b: IP)
    requires |a| == |b| && ones >= 8 * |a|
    ensures SameNetwork(ones, a, b) <==> a == b
  {
    forall i | 0 <= i < |a| ensures BitAnd(a[i], MaskByte(ones, i), 8) == a[i] && BitAnd(b[i], MaskByte(ones, i), 8) == b[i] {
      FullByte(a[i], ones, i);
      FullByte(b[i], ones, i);
    }
  }

  lemma MaskedLast(ones: nat, a: IP, b: IP)
    requires |a| == |b| && a != [] && 8 * (|a| - 1) < ones <= 8 * |a|
    ensures
      var n, m := |a| - 1, Pow2(8 * |a| - ones);
      SameNetwork(ones, a, b) <==> a[..n] == b[..n] && a[n] / m == b[n] / m
  {
    var n, h := |a| - 1, 8 * |a| - ones;
    SameNetworkFront(ones, a, b);
    FullFront(ones, a[..n], b[..n]);
    MaskedByte(a[n], ones, n);
    MaskedByte(b[n], ones, n);
    SameQuotient(a[n], b[n], Pow2(h));
  }

  lemma BlockLast(a: IP, b: IP, h: nat)
    requires |a| == |b| && a != [] && h <= 8
    ensures
      var n, m := |a| - 1, Pow2(h);
      Block(a, h) == Block(b, h) <==> a[..n] == b[..n] && a[n] / m == b[n] / m
  {
    var n := |a| - 1;
    var v, w, x, y := Value(a[..n]), Value(b[..n]), a[n] / Pow2(h), b[n] / Pow2(h);
    BlockOfLast(a, h);
    BlockOfLast(b, h);
    SameDigits(Pow2(8 - h), v, x, w, y);
    ValueExact(a[..n], b[..n]);
  }

  lemma SameNetworkLast(ones: nat, a: IP, b: IP)
    requires |a| == |b| && a != [] && 8 * (|a| - 1) < ones <= 8 * |a|
    ensures SameNetwork(ones, a, b) <==> Block(a, 8 * |a| - ones) == Block(b, 8 * |a| - ones)
  {
    MaskedLast(ones, a, b);
    BlockLast(a, b, 8 * |a| - ones);
  }

  // ---- The last address of a network ----

  lemma LastByteBound(b: byte, ones: nat, i: nat)
    ensures BitOr(b, 255 - MaskByte(ones, i), 8) < 256
  {
    var k := OnesIn(ones, i);
    MaskedByte(b, ones, i);
    Pow2Small();
    Pow2Add(8 - k, k);
    SplitByte(0, b, Pow2(8 - k), Pow2(k));
    LastOfBlock(b, Pow2(8 - k), Pow2(k));
  }

  lemma LastOfBlock(b: byte, m: nat, k: nat)
    requires m > 0 && m * k == 256 && b / m < k
    ensures 0 <= b - b % m + m - 1 < 256
  {
    assert b - b % m == m * (b / m);
    assert m * (b / m) + m == m * (b / m + 1);
    MulAtMost(m, b / m + 1, k);
  }

  lemma MulAtMost(m: int, x: int, k: int)
    requires m > 0 && x <= k
    ensures m * x <= m * k
  {
  }

  /** The byte with its host bits set: subnet.IP[i] | ^subnet.Mask[i]. */
  function LastByte(b: byte, ones: nat, i: nat): byte {
    LastByteBound(b, ones, i);
    BitOr(b, 255 - MaskByte(ones, i), 8)
  }

  function LastBytes(ones: nat, ip: IP): IP {
    seq(|ip|, i requires 0 <= i < |ip| => LastByte(ip[i], ones, i))
  }

  lemma LastBytesFront(ones: nat, ip: IP)
    requires ip != []
    ensures LastBytes(ones, ip)[..|ip| - 1] == LastBytes(ones, ip[..|ip| - 1])
  {
  }

  lemma FullBytes(ones: nat, ip: IP)
    requires ones >= 8 * |ip|
    ensures LastBytes(ones, ip) == ip
  {
    forall i | 0 <= i < |ip| ensures LastByte(ip[i], ones, i) == ip[i] { FullByte(ip[i], ones, i); }
  }

  function Size(ip: IP, ones: nat): nat
    requires ones <= 8 * |ip|
  {
    Pow2(8 * |ip| - ones)
  }

  lemma SizeStep(ip: IP, ones: nat)
    requires ip != [] && ones <= 8 * (|ip| - 1)
    ensures Size(ip, ones) == 256 * Size(ip[..|ip| - 1], ones)
  {
    Pow2Add(8, 8 * (|ip| - 1) - ones);
    Pow2Small();
  }

  /** The value of the bits that number the host, collected byte by byte. */
  function HostPart(ip: IP, ones: nat): nat {
    if ip == [] then 0
    else
      var n := |ip| - 1;
      if ones <= 8 * n then 256 * HostPart(ip[..n], ones) + ip[n] else HostByte(ip[n], ones, n)
  }

  function HostByte(b: byte, ones: nat, i: nat): nat {
    b % Pow2(8 - OnesIn(ones, i))
  }

  lemma LastByteIs(b: byte, ones: nat, i: nat)
    ensures LastByte(b, ones, i) == b - HostByte(b, ones, i) + Pow2(8 - OnesIn(ones, i)) - 1
  {
    MaskedByte(b, ones, i);
  }

  lemma LastByteFree(b: byte, ones: nat, i: nat)
    requires ones <= 8 * i
    ensures LastByte(b, ones, i) == 255
  {
    FreeByte(b, ones, i);
  }

  lemma {:induction false} LastByHost(ones: nat, ip: IP)
    requires ones <= 8 * |ip|
    ensures Value(LastBytes(ones, ip)) == Value(ip) - HostPart(ip, ones) + Size(ip, ones) - 1
    decreases |ip|
  {
    if ip != [] {
      var n := |ip| - 1;
      LastBytesFront(ones, ip);
      if ones <= 8 * n {
        LastByHost(ones, ip[..n]);
        LastByteFree(ip[n], ones, n);
        SizeStep(ip, ones);
      } else {
        FullBytes(ones, ip[..n]);
        LastByteIs(ip[n], ones, n);
      }
    }
  }

  lemma {:induction false} HostPartIsRemainder(ip: IP, ones: nat)
    requires ones <= 8 * |ip|
    ensures HostPart(ip, ones) == Value(ip) % Size(ip, ones)
    decreases |ip|
  {
    if ip != [] {
      var n := |ip| - 1;
      if ones <= 8 * n {
        HostPartIsRemainder(ip[..n], ones);
        BlockOfFront(ip, 8 * |ip| - ones);
      } else {
        HostOfLast(ip, 8 * |ip| - ones);
      }
    }
  }

  lemma HostOfLast(ip: IP, h: nat)
    requires ip != [] && h <= 8
    ensures Value(ip) % Pow2(h) == ip[|ip| - 1] % Pow2(h)
  {
    BlockOfLast(ip, h);
  }

  /** Byte by byte, the host bits set add up to the last address of the network. */
  lemma LastValue(ones: nat, ip: IP)
    requires ones <= 8 * |ip|
    ensures Value(LastBytes(ones, ip)) == Value(ip) - Value(ip) % Size(ip, ones) + Size(ip, ones) - 1
  {
    LastByHost(ones, ip);
    HostPartIsRemainder(ip, ones);
  }

  // ---- The next address ----

  /** The address whose value is one more, of the same length. */
  function NextIP(ip: IP): IP {
    if ip == [] then []
    else
      var n := |ip| - 1;
      if ip[n] < 255 then ip[..n] + [ip[n] + 1] else NextIP(ip[..n]) + [0]
  }

  lemma {:induction false} NextValue(ip: IP)
    ensures |NextIP(ip)| == |ip|
    ensures Value(ip) + 1 < Pow2(8 * |ip|) ==> Value(NextIP(ip)) == Value(ip) + 1
    decreases |ip|
  {
    if ip != [] {
      var n := |ip| - 1;
      Pow2Add(8, 8 * n);
      Pow2Small();
      if ip[n] < 255 {
        assert (ip[..n] + [ip[n] + 1])[..n] == ip[..n];
      } else {
        NextValue(ip[..n]);
        assert (NextIP(ip[..n]) + [0])[..n] == NextIP(ip[..n]);
      }
    }
  }
}
