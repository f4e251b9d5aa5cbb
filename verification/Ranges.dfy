/**
 * Address ranges: pkg/ipam/backend/allocator/range.go.
 * A mask is given by its number of leading ones and its length in bytes.
 */
module AddressRanges {
  import opened Sequences
  import opened Bytes

  datatype Subnet = Subnet(ip: IP, ones: nat, maskLen: nat)

  datatype Range = Range(start: Option<IP>, end: Option<IP>, subnet: Subnet, gateway: Option<IP>)

  /** An IPv4 address inside IPv6, as section 2.5.5.2 of RFC 4291 maps it. */
  predicate Mapped(ip: IP) {
    |ip| == 16 && ip[..10] == [0, 0, 0, 0, 0, 0, 0, 0, 0, 0] && ip[10] == 255 && ip[11] == 255
  }

  /** canonicalizeIP: four bytes for IPv4, sixteen for IPv6. */
  function Canonical(ip: IP): Option<IP> {
    if |ip| == 4 then Some(ip)
    else if Mapped(ip) then Some(ip[12..])
    else if |ip| == 16 then Some(ip)
    else None
  }

  /** What ip.Cmp compares. */
  function IntOf(ip: IP): nat {
    if Canonical(ip).Some? then Value(Canonical(ip).value) else 0
  }

  /** IPNet.Contains: a sixteen-byte mask on an IPv4 network counts by its last four bytes. */
  predicate InSubnet(s: Subnet, addr: IP) {
    var net := Canonical(s.ip);
    && net.Some? && |net.value| == |addr|
    && (s.maskLen == |net.value| || (s.maskLen == 16 && |net.value| == 4))
    && var ones := if s.maskLen == |net.value| then s.ones else if s.ones > 96 then s.ones - 96 else 0;
       SameNetwork(ones, net.value, addr)
  }

  predicate Contains(r: Range, addr: IP) {
    var a := Canonical(addr);
    && a.Some? && |a.value| == |r.subnet.ip|
    && InSubnet(r.subnet, a.value)
    && (r.start.Some? ==> IntOf(a.value) >= IntOf(r.start.value))
    && (r.end.Some? ==> IntOf(a.value) <= IntOf(r.end.value))
  }

  lemma {:induction false} ValueConcat(a: IP, b: IP)
    ensures Value(a + b) == Value(a) * Pow2(8 * |b|) + Value(b)
    decreases |b|
  {
    if b == [] {
      assert a + b == a;
    } else {
      var n := |b| - 1;
      assert (a + b)[..|a + b| - 1] == a + b[..n];
      ValueConcat(a, b[..n]);
      assert Pow2(8 * |b|) == 256 * Pow2(8 * n) by {
        Pow2Add(8, 8 * n);
        Pow2Small();
      }
      TimesByte(Value(a), Pow2(8 * n), Pow2(8 * |b|));
    }
  }

  lemma TimesByte(v: int, p: int, q: int)
    requires q == 256 * p
    ensures v * q == 256 * (v * p)
  {
  }

  lemma QuotientOfSum(v: nat, d: nat, q: nat, r: nat)
    requires v == q * d + r && r < d
    ensures v / d == q
  {
    assert q * d == d * q;
    DivModUnique(v, d, q, r);
  }

  lemma SplitAt32(a: IP)
    requires |a| == 16
    ensures Value(a) == Value(a[..12]) * Pow2(32) + Value(a[12..]) && Value(a) / Pow2(32) == Value(a[..12])
  {
    var front, back := a[..12], a[12..];
    assert a == front + back && |back| == 4;
    ValueConcat(front, back);
    ValueBound(back);
    QuotientOfSum(Value(a), Pow2(32), Value(front), Value(back));
  }

  lemma {:induction false} ZeroValue(ip: IP)
    requires forall i :: 0 <= i < |ip| ==> ip[i] == 0
    ensures Value(ip) == 0
    decreases |ip|
  {
    if ip != [] { ZeroValue(ip[..|ip| - 1]); }
  }

  lemma MappedPrefix(front: IP)
    requires |front| == 12
    ensures Value(front) == 0xFFFF <==> front[..10] == [0, 0, 0, 0, 0, 0, 0, 0, 0, 0] && front[10] == 255 && front[11] == 255
  {
    var zeros: IP := [0, 0, 0, 0, 0, 0, 0, 0, 0, 0];
    var prefix := zeros + [255, 255];
    ZeroValue(zeros);
    ValueConcat(zeros, [255, 255]);
    assert [255, 255][..1] == [255] && [255][..0] == [];
    assert Value([255]) == 255 && Value([255, 255]) == 0xFFFF;
    ValueExact(front, prefix);
    assert front == front[..10] + [front[10], front[11]];
  }

  /**
   * The standard form stands for the same address: an IPv6 address is mapped exactly when its number is 0xFFFF followed by
   * 32 bits, which are then the number of its four bytes.
   */
  lemma CanonicalValue(a: IP)
    ensures Canonical(a).Some? <==> |a| == 4 || |a| == 16
    ensures |a| == 4 ==> Canonical(a) == Some(a)
    ensures |a| == 16 ==>
      var c := Canonical(a).value;
      if Value(a) / Pow2(32) == 0xFFFF then |c| == 4 && Value(a) == 0xFFFF * Pow2(32) + Value(c) else c == a
  {
    if |a| == 16 {
      SplitAt32(a);
      MappedPrefix(a[..12]);
      assert a[..12][..10] == a[..10] && a[..12][10] == a[10] && a[..12][11] == a[11];
    }
  }

  // ---- Canonicalize ----

  /** One less, wrapping at zero. */
  function Decrement(b: byte): byte {
    if b == 0 then 255 else b - 1
  }

  /** The last address of the subnet; IPv4 leaves out the broadcast address, with the byte wrapping at zero. */
  function LastIP(s: Subnet): IP {
    var all := LastBytes(s.ones, s.ip);
    if |s.ip| == 4 then all[3 := Decrement(all[3])] else all
  }

  /** lastIP. */
  method ComputeLastIP(s: Subnet) returns (end: IP)
    requires |s.ip| == 4 || (|s.ip| == 16 && !Mapped(s.ip))
    ensures end == LastIP(s)
  {
    end := [];
    for i := 0 to |s.ip|
      invariant end == LastBytes(s.ones, s.ip)[..i]
    {
      end := end + [LastByte(s.ip[i], s.ones, i)];
    }
    assert LastBytes(s.ones, s.ip)[..|s.ip|] == LastBytes(s.ones, s.ip);
    if |s.ip| == 4 { end := end[3 := Decrement(end[3])]; }
  }

  function SubnetStage(r: Range): Option<Range> {
    var ip := Canonical(r.subnet.ip);
    if ip.None? || r.subnet.ones > 8 * r.subnet.maskLen - 2 || |ip.value| != r.subnet.maskLen then None
    else Some(r.(subnet := r.subnet.(ip := ip.value)))
  }

  function GatewayStage(r: Range): Option<Range> {
    if r.gateway.None? then Some(r.(gateway := Some(NextIP(r.subnet.ip))))
    else
      var g := Canonical(r.gateway.value);
      if g.None? || !InSubnet(r.subnet, g.value) then None else Some(r.(gateway := g))
  }

  /** A given start is compared with a given end that has not been put into standard form yet. */
  function StartStage(r: Range): Option<Range> {
    if r.start.None? then Some(r.(start := Some(NextIP(r.subnet.ip))))
    else
      var s := Canonical(r.start.value);
      if s.None? || !Contains(r.(start := s), s.value) then None else Some(r.(start := s))
  }

  function EndStage(r: Range): Option<Range> {
    if r.end.None? then Some(r.(end := Some(LastIP(r.subnet))))
    else
      var e := Canonical(r.end.value);
      if e.None? || !Contains(r.(end := e), e.value) then None else Some(r.(end := e))
  }

  function Canonicalized(r: Range): Option<Range> {
    var a := SubnetStage(r);
    if a.None? then None
    else
      var b := GatewayStage(a.value);
      if b.None? then None
      else
        var c := StartStage(b.value);
        if c.None? then None else EndStage(c.value)
  }

  /** The range as the call leaves it: a failure keeps what was rewritten up to the statement that failed. */
  function LeftBehind(r: Range): Range {
    var ip := Canonical(r.subnet.ip);
    if ip.None? then r
    else
      var a := r.(subnet := r.subnet.(ip := ip.value));
      if SubnetStage(r).None? then a
      else if GatewayStage(a).None? then a.(gateway := InForm(a.gateway))
      else
        var b := GatewayStage(a).value;
        if StartStage(b).None? then b.(start := InForm(b.start))
        else
          var c := StartStage(b).value;
          if EndStage(c).None? then c.(end := InForm(c.end)) else EndStage(c).value
  }

  /** The standard form, or the address as it was when it has none. */
  function InForm(ip: Option<IP>): Option<IP> {
    if ip.Some? && Canonical(ip.value).Some? then Canonical(ip.value) else ip
  }

  lemma SuccessLeaves(r: Range)
    ensures Canonicalized(r).Some? ==> LeftBehind(r) == Canonicalized(r).value
  {
  }

  method CanonicalizeGateway(range: Range) returns (r: Range, ok: bool)
    ensures ok <==> GatewayStage(range).Some?
    ensures r == if ok then GatewayStage(range).value else range.(gateway := InForm(range.gateway))
  {
    r := range;
    if r.gateway.None? {
      return r.(gateway := Some(NextIP(r.subnet.ip))), true;
    }
    var g := Canonical(r.gateway.value);
    if g.None? { return r, false; }
    r := r.(gateway := g);
    ok := InSubnet(r.subnet, g.value);
  }

  method CanonicalizeStart(range: Range) returns (r: Range, ok: bool)
    ensures ok <==> StartStage(range).Some?
    ensures r == if ok then StartStage(range).value else range.(start := InForm(range.start))
  {
    r := range;
    if r.start.None? {
      return r.(start := Some(NextIP(r.subnet.ip))), true;
    }
    var s := Canonical(r.start.value);
    if s.None? { return r, false; }
    r := r.(start := s);
    ok := Contains(r, s.value);
  }

  method CanonicalizeEnd(range: Range) returns (r: Range, ok: bool)
    requires |range.subnet.ip| == 4 || (|range.subnet.ip| == 16 && !Mapped(range.subnet.ip))
    ensures ok <==> EndStage(range).Some?
    ensures r == if ok then EndStage(range).value else range.(end := InForm(range.end))
  {
    r := range;
    if r.end.None? {
      var last := ComputeLastIP(r.subnet);
      return r.(end := Some(last)), true;
    }
    var e := Canonical(r.end.value);
    if e.None? { return r, false; }
    r := r.(end := e);
    ok := Contains(r, e.value);
  }

  /** Range.Canonicalize. */
  method Canonicalize(range: Range) returns (r: Range, ok: bool)
    ensures ok <==> Canonicalized(range).Some?
    ensures r == LeftBehind(range) && (ok ==> Canonicalized(range) == Some(r))
    ensures (ok <==> Sound(range)) && (ok ==> FilledIn(range, r))
  {
    SuccessLeaves(range);
    CanonicalizeSucceeds(range);
    if Sound(range) { CanonicalizeGives(range); }
    r := range;
    var ip := Canonical(r.subnet.ip);
    if ip.None? { return r, false; }
    r := r.(subnet := r.subnet.(ip := ip.value));
    if r.subnet.ones > 8 * r.subnet.maskLen - 2 { return r, false; }
    if |r.subnet.ip| != r.subnet.maskLen { return r, false; }
    r, ok := CanonicalizeGateway(r);
    if !ok { return; }
    r, ok := CanonicalizeStart(r);
    if !ok { return; }
    r, ok := CanonicalizeEnd(r);
  }

  // ---- The arithmetic of a subnet ----

  /** A subnet in standard form that is large enough to allocate from. */
  ghost predicate GoodSubnet(s: Subnet) {
    (|s.ip| == 4 || (|s.ip| == 16 && !Mapped(s.ip))) && s.maskLen == |s.ip| && s.ones + 2 <= 8 * |s.ip|
  }

  function SubnetSize(s: Subnet): nat
    requires GoodSubnet(s)
  {
    Size(s.ip, s.ones)
  }

  /** The first address of the subnet that the address lies in. */
  function Base(s: Subnet): int
    requires GoodSubnet(s)
  {
    Value(s.ip) - Value(s.ip) % SubnetSize(s)
  }

  ghost predicate Inside(s: Subnet, a: IP)
    requires GoodSubnet(s)
  {
    |a| == |s.ip| && Base(s) <= Value(a) < Base(s) + SubnetSize(s)
  }

  lemma SameBlock(x: nat, y: nat, d: nat)
    requires d > 0
    ensures x / d == y / d <==> x - x % d <= y < x - x % d + d
  {
    assert x == d * (x / d) + x % d && y == d * (y / d) + y % d;
    var e := y / d - x / d;
    assert d * e == y - y % d - (x - x % d);
    MulBound(d, e);
  }

  /** IPNet.Contains is an interval test. */
  lemma InSubnetIsInterval(s: Subnet, a: IP)
    requires GoodSubnet(s)
    ensures InSubnet(s, a) <==> Inside(s, a)
  {
    assert Canonical(s.ip) == Some(s.ip);
    if |a| == |s.ip| {
      SameNetworkIsBlock(s.ones, s.ip, a);
      SameBlock(Value(s.ip), Value(a), SubnetSize(s));
    }
  }

  /** A sixteen-byte mask on an IPv4 network counts by its last four bytes: its first 96 ones say nothing. */
  lemma WideMask(s: Subnet, a: IP)
    requires |s.ip| == 4 && |a| == 4 && s.maskLen == 16 && s.ones <= 128
    ensures InSubnet(s, a) <==>
      var hosts := if s.ones > 96 then 128 - s.ones else 32;
      Value(s.ip) / Pow2(hosts) == Value(a) / Pow2(hosts)
  {
    var ones := if s.ones > 96 then s.ones - 96 else 0;
    assert InSubnet(s, a) <==> SameNetwork(ones, s.ip, a);
    SameNetworkIsBlock(ones, s.ip, a);
    assert 8 * |a| - ones == if s.ones > 96 then 128 - s.ones else 32;
  }

  lemma SizeAtLeastFour(s: Subnet)
    requires GoodSubnet(s)
    ensures SubnetSize(s) >= 4 && SubnetSize(s) % 4 == 0
  {
    Pow2Add(2, 8 * |s.ip| - s.ones - 2);
    Pow2Small();
  }

  lemma BaseInside(s: Subnet)
    requires GoodSubnet(s)
    ensures 0 <= Base(s) <= Value(s.ip) < Base(s) + SubnetSize(s)
  {
    ModBound(Value(s.ip), SubnetSize(s));
  }

  lemma ModBound(v: nat, d: nat)
    requires d > 0
    ensures 0 <= v % d < d && v % d <= v
  {
    if v < d {
      DivModUnique(v, d, 0, v);
    }
  }

  /** The subnet ends within the addresses of its length. */
  lemma TopInside(s: Subnet)
    requires GoodSubnet(s)
    ensures Value(LastBytes(s.ones, s.ip)) == Base(s) + SubnetSize(s) - 1 < Pow2(8 * |s.ip|)
  {
    LastValue(s.ones, s.ip);
    ValueBound(LastBytes(s.ones, s.ip));
  }

  /** The default gateway and start lie in the subnet, unless the subnet's address is the last of its network. */
  lemma NextInside(s: Subnet)
    requires GoodSubnet(s) && s.ones > 0
    ensures Inside(s, NextIP(s.ip)) <==> Value(s.ip) != Base(s) + SubnetSize(s) - 1
  {
    BaseInside(s);
    TopInside(s);
    NextValue(s.ip);
    if Value(s.ip) == Base(s) + SubnetSize(s) - 1 { NextOfTop(s); }
  }

  lemma {:induction false} NextWraps(ip: IP)
    requires Value(ip) + 1 == Pow2(8 * |ip|)
    ensures Value(NextIP(ip)) == 0
    decreases |ip|
  {
    if ip != [] {
      var n := |ip| - 1;
      Pow2Add(8, 8 * n);
      Pow2Small();
      assert 256 * Value(ip[..n]) + ip[n] + 1 == 256 * Pow2(8 * n);
      ValueBound(ip[..n]);
      assert ip[n] == 255;
      NextWraps(ip[..n]);
      NextValue(ip[..n]);
      assert (NextIP(ip[..n]) + [0])[..n] == NextIP(ip[..n]);
    }
  }

  lemma SizeAtMostHalf(s: Subnet)
    requires GoodSubnet(s) && s.ones > 0
    ensures 2 * SubnetSize(s) <= Pow2(8 * |s.ip|)
  {
    Pow2Monotone(8 * |s.ip| - s.ones, 8 * |s.ip| - 1);
  }

  lemma NextOfTop(s: Subnet)
    requires GoodSubnet(s) && s.ones > 0 && Value(s.ip) == Base(s) + SubnetSize(s) - 1
    ensures !Inside(s, NextIP(s.ip))
  {
    NextValue(s.ip);
    ValueBound(s.ip);
    SizeAtMostHalf(s);
    if Value(s.ip) + 1 == Pow2(8 * |s.ip|) { NextWraps(s.ip); }
  }

  // ---- What Canonicalize achieves ----

  /** Start and end are set, in standard form, and inside the subnet. */
  ghost predicate Bounded(r: Range) {
    && GoodSubnet(r.subnet) && r.start.Some? && r.end.Some?
    && Proper(r.subnet, r.start.value) && Proper(r.subnet, r.end.value)
  }

  /** So is the gateway. */
  ghost predicate Settled(r: Range) {
    Bounded(r) && r.gateway.Some? && Proper(r.subnet, r.gateway.value)
  }

  ghost predicate Proper(s: Subnet, a: IP)
    requires GoodSubnet(s)
  {
    Inside(s, a) && Canonical(a) == Some(a)
  }

  ghost predicate NonEmpty(r: Range)
    requires Bounded(r)
  {
    Value(r.start.value) <= Value(r.end.value)
  }

  /** The subnet's address is not the last one of its network; so it is when it has no host bits. */
  ghost predicate Roomy(s: Subnet)
    requires GoodSubnet(s)
  {
    Value(s.ip) != Base(s) + SubnetSize(s) - 1
  }

  lemma NetworkAddressRoomy(s: Subnet)
    requires GoodSubnet(s) && Value(s.ip) % SubnetSize(s) == 0
    ensures Roomy(s) && Base(s) == Value(s.ip)
  {
    SizeAtLeastFour(s);
  }

  lemma DropOne(all: IP)
    requires |all| == 4 && all[3] >= 1
    ensures Value(all[3 := all[3] - 1]) == Value(all) - 1
  {
    assert all[3 := all[3] - 1][..3] == all[..3];
  }

  /** A subnet with two host bits or more ends in a byte of at least three. */
  lemma LastByteLarge(s: Subnet)
    requires GoodSubnet(s) && |s.ip| == 4
    ensures LastByte(s.ip[3], s.ones, 3) >= 3
  {
    MaskedByte(s.ip[3], s.ones, 3);
    LowByte(s.ip[3], 8 - OnesIn(s.ones, 3));
  }

  /** IPv4 ends one before the broadcast address, without underflow; IPv6 ends at the last address. */
  lemma LastIPValue(s: Subnet)
    requires GoodSubnet(s)
    ensures |LastIP(s)| == |s.ip| && Value(LastIP(s)) == Base(s) + SubnetSize(s) - (if |s.ip| == 4 then 2 else 1)
  {
    TopInside(s);
    if |s.ip| == 4 {
      LastByteLarge(s);
      DropOne(LastBytes(s.ones, s.ip));
    }
  }

  lemma LowByte(b: byte, h: nat)
    requires 2 <= h <= 8
    ensures b - b % Pow2(h) + Pow2(h) - 1 >= 3
  {
    Pow2Add(2, h - 2);
    Pow2Small();
    ModBound(b, Pow2(h));
  }

  lemma CanonicalTwice(a: IP)
    ensures Canonical(a).Some? ==> Canonical(Canonical(a).value) == Canonical(a)
  {
  }

  /** The default gateway and start are usable when they are inside, and not IPv4 addresses mapped into IPv6. */
  lemma NextProper(s: Subnet)
    requires GoodSubnet(s) && s.ones > 0
    ensures Proper(s, NextIP(s.ip)) <==> Roomy(s) && !Mapped(NextIP(s.ip))
  {
    NextInside(s);
    NextValue(s.ip);
  }

  lemma LastProper(s: Subnet)
    requires GoodSubnet(s)
    ensures Proper(s, LastIP(s)) <==> !Mapped(LastIP(s))
  {
    LastIPValue(s);
    SizeAtLeastFour(s);
  }

  lemma GivenProper(s: Subnet, a: IP)
    requires GoodSubnet(s) && Canonical(a).Some? && InSubnet(s, Canonical(a).value)
    ensures Proper(s, Canonical(a).value)
  {
    CanonicalTwice(a);
    InSubnetIsInterval(s, Canonical(a).value);
  }

  // The defaults that Canonicalize has to use for the range are usable.

  ghost predicate BoundsUsable(r: Range)
    requires SubnetStage(r).Some?
  {
    var s := SubnetStage(r).value.subnet;
    GoodSubnet(s) && (r.start.None? ==> Proper(s, NextIP(s.ip))) && (r.end.None? ==> !Mapped(LastIP(s)))
  }

  ghost predicate DefaultsUsable(r: Range)
    requires SubnetStage(r).Some?
  {
    BoundsUsable(r) && (r.gateway.None? ==> Proper(SubnetStage(r).value.subnet, NextIP(SubnetStage(r).value.subnet.ip)))
  }

  lemma GatewayProper(r: Range)
    requires GoodSubnet(r.subnet) && GatewayStage(r).Some?
    ensures
      var c := GatewayStage(r).value;
      && c.gateway.Some? && c == r.(gateway := c.gateway)
      && (Proper(r.subnet, c.gateway.value) <==> (r.gateway.None? ==> Proper(r.subnet, NextIP(r.subnet.ip))))
  {
    if r.gateway.Some? { GivenProper(r.subnet, r.gateway.value); }
  }

  lemma StartProper(r: Range)
    requires GoodSubnet(r.subnet) && StartStage(r).Some?
    ensures
      var c := StartStage(r).value;
      && c.start.Some? && c == r.(start := c.start)
      && (Proper(r.subnet, c.start.value) <==> (r.start.None? ==> Proper(r.subnet, NextIP(r.subnet.ip))))
  {
    if r.start.Some? { GivenProper(r.subnet, r.start.value); }
  }

  lemma EndProper(r: Range)
    requires GoodSubnet(r.subnet) && EndStage(r).Some?
    ensures
      var c := EndStage(r).value;
      && c.end.Some? && c == r.(end := c.end)
      && (Proper(r.subnet, c.end.value) <==> (r.end.None? ==> !Mapped(LastIP(r.subnet))))
      && (r.end.Some? && r.start.Some? && Proper(r.subnet, r.start.value) ==> Value(r.start.value) <= Value(c.end.value))
  {
    if r.end.Some? { GivenProper(r.subnet, r.end.value); } else { LastProper(r.subnet); }
  }

  lemma SubnetGood(r: Range)
    requires SubnetStage(r).Some?
    ensures var a := SubnetStage(r).value; GoodSubnet(a.subnet) && a == r.(subnet := a.subnet)
  {
  }

  // ---- What the result is ----

  /** One more than the subnet's address, in its length; after the last address comes zero. */
  ghost predicate Follows(s: Subnet, a: IP) {
    |a| == |s.ip| && Value(a) == if Value(s.ip) + 1 == Pow2(8 * |s.ip|) then 0 else Value(s.ip) + 1
  }

  lemma NextFollows(s: Subnet)
    ensures Follows(s, NextIP(s.ip))
  {
    ValueBound(s.ip);
    NextValue(s.ip);
    if Value(s.ip) + 1 == Pow2(8 * |s.ip|) { NextWraps(s.ip); }
  }

  /**
   * `c` is `r` filled in: the subnet is large enough and in standard form, given fields keep their addresses, an omitted
   * gateway or start is the address after the subnet's own, and an omitted end is the last address of the subnet, or for
   * IPv4 the one before it.
   */
  ghost predicate FilledIn(r: Range, c: Range) {
    && GoodSubnet(c.subnet) && Canonical(r.subnet.ip) == Some(c.subnet.ip) && c.subnet == r.subnet.(ip := c.subnet.ip)
    && c.gateway.Some? && c.start.Some? && c.end.Some?
    && (if r.gateway.Some? then c.gateway == Canonical(r.gateway.value) else Follows(c.subnet, c.gateway.value))
    && (if r.start.Some? then c.start == Canonical(r.start.value) else Follows(c.subnet, c.start.value))
    && if r.end.Some? then c.end == Canonical(r.end.value)
       else
         && |c.end.value| == |c.subnet.ip|
         && Value(c.end.value) == Base(c.subnet) + SubnetSize(c.subnet) - (if |c.subnet.ip| == 4 then 2 else 1)
  }

  lemma CanonicalizeGives(r: Range)
    requires Canonicalized(r).Some?
    ensures FilledIn(r, Canonicalized(r).value)
  {
    SubnetGood(r);
    var s := SubnetStage(r).value.subnet;
    NextFollows(s);
    LastIPValue(s);
  }

  /** The given address, in standard form, lies in the subnet. */
  ghost predicate Fits(s: Subnet, a: IP)
    requires GoodSubnet(s)
  {
    Canonical(a).Some? && Inside(s, Canonical(a).value)
  }

  /** The given addresses lie in the subnet, and a given end is not below the start, given or not. */
  ghost predicate Consistent(r: Range, s: Subnet)
    requires GoodSubnet(s)
  {
    && (r.gateway.Some? ==> Fits(s, r.gateway.value))
    && (r.start.Some? ==> Fits(s, r.start.value))
    && (r.end.Some? ==>
          && Fits(s, r.end.value)
          && (r.start.Some? ==> IntOf(r.start.value) <= IntOf(r.end.value))
          && (r.start.None? ==> IntOf(NextIP(s.ip)) <= IntOf(r.end.value)))
  }

  /** The subnet is large enough and of one family with its mask, and the given addresses fit. */
  ghost predicate Sound(r: Range) {
    && Canonical(r.subnet.ip).Some?
    && var s := r.subnet.(ip := Canonical(r.subnet.ip).value);
       GoodSubnet(s) && Consistent(r, s)
  }

  /** It succeeds exactly then. */
  lemma CanonicalizeSucceeds(r: Range)
    ensures Canonicalized(r).Some? <==> Sound(r)
  {
    if SubnetStage(r).Some? {
      SubnetGood(r);
      var s := SubnetStage(r).value.subnet;
      if r.gateway.Some? && Canonical(r.gateway.value).Some? { InSubnetIsInterval(s, Canonical(r.gateway.value).value); }
      if r.start.Some? && Canonical(r.start.value).Some? {
        CanonicalTwice(r.start.value);
        InSubnetIsInterval(s, Canonical(r.start.value).value);
      }
      if r.end.Some? && Canonical(r.end.value).Some? {
        CanonicalTwice(r.end.value);
        InSubnetIsInterval(s, Canonical(r.end.value).value);
      }
    }
  }

  /** A call that fails keeps the address of every given field, fills in an omitted gateway or start at most, and no end. */
  lemma FailureKeeps(r: Range)
    requires Canonicalized(r).None?
    ensures
      var c := LeftBehind(r);
      && InForm(Some(c.subnet.ip)) == InForm(Some(r.subnet.ip)) && c.subnet == r.subnet.(ip := c.subnet.ip)
      && InForm(c.end) == InForm(r.end) && (r.end.None? ==> c.end.None?)
      && (if r.gateway.Some? then InForm(c.gateway) == InForm(r.gateway) else c.gateway.Some? ==> Follows(c.subnet, c.gateway.value))
      && (if r.start.Some? then InForm(c.start) == InForm(r.start) else c.start.Some? ==> Follows(c.subnet, c.start.value))
  {
    if Canonical(r.subnet.ip).Some? {
      CanonicalTwice(r.subnet.ip);
      NextFollows(r.subnet.(ip := Canonical(r.subnet.ip).value));
    }
    if r.gateway.Some? { CanonicalTwice(r.gateway.value); }
    if r.start.Some? { CanonicalTwice(r.start.value); }
    if r.end.Some? { CanonicalTwice(r.end.value); }
  }

  /** Nothing is rewritten after the field that fails: not after a bad subnet, a gateway or a start that does not fit. */
  lemma FailureStops(r: Range)
    requires Canonicalized(r).None? && Canonical(r.subnet.ip).Some?
    ensures
      var s, c := r.subnet.(ip := Canonical(r.subnet.ip).value), LeftBehind(r);
      && c.subnet == s
      && (!GoodSubnet(s) ==> c.gateway == r.gateway && c.start == r.start && c.end == r.end)
      && (GoodSubnet(s) && r.gateway.Some? && !Fits(s, r.gateway.value) ==> c.start == r.start && c.end == r.end)
      && (GoodSubnet(s) && r.start.Some? && !Fits(s, r.start.value) ==> c.end == r.end)
  {
    var s := r.subnet.(ip := Canonical(r.subnet.ip).value);
    CanonicalTwice(r.subnet.ip);
    if GoodSubnet(s) {
      if r.gateway.Some? && Canonical(r.gateway.value).Some? { InSubnetIsInterval(s, Canonical(r.gateway.value).value); }
      if r.start.Some? && Canonical(r.start.value).Some? { InSubnetIsInterval(s, Canonical(r.start.value).value); }
    }
  }

  /** On success, start and end (and the gateway) lie inside the subnet exactly when the defaults that were needed are usable. */
  lemma CanonicalizeSettles(r: Range)
    requires SubnetStage(r).Some? && Canonicalized(r).Some?
    ensures var c := Canonicalized(r).value; (Bounded(c) <==> BoundsUsable(r)) && (Settled(c) <==> DefaultsUsable(r))
  {
    SubnetGood(r);
    var a := SubnetStage(r).value;
    GatewayProper(a);
    StartProper(GatewayStage(a).value);
    EndProper(StartStage(GatewayStage(a).value).value);
  }

  /** On success the range is empty only when an IPv4 start is the broadcast address and no end was given. */
  lemma CanonicalizeOrders(r: Range)
    requires SubnetStage(r).Some? && Canonicalized(r).Some? && BoundsUsable(r)
    ensures Bounded(Canonicalized(r).value)
    ensures
      var c := Canonicalized(r).value;
      NonEmpty(c) <==> !(r.end.None? && |c.subnet.ip| == 4 && Value(c.start.value) == Base(c.subnet) + SubnetSize(c.subnet) - 1)
  {
    CanonicalizeSettles(r);
    SubnetGood(r);
    var a := SubnetStage(r).value;
    GatewayProper(a);
    StartProper(GatewayStage(a).value);
    EndProper(StartStage(GatewayStage(a).value).value);
    LastIPValue(a.subnet);
  }

  /** The end that an IPv6 range gets by default is in the range exactly when it is not a mapped IPv4 address. */
  lemma DefaultEndContained(r: Range)
    requires SubnetStage(r).Some? && |SubnetStage(r).value.subnet.ip| == 16 && r.end.None? && Canonicalized(r).Some?
    requires r.start.None? ==> Proper(SubnetStage(r).value.subnet, NextIP(SubnetStage(r).value.subnet.ip))
    ensures var c := Canonicalized(r).value; c.end.Some? && (Contains(c, c.end.value) <==> !Mapped(c.end.value))
  {
    var c := Canonicalized(r).value;
    SubnetGood(r);
    if !Mapped(LastIP(c.subnet)) {
      CanonicalizeOrders(r);
      ContainsIsInterval(c, c.end.value);
    }
  }

  /** Such a subnet is ::/80. */
  lemma MappedEndExists()
    ensures
      var s := Subnet(seq(16, _ => 0), 80, 16);
      GoodSubnet(s) && Roomy(s) && !Mapped(NextIP(s.ip)) && Mapped(LastIP(s))
  {
    var s := Subnet(seq(16, _ => 0), 80, 16);
    forall i | 0 <= i < 10 ensures LastIP(s)[i] == 0 { FullByte(s.ip[i], 80, i); }
    forall i | 10 <= i < 16 ensures LastIP(s)[i] == 255 { FreeByte(s.ip[i], 80, i); }
    assert LastIP(s)[..10] == [0, 0, 0, 0, 0, 0, 0, 0, 0, 0];
    ZeroValue(s.ip);
    NetworkAddressRoomy(s);
    assert NextIP(s.ip)[10] == 0;
  }

  /** Canonicalizing a range that is settled and not empty changes nothing. */
  lemma CanonicalizeFixed(c: Range)
    requires Settled(c) && NonEmpty(c)
    ensures Canonicalized(c) == Some(c)
  {
    InSubnetIsInterval(c.subnet, c.gateway.value);
    InSubnetIsInterval(c.subnet, c.start.value);
    InSubnetIsInterval(c.subnet, c.end.value);
  }

  // ---- Ranges as intervals ----

  /** Such a range contains exactly the addresses of its length from its start to its end. */
  lemma ContainsIsInterval(r: Range, a: IP)
    requires Bounded(r)
    ensures
      Contains(r, a) <==>
        && Canonical(a).Some? && |Canonical(a).value| == |r.subnet.ip|
        && Value(r.start.value) <= Value(Canonical(a).value) <= Value(r.end.value)
  {
    if Canonical(a).Some? {
      CanonicalTwice(a);
      InSubnetIsInterval(r.subnet, Canonical(a).value);
    }
  }

  predicate Overlaps(r: Range, s: Range)
    requires r.start.Some? && r.end.Some? && s.start.Some? && s.end.Some?
  {
    && |r.start.value| == |s.start.value|
    && (Contains(r, s.start.value) || Contains(r, s.end.value) || Contains(s, r.start.value) || Contains(s, r.end.value))
  }

  ghost predicate Share(r: Range, s: Range) {
    exists a :: Contains(r, a) && Contains(s, a)
  }

  lemma SharedAddress(r: Range, s: Range, a: IP)
    requires Bounded(r) && Bounded(s) && Contains(r, a) && Contains(s, a)
    ensures Overlaps(r, s)
  {
    ContainsIsInterval(r, a);
    ContainsIsInterval(s, a);
    ContainsIsInterval(r, s.start.value);
    ContainsIsInterval(s, r.start.value);
  }

  /** Overlaps holds exactly when some address is in both ranges. */
  lemma OverlapsExact(r: Range, s: Range)
    requires Bounded(r) && Bounded(s) && NonEmpty(r) && NonEmpty(s)
    ensures Overlaps(r, s) <==> Share(r, s)
  {
    if a :| Contains(r, a) && Contains(s, a) { SharedAddress(r, s, a); }
    if Overlaps(r, s) {
      ContainsIsInterval(r, r.start.value);
      ContainsIsInterval(r, r.end.value);
      ContainsIsInterval(s, s.start.value);
      ContainsIsInterval(s, s.end.value);
    }
  }
}
