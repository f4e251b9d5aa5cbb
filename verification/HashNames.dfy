/** Hashes that tell the policies apart exist, as long as there are no more policies than hashes. */
module HashNames {
  import opened PacketFilter
  import opened PolicyTexts

  function Pow32(n: nat): nat {
    if n == 0 then 1 else 32 * Pow32(n - 1)
  }

  function Letter(d: nat): char
    requires d < 32
  {
    if d < 26 then 'A' + d as char else '2' + (d - 26) as char
  }

  /** The last `n` digits of `i` in base 32. */
  function Encode(i: nat, n: nat): string {
    if n == 0 then "" else Encode(i / 32, n - 1) + [Letter(i % 32)]
  }

  lemma {:induction false} EncodeShape(i: nat, n: nat)
    ensures |Encode(i, n)| == n && forall c :: c in Encode(i, n) ==> Base32(c)
    decreases n
  {
    if n > 0 { EncodeShape(i / 32, n - 1); }
  }

  lemma {:induction false} EncodeInjective(i: nat, j: nat, n: nat)
    requires i < Pow32(n) && j < Pow32(n) && Encode(i, n) == Encode(j, n)
    ensures i == j
    decreases n
  {
    if n > 0 {
      var s, t := Encode(i, n), Encode(j, n);
      EncodeShape(i / 32, n - 1);
      EncodeShape(j / 32, n - 1);
      assert s[..n - 1] == Encode(i / 32, n - 1) && t[..n - 1] == Encode(j / 32, n - 1);
      assert s[n - 1] == Letter(i % 32) && t[n - 1] == Letter(j % 32);
      EncodeInjective(i / 32, j / 32, n - 1);
    }
  }

  /** The place of the text in the list, or the length. */
  function Place(texts: seq<string>, s: string): (i: nat)
    ensures i <= |texts| && (i < |texts| ==> texts[i] == s) && (s in texts ==> i < |texts|)
  {
    if texts == [] || texts[0] == s then 0 else 1 + Place(texts[1..], s)
  }

  lemma {:induction false} Listed(keys: set<Key>) returns (ks: seq<Key>)
    ensures |ks| == |keys| && forall k :: k in ks <==> k in keys
    decreases |keys|
  {
    ks := [];
    if keys != {} {
      var k :| k in keys;
      var rest := Listed(keys - {k});
      ks := rest + [k];
    }
  }

  /** Some hash of the right shape distinguishes any keys, up to the number of hashes. */
  lemma HashFor(keys: set<Key>) returns (hash: string -> string)
    requires (forall k :: k in keys ==> NamedKey(k)) && |keys| <= Pow32(16)
    ensures Hashing(hash) && Distinguishes(hash, keys)
  {
    var ks := Listed(keys);
    var texts := seq(|ks|, i requires 0 <= i < |ks| => KeyText(ks[i]));
    hash := (s: string) => Encode(Place(texts, s), 16);
    forall s ensures |hash(s)| == 16 && forall c :: c in hash(s) ==> Base32(c) { EncodeShape(Place(texts, s), 16); }
    forall a, b | a in keys && b in keys && hash(KeyText(a)) == hash(KeyText(b)) ensures a == b {
      InTexts(ks, texts, a);
      InTexts(ks, texts, b);
      EncodeInjective(Place(texts, KeyText(a)), Place(texts, KeyText(b)), 16);
      KeyTextInjective(a, b);
    }
  }

  lemma InTexts(ks: seq<Key>, texts: seq<string>, k: Key)
    requires |texts| == |ks| && (forall i :: 0 <= i < |ks| ==> texts[i] == KeyText(ks[i])) && k in ks
    ensures KeyText(k) in texts
  {
    var i :| 0 <= i < |ks| && ks[i] == k;
    assert texts[i] == KeyText(k);
  }
}
