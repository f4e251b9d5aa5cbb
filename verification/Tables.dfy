/**
 * The chains of one iptables table: named lists of rules, and the commands that change them.
 * The chain names and the rules are type parameters, so that the same table serves rules
 * kept as text and rules kept as structured matches.
 */
module Tables {
  import opened Sequences

  type Table<C, R> = map<C, seq<R>>

  datatype Position = Prepend | Append

  function Rules<C(==), R>(t: Table<C, R>, c: C): seq<R> {
    if c in t then t[c] else []
  }

  function EnsureChain<C(==), R>(t: Table<C, R>, c: C): Table<C, R> {
    if c in t then t else t[c := []]
  }

  function FlushChain<C(==), R>(t: Table<C, R>, c: C): Table<C, R> {
    if c in t then t[c := []] else t
  }

  function DeleteChain<C(==), R>(t: Table<C, R>, c: C): Table<C, R> {
    map d | d in t && d != c :: t[d]
  }

  function Place<R>(rules: seq<R>, position: Position, r: R): seq<R> {
    if position.Prepend? then [r] + rules else rules + [r]
  }

  /** Adds a rule only when the chain does not hold it yet; a missing chain is created. */
  function EnsureRule<C(==), R(==)>(t: Table<C, R>, position: Position, c: C, r: R): Table<C, R> {
    var u := EnsureChain(t, c);
    if r in u[c] then u else u[c := Place(u[c], position, r)]
  }

  function DeleteRule<C(==), R(==)>(t: Table<C, R>, c: C, r: R): Table<C, R> {
    if c in t then t[c := RemoveFirst(t[c], r)] else t
  }

  /** One line of an iptables-restore input. */
  datatype Directive<C, R> =
    | Declare(chain: C)
    | AddRule(position: Position, chain: C, rule: R)
    | Discard(chain: C)

  datatype Restored<C, R> = Restored(table: Table<C, R>, ok: bool)

  /** A declared user chain is flushed, unless the same input discards it. */
  ghost predicate Flushes<C(!new), R(!new)>(builtin: set<C>, all: seq<Directive<C, R>>, c: C) {
    c !in builtin && Discard(c) !in all
  }

  ghost function Obey<C(!new), R(!new)>(t: Table<C, R>, builtin: set<C>, all: seq<Directive<C, R>>,
                                        d: Directive<C, R>): Restored<C, R>
  {
    match d
    case Declare(c) =>
      var u := EnsureChain(t, c);
      Restored(if Flushes(builtin, all, c) then FlushChain(u, c) else u, true)
    case AddRule(position, c, r) => Restored(EnsureRule(t, position, c, r), true)
    case Discard(c) => if c in t then Restored(DeleteChain(t, c), true) else Restored(t, false)
  }

  /** Restore without a table flush: lines take effect in order, and the first failure stops. */
  ghost function Restore<C(!new), R(!new)>(t: Table<C, R>, builtin: set<C>, all: seq<Directive<C, R>>,
                                           ds: seq<Directive<C, R>>): Restored<C, R>
    decreases |ds|
  {
    if ds == [] then Restored(t, true)
    else
      var u := Obey(t, builtin, all, ds[0]);
      if u.ok then Restore(u.table, builtin, all, ds[1..]) else u
  }

  lemma {:induction false} RestoreConcat<C(!new), R(!new)>(t: Table<C, R>, builtin: set<C>, all: seq<Directive<C, R>>,
                                                          ds: seq<Directive<C, R>>, es: seq<Directive<C, R>>)
    ensures
      var u := Restore(t, builtin, all, ds);
      Restore(t, builtin, all, ds + es) == if u.ok then Restore(u.table, builtin, all, es) else u
    decreases |ds|
  {
    if ds == [] {
      assert ds + es == es;
    } else {
      assert (ds + es)[0] == ds[0] && (ds + es)[1..] == ds[1..] + es;
      var u := Obey(t, builtin, all, ds[0]);
      if u.ok { RestoreConcat(u.table, builtin, all, ds[1..], es); }
    }
  }

  // ---- The shape of a rewrite: declare chains, fill them, discard others ----

  function Declares<C, R>(cs: seq<C>): seq<Directive<C, R>> {
    seq(|cs|, i requires 0 <= i < |cs| => Declare(cs[i]))
  }

  function Discards<C, R>(cs: seq<C>): seq<Directive<C, R>> {
    seq(|cs|, i requires 0 <= i < |cs| => Discard(cs[i]))
  }

  function Fills<C, R>(c: C, rules: seq<R>): seq<Directive<C, R>> {
    seq(|rules|, i requires 0 <= i < |rules| => AddRule(Append, c, rules[i]))
  }

  function FillAll<C, R>(cs: seq<C>, contents: seq<seq<R>>): seq<Directive<C, R>>
    requires |cs| == |contents|
  {
    if cs == [] then [] else Fills(cs[0], contents[0]) + FillAll(cs[1..], contents[1..])
  }

  /** Declare the kept and the stale chains, append the kept chains' rules, discard the stale ones. */
  function Rewrite<C, R>(kept: seq<C>, contents: seq<seq<R>>, stale: seq<C>): seq<Directive<C, R>>
    requires |kept| == |contents|
  {
    Declares(kept) + Declares(stale) + FillAll(kept, contents) + Discards(stale)
  }

  lemma DiscardInRewrite<C(!new), R(!new)>(kept: seq<C>, contents: seq<seq<R>>, stale: seq<C>, c: C)
    requires |kept| == |contents|
    ensures Discard(c) in Rewrite(kept, contents, stale) <==> c in stale
  {
    NoDiscardInFillAll(kept, contents, c);
    if c in stale {
      var i :| 0 <= i < |stale| && stale[i] == c;
      assert Discards<C, R>(stale)[i] == Discard(c);
    }
  }

  lemma {:induction false} NoDiscardInFillAll<C(!new), R(!new)>(cs: seq<C>, contents: seq<seq<R>>, c: C)
    requires |cs| == |contents|
    ensures Discard(c) !in FillAll(cs, contents)
  {
    if cs != [] { NoDiscardInFillAll(cs[1..], contents[1..], c); }
  }

  lemma {:induction false} FillAllMember<C(!new), R(!new)>(cs: seq<C>, contents: seq<seq<R>>, d: Directive<C, R>) returns (i: nat, j: nat)
    requires |cs| == |contents| && d in FillAll(cs, contents)
    ensures i < |cs| && j < |contents[i]| && d == AddRule(Append, cs[i], contents[i][j])
    decreases |cs|
  {
    if d in Fills(cs[0], contents[0]) {
      i, j := 0, 0;
      j :| 0 <= j < |contents[0]| && Fills(cs[0], contents[0])[j] == d;
    } else {
      i, j := FillAllMember(cs[1..], contents[1..], d);
      i := i + 1;
    }
  }

  /** The table after the chains `cs` have been declared. */
  ghost predicate Declared<C(!new), R(!new)>(t: Table<C, R>, u: Table<C, R>, builtin: set<C>,
                                             all: seq<Directive<C, R>>, cs: seq<C>) {
    forall c ::
      && (c in u <==> c in t || c in cs)
      && (c in u ==> u[c] == if c in cs && Flushes(builtin, all, c) then [] else Rules(t, c))
  }

  lemma {:induction false} RestoreDeclares<C(!new), R(!new)>(t: Table<C, R>, builtin: set<C>,
                                                            all: seq<Directive<C, R>>, cs: seq<C>)
    ensures
      var u := Restore(t, builtin, all, Declares(cs));
      u.ok && Declared(t, u.table, builtin, all, cs)
    decreases |cs|
  {
    if cs != [] {
      assert Declares<C, R>(cs)[1..] == Declares(cs[1..]);
      var v := Obey(t, builtin, all, Declare(cs[0])).table;
      RestoreDeclares(v, builtin, all, cs[1..]);
      var u := Restore(v, builtin, all, Declares(cs[1..])).table;
      forall c
        ensures c in u <==> c in t || c in cs
        ensures c in u ==> u[c] == if c in cs && Flushes(builtin, all, c) then [] else Rules(t, c)
      {
        assert c in cs <==> c == cs[0] || c in cs[1..];
      }
    }
  }

  lemma {:induction false} RestoreDiscards<C(!new), R(!new)>(t: Table<C, R>, builtin: set<C>,
                                                            all: seq<Directive<C, R>>, cs: seq<C>)
    requires NoDuplicates(cs) && forall c :: c in cs ==> c in t
    ensures
      var u := Restore(t, builtin, all, Discards(cs));
      u.ok && u.table == map c | c in t && c !in cs :: t[c]
    decreases |cs|
  {
    if cs != [] {
      assert Discards<C, R>(cs)[1..] == Discards(cs[1..]);
      assert cs[0] !in cs[1..];
      RestoreDiscards(DeleteChain(t, cs[0]), builtin, all, cs[1..]);
      assert cs == [cs[0]] + cs[1..];
    }
  }

  // ---- What a rewrite does ----

  /** The rules of a chain after new ones were ensured one by one. */
  function AppendNew<R(==)>(was: seq<R>, rules: seq<R>): seq<R>
    decreases |rules|
  {
    if rules == [] then was
    else AppendNew(if rules[0] in was then was else was + [rules[0]], rules[1..])
  }

  lemma {:induction false} AppendNewKeeps<R>(was: seq<R>, rules: seq<R>)
    ensures was <= AppendNew(was, rules)
    decreases |rules|
  {
    if rules != [] { AppendNewKeeps(if rules[0] in was then was else was + [rules[0]], rules[1..]); }
  }

  lemma {:induction false} AppendNewRest<R>(rules: seq<R>, done: nat, k: nat)
    requires NoDuplicates(rules) && done <= k <= |rules|
    ensures AppendNew(rules[..k], rules[done..]) == rules
    decreases |rules| - done
  {
    if done == |rules| {
      assert rules[..k] == rules;
    } else {
      assert rules[done..][1..] == rules[done + 1..];
      if done < k {
        assert rules[done] == rules[..k][done];
        AppendNewRest(rules, done + 1, k);
      } else {
        assert rules[..k] + [rules[done]] == rules[..k + 1];
        AppendNewRest(rules, done + 1, k + 1);
      }
    }
  }

  /** A chain ends with exactly the new rules if and only if its old rules were the first of them. */
  lemma AppendNewExact<R>(was: seq<R>, rules: seq<R>)
    requires NoDuplicates(rules)
    ensures AppendNew(was, rules) == rules <==> was <= rules
  {
    AppendNewKeeps(was, rules);
    if was <= rules {
      assert was == rules[..|was|] && rules[0..] == rules;
      AppendNewRest(rules, 0, |was|);
    }
  }

  lemma {:induction false} RestoreFills<C(!new), R(!new)>(t: Table<C, R>, builtin: set<C>,
                                                            all: seq<Directive<C, R>>, c: C, rules: seq<R>)
    requires c in t
    ensures Restore(t, builtin, all, Fills(c, rules)) == Restored(t[c := AppendNew(t[c], rules)], true)
    decreases |rules|
  {
    if rules == [] {
      assert t[c := t[c]] == t;
    } else {
      assert Fills(c, rules)[1..] == Fills(c, rules[1..]);
      var u := EnsureRule(t, Append, c, rules[0]);
      RestoreFills(u, builtin, all, c, rules[1..]);
      assert u[c := AppendNew(u[c], rules[1..])] == t[c := AppendNew(t[c], rules)];
    }
  }

  /** Every kept chain has the new rules appended to what it held. */
  ghost predicate Appended<C(!new), R(!new)>(t: Table<C, R>, u: Table<C, R>, cs: seq<C>, contents: seq<seq<R>>) {
    && |cs| == |contents| && u.Keys == t.Keys
    && (forall i :: 0 <= i < |cs| ==> cs[i] in t && u[cs[i]] == AppendNew(t[cs[i]], contents[i]))
    && forall c :: c in t && c !in cs ==> u[c] == t[c]
  }

  lemma {:induction false} RestoreFillAll<C(!new), R(!new)>(t: Table<C, R>, builtin: set<C>, all: seq<Directive<C, R>>,
                                                              cs: seq<C>, contents: seq<seq<R>>)
    requires |cs| == |contents| && NoDuplicates(cs) && forall i :: 0 <= i < |cs| ==> cs[i] in t
    ensures
      var u := Restore(t, builtin, all, FillAll(cs, contents));
      u.ok && Appended(t, u.table, cs, contents)
    decreases |cs|
  {
    if cs != [] {
      var v := t[cs[0] := AppendNew(t[cs[0]], contents[0])];
      RestoreFills(t, builtin, all, cs[0], contents[0]);
      RestoreConcat(t, builtin, all, Fills(cs[0], contents[0]), FillAll(cs[1..], contents[1..]));
      assert forall i :: 0 <= i < |cs[1..]| ==> cs[1..][i] == cs[i + 1] && contents[1..][i] == contents[i + 1];
      RestoreFillAll(v, builtin, all, cs[1..], contents[1..]);
      AppendedCons(t, v, Restore(v, builtin, all, FillAll(cs[1..], contents[1..])).table, cs, contents);
    }
  }

  lemma AppendedCons<C(!new), R(!new)>(t: Table<C, R>, v: Table<C, R>, u: Table<C, R>, cs: seq<C>, contents: seq<seq<R>>)
    requires cs != [] && |cs| == |contents| && NoDuplicates(cs) && cs[0] in t
    requires v == t[cs[0] := AppendNew(t[cs[0]], contents[0])] && Appended(v, u, cs[1..], contents[1..])
    ensures Appended(t, u, cs, contents)
  {
    assert cs == [cs[0]] + cs[1..];
    forall i | 0 <= i < |cs| ensures cs[i] in t && u[cs[i]] == AppendNew(t[cs[i]], contents[i]) {
      if i == 0 { assert cs[0] !in cs[1..]; } else { assert cs[1..][i - 1] == cs[i] && contents[1..][i - 1] == contents[i]; }
    }
  }

  /** What a kept chain holds when its rules are written: nothing, unless it is spared the flush. */
  function Remaining<C(==), R>(t: Table<C, R>, spared: set<C>, c: C): seq<R> {
    if c in spared then Rules(t, c) else []
  }

  /**
   * Restoring a rewrite when some chains are spared the flush: stale chains go, other chains stay, and
   * the kept chains have their new rules appended to what they still hold.
   */
  lemma RestoreRewriteAny<C(!new), R(!new)>(t: Table<C, R>, spared: set<C>, kept: seq<C>, contents: seq<seq<R>>, stale: seq<C>)
    requires |kept| == |contents| && NoDuplicates(kept) && NoDuplicates(stale)
    requires forall c :: c in stale ==> c in t && c !in kept
    ensures
      var all := Rewrite(kept, contents, stale);
      var u := Restore(t, spared, all, all);
      && u.ok
      && (forall c :: c in u.table <==> (c in t || c in kept) && c !in stale)
      && (forall i :: 0 <= i < |kept| ==> u.table[kept[i]] == AppendNew(Remaining(t, spared, kept[i]), contents[i]))
      && forall c :: c in t && c !in kept && c !in stale ==> u.table[c] == t[c]
  {
    var all := Rewrite(kept, contents, stale);
    forall c ensures Discard(c) in all <==> c in stale { DiscardInRewrite(kept, contents, stale, c); }
    var a := Restore(t, spared, all, Declares(kept)).table;
    RestoreDeclares(t, spared, all, kept);
    var b := Restore(a, spared, all, Declares(stale)).table;
    RestoreDeclares(a, spared, all, stale);
    assert forall i :: 0 <= i < |kept| ==> kept[i] !in stale && kept[i] in b && b[kept[i]] == Remaining(t, spared, kept[i]);
    RestoreFillAll(b, spared, all, kept, contents);
    var d := Restore(b, spared, all, FillAll(kept, contents)).table;
    RestoreDiscards(d, spared, all, stale);
    RewriteInSteps(t, spared, kept, contents, stale);
  }

  lemma RewriteInSteps<C(!new), R(!new)>(t: Table<C, R>, builtin: set<C>, kept: seq<C>, contents: seq<seq<R>>, stale: seq<C>)
    requires |kept| == |contents|
    ensures
      var all := Rewrite(kept, contents, stale);
      var a := Restore(t, builtin, all, Declares(kept));
      var b := Restore(a.table, builtin, all, Declares(stale));
      var d := Restore(b.table, builtin, all, FillAll(kept, contents));
      a.ok && b.ok && d.ok ==> Restore(t, builtin, all, all) == Restore(d.table, builtin, all, Discards(stale))
  {
    var all := Rewrite(kept, contents, stale);
    RestoreConcat(t, builtin, all, Declares(kept), Declares(stale));
    RestoreConcat(t, builtin, all, Declares(kept) + Declares(stale), FillAll(kept, contents));
    RestoreConcat(t, builtin, all, Declares(kept) + Declares(stale) + FillAll(kept, contents), Discards(stale));
  }

  /**
   * Restoring a rewrite leaves each kept chain with exactly its new rules in order, whatever it
   * held before, removes every stale chain, and changes no other chain.
   */
  lemma RestoreRewrite<C(!new), R(!new)>(t: Table<C, R>, builtin: set<C>, kept: seq<C>, contents: seq<seq<R>>, stale: seq<C>)
    requires |kept| == |contents| && NoDuplicates(kept) && NoDuplicates(stale)
    requires forall c :: c in stale ==> c in t && c !in kept
    requires forall c :: c in kept || c in stale ==> c !in builtin
    requires forall i :: 0 <= i < |contents| ==> NoDuplicates(contents[i])
    ensures
      var all := Rewrite(kept, contents, stale);
      var u := Restore(t, builtin, all, all);
      && u.ok
      && (forall c :: c in u.table <==> (c in t || c in kept) && c !in stale)
      && (forall i :: 0 <= i < |kept| ==> u.table[kept[i]] == contents[i])
      && forall c :: c in t && c !in kept && c !in stale ==> u.table[c] == t[c]
  {
    RestoreRewriteAny(t, builtin, kept, contents, stale);
    forall i | 0 <= i < |kept| ensures AppendNew(Remaining(t, builtin, kept[i]), contents[i]) == contents[i] {
      AppendNewExact([], contents[i]);
    }
  }
}
