/** Sorting strings, as Go's sort.Strings does. */
module Sorting {
  import opened Sequences

  /** Lexicographic order. */
  predicate AtMost(a: string, b: string) {
    a == "" || (b != "" && (a[0] < b[0] || (a[0] == b[0] && AtMost(a[1..], b[1..]))))
  }

  /** The first difference is at i, and there `a` has the smaller character. */
  ghost predicate SmallerAt(a: string, b: string, i: int) {
    0 <= i < |a| && i < |b| && a[..i] == b[..i] && a[i] < b[i]
  }

  /** A prefix comes first, and otherwise the first character that differs decides. */
  lemma {:induction false} Lexicographic(a: string, b: string)
    ensures AtMost(a, b) <==> a <= b || exists i :: SmallerAt(a, b, i)
    decreases |a|
  {
    if a != "" && b != "" {
      var s, t := a[1..], b[1..];
      assert forall i :: SmallerAt(a, b, i) && i > 0 ==> a[..i][0] == b[..i][0];
      if a[0] < b[0] {
        assert SmallerAt(a, b, 0);
      } else if a[0] == b[0] {
        Lexicographic(s, t);
        assert a == [a[0]] + s && b == [b[0]] + t;
        if i :| SmallerAt(s, t, i) {
          assert a[..i + 1] == [a[0]] + s[..i] && b[..i + 1] == [b[0]] + t[..i];
          assert SmallerAt(a, b, i + 1);
        }
        if i :| SmallerAt(a, b, i) {
          assert s[..i - 1] == a[..i][1..] && t[..i - 1] == b[..i][1..];
          assert SmallerAt(s, t, i - 1);
        }
      }
    }
  }

  lemma {:induction false} AtMostTotal(a: string, b: string)
    ensures AtMost(a, b) || AtMost(b, a)
    decreases |a|
  {
    if a != "" && b != "" { AtMostTotal(a[1..], b[1..]); }
  }

  lemma {:induction false} AtMostTransitive(a: string, b: string, c: string)
    requires AtMost(a, b) && AtMost(b, c)
    ensures AtMost(a, c)
    decreases |a|
  {
    if a != "" && a[0] == b[0] && b[0] == c[0] { AtMostTransitive(a[1..], b[1..], c[1..]); }
  }

  lemma {:induction false} AtMostAntisymmetric(a: string, b: string)
    requires AtMost(a, b) && AtMost(b, a)
    ensures a == b
    decreases |a|
  {
    if a != "" && b != "" {
      AtMostAntisymmetric(a[1..], b[1..]);
      assert a == [a[0]] + a[1..] && b == [b[0]] + b[1..];
    }
  }

  ghost predicate Sorted(s: seq<string>) {
    forall i, j :: 0 <= i < j < |s| ==> AtMost(s[i], s[j])
  }

  /** `s` with `x` put before the first element that is not smaller. */
  function Insert(s: seq<string>, x: string): seq<string> {
    if s == [] || AtMost(x, s[0]) then [x] + s else [s[0]] + Insert(s[1..], x)
  }

  lemma {:induction false} InsertMembers(s: seq<string>, x: string)
    ensures multiset(Insert(s, x)) == multiset(s) + multiset{x}
    decreases |s|
  {
    if s != [] && !AtMost(x, s[0]) {
      InsertMembers(s[1..], x);
      assert s == [s[0]] + s[1..];
    }
  }

  lemma {:induction false} InsertSorted(s: seq<string>, x: string)
    requires Sorted(s)
    ensures Sorted(Insert(s, x))
    decreases |s|
  {
    if s == [] {
    } else if AtMost(x, s[0]) {
      forall j | 1 <= j < |s| ensures AtMost(x, s[j]) { AtMostTransitive(x, s[0], s[j]); }
    } else {
      AtMostTotal(x, s[0]);
      InsertSorted(s[1..], x);
      InsertMembers(s[1..], x);
      var rest := Insert(s[1..], x);
      forall j | 0 <= j < |rest| ensures AtMost(s[0], rest[j]) {
        assert rest[j] in multiset(rest);
        assert rest[j] == x || rest[j] in s[1..];
      }
    }
  }

  function Sort(names: seq<string>): seq<string> {
    if names == [] then [] else Insert(Sort(names[..|names| - 1]), names[|names| - 1])
  }

  lemma {:induction false} SortSpec(names: seq<string>)
    ensures Sorted(Sort(names)) && multiset(Sort(names)) == multiset(names)
    decreases |names|
  {
    if names != [] {
      var front, last := names[..|names| - 1], names[|names| - 1];
      SortSpec(front);
      InsertSorted(Sort(front), last);
      InsertMembers(Sort(front), last);
      assert names == front + [last];
    }
  }

  /** sort.Strings: an ordered permutation, which is the only one. */
  method SortStrings(names: seq<string>) returns (sorted: seq<string>)
    ensures sorted == Sort(names) && Sorted(sorted) && multiset(sorted) == multiset(names)
  {
    sorted := [];
    for i := 0 to |names|
      invariant sorted == Sort(names[..i])
    {
      assert names[..i + 1][..i] == names[..i];
      sorted := Insert(sorted, names[i]);
    }
    assert names[..|names|] == names;
    SortSpec(names);
  }

  /** The sorted order of given elements is unique. */
  lemma {:induction false} SortedUnique(a: seq<string>, b: seq<string>)
    requires Sorted(a) && Sorted(b) && multiset(a) == multiset(b)
    ensures a == b
    decreases |a|
  {
    assert |multiset(a)| == |a| && |multiset(b)| == |b|;
    if a != [] {
      SameFirst(a, b);
      assert a == [a[0]] + a[1..] && b == [b[0]] + b[1..];
      assert multiset(a[1..]) == multiset(a) - multiset{a[0]} && multiset(b[1..]) == multiset(b) - multiset{b[0]};
      SortedUnique(a[1..], b[1..]);
    }
  }

  lemma SameFirst(a: seq<string>, b: seq<string>)
    requires Sorted(a) && Sorted(b) && a != [] && b != [] && multiset(a) == multiset(b)
    ensures a[0] == b[0]
  {
    assert a[0] in multiset(b) && b[0] in multiset(a);
    SortedFirst(a, b[0]);
    SortedFirst(b, a[0]);
    AtMostAntisymmetric(a[0], b[0]);
  }

  lemma {:induction false} AtMostReflexive(a: string)
    ensures AtMost(a, a)
    decreases |a|
  {
    if a != "" { AtMostReflexive(a[1..]); }
  }

  lemma SortedFirst(s: seq<string>, x: string)
    requires Sorted(s) && x in s
    ensures AtMost(s[0], x)
  {
    AtMostReflexive(x);
  }

  lemma {:induction false} CountOnce(s: seq<string>, x: string)
    requires NoDuplicates(s)
    ensures multiset(s)[x] <= 1
    decreases |s|
  {
    if s != [] {
      CountOnce(s[1..], x);
      assert s == [s[0]] + s[1..];
      assert s[0] !in s[1..];
    }
  }

  lemma CountTwice(s: seq<string>, i: nat, j: nat)
    requires i < j < |s| && s[i] == s[j]
    ensures multiset(s)[s[i]] >= 2
  {
    assert s == s[..j] + s[j..];
    assert s[i] in s[..j] && s[j] in s[j..];
    assert multiset(s) == multiset(s[..j]) + multiset(s[j..]);
  }

  /** A permutation of names without duplicates has the same members and no duplicates. */
  lemma SameMembers(a: seq<string>, b: seq<string>)
    requires multiset(a) == multiset(b) && NoDuplicates(b)
    ensures NoDuplicates(a) && forall c :: c in a <==> c in b
  {
    forall i, j | 0 <= i < j < |a| ensures a[i] != a[j] {
      if a[i] == a[j] {
        CountTwice(a, i, j);
        CountOnce(b, a[i]);
      }
    }
    forall c ensures c in a <==> c in b { assert c in a <==> c in multiset(a); assert c in b <==> c in multiset(b); }
  }
}
