/** Sets of address ranges: pkg/ipam/backend/allocator/range_set.go. */
module RangeSets {
  import opened Sequences
  import opened Bytes
  import opened AddressRanges

  lemma CanonicalizedFull(r: Range)
    requires Canonicalized(r).Some?
    ensures var c := Canonicalized(r).value; c.start.Some? && c.end.Some? && c.gateway.Some?
  {
  }

  ghost predicate Full(ranges: seq<Range>) {
    forall i :: 0 <= i < |ranges| ==> ranges[i].start.Some? && ranges[i].end.Some?
  }

  ghost predicate OneFamily(ranges: seq<Range>)
    requires Full(ranges)
  {
    forall i :: 0 <= i < |ranges| ==> |ranges[i].start.value| == |ranges[0].start.value|
  }

  ghost predicate NoOverlaps(ranges: seq<Range>)
    requires Full(ranges)
  {
    forall i, j :: 0 <= i < j < |ranges| ==> !Overlaps(ranges[i], ranges[j])
  }

  function Results(ranges: seq<Range>): seq<Option<Range>> {
    seq(|ranges|, i requires 0 <= i < |ranges| => Canonicalized(ranges[i]))
  }

  /** The first `n` ranges have been replaced by their results, the others are untouched. */
  ghost predicate Replaced(was: seq<Range>, results: seq<Option<Range>>, now: seq<Range>, n: nat) {
    && |now| == |was| == |results|
    && (forall i :: 0 <= i < n && i < |was| ==> results[i] == Some(now[i]))
    && forall i :: n <= i < |was| ==> now[i] == was[i]
  }

  /** The first `n` ranges of `now` are those of `was` canonicalized, the others are untouched. */
  ghost predicate Rewritten(was: seq<Range>, now: seq<Range>, n: nat) {
    Replaced(was, Results(was), now, n)
  }

  /** The range after the first `n` has failed: it is left as the failure leaves it. */
  ghost predicate FailedAt(was: seq<Range>, now: seq<Range>, n: nat) {
    && n < |was| == |now| && Canonicalized(was[n]).None?
    && now[n] == LeftBehind(was[n]) && Rewritten(was, now[n := was[n]], n)
  }

  /** A prefix of the ranges has been rewritten, and possibly the next one has failed. */
  ghost predicate PartlyRewritten(was: seq<Range>, now: seq<Range>) {
    (exists n: nat :: n <= |was| && Rewritten(was, now, n)) || exists n: nat :: FailedAt(was, now, n)
  }

  /** The ranges before number `n` are canonicalized and of one family, and number `n` fails. */
  ghost predicate StoppedAt(was: seq<Range>, now: seq<Range>, n: nat) {
    FailedAt(was, now, n) && Full(now[..n]) && OneFamily(now[..n])
  }

  /** The ranges up to number `n` are canonicalized, and number `n` is the first of another family. */
  ghost predicate MixedAt(was: seq<Range>, now: seq<Range>, n: nat) {
    && 0 < n < |was| && Rewritten(was, now, n + 1) && Full(now[..n + 1])
    && OneFamily(now[..n]) && |now[n].start.value| != |now[0].start.value|
  }

  /** Why a call fails, and how far it has got: no range, a range that fails, a range of another family, or an overlap. */
  ghost predicate Refused(was: seq<Range>, now: seq<Range>) {
    || (was == [] && now == [])
    || (exists n: nat :: StoppedAt(was, now, n))
    || (exists n: nat :: MixedAt(was, now, n))
    || (Rewritten(was, now, |was|) && Full(now) && OneFamily(now) && !NoOverlaps(now))
  }

  ghost predicate Accepted(was: seq<Range>, now: seq<Range>) {
    was != [] && Rewritten(was, now, |was|) && Full(now) && OneFamily(now) && NoOverlaps(now)
  }

  lemma RewrittenUnique(was: seq<Range>, results: seq<Option<Range>>, now: seq<Range>)
    requires Replaced(was, results, now, |was|)
    ensures forall other :: Replaced(was, results, other, |was|) ==> other == now
  {
    forall other | Replaced(was, results, other, |was|) ensures other == now {
      forall i | 0 <= i < |was| ensures other[i] == now[i] {
        assert results[i] == Some(now[i]);
      }
    }
  }

  /** One more range is canonicalized: the family is still one, or no rewriting of the whole set has one family. */
  lemma FamilySnoc(was: seq<Range>, results: seq<Option<Range>>, now: seq<Range>, r: Range, i: nat)
    requires i < |now| && Replaced(was, results, now, i) && Full(now[..i]) && OneFamily(now[..i])
    requires results[i] == Some(r) && r.start.Some? && r.end.Some?
    ensures
      var next := now[i := r];
      && Replaced(was, results, next, i + 1) && Full(next[..i + 1])
      && (i == 0 || |r.start.value| == |now[0].start.value| ==> OneFamily(next[..i + 1]))
      && (i > 0 && |r.start.value| != |now[0].start.value| ==>
            forall other :: Replaced(was, results, other, |was|) && Full(other) ==> !OneFamily(other))
  {
    var next := now[i := r];
    assert forall k :: 0 <= k < i ==> next[..i + 1][k] == now[..i][k];
    if i > 0 && |r.start.value| != |now[0].start.value| {
      forall other | Replaced(was, results, other, |was|) && Full(other) ensures !OneFamily(other) {
        assert results[0] == Some(now[0]) && results[0] == Some(other[0]) && results[i] == Some(other[i]);
      }
    }
  }

  /** The second loop: every pair of ranges is compared. */
  method Disjoint(ranges: seq<Range>) returns (ok: bool)
    requires Full(ranges) && ranges != []
    ensures ok <==> NoOverlaps(ranges)
  {
    for i := 0 to |ranges| - 1
      invariant forall k, j :: 0 <= k < i && k < j < |ranges| ==> !Overlaps(ranges[k], ranges[j])
    {
      for m := i + 1 to |ranges|
        invariant forall j :: i < j < m ==> !Overlaps(ranges[i], ranges[j])
      {
        if Overlaps(ranges[i], ranges[m]) { return false; }
      }
    }
    return true;
  }

  class RangeSet {
    var ranges: seq<Range>

    constructor (ranges: seq<Range>)
      ensures this.ranges == ranges
    {
      this.ranges := ranges;
    }

    /** The first loop: every range is canonicalized and the families are compared. */
    method CanonicalizeEach() returns (ok: bool)
      modifies this
      ensures PartlyRewritten(old(ranges), ranges)
      ensures ok ==> Rewritten(old(ranges), ranges, |ranges|) && Full(ranges) && OneFamily(ranges)
      ensures !ok ==> (exists n: nat :: StoppedAt(old(ranges), ranges, n)) || exists n: nat :: MixedAt(old(ranges), ranges, n)
      ensures !ok ==> forall now :: Rewritten(old(ranges), now, |old(ranges)|) && Full(now) ==> !OneFamily(now)
    {
      var family := 0;
      assert Rewritten(old(ranges), ranges, 0);
      for i := 0 to |ranges|
        invariant Rewritten(old(ranges), ranges, i) && Full(ranges[..i])
        invariant i > 0 ==> family == |ranges[0].start.value|
        invariant OneFamily(ranges[..i])
      {
        var r, good := AddressRanges.Canonicalize(ranges[i]);
        assert Results(old(ranges))[i] == Canonicalized(ranges[i]);
        if !good {
          ghost var before := ranges;
          ranges := ranges[i := r];
          assert ranges[i := before[i]] == before;
          assert ranges[..i] == before[..i];
          assert StoppedAt(old(ranges), ranges, i);
          return false;
        }
        CanonicalizedFull(ranges[i]);
        FamilySnoc(old(ranges), Results(old(ranges)), ranges, r, i);
        ranges := ranges[i := r];
        assert Rewritten(old(ranges), ranges, i + 1);
        if i == 0 {
          family := |ranges[0].start.value|;
        } else if family != |ranges[i].start.value| {
          assert MixedAt(old(ranges), ranges, i);
          return false;
        }
      }
      assert ranges[..|ranges|] == ranges;
      return true;
    }

    /** On success every range is canonicalized, all are of one family and no two overlap; it fails only when that cannot be. */
    method Canonicalize() returns (ok: bool)
      modifies this
      ensures PartlyRewritten(old(ranges), ranges)
      ensures if ok then Accepted(old(ranges), ranges) else Refused(old(ranges), ranges)
      ensures !ok ==> forall now :: !Accepted(old(ranges), now)
    {
      if ranges == [] {
        assert Rewritten(old(ranges), ranges, 0);
        return false;
      }
      ok := CanonicalizeEach();
      if ok {
        ok := Disjoint(ranges);
        RewrittenUnique(old(ranges), Results(old(ranges)), ranges);
      }
    }

    /** The first range that contains the address. */
    method RangeFor(addr: IP) returns (r: Option<Range>, ghost index: nat)
      ensures r.None? <==> forall i :: 0 <= i < |ranges| ==> !AddressRanges.Contains(ranges[i], addr)
      ensures r.Some? ==>
        && index < |ranges| && r.value == ranges[index] && AddressRanges.Contains(ranges[index], addr)
        && forall j :: 0 <= j < index ==> !AddressRanges.Contains(ranges[j], addr)
    {
      index := 0;
      if Canonical(addr).None? { return None, 0; }
      for i := 0 to |ranges|
        invariant forall j :: 0 <= j < i ==> !AddressRanges.Contains(ranges[j], addr)
      {
        if AddressRanges.Contains(ranges[i], addr) { return Some(ranges[i]), i; }
      }
      return None, 0;
    }

    method Contains(addr: IP) returns (b: bool)
      ensures b <==> exists i :: 0 <= i < |ranges| && AddressRanges.Contains(ranges[i], addr)
    {
      var r, index := RangeFor(addr);
      return r.Some?;
    }

    method Overlaps(other: RangeSet) returns (b: bool)
      requires Full(ranges) && Full(other.ranges)
      ensures b <==> SetsOverlap(ranges, other.ranges)
    {
      for i := 0 to |ranges|
        invariant forall k, j :: 0 <= k < i && 0 <= j < |other.ranges| ==> !AddressRanges.Overlaps(ranges[k], other.ranges[j])
      {
        for m := 0 to |other.ranges|
          invariant forall j :: 0 <= j < m ==> !AddressRanges.Overlaps(ranges[i], other.ranges[j])
        {
          if AddressRanges.Overlaps(ranges[i], other.ranges[m]) { return true; }
        }
      }
      return false;
    }
  }

  ghost predicate SetsOverlap(a: seq<Range>, b: seq<Range>)
    requires Full(a) && Full(b)
  {
    exists i, j :: 0 <= i < |a| && 0 <= j < |b| && Overlaps(a[i], b[j])
  }

  ghost predicate AllBounded(ranges: seq<Range>) {
    forall i :: 0 <= i < |ranges| ==> Bounded(ranges[i])
  }

  ghost predicate AllNonEmpty(ranges: seq<Range>)
    requires AllBounded(ranges)
  {
    forall i :: 0 <= i < |ranges| ==> NonEmpty(ranges[i])
  }

  ghost predicate Holds(ranges: seq<Range>, a: IP) {
    exists i :: 0 <= i < |ranges| && Contains(ranges[i], a)
  }

  /** Ranges that do not overlap have no address in common, so that RangeFor has no choice. */
  lemma RangeForUnique(ranges: seq<Range>, a: IP, i: nat, j: nat)
    requires AllBounded(ranges) && Full(ranges) && NoOverlaps(ranges)
    requires i < |ranges| && j < |ranges| && Contains(ranges[i], a) && Contains(ranges[j], a)
    ensures i == j
  {
    if i < j { SharedAddress(ranges[i], ranges[j], a); }
    if j < i { SharedAddress(ranges[j], ranges[i], a); }
  }

  /** Two sets overlap exactly when some address is in both. */
  lemma SetsOverlapExact(a: seq<Range>, b: seq<Range>)
    requires AllBounded(a) && AllBounded(b) && AllNonEmpty(a) && AllNonEmpty(b) && Full(a) && Full(b)
    ensures SetsOverlap(a, b) <==> exists x :: Holds(a, x) && Holds(b, x)
  {
    if i, j :| 0 <= i < |a| && 0 <= j < |b| && Overlaps(a[i], b[j]) {
      OverlapsExact(a[i], b[j]);
      var x :| Contains(a[i], x) && Contains(b[j], x);
      assert Holds(a, x) && Holds(b, x);
    }
    if x :| Holds(a, x) && Holds(b, x) {
      var i :| 0 <= i < |a| && Contains(a[i], x);
      var j :| 0 <= j < |b| && Contains(b[j], x);
      SharedAddress(a[i], b[j], x);
    }
  }

  /** A set is accepted exactly when its ranges, filled in, are of one family and no two share an address. */
  lemma AcceptedExactly(was: seq<Range>, now: seq<Range>)
    requires Rewritten(was, now, |now|) && AllBounded(now) && AllNonEmpty(now)
    ensures forall i :: 0 <= i < |was| ==> Sound(was[i]) && FilledIn(was[i], now[i])
    ensures Accepted(was, now) <==>
      && was != []
      && (forall i :: 0 <= i < |now| ==> |now[i].subnet.ip| == |now[0].subnet.ip|)
      && forall i, j :: 0 <= i < j < |now| ==> !Share(now[i], now[j])
  {
    forall i | 0 <= i < |was| ensures Sound(was[i]) && FilledIn(was[i], now[i]) {
      assert Results(was)[i] == Some(now[i]);
      CanonicalizeSucceeds(was[i]);
      CanonicalizeGives(was[i]);
    }
    forall i, j | 0 <= i < j < |now| ensures Overlaps(now[i], now[j]) <==> Share(now[i], now[j]) { OverlapsExact(now[i], now[j]); }
  }

  /** The ranges of a canonicalized set are bounded exactly when the defaults they needed are usable. */
  lemma SetBounded(was: seq<Range>, now: seq<Range>)
    requires Rewritten(was, now, |now|)
    ensures AllBounded(now) <==> forall i :: 0 <= i < |was| ==> SubnetStage(was[i]).Some? && BoundsUsable(was[i])
  {
    forall i | 0 <= i < |now| ensures Bounded(now[i]) <==> SubnetStage(was[i]).Some? && BoundsUsable(was[i]) {
      assert Results(was)[i] == Some(now[i]);
      CanonicalizeSettles(was[i]);
    }
  }
}
