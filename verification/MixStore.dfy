/**
 * Address allocation on the host's network port: MixStore of pkg/ipam/backend/neutron/mix_store.go and the
 * allocator around it.  The remote port is a list of addresses; what the server answers to an
 * update is a parameter.  Address texts are canonical, so that a record's file name is its address.
 */
module MixStores {
  import opened Sequences
  import opened RuleText
  import opened Sorting

  const MAX_IPS := 20
  const LOCK := "lock"

  datatype FixedIP = FixedIP(subnet: string, address: string)

  /** The port's addresses and the data directory: file name to contents. */
  datatype Store = Store(fixedIPs: seq<FixedIP>, records: map<string, string>)

  datatype Outcome = Given(address: string) | OverMax | ServerError | NoNewAddress | BadSubnet | RecordExists | DiskError

  /** What an allocation hands to the caller. */
  datatype IPConfig = IPConfig(version: string, address: string, mask: string, gateway: string)

  // ---- difference and findIndex ----

  function FirstNew(was: seq<FixedIP>, now: seq<FixedIP>): Option<FixedIP> {
    if now == [] then None else if now[0] !in was then Some(now[0]) else FirstNew(was, now[1..])
  }

  function NewAddress(was: seq<FixedIP>, now: seq<FixedIP>): Option<FixedIP> {
    if |now| <= |was| then None else FirstNew(was, now)
  }

  method Difference(was: seq<FixedIP>, now: seq<FixedIP>) returns (r: Option<FixedIP>)
    ensures r == NewAddress(was, now)
  {
    if |now| <= |was| { return None; }
    for i := 0 to |now|
      invariant FirstNew(was, now) == FirstNew(was, now[i..])
    {
      var known := false;
      for j := 0 to |was|
        invariant known <==> now[i] in was[..j]
      {
        if now[i].address == was[j].address && now[i].subnet == was[j].subnet { known := true; }
      }
      assert was[..|was|] == was;
      if !known { return Some(now[i]); }
      assert now[i..][1..] == now[i + 1..];
    }
    return None;
  }

  lemma {:induction false} FirstNewSpec(was: seq<FixedIP>, now: seq<FixedIP>)
    ensures FirstNew(was, now).None? <==> forall x :: x in now ==> x in was
    ensures FirstNew(was, now).Some? ==> FirstNew(was, now).value in now && FirstNew(was, now).value !in was
    decreases |now|
  {
    if now != [] {
      FirstNewSpec(was, now[1..]);
      assert forall x :: x in now <==> x == now[0] || x in now[1..];
    }
  }

  /** Distinct elements that all occur in `was` are at most |was| many. */
  lemma {:induction false} Pigeonhole(was: seq<FixedIP>, now: seq<FixedIP>)
    requires NoDuplicates(now) && forall x :: x in now ==> x in was
    ensures |now| <= |was|
    decreases |now|
  {
    if now != [] {
      assert now[0] in now;
      var k :| 0 <= k < |was| && was[k] == now[0];
      var fewer := was[..k] + was[k + 1..];
      forall x | x in now[1..] ensures x in fewer {
        assert x in now && x != now[0];
        var j :| 0 <= j < |was| && was[j] == x;
        assert j < k || j > k;
        if j < k { assert was[..k][j] == x; } else { assert was[k + 1..][j - k - 1] == x; }
      }
      Pigeonhole(fewer, now[1..]);
    }
  }

  /** On a longer list without duplicates, difference always finds an address that was not there. */
  lemma DifferenceFinds(was: seq<FixedIP>, now: seq<FixedIP>)
    requires NoDuplicates(now) && |now| > |was|
    ensures NewAddress(was, now).Some? && NewAddress(was, now).value in now && NewAddress(was, now).value !in was
  {
    FirstNewSpec(was, now);
    if FirstNew(was, now).None? { Pigeonhole(was, now); }
  }

  function IndexOfAddress(ips: seq<FixedIP>, address: string): (i: nat)
    ensures i <= |ips|
    ensures i < |ips| ==> ips[i].address == address
    ensures forall j :: 0 <= j < i ==> ips[j].address != address
  {
    if ips == [] then 0 else if ips[0].address == address then 0 else 1 + IndexOfAddress(ips[1..], address)
  }

  method FindIndex(ips: seq<FixedIP>, target: string) returns (r: Option<nat>)
    ensures r == if IndexOfAddress(ips, target) < |ips| then Some(IndexOfAddress(ips, target)) else None
  {
    for i := 0 to |ips|
      invariant IndexOfAddress(ips, target) == i + IndexOfAddress(ips[i..], target)
    {
      if ips[i].address == target { return Some(i); }
      assert ips[i..][1..] == ips[i + 1..];
    }
    return None;
  }

  // ---- The two operations on a store ----

  /** An update that the server refuses leaves the port alone; otherwise the reply is the new list. */
  function Reserved(s: Store, subnet: string, subnetOk: bool, id: string, reply: Option<seq<FixedIP>>, diskOk: bool): (Store, Outcome)
  {
    if |s.fixedIPs| >= MAX_IPS then (s, OverMax)
    else if reply.None? then (s, ServerError)
    else
      var t := s.(fixedIPs := reply.value);
      var found := NewAddress(s.fixedIPs, reply.value);
      if found.None? then (t, NoNewAddress)
      else if !subnetOk then (t, BadSubnet)
      else
        var a := found.value.address;
        if a in s.records then (t, RecordExists)
        else if !diskOk then (t, DiskError)
        else (t.(records := s.records[a := TrimSpace(id)]), Given(a))
  }

  /** The file is the first in directory order whose contents are the id. */
  ghost predicate Finds(records: map<string, string>, id: string, found: Option<string>) {
    match found
    case None => forall n :: n in records ==> TrimSpace(records[n]) != TrimSpace(id)
    case Some(name) =>
      && name in records && TrimSpace(records[name]) == TrimSpace(id)
      && forall n :: n in records && TrimSpace(records[n]) == TrimSpace(id) ==> AtMost(name, n)
  }

  /** Entry i is the first with the address. */
  ghost predicate HasFirst(ips: seq<FixedIP>, address: string, i: int) {
    0 <= i < |ips| && ips[i].address == address && forall j :: 0 <= j < i ==> ips[j].address != address
  }

  function WithoutAddress(ips: seq<FixedIP>, address: string): seq<FixedIP> {
    var i := IndexOfAddress(ips, address);
    if i < |ips| then ips[..i] + ips[i + 1..] else ips
  }

  /** An unknown id is released without effect; when the server refuses, the record stays. */
  function Released(s: Store, found: Option<string>, reply: Option<seq<FixedIP>>): (Store, bool) {
    if found.None? || found.value == "" then (s, true)
    else if IndexOfAddress(s.fixedIPs, found.value) == |s.fixedIPs| then (s.(records := s.records - {found.value}), true)
    else if reply.None? then (s, false)
    else (Store(reply.value, s.records - {found.value}), true)
  }

  /**
   * A reservation fails exactly at the limit, or when the server or the disk refuses, the reply has no new address, the
   * subnet does not parse or the address has a record; a failure writes no record, but once the server has updated the
   * port its reply stands.
   */
  lemma ReserveFails(s: Store, subnet: string, subnetOk: bool, id: string, reply: Option<seq<FixedIP>>, diskOk: bool)
    ensures
      var (t, r) := Reserved(s, subnet, subnetOk, id, reply, diskOk);
      && (t.fixedIPs == if |s.fixedIPs| < 20 && reply.Some? then reply.value else s.fixedIPs)
      && (!r.Given? ==> t.records == s.records)
      && (r.Given? <==>
            && |s.fixedIPs| < 20 && reply.Some? && |reply.value| > |s.fixedIPs| && subnetOk && diskOk
            && exists i :: Gained(s.fixedIPs, reply.value, i) && reply.value[i].address !in s.records)
      && (r.Given? ==>
            exists i :: Gained(s.fixedIPs, reply.value, i) && r.address == reply.value[i].address && t.records == s.records[r.address := TrimSpace(id)])
  {
    if reply.Some? { FirstNewIs(s.fixedIPs, reply.value); }
  }

  /** Which error it is: the limit, the server, the reply, the subnet, the record and the disk are looked at in this order. */
  lemma ReserveErrors(s: Store, subnet: string, subnetOk: bool, id: string, reply: Option<seq<FixedIP>>, diskOk: bool)
    ensures
      var r := Reserved(s, subnet, subnetOk, id, reply, diskOk).1;
      var asked := |s.fixedIPs| < 20 && reply.Some?;
      var gained := asked && |reply.value| > |s.fixedIPs| && exists i :: Gained(s.fixedIPs, reply.value, i);
      && (r == OverMax <==> |s.fixedIPs| >= 20)
      && (r == ServerError <==> |s.fixedIPs| < 20 && reply.None?)
      && (r == NoNewAddress <==> asked && !gained)
      && (r == BadSubnet <==> gained && !subnetOk)
      && (r == RecordExists <==> gained && subnetOk && exists i :: Gained(s.fixedIPs, reply.value, i) && reply.value[i].address in s.records)
      && (r == DiskError <==>
            gained && subnetOk && !diskOk && exists i :: Gained(s.fixedIPs, reply.value, i) && reply.value[i].address !in s.records)
  {
    if reply.Some? { FirstNewIs(s.fixedIPs, reply.value); }
  }

  /** Entry i of the new list is the first that the old list lacks. */
  ghost predicate Gained(was: seq<FixedIP>, now: seq<FixedIP>, i: int) {
    0 <= i < |now| && now[i] !in was && forall j :: 0 <= j < i ==> now[j] in was
  }

  lemma {:induction false} FirstNewIs(was: seq<FixedIP>, now: seq<FixedIP>)
    ensures FirstNew(was, now).None? ==> forall i :: !Gained(was, now, i)
    ensures FirstNew(was, now).Some? ==> forall i :: Gained(was, now, i) ==> now[i] == FirstNew(was, now).value
    ensures FirstNew(was, now).Some? ==> exists i :: Gained(was, now, i)
    decreases |now|
  {
    FirstNewSpec(was, now);
    if now != [] {
      if now[0] !in was {
        assert Gained(was, now, 0);
      } else {
        FirstNewIs(was, now[1..]);
        forall i ensures Gained(was, now, i) <==> i > 0 && Gained(was, now[1..], i - 1) {
          if i > 0 && Gained(was, now[1..], i - 1) {
            forall j | 0 <= j < i ensures now[j] in was { if j > 0 { assert now[1..][j - 1] == now[j]; } }
          }
        }
        if i :| Gained(was, now[1..], i) { assert Gained(was, now, i + 1); }
      }
    }
  }

  /**
   * Releasing an id without a record succeeds and changes nothing; releasing one whose address is on the port takes the
   * server's reply and drops the record, or, when the server refuses, fails and changes nothing; an address that is not on
   * the port costs the record only.
   */
  lemma ReleaseExactly(s: Store, id: string, found: Option<string>, reply: Option<seq<FixedIP>>)
    requires Finds(s.records, id, found) && "" !in s.records
    ensures
      var (t, ok) := Released(s, found, reply);
      if forall n :: n in s.records ==> TrimSpace(s.records[n]) != TrimSpace(id) then ok && t == s
      else
        && found.Some?
        && if exists i :: 0 <= i < |s.fixedIPs| && s.fixedIPs[i].address == found.value then
             if reply.None? then !ok && t == s else ok && t.fixedIPs == reply.value && t.records == s.records - {found.value}
           else ok && t.fixedIPs == s.fixedIPs && t.records == s.records - {found.value}
  {
  }

  // ---- Safety ----

  function Addresses(ips: seq<FixedIP>): seq<string> {
    seq(|ips|, i requires 0 <= i < |ips| => ips[i].address)
  }

  /** No address twice on the port, and every record is for an address of the port. */
  ghost predicate Safe(s: Store) {
    && NoDuplicates(Addresses(s.fixedIPs))
    && LOCK !in Addresses(s.fixedIPs)
    && forall n :: n in s.records && n != LOCK ==> n in Addresses(s.fixedIPs)
  }

  /** The server keeps what was submitted and adds one address that the port did not have, in any order. */
  ghost predicate Grants(subnet: string, was: seq<FixedIP>, reply: seq<FixedIP>, address: string) {
    && address !in Addresses(was) && address != LOCK && address != ""
    && multiset(reply) == multiset(was) + multiset{FixedIP(subnet, address)}
  }

  ghost predicate Keeps(submitted: seq<FixedIP>, reply: seq<FixedIP>) {
    multiset(reply) == multiset(submitted)
  }

  lemma AddressIn(ips: seq<FixedIP>, a: string)
    ensures a in Addresses(ips) <==> exists x :: x in multiset(ips) && x.address == a
  {
    if a in Addresses(ips) {
      var i :| 0 <= i < |ips| && Addresses(ips)[i] == a;
      assert ips[i] in multiset(ips);
    }
    if x :| x in multiset(ips) && x.address == a {
      var i :| 0 <= i < |ips| && ips[i] == x;
      assert Addresses(ips)[i] == a;
    }
  }

  lemma {:induction false} DistinctByCount(ips: seq<FixedIP>)
    ensures NoDuplicates(Addresses(ips)) <==>
      (forall x, y :: x in multiset(ips) && y in multiset(ips) && x.address == y.address ==> x == y && multiset(ips)[x] == 1)
    decreases |ips|
  {
    if NoDuplicates(Addresses(ips)) {
      forall x, y | x in multiset(ips) && y in multiset(ips) && x.address == y.address ensures x == y && multiset(ips)[x] == 1 {
        var i :| 0 <= i < |ips| && ips[i] == x;
        var j :| 0 <= j < |ips| && ips[j] == y;
        assert Addresses(ips)[i] == Addresses(ips)[j];
        OnlyOnce(ips, i);
      }
    }
    if !NoDuplicates(Addresses(ips)) {
      var i, j :| 0 <= i < j < |ips| && Addresses(ips)[i] == Addresses(ips)[j];
      assert ips[i] in multiset(ips) && ips[j] in multiset(ips) && ips[i].address == ips[j].address;
      if ips[i] == ips[j] { AtLeastTwice(ips, i, j); }
    }
  }

  lemma OnlyOnce(ips: seq<FixedIP>, i: nat)
    requires i < |ips| && NoDuplicates(Addresses(ips))
    ensures multiset(ips)[ips[i]] == 1
  {
    var before, after := ips[..i], ips[i + 1..];
    assert ips == before + [ips[i]] + after;
    forall j | 0 <= j < |before| ensures before[j] != ips[i] {
      assert Addresses(ips)[j] != Addresses(ips)[i];
    }
    forall j | 0 <= j < |after| ensures after[j] != ips[i] {
      assert Addresses(ips)[i] != Addresses(ips)[i + 1 + j];
    }
  }

  lemma AtLeastTwice(ips: seq<FixedIP>, i: nat, j: nat)
    requires i < j < |ips| && ips[i] == ips[j]
    ensures multiset(ips)[ips[i]] >= 2
  {
    assert ips == ips[..j] + ips[j..];
    assert ips[i] in ips[..j] && ips[j] in ips[j..];
  }

  /** A granted update has one address more, still distinct, and difference finds exactly that one. */
  lemma GrantedReply(subnet: string, was: seq<FixedIP>, reply: seq<FixedIP>, address: string)
    requires NoDuplicates(Addresses(was)) && Grants(subnet, was, reply, address)
    ensures NoDuplicates(Addresses(reply)) && |reply| == |was| + 1
    ensures forall a :: a in Addresses(reply) <==> a in Addresses(was) || a == address
    ensures NewAddress(was, reply) == Some(FixedIP(subnet, address))
  {
    var x := FixedIP(subnet, address);
    DistinctByCount(was);
    forall y | y in multiset(was) ensures y.address != address { AddressIn(was, y.address); }
    DistinctByCount(reply);
    assert |multiset(reply)| == |multiset(was)| + 1;
    forall a ensures a in Addresses(reply) <==> a in Addresses(was) || a == address {
      AddressIn(reply, a);
      AddressIn(was, a);
      assert x in multiset(reply);
    }
    forall i, j | 0 <= i < j < |reply| ensures reply[i] != reply[j] {
      assert Addresses(reply)[i] != Addresses(reply)[j];
    }
    DifferenceFinds(was, reply);
    var y := NewAddress(was, reply).value;
    assert y in multiset(reply) && y !in multiset(was);
  }

  lemma WithoutAddressCount(ips: seq<FixedIP>, address: string)
    requires IndexOfAddress(ips, address) < |ips|
    ensures multiset(WithoutAddress(ips, address)) == multiset(ips) - multiset{ips[IndexOfAddress(ips, address)]}
  {
    RemovedCount(ips, IndexOfAddress(ips, address));
  }

  lemma RemovedCount(ips: seq<FixedIP>, i: nat)
    requires i < |ips|
    ensures multiset(ips[..i] + ips[i + 1..]) == multiset(ips) - multiset{ips[i]}
  {
    assert ips == ips[..i] + [ips[i]] + ips[i + 1..];
  }

  /** A list with the same elements as another without one address: it has all addresses but that one. */
  lemma KeptReply(was: seq<FixedIP>, reply: seq<FixedIP>, address: string)
    requires NoDuplicates(Addresses(was)) && IndexOfAddress(was, address) < |was|
    requires Keeps(WithoutAddress(was, address), reply)
    ensures NoDuplicates(Addresses(reply)) && |reply| == |was| - 1
    ensures forall a :: a in Addresses(reply) <==> a in Addresses(was) && a != address
  {
    var x := was[IndexOfAddress(was, address)];
    WithoutAddressCount(was, address);
    DistinctByCount(was);
    OnlyOnce(was, IndexOfAddress(was, address));
    assert multiset(reply) == multiset(was) - multiset{x};
    DistinctByCount(reply);
    assert |multiset(reply)| == |multiset(was)| - 1;
    forall a ensures a in Addresses(reply) <==> a in Addresses(was) && a != address {
      AddressIn(reply, a);
      AddressIn(was, a);
      if y :| y in multiset(was) && y.address == a {
        assert a != address ==> y != x;
        assert a != address ==> y in multiset(reply);
      }
    }
  }

  // ---- Runs of locked calls ----

  datatype Call =
    | Get(id: string, getReply: Option<seq<FixedIP>>, subnetOk: bool, diskOk: bool)
    | Release(id: string, found: Option<string>, releaseReply: Option<seq<FixedIP>>)

  function Perform(subnet: string, s: Store, call: Call): Store {
    match call
    case Get(id, reply, subnetOk, diskOk) => Reserved(s, subnet, subnetOk, id, reply, diskOk).0
    case Release(_, found, reply) => Released(s, found, reply).0
  }

  /** The server keeps its promises and the directory is searched in order. */
  ghost predicate Legal(subnet: string, s: Store, call: Call) {
    match call
    case Get(_, reply, _, _) =>
      |s.fixedIPs| < MAX_IPS && reply.Some? ==> exists a :: Grants(subnet, s.fixedIPs, reply.value, a)
    case Release(id, found, reply) =>
      && Finds(s.records, id, found)
      && (found.Some? && reply.Some? && IndexOfAddress(s.fixedIPs, found.value) < |s.fixedIPs| ==>
            Keeps(WithoutAddress(s.fixedIPs, found.value), reply.value))
  }

  ghost predicate LegalRun(subnet: string, s: Store, calls: seq<Call>)
    decreases |calls|
  {
    calls != [] ==> Legal(subnet, s, calls[0]) && LegalRun(subnet, Perform(subnet, s, calls[0]), calls[1..])
  }

  function RunCalls(subnet: string, s: Store, calls: seq<Call>): Store
    decreases |calls|
  {
    if calls == [] then s else RunCalls(subnet, Perform(subnet, s, calls[0]), calls[1..])
  }

  lemma GetSafe(subnet: string, s: Store, call: Call)
    requires Safe(s) && call.Get? && Legal(subnet, s, call)
    ensures
      var t := Perform(subnet, s, call);
      Safe(t) && (|t.fixedIPs| <= MAX_IPS || t.fixedIPs == s.fixedIPs) && forall n :: n in s.records ==> n in t.records && t.records[n] == s.records[n]
  {
    if |s.fixedIPs| < MAX_IPS && call.getReply.Some? {
      var a :| Grants(subnet, s.fixedIPs, call.getReply.value, a);
      GrantedReply(subnet, s.fixedIPs, call.getReply.value, a);
    }
  }

  lemma ReleaseSafe(subnet: string, s: Store, call: Call)
    requires Safe(s) && call.Release? && Legal(subnet, s, call)
    ensures
      var t := Perform(subnet, s, call);
      && Safe(t) && |t.fixedIPs| <= |s.fixedIPs|
      && forall n :: n in s.records && call.found != Some(n) ==> n in t.records && t.records[n] == s.records[n]
  {
    if call.found.Some? && call.releaseReply.Some? && IndexOfAddress(s.fixedIPs, call.found.value) < |s.fixedIPs| {
      KeptReply(s.fixedIPs, call.releaseReply.value, call.found.value);
    } else if call.found.Some? && IndexOfAddress(s.fixedIPs, call.found.value) == |s.fixedIPs| {
      assert call.found.value !in Addresses(s.fixedIPs);
    }
  }

  /**
   * Over every run of locked calls the port never exceeds its limit, no address is on it twice, and every
   * record is for an address of the port, so that a new record never meets an old one.
   */
  lemma {:induction false} RunSafe(subnet: string, s: Store, calls: seq<Call>)
    requires Safe(s) && |s.fixedIPs| <= MAX_IPS && LegalRun(subnet, s, calls)
    ensures Safe(RunCalls(subnet, s, calls)) && |RunCalls(subnet, s, calls).fixedIPs| <= MAX_IPS
    decreases |calls|
  {
    if calls != [] {
      if calls[0].Get? { GetSafe(subnet, s, calls[0]); } else { ReleaseSafe(subnet, s, calls[0]); }
      RunSafe(subnet, Perform(subnet, s, calls[0]), calls[1..]);
    }
  }

  /** No call releases the owner's id. */
  ghost predicate NeverReleased(calls: seq<Call>, owner: string) {
    forall i :: 0 <= i < |calls| && calls[i].Release? ==> TrimSpace(calls[i].id) != TrimSpace(owner)
  }

  /** An owner keeps its address, whatever else is called, until its id is released. */
  lemma {:induction false} RunKeepsOwner(subnet: string, s: Store, calls: seq<Call>, n: string)
    requires Safe(s) && LegalRun(subnet, s, calls) && n in s.records && NeverReleased(calls, s.records[n])
    ensures n in RunCalls(subnet, s, calls).records && RunCalls(subnet, s, calls).records[n] == s.records[n]
    decreases |calls|
  {
    if calls != [] {
      if calls[0].Get? { GetSafe(subnet, s, calls[0]); } else { ReleaseSafe(subnet, s, calls[0]); }
      assert NeverReleased(calls[1..], s.records[n]);
      RunKeepsOwner(subnet, Perform(subnet, s, calls[0]), calls[1..], n);
    }
  }

  /** With a willing server and disk, Get fails only at the limit, and what it gives was nobody's. */
  lemma GetGives(subnet: string, s: Store, id: string, reply: seq<FixedIP>, address: string)
    requires Safe(s) && Grants(subnet, s.fixedIPs, reply, address)
    ensures
      var (t, r) := Reserved(s, subnet, true, id, Some(reply), true);
      && (r.OverMax? <==> |s.fixedIPs| >= MAX_IPS)
      && (!r.OverMax? ==> r == Given(address) && address !in s.records && t == Store(reply, s.records[address := TrimSpace(id)]))
  {
    GrantedReply(subnet, s.fixedIPs, reply, address);
  }

  // ---- Reserve, then release ----

  lemma TrimTwice(s: string)
    ensures TrimSpace(TrimSpace(s)) == TrimSpace(s)
  {
    TrimSpaceVisible(s);
    TrimRightVisible(TrimLeft(s));
    TrimVisible(TrimSpace(s));
  }

  lemma {:induction false} TrimRightVisible(s: string)
    ensures var t := TrimRight(s); t == "" || !IsSpace(t[|t| - 1])
    decreases |s|
  {
    if s != "" && IsSpace(s[|s| - 1]) { TrimRightVisible(s[..|s| - 1]); }
  }

  /** The id has no record yet; a blank id is never new, because the lock file is blank. */
  ghost predicate NewId(records: map<string, string>, id: string) {
    forall n :: n in records ==> TrimSpace(records[n]) != TrimSpace(id)
  }

  /** Releasing a new id right after reserving it restores the addresses and the records. */
  lemma ReserveThenRelease(subnet: string, s: Store, id: string, reply: seq<FixedIP>, address: string, found: Option<string>, answer: seq<FixedIP>)
    requires Safe(s) && |s.fixedIPs| < MAX_IPS && NewId(s.records, id) && Grants(subnet, s.fixedIPs, reply, address)
    requires
      var t := Reserved(s, subnet, true, id, Some(reply), true).0;
      Finds(t.records, id, found) && (found == Some(address) ==> Keeps(WithoutAddress(t.fixedIPs, address), answer))
    ensures
      var t := Reserved(s, subnet, true, id, Some(reply), true).0;
      var (u, ok) := Released(t, found, Some(answer));
      ok && found == Some(address) && multiset(u.fixedIPs) == multiset(s.fixedIPs) && u.records == s.records
  {
    GetGives(subnet, s, id, reply, address);
    GrantedReply(subnet, s.fixedIPs, reply, address);
    FindsNew(s.records, id, address, found);
    GrantedIndex(subnet, s.fixedIPs, reply, address);
    WithoutAddressCount(reply, address);
    assert s.records[address := TrimSpace(id)] - {address} == s.records;
  }

  lemma FindsNew(records: map<string, string>, id: string, address: string, found: Option<string>)
    requires NewId(records, id) && address !in records && Finds(records[address := TrimSpace(id)], id, found)
    ensures found == Some(address)
  {
    TrimTwice(id);
    var after := records[address := TrimSpace(id)];
    assert address in after && TrimSpace(after[address]) == TrimSpace(id);
  }

  /** The granted address is found where it was granted. */
  lemma GrantedIndex(subnet: string, was: seq<FixedIP>, reply: seq<FixedIP>, address: string)
    requires NoDuplicates(Addresses(was)) && Grants(subnet, was, reply, address)
    ensures IndexOfAddress(reply, address) < |reply| && reply[IndexOfAddress(reply, address)] == FixedIP(subnet, address)
  {
    GrantedReply(subnet, was, reply, address);
    var i := IndexOfAddress(reply, address);
    var j :| 0 <= j < |reply| && Addresses(reply)[j] == address;
    DistinctByCount(reply);
    assert reply[i] in multiset(reply) && FixedIP(subnet, address) in multiset(reply);
  }

  /** With owned records only, a release removes the lock file exactly when the id is blank. */
  lemma LockFileKept(s: Store, id: string, found: Option<string>, reply: Option<seq<FixedIP>>)
    requires Safe(s) && LOCK in s.records && s.records[LOCK] == "" && Finds(s.records, id, found)
    requires forall n :: n in s.records && n != LOCK ==> TrimSpace(s.records[n]) != ""
    ensures LOCK in Released(s, found, reply).0.records <==> TrimSpace(id) != ""
  {
    assert TrimSpace(s.records[LOCK]) == "";
    if TrimSpace(id) == "" {
      assert found == Some(LOCK);
      AbsentIndex(s.fixedIPs, LOCK);
    }
  }

  lemma AbsentIndex(ips: seq<FixedIP>, address: string)
    requires address !in Addresses(ips)
    ensures IndexOfAddress(ips, address) == |ips|
  {
    assert forall i :: 0 <= i < |ips| ==> Addresses(ips)[i] == ips[i].address;
  }

  // ---- The objects ----

  method ListNames(records: map<string, string>) returns (names: seq<string>)
    ensures NoDuplicates(names) && forall n :: n in names <==> n in records
  {
    names := [];
    var left := records.Keys;
    while left != {}
      invariant left <= records.Keys && NoDuplicates(names)
      invariant forall n :: n in names <==> n in records && n !in left
      decreases left
    {
      var n :| n in left;
      names := names + [n];
      left := left - {n};
    }
  }

  /** filepath.Walk over the data directory, which visits the files in lexical order. */
  method FindRecord(records: map<string, string>, id: string) returns (found: Option<string>)
    ensures Finds(records, id, found)
  {
    var names := ListNames(records);
    var sorted := SortStrings(names);
    SameMembers(sorted, names);
    for i := 0 to |sorted|
      invariant forall j :: 0 <= j < i ==> sorted[j] in records && TrimSpace(records[sorted[j]]) != TrimSpace(id)
    {
      assert sorted[i] in sorted;
      if TrimSpace(records[sorted[i]]) == TrimSpace(id) {
        FirstFound(records, id, sorted, i);
        return Some(sorted[i]);
      }
    }
    NoneFound(records, id, sorted);
    return None;
  }

  /** The files in order, all of them. */
  ghost predicate Listing(records: map<string, string>, sorted: seq<string>) {
    Sorted(sorted) && forall n :: n in sorted <==> n in records
  }

  lemma FirstFound(records: map<string, string>, id: string, sorted: seq<string>, i: nat)
    requires Listing(records, sorted) && i < |sorted| && TrimSpace(records[sorted[i]]) == TrimSpace(id)
    requires forall j :: 0 <= j < i ==> sorted[j] in records && TrimSpace(records[sorted[j]]) != TrimSpace(id)
    ensures Finds(records, id, Some(sorted[i]))
  {
    forall n | n in records && TrimSpace(records[n]) == TrimSpace(id) ensures AtMost(sorted[i], n) {
      assert n in sorted;
      var j :| 0 <= j < |sorted| && sorted[j] == n;
      AtMostReflexive(n);
    }
  }

  lemma NoneFound(records: map<string, string>, id: string, sorted: seq<string>)
    requires Listing(records, sorted)
    requires forall j :: 0 <= j < |sorted| ==> sorted[j] in records && TrimSpace(records[sorted[j]]) != TrimSpace(id)
    ensures Finds(records, id, None)
  {
    forall n | n in records ensures TrimSpace(records[n]) != TrimSpace(id) {
      assert n in sorted;
      var j :| 0 <= j < |sorted| && sorted[j] == n;
    }
  }

  /** The remote port, the data directory and the lock. */
  class MixStore {
    const subnet: string
    const subnetOk: bool
    const mask: string
    const gateway: string
    var fixedIPs: seq<FixedIP>
    var records: map<string, string>
    var locked: bool

    ghost function Contents(): Store reads this {
      Store(fixedIPs, records)
    }

    constructor (subnet: string, subnetOk: bool, mask: string, gateway: string, fixedIPs: seq<FixedIP>, records: map<string, string>)
      ensures this.subnet == subnet && this.subnetOk == subnetOk && this.mask == mask && this.gateway == gateway
      ensures !locked && Contents() == Store(fixedIPs, records)
    {
      this.subnet, this.subnetOk, this.mask, this.gateway := subnet, subnetOk, mask, gateway;
      this.fixedIPs, this.records := fixedIPs, records;
      locked := false;
    }

    method Lock()
      requires !locked
      modifies this`locked
      ensures locked
    {
      locked := true;
    }

    method Unlock()
      requires locked
      modifies this`locked
      ensures !locked
    {
      locked := false;
    }

    /** Below the limit, the list that is submitted to the server asks for one more address of the subnet. */
    method Reserve(id: string, update: Option<seq<FixedIP>>, diskOk: bool) returns (r: Outcome, submitted: Option<seq<FixedIP>>)
      requires locked
      modifies this`fixedIPs, this`records
      ensures submitted == if |old(fixedIPs)| >= MAX_IPS then None else Some(old(fixedIPs) + [FixedIP(subnet, "")])
      ensures (Contents(), r) == Reserved(old(Contents()), subnet, subnetOk, id, update, diskOk)
    {
      if |fixedIPs| >= MAX_IPS { return OverMax, None; }
      var was := fixedIPs;
      submitted := Some(fixedIPs + [FixedIP(subnet, "")]);
      if update.None? { return ServerError, submitted; }
      fixedIPs := update.value;
      var newIP := Difference(was, fixedIPs);
      if newIP.None? { return NoNewAddress, submitted; }
      if !subnetOk { return BadSubnet, submitted; }
      var name := newIP.value.address;
      if name in records { return RecordExists, submitted; }
      if !diskOk { return DiskError, submitted; }
      records := records[name := TrimSpace(id)];
      return Given(name), submitted;
    }

    /** The list that is submitted is the port's without the released address. */
    method ReleaseByID(id: string, update: Option<seq<FixedIP>>)
      returns (ok: bool, submitted: Option<seq<FixedIP>>, ghost found: Option<string>)
      requires locked
      modifies this`fixedIPs, this`records
      ensures submitted.Some? <==> found.Some? && found.value != "" && IndexOfAddress(old(fixedIPs), found.value) < |old(fixedIPs)|
      ensures submitted.Some? ==> submitted.value == WithoutAddress(old(fixedIPs), found.value)
      ensures submitted.Some? ==> exists i :: HasFirst(old(fixedIPs), found.value, i) && submitted.value == old(fixedIPs)[..i] + old(fixedIPs)[i + 1..]
      ensures Finds(old(records), id, found) && (Contents(), ok) == Released(old(Contents()), found, update)
    {
      var name := FindRecord(records, id);
      found := name;
      if name.None? || name.value == "" { return true, None, name; }
      submitted := None;
      var index := FindIndex(fixedIPs, name.value);
      if index.Some? {
        assert HasFirst(fixedIPs, name.value, index.value);
        submitted := Some(fixedIPs[..index.value] + fixedIPs[index.value + 1..]);
        if update.None? { return false, submitted, name; }
        fixedIPs := update.value;
      }
      records := records - {name.value};
      return true, submitted, name;
    }
  }

  /** Each call holds the lock from its first to its last access, and leaves it free on every path. */
  class IPAllocator {
    const store: MixStore

    constructor (store: MixStore)
      ensures this.store == store
    {
      this.store := store;
    }

    /** `isV4` says which address texts are IPv4. */
    method Get(id: string, update: Option<seq<FixedIP>>, diskOk: bool, isV4: string -> bool)
      returns (r: Outcome, config: Option<IPConfig>, submitted: Option<seq<FixedIP>>)
      requires !store.locked
      modifies store
      ensures !store.locked
      ensures config ==
        if r.Given? then Some(IPConfig(if isV4(r.address) then "4" else "6", r.address, store.mask, store.gateway)) else None
      ensures (store.Contents(), r) == Reserved(old(store.Contents()), store.subnet, store.subnetOk, id, update, diskOk)
      ensures submitted == if |old(store.fixedIPs)| >= MAX_IPS then None else Some(old(store.fixedIPs) + [FixedIP(store.subnet, "")])
    {
      store.Lock();
      r, submitted := store.Reserve(id, update, diskOk);
      store.Unlock();
      if !r.Given? { return r, None, submitted; }
      var version := "4";
      if !isV4(r.address) { version := "6"; }
      config := Some(IPConfig(version, r.address, store.mask, store.gateway));
    }

    method Release(id: string, update: Option<seq<FixedIP>>)
      returns (ok: bool, submitted: Option<seq<FixedIP>>, ghost found: Option<string>)
      requires !store.locked
      modifies store
      ensures !store.locked && Finds(old(store.records), id, found)
      ensures (store.Contents(), ok) == Released(old(store.Contents()), found, update)
    {
      store.Lock();
      ok, submitted, found := store.ReleaseByID(id, update);
      store.Unlock();
    }
  }
}
