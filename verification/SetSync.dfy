/** Reconciling ipsets: createIPSet and the set part of syncRules in pkg/policy/policy.go. */
module SetSync {
  import opened PacketFilter
  import opened NetworkPolicies
  import opened PolicyChains
  import opened KernelHost

  /** The sets that syncRules leaves: the desired ones, and those without the GLX prefix. */
  function SyncedSets(sets: Sets, ps: seq<CompiledPolicy>): Sets {
    (map n | n in sets && n.Unmanaged? :: sets[n]) + Desired(ps)
  }

  ghost predicate NoUnmanaged(ps: seq<CompiledPolicy>) {
    forall n :: n in Desired(ps) ==> !n.Unmanaged?
  }

  lemma DesiredManaged(cluster: Cluster, ps: seq<CompiledPolicy>)
    requires CompiledFrom(cluster, ps)
    ensures NoUnmanaged(ps)
  {
    forall n | n in Desired(ps) ensures !n.Unmanaged? {
      var i, table := DesiredOnly(cluster, ps, n);
    }
  }

  /** Some policy calls for the table. */
  ghost predicate CallsFor(cluster: Cluster, ps: seq<CompiledPolicy>, table: IpsetTable) {
    exists i :: 0 <= i < |ps| && TableOf(cluster, ps[i].np, table)
  }

  lemma CalledForIsDesired(cluster: Cluster, ps: seq<CompiledPolicy>, table: IpsetTable)
    requires CompiledFrom(cluster, ps) && CallsFor(cluster, ps, table)
    ensures table.name in Desired(ps) && Desired(ps)[table.name] == EntrySet(table)
  {
    var i :| 0 <= i < |ps| && TableOf(cluster, ps[i].np, table);
    DesiredHas(cluster, ps, i, table);
  }

  lemma DesiredIsCalledFor(cluster: Cluster, ps: seq<CompiledPolicy>, n: SetName) returns (table: IpsetTable)
    requires CompiledFrom(cluster, ps) && n in Desired(ps)
    ensures CallsFor(cluster, ps, table) && table.name == n
  {
    var i;
    i, table := DesiredOnly(cluster, ps, n);
  }

  /**
   * The sets with the GLX prefix become exactly the desired ones, each with exactly its desired entries
   * whatever it held before; all other sets keep their entries; a second run changes nothing.
   */
  lemma SetsConverge(cluster: Cluster, sets: Sets, ps: seq<CompiledPolicy>)
    requires CompiledFrom(cluster, ps)
    ensures forall table :: CallsFor(cluster, ps, table) ==>
      table.name in SyncedSets(sets, ps) && SyncedSets(sets, ps)[table.name] == EntrySet(table)
    ensures forall n :: n in SyncedSets(sets, ps) && !n.Unmanaged? ==> exists table :: CallsFor(cluster, ps, table) && table.name == n
    ensures forall n: SetName :: n.Unmanaged? ==>
      (n in SyncedSets(sets, ps) <==> n in sets) && (n in sets ==> SyncedSets(sets, ps)[n] == sets[n])
    ensures SyncedSets(SyncedSets(sets, ps), ps) == SyncedSets(sets, ps)
  {
    forall table | CallsFor(cluster, ps, table)
      ensures table.name in SyncedSets(sets, ps) && SyncedSets(sets, ps)[table.name] == EntrySet(table)
    {
      CalledForIsDesired(cluster, ps, table);
    }
    forall n | n in SyncedSets(sets, ps) && !n.Unmanaged? ensures exists table :: CallsFor(cluster, ps, table) && table.name == n {
      var table := DesiredIsCalledFor(cluster, ps, n);
    }
    DesiredManaged(cluster, ps);
    SyncedTwice(sets, ps);
  }

  lemma SyncedTwice(sets: Sets, ps: seq<CompiledPolicy>)
    ensures SyncedSets(SyncedSets(sets, ps), ps) == SyncedSets(sets, ps)
  {
  }

  /** More sets, or other entries, never make a reference dangle. */
  lemma MoreSets(chains: Chains, a: Sets, b: Sets)
    requires NoDangling(Kernel(chains, a)) && a.Keys <= b.Keys
    ensures NoDangling(Kernel(chains, b))
  {
  }

  /** Only the set n has changed, to `entries`, and nothing has dangled meanwhile. */
  twostate predicate SetBecame(host: Machine, n: SetName, entries: set<Entry>)
    reads host
  {
    && host.chains == old(host.chains)
    && host.sets == old(host.sets)[n := entries]
    && TraceSafe(host.trace) && old(host.trace) <= host.trace && NoDangling(host.State())
  }

  method AddMissing(host: Machine, n: SetName, entries: seq<Entry>, oldEntries: set<Entry>) returns (newEntries: set<Entry>)
    requires n in host.sets && host.sets[n] == oldEntries
    requires TraceSafe(host.trace) && NoDangling(host.State())
    modifies host
    ensures newEntries == set e | e in entries
    ensures SetBecame(host, n, oldEntries + newEntries)
  {
    newEntries := {};
    assert oldEntries + newEntries == oldEntries;
    for i := 0 to |entries|
      invariant newEntries == set e | e in entries[..i]
      invariant SetBecame(host, n, oldEntries + newEntries)
    {
      var e := entries[i];
      ghost var before := host.sets;
      assert entries[..i + 1] == entries[..i] + [e];
      assert oldEntries + newEntries + {e} == oldEntries + (newEntries + {e});
      newEntries := newEntries + {e};
      if e !in oldEntries {
        host.AddEntry(n, e);
        MoreSets(host.chains, before, host.sets);
      } else {
        assert oldEntries + newEntries == before[n];
      }
    }
    assert entries[..|entries|] == entries;
  }

  method DeleteStale(host: Machine, n: SetName, oldEntries: set<Entry>, newEntries: set<Entry>)
    requires n in host.sets && host.sets[n] == oldEntries + newEntries
    requires TraceSafe(host.trace) && NoDangling(host.State())
    modifies host
    ensures SetBecame(host, n, newEntries)
  {
    var todo := oldEntries;
    while todo != {}
      invariant SetBecame(host, n, todo + newEntries)
      decreases |todo|
    {
      var e :| e in todo;
      ghost var before := host.sets;
      assert before[n] == todo + newEntries;
      todo := todo - {e};
      if e !in newEntries {
        host.DelEntry(n, e);
        assert before[n] - {e} == todo + newEntries;
        MoreSets(host.chains, before, host.sets);
      } else {
        assert before[n] == todo + newEntries;
      }
    }
    assert todo + newEntries == newEntries;
  }

  /** Brings one set to its desired entries: create, add what is missing, delete what is stale. */
  method ReconcileSet(host: Machine, table: IpsetTable)
    requires TraceSafe(host.trace) && NoDangling(host.State())
    modifies host
    ensures SetBecame(host, table.name, EntrySet(table))
  {
    ghost var before := host.sets;
    host.CreateSet(table.name);
    MoreSets(host.chains, before, host.sets);
    var oldEntries := host.sets[table.name];
    var newEntries := AddMissing(host, table.name, table.entries, oldEntries);
    DeleteStale(host, table.name, oldEntries, newEntries);
  }

  /** The sets once those of `newSets` that are not in `todo` have been reconciled. */
  function Created(sets: Sets, newSets: map<SetName, IpsetTable>, todo: set<SetName>): Sets {
    sets + (map n | n in newSets && n !in todo :: EntrySet(newSets[n]))
  }

  lemma CreatedStep(sets: Sets, newSets: map<SetName, IpsetTable>, todo: set<SetName>, n: SetName)
    requires n in todo && n in newSets
    ensures Created(sets, newSets, todo)[n := EntrySet(newSets[n])] == Created(sets, newSets, todo - {n})
  {
    var a, b := Created(sets, newSets, todo)[n := EntrySet(newSets[n])], Created(sets, newSets, todo - {n});
    assert a.Keys == b.Keys;
    assert forall m :: m in a ==> a[m] == b[m];
  }

  lemma CreatedAll(sets: Sets, newSets: map<SetName, IpsetTable>)
    ensures Created(sets, newSets, newSets.Keys) == sets
    ensures Created(sets, newSets, {}) == sets + (map n | n in newSets :: EntrySet(newSets[n]))
  {
  }

  /** createIPSet, in any order of the map. */
  method CreateIPSets(host: Machine, newSets: map<SetName, IpsetTable>)
    requires forall n :: n in newSets ==> newSets[n].name == n
    requires TraceSafe(host.trace) && NoDangling(host.State())
    modifies host
    ensures host.chains == old(host.chains)
    ensures host.sets == old(host.sets) + (map n | n in newSets :: EntrySet(newSets[n]))
    ensures TraceSafe(host.trace) && old(host.trace) <= host.trace && NoDangling(host.State())
  {
    var todo := newSets.Keys;
    CreatedAll(host.sets, newSets);
    while todo != {}
      invariant todo <= newSets.Keys
      invariant host.chains == old(host.chains) && TraceSafe(host.trace) && old(host.trace) <= host.trace && NoDangling(host.State())
      invariant host.sets == Created(old(host.sets), newSets, todo)
      decreases todo
    {
      var n :| n in todo;
      CreatedStep(old(host.sets), newSets, todo, n);
      todo := todo - {n};
      ReconcileSet(host, newSets[n]);
    }
  }

  lemma {:induction false} RegisterNames(m: map<SetName, IpsetTable>, tables: seq<IpsetTable>)
    requires forall n :: n in m ==> m[n].name == n
    ensures forall n :: n in Register(m, tables) ==> Register(m, tables)[n].name == n
    decreases |tables|
  {
    if tables != [] {
      RegisterNames(m[tables[0].name := tables[0]], tables[1..]);
    }
  }

  function Kept(sets: Sets, wanted: set<SetName>): Sets {
    map n | n in sets && (n.Unmanaged? || n in wanted) :: sets[n]
  }

  /** The deferred clean-up of syncRules: destroys the listed GLX sets that are no longer wanted. */
  method DestroyStale(host: Machine, listed: set<SetName>, wanted: set<SetName>)
    requires forall n :: n in host.sets ==> n in listed || n in wanted
    requires TraceSafe(host.trace) && NoDangling(Kernel(host.chains, Kept(host.sets, wanted)))
    modifies host
    ensures host.chains == old(host.chains) && host.sets == Kept(old(host.sets), wanted)
    ensures TraceSafe(host.trace) && old(host.trace) <= host.trace && NoDangling(host.State())
  {
    var todo := listed;
    ghost var before := host.sets;
    while todo != {}
      invariant todo <= listed
      invariant host.chains == old(host.chains) && TraceSafe(host.trace) && old(host.trace) <= host.trace
      invariant host.sets == map n | n in before && (n.Unmanaged? || n in wanted || n in todo) :: before[n]
      decreases |todo|
    {
      var n :| n in todo;
      todo := todo - {n};
      if !n.Unmanaged? && n !in wanted {
        host.DestroySet(n);
        MoreSets(host.chains, Kept(before, wanted), host.sets);
      }
    }
  }
}
