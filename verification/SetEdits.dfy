/**
 * The loops of the incremental path: SyncPodIPInIPSet, syncIngressInIPSet, syncEgressInIPSet and addOrDelIPSetEntry of
 * pkg/policy/policy.go.
 */
module SetEdits {
  import opened Sequences
  import opened PacketFilter
  import opened NetworkPolicies
  import opened PolicyChains
  import opened PodSync
  import opened KernelHost
  import opened SetSync
  import opened Incremental

  function EditAll(sets: Sets, names: set<SetName>, e: Entry, add: bool): Sets {
    map n | n in sets :: if n !in names then sets[n] else if add then sets[n] + {e} else sets[n] - {e}
  }

  /**
   * Rule i of direction d crashes: a namespace selector of its peers does not convert, or it picks the pod although
   * the policy has compiled nothing for the direction.
   */
  predicate SpecCrashes(np: NetworkPolicy, namespaces: seq<Namespace>, d: Direction, i: nat, pod: Pod)
    requires i < |np.Specs(d)|
  {
    SpecPanics(np.Specs(d)[i]) || (!np.Enabled(d) && SpecPicks(namespaces, np.Specs(d)[i], pod))
  }

  predicate SideCrashes(np: NetworkPolicy, namespaces: seq<Namespace>, d: Direction, pod: Pod) {
    exists i :: 0 <= i < |np.Specs(d)| && SpecCrashes(np, namespaces, d, i, pod)
  }

  /** The sets of the policy's direction d that are about the pod. */
  ghost predicate SideEdit(np: NetworkPolicy, namespaces: seq<Namespace>, d: Direction, n: SetName, pod: Pod) {
    n.PeerHosts? && n.direction == d && Picks(np, namespaces, n, pod)
  }

  /** The rule's host set is compiled under its own name and exists. */
  ghost predicate SpecReady(p: CompiledPolicy, d: Direction, i: nat, names: set<SetName>) {
    && p.Side(d).Some? && i < |p.Side(d).value.rules| && p.Side(d).value.rules[i].hosts.Some?
    && p.Side(d).value.rules[i].hosts.value.name == PeerHosts(d, i, p.np.key)
    && PeerHosts(d, i, p.np.key) in names
  }

  /** All sets that the policy has for the pod exist. */
  ghost predicate Ready(p: CompiledPolicy, namespaces: seq<Namespace>, pod: Pod, names: set<SetName>) {
    && (p.ingress.Some? || p.egress.Some?)
    && (forall d: Direction :: p.Side(d).Some? ==> p.np.Enabled(d) && p.Side(d).value.podTable.name == PodSet(p.np.key))
    && (forall d: Direction :: p.np.Enabled(d) ==> p.Side(d).Some?)
    && (Selects(p.np, pod) ==> PodSet(p.np.key) in names)
    && forall d: Direction, i :: 0 <= i < |p.np.Specs(d)| && p.np.Enabled(d) && SpecPicks(namespaces, p.np.Specs(d)[i], pod) ==> SpecReady(p, d, i, names)
  }

  lemma CompiledReady(cluster: Cluster, ps: seq<CompiledPolicy>, index: nat, namespaces: seq<Namespace>, pod: Pod, names: set<SetName>)
    requires CompiledFrom(cluster, ps) && index < |ps| && (ps[index].ingress.Some? || ps[index].egress.Some?)
    requires Desired(ps).Keys <= names
    ensures Ready(ps[index], namespaces, pod, names)
  {
    var p := ps[index];
    assert Compile(cluster, p.np) == Some(p);
    forall d: Direction
      ensures p.Side(d).Some? <==> p.np.Enabled(d)
      ensures p.Side(d).Some? ==> p.Side(d).value.podTable.name == PodSet(p.np.key)
    {
    }
    if Selects(p.np, pod) {
      var table := TableNamed(cluster, p.np, namespaces, PodSet(p.np.key), pod);
      DesiredHas(cluster, ps, index, table);
    }
    forall d: Direction, i | 0 <= i < |p.np.Specs(d)| && p.np.Enabled(d) && SpecPicks(namespaces, p.np.Specs(d)[i], pod)
      ensures SpecReady(p, d, i, names)
    {
      CompiledSpecReady(cluster, ps, index, d, i, namespaces, pod, names);
    }
  }

  lemma CompiledSpecReady(cluster: Cluster, ps: seq<CompiledPolicy>, index: nat, d: Direction, i: nat, namespaces: seq<Namespace>, pod: Pod,
                          names: set<SetName>)
    requires CompiledFrom(cluster, ps) && index < |ps| && Desired(ps).Keys <= names
    requires i < |ps[index].np.Specs(d)| && ps[index].np.Enabled(d) && SpecPicks(namespaces, ps[index].np.Specs(d)[i], pod)
    ensures SpecReady(ps[index], d, i, names)
  {
    var p := ps[index];
    assert Compile(cluster, p.np) == Some(p);
    var table := TableNamed(cluster, p.np, namespaces, PeerHosts(d, i, p.np.key), pod);
    DesiredHas(cluster, ps, index, table);
    assert p.Side(d).value.rules[i] == CompileRule(cluster, p.np.key, d, i, p.np.Specs(d)[i]);
  }

  method AddOrDelIPSetEntry(host: Machine, add: bool, n: SetName, e: Entry, ghost before: Sets, ghost names: set<SetName>)
    requires n in host.sets && before.Keys == host.sets.Keys && host.sets == EditAll(before, names, e, add)
    requires TraceSafe(host.trace) && NoDangling(host.State())
    modifies host
    ensures host.chains == old(host.chains) && host.sets == EditAll(before, names + {n}, e, add)
    ensures TraceSafe(host.trace) && old(host.trace) <= host.trace && NoDangling(host.State())
  {
    if add {
      host.AddEntry(n, e);
    } else {
      host.DelEntry(n, e);
    }
    assert forall m :: m in before ==> host.sets[m] == EditAll(before, names + {n}, e, add)[m];
    MoreSets(host.chains, old(host.sets), host.sets);
  }

  method NamespacePicked(namespaces: seq<Namespace>, accepts: Labels -> bool, pod: Pod) returns (picked: bool)
    ensures picked <==> NamespaceAccepted(namespaces, accepts, pod.key.namespace)
  {
    var names := ListNamespaces(namespaces, accepts);
    ListNamespacesMembers(namespaces, accepts, pod.key.namespace);
    for i := 0 to |names|
      invariant pod.key.namespace !in names[..i]
    {
      if names[i] == pod.key.namespace { return true; }
    }
    picked := false;
  }

  method PeerPicked(namespaces: seq<Namespace>, peer: Peer, pod: Pod) returns (picked: bool, panics: bool)
    ensures panics <==> PeerPanics(peer)
    ensures picked <==> PeerPicks(namespaces, peer, pod)
  {
    picked, panics := false, false;
    if peer.podSelector.Some? {
      if peer.podSelector.value.Selector? {
        picked := peer.podSelector.value.accepts(pod.labels);
      }
    } else if peer.namespaceSelector.Some? {
      if peer.namespaceSelector.value.BadSelector? { return false, true; }
      picked := NamespacePicked(namespaces, peer.namespaceSelector.value.accepts, pod);
    }
  }

  /** Nothing but set entries has changed, and nothing has dangled meanwhile. */
  twostate predicate Editing(host: Machine, before: Sets, names: set<SetName>, e: Entry, add: bool)
    reads host
  {
    && host.chains == old(host.chains) && host.sets == EditAll(before, names, e, add)
    && TraceSafe(host.trace) && old(host.trace) <= host.trace && NoDangling(host.State())
  }

  /** One rule of one direction: every peer that picks the pod edits the rule's host set. */
  method EditSpec(host: Machine, p: CompiledPolicy, d: Direction, i: nat, namespaces: seq<Namespace>, pod: Pod, e: Entry, add: bool,
                  ghost before: Sets, ghost done: set<SetName>)
    returns (crashed: bool, ghost names: set<SetName>)
    requires i < |p.np.Specs(d)| && Ready(p, namespaces, pod, host.sets.Keys)
    requires before.Keys == host.sets.Keys && host.sets == EditAll(before, done, e, add)
    requires TraceSafe(host.trace) && NoDangling(host.State())
    modifies host
    ensures crashed <==> SpecCrashes(p.np, namespaces, d, i, pod)
    ensures Editing(host, before, names, e, add)
    ensures !crashed ==>
      names == if SpecPicks(namespaces, p.np.Specs(d)[i], pod) then done + {PeerHosts(d, i, p.np.key)} else done
  {
    crashed := false;
    var peers := p.np.Specs(d)[i].peers;
    names := done;
    for j := 0 to |peers|
      invariant Editing(host, before, names, e, add) && !crashed
      invariant names == if exists m :: 0 <= m < j && PeerPicks(namespaces, peers[m], pod) then done + {PeerHosts(d, i, p.np.key)} else done
      invariant forall m :: 0 <= m < j ==> !PeerPanics(peers[m]) && (!p.np.Enabled(d) ==> !PeerPicks(namespaces, peers[m], pod))
    {
      var picked, panics := PeerPicked(namespaces, peers[j], pod);
      if panics {
        return true, names;
      }
      if picked {
        assert SpecPicks(namespaces, p.np.Specs(d)[i], pod);
        if p.Side(d).None? {
          return true, names;
        }
        var n := p.Side(d).value.rules[i].hosts.value.name;
        AddOrDelIPSetEntry(host, add, n, e, before, names);
        names := names + {n};
      }
    }
  }

  /** syncIngressInIPSet and syncEgressInIPSet. */
  method EditSide(host: Machine, p: CompiledPolicy, d: Direction, namespaces: seq<Namespace>, pod: Pod, e: Entry, add: bool,
                  ghost before: Sets, ghost done: set<SetName>)
    returns (crashed: bool, ghost names: set<SetName>)
    requires Ready(p, namespaces, pod, host.sets.Keys)
    requires before.Keys == host.sets.Keys && host.sets == EditAll(before, done, e, add)
    requires TraceSafe(host.trace) && NoDangling(host.State())
    modifies host
    ensures Editing(host, before, names, e, add)
    ensures crashed <==> SideCrashes(p.np, namespaces, d, pod)
    ensures !crashed ==> names == done + SideNames(p.np, namespaces, d, pod, |p.np.Specs(d)|)
  {
    crashed, names := false, done;
    for i := 0 to |p.np.Specs(d)|
      invariant Editing(host, before, names, e, add) && !crashed
      invariant names == done + SideNames(p.np, namespaces, d, pod, i)
      invariant forall j :: 0 <= j < i ==> !SpecCrashes(p.np, namespaces, d, j, pod)
    {
      SideNamesStep(p.np, namespaces, d, pod, i, done, names);
      crashed, names := EditSpec(host, p, d, i, namespaces, pod, e, add, before, names);
      if crashed { return; }
    }
  }

  lemma SideNamesStep(np: NetworkPolicy, namespaces: seq<Namespace>, d: Direction, pod: Pod, i: nat, done: set<SetName>, names: set<SetName>)
    requires i < |np.Specs(d)| && names == done + SideNames(np, namespaces, d, pod, i)
    ensures !SpecCrashes(np, namespaces, d, i, pod) ==>
      (if SpecPicks(namespaces, np.Specs(d)[i], pod) then names + {PeerHosts(d, i, np.key)} else names)
      == done + SideNames(np, namespaces, d, pod, i + 1)
  {
  }

  /** The sets of the first `count` rules of direction d that are about the pod. */
  ghost function SideNames(np: NetworkPolicy, namespaces: seq<Namespace>, d: Direction, pod: Pod, count: nat): set<SetName>
    requires count <= |np.Specs(d)|
  {
    if count == 0 then {}
    else
      var front := SideNames(np, namespaces, d, pod, count - 1);
      if np.Enabled(d) && SpecPicks(namespaces, np.Specs(d)[count - 1], pod) then front + {PeerHosts(d, count - 1, np.key)} else front
  }

  lemma {:induction false} SideNamesSpec(np: NetworkPolicy, namespaces: seq<Namespace>, d: Direction, pod: Pod, count: nat, n: SetName)
    requires count <= |np.Specs(d)|
    ensures n in SideNames(np, namespaces, d, pod, count) <==> SideEdit(np, namespaces, d, n, pod) && n.index < count
  {
    if count > 0 { SideNamesSpec(np, namespaces, d, pod, count - 1, n); }
  }

  /** All sets of the policy that are about the pod. */
  ghost function PolicyNames(np: NetworkPolicy, namespaces: seq<Namespace>, pod: Pod): set<SetName> {
    (if Selects(np, pod) then {PodSet(np.key)} else {}) +
    SideNames(np, namespaces, Inbound, pod, |np.ingress|) + SideNames(np, namespaces, Outbound, pod, |np.egress|)
  }

  lemma PolicyNamesSpec(np: NetworkPolicy, namespaces: seq<Namespace>, pod: Pod, n: SetName)
    ensures n in PolicyNames(np, namespaces, pod) <==> Picks(np, namespaces, n, pod)
  {
    SideNamesSpec(np, namespaces, Inbound, pod, |np.ingress|, n);
    SideNamesSpec(np, namespaces, Outbound, pod, |np.egress|, n);
  }

  method EditPolicy(host: Machine, p: CompiledPolicy, namespaces: seq<Namespace>, pod: Pod, e: Entry, add: bool,
                    ghost before: Sets, ghost done: set<SetName>)
    returns (crashed: bool, ghost names: set<SetName>)
    requires Ready(p, namespaces, pod, host.sets.Keys)
    requires before.Keys == host.sets.Keys && host.sets == EditAll(before, done, e, add)
    requires TraceSafe(host.trace) && NoDangling(host.State())
    modifies host
    ensures Editing(host, before, names, e, add)
    ensures crashed <==> PolicyCrashes(p.np, namespaces, pod)
    ensures !crashed ==> names == done + PolicyNames(p.np, namespaces, pod)
  {
    names := done;
    if Selects(p.np, pod) {
      var n := if p.ingress.Some? then p.ingress.value.podTable.name else p.egress.value.podTable.name;
      assert p.Side(Inbound) == p.ingress && p.Side(Outbound) == p.egress;
      AddOrDelIPSetEntry(host, add, n, e, before, names);
      names := names + {n};
    }
    crashed, names := EditSide(host, p, Inbound, namespaces, pod, e, add, before, names);
    if crashed { return; }
    crashed, names := EditSide(host, p, Outbound, namespaces, pod, e, add, before, names);
  }

  function NPs(ps: seq<CompiledPolicy>): seq<NetworkPolicy> {
    seq(|ps|, i requires 0 <= i < |ps| => ps[i].np)
  }

  predicate PolicyCrashes(np: NetworkPolicy, namespaces: seq<Namespace>, pod: Pod) {
    SideCrashes(np, namespaces, Inbound, pod) || SideCrashes(np, namespaces, Outbound, pod)
  }

  /** Peer j of rule i picks the pod: a pod selector by its labels, a namespace selector by those of its namespace. */
  ghost predicate PicksAt(np: NetworkPolicy, namespaces: seq<Namespace>, d: Direction, i: int, j: int, pod: Pod) {
    && 0 <= i < |np.Specs(d)| && 0 <= j < |np.Specs(d)[i].peers|
    && var peer := np.Specs(d)[i].peers[j];
       match peer.podSelector
       case Some(selector) => selector.Selector? && selector.accepts(pod.labels)
       case None =>
         && peer.namespaceSelector.Some? && peer.namespaceSelector.value.Selector?
         && exists n :: n in namespaces && n.name == pod.key.namespace && peer.namespaceSelector.value.accepts(n.labels)
  }

  ghost predicate Crashing(np: NetworkPolicy, namespaces: seq<Namespace>, pod: Pod) {
    exists d, i, j :: BadNamespaceAt(np, d, i, j) || (!IsFor(np, d) && PicksAt(np, namespaces, d, i, j, pod))
  }

  lemma SideCrashesAt(np: NetworkPolicy, namespaces: seq<Namespace>, d: Direction, pod: Pod)
    ensures SideCrashes(np, namespaces, d, pod) <==>
      exists i, j :: BadNamespaceAt(np, d, i, j) || (!IsFor(np, d) && PicksAt(np, namespaces, d, i, j, pod))
  {
    assert np.Enabled(d) == IsFor(np, d);
    if SideCrashes(np, namespaces, d, pod) {
      var i :| 0 <= i < |np.Specs(d)| && SpecCrashes(np, namespaces, d, i, pod);
      var peers := np.Specs(d)[i].peers;
      if SpecPanics(np.Specs(d)[i]) {
        var j :| 0 <= j < |peers| && PeerPanics(peers[j]);
        assert BadNamespaceAt(np, d, i, j);
      } else {
        var j :| 0 <= j < |peers| && PeerPicks(namespaces, peers[j], pod);
        assert PicksAt(np, namespaces, d, i, j, pod);
      }
    }
    if i, j :| BadNamespaceAt(np, d, i, j) || (!IsFor(np, d) && PicksAt(np, namespaces, d, i, j, pod)) {
      var peers := np.Specs(d)[i].peers;
      if BadNamespaceAt(np, d, i, j) {
        assert PeerPanics(peers[j]);
      } else {
        assert PeerPicks(namespaces, peers[j], pod);
      }
      assert SpecCrashes(np, namespaces, d, i, pod);
    }
  }

  /**
   * A policy crashes the edit exactly when one of its peers, in whatever direction, has a namespace selector that does not
   * convert, or picks the pod in a direction that the policy is not for.
   */
  lemma CrashesExactly(np: NetworkPolicy, namespaces: seq<Namespace>, pod: Pod)
    ensures PolicyCrashes(np, namespaces, pod) <==> Crashing(np, namespaces, pod)
  {
    SideCrashesAt(np, namespaces, Inbound, pod);
    SideCrashesAt(np, namespaces, Outbound, pod);
    if d, i, j :| BadNamespaceAt(np, d, i, j) || (!IsFor(np, d) && PicksAt(np, namespaces, d, i, j, pod)) {
      assert d == Inbound || d == Outbound;
    }
  }

  /** Some policy crashes the edit for the pod. */
  ghost predicate AnyCrashes(ps: seq<CompiledPolicy>, namespaces: seq<Namespace>, pod: Pod) {
    exists i :: 0 <= i < |ps| && PolicyCrashes(ps[i].np, namespaces, pod)
  }

  ghost predicate AllReady(ps: seq<CompiledPolicy>, namespaces: seq<Namespace>, pod: Pod, names: set<SetName>) {
    forall i :: 0 <= i < |ps| ==> Ready(ps[i], namespaces, pod, names)
  }

  /** The loop over the policies. */
  method EditPolicies(host: Machine, policies: seq<CompiledPolicy>, namespaces: seq<Namespace>, pod: Pod, e: Entry, add: bool)
    returns (crashed: bool, ghost names: set<SetName>)
    requires AllReady(policies, namespaces, pod, host.sets.Keys)
    requires TraceSafe(host.trace) && NoDangling(host.State())
    modifies host
    ensures Editing(host, old(host.sets), names, e, add)
    ensures crashed <==> AnyCrashes(policies, namespaces, pod)
    ensures !crashed ==> names == AllNames(policies, namespaces, pod, |policies|)
  {
    crashed, names := false, {};
    ghost var before := host.sets;
    assert host.sets == EditAll(before, names, e, add);
    for i := 0 to |policies|
      invariant !crashed && Editing(host, before, names, e, add)
      invariant names == AllNames(policies, namespaces, pod, i)
      invariant forall j :: 0 <= j < i ==> !PolicyCrashes(policies[j].np, namespaces, pod)
    {
      crashed, names := EditPolicy(host, policies[i], namespaces, pod, e, add, before, names);
      if crashed { return; }
    }
  }

  /**
   * SyncPodIPInIPSet.  It crashes exactly when some policy has rules that pick the pod in a direction that its policy
   * types disable, or a peer whose namespace selector does not convert; otherwise it makes exactly the edits of `Edited`.
   */
  method SyncPodIPInIPSet(host: Machine, ghost cluster: Cluster, policies: seq<CompiledPolicy>, namespaces: seq<Namespace>, pod: Pod, add: bool)
    returns (crashed: bool)
    requires CompiledFrom(cluster, policies) && pod.ip.Some?
    requires forall i :: 0 <= i < |policies| ==> policies[i].ingress.Some? || policies[i].egress.Some?
    requires Desired(policies).Keys <= host.sets.Keys
    requires TraceSafe(host.trace) && NoDangling(host.State())
    modifies host
    ensures host.chains == old(host.chains) && host.sets.Keys == old(host.sets).Keys
    ensures TraceSafe(host.trace) && old(host.trace) <= host.trace && NoDangling(host.State())
    ensures crashed <==> AnyCrashes(policies, namespaces, pod)
    ensures crashed <==> exists p :: p in policies && Crashing(p.np, namespaces, pod)
    ensures !crashed ==> host.sets == Edited(old(host.sets), NPs(policies), namespaces, pod, Host(pod.ip.value), add)
  {
    forall i | 0 <= i < |policies| ensures Ready(policies[i], namespaces, pod, host.sets.Keys) {
      CompiledReady(cluster, policies, i, namespaces, pod, host.sets.Keys);
    }
    EditedAll(host.sets, policies, namespaces, pod, Host(pod.ip.value), add);
    forall np { CrashesExactly(np, namespaces, pod); }
    ghost var names;
    crashed, names := EditPolicies(host, policies, namespaces, pod, Host(pod.ip.value), add);
  }

  ghost function AllNames(ps: seq<CompiledPolicy>, namespaces: seq<Namespace>, pod: Pod, count: nat): set<SetName>
    requires count <= |ps|
  {
    if count == 0 then {} else AllNames(ps, namespaces, pod, count - 1) + PolicyNames(ps[count - 1].np, namespaces, pod)
  }

  lemma {:induction false} AllNamesSpec(ps: seq<CompiledPolicy>, namespaces: seq<Namespace>, pod: Pod, count: nat, n: SetName)
    requires count <= |ps|
    ensures n in AllNames(ps, namespaces, pod, count) <==> exists j :: 0 <= j < count && Picks(NPs(ps)[j], namespaces, n, pod)
  {
    if count > 0 {
      AllNamesSpec(ps, namespaces, pod, count - 1, n);
      PolicyNamesSpec(ps[count - 1].np, namespaces, pod, n);
      assert NPs(ps)[count - 1] == ps[count - 1].np;
    }
  }

  lemma EditedAll(sets: Sets, ps: seq<CompiledPolicy>, namespaces: seq<Namespace>, pod: Pod, e: Entry, add: bool)
    ensures EditAll(sets, AllNames(ps, namespaces, pod, |ps|), e, add) == Edited(sets, NPs(ps), namespaces, pod, e, add)
  {
    forall n ensures n in AllNames(ps, namespaces, pod, |ps|) <==> Edits(NPs(ps), namespaces, n, pod) {
      AllNamesSpec(ps, namespaces, pod, |ps|, n);
    }
  }
}
