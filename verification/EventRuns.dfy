/** Whole runs of the controller: every serial sequence of policy and pod events. */
module EventRuns {
  import opened Sequences
  import opened PacketFilter
  import opened NetworkPolicies
  import opened PolicyChains
  import opened PodSync
  import opened PodSchedules
  import opened PodSafety
  import opened KernelHost
  import opened SetSync
  import opened EventSafety
  import opened Incremental
  import opened SetEdits
  import opened SetRuns
  import opened PolicyManagers
  import opened Verdicts
  import opened Hooks
  import opened PodEvents

  datatype Event =
    | AddPolicy(np: NetworkPolicy, schedule: seq<Key>)
    | UpdatePolicy(index: nat, np: NetworkPolicy, schedule: seq<Key>)
    | DeletePolicy(index: nat, schedule: seq<Key>)
    | AddPod(pod: Pod)
    | UpdatePod(index: nat, pod: Pod)
    | DeletePod(index: nat)

  /** The listers after the event: it changes the cluster by itself only. */
  function After(cluster: Cluster, e: Event): Cluster
    requires Legal(cluster, e)
  {
    match e
    case AddPolicy(np, _) => cluster.(policies := cluster.policies + [np])
    case UpdatePolicy(i, np, _) => cluster.(policies := cluster.policies[i := np])
    case DeletePolicy(i, _) => cluster.(policies := cluster.policies[..i] + cluster.policies[i + 1..])
    case AddPod(pod) => cluster.(pods := cluster.pods + [pod])
    case UpdatePod(i, pod) => cluster.(pods := cluster.pods[i := pod])
    case DeletePod(i) => cluster.(pods := cluster.pods[..i] + cluster.pods[i + 1..])
  }

  /**
   * What the API server guarantees: names are unique, selectors of updated policies are valid, a pod keeps the address
   * and the node it has been given.
   */
  ghost predicate Legal(cluster: Cluster, e: Event) {
    match e
    case AddPolicy(np, _) => forall j :: 0 <= j < |cluster.policies| ==> cluster.policies[j].key != np.key
    case UpdatePolicy(i, np, _) => i < |cluster.policies| && cluster.policies[i].key == np.key && np.podSelector.Selector?
    case DeletePolicy(i, _) => i < |cluster.policies|
    case AddPod(pod) => forall j :: 0 <= j < |cluster.pods| ==> cluster.pods[j].key != pod.key
    case UpdatePod(i, pod) =>
      && i < |cluster.pods| && cluster.pods[i].key == pod.key
      && (cluster.pods[i].local ==> pod.local) && (cluster.pods[i].ip.Some? ==> pod.ip == cluster.pods[i].ip)
    case DeletePod(i) => i < |cluster.pods|
  }

  ghost predicate AllLegal(cluster: Cluster, events: seq<Event>)
    decreases |events|
  {
    events == [] || (Legal(cluster, events[0]) && AllLegal(After(cluster, events[0]), events[1..]))
  }

  ghost predicate WellNamed(cluster: Cluster) {
    DistinctKeys(cluster.policies) && DistinctPods(cluster.pods)
  }

  lemma StaysWellNamed(cluster: Cluster, e: Event)
    requires WellNamed(cluster) && Legal(cluster, e)
    ensures WellNamed(After(cluster, e))
  {
  }

  lemma PolicyEventNames(cluster: Cluster, e: Event)
    requires Legal(cluster, e)
    ensures e.AddPolicy? || e.UpdatePolicy? ==> KeysWithin(cluster.policies, After(cluster, e).policies)
    ensures e.DeletePolicy? ==> KeysWithin(After(cluster, e).policies, cluster.policies)
  {
    var a, b := cluster.policies, After(cluster, e).policies;
    if e.AddPolicy? || e.UpdatePolicy? {
      forall i | 0 <= i < |a| && a[i].podSelector.Selector? ensures exists j :: 0 <= j < |b| && b[j].podSelector.Selector? && b[j].key == a[i].key {
        assert b[i].key == a[i].key && b[i].podSelector.Selector?;
      }
    } else if e.DeletePolicy? {
      forall i | 0 <= i < |b| && b[i].podSelector.Selector? ensures exists j :: 0 <= j < |a| && a[j].podSelector.Selector? && a[j].key == b[i].key {
        assert b[i] == a[if i < e.index then i else i + 1];
      }
    }
  }

  /** The address a local pod has; None when the pod is not there or has none. */
  lemma LocalIPsSpec(cluster: Cluster, i: nat)
    requires DistinctPods(cluster.pods) && i < |cluster.pods|
    ensures cluster.pods[i].key in LocalIPs(cluster) <==> cluster.pods[i].local
    ensures cluster.pods[i].local ==> LocalIPs(cluster)[cluster.pods[i].key] == cluster.pods[i].ip
  {
    var k := cluster.pods[i].key;
    LocalPodsSpec(cluster.pods, k);
    if k in LocalPods(cluster.pods) {
      var j :| 0 <= j < |cluster.pods| && cluster.pods[j].local && cluster.pods[j].key == k;
      assert i == j;
    }
  }

  lemma LocalIPsOnly(cluster: Cluster, k: Key) returns (i: nat)
    requires DistinctPods(cluster.pods) && k in LocalIPs(cluster)
    ensures i < |cluster.pods| && cluster.pods[i].key == k && cluster.pods[i].local
  {
    LocalPodsSpec(cluster.pods, k);
    i :| 0 <= i < |cluster.pods| && cluster.pods[i].local && cluster.pods[i].key == k;
  }

  /** A pod event only ever gives addresses. */
  lemma PodEventExtends(cluster: Cluster, e: Event)
    requires WellNamed(cluster) && Legal(cluster, e) && (e.AddPod? || e.UpdatePod?)
    ensures Extends(LocalIPs(cluster), LocalIPs(After(cluster, e)))
  {
    StaysWellNamed(cluster, e);
    var a, b := LocalIPs(cluster), LocalIPs(After(cluster, e));
    forall k | k in a && a[k].Some? ensures k in b && b[k] == a[k] {
      var i := LocalIPsOnly(cluster, k);
      LocalIPsSpec(cluster, i);
      LocalIPsSpec(After(cluster, e), i);
    }
  }

  lemma PodDeleteRemoves(cluster: Cluster, i: nat)
    requires WellNamed(cluster) && i < |cluster.pods|
    ensures LocalIPs(After(cluster, Event.DeletePod(i))) == LocalIPs(cluster) - {cluster.pods[i].key}
  {
    var after := After(cluster, Event.DeletePod(i));
    StaysWellNamed(cluster, Event.DeletePod(i));
    var a, b, gone := LocalIPs(cluster), LocalIPs(after), cluster.pods[i].key;
    forall k ensures k in b ==> k in a && k != gone && a[k] == b[k] {
      if k in b {
        var j := LocalIPsOnly(after, k);
        var j' := if j < i then j else j + 1;
        assert after.pods[j] == cluster.pods[j'];
        LocalIPsSpec(after, j);
        LocalIPsSpec(cluster, j');
      }
    }
    forall k ensures k in a && k != gone ==> k in b {
      if k in a && k != gone {
        var j := LocalIPsOnly(cluster, k);
        var j' := if j < i then j else j - 1;
        assert after.pods[j'] == cluster.pods[j];
        LocalIPsSpec(after, j');
      }
    }
  }

  lemma PolicyEventPods(cluster: Cluster, e: Event)
    requires Legal(cluster, e) && (e.AddPolicy? || e.UpdatePolicy? || e.DeletePolicy?)
    ensures After(cluster, e).pods == cluster.pods && LocalIPs(After(cluster, e)) == LocalIPs(cluster)
  {
  }

  predicate IsPolicyEvent(e: Event) {
    e.AddPolicy? || e.UpdatePolicy? || e.DeletePolicy?
  }

  /**
   * The controller follows the cluster: its policies are those of the listers, it is valid for the local pods, and the
   * builtin chains are those of `base`, the table it found, hooked or not.
   */
  ghost predicate Follows(m: PolicyManager, cluster: Cluster, base: Chains)
    reads m, m.host
  {
    && WellNamed(cluster) && m.Valid(LocalIPs(cluster))
    && m.policies == CompileAll(m.source, cluster.policies)
    && Framed(m.host.chains, base)
  }

  /** A controller that starts on a machine without GLX state, in a cluster without policies, follows the cluster. */
  method Boot(chains: Chains, sets: Sets, ghost cluster: Cluster) returns (m: PolicyManager)
    requires cluster.policies == [] && DistinctPods(cluster.pods)
    requires OthersSafe(chains, sets.Keys) && NoDangling(Kernel(chains, sets)) && HookFree(chains)
    requires forall c :: c in chains ==> !c.PolicyChain? && !c.PodChain? && c != Ingress && c != Egress
    requires forall c, r :: c in chains && r in chains[c] ==> !LeadsToPod(r)
    ensures fresh(m) && fresh(m.host) && m.host.State() == Kernel(chains, sets) && m.host.trace == [Kernel(chains, sets)]
    ensures Follows(m, cluster, chains) && SetsRight(m.host.sets, cluster) && InForce(cluster, m.host.State(), chains)
  {
    var host := new Machine(chains, sets);
    m := new PolicyManager(host);
    SettledExtends(host.State(), map[], LocalIPs(cluster), Names([]));
    BootForced(cluster, host.State());
  }

  lemma BootForced(cluster: Cluster, k: Kernel)
    requires cluster.policies == [] && HookFree(k.chains)
    requires forall c :: c in k.chains ==> !c.PodChain? && c != Ingress && c != Egress
    ensures InForce(cluster, k, k.chains)
  {
    InForceParts(cluster, k, k.chains);
    forall q ensures View(k.chains, q) == ABSENT { assert Ingress !in k.chains && Egress !in k.chains; }
    forall q | q in LocalPods(cluster.pods) ensures LocalPods(cluster.pods)[q].key == q { LocalPodsSpec(cluster.pods, q); }
    NothingForced(LocalPods(cluster.pods), k.chains);
  }

  /** Where there are no policies, nothing has to be there. */
  lemma NothingForced(pods: map<Key, Pod>, t: Chains)
    requires Framed(t, t) && forall q :: q in pods ==> pods[q].key == q
    requires forall q :: View(t, q) == ABSENT
    ensures ChainsForced(pods, [], t, t)
  {
    HooksNeeded(pods, []);
    forall q | q in pods ensures !NeedsHooks(pods[q], []) { NeedsHooksExactly(pods[q], []); }
  }

  // ---- Sets ----

  /** The policies whose own selector converts: the ones that are compiled. */
  ghost function Convertible(nps: seq<NetworkPolicy>): seq<NetworkPolicy> {
    if nps == [] then []
    else
      var front, last := Convertible(nps[..|nps| - 1]), nps[|nps| - 1];
      if last.podSelector.Selector? then front + [last] else front
  }

  lemma {:induction false} CompiledConvertible(cluster: Cluster, nps: seq<NetworkPolicy>)
    ensures NPs(CompileAll(cluster, nps)) == Convertible(nps)
    decreases |nps|
  {
    if nps != [] { CompiledConvertible(cluster, nps[..|nps| - 1]); }
  }

  lemma {:induction false} ConvertibleMembers(nps: seq<NetworkPolicy>, np: NetworkPolicy)
    ensures np in Convertible(nps) <==> np in nps && np.podSelector.Selector?
    decreases |nps|
  {
    if nps != [] {
      ConvertibleMembers(nps[..|nps| - 1], np);
      assert nps == nps[..|nps| - 1] + [nps[|nps| - 1]];
    }
  }

  lemma {:induction false} ConvertibleDistinct(nps: seq<NetworkPolicy>)
    requires DistinctKeys(nps)
    ensures DistinctKeys(Convertible(nps))
    decreases |nps|
  {
    if nps != [] {
      var front := nps[..|nps| - 1];
      ConvertibleDistinct(front);
      forall i | 0 <= i < |Convertible(front)| ensures Convertible(front)[i].key != nps[|nps| - 1].key {
        ConvertibleMembers(front, Convertible(front)[i]);
      }
    }
  }

  /** Every set holds what policyResult computes for the cluster as it is. */
  ghost predicate SetsRight(sets: Sets, cluster: Cluster) {
    Reflects(sets, cluster, Convertible(cluster.policies))
  }

  /** The pod events that keep right sets right; see `AddPodAgrees`, `UpdatePodAgrees` and `DeletePodAgrees`. */
  ghost predicate KeepsSets(cluster: Cluster, e: Event)
    requires Legal(cluster, e)
  {
    var nps := Convertible(cluster.policies);
    match e
    case AddPod(pod) => !Missing(cluster.pods, nps, cluster.namespaces, pod)
    case UpdatePod(i, pod) => UpdateKeeps(cluster, nps, i, pod)
    case DeletePod(i) => DeleteKeeps(cluster, nps, i)
    case _ => true
  }

  lemma PolicySetsRight(cluster: Cluster, sets: Sets)
    requires DistinctKeys(cluster.policies)
    ensures SetsRight(SyncedSets(sets, CompileAll(cluster, cluster.policies)), cluster)
  {
    var ps := CompileAll(cluster, cluster.policies);
    CompiledFromAll(cluster);
    CompiledConvertible(cluster, cluster.policies);
    SetsConverge(cluster, sets, ps);
    forall table | Called(cluster, NPs(ps), table) ensures CallsFor(cluster, ps, table) {
      var i :| 0 <= i < |NPs(ps)| && TableOf(cluster, NPs(ps)[i], table);
      assert NPs(ps)[i] == ps[i].np;
    }
  }

  lemma SetsRightInPlace(cluster: Cluster, sets: Sets)
    ensures SetsRight(sets, cluster) <==> SetsInPlace(cluster, CompileAll(cluster, cluster.policies), sets)
  {
    var ps := CompileAll(cluster, cluster.policies);
    CompiledConvertible(cluster, cluster.policies);
    assert forall i :: 0 <= i < |ps| ==> NPs(ps)[i] == ps[i].np;
    forall table ensures Called(cluster, NPs(ps), table) <==> CallsFor(cluster, ps, table) {
      if Called(cluster, NPs(ps), table) {
        var i :| 0 <= i < |NPs(ps)| && TableOf(cluster, NPs(ps)[i], table);
        assert TableOf(cluster, ps[i].np, table);
      }
      if CallsFor(cluster, ps, table) {
        var i :| 0 <= i < |ps| && TableOf(cluster, ps[i].np, table);
        assert TableOf(cluster, NPs(ps)[i], table);
      }
    }
  }

  /** Policies are in force when the sets are right and the chains are in place. */
  lemma InForceParts(cluster: Cluster, k: Kernel, base: Chains)
    requires DistinctKeys(cluster.policies)
    ensures InForce(cluster, k, base) <==>
      SetsRight(k.sets, cluster) && ChainsForced(LocalPods(cluster.pods), CompileAll(cluster, cluster.policies), k.chains, base)
  {
    CompiledFromAll(cluster);
    SetsRightInPlace(cluster, k.sets);
  }

  /** What a pod event makes of right sets. */
  lemma PodSetsRight(cluster: Cluster, sets: Sets, e: Event)
    requires WellNamed(cluster) && Legal(cluster, e) && !IsPolicyEvent(e) && SetsRight(sets, cluster)
    ensures
      var nps := Convertible(cluster.policies);
      var edited :=
        match e
        case UpdatePod(_, pod) => PodEdit(sets, nps, cluster.namespaces, pod, true)
        case DeletePod(i) => PodEdit(sets, nps, cluster.namespaces, cluster.pods[i], false)
        case _ => sets;
      SetsRight(edited, After(cluster, e)) <==> KeepsSets(cluster, e)
  {
    var nps := Convertible(cluster.policies);
    ConvertibleDistinct(cluster.policies);
    match e {
      case AddPod(pod) => AddPodAgrees(cluster, nps, sets, pod);
      case UpdatePod(i, pod) => UpdatePodAgrees(cluster, nps, sets, i, pod);
      case DeletePod(i) => DeletePodAgrees(cluster, nps, sets, i);
      case _ =>
    }
  }

  /** The pod events that keep the policies in force: AddPod leaves the chains of its pod to the next event. */
  ghost predicate KeepsForce(cluster: Cluster, e: Event)
    requires Legal(cluster, e)
  {
    KeepsSets(cluster, e) && (e.AddPod? && e.pod.local ==> !Selected(cluster, e.pod))
  }

  lemma ForcedFor(a: Cluster, b: Cluster, pods: map<Key, Pod>, nps: seq<NetworkPolicy>, t: Chains, base: Chains)
    ensures ChainsForced(pods, CompileAll(a, nps), t, base) <==> ChainsForced(pods, CompileAll(b, nps), t, base)
  {
    var ps, qs := CompileAll(a, nps), CompileAll(b, nps);
    CompileAlike(a, b, nps);
    CompileAlike(b, a, nps);
    if ChainsForced(pods, ps, t, base) { ForcedAlike(pods, ps, qs, t, base); }
    if ChainsForced(pods, qs, t, base) { ForcedAlike(pods, qs, ps, t, base); }
  }

  /** The chains are in place for the cluster, as far as the policies the manager holds can tell. */
  ghost predicate Forced(cluster: Cluster, ps: seq<CompiledPolicy>, t: Chains, base: Chains) {
    ChainsForced(LocalPods(cluster.pods), ps, t, base)
  }

  /** From sets and chains to policies in force. */
  lemma PodEventForced(source: Cluster, cluster: Cluster, e: Event, k: Kernel, k': Kernel, base: Chains)
    requires WellNamed(cluster) && Legal(cluster, e) && !IsPolicyEvent(e) && InForce(cluster, k, base)
    requires SetsRight(k.sets, cluster) ==> (SetsRight(k'.sets, After(cluster, e)) <==> KeepsSets(cluster, e))
    requires
      var ps := CompileAll(source, cluster.policies);
      Forced(cluster, ps, k.chains, base) ==>
      (Forced(After(cluster, e), ps, k'.chains, base) <==> (e.AddPod? && e.pod.local ==> SyncedView(e.pod, ps) == ABSENT))
    ensures InForce(After(cluster, e), k', base) <==> KeepsForce(cluster, e)
  {
    var next := After(cluster, e);
    InForceParts(cluster, k, base);
    InForceParts(next, k', base);
    ForcedFor(source, cluster, LocalPods(cluster.pods), cluster.policies, k.chains, base);
    ForcedFor(source, next, LocalPods(next.pods), cluster.policies, k'.chains, base);
    if e.AddPod? {
      SelectedExactly(cluster, e.pod);
      CompileAlike(source, cluster, cluster.policies);
      AlikePod(e.pod, CompileAll(source, cluster.policies), CompileAll(cluster, cluster.policies));
    }
  }

  lemma AddPodForced(cluster: Cluster, e: Event, ps: seq<CompiledPolicy>, t: Chains, base: Chains)
    requires WellNamed(cluster) && Legal(cluster, e) && e.AddPod? && Forced(cluster, ps, t, base)
    ensures Forced(After(cluster, e), ps, t, base) <==> (e.pod.local ==> SyncedView(e.pod, ps) == ABSENT)
  {
    assert (cluster.pods + [e.pod])[..|cluster.pods|] == cluster.pods;
    if e.pod.local {
      LocalPodsSpec(cluster.pods, e.pod.key);
      AdditionForced(LocalPods(cluster.pods), ps, t, base, e.pod);
    }
  }

  lemma NotLocal(pods: seq<Pod>, i: nat)
    requires DistinctPods(pods) && i < |pods| && !pods[i].local
    ensures LocalPods(pods) - {pods[i].key} == LocalPods(pods)
  {
    LocalPodsSpec(pods, pods[i].key);
  }

  lemma DeletePodForced(cluster: Cluster, i: nat, ps: seq<CompiledPolicy>, t: Chains, base: Chains)
    requires WellNamed(cluster) && i < |cluster.pods| && Forced(cluster, ps, t, base)
    requires var pod := cluster.pods[i]; pod.local ==> CleanView(View(t, pod.key), pod.key, pod.ip)
    ensures
      var pod := cluster.pods[i];
      Forced(After(cluster, Event.DeletePod(i)), ps, if pod.local then Solo(t, pod.key, CLEANUP).chains else t, base)
  {
    var pods, pod := LocalPods(cluster.pods), cluster.pods[i];
    LocalPodsDelete(cluster.pods, i);
    if pod.local {
      RemovalForced(pods, ps, t, base, pod);
    } else {
      NotLocal(cluster.pods, i);
    }
  }

  // ---- Events ----

  /** The handler of the event crashes: a policy that cannot be compiled, or an edit that goes wrong. */
  ghost predicate HandlerCrashes(policies: seq<CompiledPolicy>, cluster: Cluster, e: Event)
    requires Legal(cluster, e)
  {
    match e
    case AddPod(_) => false
    case UpdatePod(_, pod) => pod.ip.Some? && AnyCrashes(policies, cluster.namespaces, pod)
    case DeletePod(i) => cluster.pods[i].ip.Some? && AnyCrashes(policies, cluster.namespaces, cluster.pods[i])
    case _ => AnyPanics(After(cluster, e).policies)
  }

  /** A policy whose own selector converts crashes the edit for the pod. */
  ghost predicate EditCrashes(cluster: Cluster, pod: Pod) {
    exists np :: np in cluster.policies && np.podSelector.Selector? && Crashing(np, cluster.namespaces, pod)
  }

  /** The same in terms of the cluster alone. */
  ghost predicate EventCrashes(cluster: Cluster, e: Event)
    requires Legal(cluster, e)
  {
    match e
    case AddPod(_) => false
    case UpdatePod(_, pod) => pod.ip.Some? && EditCrashes(cluster, pod)
    case DeletePod(i) => cluster.pods[i].ip.Some? && EditCrashes(cluster, cluster.pods[i])
    case _ => exists np :: np in After(cluster, e).policies && Panicking(np)
  }

  lemma EditCrashesExactly(source: Cluster, cluster: Cluster, ps: seq<CompiledPolicy>, pod: Pod)
    requires ps == CompileAll(source, cluster.policies)
    ensures AnyCrashes(ps, cluster.namespaces, pod) <==> EditCrashes(cluster, pod)
  {
    CompiledConvertible(source, cluster.policies);
    if AnyCrashes(ps, cluster.namespaces, pod) {
      var i :| 0 <= i < |ps| && PolicyCrashes(ps[i].np, cluster.namespaces, pod);
      CrashesExactly(ps[i].np, cluster.namespaces, pod);
      assert NPs(ps)[i] == ps[i].np;
      ConvertibleMembers(cluster.policies, ps[i].np);
    }
    if np :| np in cluster.policies && np.podSelector.Selector? && Crashing(np, cluster.namespaces, pod) {
      ConvertibleMembers(cluster.policies, np);
      CrashesExactly(np, cluster.namespaces, pod);
      var i :| 0 <= i < |NPs(ps)| && NPs(ps)[i] == np;
      assert ps[i].np == np;
    }
  }

  lemma CrashesAsSaid(source: Cluster, cluster: Cluster, ps: seq<CompiledPolicy>, e: Event)
    requires ps == CompileAll(source, cluster.policies) && Legal(cluster, e)
    ensures HandlerCrashes(ps, cluster, e) <==> EventCrashes(cluster, e)
  {
    match e {
      case AddPod(_) =>
      case UpdatePod(_, pod) => EditCrashesExactly(source, cluster, ps, pod);
      case DeletePod(i) => EditCrashesExactly(source, cluster, ps, cluster.pods[i]);
      case _ => SomePanics(After(cluster, e).policies);
    }
  }

  /**
   * One event: the listers change, then the handler of event.go runs.  A policy event puts the policies in force and the
   * sets right; a pod event keeps right sets right exactly when `KeepsSets` says so, and the policies in force exactly
   * when `KeepsForce` says so.
   */
  method Handle(m: PolicyManager, cluster: Cluster, e: Event, ghost base: Chains) returns (crashed: bool)
    requires Follows(m, cluster, base) && Legal(cluster, e)
    modifies m, m.host
    ensures crashed <==> HandlerCrashes(old(m.policies), cluster, e)
    ensures crashed <==> EventCrashes(cluster, e)
    ensures !crashed ==> Follows(m, After(cluster, e), base)
    ensures !crashed && IsPolicyEvent(e) ==> InForce(After(cluster, e), m.host.State(), base) && SetsRight(m.host.sets, After(cluster, e))
    ensures !crashed && !IsPolicyEvent(e) && old(SetsRight(m.host.sets, cluster)) ==>
      (SetsRight(m.host.sets, After(cluster, e)) <==> KeepsSets(cluster, e))
    ensures !crashed && !IsPolicyEvent(e) && old(InForce(cluster, m.host.State(), base)) ==>
      (InForce(After(cluster, e), m.host.State(), base) <==> KeepsForce(cluster, e))
    ensures TraceSafe(m.host.trace) && old(m.host.trace) <= m.host.trace
  {
    CrashesAsSaid(m.source, cluster, m.policies, e);
    if IsPolicyEvent(e) {
      crashed := HandlePolicy(m, cluster, e, After(cluster, e), e.schedule, base);
    } else {
      crashed := HandlePod(m, cluster, e, base);
    }
  }

  method HandlePod(m: PolicyManager, cluster: Cluster, e: Event, ghost base: Chains) returns (crashed: bool)
    requires Follows(m, cluster, base) && Legal(cluster, e) && !IsPolicyEvent(e)
    modifies m, m.host
    ensures crashed <==> HandlerCrashes(old(m.policies), cluster, e)
    ensures !crashed ==> Follows(m, After(cluster, e), base)
    ensures !crashed && old(SetsRight(m.host.sets, cluster)) ==> (SetsRight(m.host.sets, After(cluster, e)) <==> KeepsSets(cluster, e))
    ensures !crashed && old(InForce(cluster, m.host.State(), base)) ==>
      (InForce(After(cluster, e), m.host.State(), base) <==> KeepsForce(cluster, e))
    ensures TraceSafe(m.host.trace) && old(m.host.trace) <= m.host.trace
  {
    crashed := false;
    ghost var before, source := m.host.State(), m.source;
    CompiledConvertible(m.source, cluster.policies);
    if SetsRight(m.host.sets, cluster) { PodSetsRight(cluster, m.host.sets, e); }
    match e {
      case AddPod(_) =>
        FollowsPodEvent(m, cluster, e, base);
        if Forced(cluster, m.policies, m.host.chains, base) { AddPodForced(cluster, e, m.policies, m.host.chains, base); }
      case UpdatePod(i, pod) => crashed := HandleUpdatePod(m, cluster, i, pod, base);
      case DeletePod(i) => crashed := HandleDeletePod(m, cluster, i, base);
    }
    if !crashed && InForce(cluster, before, base) { PodEventForced(source, cluster, e, before, m.host.State(), base); }
  }

  lemma FollowsPodEvent(m: PolicyManager, cluster: Cluster, e: Event, base: Chains)
    requires Follows(m, cluster, base) && Legal(cluster, e) && (e.AddPod? || e.UpdatePod?)
    ensures Follows(m, After(cluster, e), base)
  {
    StaysWellNamed(cluster, e);
    PodEventExtends(cluster, e);
    SettledExtends(m.host.State(), LocalIPs(cluster), LocalIPs(After(cluster, e)), Names(m.policies));
  }

  /** The chains of a settled state are clean for the local pods. */
  lemma SettledClean(k: Kernel, cluster: Cluster, names: set<Chain>)
    requires Settled(k, LocalIPs(cluster), names) && DistinctPods(cluster.pods)
    ensures CleanFor(k.chains, LocalPods(cluster.pods))
  {
    forall q
      ensures q in LocalPods(cluster.pods) ==> LocalPods(cluster.pods)[q].key == q
      ensures CleanView(View(k.chains, q), q, if q in LocalIPs(cluster) then LocalIPs(cluster)[q] else None)
    {
      LocalPodsSpec(cluster.pods, q);
    }
  }

  method HandlePolicy(m: PolicyManager, ghost cluster: Cluster, e: Event, next: Cluster, schedule: seq<Key>, ghost base: Chains)
    returns (crashed: bool)
    requires Follows(m, cluster, base) && Legal(cluster, e) && next == After(cluster, e) && IsPolicyEvent(e)
    modifies m, m.host
    ensures crashed <==> AnyPanics(next.policies)
    ensures !crashed ==> Follows(m, next, base) && InForce(next, m.host.State(), base) && SetsRight(m.host.sets, next)
    ensures TraceSafe(m.host.trace) && old(m.host.trace) <= m.host.trace
  {
    StaysWellNamed(cluster, e);
    PolicyEventNames(cluster, e);
    PolicyEventPods(cluster, e);
    SettledClean(m.host.State(), cluster, Names(m.policies));
    PolicySetsRight(next, m.host.sets);
    ghost var chains, sets := m.host.chains, m.host.sets;
    if e.DeletePolicy? {
      NamesWithin(next, next.policies, m.source, cluster.policies);
      crashed := m.DeletePolicy(LocalIPs(cluster), next, schedule);
      if !crashed {
        ghost var u :| Ends(chains, ProgramsOf(LocalPods(next.pods), m.policies), u) && m.host.chains == SyncedChains(u, m.policies);
        DeleteInForce(next, chains, sets, u, base);
      }
    } else {
      NamesWithin(m.source, cluster.policies, next, next.policies);
      crashed := m.AddOrUpdatePolicy(LocalIPs(cluster), next, schedule);
      if !crashed { AddInForce(next, chains, sets, m.host.chains, base); }
    }
  }

  method HandleUpdatePod(m: PolicyManager, cluster: Cluster, i: nat, pod: Pod, ghost base: Chains) returns (crashed: bool)
    requires Follows(m, cluster, base) && Legal(cluster, Event.UpdatePod(i, pod))
    modifies m, m.host
    ensures crashed <==> pod.ip.Some? && AnyCrashes(old(m.policies), cluster.namespaces, pod)
    ensures Follows(m, After(cluster, Event.UpdatePod(i, pod)), base)
    ensures !crashed ==> m.host.sets == PodEdit(old(m.host.sets), NPs(old(m.policies)), cluster.namespaces, pod, true)
    ensures old(m.host.trace) <= m.host.trace
    ensures old(Forced(cluster, m.policies, m.host.chains, base)) ==>
      Forced(After(cluster, Event.UpdatePod(i, pod)), old(m.policies), m.host.chains, base)
  {
    ghost var e := Event.UpdatePod(i, pod);
    LocalPodsUpdate(cluster.pods, i, pod);
    FollowsPodEvent(m, cluster, e, base);
    LocalIPsSpec(After(cluster, e), i);
    if pod.local {
      SettledClean(m.host.State(), After(cluster, e), Names(m.policies));
      FramedSolo(m.host.chains, pod, m.policies, base);
      if Forced(cluster, m.policies, m.host.chains, base) { SyncForced(LocalPods(cluster.pods), m.policies, m.host.chains, base, pod); }
    }
    crashed := m.UpdatePod(LocalIPs(After(cluster, e)), cluster.namespaces, pod);
  }

  method HandleDeletePod(m: PolicyManager, cluster: Cluster, i: nat, ghost base: Chains) returns (crashed: bool)
    requires Follows(m, cluster, base) && i < |cluster.pods|
    modifies m, m.host
    ensures crashed <==> cluster.pods[i].ip.Some? && AnyCrashes(old(m.policies), cluster.namespaces, cluster.pods[i])
    ensures Follows(m, After(cluster, Event.DeletePod(i)), base) && old(m.host.trace) <= m.host.trace
    ensures !crashed ==> m.host.sets == PodEdit(old(m.host.sets), NPs(old(m.policies)), cluster.namespaces, cluster.pods[i], false)
    ensures old(Forced(cluster, m.policies, m.host.chains, base)) ==>
      Forced(After(cluster, Event.DeletePod(i)), old(m.policies), m.host.chains, base)
  {
    var pod := cluster.pods[i];
    StaysWellNamed(cluster, Event.DeletePod(i));
    PodDeleteRemoves(cluster, i);
    LocalIPsSpec(cluster, i);
    if pod.local {
      SettledClean(m.host.State(), cluster, Names(m.policies));
      FramedSolo(m.host.chains, pod, [], base);
      assert Program(pod, []) == CLEANUP;
    }
    if Forced(cluster, m.policies, m.host.chains, base) { DeletePodForced(cluster, i, m.policies, m.host.chains, base); }
    crashed := m.DeletePod(LocalIPs(cluster), cluster.namespaces, pod);
  }

  // ---- Runs ----

  function Final(cluster: Cluster, events: seq<Event>): Cluster
    requires AllLegal(cluster, events)
    decreases |events|
  {
    if events == [] then cluster else Final(After(cluster, events[0]), events[1..])
  }

  /** The sets are right after the events: they were right, or a policy event made them so, and pod events kept them so. */
  ghost predicate RightAfter(cluster: Cluster, events: seq<Event>, right: bool)
    requires AllLegal(cluster, events)
    decreases |events|
  {
    if events == [] then right
    else RightAfter(After(cluster, events[0]), events[1..], IsPolicyEvent(events[0]) || (right && KeepsSets(cluster, events[0])))
  }

  /** The policies are in force after the events: they were, or a policy event put them so, and pod events kept them so. */
  ghost predicate ForcedAfter(cluster: Cluster, events: seq<Event>, forced: bool)
    requires AllLegal(cluster, events)
    decreases |events|
  {
    if events == [] then forced
    else ForcedAfter(After(cluster, events[0]), events[1..], IsPolicyEvent(events[0]) || (forced && KeepsForce(cluster, events[0])))
  }

  /** How many events are handled before one crashes, all of them when none does. */
  ghost function Survived(cluster: Cluster, events: seq<Event>): nat
    requires AllLegal(cluster, events)
    decreases |events|
  {
    if events == [] || EventCrashes(cluster, events[0]) then 0 else 1 + Survived(After(cluster, events[0]), events[1..])
  }

  /** FORWARD, INPUT and OUTPUT treat every packet as the policies of the cluster say. */
  ghost predicate Enforced(cluster: Cluster, k: Kernel, base: Chains) {
    forall w, c, p, depth: nat :: c in BUILTIN && depth >= 3 ==> Enforces(w, cluster, k, base, c, p, depth)
  }

  /**
   * Every serial run of events, with every interleaving of pod goroutines: after every single ipset or iptables command
   * each jump leads to an existing chain and each matched set exists.  A crash ends the run; what came before it is safe
   * too.  The sets are right after every run whose pod events keep them so; the policies are in force after every run
   * that ends in a policy event or whose pod events keep them so, and then every packet is treated as they say.
   */
  method RunEvents(m: PolicyManager, cluster: Cluster, events: seq<Event>, ghost base: Chains) returns (crashed: bool, handled: nat)
    requires Follows(m, cluster, base) && AllLegal(cluster, events)
    modifies m, m.host
    ensures TraceSafe(m.host.trace) && old(m.host.trace) <= m.host.trace
    ensures handled == Survived(cluster, events) && (crashed <==> handled < |events|)
    ensures handled <= |events| && (!crashed ==> handled == |events| && Follows(m, Final(cluster, events), base))
    ensures !crashed && events != [] && IsPolicyEvent(events[|events| - 1]) ==> InForce(Final(cluster, events), m.host.State(), base)
    ensures !crashed && ForcedAfter(cluster, events, old(InForce(cluster, m.host.State(), base))) ==>
      InForce(Final(cluster, events), m.host.State(), base)
    ensures !crashed && RightAfter(cluster, events, old(SetsRight(m.host.sets, cluster))) ==> SetsRight(m.host.sets, Final(cluster, events))
    ensures !crashed && InForce(Final(cluster, events), m.host.State(), base) ==>
      DistinctAddresses(LocalPods(Final(cluster, events).pods)) ==> Enforced(Final(cluster, events), m.host.State(), base)
  {
    var now := cluster;
    ghost var right, forced := SetsRight(m.host.sets, cluster), InForce(cluster, m.host.State(), base);
    crashed, handled := false, 0;
    while handled < |events|
      invariant handled <= |events| && !crashed
      invariant Follows(m, now, base) && AllLegal(now, events[handled..]) && old(m.host.trace) <= m.host.trace
      invariant Final(cluster, events) == Final(now, events[handled..])
      invariant Survived(cluster, events) == handled + Survived(now, events[handled..])
      invariant handled > 0 && IsPolicyEvent(events[handled - 1]) ==> forced
      invariant ForcedAfter(cluster, events, old(InForce(cluster, m.host.State(), base))) == ForcedAfter(now, events[handled..], forced)
      invariant forced ==> InForce(now, m.host.State(), base)
      invariant RightAfter(cluster, events, old(SetsRight(m.host.sets, cluster))) == RightAfter(now, events[handled..], right)
      invariant right ==> SetsRight(m.host.sets, now)
    {
      ghost var e := events[handled];
      assert events[handled..][0] == e && events[handled..][1..] == events[handled + 1..];
      crashed := Handle(m, now, events[handled], base);
      if crashed { return; }
      right, forced := IsPolicyEvent(e) || (right && KeepsSets(now, e)), IsPolicyEvent(e) || (forced && KeepsForce(now, e));
      now := After(now, events[handled]);
      handled := handled + 1;
    }
    assert events[handled..] == [];
    if InForce(now, m.host.State(), base) && DistinctAddresses(LocalPods(now.pods)) { InForceEnforced(now, m.host.State(), base); }
  }

  lemma InForceEnforced(cluster: Cluster, k: Kernel, base: Chains)
    requires WellNamed(cluster) && InForce(cluster, k, base) && DistinctAddresses(LocalPods(cluster.pods))
    ensures Enforced(cluster, k, base)
  {
    forall w, c, p, depth: nat | c in BUILTIN && depth >= 3 ensures Enforces(w, cluster, k, base, c, p, depth) {
      InForceEnforces(w, cluster, k, base, c, p, depth);
    }
  }
}
