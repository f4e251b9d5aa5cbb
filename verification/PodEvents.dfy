/** What pod events make of policies that are in force. */
module PodEvents {
  import opened Sequences
  import opened Tables
  import opened PacketFilter
  import opened NetworkPolicies
  import opened PolicyChains
  import opened PodSync
  import opened PodSchedules
  import opened PodSafety
  import opened PolicyManagers
  import opened Verdicts
  import opened Hooks

  // ---- The chains do not depend on the pods ----

  /** Whether a rule has a table does not depend on the cluster. */
  lemma {:induction false} SameTables(a: Cluster, b: Cluster, peers: seq<Peer>)
    ensures HostsOf(a, peers).Some? <==> HostsOf(b, peers).Some?
    ensures NetsOf(a, peers).Some? <==> NetsOf(b, peers).Some?
    decreases |peers|
  {
    if peers != [] { SameTables(a, b, peers[..|peers| - 1]); }
  }

  lemma SameSide(a: Cluster, b: Cluster, np: NetworkPolicy, d: Direction, s: IpsetTable, t: IpsetTable)
    requires s.name == t.name
    ensures CompileSide(a, np, d, s).Some? <==> CompileSide(b, np, d, t).Some?
    ensures SideRules(np.key, d, CompileSide(a, np, d, s)) == SideRules(np.key, d, CompileSide(b, np, d, t))
  {
    if np.Enabled(d) {
      var x, y := CompileSide(a, np, d, s).value.rules, CompileSide(b, np, d, t).value.rules;
      forall i | 0 <= i < |x| ensures SpecRules(np.key, d, s.name, x[i]) == SpecRules(np.key, d, t.name, y[i]) {
        SameTables(a, b, np.Specs(d)[i].peers);
      }
      assert RulesPerSpec(np.key, d, s.name, x) == RulesPerSpec(np.key, d, t.name, y);
    }
  }

  /** The same policies, with the same chains. */
  ghost predicate Alike(ps: seq<CompiledPolicy>, qs: seq<CompiledPolicy>) {
    |ps| == |qs| && forall i :: 0 <= i < |ps| ==> SameChain(ps[i], qs[i])
  }

  ghost predicate SameChain(p: CompiledPolicy, q: CompiledPolicy) {
    && p.np == q.np && ChainRules(p) == ChainRules(q)
    && (p.ingress.Some? <==> q.ingress.Some?) && (p.egress.Some? <==> q.egress.Some?)
  }

  lemma CompileSame(a: Cluster, b: Cluster, np: NetworkPolicy)
    ensures Compile(a, np).Some? <==> Compile(b, np).Some?
    ensures Compile(a, np).Some? ==> SameChain(Compile(a, np).value, Compile(b, np).value)
  {
    if np.podSelector.Selector? {
      var p, q := Compile(a, np).value, Compile(b, np).value;
      var s := IpsetTable(PodSet(np.key), HostEntries(ListPods(a.pods, Some(np.key.namespace), np.podSelector.accepts)));
      var t := IpsetTable(PodSet(np.key), HostEntries(ListPods(b.pods, Some(np.key.namespace), np.podSelector.accepts)));
      SameSide(a, b, np, Inbound, s, t);
      SameSide(a, b, np, Outbound, s, t);
    }
  }

  /** Policies compiled for different clusters differ in their tables only. */
  lemma {:induction false} CompileAlike(a: Cluster, b: Cluster, nps: seq<NetworkPolicy>)
    ensures Alike(CompileAll(a, nps), CompileAll(b, nps))
    decreases |nps|
  {
    if nps != [] {
      CompileAlike(a, b, nps[..|nps| - 1]);
      CompileSame(a, b, nps[|nps| - 1]);
    }
  }

  lemma {:induction false} AlikeJumps(pod: Pod, ps: seq<CompiledPolicy>, qs: seq<CompiledPolicy>)
    requires Alike(ps, qs)
    ensures PolicyJumps(pod, ps) == PolicyJumps(pod, qs)
    decreases |ps|
  {
    if ps != [] {
      assert SameChain(ps[|ps| - 1], qs[|qs| - 1]);
      AlikeJumps(pod, ps[..|ps| - 1], qs[..|qs| - 1]);
    }
  }

  lemma AlikeTargeted(pod: Pod, d: Direction, ps: seq<CompiledPolicy>, qs: seq<CompiledPolicy>)
    requires Alike(ps, qs)
    ensures Targeted(ps, pod, d) <==> Targeted(qs, pod, d)
  {
    assert forall i :: 0 <= i < |ps| ==> SameChain(ps[i], qs[i]) && (Affects(ps[i], pod, d) <==> Affects(qs[i], pod, d));
  }

  lemma AlikePod(pod: Pod, ps: seq<CompiledPolicy>, qs: seq<CompiledPolicy>)
    requires Alike(ps, qs)
    ensures SyncedView(pod, ps) == SyncedView(pod, qs) && Program(pod, ps) == Program(pod, qs)
  {
    AlikeTargeted(pod, Inbound, ps, qs);
    AlikeTargeted(pod, Outbound, ps, qs);
    AlikeJumps(pod, ps, qs);
  }

  // ---- Chains in force ----

  /** The part of `InForce` that is about chains. */
  ghost predicate ChainsForced(pods: map<Key, Pod>, ps: seq<CompiledPolicy>, t: Chains, base: Chains) {
    PolicyChainsInPlace(ps, t) && PodsInPlace(pods, ps, t) && HooksInPlace(t, base, pods, ps)
  }

  ghost predicate NeedsHooks(pod: Pod, ps: seq<CompiledPolicy>) {
    HasBasics(Program(pod, ps))
  }

  lemma NeedsHooksExactly(pod: Pod, ps: seq<CompiledPolicy>)
    ensures NeedsHooks(pod, ps) <==> SyncedView(pod, ps) != ABSENT
  {
    assert CLEANUP[..6][0] == FindJump(Inbound);
    if pod.ip.Some? && (Targeted(ps, pod, Inbound) || Targeted(ps, pod, Outbound)) { assert Program(pod, ps)[..BASIC] == BASICS; }
  }

  lemma HooksNeeded(pods: map<Key, Pod>, ps: seq<CompiledPolicy>)
    ensures AnyBasics(ProgramsOf(pods, ps)) <==> exists q :: q in pods && NeedsHooks(pods[q], ps)
  {
    if AnyBasics(ProgramsOf(pods, ps)) {
      var q :| q in ProgramsOf(pods, ps) && HasBasics(ProgramsOf(pods, ps)[q]);
      assert NeedsHooks(pods[q], ps);
    }
    if q :| q in pods && NeedsHooks(pods[q], ps) { assert HasBasics(ProgramsOf(pods, ps)[q]); }
  }

  lemma AlikePods(pods: map<Key, Pod>, ps: seq<CompiledPolicy>, qs: seq<CompiledPolicy>, t: Chains)
    requires PodsInPlace(pods, ps, t) && Alike(ps, qs)
    ensures PodsInPlace(pods, qs, t)
  {
    forall q | q in pods ensures SyncedView(pods[q], qs) == View(t, q) { AlikePod(pods[q], ps, qs); }
  }

  lemma AlikePrograms(pods: map<Key, Pod>, ps: seq<CompiledPolicy>, qs: seq<CompiledPolicy>)
    requires Alike(ps, qs)
    ensures ProgramsOf(pods, ps) == ProgramsOf(pods, qs)
  {
    forall q | q in pods ensures Program(pods[q], ps) == Program(pods[q], qs) { AlikePod(pods[q], ps, qs); }
  }

  lemma AlikeChains(ps: seq<CompiledPolicy>, qs: seq<CompiledPolicy>, t: Chains)
    requires PolicyChainsInPlace(ps, t) && Alike(ps, qs)
    ensures PolicyChainsInPlace(qs, t)
  {
    forall i | 0 <= i < |qs| ensures Rules(t, PolicyChain(qs[i].np.key)) == ChainRules(qs[i]) { assert SameChain(ps[i], qs[i]); }
  }

  lemma ForcedAlike(pods: map<Key, Pod>, ps: seq<CompiledPolicy>, qs: seq<CompiledPolicy>, t: Chains, base: Chains)
    requires ChainsForced(pods, ps, t, base) && Alike(ps, qs)
    ensures ChainsForced(pods, qs, t, base)
  {
    AlikeChains(ps, qs, t);
    AlikePods(pods, ps, qs, t);
    AlikePrograms(pods, ps, qs);
  }

  lemma ChainsKept(ps: seq<CompiledPolicy>, t: Chains, u: Chains, m: nat)
    requires PolicyChainsInPlace(ps, t) && Rest(u) == RestAt(Rest(t), m)
    ensures PolicyChainsInPlace(ps, u)
  {
    forall i | 0 <= i < |ps| ensures Rules(u, PolicyChain(ps[i].np.key)) == ChainRules(ps[i]) {
      var c := PolicyChain(ps[i].np.key);
      RestAtKeeps(Rest(t), m, c);
      RestRules(t, c);
      RestRules(u, c);
    }
  }

  ghost predicate OthersKept(t: Chains, u: Chains, key: Key) {
    forall q :: q != key ==> View(u, q) == View(t, q)
  }

  lemma PodsJoin(pods: map<Key, Pod>, ps: seq<CompiledPolicy>, t: Chains, u: Chains, base: Chains, pod: Pod)
    requires PodsInPlace(pods, ps, t) && OthersKept(t, u, pod.key) && View(u, pod.key) == SyncedView(pod, ps) && Framed(u, base)
    ensures PodsInPlace(pods[pod.key := pod], ps, u)
  {
  }

  lemma PodsLeave(pods: map<Key, Pod>, ps: seq<CompiledPolicy>, t: Chains, u: Chains, base: Chains, key: Key)
    requires PodsInPlace(pods, ps, t) && OthersKept(t, u, key) && View(u, key) == ABSENT && Framed(u, base)
    ensures PodsInPlace(pods - {key}, ps, u)
  {
  }

  lemma SameHooks(t: Chains, u: Chains, base: Chains)
    requires Framed(t, base) && Rest(u) == Rest(t)
    ensures Framed(u, base) && forall c :: c in BUILTIN && Hooked(t, base, c) ==> Hooked(u, base, c)
  {
    FramedRest(t, u, base);
    forall c | c in BUILTIN && Hooked(t, base, c) ensures Hooked(u, base, c) { RestRules(t, c); RestRules(u, c); }
  }

  /** A pod that appears or changes, and is synced, has its chains in force, and so have the others. */
  lemma SyncForced(pods: map<Key, Pod>, ps: seq<CompiledPolicy>, t: Chains, base: Chains, pod: Pod)
    requires ChainsForced(pods, ps, t, base) && CleanView(View(t, pod.key), pod.key, pod.ip)
    ensures ChainsForced(pods[pod.key := pod], ps, Solo(t, pod.key, Program(pod, ps)).chains, base)
  {
    var u := Solo(t, pod.key, Program(pod, ps)).chains;
    SoloHooks(pods, ps, t, base, pod);
    SoloEffect(t, pod, ps);
    ChainsKept(ps, t, u, if NeedsHooks(pod, ps) then BASIC else 0);
    PodsJoin(pods, ps, t, u, base, pod);
  }

  lemma SoloEffect(t: Chains, pod: Pod, ps: seq<CompiledPolicy>)
    requires CleanView(View(t, pod.key), pod.key, pod.ip)
    ensures
      var u := Solo(t, pod.key, Program(pod, ps)).chains;
      && View(u, pod.key) == SyncedView(pod, ps) && OthersKept(t, u, pod.key)
      && Rest(u) == RestAt(Rest(t), if NeedsHooks(pod, ps) then BASIC else 0)
  {
    SoloSync(t, pod, ps);
  }

  lemma SoloHooks(pods: map<Key, Pod>, ps: seq<CompiledPolicy>, t: Chains, base: Chains, pod: Pod)
    requires HooksInPlace(t, base, pods, ps) && CleanView(View(t, pod.key), pod.key, pod.ip)
    ensures HooksInPlace(Solo(t, pod.key, Program(pod, ps)).chains, base, pods[pod.key := pod], ps)
  {
    var u := Solo(t, pod.key, Program(pod, ps)).chains;
    SoloEffect(t, pod, ps);
    HooksNeeded(pods, ps);
    HooksNeeded(pods[pod.key := pod], ps);
    if NeedsHooks(pod, ps) { FramedBasics(t, u, base); } else { SameHooks(t, u, base); }
  }

  /** A pod that goes takes its chain and its jumps along. */
  lemma RemovalForced(pods: map<Key, Pod>, ps: seq<CompiledPolicy>, t: Chains, base: Chains, pod: Pod)
    requires ChainsForced(pods, ps, t, base) && CleanView(View(t, pod.key), pod.key, pod.ip)
    ensures ChainsForced(pods - {pod.key}, ps, Solo(t, pod.key, CLEANUP).chains, base)
  {
    var u := Solo(t, pod.key, CLEANUP).chains;
    RemovalEffect(t, pod);
    SameHooks(t, u, base);
    HooksNeeded(pods, ps);
    HooksNeeded(pods - {pod.key}, ps);
    ChainsKept(ps, t, u, 0);
    PodsLeave(pods, ps, t, u, base, pod.key);
  }

  lemma RemovalEffect(t: Chains, pod: Pod)
    requires CleanView(View(t, pod.key), pod.key, pod.ip)
    ensures
      var u := Solo(t, pod.key, CLEANUP).chains;
      View(u, pod.key) == ABSENT && OthersKept(t, u, pod.key) && Rest(u) == Rest(t)
  {
    assert Program(pod, []) == CLEANUP;
    NeedsHooksExactly(pod, []);
    SoloEffect(t, pod, []);
  }

  /** A pod that appears and is not synced has its chains in force exactly when it needs none. */
  lemma AdditionForced(pods: map<Key, Pod>, ps: seq<CompiledPolicy>, t: Chains, base: Chains, pod: Pod)
    requires ChainsForced(pods, ps, t, base) && pod.key !in pods
    ensures ChainsForced(pods[pod.key := pod], ps, t, base) <==> SyncedView(pod, ps) == ABSENT
  {
    var more := pods[pod.key := pod];
    assert View(t, pod.key) == ABSENT;
    if PodsInPlace(more, ps, t) {
      assert pod.key in more && more[pod.key] == pod;
    }
    if SyncedView(pod, ps) == ABSENT {
      NeedsHooksExactly(pod, ps);
      HooksNeeded(pods, ps);
      HooksNeeded(more, ps);
      PodsJoin(pods, ps, t, t, base, pod);
    }
  }

  /** The pods that a policy event gives chains and jumps. */
  ghost predicate Selected(cluster: Cluster, pod: Pod) {
    pod.ip.Some? && exists i :: 0 <= i < |cluster.policies| && Selects(cluster.policies[i], pod)
  }

  lemma SelectedExactly(cluster: Cluster, pod: Pod)
    ensures SyncedView(pod, CompileAll(cluster, cluster.policies)) != ABSENT <==> Selected(cluster, pod)
  {
    var ps := CompileAll(cluster, cluster.policies);
    if i :| 0 <= i < |cluster.policies| && Selects(cluster.policies[i], pod) {
      CompileAllCovers(cluster, cluster.policies, cluster.policies[i]);
      var j :| 0 <= j < |ps| && ps[j].np == cluster.policies[i];
      CompileAllMembers(cluster, cluster.policies, j);
      assert Affects(ps[j], pod, Inbound) || Affects(ps[j], pod, Outbound);
    }
    if d, j :| 0 <= j < |ps| && Affects(ps[j], pod, d) {
      CompileAllMembers(cluster, cluster.policies, j);
      var i :| 0 <= i < |cluster.policies| && cluster.policies[i] == ps[j].np;
    }
  }

  // ---- Local pods ----

  lemma {:induction false} LocalPodsUpdate(pods: seq<Pod>, i: nat, pod: Pod)
    requires DistinctPods(pods) && i < |pods| && pods[i].key == pod.key && (pods[i].local ==> pod.local)
    ensures LocalPods(pods[i := pod]) == if pod.local then LocalPods(pods)[pod.key := pod] else LocalPods(pods)
    decreases |pods|
  {
    var front, n := pods[..|pods| - 1], |pods| - 1;
    if i == n {
      assert pods[i := pod][..n] == front;
    } else {
      assert pods[i := pod][..n] == front[i := pod];
      LocalPodsUpdate(front, i, pod);
    }
  }

  lemma {:induction false} LocalPodsDelete(pods: seq<Pod>, i: nat)
    requires DistinctPods(pods) && i < |pods|
    ensures LocalPods(pods[..i] + pods[i + 1..]) == LocalPods(pods) - {pods[i].key}
    decreases |pods|
  {
    var front, n := pods[..|pods| - 1], |pods| - 1;
    if i == n {
      assert pods[..i] + pods[i + 1..] == front;
      LocalPodsSpec(front, pods[i].key);
    } else {
      assert (pods[..i] + pods[i + 1..])[..n - 1] == front[..i] + front[i + 1..];
      assert (pods[..i] + pods[i + 1..])[n - 1] == pods[n];
      LocalPodsDelete(front, i);
    }
  }
}
