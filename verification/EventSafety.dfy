/**
 * The state between two events of pkg/policy/event.go, and how rewriting the policy chains and syncing
 * pods lead from one such state to the next.
 */
module EventSafety {
  import opened Sequences
  import opened Tables
  import opened PacketFilter
  import opened NetworkPolicies
  import opened PolicyChains
  import opened PodSync
  import opened PodSchedules
  import opened PodSafety
  import opened SetSync

  function NonPolicy(chains: set<Chain>): set<Chain> { set c | c in chains && !c.PolicyChain? }

  function UnmanagedOf(sets: set<SetName>): set<SetName> { set n | n in sets && n.Unmanaged? }

  function Names(ps: seq<CompiledPolicy>): set<Chain> { set c | c in PolicyChainNames(ps) }

  lemma NamesHold(ps: seq<CompiledPolicy>)
    ensures forall i :: 0 <= i < |ps| ==> PolicyChain(ps[i].np.key) in Names(ps)
  {
    forall i | 0 <= i < |ps| ensures PolicyChain(ps[i].np.key) in Names(ps) {
      assert PolicyChainNames(ps)[i] in PolicyChainNames(ps);
    }
  }

  /** Chains other than policy chains know nothing of policy chains and GLX sets, pod chains apart. */
  ghost predicate OthersSafe(rest: Chains, sets: set<SetName>) {
    forall c :: c in rest && !c.PolicyChain? ==> RulesReferOnly(rest[c], NonPolicy(rest.Keys), UnmanagedOf(sets))
  }

  ghost predicate PolicyChainsSafe(rest: Chains, sets: set<SetName>) {
    forall c :: c in rest && c.PolicyChain? ==> RulesReferOnly(rest[c], {}, sets)
  }

  /**
   * Policy chains `names` are there, policy chains match existing sets, pods are clean for their addresses and
   * refer to `names` only.
   */
  ghost predicate Settled(k: Kernel, ips: map<Key, Option<Addr>>, names: set<Chain>) {
    && OthersSafe(Rest(k.chains), k.sets.Keys)
    && PolicyChainsSafe(Rest(k.chains), k.sets.Keys)
    && names <= Rest(k.chains).Keys
    && PodsClean(k.chains, ips, names)
  }

  lemma RestIsSafe(rest: Chains, sets: set<SetName>)
    requires OthersSafe(rest, sets) && PolicyChainsSafe(rest, sets)
    ensures RestSafe(rest, sets)
  {
    forall c | c in rest ensures RulesReferOnly(rest[c], rest.Keys, sets) {
      if c.PolicyChain? { RefersMore(rest[c], {}, sets, rest.Keys, sets); }
      else { RefersMore(rest[c], NonPolicy(rest.Keys), UnmanagedOf(sets), rest.Keys, sets); }
    }
  }

  lemma PodsCleanMore(t: Chains, ips: map<Key, Option<Addr>>, a: set<Chain>, b: set<Chain>)
    requires PodsClean(t, ips, a) && a <= b
    ensures PodsClean(t, ips, b)
  {
    forall k
      ensures CleanView(View(t, k), k, if k in ips then ips[k] else None)
      ensures View(t, k).chain.Some? ==> RulesReferOnly(View(t, k).chain.value, b, {})
    {
      if View(t, k).chain.Some? { RefersMore(View(t, k).chain.value, a, {}, b, {}); }
    }
  }

  lemma SettledIsSafe(k: Kernel, ips: map<Key, Option<Addr>>, names: set<Chain>)
    requires Settled(k, ips, names)
    ensures RestSafe(Rest(k.chains), k.sets.Keys) && PodsClean(k.chains, ips, Rest(k.chains).Keys) && NoDangling(k)
  {
    RestIsSafe(Rest(k.chains), k.sets.Keys);
    PodsCleanMore(k.chains, ips, names, Rest(k.chains).Keys);
    forall q ensures ViewSafe(View(k.chains, q), q, Rest(k.chains).Keys) {
      CleanViewSafe(View(k.chains, q), q, if q in ips then ips[q] else None, Rest(k.chains).Keys);
    }
    SafeParts(k);
  }

  // ---- Rewriting the policy chains ----

  lemma SyncedKeepsViews(t: Chains, ps: seq<CompiledPolicy>, key: Key)
    requires DistinctPolicies(ps)
    ensures View(SyncedChains(t, ps), key) == View(t, key)
  {
    PolicyContentsSpec(ps);
  }

  lemma SyncedRest(t: Chains, ps: seq<CompiledPolicy>)
    requires DistinctPolicies(ps)
    ensures Rest(SyncedChains(t, ps)) == SyncedChains(Rest(t), ps)
  {
    PolicyContentsSpec(ps);
    RestOfUnion(t, PolicyContents(ps));
  }

  lemma RestOfUnion(t: Chains, contents: Chains)
    requires forall c :: c in contents ==> c.PolicyChain?
    ensures Rest((map c | c in t && !c.PolicyChain? :: t[c]) + contents) == (map c | c in Rest(t) && !c.PolicyChain? :: Rest(t)[c]) + contents
  {
    var u := (map c | c in t && !c.PolicyChain? :: t[c]) + contents;
    var a, b := Rest(u), (map c | c in Rest(t) && !c.PolicyChain? :: Rest(t)[c]) + contents;
    forall c ensures c in a <==> c in b {
    }
    forall c | c in a ensures a[c] == b[c] {
    }
  }

  lemma CompiledChainsSafe(cluster: Cluster, ps: seq<CompiledPolicy>, c: Chain, sets: set<SetName>)
    requires CompiledFrom(cluster, ps) && c in PolicyContents(ps) && Desired(ps).Keys <= sets
    ensures RulesReferOnly(PolicyContents(ps)[c], {}, sets)
  {
    PolicyContentsSpec(ps);
    var i :| 0 <= i < |ps| && PolicyChainNames(ps)[i] == c;
    var rules := PolicyContents(ps)[c];
    forall j | 0 <= j < |rules| ensures RuleRefersOnly(rules[j], {}, sets) {
      ChainRulesRefer(cluster, ps[i], rules[j]);
      forall m | 0 <= m < |rules[j].matches| && rules[j].matches[m].InSet? ensures rules[j].matches[m].name in sets {
        var table :| TableOf(cluster, ps[i].np, table) && table.name == rules[j].matches[m].name;
        DesiredHas(cluster, ps, i, table);
      }
    }
  }

  /** After syncIptables the state is settled for the new policies, with any sets that include the desired ones. */
  lemma SyncedSettled(cluster: Cluster, k: Kernel, ips: map<Key, Option<Addr>>, ps: seq<CompiledPolicy>, sets: Sets)
    requires CompiledFrom(cluster, ps)
    requires OthersSafe(Rest(k.chains), k.sets.Keys) && PodsClean(k.chains, ips, Names(ps))
    requires Desired(ps).Keys <= sets.Keys && UnmanagedOf(k.sets.Keys) <= sets.Keys
    ensures Settled(Kernel(SyncedChains(k.chains, ps), sets), ips, Names(ps))
  {
    var t, u := k.chains, SyncedChains(k.chains, ps);
    SyncedRest(t, ps);
    SyncedRestSafe(cluster, Rest(t), k.sets.Keys, ps, sets.Keys);
    forall q ensures View(u, q) == View(t, q) { SyncedKeepsViews(t, ps, q); }
  }

  /**
   * Replacing the policy chains is safe exactly when no pod chain jumps to a policy that goes.  This is what the order
   * of the handlers is for, and what an update that makes a policy's selector unconvertible would violate.
   */
  lemma SyncSafeExactly(cluster: Cluster, k: Kernel, ips: map<Key, Option<Addr>>, before: set<Chain>, ps: seq<CompiledPolicy>, sets: Sets)
    requires CompiledFrom(cluster, ps) && Settled(k, ips, before) && forall c :: c in before ==> c.PolicyChain?
    requires Desired(ps).Keys <= sets.Keys && UnmanagedOf(k.sets.Keys) <= sets.Keys
    ensures NoDangling(Kernel(SyncedChains(k.chains, ps), sets)) <==> PodsClean(k.chains, ips, Names(ps))
  {
    var u := SyncedChains(k.chains, ps);
    if PodsClean(k.chains, ips, Names(ps)) {
      SyncedSettled(cluster, k, ips, ps, sets);
      SettledIsSafe(Kernel(u, sets), ips, Names(ps));
    }
    if NoDangling(Kernel(u, sets)) {
      forall q ensures View(k.chains, q).chain.Some? ==> RulesReferOnly(View(k.chains, q).chain.value, Names(ps), {}) {
        if View(k.chains, q).chain.Some? { PodChainStays(k, ips, before, ps, sets, q); }
      }
      assert forall q :: CleanView(View(k.chains, q), q, if q in ips then ips[q] else None);
    }
  }

  lemma PodChainStays(k: Kernel, ips: map<Key, Option<Addr>>, before: set<Chain>, ps: seq<CompiledPolicy>, sets: Sets, q: Key)
    requires DistinctPolicies(ps) && Settled(k, ips, before) && (forall c :: c in before ==> c.PolicyChain?)
    requires NoDangling(Kernel(SyncedChains(k.chains, ps), sets)) && View(k.chains, q).chain.Some?
    ensures RulesReferOnly(View(k.chains, q).chain.value, Names(ps), {})
  {
    var u, rules := SyncedChains(k.chains, ps), k.chains[PodChain(q)];
    PolicyContentsSpec(ps);
    assert u[PodChain(q)] == rules;
    assert RulesReferOnly(rules, u.Keys, sets.Keys);
    assert RulesReferOnly(View(k.chains, q).chain.value, before, {});
    forall i | 0 <= i < |rules| ensures RuleRefersOnly(rules[i], Names(ps), {}) {
      assert RuleRefersOnly(rules[i], u.Keys, sets.Keys) && RuleRefersOnly(rules[i], before, {});
    }
  }

  lemma SyncedRestSafe(cluster: Cluster, rest: Chains, before: set<SetName>, ps: seq<CompiledPolicy>, sets: set<SetName>)
    requires CompiledFrom(cluster, ps) && OthersSafe(rest, before)
    requires Desired(ps).Keys <= sets && UnmanagedOf(before) <= sets
    ensures
      var u := SyncedChains(rest, ps);
      OthersSafe(u, sets) && PolicyChainsSafe(u, sets) && Names(ps) <= u.Keys
  {
    PolicyContentsSpec(ps);
    var u := SyncedChains(rest, ps);
    assert NonPolicy(u.Keys) == NonPolicy(rest.Keys);
    assert UnmanagedOf(before) <= UnmanagedOf(sets);
    forall c | c in u && !c.PolicyChain? ensures RulesReferOnly(u[c], NonPolicy(u.Keys), UnmanagedOf(sets)) {
      assert c in rest && u[c] == rest[c];
      RefersMore(u[c], NonPolicy(u.Keys), UnmanagedOf(before), NonPolicy(u.Keys), UnmanagedOf(sets));
    }
    forall c | c in u && c.PolicyChain? ensures RulesReferOnly(u[c], {}, sets) {
      assert c in PolicyContents(ps) && u[c] == PolicyContents(ps)[c];
      CompiledChainsSafe(cluster, ps, c, sets);
    }
  }

  // ---- Syncing pods ----

  lemma {:induction false} RestAtOthers(rest: Chains, sets: set<SetName>, m: nat)
    requires OthersSafe(rest, sets) && PolicyChainsSafe(rest, sets) && m <= BASIC
    ensures OthersSafe(RestAt(rest, m), sets) && PolicyChainsSafe(RestAt(rest, m), sets)
    ensures rest.Keys <= RestAt(rest, m).Keys
  {
    if m > 0 {
      RestAtOthers(rest, sets, m - 1);
      if m > 2 {
        RestAtDone(rest, m - 1, 0);
        RestAtDone(rest, m - 1, 1);
      }
      BasicStepOthers(RestAt(rest, m - 1), sets, m - 1);
    }
  }

  lemma BasicStepOthers(r: Chains, sets: set<SetName>, index: nat)
    requires OthersSafe(r, sets) && PolicyChainsSafe(r, sets) && (index >= 2 ==> Ingress in r && Egress in r)
    ensures OthersSafe(BasicStep(r, index), sets) && PolicyChainsSafe(BasicStep(r, index), sets)
    ensures r.Keys <= BasicStep(r, index).Keys
  {
    var u := BasicStep(r, index);
    assert NonPolicy(r.Keys) <= NonPolicy(u.Keys);
    forall c | c in u && !c.PolicyChain? ensures RulesReferOnly(u[c], NonPolicy(u.Keys), UnmanagedOf(sets)) {
      if c in r { RefersMore(r[c], NonPolicy(r.Keys), UnmanagedOf(sets), NonPolicy(u.Keys), UnmanagedOf(sets)); }
    }
  }

  /** The pods to sync, with the programs SyncPodChains runs for them. */
  ghost predicate PodPrograms(programs: Programs, pods: map<Key, Pod>, ips: map<Key, Option<Addr>>, ps: seq<CompiledPolicy>) {
    && programs.Keys == pods.Keys
    && forall q :: q in pods ==> pods[q].key == q && q in ips && ips[q] == pods[q].ip && programs[q] == Program(pods[q], ps)
  }

  /**
   * After all pod goroutines have finished, the state is settled for the new policies, provided every known pod
   * was synced or the old policies are among the new.
   */
  lemma SyncPodsSettles(k: Kernel, ips: map<Key, Option<Addr>>, old': set<Chain>, programs: Programs, pods: map<Key, Pod>,
                        ps: seq<CompiledPolicy>, u: Chains)
    requires Settled(k, ips, old') && PodPrograms(programs, pods, ips, ps) && Ends(k.chains, programs, u)
    requires Names(ps) <= Rest(k.chains).Keys
    requires old' <= Names(ps) || ips.Keys <= pods.Keys
    ensures Settled(Kernel(u, k.sets), ips, Names(ps))
  {
    RestAtOthers(Rest(k.chains), k.sets.Keys, if AnyBasics(programs) then BASIC else 0);
    forall q | q in pods ensures CleanView(View(k.chains, q), q, pods[q].ip) { assert ips[q] == pods[q].ip; }
    InterleavingEnds(k.chains, programs, pods, ps, u);
    forall q
      ensures CleanView(View(u, q), q, if q in ips then ips[q] else None)
      ensures View(u, q).chain.Some? ==> RulesReferOnly(View(u, q).chain.value, Names(ps), {})
    {
      assert CleanView(View(k.chains, q), q, if q in ips then ips[q] else None);
      if q in pods {
        assert ips[q] == pods[q].ip;
        SyncedViewRefers(pods[q], ps);
      } else if View(u, q).chain.Some? {
        assert View(u, q) == View(k.chains, q);
        RefersMore(View(u, q).chain.value, old', {}, Names(ps), {});
      }
    }
  }

  /** The view SyncPodChains aims for is clean and refers to the policies' chains only. */
  lemma SyncedViewRefers(pod: Pod, ps: seq<CompiledPolicy>)
    ensures CleanView(SyncedView(pod, ps), pod.key, pod.ip)
    ensures SyncedView(pod, ps).chain.Some? ==> RulesReferOnly(SyncedView(pod, ps).chain.value, Names(ps), {})
  {
    NamesHold(ps);
    PodRulesRefer(pod, ps, Names(ps));
  }

  // ---- Helpers for the controller ----

  /** A machine without any GLX state is settled for no policies. */
  lemma FreshSettled(k: Kernel)
    requires OthersSafe(k.chains, k.sets.Keys)
    requires forall c :: c in k.chains ==> !c.PolicyChain? && !c.PodChain?
    requires forall c, r :: c in k.chains && r in k.chains[c] ==> !LeadsToPod(r)
    ensures Settled(k, map[], {})
  {
    forall c | c in k.chains ensures WithoutPodJumps(k.chains[c]) == k.chains[c] { KeepsAll(k.chains[c]); }
    assert Rest(k.chains) == k.chains;
    forall q ensures View(k.chains, q) == ABSENT {
      NoJumps(Rules(k.chains, Ingress), q);
      NoJumps(Rules(k.chains, Egress), q);
    }
  }

  lemma {:induction false} KeepsAll(rules: seq<Rule>)
    requires forall r :: r in rules ==> !LeadsToPod(r)
    ensures WithoutPodJumps(rules) == rules
  {
    if rules != [] {
      assert rules[0] in rules;
      assert forall r :: r in rules[1..] ==> r in rules;
      KeepsAll(rules[1..]);
    }
  }

  lemma {:induction false} NoJumps(rules: seq<Rule>, key: Key)
    requires forall r :: r in rules ==> !LeadsToPod(r)
    ensures JumpsTo(rules, key) == []
  {
    if rules != [] {
      assert rules[0] in rules;
      assert forall r :: r in rules[1..] ==> r in rules;
      NoJumps(rules[1..], key);
    }
  }

  lemma SettledMoreSets(k: Kernel, ips: map<Key, Option<Addr>>, names: set<Chain>, sets: Sets)
    requires Settled(k, ips, names) && k.sets.Keys <= sets.Keys
    ensures Settled(Kernel(k.chains, sets), ips, names)
  {
    var rest := Rest(k.chains);
    assert UnmanagedOf(k.sets.Keys) <= UnmanagedOf(sets.Keys);
    forall c | c in rest ensures
      if c.PolicyChain? then RulesReferOnly(rest[c], {}, sets.Keys)
      else RulesReferOnly(rest[c], NonPolicy(rest.Keys), UnmanagedOf(sets.Keys))
    {
      if c.PolicyChain? { RefersMore(rest[c], {}, k.sets.Keys, {}, sets.Keys); }
      else { RefersMore(rest[c], NonPolicy(rest.Keys), UnmanagedOf(k.sets.Keys), NonPolicy(rest.Keys), UnmanagedOf(sets.Keys)); }
    }
  }

  lemma KeptIsSynced(sets: Sets, ps: seq<CompiledPolicy>)
    requires NoUnmanaged(ps)
    ensures Kept(sets + Desired(ps), IPSetMap(ps).Keys) == SyncedSets(sets, ps)
  {
  }

  /** A known pod may get its address, and unknown pods may appear, without disturbing a settled state. */
  ghost predicate Extends(old': map<Key, Option<Addr>>, new': map<Key, Option<Addr>>) {
    forall k :: k in old' && old'[k].Some? ==> k in new' && new'[k] == old'[k]
  }

  lemma SettledExtends(k: Kernel, old': map<Key, Option<Addr>>, new': map<Key, Option<Addr>>, names: set<Chain>)
    requires Settled(k, old', names) && Extends(old', new')
    ensures Settled(k, new', names)
  {
    forall q ensures CleanView(View(k.chains, q), q, if q in new' then new'[q] else None) {
      assert CleanView(View(k.chains, q), q, if q in old' then old'[q] else None);
    }
  }

  /** One pod alone: nothing dangles after any number of its commands. */
  lemma SoloSafe(k: Kernel, ips: map<Key, Option<Addr>>, names: set<Chain>, pod: Pod, ps: seq<CompiledPolicy>, n: nat)
    requires Settled(k, ips, names) && Names(ps) <= Rest(k.chains).Keys
    requires pod.key in ips && ips[pod.key] == pod.ip && n <= |Program(pod, ps)|
    ensures NoDangling(Kernel(Solo(k.chains, pod.key, Program(pod, ps)[..n]).chains, k.sets))
  {
    SettledIsSafe(k, ips, names);
    NamesHold(ps);
    SoloIsRun(k.chains, pod.key, Program(pod, ps), n);
    InterleavingSafe(k, ips, map[pod.key := Program(pod, ps)], map[pod.key := pod], ps, Times(pod.key, n));
  }

  /** A sync that runs alone ends where every interleaving of it alone ends. */
  lemma SoloEnds(t: Chains, pod: Pod, ps: seq<CompiledPolicy>)
    ensures Ends(t, map[pod.key := Program(pod, ps)], Solo(t, pod.key, Program(pod, ps)).chains)
  {
    var ops := Program(pod, ps);
    ProgramWellFormed(pod, ps);
    assert ops[..|ops|] == ops && ops[|ops|..] == [];
    SoloIsRun(t, pod.key, ops, |ops|);
    CompleteRun(t, map[pod.key := ops], Times(pod.key, |ops|));
  }

  lemma SoloSettles(k: Kernel, ips: map<Key, Option<Addr>>, pod: Pod, ps: seq<CompiledPolicy>)
    requires Settled(k, ips, Names(ps))
    requires pod.key in ips && ips[pod.key] == pod.ip
    ensures Settled(Kernel(Solo(k.chains, pod.key, Program(pod, ps)).chains, k.sets), ips, Names(ps))
  {
    SoloEnds(k.chains, pod, ps);
    SyncPodsSettles(k, ips, Names(ps), map[pod.key := Program(pod, ps)], map[pod.key := pod], ps,
      Solo(k.chains, pod.key, Program(pod, ps)).chains);
  }

  /** After deletePodChains the state is settled without the pod. */
  lemma DeleteSettles(k: Kernel, ips: map<Key, Option<Addr>>, names: set<Chain>, pod: Pod)
    requires Settled(k, ips, names) && pod.key in ips && ips[pod.key] == pod.ip
    ensures Settled(Kernel(Solo(k.chains, pod.key, CLEANUP).chains, k.sets), ips - {pod.key}, names)
  {
    assert Program(pod, []) == CLEANUP;
    assert CleanView(View(k.chains, pod.key), pod.key, pod.ip);
    SoloSync(k.chains, pod, []);
    var u := Solo(k.chains, pod.key, CLEANUP).chains;
    RestAtOthers(Rest(k.chains), k.sets.Keys, BASIC);
    forall q
      ensures CleanView(View(u, q), q, if q in ips - {pod.key} then ips[q] else None)
      ensures View(u, q).chain.Some? ==> RulesReferOnly(View(u, q).chain.value, names, {})
    {
      assert CleanView(View(k.chains, q), q, if q in ips then ips[q] else None);
    }
  }

  /** The names of compiled policies are those of the policies with a good selector. */
  lemma NamesSpec(cluster: Cluster, nps: seq<NetworkPolicy>, c: Chain)
    ensures c in Names(CompileAll(cluster, nps)) <==> exists i :: 0 <= i < |nps| && nps[i].podSelector.Selector? && c == PolicyChain(nps[i].key)
  {
    var ps := CompileAll(cluster, nps);
    if c in Names(ps) {
      var j :| 0 <= j < |PolicyChainNames(ps)| && PolicyChainNames(ps)[j] == c;
      CompileAllMembers(cluster, nps, j);
      var i :| 0 <= i < |nps| && nps[i] == ps[j].np;
    }
    if i :| 0 <= i < |nps| && nps[i].podSelector.Selector? && c == PolicyChain(nps[i].key) {
      CompileAllCovers(cluster, nps, nps[i]);
      var j :| 0 <= j < |ps| && ps[j].np == nps[i];
      NamesHold(ps);
    }
  }

  /** Policies with a good selector in `a` are, by key, policies with a good selector in `b`. */
  ghost predicate KeysWithin(a: seq<NetworkPolicy>, b: seq<NetworkPolicy>) {
    forall i :: 0 <= i < |a| && a[i].podSelector.Selector? ==>
      exists j :: 0 <= j < |b| && b[j].podSelector.Selector? && b[j].key == a[i].key
  }

  lemma NamesWithin(one: Cluster, a: seq<NetworkPolicy>, two: Cluster, b: seq<NetworkPolicy>)
    requires KeysWithin(a, b)
    ensures Names(CompileAll(one, a)) <= Names(CompileAll(two, b))
  {
    forall c | c in Names(CompileAll(one, a)) ensures c in Names(CompileAll(two, b)) {
      NamesSpec(one, a, c);
      NamesSpec(two, b, c);
    }
  }
}
