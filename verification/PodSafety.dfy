/**
 * What the views of pods look like while they are synced with a fixed address, and why no jump and
 * no set reference dangles meanwhile.
 */
module PodSafety {
  import opened Sequences
  import opened PacketFilter
  import opened NetworkPolicies
  import opened PodSync
  import opened PodSchedules

  const ABSENT := PodView(None, [], [])

  predicate AtMost(jumps: seq<Rule>, r: Rule) { jumps == [] || jumps == [r] }

  /** At most one jump per direction, carrying the pod's address; jumps only to an existing chain. */
  predicate CleanView(v: PodView, key: Key, ip: Option<Addr>) {
    if ip.None? then v == ABSENT
    else
      && AtMost(v.ingress, JumpRule(Inbound, key, ip.value))
      && AtMost(v.egress, JumpRule(Outbound, key, ip.value))
      && (v.chain.None? ==> v == ABSENT)
  }

  /** The view SyncPodChains aims for. */
  function SyncedView(pod: Pod, ps: seq<CompiledPolicy>): PodView {
    if pod.ip.None? || !(Targeted(ps, pod, Inbound) || Targeted(ps, pod, Outbound)) then ABSENT
    else PodView(Some(PodRules(pod, ps)),
                 if Targeted(ps, pod, Inbound) then [JumpRule(Inbound, pod.key, pod.ip.value)] else [],
                 if Targeted(ps, pod, Outbound) then [JumpRule(Outbound, pod.key, pod.ip.value)] else [])
  }

  /** Jumps only to an existing chain; the pod's chain refers to chains in `chains` and to no sets. */
  ghost predicate ViewSafe(v: PodView, key: Key, chains: set<Chain>) {
    && (v.ingress != [] || v.egress != [] ==> v.chain.Some?)
    && RulesReferOnly(v.ingress, {PodChain(key)}, {})
    && RulesReferOnly(v.egress, {PodChain(key)}, {})
    && (v.chain.Some? ==> RulesReferOnly(v.chain.value, chains, {}))
  }

  // ---- Cleaning up ----

  lemma CleanupRun(v: PodView, key: Key, ip: Option<Addr>, n: nat)
    requires CleanView(v, key, ip) && n <= |CLEANUP|
    ensures
      var s := RunView(v, key, CLEANUP[..n]);
      && CleanView(s.view, key, ip)
      && (s.view.chain.Some? ==> s.view.chain == v.chain || s.view.chain == Some([]))
      && (n == 1 ==> s.found == FirstOf(s.view.ingress))
      && (n == 2 ==> s.view.ingress == [])
      && (n == 3 ==> s.view.ingress == [] && s.found == FirstOf(s.view.egress))
      && (n >= 4 ==> s.view.ingress == [] && s.view.egress == [])
      && (n == |CLEANUP| ==> s.view == ABSENT)
  {
    if n > 0 {
      CleanupRun(v, key, ip, n - 1);
      RunViewStep(v, key, CLEANUP, n - 1);
    } else {
      assert CLEANUP[..0] == [];
    }
  }

  // ---- Filling in ----

  lemma {:induction false} BasicsRun(v: PodView, key: Key, ops: seq<Op>, n: nat)
    requires HasBasics(ops) && n <= BASIC
    ensures RunView(v, key, ops[..n]) == ViewState(v, None)
  {
    if n > 0 {
      BasicsRun(v, key, ops, n - 1);
      RunViewStep(v, key, ops, n - 1);
      assert ops[n - 1] == ops[..BASIC][n - 1] == BASICS[n - 1];
    } else {
      assert ops[..0] == [];
    }
  }

  lemma JumpOpEffect(v: PodView, key: Key, d: Direction, wanted: bool, a: Addr)
    requires AtMost(v.Jumps(d), JumpRule(d, key, a))
    ensures StepView(v, key, None, JumpOp(d, wanted, a)) == v.WithJumps(d, if wanted then [JumpRule(d, key, a)] else [])
  {
    var r := JumpRule(d, key, a);
    assert RemoveFirst([], r) == [] && RemoveFirst([r], r) == [];
  }

  lemma TargetedRun(v: PodView, pod: Pod, ps: seq<CompiledPolicy>, n: nat)
    requires pod.ip.Some? && CleanView(v, pod.key, pod.ip)
    requires Targeted(ps, pod, Inbound) || Targeted(ps, pod, Outbound)
    requires n <= BASIC + 3
    ensures
      var goal := SyncedView(pod, ps);
      RunView(v, pod.key, Program(pod, ps)[..n]) == ViewState(
        if n <= BASIC then v
        else if n == BASIC + 1 then v.(chain := goal.chain)
        else if n == BASIC + 2 then PodView(goal.chain, goal.ingress, v.egress)
        else goal, None)
  {
    var ops := Program(pod, ps);
    ProgramWellFormed(pod, ps);
    if n <= BASIC {
      BasicsRun(v, pod.key, ops, n);
    } else {
      TargetedRun(v, pod, ps, n - 1);
      RunViewStep(v, pod.key, ops, n - 1);
      var a := pod.ip.value;
      var w := RunView(v, pod.key, ops[..n - 1]).view;
      if n == BASIC + 2 { JumpOpEffect(w, pod.key, Inbound, Targeted(ps, pod, Inbound), a); }
      if n == BASIC + 3 { JumpOpEffect(w, pod.key, Outbound, Targeted(ps, pod, Outbound), a); }
    }
  }

  /**
   * Whatever clean view a pod starts from, a complete SyncPodChains ends in the view of the current
   * policies, and every view on the way is clean and takes its chain from the start or the end.
   */
  lemma ProgramRun(v: PodView, pod: Pod, ps: seq<CompiledPolicy>, n: nat)
    requires CleanView(v, pod.key, pod.ip) && n <= |Program(pod, ps)|
    ensures
      var w := RunView(v, pod.key, Program(pod, ps)[..n]).view;
      && CleanView(w, pod.key, pod.ip)
      && (w.chain.Some? ==> w.chain == v.chain || w.chain == Some([]) || w.chain == SyncedView(pod, ps).chain)
      && (n == |Program(pod, ps)| ==> w == SyncedView(pod, ps))
  {
    if !Targeted(ps, pod, Inbound) && !Targeted(ps, pod, Outbound) {
      CleanupRun(v, pod.key, pod.ip, n);
    } else if pod.ip.None? {
      assert Program(pod, ps)[..n] == [];
    } else {
      TargetedRun(v, pod, ps, n);
    }
  }

  /** A complete sync of one clean pod reaches the synced view and leaves every other pod alone. */
  lemma SoloSync(t: Chains, pod: Pod, ps: seq<CompiledPolicy>)
    requires CleanView(View(t, pod.key), pod.key, pod.ip)
    ensures
      var u := Solo(t, pod.key, Program(pod, ps)).chains;
      && View(u, pod.key) == SyncedView(pod, ps)
      && (forall k :: k != pod.key ==> View(u, k) == View(t, k))
      && Rest(u) == RestAt(Rest(t), if HasBasics(Program(pod, ps)) then BASIC else 0)
  {
    var ops := Program(pod, ps);
    ProgramWellFormed(pod, ps);
    assert ops[..|ops|] == ops && ops[|ops|..] == [];
    SoloIsRun(t, pod.key, ops, |ops|);
    assert AnyBasics(map[pod.key := ops]) <==> HasBasics(ops) by { assert map[pod.key := ops][pod.key] == ops; }
    CompleteRun(t, map[pod.key := ops], Times(pod.key, |ops|));
    ProgramRun(View(t, pod.key), pod, ps, |ops|);
  }

  /** A sync of the pod as it is then, under the policies of then. */
  datatype Sync = Sync(pod: Pod, ps: seq<CompiledPolicy>)

  /** Labels and policies change freely; an address, once given, stays. */
  ghost predicate OnePod(key: Key, history: seq<Sync>) {
    && (forall i :: 0 <= i < |history| ==> history[i].pod.key == key)
    && forall i, j :: 0 <= i < j < |history| && history[i].pod.ip.Some? ==> history[j].pod.ip == history[i].pod.ip
  }

  /** The table after the pod has been synced alone, time and again. */
  function Lifetime(t: Chains, history: seq<Sync>): Chains {
    if history == [] then t
    else
      var last := history[|history| - 1];
      Solo(Lifetime(t, history[..|history| - 1]), last.pod.key, Program(last.pod, last.ps)).chains
  }

  /**
   * From a table without the pod, any number of syncs under changing labels and policies leave at most one jump per
   * direction; the last sync alone decides the pod's chain and jumps, so one without a selecting policy leaves
   * nothing of the pod; and no other pod's chain or jumps ever change.
   */
  lemma {:induction false} LifetimeClean(t: Chains, key: Key, history: seq<Sync>)
    requires View(t, key) == ABSENT && OnePod(key, history)
    ensures
      var u := Lifetime(t, history);
      && (history == [] ==> View(u, key) == ABSENT)
      && (history != [] ==>
            var last := history[|history| - 1];
            CleanView(View(u, key), key, last.pod.ip) && View(u, key) == SyncedView(last.pod, last.ps))
      && forall k :: k != key ==> View(u, k) == View(t, k)
    decreases |history|
  {
    if history != [] {
      var front, last := history[..|history| - 1], history[|history| - 1];
      LifetimeClean(t, key, front);
      SoloSync(Lifetime(t, front), last.pod, last.ps);
      assert front != [] ==> front[|front| - 1] == history[|history| - 2];
    }
  }

  // ---- Nothing dangles ----

  lemma JumpRuleRefers(d: Direction, key: Key, a: Addr)
    ensures RulesReferOnly([JumpRule(d, key, a)], {PodChain(key)}, {})
  {
  }

  lemma CleanViewSafe(v: PodView, key: Key, ip: Option<Addr>, chains: set<Chain>)
    requires CleanView(v, key, ip)
    requires v.chain.Some? ==> RulesReferOnly(v.chain.value, chains, {})
    ensures ViewSafe(v, key, chains)
  {
    if ip.Some? {
      JumpRuleRefers(Inbound, key, ip.value);
      JumpRuleRefers(Outbound, key, ip.value);
    }
  }

  /** A pod chain refers only to the chains of the policies it was written for. */
  lemma PodRulesRefer(pod: Pod, ps: seq<CompiledPolicy>, chains: set<Chain>)
    requires forall i :: 0 <= i < |ps| ==> PolicyChain(ps[i].np.key) in chains
    ensures RulesReferOnly(PodRules(pod, ps), chains, {})
  {
    forall r | r in PodRules(pod, ps) ensures RuleRefersOnly(r, chains, {}) {
      if r in PolicyJumps(pod, ps) { PolicyJumpsMembers(pod, ps, r); }
    }
    var rules := PodRules(pod, ps);
    assert forall i :: 0 <= i < |rules| ==> rules[i] in rules;
  }

  ghost predicate RestSafe(rest: Chains, sets: set<SetName>) {
    forall c :: c in rest ==> RulesReferOnly(rest[c], rest.Keys, sets)
  }

  lemma RefersMore(rules: seq<Rule>, chains: set<Chain>, sets: set<SetName>, chains': set<Chain>, sets': set<SetName>)
    requires RulesReferOnly(rules, chains, sets) && chains <= chains' && sets <= sets'
    ensures RulesReferOnly(rules, chains', sets')
  {
  }

  /** If the rest of the table and every pod's view are safe, nothing dangles. */
  lemma SafeParts(k: Kernel)
    requires RestSafe(Rest(k.chains), k.sets.Keys)
    requires forall key :: ViewSafe(View(k.chains, key), key, Rest(k.chains).Keys)
    ensures NoDangling(k)
  {
    assert Rest(k.chains).Keys <= k.chains.Keys;
    forall c | c in k.chains ensures RulesReferOnly(k.chains[c], k.chains.Keys, k.sets.Keys) {
      if c.PodChain? {
        assert ViewSafe(View(k.chains, c.pod), c.pod, Rest(k.chains).Keys);
        RefersMore(k.chains[c], Rest(k.chains).Keys, {}, k.chains.Keys, k.sets.Keys);
      } else if c.Ingress? || c.Egress? {
        forall i | 0 <= i < |k.chains[c]| ensures RuleRefersOnly(k.chains[c][i], k.chains.Keys, k.sets.Keys) {
          JumpChainSafe(k, c, i);
        }
      } else {
        assert Rest(k.chains)[c] == k.chains[c];
        RefersMore(k.chains[c], Rest(k.chains).Keys, k.sets.Keys, k.chains.Keys, k.sets.Keys);
      }
    }
  }

  lemma JumpChainSafe(k: Kernel, c: Chain, i: nat)
    requires RestSafe(Rest(k.chains), k.sets.Keys)
    requires forall key :: ViewSafe(View(k.chains, key), key, Rest(k.chains).Keys)
    requires (c.Ingress? || c.Egress?) && c in k.chains && i < |k.chains[c]|
    ensures RuleRefersOnly(k.chains[c][i], k.chains.Keys, k.sets.Keys)
  {
    var r := k.chains[c][i];
    if LeadsToPod(r) {
      var key := r.target.chain.pod;
      var v := View(k.chains, key);
      assert ViewSafe(v, key, Rest(k.chains).Keys);
      JumpsToMembers(k.chains[c], key, r);
      var jumps := if c.Ingress? then v.ingress else v.egress;
      var j :| 0 <= j < |jumps| && jumps[j] == r;
      assert RuleRefersOnly(jumps[j], {PodChain(key)}, {});
    } else {
      WithoutPodJumpsMembers(k.chains[c], r);
      var rest := Rest(k.chains)[c];
      var j :| 0 <= j < |rest| && rest[j] == r;
      assert RuleRefersOnly(rest[j], Rest(k.chains).Keys, k.sets.Keys);
    }
  }

  lemma {:induction false} RestAtSafe(rest: Chains, sets: set<SetName>, m: nat)
    requires RestSafe(rest, sets) && m <= BASIC
    ensures RestSafe(RestAt(rest, m), sets)
    ensures rest.Keys <= RestAt(rest, m).Keys
  {
    if m > 0 {
      RestAtSafe(rest, sets, m - 1);
      var r := RestAt(rest, m - 1);
      if m > 2 {
        RestAtDone(rest, m - 1, 0);
        RestAtDone(rest, m - 1, 1);
      }
      BasicStepSafe(r, sets, m - 1);
    }
  }

  lemma BasicStepSafe(r: Chains, sets: set<SetName>, index: nat)
    requires RestSafe(r, sets) && (index >= 2 ==> Ingress in r && Egress in r)
    ensures RestSafe(BasicStep(r, index), sets)
    ensures r.Keys <= BasicStep(r, index).Keys
  {
    var u := BasicStep(r, index);
    forall c | c in u ensures RulesReferOnly(u[c], u.Keys, sets) {
      if c in r { RefersMore(r[c], r.Keys, sets, u.Keys, sets); }
    }
  }

  /** Every pod's view is clean for its address, and existing pod chains refer to policies of `keys` only. */
  ghost predicate PodsClean(t: Chains, ips: map<Key, Option<Addr>>, keys: set<Chain>) {
    forall k ::
      && CleanView(View(t, k), k, if k in ips then ips[k] else None)
      && (View(t, k).chain.Some? ==> RulesReferOnly(View(t, k).chain.value, keys, {}))
  }

  /**
   * At every moment of every interleaving of SyncPodChains for `pods`, nothing dangles: the policy chains named by the
   * old and the new policy lists are there throughout.
   */
  lemma InterleavingSafe(k: Kernel, ips: map<Key, Option<Addr>>, programs: Programs, pods: map<Key, Pod>,
                         ps: seq<CompiledPolicy>, schedule: seq<Key>)
    requires RestSafe(Rest(k.chains), k.sets.Keys) && PodsClean(k.chains, ips, Rest(k.chains).Keys)
    requires programs.Keys == pods.Keys
    requires forall i :: 0 <= i < |ps| ==> PolicyChain(ps[i].np.key) in Rest(k.chains)
    requires forall q :: q in pods ==> pods[q].key == q && q in ips && ips[q] == pods[q].ip && programs[q] == Program(pods[q], ps)
    ensures NoDangling(Kernel(Run(Start(k.chains, programs), schedule).chains, k.sets))
  {
    forall q | q in programs ensures WellFormed(programs[q]) { ProgramWellFormed(pods[q], ps); }
    StartTracks(k.chains, programs);
    var pos, m := RunTracks(k.chains, programs, Start(k.chains, programs), map q | q in programs :: 0, 0, schedule);
    var s := Run(Start(k.chains, programs), schedule);
    RestAtSafe(Rest(k.chains), k.sets.Keys, m);
    var chains := Rest(s.chains).Keys;
    forall q ensures ViewSafe(View(s.chains, q), q, chains) {
      ViewStaysSafe(k.chains, ips, programs, pods, ps, s, pos, m, q);
    }
    SafeParts(Kernel(s.chains, k.sets));
  }

  lemma ViewStaysSafe(t: Chains, ips: map<Key, Option<Addr>>, programs: Programs, pods: map<Key, Pod>, ps: seq<CompiledPolicy>,
                      s: System, pos: map<Key, nat>, m: nat, q: Key)
    requires PodsClean(t, ips, Rest(t).Keys) && programs.Keys == pods.Keys
    requires forall i :: 0 <= i < |ps| ==> PolicyChain(ps[i].np.key) in Rest(t)
    requires forall p :: p in pods ==> pods[p].key == p && p in ips && ips[p] == pods[p].ip && programs[p] == Program(pods[p], ps)
    requires Tracks(t, programs, s, pos, m) && Rest(t).Keys <= Rest(s.chains).Keys
    ensures ViewSafe(View(s.chains, q), q, Rest(s.chains).Keys)
  {
    var v, w, chains := View(t, q), View(s.chains, q), Rest(s.chains).Keys;
    assert CleanView(v, q, if q in ips then ips[q] else None);
    if v.chain.Some? { RefersMore(v.chain.value, Rest(t).Keys, {}, chains, {}); }
    if q in programs {
      assert ThreadTracks(t, q, programs[q], s, pos[q], m);
      ProgramRun(v, pods[q], ps, pos[q]);
      PodRulesRefer(pods[q], ps, chains);
      assert RulesReferOnly([], chains, {});
      CleanViewSafe(w, q, ips[q], chains);
    } else {
      CleanViewSafe(w, q, if q in ips then ips[q] else None, chains);
    }
  }

  /** After a complete interleaving every pod is in its synced view, and all other views are as before. */
  lemma InterleavingEnds(t: Chains, programs: Programs, pods: map<Key, Pod>, ps: seq<CompiledPolicy>, u: Chains)
    requires Ends(t, programs, u)
    requires programs.Keys == pods.Keys
    requires forall q :: q in pods ==> pods[q].key == q && CleanView(View(t, q), q, pods[q].ip) && programs[q] == Program(pods[q], ps)
    ensures forall q :: q in pods ==> View(u, q) == SyncedView(pods[q], ps)
    ensures forall q :: q !in pods ==> View(u, q) == View(t, q)
  {
    forall q | q in pods ensures View(u, q) == SyncedView(pods[q], ps) {
      var ops := programs[q];
      assert ops[..|ops|] == ops;
      ProgramRun(View(t, q), pods[q], ps, |ops|);
    }
  }
}
