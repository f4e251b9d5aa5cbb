/**
 * The builtin chains that ensureBasicChain hooks, over a whole life of the controller: what FORWARD, INPUT and OUTPUT
 * look like between events, and what they do to a packet after a policy event.
 */
module Hooks {
  import opened Tables
  import opened PacketFilter
  import opened NetworkPolicies
  import opened PolicyChains
  import opened PodSync
  import opened PodSchedules
  import opened PodSafety
  import opened SetSync
  import opened EventSafety
  import opened PolicyManagers
  import opened Verdicts

  const TO_INGRESS := Rule([], Jump(Ingress))
  const TO_EGRESS := Rule([], Jump(Egress))

  /** What ensureBasicChain puts in front of a builtin chain. */
  function HookRules(c: Chain): seq<Rule> {
    match c
    case Forward => [TO_EGRESS, TO_INGRESS]
    case Input => [TO_EGRESS]
    case Output => [TO_INGRESS]
    case _ => []
  }

  ghost predicate HookFree(base: Chains) {
    forall c :: c in BUILTIN ==> TO_INGRESS !in Rules(base, c) && TO_EGRESS !in Rules(base, c)
  }

  ghost predicate Hooked(t: Chains, base: Chains, c: Chain) {
    Rules(t, c) == HookRules(c) + Rules(base, c)
  }

  /**
   * Between events: the builtin chains are those of `base`, the table before the controller came, hooked or not,
   * and the jump chains hold nothing but jumps to pods.
   */
  ghost predicate Framed(t: Chains, base: Chains) {
    && HookFree(base)
    && (forall c :: c in BUILTIN ==> Rules(t, c) == Rules(base, c) || Hooked(t, base, c))
    && WithoutPodJumps(Rules(t, Ingress)) == [] && WithoutPodJumps(Rules(t, Egress)) == []
  }

  // ---- What the commands leave ----

  lemma RestRules(t: Chains, c: Chain)
    ensures Rules(Rest(t), c) ==
      if c.PodChain? then [] else if c == Ingress || c == Egress then WithoutPodJumps(Rules(t, c)) else Rules(t, c)
  {
  }

  lemma {:induction false} EarlySteps(rest: Chains, m: nat, c: Chain)
    requires m <= 4 && (c == Input || c == Output)
    ensures Rules(RestAt(rest, m), c) == Rules(rest, c)
  {
    if m > 0 { EarlySteps(rest, m - 1, c); }
  }

  /** The hook of INPUT or OUTPUT after all six commands. */
  lemma LateSteps(rest: Chains)
    ensures
      && Rules(RestAt(rest, BASIC), Output) == (if TO_INGRESS in Rules(rest, Output) then Rules(rest, Output) else [TO_INGRESS] + Rules(rest, Output))
      && Rules(RestAt(rest, BASIC), Input) == (if TO_EGRESS in Rules(rest, Input) then Rules(rest, Input) else [TO_EGRESS] + Rules(rest, Input))
  {
    EarlySteps(rest, 4, Output);
    EarlySteps(rest, 4, Input);
    assert RestAt(rest, 5) == BasicStep(RestAt(rest, 4), 4);
    assert RestAt(rest, 6) == BasicStep(RestAt(rest, 5), 5);
  }

  /** FORWARD after all six commands: the jump to GLX-EGRESS in front of the jump to GLX-INGRESS. */
  lemma ForwardSteps(rest: Chains, was: seq<Rule>)
    requires TO_INGRESS !in was && TO_EGRESS !in was
    requires Rules(rest, Forward) == was || Rules(rest, Forward) == [TO_EGRESS, TO_INGRESS] + was
    ensures Rules(RestAt(rest, BASIC), Forward) == [TO_EGRESS, TO_INGRESS] + was
  {
    ForwardAt(rest, BASIC);
    var rules := Rules(rest, Forward);
    if rules == was {
      assert [TO_EGRESS] + ([TO_INGRESS] + was) == [TO_EGRESS, TO_INGRESS] + was;
    } else {
      assert rules[0] == TO_EGRESS && rules[1] == TO_INGRESS;
    }
  }

  lemma BasicsHook(rest: Chains, base: Chains, c: Chain)
    requires HookFree(base) && c in BUILTIN && (Rules(rest, c) == Rules(base, c) || Hooked(rest, base, c))
    ensures Hooked(RestAt(rest, BASIC), base, c)
  {
    if c == Forward {
      ForwardSteps(rest, Rules(base, Forward));
    } else {
      LateSteps(rest);
      if Hooked(rest, base, c) { assert Rules(rest, c)[0] == HookRules(c)[0]; }
    }
  }

  lemma FramedRest(t: Chains, u: Chains, base: Chains)
    requires Framed(t, base) && Rest(u) == Rest(t)
    ensures Framed(u, base)
  {
    forall c | c in BUILTIN ensures Rules(u, c) == Rules(t, c) { RestRules(t, c); RestRules(u, c); }
    RestRules(t, Ingress);
    RestRules(u, Ingress);
    RestRules(t, Egress);
    RestRules(u, Egress);
  }

  lemma FramedBasics(t: Chains, u: Chains, base: Chains)
    requires Framed(t, base) && Rest(u) == RestAt(Rest(t), BASIC)
    ensures Framed(u, base) && forall c :: c in BUILTIN ==> Hooked(u, base, c)
  {
    forall c | c in BUILTIN ensures Hooked(u, base, c) {
      RestRules(t, c);
      RestRules(u, c);
      BasicsHook(Rest(t), base, c);
    }
    BareAfter(t, u, Ingress);
    BareAfter(t, u, Egress);
  }

  lemma BareAfter(t: Chains, u: Chains, c: Chain)
    requires Rest(u) == RestAt(Rest(t), BASIC) && (c == Ingress || c == Egress) && WithoutPodJumps(Rules(t, c)) == []
    ensures WithoutPodJumps(Rules(u, c)) == []
  {
    RestRules(t, c);
    RestRules(u, c);
    RestAtKeeps(Rest(t), BASIC, c);
  }

  lemma FramedEnds(t: Chains, programs: Programs, u: Chains, base: Chains)
    requires Framed(t, base) && Ends(t, programs, u)
    ensures Framed(u, base) && (AnyBasics(programs) ==> forall c :: c in BUILTIN ==> Hooked(u, base, c))
  {
    if AnyBasics(programs) { FramedBasics(t, u, base); } else { FramedRest(t, u, base); }
  }

  lemma SyncedOthers(t: Chains, ps: seq<CompiledPolicy>, c: Chain)
    requires DistinctPolicies(ps) && !c.PolicyChain?
    ensures Rules(SyncedChains(t, ps), c) == Rules(t, c)
  {
    PolicyContentsSpec(ps);
  }

  lemma FramedSynced(t: Chains, ps: seq<CompiledPolicy>, base: Chains)
    requires Framed(t, base) && DistinctPolicies(ps)
    ensures Framed(SyncedChains(t, ps), base)
    ensures forall c :: c in BUILTIN ==> Rules(SyncedChains(t, ps), c) == Rules(t, c)
  {
    SyncedOthers(t, ps, Ingress);
    SyncedOthers(t, ps, Egress);
    forall c | c in BUILTIN ensures Rules(SyncedChains(t, ps), c) == Rules(t, c) { SyncedOthers(t, ps, c); }
  }

  lemma FramedSolo(t: Chains, pod: Pod, ps: seq<CompiledPolicy>, base: Chains)
    requires Framed(t, base) && CleanView(View(t, pod.key), pod.key, pod.ip)
    ensures Framed(Solo(t, pod.key, Program(pod, ps)).chains, base)
  {
    var u := Solo(t, pod.key, Program(pod, ps)).chains;
    SoloSync(t, pod, ps);
    if Rest(u) == Rest(t) { FramedRest(t, u, base); } else { FramedBasics(t, u, base); }
  }

  // ---- Verdicts ----

  /** The hooks in order, then the rest of the chain. */
  function Combined(c: Chain, source: Verdict, destination: Verdict, rest: Verdict): Verdict {
    if (c == Forward || c == Input) && source != FallThrough then source
    else if (c == Forward || c == Output) && destination != FallThrough then destination
    else rest
  }

  lemma HookJumps(w: World, k: Kernel, rules: seq<Rule>, p: Packet, depth: nat, c: Chain, source: Verdict, destination: Verdict)
    requires c in BUILTIN && depth > 0
    requires Evaluate(w, k, Rules(k.chains, Egress), p, depth - 1) == source
    requires Evaluate(w, k, Rules(k.chains, Ingress), p, depth - 1) == destination
    ensures Evaluate(w, k, HookRules(c) + rules, p, depth) == Combined(c, source, destination, Evaluate(w, k, rules, p, depth))
  {
    EvaluateConcat(w, k, HookRules(c), rules, p, depth);
    EvaluateJump(w, k, TO_EGRESS, p, depth);
    EvaluateJump(w, k, TO_INGRESS, p, depth);
    if c == Forward {
      assert HookRules(c) == [TO_EGRESS] + [TO_INGRESS];
      EvaluateConcat(w, k, [TO_EGRESS], [TO_INGRESS], p, depth);
    }
  }

  lemma HookDecides(w: World, k: Kernel, base: Chains, p: Packet, depth: nat, c: Chain, hooked: bool, source: Verdict, destination: Verdict)
    requires c in BUILTIN && depth > 0
    requires Evaluate(w, k, Rules(k.chains, JumpChain(Outbound)), p, depth - 1) == source
    requires Evaluate(w, k, Rules(k.chains, JumpChain(Inbound)), p, depth - 1) == destination
    requires !hooked ==> source == FallThrough && destination == FallThrough
    requires Rules(k.chains, c) == if hooked then HookRules(c) + Rules(base, c) else Rules(base, c)
    ensures Evaluate(w, k, Rules(k.chains, c), p, depth) == Combined(c, source, destination, Evaluate(w, k, Rules(base, c), p, depth))
  {
    if hooked { HookJumps(w, k, Rules(base, c), p, depth, c, source, destination); }
  }

  /** All hooks are in place if any pod needs them. */
  ghost predicate HooksInPlace(t: Chains, base: Chains, pods: map<Key, Pod>, ps: seq<CompiledPolicy>) {
    Framed(t, base) && (AnyBasics(ProgramsOf(pods, ps)) ==> forall c :: c in BUILTIN ==> Hooked(t, base, c))
  }

  lemma BuiltinVerdict(w: World, cluster: Cluster, pods: map<Key, Pod>, ps: seq<CompiledPolicy>, k: Kernel, base: Chains,
                       c: Chain, p: Packet, depth: nat)
    requires depth >= 3 && ChainsDecide(w, cluster, ps, k, p, depth - 3) && PodsInPlace(pods, ps, k.chains) && DistinctAddresses(pods)
    requires HooksInPlace(k.chains, base, pods, ps) && c in BUILTIN
    ensures
      Evaluate(w, k, Rules(k.chains, c), p, depth) ==
      Combined(c, TargetVerdict(cluster, pods, ps, Outbound, p), TargetVerdict(cluster, pods, ps, Inbound, p),
               Evaluate(w, k, Rules(base, c), p, depth))
  {
    JumpChainVerdict(w, cluster, pods, ps, k, Outbound, p, depth - 1);
    JumpChainVerdict(w, cluster, pods, ps, k, Inbound, p, depth - 1);
    NoBasicsFallThrough(cluster, pods, ps, Outbound, p);
    NoBasicsFallThrough(cluster, pods, ps, Inbound, p);
    HookDecides(w, k, base, p, depth, c, Hooked(k.chains, base, c),
      TargetVerdict(cluster, pods, ps, Outbound, p), TargetVerdict(cluster, pods, ps, Inbound, p));
  }

  /** The builtin chain treats the packet as the policies of the cluster say. */
  ghost predicate Enforces(w: World, cluster: Cluster, k: Kernel, base: Chains, c: Chain, p: Packet, depth: nat) {
    Evaluate(w, k, Rules(k.chains, c), p, depth) ==
    Combined(c, Meaning(cluster, Outbound, p), Meaning(cluster, Inbound, p), Evaluate(w, k, Rules(base, c), p, depth))
  }

  /** Sets, policy chains, pod chains and hooks are all as the policies of the cluster ask for. */
  ghost predicate InForce(cluster: Cluster, k: Kernel, base: Chains) {
    var ps, pods := CompileAll(cluster, cluster.policies), LocalPods(cluster.pods);
    PoliciesInPlace(cluster, ps, k) && PodsInPlace(pods, ps, k.chains) && HooksInPlace(k.chains, base, pods, ps)
  }

  /** Whatever is in force, FORWARD, INPUT and OUTPUT enforce the policies for every packet. */
  lemma InForceEnforces(w: World, cluster: Cluster, k: Kernel, base: Chains, c: Chain, p: Packet, depth: nat)
    requires InForce(cluster, k, base) && DistinctPods(cluster.pods) && DistinctAddresses(LocalPods(cluster.pods))
    requires c in BUILTIN && depth >= 3
    ensures Enforces(w, cluster, k, base, c, p, depth)
  {
    var ps, pods := CompileAll(cluster, cluster.policies), LocalPods(cluster.pods);
    InPlaceDecide(w, cluster, ps, k, p, depth - 3);
    BuiltinVerdict(w, cluster, pods, ps, k, base, c, p, depth);
    TargetVerdictMeaning(cluster, Outbound, p);
    TargetVerdictMeaning(cluster, Inbound, p);
  }

  // ---- A policy event puts everything in force ----

  ghost predicate CleanFor(t: Chains, pods: map<Key, Pod>) {
    forall q ::
      && (q in pods ==> pods[q].key == q && CleanView(View(t, q), q, pods[q].ip))
      && (q !in pods ==> View(t, q) == ABSENT)
  }

  lemma PodsEnd(t: Chains, pods: map<Key, Pod>, ps: seq<CompiledPolicy>, u: Chains, base: Chains)
    requires CleanFor(t, pods) && Framed(t, base) && Ends(t, ProgramsOf(pods, ps), u)
    ensures PodsInPlace(pods, ps, u) && HooksInPlace(u, base, pods, ps)
  {
    InterleavingEnds(t, ProgramsOf(pods, ps), pods, ps, u);
    FramedEnds(t, ProgramsOf(pods, ps), u, base);
  }

  /** AddPolicy and UpdatePolicy: policy chains, then pods. */
  lemma AddInForce(cluster: Cluster, t: Chains, sets: Sets, u: Chains, base: Chains)
    requires DistinctKeys(cluster.policies) && CleanFor(t, LocalPods(cluster.pods)) && Framed(t, base)
    requires var ps := CompileAll(cluster, cluster.policies); Ends(SyncedChains(t, ps), ProgramsOf(LocalPods(cluster.pods), ps), u)
    ensures InForce(cluster, Kernel(u, SyncedSets(sets, CompileAll(cluster, cluster.policies))), base)
  {
    var ps, pods := CompileAll(cluster, cluster.policies), LocalPods(cluster.pods);
    CompiledFromAll(cluster);
    SetsConverge(cluster, sets, ps);
    PolicyChainsAfter(t, ps, ProgramsOf(pods, ps), u);
    SyncedClean(t, ps, pods);
    FramedSynced(t, ps, base);
    PodsEnd(SyncedChains(t, ps), pods, ps, u, base);
  }

  lemma SyncedClean(t: Chains, ps: seq<CompiledPolicy>, pods: map<Key, Pod>)
    requires DistinctPolicies(ps) && CleanFor(t, pods)
    ensures CleanFor(SyncedChains(t, ps), pods)
  {
    forall q ensures View(SyncedChains(t, ps), q) == View(t, q) { SyncedKeepsViews(t, ps, q); }
  }

  /** DeletePolicy: pods, then policy chains. */
  lemma DeleteInForce(cluster: Cluster, t: Chains, sets: Sets, u: Chains, base: Chains)
    requires DistinctKeys(cluster.policies) && CleanFor(t, LocalPods(cluster.pods)) && Framed(t, base)
    requires Ends(t, ProgramsOf(LocalPods(cluster.pods), CompileAll(cluster, cluster.policies)), u)
    ensures
      var ps := CompileAll(cluster, cluster.policies);
      InForce(cluster, Kernel(SyncedChains(u, ps), SyncedSets(sets, ps)), base)
  {
    var ps, pods := CompileAll(cluster, cluster.policies), LocalPods(cluster.pods);
    CompiledFromAll(cluster);
    SetsConverge(cluster, sets, ps);
    PodsEnd(t, pods, ps, u, base);
    SyncedKeepsPods(u, ps, pods, base);
    SyncedHasPolicies(u, ps);
  }

  lemma SyncedKeepsPods(u: Chains, ps: seq<CompiledPolicy>, pods: map<Key, Pod>, base: Chains)
    requires DistinctPolicies(ps) && PodsInPlace(pods, ps, u) && HooksInPlace(u, base, pods, ps)
    ensures PodsInPlace(pods, ps, SyncedChains(u, ps)) && HooksInPlace(SyncedChains(u, ps), base, pods, ps)
  {
    forall q ensures View(SyncedChains(u, ps), q) == View(u, q) { SyncedKeepsViews(u, ps, q); }
    FramedSynced(u, ps, base);
  }

  lemma SyncedHasPolicies(u: Chains, ps: seq<CompiledPolicy>)
    requires DistinctPolicies(ps)
    ensures PolicyChainsInPlace(ps, SyncedChains(u, ps))
  {
    PolicyContentsSpec(ps);
  }
}
