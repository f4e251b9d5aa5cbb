/** No packet's verdict depends on how the pod goroutines interleaved, on any chain. */
module InterleavingVerdicts {
  import opened Sequences
  import opened Tables
  import opened PacketFilter
  import opened NetworkPolicies
  import opened PodSync
  import opened PodSchedules
  import opened PodSafety
  import opened PolicyManagers
  import opened Verdicts

  type IPs = map<Key, Option<Addr>>

  function IPOf(ips: IPs, k: Key): Option<Addr> {
    if k in ips then ips[k] else None
  }

  ghost predicate DistinctIPs(ips: IPs) {
    forall j, k :: j in ips && k in ips && ips[j].Some? && ips[j] == ips[k] ==> j == k
  }

  /** Every pod has at most one jump per direction, with its address, and the jump chains hold nothing else. */
  ghost predicate Orderly(t: Chains, ips: IPs) {
    && (forall k :: CleanView(View(t, k), k, IPOf(ips, k)))
    && WithoutPodJumps(Rules(t, Ingress)) == [] && WithoutPodJumps(Rules(t, Egress)) == []
  }

  lemma {:induction false} AllLead(rules: seq<Rule>, r: Rule)
    requires WithoutPodJumps(rules) == [] && r in rules
    ensures LeadsToPod(r)
    decreases |rules|
  {
    if r != rules[0] { AllLead(rules[1..], r); }
  }

  /** A rule of a jump chain is the jump of a pod with that pod's address. */
  lemma OrderlyRule(t: Chains, ips: IPs, d: Direction, r: Rule) returns (k: Key, a: Addr)
    requires Orderly(t, ips) && r in Rules(t, JumpChain(d))
    ensures r == JumpRule(d, k, a) && IPOf(ips, k) == Some(a)
  {
    AllLead(Rules(t, JumpChain(d)), r);
    k := r.target.chain.pod;
    JumpsToMembers(Rules(t, JumpChain(d)), k, r);
    assert CleanView(View(t, k), k, IPOf(ips, k)) && r in View(t, k).Jumps(d);
    a := IPOf(ips, k).value;
  }

  lemma JumpMatches(w: World, sets: Sets, d: Direction, k: Key, a: Addr, p: Packet)
    ensures RuleMatches(w, sets, JumpRule(d, k, a), p) <==> PodEnd(d, p) == a
  {
    var r := JumpRule(d, k, a);
    if RuleMatches(w, sets, r, p) { assert MatchHolds(w, sets, r.matches[0], p); }
  }

  /** With distinct addresses all rules of a jump chain that match a packet are one rule. */
  lemma OneRuleMatches(w: World, t: Chains, sets: Sets, ips: IPs, d: Direction, r: Rule, s: Rule, p: Packet)
    requires Orderly(t, ips) && DistinctIPs(ips) && r in Rules(t, JumpChain(d)) && s in Rules(t, JumpChain(d))
    requires RuleMatches(w, sets, r, p) && RuleMatches(w, sets, s, p)
    ensures r == s
  {
    var k, a := OrderlyRule(t, ips, d, r);
    var j, b := OrderlyRule(t, ips, d, s);
    JumpMatches(w, sets, d, k, a, p);
    JumpMatches(w, sets, d, j, b, p);
  }

  /** When all matching rules of a list are one rule, that rule decides. */
  lemma {:induction false} OneRuleDecides(w: World, k: Kernel, rules: seq<Rule>, r: Rule, p: Packet, depth: nat)
    requires forall i :: 0 <= i < |rules| && RuleMatches(w, k.sets, rules[i], p) ==> rules[i] == r
    ensures Evaluate(w, k, rules, p, depth) ==
      if r in rules && RuleMatches(w, k.sets, r, p) then Apply(w, k, r.target, p, depth) else FallThrough
    decreases |rules|
  {
    if rules != [] {
      assert rules == [rules[0]] + rules[1..];
      OneRuleDecides(w, k, rules[1..], r, p, depth);
    }
  }

  // ---- Two tables that differ in the order of jumps only ----

  ghost predicate Alike(a: Chains, b: Chains, ips: IPs) {
    SameUpToJumpOrder(a, b) && Orderly(a, ips) && DistinctIPs(ips)
  }

  lemma SameTarget(w: World, a: Chains, b: Chains, sets: Sets, ips: IPs, target: Target, p: Packet, depth: nat)
    requires Alike(a, b, ips)
    ensures Apply(w, Kernel(a, sets), target, p, depth) == Apply(w, Kernel(b, sets), target, p, depth)
    decreases depth, 0, 0
  {
    if target.Jump? && depth > 0 { SameVerdict(w, a, b, sets, ips, target.chain, p, depth - 1); }
  }

  lemma SameRules(w: World, a: Chains, b: Chains, sets: Sets, ips: IPs, rules: seq<Rule>, p: Packet, depth: nat)
    requires Alike(a, b, ips)
    ensures Evaluate(w, Kernel(a, sets), rules, p, depth) == Evaluate(w, Kernel(b, sets), rules, p, depth)
    decreases depth, 1, |rules|
  {
    if rules != [] {
      SameTarget(w, a, b, sets, ips, rules[0].target, p, depth);
      SameRules(w, a, b, sets, ips, rules[1..], p, depth);
    }
  }

  lemma SameMembers(a: Chains, b: Chains, d: Direction, r: Rule)
    requires SameUpToJumpOrder(a, b)
    ensures r in Rules(a, JumpChain(d)) <==> r in Rules(b, JumpChain(d))
  {
    var c := JumpChain(d);
    if c in a { assert r in multiset(a[c]) <==> r in multiset(b[c]); }
  }

  lemma SameJumpChain(w: World, a: Chains, b: Chains, sets: Sets, ips: IPs, d: Direction, p: Packet, depth: nat)
    requires Alike(a, b, ips)
    ensures Evaluate(w, Kernel(a, sets), Rules(a, JumpChain(d)), p, depth) == Evaluate(w, Kernel(b, sets), Rules(b, JumpChain(d)), p, depth)
    decreases depth, 1, 0
  {
    var rs, ss := Rules(a, JumpChain(d)), Rules(b, JumpChain(d));
    forall r ensures r in rs <==> r in ss { SameMembers(a, b, d, r); }
    var r := if exists r :: r in rs && RuleMatches(w, sets, r, p) then (var r :| r in rs && RuleMatches(w, sets, r, p); r) else Rule([], Drop);
    forall s | s in rs && RuleMatches(w, sets, s, p) ensures s == r { OneRuleMatches(w, a, sets, ips, d, r, s, p); }
    OneRuleDecides(w, Kernel(a, sets), rs, r, p, depth);
    OneRuleDecides(w, Kernel(b, sets), ss, r, p, depth);
    SameTarget(w, a, b, sets, ips, r.target, p, depth);
  }

  lemma SameVerdict(w: World, a: Chains, b: Chains, sets: Sets, ips: IPs, c: Chain, p: Packet, depth: nat)
    requires Alike(a, b, ips)
    ensures Evaluate(w, Kernel(a, sets), Rules(a, c), p, depth) == Evaluate(w, Kernel(b, sets), Rules(b, c), p, depth)
    decreases depth, 2, 0
  {
    if c == Ingress {
      SameJumpChain(w, a, b, sets, ips, Inbound, p, depth);
    } else if c == Egress {
      SameJumpChain(w, a, b, sets, ips, Outbound, p, depth);
    } else {
      assert Rules(a, c) == Rules(b, c);
      SameRules(w, a, b, sets, ips, Rules(a, c), p, depth);
    }
  }

  // ---- Interleavings ----

  lemma SyncedIsClean(pod: Pod, ps: seq<CompiledPolicy>)
    ensures CleanView(SyncedView(pod, ps), pod.key, pod.ip)
  {
  }

  ghost predicate KnownPods(pods: map<Key, Pod>, ips: IPs) {
    forall q :: q in pods ==> pods[q].key == q && q in ips && ips[q] == pods[q].ip
  }

  /** A complete interleaving leaves the table orderly. */
  lemma StaysOrderly(t: Chains, ips: IPs, pods: map<Key, Pod>, ps: seq<CompiledPolicy>, u: Chains)
    requires Orderly(t, ips) && KnownPods(pods, ips) && Ends(t, ProgramsOf(pods, ps), u)
    ensures Orderly(u, ips)
  {
    InterleavingEnds(t, ProgramsOf(pods, ps), pods, ps, u);
    forall k ensures CleanView(View(u, k), k, IPOf(ips, k)) {
      if k in pods { SyncedIsClean(pods[k], ps); }
    }
    JumpChainStaysBare(t, ProgramsOf(pods, ps), u, Ingress);
    JumpChainStaysBare(t, ProgramsOf(pods, ps), u, Egress);
  }

  lemma JumpChainStaysBare(t: Chains, programs: Programs, u: Chains, c: Chain)
    requires Ends(t, programs, u) && (c == Ingress || c == Egress) && WithoutPodJumps(Rules(t, c)) == []
    ensures WithoutPodJumps(Rules(u, c)) == []
  {
    RestAtKeeps(Rest(t), if AnyBasics(programs) then BASIC else 0, c);
    assert Rules(Rest(t), c) == WithoutPodJumps(Rules(t, c)) && Rules(Rest(u), c) == WithoutPodJumps(Rules(u, c));
  }

  /**
   * From any table in which the pods have at most one jump per direction and distinct addresses, two complete
   * interleavings of the pod goroutines treat every packet alike on every chain.
   */
  lemma InterleavingVerdict(w: World, t: Chains, sets: Sets, ips: IPs, pods: map<Key, Pod>, ps: seq<CompiledPolicy>,
                            one: seq<Key>, two: seq<Key>, c: Chain, p: Packet, depth: nat)
    requires Orderly(t, ips) && DistinctIPs(ips) && KnownPods(pods, ips)
    requires Done(Run(Start(t, ProgramsOf(pods, ps)), one)) && Done(Run(Start(t, ProgramsOf(pods, ps)), two))
    ensures
      var a, b := Run(Start(t, ProgramsOf(pods, ps)), one).chains, Run(Start(t, ProgramsOf(pods, ps)), two).chains;
      Evaluate(w, Kernel(a, sets), Rules(a, c), p, depth) == Evaluate(w, Kernel(b, sets), Rules(b, c), p, depth)
  {
    var programs := ProgramsOf(pods, ps);
    forall k | k in programs ensures WellFormed(programs[k]) { ProgramWellFormed(pods[k], ps); }
    var a, b := Run(Start(t, programs), one).chains, Run(Start(t, programs), two).chains;
    Confluence(t, programs, one, two);
    CompleteRun(t, programs, one);
    StaysOrderly(t, ips, pods, ps, a);
    SameVerdict(w, a, b, sets, ips, c, p, depth);
  }
}
