/**
 * SyncPodChains and deletePodChains of pkg/policy/policy.go as programs of atomic table commands, and
 * any number of them running at once, as syncPods starts them.
 */
module PodSync {
  import opened Sequences
  import opened Tables
  import opened PacketFilter
  import opened NetworkPolicies
  import opened PolicyChains

  // ---- Rules of a pod ----

  predicate Selects(np: NetworkPolicy, pod: Pod) {
    np.key.namespace == pod.key.namespace && np.podSelector.Selector? && np.podSelector.accepts(pod.labels)
  }

  predicate Affects(p: CompiledPolicy, pod: Pod, d: Direction) {
    Selects(p.np, pod) && p.Side(d).Some?
  }

  predicate Targeted(ps: seq<CompiledPolicy>, pod: Pod, d: Direction) {
    exists i :: 0 <= i < |ps| && Affects(ps[i], pod, d)
  }

  function JumpChain(d: Direction): Chain { if d.Inbound? then Ingress else Egress }

  /** -d ip (or -s ip) -m comment --comment pod -j GLX-POD-x */
  function JumpRule(d: Direction, key: Key, a: Addr): Rule {
    Rule([if d.Inbound? then Destination(a) else Source(a), Comment(key)], Jump(PodChain(key)))
  }

  function PolicyJump(pod: Key, policy: Key): Rule {
    Rule([Comment(pod)], Jump(PolicyChain(policy)))
  }

  function PolicyJumps(pod: Pod, ps: seq<CompiledPolicy>): seq<Rule> {
    if ps == [] then []
    else
      var last := ps[|ps| - 1];
      PolicyJumps(pod, ps[..|ps| - 1]) +
      if Affects(last, pod, Inbound) || Affects(last, pod, Outbound) then [PolicyJump(pod.key, last.np.key)] else []
  }

  /** The content of a GLX-POD chain: established connections, the policies in order, then DROP. */
  function PodRules(pod: Pod, ps: seq<CompiledPolicy>): seq<Rule> {
    [Rule([Comment(pod.key), Established], Accept)] + PolicyJumps(pod, ps) + [Rule([Comment(pod.key)], Drop)]
  }

  lemma {:induction false} PolicyJumpsMembers(pod: Pod, ps: seq<CompiledPolicy>, r: Rule)
    ensures r in PolicyJumps(pod, ps) <==>
      exists i :: 0 <= i < |ps| && (Affects(ps[i], pod, Inbound) || Affects(ps[i], pod, Outbound)) && r == PolicyJump(pod.key, ps[i].np.key)
  {
    if ps != [] {
      var front := ps[..|ps| - 1];
      PolicyJumpsMembers(pod, front, r);
      if i :| 0 <= i < |front| && (Affects(front[i], pod, Inbound) || Affects(front[i], pod, Outbound)) && r == PolicyJump(pod.key, front[i].np.key) {
        assert ps[i] == front[i];
      }
      if i :| 0 <= i < |ps| && (Affects(ps[i], pod, Inbound) || Affects(ps[i], pod, Outbound)) && r == PolicyJump(pod.key, ps[i].np.key) {
        if i < |front| { assert front[i] == ps[i]; }
      }
    }
  }

  /** The jumps come in the order of the policies. */
  lemma {:induction false} PolicyJumpsInOrder(pod: Pod, ps: seq<CompiledPolicy>, more: seq<CompiledPolicy>)
    ensures PolicyJumps(pod, ps + more) == PolicyJumps(pod, ps) + PolicyJumps(pod, more)
    decreases |more|
  {
    if more == [] {
      assert ps + more == ps;
    } else {
      var n := |more| - 1;
      assert (ps + more)[..|ps + more| - 1] == ps + more[..n];
      PolicyJumpsInOrder(pod, ps, more[..n]);
    }
  }

  lemma {:induction false} PolicyJumpsNoDuplicates(pod: Pod, ps: seq<CompiledPolicy>)
    requires DistinctPolicies(ps)
    ensures NoDuplicates(PolicyJumps(pod, ps))
  {
    if ps != [] {
      var front, last := ps[..|ps| - 1], ps[|ps| - 1];
      PolicyJumpsNoDuplicates(pod, front);
      PolicyJumpsMembers(pod, front, PolicyJump(pod.key, last.np.key));
      assert PolicyJump(pod.key, last.np.key) !in PolicyJumps(pod, front);
    }
  }

  lemma PodRulesNoDuplicates(pod: Pod, ps: seq<CompiledPolicy>)
    requires DistinctPolicies(ps)
    ensures NoDuplicates(PodRules(pod, ps))
  {
    var jumps := PolicyJumps(pod, ps);
    PolicyJumpsNoDuplicates(pod, ps);
    forall r | r in jumps ensures r.target.Jump? { PolicyJumpsMembers(pod, ps, r); }
    var first, last := [Rule([Comment(pod.key), Established], Accept)], [Rule([Comment(pod.key)], Drop)];
    NoDuplicatesConcat(first, jumps);
    NoDuplicatesConcat(first + jumps, last);
  }

  /** Restoring a chain with new rules replaces its content and touches nothing else. */
  lemma RestoreOneChain(t: Chains, c: Chain, rules: seq<Rule>)
    requires c !in BUILTIN && NoDuplicates(rules)
    ensures
      var lines := Rewrite([c], [rules], []);
      Restore(t, BUILTIN, lines, lines) == Restored(t[c := rules], true)
  {
    var lines := Rewrite([c], [rules], []);
    RestoreRewrite(t, BUILTIN, [c], [rules], []);
    var u := Restore(t, BUILTIN, lines, lines).table;
    assert u[[c][0]] == rules;
    assert u == t[c := rules];
  }

  // ---- Programs ----

  /** One atomic command of the goroutine that syncs one pod. */
  datatype Op =
    | Basic(index: nat)
    | Fill(rules: seq<Rule>)
    | AddJump(direction: Direction, addr: Addr)
    | RemoveJump(direction: Direction, addr: Addr)
    | FindJump(direction: Direction)
    | DropFound(direction: Direction)
    | Flush
    | Remove

  const BASIC := 6

  /** The six commands of ensureBasicChain. */
  function BasicStep(t: Chains, index: nat): Chains {
    match index
    case 0 => EnsureChain(t, Ingress)
    case 1 => EnsureChain(t, Egress)
    case 2 => EnsureRule(t, Prepend, Forward, Rule([], Jump(Ingress)))
    case 3 => EnsureRule(t, Prepend, Forward, Rule([], Jump(Egress)))
    case 4 => EnsureRule(t, Prepend, Output, Rule([], Jump(Ingress)))
    case 5 => EnsureRule(t, Prepend, Input, Rule([], Jump(Egress)))
    case _ => t
  }

  /** The rules that lead to the pod's chain, in order. */
  function JumpsTo(rules: seq<Rule>, key: Key): seq<Rule> {
    if rules == [] then []
    else if rules[0].target == Jump(PodChain(key)) then [rules[0]] + JumpsTo(rules[1..], key)
    else JumpsTo(rules[1..], key)
  }

  predicate LeadsToPod(r: Rule) { r.target.Jump? && r.target.chain.PodChain? }

  function WithoutPodJumps(rules: seq<Rule>): seq<Rule> {
    if rules == [] then []
    else if LeadsToPod(rules[0]) then WithoutPodJumps(rules[1..])
    else [rules[0]] + WithoutPodJumps(rules[1..])
  }

  function FirstOf(rules: seq<Rule>): Option<Rule> {
    if rules == [] then None else Some(rules[0])
  }

  /** Rule i is the first of the list that jumps to the pod's chain. */
  ghost predicate FirstJumpAt(rules: seq<Rule>, key: Key, i: int) {
    0 <= i < |rules| && rules[i].target == Jump(PodChain(key)) && forall j :: 0 <= j < i ==> rules[j].target != Jump(PodChain(key))
  }

  ghost predicate FindsJump(rules: seq<Rule>, key: Key, found: Option<Rule>) {
    match found
    case None => forall i :: 0 <= i < |rules| ==> rules[i].target != Jump(PodChain(key))
    case Some(r) => exists i :: FirstJumpAt(rules, key, i) && rules[i] == r
  }

  /** What a listing finds is the first rule that jumps to the pod's chain, if there is one. */
  lemma {:induction false} FirstJump(rules: seq<Rule>, key: Key)
    ensures FindsJump(rules, key, FirstOf(JumpsTo(rules, key)))
    decreases |rules|
  {
    if rules != [] {
      if rules[0].target == Jump(PodChain(key)) {
        assert FirstJumpAt(rules, key, 0);
      } else {
        FirstJump(rules[1..], key);
        if i :| FirstJumpAt(rules[1..], key, i) && FirstOf(JumpsTo(rules[1..], key)) == Some(rules[1..][i]) {
          assert FirstJumpAt(rules, key, i + 1);
        }
      }
    }
  }

  /**
   * The effect of a command of the pod's goroutine; `found` is what its last listing found.
   * deletePodRuleByKeyword lists a chain, picks the first line that names the pod chain, and deletes it in
   * a second command.
   */
  function StepChains(t: Chains, key: Key, found: Option<Rule>, op: Op): Chains {
    match op
    case Basic(index) => BasicStep(t, index)
    case Fill(rules) => t[PodChain(key) := rules]
    case AddJump(d, a) => EnsureRule(t, Append, JumpChain(d), JumpRule(d, key, a))
    case RemoveJump(d, a) => DeleteRule(t, JumpChain(d), JumpRule(d, key, a))
    case FindJump(d) => t
    case DropFound(d) => if found.Some? then DeleteRule(t, JumpChain(d), found.value) else t
    case Flush => FlushChain(t, PodChain(key))
    case Remove => DeleteChain(t, PodChain(key))
  }

  ghost predicate Trails(was: seq<Rule>, now: seq<Rule>) {
    |was| <= |now| && now[|now| - |was|..] == was
  }

  lemma PlacedAround(t: Chains, position: Position, x: Chain, r: Rule, c: Chain)
    ensures
      var was, now := Rules(t, c), Rules(EnsureRule(t, position, x, r), c);
      if position.Append? then was <= now else Trails(was, now)
  {
  }

  /** A new jump comes after all rules that its chain has. */
  lemma AddJumpLast(t: Chains, key: Key, found: Option<Rule>, d: Direction, a: Addr, c: Chain)
    ensures Rules(t, c) <= Rules(StepChains(t, key, found, AddJump(d, a)), c)
  {
    PlacedAround(t, Append, JumpChain(d), JumpRule(d, key, a), c);
  }

  lemma EnsuredTrails(t: Chains, x: Chain, c: Chain)
    ensures Trails(Rules(t, c), Rules(EnsureChain(t, x), c))
  {
  }

  /** The basic jumps come before all rules that their chains have. */
  lemma BasicFirst(t: Chains, index: nat, c: Chain)
    ensures Trails(Rules(t, c), Rules(BasicStep(t, index), c))
  {
    match index {
      case 0 => EnsuredTrails(t, Ingress, c);
      case 1 => EnsuredTrails(t, Egress, c);
      case 2 => PlacedAround(t, Prepend, Forward, Rule([], Jump(Ingress)), c);
      case 3 => PlacedAround(t, Prepend, Forward, Rule([], Jump(Egress)), c);
      case 4 => PlacedAround(t, Prepend, Output, Rule([], Jump(Ingress)), c);
      case 5 => PlacedAround(t, Prepend, Input, Rule([], Jump(Egress)), c);
      case _ =>
    }
  }

  function StepFound(t: Chains, key: Key, found: Option<Rule>, op: Op): Option<Rule> {
    if op.FindJump? then FirstOf(JumpsTo(Rules(t, JumpChain(op.direction)), key)) else found
  }

  /** deletePodChains. */
  const CLEANUP: seq<Op> := [FindJump(Inbound), DropFound(Inbound), FindJump(Outbound), DropFound(Outbound), Flush, Remove]

  function JumpOp(d: Direction, wanted: bool, a: Addr): Op {
    if wanted then AddJump(d, a) else RemoveJump(d, a)
  }

  const BASICS: seq<Op> := [Basic(0), Basic(1), Basic(2), Basic(3), Basic(4), Basic(5)]

  /** SyncPodChains. */
  function Program(pod: Pod, ps: seq<CompiledPolicy>): seq<Op> {
    if !Targeted(ps, pod, Inbound) && !Targeted(ps, pod, Outbound) then CLEANUP
    else if pod.ip.None? then []
    else BASICS + [
      Fill(PodRules(pod, ps)),
      JumpOp(Inbound, Targeted(ps, pod, Inbound), pod.ip.value),
      JumpOp(Outbound, Targeted(ps, pod, Outbound), pod.ip.value)]
  }

  // ---- A pod's part of the table, and the rest of it ----

  datatype PodView = PodView(chain: Option<seq<Rule>>, ingress: seq<Rule>, egress: seq<Rule>) {
    function Jumps(d: Direction): seq<Rule> { if d.Inbound? then ingress else egress }
    function WithJumps(d: Direction, jumps: seq<Rule>): PodView {
      if d.Inbound? then this.(ingress := jumps) else this.(egress := jumps)
    }
  }

  function View(t: Chains, key: Key): PodView {
    PodView(if PodChain(key) in t then Some(t[PodChain(key)]) else None,
            JumpsTo(Rules(t, Ingress), key), JumpsTo(Rules(t, Egress), key))
  }

  function Rest(t: Chains): Chains {
    map c | c in t && !c.PodChain? :: if c.Ingress? || c.Egress? then WithoutPodJumps(t[c]) else t[c]
  }

  function StepView(v: PodView, key: Key, found: Option<Rule>, op: Op): PodView {
    match op
    case Basic(_) => v
    case Fill(rules) => v.(chain := Some(rules))
    case AddJump(d, a) =>
      var r := JumpRule(d, key, a);
      if r in v.Jumps(d) then v else v.WithJumps(d, v.Jumps(d) + [r])
    case RemoveJump(d, a) => v.WithJumps(d, RemoveFirst(v.Jumps(d), JumpRule(d, key, a)))
    case FindJump(d) => v
    case DropFound(d) => if found.Some? then v.WithJumps(d, RemoveFirst(v.Jumps(d), found.value)) else v
    case Flush => if v.chain.Some? then v.(chain := Some([])) else v
    case Remove => v.(chain := None)
  }

  function ViewFound(v: PodView, found: Option<Rule>, op: Op): Option<Rule> {
    if op.FindJump? then FirstOf(v.Jumps(op.direction)) else found
  }

  function StepRest(rest: Chains, op: Op): Chains {
    match op
    case Basic(index) => BasicStep(rest, index)
    case AddJump(d, _) => EnsureChain(rest, JumpChain(d))
    case _ => rest
  }

  // ---- Filters and commands ----

  lemma {:induction false} JumpsToConcat(a: seq<Rule>, b: seq<Rule>, key: Key)
    ensures JumpsTo(a + b, key) == JumpsTo(a, key) + JumpsTo(b, key)
  {
    if a == [] { assert a + b == b; }
    else { assert (a + b)[1..] == a[1..] + b; JumpsToConcat(a[1..], b, key); }
  }

  lemma {:induction false} WithoutPodJumpsConcat(a: seq<Rule>, b: seq<Rule>)
    ensures WithoutPodJumps(a + b) == WithoutPodJumps(a) + WithoutPodJumps(b)
  {
    if a == [] { assert a + b == b; }
    else { assert (a + b)[1..] == a[1..] + b; WithoutPodJumpsConcat(a[1..], b); }
  }

  lemma {:induction false} JumpsToMembers(rules: seq<Rule>, key: Key, r: Rule)
    ensures r in JumpsTo(rules, key) <==> r in rules && r.target == Jump(PodChain(key))
  {
    if rules != [] { JumpsToMembers(rules[1..], key, r); }
  }

  lemma {:induction false} WithoutPodJumpsMembers(rules: seq<Rule>, r: Rule)
    ensures r in WithoutPodJumps(rules) <==> r in rules && !LeadsToPod(r)
  {
    if rules != [] { WithoutPodJumpsMembers(rules[1..], r); }
  }

  /** Deleting one pod's jump takes it out of that pod's jumps and leaves every other filter alone. */
  lemma {:induction false} RemoveJumpFilters(rules: seq<Rule>, key: Key, other: Key, r: Rule)
    requires r.target == Jump(PodChain(key)) && other != key
    ensures JumpsTo(RemoveFirst(rules, r), key) == RemoveFirst(JumpsTo(rules, key), r)
    ensures JumpsTo(RemoveFirst(rules, r), other) == JumpsTo(rules, other)
    ensures WithoutPodJumps(RemoveFirst(rules, r)) == WithoutPodJumps(rules)
  {
    if rules != [] && rules[0] != r {
      RemoveJumpFilters(rules[1..], key, other, r);
      var s := RemoveFirst(rules[1..], r);
      assert RemoveFirst(rules, r) == [rules[0]] + s;
      assert ([rules[0]] + s)[1..] == s;
      if rules[0].target == Jump(PodChain(key)) {
        assert RemoveFirst([rules[0]] + JumpsTo(rules[1..], key), r) == [rules[0]] + RemoveFirst(JumpsTo(rules[1..], key), r) by {
          assert ([rules[0]] + JumpsTo(rules[1..], key))[1..] == JumpsTo(rules[1..], key);
        }
      }
    }
  }

  lemma AddJumpFilters(rules: seq<Rule>, key: Key, other: Key, r: Rule)
    requires r.target == Jump(PodChain(key)) && other != key
    ensures JumpsTo(rules + [r], key) == JumpsTo(rules, key) + [r]
    ensures JumpsTo(rules + [r], other) == JumpsTo(rules, other)
    ensures WithoutPodJumps(rules + [r]) == WithoutPodJumps(rules)
  {
    JumpsToConcat(rules, [r], key);
    JumpsToConcat(rules, [r], other);
    WithoutPodJumpsConcat(rules, [r]);
    assert [r][1..] == [];
  }

  // ---- Each command changes its own pod's view and nothing else ----

  lemma BasicKeepsViews(t: Chains, index: nat, key: Key)
    ensures View(BasicStep(t, index), key) == View(t, key)
  {
  }

  lemma RestEnsureRule(t: Chains, c: Chain, r: Rule)
    requires c.Forward? || c.Input? || c.Output?
    ensures Rest(EnsureRule(t, Prepend, c, r)) == EnsureRule(Rest(t), Prepend, c, r)
  {
    var u, w := Rest(EnsureRule(t, Prepend, c, r)), EnsureRule(Rest(t), Prepend, c, r);
    assert forall e :: e in u <==> e in w;
    assert forall e :: e in u && e != c ==> u[e] == w[e];
  }

  lemma RestEnsureChain(t: Chains, c: Chain)
    requires !c.PodChain?
    ensures Rest(EnsureChain(t, c)) == EnsureChain(Rest(t), c)
  {
    assert WithoutPodJumps([]) == [];
  }

  lemma BasicRest(t: Chains, index: nat)
    ensures Rest(BasicStep(t, index)) == BasicStep(Rest(t), index)
  {
    match index
    case 0 => RestEnsureChain(t, Ingress);
    case 1 => RestEnsureChain(t, Egress);
    case 2 => RestEnsureRule(t, Forward, Rule([], Jump(Ingress)));
    case 3 => RestEnsureRule(t, Forward, Rule([], Jump(Egress)));
    case 4 => RestEnsureRule(t, Output, Rule([], Jump(Ingress)));
    case 5 => RestEnsureRule(t, Input, Rule([], Jump(Egress)));
    case _ =>
  }

  lemma JumpEdit(t: Chains, d: Direction, key: Key, other: Key, rules: seq<Rule>)
    requires other != key
    requires JumpsTo(rules, other) == JumpsTo(Rules(t, JumpChain(d)), other)
    requires WithoutPodJumps(rules) == WithoutPodJumps(Rules(t, JumpChain(d)))
    ensures
      var u := t[JumpChain(d) := rules];
      && View(u, key) == View(t, key).WithJumps(d, JumpsTo(rules, key))
      && View(u, other) == View(t, other)
      && Rest(u) == EnsureChain(Rest(t), JumpChain(d))
  {
    var u := t[JumpChain(d) := rules];
    assert forall c :: c in Rest(u) <==> c in EnsureChain(Rest(t), JumpChain(d));
    assert WithoutPodJumps([]) == [];
  }

  /** Tables that agree on every chain but the pod's own. */
  lemma OwnChainOnly(t: Chains, key: Key, other: Key, u: Chains)
    requires other != key && forall c :: c != PodChain(key) ==> (c in u <==> c in t) && (c in t ==> u[c] == t[c])
    ensures View(u, key).Jumps(Inbound) == View(t, key).Jumps(Inbound) && View(u, key).Jumps(Outbound) == View(t, key).Jumps(Outbound)
    ensures View(u, other) == View(t, other) && Rest(u) == Rest(t)
  {
  }

  lemma StepAdd(t: Chains, d: Direction, key: Key, other: Key, r: Rule)
    requires other != key && r.target == Jump(PodChain(key))
    ensures
      var u := EnsureRule(t, Append, JumpChain(d), r);
      && View(u, key) == (if r in View(t, key).Jumps(d) then View(t, key) else View(t, key).WithJumps(d, View(t, key).Jumps(d) + [r]))
      && View(u, other) == View(t, other)
      && Rest(u) == EnsureChain(Rest(t), JumpChain(d))
  {
    var u := EnsureRule(t, Append, JumpChain(d), r);
    var rules := Rules(t, JumpChain(d));
    JumpsToMembers(rules, key, r);
    AddJumpFilters(rules, key, other, r);
    if r in rules {
      assert u == t && Rest(t) == EnsureChain(Rest(t), JumpChain(d));
    } else {
      assert u == t[JumpChain(d) := rules + [r]];
      JumpEdit(t, d, key, other, rules + [r]);
    }
  }

  lemma StepOwn(t: Chains, key: Key, other: Key, found: Option<Rule>, op: Op)
    requires other != key
    requires found.Some? ==> found.value.target == Jump(PodChain(key))
    ensures
      var u := StepChains(t, key, found, op);
      && View(u, key) == StepView(View(t, key), key, found, op)
      && StepFound(t, key, found, op) == ViewFound(View(t, key), found, op)
      && View(u, other) == View(t, other)
      && Rest(u) == StepRest(Rest(t), op)
  {
    match op
    case Basic(index) =>
      BasicKeepsViews(t, index, key);
      BasicKeepsViews(t, index, other);
      BasicRest(t, index);
    case Fill(rules) => OwnChainOnly(t, key, other, t[PodChain(key) := rules]);
    case AddJump(d, a) => StepAdd(t, d, key, other, JumpRule(d, key, a));
    case RemoveJump(d, a) => StepDelete(t, d, key, other, JumpRule(d, key, a));
    case FindJump(d) =>
    case DropFound(d) => if found.Some? { StepDelete(t, d, key, other, found.value); }
    case Flush => OwnChainOnly(t, key, other, FlushChain(t, PodChain(key)));
    case Remove => OwnChainOnly(t, key, other, DeleteChain(t, PodChain(key)));
  }

  lemma StepDelete(t: Chains, d: Direction, key: Key, other: Key, r: Rule)
    requires other != key && r.target == Jump(PodChain(key))
    ensures
      var u := DeleteRule(t, JumpChain(d), r);
      && View(u, key) == View(t, key).WithJumps(d, RemoveFirst(View(t, key).Jumps(d), r))
      && View(u, other) == View(t, other)
      && Rest(u) == Rest(t)
  {
    var rules := Rules(t, JumpChain(d));
    RemoveJumpFilters(rules, key, other, r);
    if JumpChain(d) in t {
      JumpEdit(t, d, key, other, RemoveFirst(rules, r));
      assert EnsureChain(Rest(t), JumpChain(d)) == Rest(t);
    } else {
      assert View(t, key).Jumps(d) == [];
    }
  }
}
