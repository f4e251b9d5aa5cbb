/**
 * What the finished tables do to a packet, in terms of the NetworkPolicy objects themselves.
 */
module Verdicts {
  import opened Sequences
  import opened Tables
  import opened PacketFilter
  import opened NetworkPolicies
  import opened PolicyChains
  import opened PodSync
  import opened PodSchedules
  import opened PodSafety
  import opened SetSync
  import opened EventSafety
  import opened Incremental
  import opened IPBlocks
  import opened PolicyManagers

  // ---- The meaning of a policy ----

  /** Some pod with the address is picked by a peer, or the networks of the peers cover it. */
  ghost predicate PeersCover(cluster: Cluster, peers: seq<Peer>, a: Addr) {
    || PeersYield(cluster.pods, cluster.namespaces, peers, Host(a))
    || (NetsOf(cluster, peers).Some? && NetsCover(Elements(NetsOf(cluster, peers).value), a))
  }

  ghost predicate PortsAllow(ports: seq<PolicyPort>, p: Packet) {
    || (forall i :: 0 <= i < |ports| ==> ports[i].port.None?)
    || exists i :: 0 <= i < |ports| && ports[i].port == Some(p.dstPort) && p.protocol == if IsTcp(ports[i]) then Tcp else Udp
  }

  /** A pod that the policy selects has the address. */
  ghost predicate PolicyHasAddr(cluster: Cluster, np: NetworkPolicy, a: Addr) {
    exists pod :: pod in cluster.pods && pod.ip == Some(a) && Selects(np, pod)
  }

  function PeerEnd(d: Direction, p: Packet): Addr { if d.Inbound? then p.src else p.dst }

  function PodEnd(d: Direction, p: Packet): Addr { if d.Inbound? then p.dst else p.src }

  /** Rule i of the policy's direction d allows the packet. */
  ghost predicate SpecAllows(cluster: Cluster, np: NetworkPolicy, d: Direction, i: nat, p: Packet) {
    && np.Enabled(d) && i < |np.Specs(d)|
    && PortsAllow(np.Specs(d)[i].ports, p)
    && PeersCover(cluster, np.Specs(d)[i].peers, PeerEnd(d, p))
    && PolicyHasAddr(cluster, np, PodEnd(d, p))
  }

  ghost predicate Allows(cluster: Cluster, np: NetworkPolicy, p: Packet) {
    exists d, i :: SpecAllows(cluster, np, d, i, p)
  }

  /** A selected pod's traffic: established connections and what some selecting policy allows, nothing else. */
  ghost predicate PodAccepts(cluster: Cluster, nps: seq<NetworkPolicy>, pod: Pod, p: Packet) {
    p.established || exists i :: 0 <= i < |nps| && nps[i].podSelector.Selector? && Selects(nps[i], pod) && Allows(cluster, nps[i], p)
  }

  /** Where nothing shadows the address, the peers mean the pods they pick and the networks without their exceptions. */
  lemma PeersCoverMeaning(cluster: Cluster, peers: seq<Peer>, a: Addr)
    requires AllStrict(peers) && !Shadowed(peers, a)
    ensures PeersCover(cluster, peers, a) <==>
      PeersYield(cluster.pods, cluster.namespaces, peers, Host(a)) || UnionCovers(peers, a)
  {
    NetsOfMembers(cluster, peers, Host(a));
    if NetsOf(cluster, peers).Some? { MergedExact(cluster, peers, a); }
  }

  // ---- Sets ----

  /** All sets the policies call for are in place. */
  ghost predicate SetsInPlace(cluster: Cluster, ps: seq<CompiledPolicy>, sets: Sets) {
    forall table :: CallsFor(cluster, ps, table) ==> table.name in sets && sets[table.name] == EntrySet(table)
  }

  lemma PodSetCovers(cluster: Cluster, np: NetworkPolicy, table: IpsetTable, a: Addr)
    requires TableOf(cluster, np, table) && table.name.PodSet?
    ensures SetCovers(EntrySet(table), a) <==> PolicyHasAddr(cluster, np, a)
  {
    TableHolds(cluster, np, table, Host(a));
    OnlyHosts(cluster, np, table);
    assert Host(a) in EntrySet(table) <==> Holds(cluster.pods, np, cluster.namespaces, table.name, Host(a));
    if pod :| pod in cluster.pods && pod.ip == Some(a) && Selects(np, pod) {
      assert Picks(np, cluster.namespaces, table.name, pod);
    }
  }

  /** A host table has no networks in it. */
  lemma OnlyHosts(cluster: Cluster, np: NetworkPolicy, table: IpsetTable)
    requires TableOf(cluster, np, table) && !table.name.PeerNets?
    ensures forall x :: x in table.entries ==> x.Host?
    ensures forall a :: !NetsCover(EntrySet(table), a)
  {
    forall x | x in table.entries ensures x.Host? { TableHolds(cluster, np, table, x); }
    assert forall x :: x in EntrySet(table) ==> x.Host?;
  }

  /** The peer tables of a rule, taken together, cover what its peers cover. */
  lemma PeerSetsCover(cluster: Cluster, np: NetworkPolicy, d: Direction, i: nat, a: Addr)
    requires np.Enabled(d) && i < |np.Specs(d)| && np.podSelector.Selector?
    ensures
      var rule := CompileRule(cluster, np.key, d, i, np.Specs(d)[i]);
      PeersCover(cluster, np.Specs(d)[i].peers, a) <==>
        || (rule.hosts.Some? && SetCovers(EntrySet(rule.hosts.value), a))
        || (rule.nets.Some? && SetCovers(EntrySet(rule.nets.value), a))
  {
    var peers := np.Specs(d)[i].peers;
    var rule := CompileRule(cluster, np.key, d, i, np.Specs(d)[i]);
    HostsOfMembers(cluster, peers, Host(a));
    if rule.hosts.Some? {
      assert TableOf(cluster, np, rule.hosts.value);
      OnlyHosts(cluster, np, rule.hosts.value);
    }
    if rule.nets.Some? {
      NetsOfMembers(cluster, peers, Host(a));
      assert EntrySet(rule.nets.value) == Elements(NetsOf(cluster, peers).value);
      assert Host(a) !in EntrySet(rule.nets.value);
    }
  }

  // ---- Policy chains ----

  ghost predicate VariantHolds(v: Variant, p: Packet) {
    match v
    case AnyPort => true
    case OnTcp(ports) => p.protocol == Tcp && p.dstPort in ports
    case OnUdp(ports) => p.protocol == Udp && p.dstPort in ports
  }

  lemma VariantsMembers(tcp: seq<string>, udp: seq<string>, v: Variant)
    ensures v in Variants(tcp, udp) <==> VariantFor(tcp, udp, v)
  {
  }

  /** The entries allow the packet exactly when the lists they are split into do. */
  lemma PortsAllowLists(ports: seq<PolicyPort>, p: Packet)
    ensures PortsAllow(ports, p) <==>
      || (PortsOf(ports, true) == [] && PortsOf(ports, false) == [])
      || (p.protocol == Tcp && p.dstPort in PortsOf(ports, true))
      || (p.protocol == Udp && p.dstPort in PortsOf(ports, false))
  {
    NoPorts(ports);
    PortsOfMembers(ports, true, p.dstPort);
    PortsOfMembers(ports, false, p.dstPort);
  }

  lemma VariantsAllow(ports: seq<PolicyPort>, p: Packet)
    ensures PortsAllow(ports, p) <==> exists v :: v in Variants(PortsOf(ports, true), PortsOf(ports, false)) && VariantHolds(v, p)
  {
    var tcp, udp := PortsOf(ports, true), PortsOf(ports, false);
    PortsAllowLists(ports, p);
    forall v ensures v in Variants(tcp, udp) ==> (VariantHolds(v, p) ==> PortsAllow(ports, p)) { VariantsMembers(tcp, udp, v); }
    VariantsMembers(tcp, udp, AnyPort);
    VariantsMembers(tcp, udp, OnTcp(tcp));
    VariantsMembers(tcp, udp, OnUdp(udp));
    if PortsAllow(ports, p) {
      var v := if tcp == [] && udp == [] then AnyPort else if p.protocol == Tcp && p.dstPort in tcp then OnTcp(tcp) else OnUdp(udp);
      assert VariantHolds(v, p);
    }
  }

  lemma SetRuleMatchesPacket(w: World, sets: Sets, key: Key, v: Variant, src: SetName, dst: SetName, p: Packet)
    ensures RuleMatches(w, sets, SetRule(key, v, src, dst), p) <==>
      && VariantHolds(v, p)
      && src in sets && SetCovers(sets[src], p.src)
      && dst in sets && SetCovers(sets[dst], p.dst)
  {
    var r := SetRule(key, v, src, dst);
    SetRuleMatches(key, v, src, dst);
    if RuleMatches(w, sets, r, p) {
      assert MatchHolds(w, sets, r.matches[1], p) && MatchHolds(w, sets, r.matches[2], p) && MatchHolds(w, sets, r.matches[3], p);
      if |r.matches| == 5 { assert MatchHolds(w, sets, r.matches[4], p); }
    }
  }

  lemma {:induction false} EvaluateAccepts(w: World, k: Kernel, rules: seq<Rule>, p: Packet, depth: nat)
    requires forall r :: r in rules ==> r.target == Accept
    ensures Evaluate(w, k, rules, p, depth) == if exists r :: r in rules && RuleMatches(w, k.sets, r, p) then Accepted else FallThrough
    decreases |rules|
  {
    if rules != [] {
      assert rules[0] in rules && forall r :: r in rules[1..] ==> r in rules;
      EvaluateAccepts(w, k, rules[1..], p, depth);
      assert forall r :: r in rules ==> r == rules[0] || r in rules[1..];
    }
  }

  /** The peer rule of a chain matches exactly when its variant, its peer set and its pod set do. */
  lemma PairRuleMatchesPacket(w: World, sets: Sets, key: Key, d: Direction, podSet: SetName, peer: SetName, v: Variant, p: Packet)
    ensures RuleMatches(w, sets, PairRule(key, d, podSet, peer, v), p) <==>
      && VariantHolds(v, p)
      && peer in sets && SetCovers(sets[peer], PeerEnd(d, p))
      && podSet in sets && SetCovers(sets[podSet], PodEnd(d, p))
  {
    if d.Inbound? { SetRuleMatchesPacket(w, sets, key, v, peer, podSet, p); }
    else { SetRuleMatchesPacket(w, sets, key, v, podSet, peer, p); }
  }

  lemma SpecTables(cluster: Cluster, ps: seq<CompiledPolicy>, n: nat, sets: Sets, d: Direction, i: nat)
    requires CompiledFrom(cluster, ps) && n < |ps| && SetsInPlace(cluster, ps, sets)
    requires ps[n].Side(d).Some? && i < |ps[n].Side(d).value.rules|
    ensures
      var np, side := ps[n].np, ps[n].Side(d).value;
      && np.Enabled(d) && i < |np.Specs(d)| && np.podSelector.Selector?
      && side.rules[i] == CompileRule(cluster, np.key, d, i, np.Specs(d)[i])
      && TableOf(cluster, np, side.podTable) && side.podTable.name.PodSet?
      && side.podTable.name in sets && sets[side.podTable.name] == EntrySet(side.podTable)
      && forall table :: table in RuleTables(side.rules[i]) ==> table.name in sets && sets[table.name] == EntrySet(table)
  {
    var np, side := ps[n].np, ps[n].Side(d).value;
    assert Compile(cluster, np) == Some(ps[n]);
    assert TableOf(cluster, np, side.podTable) && CallsFor(cluster, ps, side.podTable);
    forall table | table in RuleTables(side.rules[i]) ensures table.name in sets && sets[table.name] == EntrySet(table) {
      assert SideHas(ps[n].Side(d), table);
      SideHasSpec(cluster, ps[n], d, table);
      assert CallsFor(cluster, ps, table);
    }
  }

  /** A rule of the chain that matches belongs to a spec that allows the packet. */
  lemma MatchAllows(w: World, cluster: Cluster, ps: seq<CompiledPolicy>, n: nat, sets: Sets, d: Direction, i: nat, peer: SetName, v: Variant, r: Rule, p: Packet)
    requires CompiledFrom(cluster, ps) && n < |ps| && SetsInPlace(cluster, ps, sets)
    requires ChainRuleAt(ps[n], d, i, peer, v, r) && RuleMatches(w, sets, r, p)
    ensures SpecAllows(cluster, ps[n].np, d, i, p)
  {
    SpecTables(cluster, ps, n, sets, d, i);
    var np, side := ps[n].np, ps[n].Side(d).value;
    PairRuleMatchesPacket(w, sets, np.key, d, side.podTable.name, peer, v, p);
    VariantsAllow(np.Specs(d)[i].ports, p);
    PodSetCovers(cluster, np, side.podTable, PodEnd(d, p));
    var table := PeerTableNamed(side.rules[i], peer);
    assert SetCovers(EntrySet(table), PeerEnd(d, p));
    PeerSetsCover(cluster, np, d, i, PeerEnd(d, p));
  }

  /** A spec that allows the packet has a rule in the chain that matches. */
  lemma AllowsMatch(w: World, cluster: Cluster, ps: seq<CompiledPolicy>, n: nat, sets: Sets, d: Direction, i: nat, p: Packet)
    returns (r: Rule)
    requires CompiledFrom(cluster, ps) && n < |ps| && SetsInPlace(cluster, ps, sets)
    requires SpecAllows(cluster, ps[n].np, d, i, p)
    ensures r in ChainRules(ps[n]) && RuleMatches(w, sets, r, p)
  {
    assert Compile(cluster, ps[n].np) == Some(ps[n]);
    SpecTables(cluster, ps, n, sets, d, i);
    var np, side := ps[n].np, ps[n].Side(d).value;
    var rule := side.rules[i];
    PodSetCovers(cluster, np, side.podTable, PodEnd(d, p));
    PeerSetsCover(cluster, np, d, i, PeerEnd(d, p));
    VariantsAllow(np.Specs(d)[i].ports, p);
    var v :| v in Variants(rule.tcpPorts, rule.udpPorts) && VariantHolds(v, p);
    var table := CoveringTable(rule, PeerEnd(d, p));
    r := PairRule(np.key, d, side.podTable.name, table.name, v);
    PairRuleMatchesPacket(w, sets, np.key, d, side.podTable.name, table.name, v, p);
    assert ChainRuleAt(ps[n], d, i, table.name, v, r);
    ChainRulesMembers(ps[n], r);
  }

  lemma CoveringTable(rule: CompiledRule, a: Addr) returns (table: IpsetTable)
    requires (rule.hosts.Some? && SetCovers(EntrySet(rule.hosts.value), a)) || (rule.nets.Some? && SetCovers(EntrySet(rule.nets.value), a))
    ensures table in RuleTables(rule) && table.name in PeerNames(rule) && SetCovers(EntrySet(table), a)
  {
    var ts, ns := RuleTables(rule), PeerNames(rule);
    if rule.hosts.Some? && SetCovers(EntrySet(rule.hosts.value), a) {
      table := rule.hosts.value;
      assert ts[0] == table && ns[0] == table.name;
    } else {
      table := rule.nets.value;
      assert ts[|ts| - 1] == table && ns[|ns| - 1] == table.name;
    }
  }

  /** A policy chain accepts exactly what its policy allows, and otherwise returns. */
  lemma PolicyChainVerdict(w: World, cluster: Cluster, ps: seq<CompiledPolicy>, n: nat, k: Kernel, p: Packet, depth: nat)
    requires CompiledFrom(cluster, ps) && n < |ps| && SetsInPlace(cluster, ps, k.sets)
    ensures Evaluate(w, k, ChainRules(ps[n]), p, depth) == if Allows(cluster, ps[n].np, p) then Accepted else FallThrough
  {
    var rules := ChainRules(ps[n]);
    forall r | r in rules ensures r.target == Accept { ChainRulesRefer(cluster, ps[n], r); }
    EvaluateAccepts(w, k, rules, p, depth);
    if Allows(cluster, ps[n].np, p) {
      var d, i :| SpecAllows(cluster, ps[n].np, d, i, p);
      var r := AllowsMatch(w, cluster, ps, n, k.sets, d, i, p);
    }
    if r :| r in rules && RuleMatches(w, k.sets, r, p) {
      ChainRulesMembers(ps[n], r);
      var d, i: nat, peer, v :| ChainRuleAt(ps[n], d, i, peer, v, r);
      MatchAllows(w, cluster, ps, n, k.sets, d, i, peer, v, r, p);
      assert Allows(cluster, ps[n].np, p);
    }
  }

  // ---- Pod chains ----

  /** All policy chains are in place. */
  ghost predicate PolicyChainsInPlace(ps: seq<CompiledPolicy>, chains: Chains) {
    forall i :: 0 <= i < |ps| ==> Rules(chains, PolicyChain(ps[i].np.key)) == ChainRules(ps[i])
  }

  ghost predicate SomeAllows(cluster: Cluster, ps: seq<CompiledPolicy>, pod: Pod, p: Packet) {
    exists i :: 0 <= i < |ps| && PolicyAccepts(cluster, ps[i], pod, p)
  }

  lemma EvaluateConcat(w: World, k: Kernel, a: seq<Rule>, b: seq<Rule>, p: Packet, depth: nat)
    ensures Evaluate(w, k, a + b, p, depth) ==
      if Evaluate(w, k, a, p, depth) == FallThrough then Evaluate(w, k, b, p, depth) else Evaluate(w, k, a, p, depth)
    decreases |a|
  {
    if a == [] {
      assert a + b == b;
    } else {
      assert (a + b)[0] == a[0] && (a + b)[1..] == a[1..] + b;
      EvaluateConcat(w, k, a[1..], b, p, depth);
    }
  }

  lemma EvaluateOne(w: World, k: Kernel, r: Rule, p: Packet, depth: nat)
    ensures Evaluate(w, k, [r], p, depth) == if RuleMatches(w, k.sets, r, p) then Apply(w, k, r.target, p, depth) else FallThrough
  {
    assert [r][1..] == [];
    assert Evaluate(w, k, [], p, depth) == FallThrough;
  }

  lemma EvaluateJump(w: World, k: Kernel, r: Rule, p: Packet, depth: nat)
    requires r.target.Jump? && RuleMatches(w, k.sets, r, p) && depth > 0
    ensures Evaluate(w, k, [r], p, depth) == Evaluate(w, k, Rules(k.chains, r.target.chain), p, depth - 1)
  {
    EvaluateOne(w, k, r, p, depth);
  }

  /** The policy sets and chains are in the kernel. */
  ghost predicate PoliciesInPlace(cluster: Cluster, ps: seq<CompiledPolicy>, k: Kernel) {
    CompiledFrom(cluster, ps) && SetsInPlace(cluster, ps, k.sets) && PolicyChainsInPlace(ps, k.chains)
  }

  function JumpIfAffected(pod: Pod, policy: CompiledPolicy): seq<Rule> {
    if Affects(policy, pod, Inbound) || Affects(policy, pod, Outbound) then [PolicyJump(pod.key, policy.np.key)] else []
  }

  /** The policy affects the pod and allows the packet. */
  ghost predicate PolicyAccepts(cluster: Cluster, policy: CompiledPolicy, pod: Pod, p: Packet) {
    (Affects(policy, pod, Inbound) || Affects(policy, pod, Outbound)) && Allows(cluster, policy.np, p)
  }

  lemma ChainInPlaceVerdict(w: World, cluster: Cluster, ps: seq<CompiledPolicy>, n: nat, k: Kernel, p: Packet, depth: nat)
    requires PoliciesInPlace(cluster, ps, k) && n < |ps|
    ensures ChainDecides(w, cluster, ps[n], k, p, depth)
  {
    PolicyChainVerdict(w, cluster, ps, n, k, p, depth);
  }

  lemma PolicyJumpVerdict(w: World, cluster: Cluster, policy: CompiledPolicy, k: Kernel, pod: Pod, p: Packet, depth: nat)
    requires depth > 0 && ChainDecides(w, cluster, policy, k, p, depth - 1)
    ensures Evaluate(w, k, JumpIfAffected(pod, policy), p, depth) ==
      if PolicyAccepts(cluster, policy, pod, p) then Accepted else FallThrough
  {
    JumpTo(w, k, pod, policy, p, depth, Allows(cluster, policy.np, p));
  }

  lemma JumpTo(w: World, k: Kernel, pod: Pod, policy: CompiledPolicy, p: Packet, depth: nat, allows: bool)
    requires depth > 0
    requires Evaluate(w, k, Rules(k.chains, PolicyChain(policy.np.key)), p, depth - 1) == if allows then Accepted else FallThrough
    ensures Evaluate(w, k, JumpIfAffected(pod, policy), p, depth) ==
      if (Affects(policy, pod, Inbound) || Affects(policy, pod, Outbound)) && allows then Accepted else FallThrough
  {
    if Affects(policy, pod, Inbound) || Affects(policy, pod, Outbound) {
      EvaluateJump(w, k, PolicyJump(pod.key, policy.np.key), p, depth);
    }
  }

  /** The jumps of a pod chain decide together what each of them decides. */
  lemma {:induction false} JumpsTogether(w: World, k: Kernel, pod: Pod, ps: seq<CompiledPolicy>, accepts: CompiledPolicy -> bool, p: Packet, depth: nat)
    requires forall i :: 0 <= i < |ps| ==>
      Evaluate(w, k, JumpIfAffected(pod, ps[i]), p, depth) == if accepts(ps[i]) then Accepted else FallThrough
    ensures Evaluate(w, k, PolicyJumps(pod, ps), p, depth) ==
      if exists i :: 0 <= i < |ps| && accepts(ps[i]) then Accepted else FallThrough
    decreases |ps|
  {
    if ps != [] {
      var front, last := ps[..|ps| - 1], ps[|ps| - 1];
      assert ps == front + [last] && forall i :: 0 <= i < |front| ==> front[i] == ps[i];
      JumpsTogether(w, k, pod, front, accepts, p, depth);
      PolicyJumpsSnoc(pod, front, last);
      EvaluateConcat(w, k, PolicyJumps(pod, front), JumpIfAffected(pod, last), p, depth);
    }
  }

  /** The policy's chain accepts exactly what the policy allows. */
  ghost predicate ChainDecides(w: World, cluster: Cluster, policy: CompiledPolicy, k: Kernel, p: Packet, depth: nat) {
    Evaluate(w, k, Rules(k.chains, PolicyChain(policy.np.key)), p, depth) == if Allows(cluster, policy.np, p) then Accepted else FallThrough
  }

  ghost predicate ChainsDecide(w: World, cluster: Cluster, ps: seq<CompiledPolicy>, k: Kernel, p: Packet, depth: nat) {
    forall i {:trigger ChainDecides(w, cluster, ps[i], k, p, depth)} :: 0 <= i < |ps| ==> ChainDecides(w, cluster, ps[i], k, p, depth)
  }

  lemma InPlaceDecide(w: World, cluster: Cluster, ps: seq<CompiledPolicy>, k: Kernel, p: Packet, depth: nat)
    requires PoliciesInPlace(cluster, ps, k)
    ensures ChainsDecide(w, cluster, ps, k, p, depth)
  {
    forall i | 0 <= i < |ps| ensures ChainDecides(w, cluster, ps[i], k, p, depth) {
      ChainInPlaceVerdict(w, cluster, ps, i, k, p, depth);
    }
  }

  lemma PolicyJumpsVerdict(w: World, cluster: Cluster, ps: seq<CompiledPolicy>, k: Kernel, pod: Pod, p: Packet, depth: nat)
    requires depth > 0 && ChainsDecide(w, cluster, ps, k, p, depth - 1)
    ensures Evaluate(w, k, PolicyJumps(pod, ps), p, depth) == if SomeAllows(cluster, ps, pod, p) then Accepted else FallThrough
  {
    var accepts := (policy: CompiledPolicy) => PolicyAccepts(cluster, policy, pod, p);
    forall i | 0 <= i < |ps|
      ensures Evaluate(w, k, JumpIfAffected(pod, ps[i]), p, depth) == if accepts(ps[i]) then Accepted else FallThrough
    {
      PolicyJumpVerdict(w, cluster, ps[i], k, pod, p, depth);
    }
    JumpsTogether(w, k, pod, ps, accepts, p, depth);
    assert SomeAllows(cluster, ps, pod, p) <==> exists i :: 0 <= i < |ps| && accepts(ps[i]);
  }

  lemma PolicyJumpsSnoc(pod: Pod, front: seq<CompiledPolicy>, last: CompiledPolicy)
    ensures PolicyJumps(pod, front + [last]) == PolicyJumps(pod, front) + JumpIfAffected(pod, last)
  {
    assert (front + [last])[..|front|] == front;
  }

  lemma EstablishedMatches(w: World, sets: Sets, key: Key, p: Packet)
    ensures RuleMatches(w, sets, Rule([Comment(key), Established], Accept), p) <==> p.established
    ensures RuleMatches(w, sets, Rule([Comment(key)], Drop), p)
  {
    var first := Rule([Comment(key), Established], Accept);
    if RuleMatches(w, sets, first, p) { assert MatchHolds(w, sets, first.matches[1], p); }
  }

  /** Whatever the jumps in the middle decide, a pod chain does not return. */
  lemma PodChainAround(w: World, k: Kernel, key: Key, jumps: seq<Rule>, allowed: bool, p: Packet, depth: nat)
    requires Evaluate(w, k, jumps, p, depth) == if allowed then Accepted else FallThrough
    ensures Evaluate(w, k, [Rule([Comment(key), Established], Accept)] + jumps + [Rule([Comment(key)], Drop)], p, depth) ==
      if p.established || allowed then Accepted else Dropped
  {
    var first, last := Rule([Comment(key), Established], Accept), Rule([Comment(key)], Drop);
    EvaluateConcat(w, k, [first] + jumps, [last], p, depth);
    EvaluateConcat(w, k, [first], jumps, p, depth);
    EvaluateOne(w, k, first, p, depth);
    EvaluateOne(w, k, last, p, depth);
    EstablishedMatches(w, k.sets, key, p);
  }

  /** A pod chain never returns: it accepts established connections and allowed packets, and drops the rest. */
  lemma PodChainVerdict(w: World, cluster: Cluster, ps: seq<CompiledPolicy>, k: Kernel, pod: Pod, p: Packet, depth: nat)
    requires depth > 0 && ChainsDecide(w, cluster, ps, k, p, depth - 1)
    ensures Evaluate(w, k, PodRules(pod, ps), p, depth) ==
      if p.established || SomeAllows(cluster, ps, pod, p) then Accepted else Dropped
  {
    PolicyJumpsVerdict(w, cluster, ps, k, pod, p, depth);
    PodChainAround(w, k, pod.key, PolicyJumps(pod, ps), SomeAllows(cluster, ps, pod, p), p, depth);
  }

  // ---- GLX-INGRESS and GLX-EGRESS ----

  /** A pod whose chain the jump chain of direction d leads to, for address a. */
  ghost predicate IsTarget(pods: map<Key, Pod>, ps: seq<CompiledPolicy>, d: Direction, a: Addr, q: Key) {
    q in pods && pods[q].key == q && pods[q].ip == Some(a) && Targeted(ps, pods[q], d)
  }

  ghost predicate DistinctAddresses(pods: map<Key, Pod>) {
    forall q, r :: q in pods && r in pods && pods[q].ip.Some? && pods[q].ip == pods[r].ip ==> q == r
  }

  /** Every pod is synced, and nothing but pods is in the jump chains. */
  ghost predicate PodsInPlace(pods: map<Key, Pod>, ps: seq<CompiledPolicy>, chains: Chains) {
    && (forall q :: q in pods ==> pods[q].key == q && View(chains, q) == SyncedView(pods[q], ps))
    && (forall q :: q !in pods ==> View(chains, q) == ABSENT)
    && WithoutPodJumps(Rules(chains, Ingress)) == [] && WithoutPodJumps(Rules(chains, Egress)) == []
  }

  lemma JumpChainMembers(pods: map<Key, Pod>, ps: seq<CompiledPolicy>, chains: Chains, d: Direction, r: Rule)
    requires PodsInPlace(pods, ps, chains)
    ensures r in Rules(chains, JumpChain(d)) <==> JumpsToTarget(pods, ps, d, r)
  {
    var rules := Rules(chains, JumpChain(d));
    if r in rules {
      WithoutPodJumpsMembers(rules, r);
      var q := r.target.chain.pod;
      JumpsToMembers(rules, q, r);
      assert r in View(chains, q).Jumps(d);
      assert q in pods && IsTarget(pods, ps, d, pods[q].ip.value, q);
    }
    if q, a :| IsTarget(pods, ps, d, a, q) && r == JumpRule(d, q, a) {
      assert View(chains, q).Jumps(d) == [r];
      assert r in View(chains, q).Jumps(d);
      JumpsToMembers(rules, q, r);
    }
  }

  ghost function PodVerdict(cluster: Cluster, ps: seq<CompiledPolicy>, pod: Pod, p: Packet): Verdict {
    if p.established || SomeAllows(cluster, ps, pod, p) then Accepted else Dropped
  }

  lemma JumpRuleMatches(w: World, sets: Sets, d: Direction, q: Key, a: Addr, p: Packet)
    ensures RuleMatches(w, sets, JumpRule(d, q, a), p) <==> PodEnd(d, p) == a
  {
    var r := JumpRule(d, q, a);
    if RuleMatches(w, sets, r, p) { assert MatchHolds(w, sets, r.matches[0], p); }
  }

  ghost predicate JumpsToTarget(pods: map<Key, Pod>, ps: seq<CompiledPolicy>, d: Direction, r: Rule) {
    exists q, a :: IsTarget(pods, ps, d, a, q) && r == JumpRule(d, q, a)
  }

  /** The rule list consists of jumps to targets. */
  ghost predicate OnlyTargets(pods: map<Key, Pod>, ps: seq<CompiledPolicy>, d: Direction, rules: seq<Rule>) {
    forall i :: 0 <= i < |rules| ==> JumpsToTarget(pods, ps, d, rules[i])
  }

  lemma TargetJumpVerdict(w: World, cluster: Cluster, pods: map<Key, Pod>, ps: seq<CompiledPolicy>, k: Kernel, d: Direction,
                          x: Key, a: Addr, p: Packet, depth: nat)
    requires depth > 1 && ChainsDecide(w, cluster, ps, k, p, depth - 2) && PodsInPlace(pods, ps, k.chains) && IsTarget(pods, ps, d, a, x)
    ensures Evaluate(w, k, [JumpRule(d, x, a)], p, depth) == if PodEnd(d, p) == a then PodVerdict(cluster, ps, pods[x], p) else FallThrough
  {
    JumpRuleMatches(w, k.sets, d, x, a, p);
    if PodEnd(d, p) == a {
      EvaluateJump(w, k, JumpRule(d, x, a), p, depth);
      TargetChain(pods, ps, k.chains, d, a, x);
      PodChainVerdict(w, cluster, ps, k, pods[x], p, depth - 1);
    } else {
      EvaluateOne(w, k, JumpRule(d, x, a), p, depth);
    }
  }

  lemma HeadVerdict(w: World, cluster: Cluster, pods: map<Key, Pod>, ps: seq<CompiledPolicy>, k: Kernel, d: Direction,
                    x: Key, a: Addr, rules: seq<Rule>, p: Packet, depth: nat)
    requires depth > 1 && ChainsDecide(w, cluster, ps, k, p, depth - 2) && PodsInPlace(pods, ps, k.chains) && IsTarget(pods, ps, d, a, x)
    requires rules != [] && rules[0] == JumpRule(d, x, a)
    ensures Evaluate(w, k, rules, p, depth) ==
      if PodEnd(d, p) == a then PodVerdict(cluster, ps, pods[x], p) else Evaluate(w, k, rules[1..], p, depth)
  {
    TargetJumpVerdict(w, cluster, pods, ps, k, d, x, a, p, depth);
    EvaluateConcat(w, k, [rules[0]], rules[1..], p, depth);
    assert rules == [rules[0]] + rules[1..];
  }

  /** No rule of the list is for the address. */
  ghost predicate NoJumpFor(d: Direction, a: Addr, rules: seq<Rule>) {
    forall q :: JumpRule(d, q, a) !in rules
  }

  lemma NoJumpForCons(d: Direction, a: Addr, x: Key, b: Addr, rules: seq<Rule>)
    requires rules != [] && rules[0] == JumpRule(d, x, b) && a != b && NoJumpFor(d, a, rules[1..])
    ensures NoJumpFor(d, a, rules)
  {
    forall q ensures JumpRule(d, q, a) !in rules { JumpRuleAddress(d, q, x, a, b); }
  }

  /** Either some target with the packet's address decides, or no rule is for that address. */
  lemma {:induction false} JumpsVerdict(w: World, cluster: Cluster, pods: map<Key, Pod>, ps: seq<CompiledPolicy>, k: Kernel, d: Direction,
                                       rules: seq<Rule>, p: Packet, depth: nat)
    returns (x: Option<Key>)
    requires depth > 1 && ChainsDecide(w, cluster, ps, k, p, depth - 2) && PodsInPlace(pods, ps, k.chains) && OnlyTargets(pods, ps, d, rules)
    ensures x.Some? ==>
      IsTarget(pods, ps, d, PodEnd(d, p), x.value) && Evaluate(w, k, rules, p, depth) == PodVerdict(cluster, ps, pods[x.value], p)
    ensures x.None? ==> Evaluate(w, k, rules, p, depth) == FallThrough && NoJumpFor(d, PodEnd(d, p), rules)
    decreases |rules|
  {
    if rules == [] {
      x := None;
    } else {
      var y, a := HeadTarget(pods, ps, d, rules);
      HeadVerdict(w, cluster, pods, ps, k, d, y, a, rules, p, depth);
      if PodEnd(d, p) == a {
        x := Some(y);
      } else {
        x := JumpsVerdict(w, cluster, pods, ps, k, d, rules[1..], p, depth);
        if x.None? { NoJumpForCons(d, PodEnd(d, p), y, a, rules); }
      }
    }
  }

  lemma HeadTarget(pods: map<Key, Pod>, ps: seq<CompiledPolicy>, d: Direction, rules: seq<Rule>) returns (x: Key, a: Addr)
    requires OnlyTargets(pods, ps, d, rules) && rules != []
    ensures IsTarget(pods, ps, d, a, x) && rules[0] == JumpRule(d, x, a) && OnlyTargets(pods, ps, d, rules[1..])
  {
    assert JumpsToTarget(pods, ps, d, rules[0]);
    x, a :| IsTarget(pods, ps, d, a, x) && rules[0] == JumpRule(d, x, a);
    assert forall i :: 0 <= i < |rules[1..]| ==> rules[1..][i] == rules[i + 1];
  }

  lemma JumpRuleAddress(d: Direction, q: Key, x: Key, b: Addr, a: Addr)
    requires a != b
    ensures JumpRule(d, q, b) != JumpRule(d, x, a)
  {
    assert JumpRule(d, q, b).matches[0] != JumpRule(d, x, a).matches[0];
  }

  lemma TargetChain(pods: map<Key, Pod>, ps: seq<CompiledPolicy>, chains: Chains, d: Direction, a: Addr, q: Key)
    requires PodsInPlace(pods, ps, chains) && IsTarget(pods, ps, d, a, q)
    ensures Rules(chains, PodChain(q)) == PodRules(pods[q], ps)
  {
    assert Targeted(ps, pods[q], Inbound) || Targeted(ps, pods[q], Outbound);
    assert View(chains, q).chain == Some(PodRules(pods[q], ps));
  }

  /** The verdict of the chain of the target that has the packet's address, if there is one. */
  ghost function TargetVerdict(cluster: Cluster, pods: map<Key, Pod>, ps: seq<CompiledPolicy>, d: Direction, p: Packet): Verdict {
    if exists q :: IsTarget(pods, ps, d, PodEnd(d, p), q) then
      var q :| IsTarget(pods, ps, d, PodEnd(d, p), q);
      PodVerdict(cluster, ps, pods[q], p)
    else FallThrough
  }

  /** With distinct addresses that target is unique. */
  lemma TargetVerdictIs(cluster: Cluster, pods: map<Key, Pod>, ps: seq<CompiledPolicy>, d: Direction, p: Packet, q: Key)
    requires DistinctAddresses(pods) && IsTarget(pods, ps, d, PodEnd(d, p), q)
    ensures TargetVerdict(cluster, pods, ps, d, p) == PodVerdict(cluster, ps, pods[q], p)
  {
    forall r | IsTarget(pods, ps, d, PodEnd(d, p), r) ensures r == q { assert pods[r].ip == pods[q].ip; }
  }

  /** The jump chain of direction d sends a packet to the chain of the one pod that has its address, if there is one. */
  lemma JumpChainVerdict(w: World, cluster: Cluster, pods: map<Key, Pod>, ps: seq<CompiledPolicy>, k: Kernel, d: Direction, p: Packet, depth: nat)
    requires depth > 1 && ChainsDecide(w, cluster, ps, k, p, depth - 2) && PodsInPlace(pods, ps, k.chains) && DistinctAddresses(pods)
    ensures Evaluate(w, k, Rules(k.chains, JumpChain(d)), p, depth) == TargetVerdict(cluster, pods, ps, d, p)
  {
    var rules, a := Rules(k.chains, JumpChain(d)), PodEnd(d, p);
    assert OnlyTargets(pods, ps, d, rules) by {
      forall i | 0 <= i < |rules| ensures JumpsToTarget(pods, ps, d, rules[i]) { JumpChainMembers(pods, ps, k.chains, d, rules[i]); }
    }
    var x := JumpsVerdict(w, cluster, pods, ps, k, d, rules, p, depth);
    if x.Some? {
      TargetVerdictIs(cluster, pods, ps, d, p, x.value);
    } else {
      forall q ensures !IsTarget(pods, ps, d, a, q) { NoJumpNoTarget(pods, ps, k.chains, d, a, q); }
    }
  }

  lemma NoJumpNoTarget(pods: map<Key, Pod>, ps: seq<CompiledPolicy>, chains: Chains, d: Direction, a: Addr, q: Key)
    requires PodsInPlace(pods, ps, chains) && JumpRule(d, q, a) !in Rules(chains, JumpChain(d))
    ensures !IsTarget(pods, ps, d, a, q)
  {
    JumpChainMembers(pods, ps, chains, d, JumpRule(d, q, a));
  }

  // ---- FORWARD ----

  /** A table on which the controller has never been at work. */
  ghost predicate FreshTable(t: Chains) {
    && (forall c :: c in t ==> !c.PolicyChain? && !c.PodChain? && !c.Ingress? && !c.Egress?)
    && Rule([], Jump(Ingress)) !in Rules(t, Forward) && Rule([], Jump(Egress)) !in Rules(t, Forward)
  }

  lemma {:induction false} RestAtKeeps(rest: Chains, m: nat, c: Chain)
    requires c.PolicyChain? || c.Ingress? || c.Egress?
    ensures Rules(RestAt(rest, m), c) == Rules(rest, c)
  {
    if m > 0 { RestAtKeeps(rest, m - 1, c); }
  }

  lemma PolicyChainsAfter(t: Chains, ps: seq<CompiledPolicy>, programs: Programs, u: Chains)
    requires DistinctPolicies(ps) && Ends(SyncedChains(t, ps), programs, u)
    ensures PolicyChainsInPlace(ps, u)
  {
    var s, m := SyncedChains(t, ps), if AnyBasics(programs) then BASIC else 0;
    PolicyContentsSpec(ps);
    forall i | 0 <= i < |ps| ensures Rules(u, PolicyChain(ps[i].np.key)) == ChainRules(ps[i]) {
      var c := PolicyChain(ps[i].np.key);
      RestAtKeeps(Rest(s), m, c);
      assert Rules(u, c) == Rules(Rest(u), c) && Rules(s, c) == Rules(Rest(s), c);
    }
  }

  lemma PodsAfter(t: Chains, ps: seq<CompiledPolicy>, pods: map<Key, Pod>, u: Chains)
    requires FreshTable(t) && DistinctPolicies(ps) && Ends(SyncedChains(t, ps), ProgramsOf(pods, ps), u)
    requires forall q :: q in pods ==> pods[q].key == q
    ensures PodsInPlace(pods, ps, u)
  {
    var s, m := SyncedChains(t, ps), if AnyBasics(ProgramsOf(pods, ps)) then BASIC else 0;
    forall q ensures View(s, q) == ABSENT { SyncedKeepsViews(t, ps, q); }
    InterleavingEnds(s, ProgramsOf(pods, ps), pods, ps, u);
    JumpChainsEmptyAfter(t, ps, u, m, Ingress);
    JumpChainsEmptyAfter(t, ps, u, m, Egress);
  }

  lemma JumpChainsEmptyAfter(t: Chains, ps: seq<CompiledPolicy>, u: Chains, m: nat, c: Chain)
    requires FreshTable(t) && DistinctPolicies(ps) && Rest(u) == RestAt(Rest(SyncedChains(t, ps)), m) && (c == Ingress || c == Egress)
    ensures WithoutPodJumps(Rules(u, c)) == []
  {
    var s := SyncedChains(t, ps);
    PolicyContentsSpec(ps);
    RestAtKeeps(Rest(s), m, c);
    assert c !in s;
    assert Rules(Rest(u), c) == WithoutPodJumps(Rules(u, c));
  }

  /** After one sync of everything on a fresh table, whatever the interleaving, all is in place. */
  lemma EverythingInPlace(cluster: Cluster, t: Chains, sets: Sets, ps: seq<CompiledPolicy>, pods: map<Key, Pod>, u: Chains)
    requires FreshTable(t) && CompiledFrom(cluster, ps)
    requires forall q :: q in pods ==> pods[q].key == q
    requires Ends(SyncedChains(t, ps), ProgramsOf(pods, ps), u)
    ensures PoliciesInPlace(cluster, ps, Kernel(u, SyncedSets(sets, ps))) && PodsInPlace(pods, ps, u)
  {
    SetsConverge(cluster, sets, ps);
    PolicyChainsAfter(t, ps, ProgramsOf(pods, ps), u);
    PodsAfter(t, ps, pods, u);
  }

  lemma SyncedForward(t: Chains, ps: seq<CompiledPolicy>)
    requires DistinctPolicies(ps)
    ensures Rules(SyncedChains(t, ps), Forward) == Rules(t, Forward)
  {
    PolicyContentsSpec(ps);
  }

  lemma RestForward(t: Chains)
    ensures Rules(Rest(t), Forward) == Rules(t, Forward)
  {
  }

  /** FORWARD after the basic commands, on a table without their jumps. */
  lemma ForwardAfter(s: Chains, u: Chains, basics: bool)
    requires Rest(u) == RestAt(Rest(s), if basics then BASIC else 0)
    requires Rule([], Jump(Ingress)) !in Rules(s, Forward) && Rule([], Jump(Egress)) !in Rules(s, Forward)
    ensures Rules(u, Forward) ==
      if basics then [Rule([], Jump(Egress)), Rule([], Jump(Ingress))] + Rules(s, Forward) else Rules(s, Forward)
  {
    RestForward(s);
    RestForward(u);
    ForwardAt(Rest(s), if basics then BASIC else 0);
  }

  lemma ForwardRules(t: Chains, ps: seq<CompiledPolicy>, pods: map<Key, Pod>, u: Chains)
    requires FreshTable(t) && DistinctPolicies(ps) && Ends(SyncedChains(t, ps), ProgramsOf(pods, ps), u)
    ensures Rules(u, Forward) ==
      if AnyBasics(ProgramsOf(pods, ps)) then [Rule([], Jump(Egress)), Rule([], Jump(Ingress))] + Rules(t, Forward) else Rules(t, Forward)
  {
    SyncedForward(t, ps);
    ForwardAfter(SyncedChains(t, ps), u, AnyBasics(ProgramsOf(pods, ps)));
  }

  /** Without ensureBasicChain no pod is a target. */
  lemma NoBasicsNoTarget(pods: map<Key, Pod>, ps: seq<CompiledPolicy>, d: Direction, a: Addr, q: Key)
    ensures IsTarget(pods, ps, d, a, q) ==> AnyBasics(ProgramsOf(pods, ps))
  {
    if IsTarget(pods, ps, d, a, q) {
      ProgramWellFormed(pods[q], ps);
      assert ProgramsOf(pods, ps)[q] == Program(pods[q], ps);
      assert Targeted(ps, pods[q], Inbound) || Targeted(ps, pods[q], Outbound);
    }
  }

  lemma ForwardStart(w: World, k: Kernel, rest: seq<Rule>, p: Packet, depth: nat, source: Verdict, destination: Verdict)
    requires depth > 0
    requires Evaluate(w, k, Rules(k.chains, Egress), p, depth - 1) == source
    requires Evaluate(w, k, Rules(k.chains, Ingress), p, depth - 1) == destination
    ensures Evaluate(w, k, [Rule([], Jump(Egress)), Rule([], Jump(Ingress))] + rest, p, depth) ==
      if source != FallThrough then source else if destination != FallThrough then destination else Evaluate(w, k, rest, p, depth)
  {
    var e, f := Rule([], Jump(Egress)), Rule([], Jump(Ingress));
    EvaluateConcat(w, k, [e, f], rest, p, depth);
    assert [e, f] == [e] + [f];
    EvaluateConcat(w, k, [e], [f], p, depth);
    EvaluateJump(w, k, e, p, depth);
    EvaluateJump(w, k, f, p, depth);
  }

  /**
   * The verdict on a forwarded packet, after the policies and all local pods have been synced on a fresh table, for every
   * interleaving: the chain of the source pod decides if an egress policy selects that pod; otherwise the chain of the
   * destination pod decides if an ingress policy selects it; otherwise the old FORWARD rules decide.
   */
  lemma ForwardVerdict(w: World, cluster: Cluster, t: Chains, sets: Sets, ps: seq<CompiledPolicy>, pods: map<Key, Pod>, u: Chains, p: Packet, depth: nat)
    requires FreshTable(t) && CompiledFrom(cluster, ps) && DistinctAddresses(pods) && depth >= 3
    requires forall q :: q in pods ==> pods[q].key == q
    requires Ends(SyncedChains(t, ps), ProgramsOf(pods, ps), u)
    ensures
      var k := Kernel(u, SyncedSets(sets, ps));
      var source, destination := TargetVerdict(cluster, pods, ps, Outbound, p), TargetVerdict(cluster, pods, ps, Inbound, p);
      Evaluate(w, k, Rules(u, Forward), p, depth) ==
        if source != FallThrough then source
        else if destination != FallThrough then destination
        else Evaluate(w, k, Rules(t, Forward), p, depth)
  {
    EverythingInPlace(cluster, t, sets, ps, pods, u);
    ForwardRules(t, ps, pods, u);
    ForwardFromPlaces(w, cluster, pods, ps, Kernel(u, SyncedSets(sets, ps)), Rules(t, Forward), p, depth);
  }

  lemma ForwardFromPlaces(w: World, cluster: Cluster, pods: map<Key, Pod>, ps: seq<CompiledPolicy>, k: Kernel, before: seq<Rule>, p: Packet, depth: nat)
    requires PoliciesInPlace(cluster, ps, k) && PodsInPlace(pods, ps, k.chains) && DistinctAddresses(pods) && depth >= 3
    requires Rules(k.chains, Forward) ==
      if AnyBasics(ProgramsOf(pods, ps)) then [Rule([], Jump(Egress)), Rule([], Jump(Ingress))] + before else before
    ensures
      var source, destination := TargetVerdict(cluster, pods, ps, Outbound, p), TargetVerdict(cluster, pods, ps, Inbound, p);
      Evaluate(w, k, Rules(k.chains, Forward), p, depth) ==
        if source != FallThrough then source
        else if destination != FallThrough then destination
        else Evaluate(w, k, before, p, depth)
  {
    InPlaceDecide(w, cluster, ps, k, p, depth - 3);
    ForwardInPlace(w, cluster, pods, ps, k, before, p, depth);
  }

  lemma ForwardInPlace(w: World, cluster: Cluster, pods: map<Key, Pod>, ps: seq<CompiledPolicy>, k: Kernel, before: seq<Rule>, p: Packet, depth: nat)
    requires depth >= 3 && ChainsDecide(w, cluster, ps, k, p, depth - 3) && PodsInPlace(pods, ps, k.chains) && DistinctAddresses(pods)
    requires Rules(k.chains, Forward) ==
      if AnyBasics(ProgramsOf(pods, ps)) then [Rule([], Jump(Egress)), Rule([], Jump(Ingress))] + before else before
    ensures
      var source, destination := TargetVerdict(cluster, pods, ps, Outbound, p), TargetVerdict(cluster, pods, ps, Inbound, p);
      Evaluate(w, k, Rules(k.chains, Forward), p, depth) ==
        if source != FallThrough then source
        else if destination != FallThrough then destination
        else Evaluate(w, k, before, p, depth)
  {
    JumpChainVerdict(w, cluster, pods, ps, k, Outbound, p, depth - 1);
    JumpChainVerdict(w, cluster, pods, ps, k, Inbound, p, depth - 1);
    NoBasicsFallThrough(cluster, pods, ps, Outbound, p);
    NoBasicsFallThrough(cluster, pods, ps, Inbound, p);
    ForwardDecides(w, k, before, p, depth, AnyBasics(ProgramsOf(pods, ps)),
      TargetVerdict(cluster, pods, ps, Outbound, p), TargetVerdict(cluster, pods, ps, Inbound, p));
  }

  lemma ForwardDecides(w: World, k: Kernel, before: seq<Rule>, p: Packet, depth: nat, basics: bool, source: Verdict, destination: Verdict)
    requires depth > 0
    requires Evaluate(w, k, Rules(k.chains, JumpChain(Outbound)), p, depth - 1) == source
    requires Evaluate(w, k, Rules(k.chains, JumpChain(Inbound)), p, depth - 1) == destination
    requires !basics ==> source == FallThrough && destination == FallThrough
    requires Rules(k.chains, Forward) ==
      if basics then [Rule([], Jump(Egress)), Rule([], Jump(Ingress))] + before else before
    ensures Evaluate(w, k, Rules(k.chains, Forward), p, depth) ==
      if source != FallThrough then source else if destination != FallThrough then destination else Evaluate(w, k, before, p, depth)
  {
    if basics { ForwardStart(w, k, before, p, depth, source, destination); }
  }

  lemma NoBasicsFallThrough(cluster: Cluster, pods: map<Key, Pod>, ps: seq<CompiledPolicy>, d: Direction, p: Packet)
    ensures !AnyBasics(ProgramsOf(pods, ps)) ==> TargetVerdict(cluster, pods, ps, d, p) == FallThrough
  {
    if !AnyBasics(ProgramsOf(pods, ps)) {
      forall q ensures !IsTarget(pods, ps, d, PodEnd(d, p), q) { NoBasicsNoTarget(pods, ps, d, PodEnd(d, p), q); }
    }
  }

  // ---- In terms of the policy objects ----

  /** Some policy with a good selector selects the pod and is enabled for the direction. */
  ghost predicate SelectedFor(nps: seq<NetworkPolicy>, pod: Pod, d: Direction) {
    exists i :: 0 <= i < |nps| && Selects(nps[i], pod) && nps[i].Enabled(d)
  }

  lemma TargetedMeaning(cluster: Cluster, pod: Pod, d: Direction)
    ensures Targeted(CompileAll(cluster, cluster.policies), pod, d) <==> SelectedFor(cluster.policies, pod, d)
  {
    var nps := cluster.policies;
    var ps := CompileAll(cluster, nps);
    if Targeted(ps, pod, d) {
      var i :| 0 <= i < |ps| && Affects(ps[i], pod, d);
      CompileAllMembers(cluster, nps, i);
      var j :| 0 <= j < |nps| && nps[j] == ps[i].np;
    }
    if j :| 0 <= j < |nps| && Selects(nps[j], pod) && nps[j].Enabled(d) {
      CompileAllCovers(cluster, nps, nps[j]);
      var i :| 0 <= i < |ps| && ps[i].np == nps[j];
      CompileAllMembers(cluster, nps, i);
      assert Affects(ps[i], pod, d);
    }
  }

  lemma SomeAllowsMeaning(cluster: Cluster, pod: Pod, p: Packet)
    ensures p.established || SomeAllows(cluster, CompileAll(cluster, cluster.policies), pod, p) <==> PodAccepts(cluster, cluster.policies, pod, p)
  {
    var nps := cluster.policies;
    var ps := CompileAll(cluster, nps);
    if i :| 0 <= i < |ps| && PolicyAccepts(cluster, ps[i], pod, p) {
      CompileAllMembers(cluster, nps, i);
      var j :| 0 <= j < |nps| && nps[j] == ps[i].np;
    }
    if j :| 0 <= j < |nps| && nps[j].podSelector.Selector? && Selects(nps[j], pod) && Allows(cluster, nps[j], p) {
      CompileAllCovers(cluster, nps, nps[j]);
      var i :| 0 <= i < |ps| && ps[i].np == nps[j];
      CompileAllMembers(cluster, nps, i);
      assert Affects(ps[i], pod, Inbound) || Affects(ps[i], pod, Outbound);
    }
  }

  /** A local pod with the address, selected by a policy that is enabled for the direction. */
  ghost predicate LocalTarget(cluster: Cluster, d: Direction, a: Addr, pod: Pod) {
    pod in cluster.pods && pod.local && pod.ip == Some(a) && SelectedFor(cluster.policies, pod, d)
  }

  /** What the policies mean for a packet at the pod of its direction-d end. */
  ghost function Meaning(cluster: Cluster, d: Direction, p: Packet): Verdict {
    if exists pod :: LocalTarget(cluster, d, PodEnd(d, p), pod) then
      var pod :| LocalTarget(cluster, d, PodEnd(d, p), pod);
      if PodAccepts(cluster, cluster.policies, pod, p) then Accepted else Dropped
    else FallThrough
  }

  lemma TargetIsLocal(cluster: Cluster, d: Direction, a: Addr, q: Key)
    requires IsTarget(LocalPods(cluster.pods), CompileAll(cluster, cluster.policies), d, a, q)
    ensures LocalTarget(cluster, d, a, LocalPods(cluster.pods)[q])
  {
    LocalPodsSpec(cluster.pods, q);
    TargetedMeaning(cluster, LocalPods(cluster.pods)[q], d);
  }

  lemma LocalIsTarget(cluster: Cluster, d: Direction, a: Addr, pod: Pod)
    requires DistinctPods(cluster.pods) && LocalTarget(cluster, d, a, pod)
    ensures IsTarget(LocalPods(cluster.pods), CompileAll(cluster, cluster.policies), d, a, pod.key)
    ensures LocalPods(cluster.pods)[pod.key] == pod
  {
    LocalPodsSpec(cluster.pods, pod.key);
    var i :| 0 <= i < |cluster.pods| && cluster.pods[i] == pod;
    TargetedMeaning(cluster, pod, d);
  }

  lemma TargetVerdictMeaning(cluster: Cluster, d: Direction, p: Packet)
    requires DistinctPods(cluster.pods) && DistinctAddresses(LocalPods(cluster.pods))
    ensures TargetVerdict(cluster, LocalPods(cluster.pods), CompileAll(cluster, cluster.policies), d, p) == Meaning(cluster, d, p)
  {
    var pods, ps, a := LocalPods(cluster.pods), CompileAll(cluster, cluster.policies), PodEnd(d, p);
    if pod :| LocalTarget(cluster, d, a, pod) {
      LocalIsTarget(cluster, d, a, pod);
      TargetVerdictIs(cluster, pods, ps, d, p, pod.key);
      SomeAllowsMeaning(cluster, pod, p);
      forall other | LocalTarget(cluster, d, a, other) ensures other == pod {
        LocalIsTarget(cluster, d, a, other);
        assert pods[other.key].ip == pods[pod.key].ip;
      }
    } else {
      forall q ensures !IsTarget(pods, ps, d, a, q) {
        if IsTarget(pods, ps, d, a, q) { TargetIsLocal(cluster, d, a, q); }
      }
    }
  }

  /**
   * End to end: on a fresh table, after the handler of a policy event has compiled the policies, reconciled the sets and
   * the policy chains, and synced all local pods in any interleaving, FORWARD treats every packet as the policies say.
   */
  lemma EndToEnd(w: World, cluster: Cluster, t: Chains, sets: Sets, u: Chains, p: Packet, depth: nat)
    requires FreshTable(t) && DistinctKeys(cluster.policies) && DistinctPods(cluster.pods) && depth >= 3
    requires DistinctAddresses(LocalPods(cluster.pods))
    requires
      var ps := CompileAll(cluster, cluster.policies);
      Ends(SyncedChains(t, ps), ProgramsOf(LocalPods(cluster.pods), ps), u)
    ensures
      var k := Kernel(u, SyncedSets(sets, CompileAll(cluster, cluster.policies)));
      var source, destination := Meaning(cluster, Outbound, p), Meaning(cluster, Inbound, p);
      Evaluate(w, k, Rules(u, Forward), p, depth) ==
        if source != FallThrough then source
        else if destination != FallThrough then destination
        else Evaluate(w, k, Rules(t, Forward), p, depth)
  {
    var ps, pods := CompileAll(cluster, cluster.policies), LocalPods(cluster.pods);
    CompiledFromAll(cluster);
    forall q | q in pods ensures pods[q].key == q { LocalPodsSpec(cluster.pods, q); }
    ForwardVerdict(w, cluster, t, sets, ps, pods, u, p, depth);
    TargetVerdictMeaning(cluster, Outbound, p);
    TargetVerdictMeaning(cluster, Inbound, p);
  }

  lemma CompiledFromAll(cluster: Cluster)
    requires DistinctKeys(cluster.policies)
    ensures CompiledFrom(cluster, CompileAll(cluster, cluster.policies))
  {
    CompileAllDistinct(cluster, cluster.policies);
    var ps := CompileAll(cluster, cluster.policies);
    forall i | 0 <= i < |ps| ensures Compile(cluster, ps[i].np) == Some(ps[i]) { CompileAllMembers(cluster, cluster.policies, i); }
  }
}
