/**
 * From compiled policies to ipset tables and GLX-PLCY chains: initIPSetMap, writePolicyChainRules,
 * writeRules, writeChains and the restore input of syncIptables in pkg/policy/policy.go.
 */
module PolicyChains {
  import opened Sequences
  import opened Tables
  import opened PacketFilter
  import opened NetworkPolicies

  // ---- ipset tables ----

  function RuleTables(rule: CompiledRule): seq<IpsetTable> {
    if rule.hosts.Some? && rule.nets.Some? then [rule.hosts.value, rule.nets.value]
    else if rule.hosts.Some? then [rule.hosts.value]
    else if rule.nets.Some? then [rule.nets.value]
    else []
  }

  function TablesPerRule(rules: seq<CompiledRule>): seq<seq<IpsetTable>> {
    seq(|rules|, i requires 0 <= i < |rules| => RuleTables(rules[i]))
  }

  function SideTables(side: Option<CompiledSide>): seq<IpsetTable> {
    if side.None? then [] else [side.value.podTable] + Flatten(TablesPerRule(side.value.rules))
  }

  function PolicyTables(p: CompiledPolicy): seq<IpsetTable> {
    SideTables(p.ingress) + SideTables(p.egress)
  }

  function TablesPerPolicy(ps: seq<CompiledPolicy>): seq<seq<IpsetTable>> {
    seq(|ps|, i requires 0 <= i < |ps| => PolicyTables(ps[i]))
  }

  function AllTables(ps: seq<CompiledPolicy>): seq<IpsetTable> {
    Flatten(TablesPerPolicy(ps))
  }

  function Register(m: map<SetName, IpsetTable>, tables: seq<IpsetTable>): map<SetName, IpsetTable>
    decreases |tables|
  {
    if tables == [] then m else Register(m[tables[0].name := tables[0]], tables[1..])
  }

  /** What initIPSetMap builds: later tables overwrite earlier ones of the same name. */
  function IPSetMap(ps: seq<CompiledPolicy>): map<SetName, IpsetTable> {
    Register(map[], AllTables(ps))
  }

  function EntrySet(table: IpsetTable): set<Entry> {
    set e | e in table.entries
  }

  /** The set contents that the policies ask for. */
  function Desired(ps: seq<CompiledPolicy>): Sets {
    var m := IPSetMap(ps);
    map n | n in m :: EntrySet(m[n])
  }

  /** Tables of the same name are the same table. */
  ghost predicate Agree(tables: seq<IpsetTable>) {
    forall i, j :: 0 <= i < |tables| && 0 <= j < |tables| && tables[i].name == tables[j].name ==> tables[i] == tables[j]
  }

  lemma {:induction false} RegisterSpec(m: map<SetName, IpsetTable>, tables: seq<IpsetTable>)
    requires Agree(tables)
    ensures forall n :: n in Register(m, tables) <==> n in m || exists i :: 0 <= i < |tables| && tables[i].name == n
    ensures forall i :: 0 <= i < |tables| ==> tables[i].name in Register(m, tables) && Register(m, tables)[tables[i].name] == tables[i]
    ensures forall n :: n in m && (forall i :: 0 <= i < |tables| ==> tables[i].name != n) ==> Register(m, tables)[n] == m[n]
    decreases |tables|
  {
    if tables != [] {
      var m' := m[tables[0].name := tables[0]];
      var rest := tables[1..];
      assert forall i :: 0 <= i < |rest| ==> rest[i] == tables[i + 1];
      RegisterSpec(m', rest);
      var r := Register(m', rest);
      forall n ensures n in r <==> n in m || exists i :: 0 <= i < |tables| && tables[i].name == n {
        if i :| 0 <= i < |rest| && rest[i].name == n { assert tables[i + 1].name == n; }
        if i :| 0 <= i < |tables| && tables[i].name == n { if i > 0 { assert rest[i - 1].name == n; } }
        if n == tables[0].name { assert n in m'; }
      }
      forall i | 0 <= i < |tables| ensures tables[i].name in r && r[tables[i].name] == tables[i] {
        if i > 0 { assert rest[i - 1] == tables[i]; }
        else if j :| 0 <= j < |rest| && rest[j].name == tables[0].name { assert rest[j] == tables[j + 1] == tables[0]; }
      }
    }
  }

  lemma RegisterConcat(m: map<SetName, IpsetTable>, a: seq<IpsetTable>, b: seq<IpsetTable>)
    ensures Register(m, a + b) == Register(Register(m, a), b)
    decreases |a|
  {
    if a == [] {
      assert a + b == b;
    } else {
      assert (a + b)[1..] == a[1..] + b;
      RegisterConcat(m[a[0].name := a[0]], a[1..], b);
    }
  }

  // ---- Which tables a compiled policy has ----

  /** The table is one that the policy's specs call for; its name says which one. */
  ghost predicate TableOf(cluster: Cluster, np: NetworkPolicy, table: IpsetTable) {
    && np.podSelector.Selector?
    && match table.name
       case PodSet(k) =>
         k == np.key && table.entries == HostEntries(ListPods(cluster.pods, Some(np.key.namespace), np.podSelector.accepts))
       case PeerHosts(d, i, k) =>
         k == np.key && np.Enabled(d) && i < |np.Specs(d)| && HostsOf(cluster, np.Specs(d)[i].peers) == Some(table.entries)
       case PeerNets(d, i, k) =>
         k == np.key && np.Enabled(d) && i < |np.Specs(d)| && NetsOf(cluster, np.Specs(d)[i].peers) == Some(table.entries)
       case _ => false
  }

  /** The table is the pod table or a peer table of the compiled side. */
  ghost predicate SideHas(side: Option<CompiledSide>, table: IpsetTable) {
    && side.Some?
    && (table == side.value.podTable || exists i :: 0 <= i < |side.value.rules| && table in RuleTables(side.value.rules[i]))
  }

  lemma SideTablesMembers(side: Option<CompiledSide>, table: IpsetTable)
    ensures table in SideTables(side) <==> SideHas(side, table)
  {
    if side.Some? {
      var lists := TablesPerRule(side.value.rules);
      FlattenMembers(lists, table);
      if table in Flatten(lists) {
        var i :| 0 <= i < |lists| && table in lists[i];
        assert table in RuleTables(side.value.rules[i]);
      }
      if i :| 0 <= i < |side.value.rules| && table in RuleTables(side.value.rules[i]) { assert table in lists[i]; }
    }
  }

  lemma SideHasSpec(cluster: Cluster, p: CompiledPolicy, d: Direction, table: IpsetTable)
    requires Compile(cluster, p.np) == Some(p)
    ensures SideHas(p.Side(d), table) <==>
      p.np.Enabled(d) && TableOf(cluster, p.np, table) && (table.name.PodSet? || table.name.direction == d)
  {
    if p.np.Enabled(d) {
      var side := p.Side(d).value;
      forall i | 0 <= i < |side.rules|
        ensures table in RuleTables(side.rules[i]) <==> TableOf(cluster, p.np, table) && (table.name == PeerHosts(d, i, p.np.key) || table.name == PeerNets(d, i, p.np.key))
      {
        assert side.rules[i] == CompileRule(cluster, p.np.key, d, i, p.np.Specs(d)[i]);
      }
      if TableOf(cluster, p.np, table) && !table.name.PodSet? && table.name.direction == d {
        assert table in RuleTables(side.rules[table.name.index]);
      }
    }
  }

  /** The tables of a compiled policy are exactly the ones its specs call for. */
  lemma PolicyTablesMembers(cluster: Cluster, p: CompiledPolicy, table: IpsetTable)
    requires Compile(cluster, p.np) == Some(p)
    ensures table in PolicyTables(p) <==> TableOf(cluster, p.np, table)
  {
    SideTablesMembers(p.Side(Inbound), table);
    SideTablesMembers(p.Side(Outbound), table);
    SideHasSpec(cluster, p, Inbound, table);
    SideHasSpec(cluster, p, Outbound, table);
  }

  lemma AllTablesMembers(ps: seq<CompiledPolicy>, table: IpsetTable)
    ensures table in AllTables(ps) <==> exists i :: 0 <= i < |ps| && table in PolicyTables(ps[i])
  {
    var lists := TablesPerPolicy(ps);
    FlattenMembers(lists, table);
    if i :| 0 <= i < |ps| && table in PolicyTables(ps[i]) { assert table in lists[i]; }
  }

  /** The policies are compiled from one cluster state and have distinct keys. */
  ghost predicate CompiledFrom(cluster: Cluster, ps: seq<CompiledPolicy>) {
    && DistinctPolicies(ps)
    && forall i {:trigger Compile(cluster, ps[i].np)} :: 0 <= i < |ps| ==> Compile(cluster, ps[i].np) == Some(ps[i])
  }

  /** The desired sets hold, under its own name, every table a policy calls for: none overwrites another. */
  lemma DesiredHas(cluster: Cluster, ps: seq<CompiledPolicy>, i: nat, table: IpsetTable)
    requires CompiledFrom(cluster, ps) && i < |ps| && TableOf(cluster, ps[i].np, table)
    ensures table.name in Desired(ps) && Desired(ps)[table.name] == EntrySet(table)
  {
    TablesAgree(cluster, ps);
    CalledFor(cluster, ps, table);
    RegisterSpec(map[], AllTables(ps));
    var j :| 0 <= j < |AllTables(ps)| && AllTables(ps)[j] == table;
  }

  /** Every desired set is a table that some policy calls for. */
  lemma DesiredOnly(cluster: Cluster, ps: seq<CompiledPolicy>, n: SetName) returns (i: nat, table: IpsetTable)
    requires CompiledFrom(cluster, ps) && n in Desired(ps)
    ensures i < |ps| && TableOf(cluster, ps[i].np, table) && table.name == n
  {
    TablesAgree(cluster, ps);
    RegisterSpec(map[], AllTables(ps));
    var j :| 0 <= j < |AllTables(ps)| && AllTables(ps)[j].name == n;
    table := AllTables(ps)[j];
    CalledFor(cluster, ps, table);
    i :| 0 <= i < |ps| && TableOf(cluster, ps[i].np, table);
  }

  lemma CalledFor(cluster: Cluster, ps: seq<CompiledPolicy>, table: IpsetTable)
    requires CompiledFrom(cluster, ps)
    ensures table in AllTables(ps) <==> exists i :: 0 <= i < |ps| && TableOf(cluster, ps[i].np, table)
  {
    AllTablesMembers(ps, table);
    forall i | 0 <= i < |ps| ensures table in PolicyTables(ps[i]) <==> TableOf(cluster, ps[i].np, table) {
      PolicyTablesMembers(cluster, ps[i], table);
    }
  }

  lemma SameNameSameTable(cluster: Cluster, np: NetworkPolicy, a: IpsetTable, b: IpsetTable)
    requires TableOf(cluster, np, a) && TableOf(cluster, np, b) && a.name == b.name
    ensures a == b
  {
  }

  lemma TableOwner(cluster: Cluster, np: NetworkPolicy, table: IpsetTable)
    requires TableOf(cluster, np, table)
    ensures (table.name.PodSet? || table.name.PeerHosts? || table.name.PeerNets?) && table.name.policy == np.key
  {
  }

  lemma CalledByOne(cluster: Cluster, ps: seq<CompiledPolicy>, x: IpsetTable, y: IpsetTable)
    requires CompiledFrom(cluster, ps) && x in AllTables(ps) && y in AllTables(ps) && x.name == y.name
    ensures x == y
  {
    CalledFor(cluster, ps, x);
    var a :| 0 <= a < |ps| && TableOf(cluster, ps[a].np, x);
    CalledFor(cluster, ps, y);
    var b :| 0 <= b < |ps| && TableOf(cluster, ps[b].np, y);
    TableOwner(cluster, ps[a].np, x);
    TableOwner(cluster, ps[b].np, y);
    assert ps[a].np.key == ps[b].np.key;
    assert a == b;
    SameNameSameTable(cluster, ps[a].np, x, y);
  }

  lemma TablesAgree(cluster: Cluster, ps: seq<CompiledPolicy>)
    requires CompiledFrom(cluster, ps)
    ensures Agree(AllTables(ps))
  {
    var tables := AllTables(ps);
    forall i, j | 0 <= i < |tables| && 0 <= j < |tables| && tables[i].name == tables[j].name ensures tables[i] == tables[j] {
      CalledByOne(cluster, ps, tables[i], tables[j]);
    }
  }

  // ---- Chain rules ----

  /** A chain rule restricts TCP ports, UDP ports, or neither protocol nor port. */
  datatype Variant = AnyPort | OnTcp(ports: seq<string>) | OnUdp(ports: seq<string>)

  function SetRule(key: Key, v: Variant, src: SetName, dst: SetName): Rule {
    match v
    case AnyPort => Rule([Comment(key), Proto(None), InSet(src, Src), InSet(dst, Dst)], Accept)
    case OnTcp(ports) => Rule([Comment(key), Proto(Some(Tcp)), InSet(src, Src), InSet(dst, Dst), DstPorts(ports)], Accept)
    case OnUdp(ports) => Rule([Comment(key), Proto(Some(Udp)), InSet(src, Src), InSet(dst, Dst), DstPorts(ports)], Accept)
  }

  /** One variant per protocol that has ports, or one for everything. */
  function Variants(tcpPorts: seq<string>, udpPorts: seq<string>): seq<Variant> {
    if tcpPorts != [] && udpPorts != [] then [OnTcp(tcpPorts), OnUdp(udpPorts)]
    else if tcpPorts != [] then [OnTcp(tcpPorts)]
    else if udpPorts != [] then [OnUdp(udpPorts)]
    else [AnyPort]
  }

  function PairRules(key: Key, src: SetName, dst: SetName, vs: seq<Variant>): seq<Rule> {
    seq(|vs|, i requires 0 <= i < |vs| => SetRule(key, vs[i], src, dst))
  }

  function RowRules(key: Key, src: SetName, dsts: seq<SetName>, vs: seq<Variant>): seq<Rule> {
    if dsts == [] then [] else RowRules(key, src, dsts[..|dsts| - 1], vs) + PairRules(key, src, dsts[|dsts| - 1], vs)
  }

  function CrossRules(key: Key, srcs: seq<SetName>, dsts: seq<SetName>, vs: seq<Variant>): seq<Rule> {
    if srcs == [] then [] else CrossRules(key, srcs[..|srcs| - 1], dsts, vs) + RowRules(key, srcs[|srcs| - 1], dsts, vs)
  }

  /** The variant is for one protocol and its ports, or, without any ports, for everything. */
  ghost predicate VariantFor(tcpPorts: seq<string>, udpPorts: seq<string>, v: Variant) {
    match v
    case AnyPort => tcpPorts == [] && udpPorts == []
    case OnTcp(ports) => ports == tcpPorts && ports != []
    case OnUdp(ports) => ports == udpPorts && ports != []
  }

  ghost predicate FromPair(key: Key, srcs: seq<SetName>, dsts: seq<SetName>, tcpPorts: seq<string>, udpPorts: seq<string>, r: Rule) {
    exists src, dst, v :: src in srcs && dst in dsts && VariantFor(tcpPorts, udpPorts, v) && r == SetRule(key, v, src, dst)
  }

  lemma PairMembers(key: Key, src: SetName, dst: SetName, tcpPorts: seq<string>, udpPorts: seq<string>, r: Rule)
    ensures r in PairRules(key, src, dst, Variants(tcpPorts, udpPorts)) <==>
      exists v :: VariantFor(tcpPorts, udpPorts, v) && r == SetRule(key, v, src, dst)
  {
    var vs := Variants(tcpPorts, udpPorts);
    var rules := PairRules(key, src, dst, vs);
    if i :| 0 <= i < |rules| && rules[i] == r { assert VariantFor(tcpPorts, udpPorts, vs[i]); }
    if v :| VariantFor(tcpPorts, udpPorts, v) && r == SetRule(key, v, src, dst) {
      var i: nat := if v.OnUdp? && tcpPorts != [] then 1 else 0;
      assert vs[i] == v && rules[i] == r;
    }
  }

  lemma {:induction false} RowMembers(key: Key, src: SetName, dsts: seq<SetName>, tcpPorts: seq<string>, udpPorts: seq<string>, r: Rule)
    ensures r in RowRules(key, src, dsts, Variants(tcpPorts, udpPorts)) <==> FromPair(key, [src], dsts, tcpPorts, udpPorts, r)
    decreases |dsts|
  {
    if dsts != [] {
      var n := |dsts| - 1;
      RowMembers(key, src, dsts[..n], tcpPorts, udpPorts, r);
      PairMembers(key, src, dsts[n], tcpPorts, udpPorts, r);
      assert dsts == dsts[..n] + [dsts[n]];
    }
  }

  /** The rules are those of every source with every destination, for each protocol with ports or for everything. */
  lemma {:induction false} CrossMembers(key: Key, srcs: seq<SetName>, dsts: seq<SetName>, tcpPorts: seq<string>, udpPorts: seq<string>, r: Rule)
    ensures r in CrossRules(key, srcs, dsts, Variants(tcpPorts, udpPorts)) <==> FromPair(key, srcs, dsts, tcpPorts, udpPorts, r)
    decreases |srcs|
  {
    if srcs != [] {
      var n := |srcs| - 1;
      CrossMembers(key, srcs[..n], dsts, tcpPorts, udpPorts, r);
      RowMembers(key, srcs[n], dsts, tcpPorts, udpPorts, r);
      assert srcs == srcs[..n] + [srcs[n]];
    }
  }

  function PeerNames(rule: CompiledRule): seq<SetName> {
    if rule.hosts.Some? && rule.nets.Some? then [rule.hosts.value.name, rule.nets.value.name]
    else if rule.hosts.Some? then [rule.hosts.value.name]
    else if rule.nets.Some? then [rule.nets.value.name]
    else []
  }

  /** The rules between the selected pods and each peer table, in the direction of the traffic. */
  function PeerRules(key: Key, d: Direction, podSet: SetName, peers: seq<SetName>, vs: seq<Variant>): seq<Rule> {
    if d.Inbound? then CrossRules(key, peers, [podSet], vs) else CrossRules(key, [podSet], peers, vs)
  }

  function PairRule(key: Key, d: Direction, podSet: SetName, peer: SetName, v: Variant): Rule {
    if d.Inbound? then SetRule(key, v, peer, podSet) else SetRule(key, v, podSet, peer)
  }

  function SpecRules(key: Key, d: Direction, podSet: SetName, rule: CompiledRule): seq<Rule> {
    PeerRules(key, d, podSet, PeerNames(rule), Variants(rule.tcpPorts, rule.udpPorts))
  }

  function RulesPerSpec(key: Key, d: Direction, podSet: SetName, rules: seq<CompiledRule>): seq<seq<Rule>> {
    seq(|rules|, i requires 0 <= i < |rules| => SpecRules(key, d, podSet, rules[i]))
  }

  function SpecsRules(key: Key, d: Direction, podSet: SetName, rules: seq<CompiledRule>): seq<Rule> {
    Flatten(RulesPerSpec(key, d, podSet, rules))
  }

  function SideRules(key: Key, d: Direction, side: Option<CompiledSide>): seq<Rule> {
    if side.None? then [] else SpecsRules(key, d, side.value.podTable.name, side.value.rules)
  }

  /** The content of a policy's GLX-PLCY chain. */
  function ChainRules(p: CompiledPolicy): seq<Rule> {
    SideRules(p.np.key, Inbound, p.ingress) + SideRules(p.np.key, Outbound, p.egress)
  }

  // ---- Which rules a chain has ----

  lemma RowOfOne(key: Key, src: SetName, dst: SetName, vs: seq<Variant>)
    ensures RowRules(key, src, [dst], vs) == PairRules(key, src, dst, vs)
  {
    assert RowRules(key, src, [dst][..0], vs) == [];
  }

  /** Peer tables contribute one after the other, in both directions. */
  lemma PeerRulesSnoc(key: Key, d: Direction, podSet: SetName, peers: seq<SetName>, peer: SetName, vs: seq<Variant>)
    ensures PeerRules(key, d, podSet, [], vs) == []
    ensures |PeerRules(key, d, podSet, peers + [peer], vs)| == |PeerRules(key, d, podSet, peers, vs)| + |vs|
    ensures PeerRules(key, d, podSet, peers + [peer], vs) == PeerRules(key, d, podSet, peers, vs) +
      if d.Inbound? then PairRules(key, peer, podSet, vs) else PairRules(key, podSet, peer, vs)
  {
    assert (peers + [peer])[..|peers|] == peers;
    assert forall ns :: CrossRules(key, [podSet], ns, vs) == CrossRules(key, [podSet][..0], ns, vs) + RowRules(key, podSet, ns, vs);
    RowOfOne(key, peer, podSet, vs);
  }

  lemma {:induction false} PeerRulesMembers(key: Key, d: Direction, podSet: SetName, peers: seq<SetName>, vs: seq<Variant>, r: Rule)
    ensures r in PeerRules(key, d, podSet, peers, vs) <==>
      exists i, j :: 0 <= i < |peers| && 0 <= j < |vs| && r == PairRule(key, d, podSet, peers[i], vs[j])
  {
    if peers == [] {
      PeerRulesSnoc(key, d, podSet, [], podSet, vs);
    } else {
      var front, last := peers[..|peers| - 1], peers[|peers| - 1];
      assert peers == front + [last];
      PeerRulesSnoc(key, d, podSet, front, last, vs);
      PeerRulesMembers(key, d, podSet, front, vs, r);
      var pair := if d.Inbound? then PairRules(key, last, podSet, vs) else PairRules(key, podSet, last, vs);
      assert r in pair <==> exists j :: 0 <= j < |vs| && r == PairRule(key, d, podSet, last, vs[j]) by {
        if j :| 0 <= j < |vs| && r == PairRule(key, d, podSet, last, vs[j]) { assert pair[j] == r; }
      }
      if i, j :| 0 <= i < |front| && 0 <= j < |vs| && r == PairRule(key, d, podSet, front[i], vs[j]) { assert peers[i] == front[i]; }
      if i, j :| 0 <= i < |peers| && 0 <= j < |vs| && r == PairRule(key, d, podSet, peers[i], vs[j]) {
        if i < |front| { assert front[i] == peers[i]; }
      }
    }
  }

  lemma SpecsRulesMembers(key: Key, d: Direction, podSet: SetName, rules: seq<CompiledRule>, r: Rule)
    ensures r in SpecsRules(key, d, podSet, rules) <==>
      exists i :: 0 <= i < |rules| && r in SpecRules(key, d, podSet, rules[i])
  {
    var lists := RulesPerSpec(key, d, podSet, rules);
    FlattenMembers(lists, r);
    if r in Flatten(lists) {
      var i :| 0 <= i < |lists| && r in lists[i];
      assert r in SpecRules(key, d, podSet, rules[i]);
    }
    if i :| 0 <= i < |rules| && r in SpecRules(key, d, podSet, rules[i]) { assert r in lists[i]; }
  }

  /** `r` is the rule of spec `i` for its peer table `peer` and one of its variants. */
  ghost predicate ChainRuleAt(p: CompiledPolicy, d: Direction, i: nat, peer: SetName, v: Variant, r: Rule) {
    && p.Side(d).Some? && i < |p.Side(d).value.rules|
    && peer in PeerNames(p.Side(d).value.rules[i])
    && v in Variants(p.Side(d).value.rules[i].tcpPorts, p.Side(d).value.rules[i].udpPorts)
    && r == PairRule(p.np.key, d, p.Side(d).value.podTable.name, peer, v)
  }

  lemma SideRuleAt(p: CompiledPolicy, d: Direction, r: Rule) returns (i: nat, peer: SetName, v: Variant)
    requires r in SideRules(p.np.key, d, p.Side(d))
    ensures ChainRuleAt(p, d, i, peer, v, r)
  {
    var key, side := p.np.key, p.Side(d).value;
    SpecsRulesMembers(key, d, side.podTable.name, side.rules, r);
    i :| 0 <= i < |side.rules| && r in SpecRules(key, d, side.podTable.name, side.rules[i]);
    peer, v := SpecRuleAt(key, d, side.podTable.name, side.rules[i], r);
  }

  lemma SpecRuleAt(key: Key, d: Direction, podSet: SetName, rule: CompiledRule, r: Rule) returns (peer: SetName, v: Variant)
    requires r in SpecRules(key, d, podSet, rule)
    ensures peer in PeerNames(rule) && v in Variants(rule.tcpPorts, rule.udpPorts) && r == PairRule(key, d, podSet, peer, v)
  {
    var peers, vs := PeerNames(rule), Variants(rule.tcpPorts, rule.udpPorts);
    PeerRulesMembers(key, d, podSet, peers, vs, r);
    var a, b :| 0 <= a < |peers| && 0 <= b < |vs| && r == PairRule(key, d, podSet, peers[a], vs[b]);
    peer, v := peers[a], vs[b];
  }

  lemma SpecRuleIn(key: Key, d: Direction, podSet: SetName, rule: CompiledRule, peer: SetName, v: Variant)
    requires peer in PeerNames(rule) && v in Variants(rule.tcpPorts, rule.udpPorts)
    ensures PairRule(key, d, podSet, peer, v) in SpecRules(key, d, podSet, rule)
  {
    var peers, vs := PeerNames(rule), Variants(rule.tcpPorts, rule.udpPorts);
    PeerRulesMembers(key, d, podSet, peers, vs, PairRule(key, d, podSet, peer, v));
    var a :| 0 <= a < |peers| && peers[a] == peer;
    var b :| 0 <= b < |vs| && vs[b] == v;
    assert PairRule(key, d, podSet, peer, v) == PairRule(key, d, podSet, peers[a], vs[b]);
  }

  lemma SideRulesMembers(p: CompiledPolicy, d: Direction, r: Rule)
    ensures r in SideRules(p.np.key, d, p.Side(d)) <==> exists i, peer, v :: ChainRuleAt(p, d, i, peer, v, r)
  {
    if r in SideRules(p.np.key, d, p.Side(d)) {
      var i, peer, v := SideRuleAt(p, d, r);
    }
    if i: nat, peer, v :| ChainRuleAt(p, d, i, peer, v, r) {
      var side := p.Side(d).value;
      SpecRuleIn(p.np.key, d, side.podTable.name, side.rules[i], peer, v);
      SpecsRulesMembers(p.np.key, d, side.podTable.name, side.rules, r);
    }
  }

  /** The rules of a chain are exactly those of its enabled directions, specs, peer tables and variants. */
  lemma ChainRulesMembers(p: CompiledPolicy, r: Rule)
    ensures r in ChainRules(p) <==> exists d, i, peer, v :: ChainRuleAt(p, d, i, peer, v, r)
  {
    SideRulesMembers(p, Inbound, r);
    SideRulesMembers(p, Outbound, r);
    assert r in ChainRules(p) <==> r in SideRules(p.np.key, Inbound, p.Side(Inbound)) || r in SideRules(p.np.key, Outbound, p.Side(Outbound));
    if d, i: nat, peer, v :| ChainRuleAt(p, d, i, peer, v, r) {
      assert d == Inbound || d == Outbound;
    }
  }

  // ---- No rule is written twice ----

  lemma NoDuplicatesConcat<T>(a: seq<T>, b: seq<T>)
    requires NoDuplicates(a) && NoDuplicates(b) && forall x :: x in a ==> x !in b
    ensures NoDuplicates(a + b)
  {
    forall i, j | 0 <= i < j < |a + b| ensures (a + b)[i] != (a + b)[j] {
      if i < |a| <= j { assert a[i] in a && b[j - |a|] in b; }
    }
  }

  lemma PairRuleInjective(key: Key, d: Direction, e: Direction, a: SetName, b: SetName, v: Variant, u: Variant)
    requires !a.PodSet? && !b.PodSet?
    requires PairRule(key, d, PodSet(key), a, v) == PairRule(key, e, PodSet(key), b, u)
    ensures d == e && a == b && v == u
  {
    var r := PairRule(key, d, PodSet(key), a, v);
    assert r.matches[2] == InSet(if d.Inbound? then a else PodSet(key), Src);
    assert r.matches[2] == InSet(if e.Inbound? then b else PodSet(key), Src);
    assert r.matches[3] == InSet(if d.Inbound? then PodSet(key) else a, Dst);
    assert r.matches[3] == InSet(if e.Inbound? then PodSet(key) else b, Dst);
    assert |r.matches| == if v.AnyPort? then 4 else 5;
    assert |r.matches| == if u.AnyPort? then 4 else 5;
    assert r.matches[1] == Proto(if v.AnyPort? then None else Some(if v.OnTcp? then Tcp else Udp));
    assert r.matches[1] == Proto(if u.AnyPort? then None else Some(if u.OnTcp? then Tcp else Udp));
    if !v.AnyPort? { assert r.matches[4] == DstPorts(v.ports) && r.matches[4] == DstPorts(u.ports); }
  }

  lemma {:induction false} PeerRulesNoDuplicates(key: Key, d: Direction, peers: seq<SetName>, vs: seq<Variant>)
    requires NoDuplicates(peers) && NoDuplicates(vs) && forall i :: 0 <= i < |peers| ==> !peers[i].PodSet?
    ensures NoDuplicates(PeerRules(key, d, PodSet(key), peers, vs))
  {
    var podSet := PodSet(key);
    if peers == [] {
      PeerRulesSnoc(key, d, podSet, [], podSet, vs);
    } else {
      var front, last := peers[..|peers| - 1], peers[|peers| - 1];
      assert peers == front + [last];
      PeerRulesSnoc(key, d, podSet, front, last, vs);
      PeerRulesNoDuplicates(key, d, front, vs);
      var pair := if d.Inbound? then PairRules(key, last, podSet, vs) else PairRules(key, podSet, last, vs);
      assert forall j :: 0 <= j < |vs| ==> pair[j] == PairRule(key, d, podSet, last, vs[j]);
      forall i, j | 0 <= i < j < |pair| ensures pair[i] != pair[j] {
        if pair[i] == pair[j] { PairRuleInjective(key, d, d, last, last, vs[i], vs[j]); }
      }
      forall x | x in PeerRules(key, d, podSet, front, vs) ensures x !in pair {
        PeerRulesMembers(key, d, podSet, front, vs, x);
        var i, j :| 0 <= i < |front| && 0 <= j < |vs| && x == PairRule(key, d, podSet, front[i], vs[j]);
        if k :| 0 <= k < |pair| && pair[k] == x { PairRuleInjective(key, d, d, front[i], last, vs[j], vs[k]); }
      }
      NoDuplicatesConcat(PeerRules(key, d, podSet, front, vs), pair);
    }
  }

  /** Rule i of a compiled side names set i. */
  ghost predicate IndexedSide(key: Key, d: Direction, side: CompiledSide) {
    && side.podTable.name == PodSet(key)
    && forall i :: 0 <= i < |side.rules| ==> IndexedRule(key, d, i, side.rules[i])
  }

  ghost predicate IndexedRule(key: Key, d: Direction, i: nat, rule: CompiledRule) {
    && (rule.hosts.Some? ==> rule.hosts.value.name == PeerHosts(d, i, key))
    && (rule.nets.Some? ==> rule.nets.value.name == PeerNets(d, i, key))
  }

  lemma SpecsRulesSnoc(key: Key, d: Direction, podSet: SetName, rules: seq<CompiledRule>, n: nat)
    requires n < |rules|
    ensures SpecsRules(key, d, podSet, rules[..n + 1]) == SpecsRules(key, d, podSet, rules[..n]) + SpecRules(key, d, podSet, rules[n])
  {
    assert RulesPerSpec(key, d, podSet, rules[..n + 1]) == RulesPerSpec(key, d, podSet, rules[..n]) + [SpecRules(key, d, podSet, rules[n])];
    FlattenSnoc(RulesPerSpec(key, d, podSet, rules[..n]), SpecRules(key, d, podSet, rules[n]));
  }

  lemma EarlierSpecsApart(key: Key, d: Direction, side: CompiledSide, n: nat, x: Rule)
    requires IndexedSide(key, d, side) && n < |side.rules| && x in SpecsRules(key, d, PodSet(key), side.rules[..n])
    ensures x !in SpecRules(key, d, PodSet(key), side.rules[n])
  {
    var front := side.rules[..n];
    SpecsRulesMembers(key, d, PodSet(key), front, x);
    var i :| 0 <= i < |front| && x in SpecRules(key, d, PodSet(key), front[i]);
    assert IndexedRule(key, d, i, side.rules[i]) && IndexedRule(key, d, n, side.rules[n]);
    PeerRulesApart(key, d, i, n, side.rules[i], side.rules[n], x);
  }

  lemma SpecRulesNoDuplicates(key: Key, d: Direction, i: nat, rule: CompiledRule)
    requires IndexedRule(key, d, i, rule)
    ensures NoDuplicates(SpecRules(key, d, PodSet(key), rule))
  {
    PeerRulesNoDuplicates(key, d, PeerNames(rule), Variants(rule.tcpPorts, rule.udpPorts));
  }

  lemma {:induction false} SpecsRulesNoDuplicates(key: Key, d: Direction, side: CompiledSide, n: nat)
    requires IndexedSide(key, d, side) && n <= |side.rules|
    ensures NoDuplicates(SpecsRules(key, d, PodSet(key), side.rules[..n]))
  {
    if n > 0 {
      SpecsRulesNoDuplicates(key, d, side, n - 1);
      SpecsRulesSnoc(key, d, PodSet(key), side.rules, n - 1);
      SpecRulesNoDuplicates(key, d, n - 1, side.rules[n - 1]);
      var a, b := SpecsRules(key, d, PodSet(key), side.rules[..n - 1]), SpecRules(key, d, PodSet(key), side.rules[n - 1]);
      forall x | x in a ensures x !in b { EarlierSpecsApart(key, d, side, n - 1, x); }
      NoDuplicatesConcat(a, b);
    }
  }

  lemma PeerRulesApart(key: Key, d: Direction, i: nat, j: nat, a: CompiledRule, b: CompiledRule, x: Rule)
    requires i != j && IndexedRule(key, d, i, a) && IndexedRule(key, d, j, b)
    requires x in SpecRules(key, d, PodSet(key), a)
    ensures x !in SpecRules(key, d, PodSet(key), b)
  {
    var ps, us := PeerNames(a), Variants(a.tcpPorts, a.udpPorts);
    var qs, vs := PeerNames(b), Variants(b.tcpPorts, b.udpPorts);
    PeerRulesMembers(key, d, PodSet(key), ps, us, x);
    PeerRulesMembers(key, d, PodSet(key), qs, vs, x);
    var m, n :| 0 <= m < |ps| && 0 <= n < |us| && x == PairRule(key, d, PodSet(key), ps[m], us[n]);
    if m', n' :| 0 <= m' < |qs| && 0 <= n' < |vs| && x == PairRule(key, d, PodSet(key), qs[m'], vs[n']) {
      PairRuleInjective(key, d, d, ps[m], qs[m'], us[n], vs[n']);
    }
  }

  lemma CompiledSideIndexed(cluster: Cluster, p: CompiledPolicy, d: Direction)
    requires Compile(cluster, p.np) == Some(p) && p.Side(d).Some?
    ensures IndexedSide(p.np.key, d, p.Side(d).value)
    ensures p.np.Enabled(d) && |p.Side(d).value.rules| == |p.np.Specs(d)|
  {
  }

  /** A compiled chain never repeats a rule, so restoring it keeps every rule in order. */
  lemma ChainRulesNoDuplicates(cluster: Cluster, p: CompiledPolicy)
    requires Compile(cluster, p.np) == Some(p)
    ensures NoDuplicates(ChainRules(p))
  {
    var key := p.np.key;
    assert p.Side(Inbound) == p.ingress && p.Side(Outbound) == p.egress;
    forall d: Direction ensures NoDuplicates(SideRules(key, d, p.Side(d))) {
      if p.Side(d).Some? {
        CompiledSideIndexed(cluster, p, d);
        var side := p.Side(d).value;
        assert side.rules[..|side.rules|] == side.rules;
        SpecsRulesNoDuplicates(key, d, side, |side.rules|);
      }
    }
    var a, b := SideRules(key, Inbound, p.Side(Inbound)), SideRules(key, Outbound, p.Side(Outbound));
    forall x | x in a ensures x !in b {
      if x in b { SidesApart(cluster, p, x); assert false; }
    }
    NoDuplicatesConcat(a, b);
  }

  lemma SidesApart(cluster: Cluster, p: CompiledPolicy, x: Rule)
    requires Compile(cluster, p.np) == Some(p)
    ensures x !in SideRules(p.np.key, Inbound, p.ingress) || x !in SideRules(p.np.key, Outbound, p.egress)
  {
    var key := p.np.key;
    if x in SideRules(key, Inbound, p.ingress) && x in SideRules(key, Outbound, p.egress) {
      var i, peer, v := SideRuleShape(cluster, p, Inbound, x);
      var j, qeer, u := SideRuleShape(cluster, p, Outbound, x);
      PairRuleInjective(key, Inbound, Outbound, peer, qeer, v, u);
    }
  }

  lemma SideRuleShape(cluster: Cluster, p: CompiledPolicy, d: Direction, x: Rule) returns (i: nat, peer: SetName, v: Variant)
    requires Compile(cluster, p.np) == Some(p) && x in SideRules(p.np.key, d, p.Side(d))
    ensures ChainRuleAt(p, d, i, peer, v, x) && !peer.PodSet?
  {
    CompiledSideIndexed(cluster, p, d);
    i, peer, v := SideRuleAt(p, d, x);
    assert IndexedRule(p.np.key, d, i, p.Side(d).value.rules[i]);
  }

  /** The rules of a compiled chain are ACCEPT rules that name only the policy's own tables. */
  lemma ChainRulesRefer(cluster: Cluster, p: CompiledPolicy, r: Rule)
    requires Compile(cluster, p.np) == Some(p) && r in ChainRules(p)
    ensures r.target == Accept
    ensures forall i :: 0 <= i < |r.matches| && r.matches[i].InSet? ==>
      exists table :: TableOf(cluster, p.np, table) && table.name == r.matches[i].name
  {
    assert p.Side(Inbound) == p.ingress && p.Side(Outbound) == p.egress;
    var d := if r in SideRules(p.np.key, Inbound, p.ingress) then Inbound else Outbound;
    var i, peer, v := SideRuleAt(p, d, r);
    var side := p.Side(d).value;
    var table := PeerTableNamed(side.rules[i], peer);
    assert SideHas(p.Side(d), table) && SideHas(p.Side(d), side.podTable);
    SideHasSpec(cluster, p, d, table);
    SideHasSpec(cluster, p, d, side.podTable);
    SetRuleNames(p.np.key, d, side.podTable.name, peer, v);
  }

  lemma PeerTableNamed(rule: CompiledRule, peer: SetName) returns (table: IpsetTable)
    requires peer in PeerNames(rule)
    ensures table in RuleTables(rule) && table.name == peer
  {
    var ts := RuleTables(rule);
    var i :| 0 <= i < |PeerNames(rule)| && PeerNames(rule)[i] == peer;
    table := ts[i];
  }

  lemma SetRuleNames(key: Key, d: Direction, podSet: SetName, peer: SetName, v: Variant)
    ensures
      var r := PairRule(key, d, podSet, peer, v);
      && r.target == Accept
      && forall i :: 0 <= i < |r.matches| && r.matches[i].InSet? ==> r.matches[i].name == podSet || r.matches[i].name == peer
  {
    var r := PairRule(key, d, podSet, peer, v);
    var src, dst := if d.Inbound? then peer else podSet, if d.Inbound? then podSet else peer;
    assert r == SetRule(key, v, src, dst);
    SetRuleMatches(key, v, src, dst);
  }

  lemma SetRuleMatches(key: Key, v: Variant, src: SetName, dst: SetName)
    ensures
      var r := SetRule(key, v, src, dst);
      && |r.matches| == (if v.AnyPort? then 4 else 5)
      && r.matches[0] == Comment(key) && r.matches[1].Proto? && r.matches[2] == InSet(src, Src) && r.matches[3] == InSet(dst, Dst)
      && (|r.matches| == 5 ==> r.matches[4].DstPorts?)
  {
  }

  // ---- The loops of policy.go ----

  method InitIPSetMap(policies: seq<CompiledPolicy>) returns (m: map<SetName, IpsetTable>)
    ensures m == IPSetMap(policies)
  {
    m := map[];
    for i := 0 to |policies|
      invariant m == IPSetMap(policies[..i])
    {
      assert TablesPerPolicy(policies[..i + 1]) == TablesPerPolicy(policies[..i]) + [PolicyTables(policies[i])];
      FlattenSnoc(TablesPerPolicy(policies[..i]), PolicyTables(policies[i]));
      m := AddSide(m, policies[i].ingress);
      m := AddSide(m, policies[i].egress);
      RegisterConcat(map[], AllTables(policies[..i]), PolicyTables(policies[i]));
      RegisterConcat(IPSetMap(policies[..i]), SideTables(policies[i].ingress), SideTables(policies[i].egress));
    }
    assert policies[..|policies|] == policies;
  }

  method AddSide(before: map<SetName, IpsetTable>, side: Option<CompiledSide>) returns (m: map<SetName, IpsetTable>)
    ensures m == Register(before, SideTables(side))
  {
    m := before;
    if side.Some? {
      var pod := side.value.podTable;
      m := m[pod.name := pod];
      for i := 0 to |side.value.rules|
        invariant m == Register(before[pod.name := pod], Flatten(TablesPerRule(side.value.rules[..i])))
      {
        var rule := side.value.rules[i];
        assert TablesPerRule(side.value.rules[..i + 1]) == TablesPerRule(side.value.rules[..i]) + [RuleTables(rule)];
        FlattenSnoc(TablesPerRule(side.value.rules[..i]), RuleTables(rule));
        RegisterConcat(before[pod.name := pod], Flatten(TablesPerRule(side.value.rules[..i])), RuleTables(rule));
        RegisterRule(m, rule);
        if rule.hosts.Some? { m := m[rule.hosts.value.name := rule.hosts.value]; }
        if rule.nets.Some? { m := m[rule.nets.value.name := rule.nets.value]; }
      }
      assert side.value.rules[..|side.value.rules|] == side.value.rules;
      assert SideTables(side)[1..] == Flatten(TablesPerRule(side.value.rules));
    }
  }

  lemma RegisterRule(m: map<SetName, IpsetTable>, rule: CompiledRule)
    ensures
      var m1 := if rule.hosts.Some? then m[rule.hosts.value.name := rule.hosts.value] else m;
      Register(m, RuleTables(rule)) == if rule.nets.Some? then m1[rule.nets.value.name := rule.nets.value] else m1
  {
    var ts := RuleTables(rule);
    if |ts| == 2 {
      assert ts[1..] == [ts[1]];
      assert Register(m, ts) == Register(m[ts[0].name := ts[0]], [ts[1]]);
    }
  }

  /** The rules between one source set and one destination set. */
  method WritePairRules(key: Key, src: SetName, dst: SetName, tcpPorts: seq<string>, udpPorts: seq<string>)
    returns (rules: seq<Rule>)
    ensures rules == PairRules(key, src, dst, Variants(tcpPorts, udpPorts))
  {
    rules := [];
    if |tcpPorts| > 0 { rules := rules + [SetRule(key, OnTcp(tcpPorts), src, dst)]; }
    if |udpPorts| > 0 { rules := rules + [SetRule(key, OnUdp(udpPorts), src, dst)]; }
    if |tcpPorts| == 0 && |udpPorts| == 0 { rules := rules + [SetRule(key, AnyPort, src, dst)]; }
  }

  method WritePolicyChainRules(key: Key, srcs: seq<SetName>, dsts: seq<SetName>, tcpPorts: seq<string>, udpPorts: seq<string>)
    returns (rules: seq<Rule>)
    ensures rules == CrossRules(key, srcs, dsts, Variants(tcpPorts, udpPorts))
    ensures forall r :: r in rules <==> FromPair(key, srcs, dsts, tcpPorts, udpPorts, r)
  {
    forall r ensures r in CrossRules(key, srcs, dsts, Variants(tcpPorts, udpPorts)) <==> FromPair(key, srcs, dsts, tcpPorts, udpPorts, r) {
      CrossMembers(key, srcs, dsts, tcpPorts, udpPorts, r);
    }
    rules := [];
    ghost var vs := Variants(tcpPorts, udpPorts);
    for i := 0 to |srcs|
      invariant rules == CrossRules(key, srcs[..i], dsts, vs)
    {
      assert srcs[..i + 1][..i] == srcs[..i];
      ghost var before := rules;
      for j := 0 to |dsts|
        invariant rules == before + RowRules(key, srcs[i], dsts[..j], vs)
      {
        assert dsts[..j + 1][..j] == dsts[..j];
        var more := WritePairRules(key, srcs[i], dsts[j], tcpPorts, udpPorts);
        rules := rules + more;
      }
      assert dsts[..|dsts|] == dsts;
    }
    assert srcs[..|srcs|] == srcs;
  }

  /** The rules of one spec: its peer tables against the pod table, on the sides the direction says. */
  method WriteSpecRules(key: Key, d: Direction, podSet: SetName, rule: CompiledRule) returns (rules: seq<Rule>)
    ensures rules == SpecRules(key, d, podSet, rule)
  {
    var names: seq<SetName> := [];
    if rule.hosts.Some? { names := names + [rule.hosts.value.name]; }
    if rule.nets.Some? { names := names + [rule.nets.value.name]; }
    assert names == PeerNames(rule);
    if d.Inbound? {
      rules := WritePolicyChainRules(key, names, [podSet], rule.tcpPorts, rule.udpPorts);
    } else {
      rules := WritePolicyChainRules(key, [podSet], names, rule.tcpPorts, rule.udpPorts);
    }
  }

  method WriteSideRules(key: Key, d: Direction, side: Option<CompiledSide>) returns (rules: seq<Rule>)
    ensures rules == SideRules(key, d, side)
  {
    rules := [];
    if side.Some? {
      var podSet := side.value.podTable.name;
      for i := 0 to |side.value.rules|
        invariant rules == SpecsRules(key, d, podSet, side.value.rules[..i])
      {
        var rule := side.value.rules[i];
        SpecsRulesSnoc(key, d, podSet, side.value.rules, i);
        var more := WriteSpecRules(key, d, podSet, rule);
        rules := rules + more;
      }
      assert side.value.rules[..|side.value.rules|] == side.value.rules;
    }
  }

  function PolicyChainNames(ps: seq<CompiledPolicy>): seq<Chain> {
    seq(|ps|, i requires 0 <= i < |ps| => PolicyChain(ps[i].np.key))
  }

  function PolicyChainContents(ps: seq<CompiledPolicy>): seq<seq<Rule>> {
    seq(|ps|, i requires 0 <= i < |ps| => ChainRules(ps[i]))
  }

  lemma {:induction false} FillAllSnoc<C, R>(cs: seq<C>, contents: seq<seq<R>>, c: C, rules: seq<R>)
    requires |cs| == |contents|
    ensures FillAll(cs + [c], contents + [rules]) == FillAll(cs, contents) + Fills(c, rules)
  {
    if cs == [] {
      assert (cs + [c])[1..] == [] && (contents + [rules])[1..] == [];
    } else {
      assert (cs + [c])[1..] == cs[1..] + [c] && (contents + [rules])[1..] == contents[1..] + [rules];
      FillAllSnoc(cs[1..], contents[1..], c, rules);
    }
  }

  lemma FillsConcat<C, R>(c: C, a: seq<R>, b: seq<R>)
    ensures Fills(c, a + b) == Fills(c, a) + Fills(c, b)
  {
  }

  lemma DeclaresSnoc<C, R>(cs: seq<C>, c: C)
    ensures Declares<C, R>(cs + [c]) == Declares<C, R>(cs) + [Declare(c)]
  {
  }

  /** The rule lines of one policy: ingress first, then egress. */
  method WriteChain(p: CompiledPolicy) returns (lines: seq<Directive<Chain, Rule>>)
    ensures lines == Fills(PolicyChain(p.np.key), ChainRules(p))
  {
    var chain := PolicyChain(p.np.key);
    var inRules := WriteSideRules(p.np.key, Inbound, p.ingress);
    var outRules := WriteSideRules(p.np.key, Outbound, p.egress);
    lines := Fills(chain, inRules) + Fills(chain, outRules);
    FillsConcat(chain, inRules, outRules);
  }

  /** writeRules: the chain lines, the active chains and the rule lines. */
  method WriteRules(policies: seq<CompiledPolicy>)
    returns (chainLines: seq<Directive<Chain, Rule>>, active: set<Chain>, ruleLines: seq<Directive<Chain, Rule>>)
    ensures chainLines == Declares(PolicyChainNames(policies))
    ensures forall c :: c in active <==> c in PolicyChainNames(policies)
    ensures ruleLines == FillAll(PolicyChainNames(policies), PolicyChainContents(policies))
  {
    chainLines, active, ruleLines := [], {}, [];
    for i := 0 to |policies|
      invariant chainLines == Declares(PolicyChainNames(policies[..i]))
      invariant forall c :: c in active <==> c in PolicyChainNames(policies[..i])
      invariant ruleLines == FillAll(PolicyChainNames(policies[..i]), PolicyChainContents(policies[..i]))
    {
      var chain := PolicyChain(policies[i].np.key);
      LinesSnoc(policies, i);
      chainLines := chainLines + [Declare(chain)];
      active := active + {chain};
      var lines := WriteChain(policies[i]);
      ruleLines := ruleLines + lines;
    }
    assert policies[..|policies|] == policies;
  }

  /** One more policy adds one chain line and its rule lines. */
  lemma LinesSnoc(ps: seq<CompiledPolicy>, i: nat)
    requires i < |ps|
    ensures
      var a, b := ps[..i], ps[..i + 1];
      var chain := PolicyChain(ps[i].np.key);
      && PolicyChainNames(b) == PolicyChainNames(a) + [chain]
      && Declares<Chain, Rule>(PolicyChainNames(b)) == Declares<Chain, Rule>(PolicyChainNames(a)) + [Declare(chain)]
      && FillAll(PolicyChainNames(b), PolicyChainContents(b)) == FillAll(PolicyChainNames(a), PolicyChainContents(a)) + Fills(chain, ChainRules(ps[i]))
  {
    var a, b := ps[..i], ps[..i + 1];
    var chain := PolicyChain(ps[i].np.key);
    assert PolicyChainNames(b) == PolicyChainNames(a) + [chain];
    assert PolicyChainContents(b) == PolicyChainContents(a) + [ChainRules(ps[i])];
    DeclaresSnoc<Chain, Rule>(PolicyChainNames(a), chain);
    FillAllSnoc(PolicyChainNames(a), PolicyChainContents(a), chain, ChainRules(ps[i]));
  }

  /** writeChains: the existing policy chains that are not active, in any order. */
  method WriteChains(existing: set<Chain>, active: set<Chain>) returns (stale: seq<Chain>)
    ensures NoDuplicates(stale)
    ensures forall c :: c in stale <==> c in existing && c.PolicyChain? && c !in active
  {
    stale := [];
    var todo := existing;
    while todo != {}
      invariant todo <= existing
      invariant NoDuplicates(stale)
      invariant forall c :: c in stale <==> c in existing - todo && c.PolicyChain? && c !in active
      decreases |todo|
    {
      var c :| c in todo;
      todo := todo - {c};
      if c !in active && c.PolicyChain? {
        stale := stale + [c];
      }
    }
  }

  // ---- What syncIptables leaves behind ----

  function PolicyContents(ps: seq<CompiledPolicy>): Chains {
    if ps == [] then map[]
    else
      var last := ps[|ps| - 1];
      PolicyContents(ps[..|ps| - 1])[PolicyChain(last.np.key) := ChainRules(last)]
  }

  lemma {:induction false} PolicyContentsSpec(ps: seq<CompiledPolicy>)
    requires DistinctPolicies(ps)
    ensures forall c :: c in PolicyContents(ps) <==> c in PolicyChainNames(ps)
    ensures forall i :: 0 <= i < |ps| ==>
      PolicyChain(ps[i].np.key) in PolicyContents(ps) && PolicyContents(ps)[PolicyChain(ps[i].np.key)] == ChainRules(ps[i])
  {
    if ps != [] {
      var front, last := ps[..|ps| - 1], ps[|ps| - 1];
      PolicyContentsSpec(front);
      assert PolicyChainNames(ps) == PolicyChainNames(front) + [PolicyChain(last.np.key)];
      forall i | 0 <= i < |ps|
        ensures PolicyChain(ps[i].np.key) in PolicyContents(ps) && PolicyContents(ps)[PolicyChain(ps[i].np.key)] == ChainRules(ps[i])
      {
        if i < |front| { assert front[i] == ps[i]; }
      }
    }
  }

  /** Every policy chain is replaced by the compiled ones; everything else stays. */
  function SyncedChains(t: Chains, ps: seq<CompiledPolicy>): Chains {
    (map c | c in t && !c.PolicyChain? :: t[c]) + PolicyContents(ps)
  }

  /**
   * Restoring what syncIptables writes leaves every policy's chain with exactly its compiled rules
   * in order, removes every other policy chain and leaves all other chains as they were,
   * in whatever order the stale chains are listed.
   */
  lemma SyncIptablesRestores(cluster: Cluster, t: Chains, ps: seq<CompiledPolicy>, stale: seq<Chain>)
    requires CompiledFrom(cluster, ps)
    requires NoDuplicates(stale)
    requires forall c :: c in stale <==> c in t && c.PolicyChain? && c !in PolicyChainNames(ps)
    ensures
      var lines := Rewrite(PolicyChainNames(ps), PolicyChainContents(ps), stale);
      Restore(t, BUILTIN, lines, lines) == Restored(SyncedChains(t, ps), true)
  {
    var names, contents := PolicyChainNames(ps), PolicyChainContents(ps);
    forall i | 0 <= i < |ps| ensures NoDuplicates(contents[i]) { ChainRulesNoDuplicates(cluster, ps[i]); }
    assert forall c :: c in names || c in stale ==> c.PolicyChain?;
    RestoreRewrite(t, BUILTIN, names, contents, stale);
    var lines := Rewrite(names, contents, stale);
    SyncedChainsUnique(t, ps, Restore(t, BUILTIN, lines, lines).table, names, contents);
  }

  lemma SyncedChainsUnique(t: Chains, ps: seq<CompiledPolicy>, u: Chains, names: seq<Chain>, contents: seq<seq<Rule>>)
    requires DistinctPolicies(ps) && names == PolicyChainNames(ps) && contents == PolicyChainContents(ps)
    requires forall c :: c in u <==> (c in t && !c.PolicyChain?) || c in names
    requires forall i :: 0 <= i < |names| ==> u[names[i]] == contents[i]
    requires forall c :: c in t && !c.PolicyChain? ==> u[c] == t[c]
    ensures u == SyncedChains(t, ps)
  {
    PolicyContentsSpec(ps);
    var w := SyncedChains(t, ps);
    assert forall c :: c in u <==> c in w;
    forall c | c in u ensures u[c] == w[c] {
      if c in names {
        var i :| 0 <= i < |names| && names[i] == c;
        assert contents[i] == PolicyContents(ps)[c];
      }
    }
  }
}
