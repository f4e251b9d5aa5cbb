/**
 * NetworkPolicy objects and their compilation into ipset tables and rules: ingressOrEgress, rulePorts,
 * peerTable, peerRule and policyResult of pkg/policy/policy.go.  Label selectors are abstract
 * predicates; listers are the finite population of a `Cluster`.
 */
module NetworkPolicies {
  import opened Sequences
  import opened PacketFilter

  type Labels = map<string, string>

  /** `BadSelector` is one that does not convert to a selector. */
  datatype Selector = BadSelector | Selector(accepts: Labels -> bool)

  datatype Pod = Pod(key: Key, labels: Labels, ip: Option<Addr>, local: bool)

  datatype Namespace = Namespace(name: string, labels: Labels)

  /** A network that does not parse is None. */
  datatype IPBlock = IPBlock(cidr: Option<Prefix>, except: seq<Option<Prefix>>)

  datatype Peer = Peer(podSelector: Option<Selector>, namespaceSelector: Option<Selector>, ipBlock: Option<IPBlock>)

  datatype PolicyPort = PolicyPort(protocol: Option<Protocol>, port: Option<string>)

  datatype PeerSpec = PeerSpec(ports: seq<PolicyPort>, peers: seq<Peer>)

  datatype PolicyType = IngressType | EgressType | UnknownType

  datatype NetworkPolicy = NetworkPolicy(
    key: Key, podSelector: Selector, ingress: seq<PeerSpec>, egress: seq<PeerSpec>, policyTypes: seq<PolicyType>)
  {
    function Specs(d: Direction): seq<PeerSpec> {
      if d.Inbound? then ingress else egress
    }

    /** The direction is listed, or, when nothing known is listed, it is ingress or has egress rules. */
    predicate Enabled(d: Direction) {
      var neither := IngressType !in policyTypes && EgressType !in policyTypes;
      if d.Inbound? then IngressType in policyTypes || neither
      else EgressType in policyTypes || (neither && egress != [])
    }
  }

  datatype Cluster = Cluster(pods: seq<Pod>, namespaces: seq<Namespace>, policies: seq<NetworkPolicy>)

  // ---- Compiled form ----

  datatype IpsetTable = IpsetTable(name: SetName, entries: seq<Entry>)

  datatype CompiledRule = CompiledRule(
    hosts: Option<IpsetTable>, nets: Option<IpsetTable>, tcpPorts: seq<string>, udpPorts: seq<string>)

  /** ingressRule or egressRule: the selected pods' table and one rule per spec. */
  datatype CompiledSide = CompiledSide(podTable: IpsetTable, rules: seq<CompiledRule>)

  datatype CompiledPolicy = CompiledPolicy(np: NetworkPolicy, ingress: Option<CompiledSide>, egress: Option<CompiledSide>) {
    function Side(d: Direction): Option<CompiledSide> {
      if d.Inbound? then ingress else egress
    }
  }

  // ---- Listers ----

  predicate InScope(pod: Pod, namespace: Option<string>) {
    namespace.Some? ==> pod.key.namespace == namespace.value
  }

  function ListPods(pods: seq<Pod>, namespace: Option<string>, accepts: Labels -> bool): seq<Pod> {
    if pods == [] then []
    else
      var last := pods[|pods| - 1];
      var front := ListPods(pods[..|pods| - 1], namespace, accepts);
      if InScope(last, namespace) && accepts(last.labels) then front + [last] else front
  }

  lemma {:induction false} ListPodsMembers(pods: seq<Pod>, namespace: Option<string>, accepts: Labels -> bool, pod: Pod)
    ensures pod in ListPods(pods, namespace, accepts) <==> pod in pods && InScope(pod, namespace) && accepts(pod.labels)
  {
    if pods != [] {
      ListPodsMembers(pods[..|pods| - 1], namespace, accepts, pod);
      assert pods == pods[..|pods| - 1] + [pods[|pods| - 1]];
    }
  }

  /** The namespaces a selector picks, by name. */
  function ListNamespaces(namespaces: seq<Namespace>, accepts: Labels -> bool): seq<string> {
    if namespaces == [] then []
    else
      var last := namespaces[|namespaces| - 1];
      var front := ListNamespaces(namespaces[..|namespaces| - 1], accepts);
      if accepts(last.labels) then front + [last.name] else front
  }

  /** Some namespace of that name has labels that the selector accepts. */
  predicate NamespaceAccepted(namespaces: seq<Namespace>, accepts: Labels -> bool, name: string) {
    exists i :: 0 <= i < |namespaces| && namespaces[i].name == name && accepts(namespaces[i].labels)
  }

  /** Exactly the names of accepted namespaces are listed. */
  lemma {:induction false} ListNamespacesMembers(namespaces: seq<Namespace>, accepts: Labels -> bool, name: string)
    ensures name in ListNamespaces(namespaces, accepts) <==> exists n :: n in namespaces && n.name == name && accepts(n.labels)
    ensures name in ListNamespaces(namespaces, accepts) <==> NamespaceAccepted(namespaces, accepts, name)
  {
    if namespaces != [] {
      var front := namespaces[..|namespaces| - 1];
      assert namespaces == front + [namespaces[|namespaces| - 1]];
      ListNamespacesMembers(front, accepts, name);
      if i :| 0 <= i < |front| && front[i].name == name && accepts(front[i].labels) { assert namespaces[i] == front[i]; }
    }
  }

  function PodsOfNamespaces(pods: seq<Pod>, names: seq<string>): seq<Pod> {
    if names == [] then []
    else PodsOfNamespaces(pods, names[..|names| - 1]) + ListPods(pods, Some(names[|names| - 1]), AnyLabels)
  }

  function AnyLabels(labels: Labels): bool { true }

  lemma {:induction false} PodsOfNamespacesMembers(pods: seq<Pod>, names: seq<string>, pod: Pod)
    ensures pod in PodsOfNamespaces(pods, names) <==> pod in pods && pod.key.namespace in names
  {
    if names != [] {
      PodsOfNamespacesMembers(pods, names[..|names| - 1], pod);
      ListPodsMembers(pods, Some(names[|names| - 1]), AnyLabels, pod);
      assert names == names[..|names| - 1] + [names[|names| - 1]];
    }
  }

  // ---- Peers ----

  /** Entries of the pods that have an address, in lister order. */
  function HostEntries(pods: seq<Pod>): seq<Entry> {
    if pods == [] then []
    else
      var last := pods[|pods| - 1];
      HostEntries(pods[..|pods| - 1]) + if last.ip.Some? then [Host(last.ip.value)] else []
  }

  lemma {:induction false} HostEntriesMembers(pods: seq<Pod>, e: Entry)
    ensures e in HostEntries(pods) <==> exists i :: 0 <= i < |pods| && pods[i].ip.Some? && e == Host(pods[i].ip.value)
  {
    if pods != [] {
      var front := pods[..|pods| - 1];
      HostEntriesMembers(front, e);
      if e in HostEntries(front) {
        var i :| 0 <= i < |front| && front[i].ip.Some? && e == Host(front[i].ip.value);
        assert pods[i] == front[i];
      }
      if i :| 0 <= i < |pods| && pods[i].ip.Some? && e == Host(pods[i].ip.value) {
        if i < |front| { assert front[i] == pods[i]; }
      }
    }
  }

  /** Some pod of an accepted namespace has the address of `e`. */
  ghost predicate InAcceptedNamespace(cluster: Cluster, accepts: Labels -> bool, e: Entry) {
    exists pod, n ::
      && pod in cluster.pods && pod.ip.Some? && e == Host(pod.ip.value)
      && n in cluster.namespaces && n.name == pod.key.namespace && accepts(n.labels)
  }

  lemma NamespaceEntries(cluster: Cluster, accepts: Labels -> bool, e: Entry)
    ensures e in HostEntries(PodsOfNamespaces(cluster.pods, ListNamespaces(cluster.namespaces, accepts))) <==>
      InAcceptedNamespace(cluster, accepts, e)
  {
    var names := ListNamespaces(cluster.namespaces, accepts);
    var listed := PodsOfNamespaces(cluster.pods, names);
    HostEntriesMembers(listed, e);
    if i :| 0 <= i < |listed| && listed[i].ip.Some? && e == Host(listed[i].ip.value) {
      PodsOfNamespacesMembers(cluster.pods, names, listed[i]);
      ListNamespacesMembers(cluster.namespaces, accepts, listed[i].key.namespace);
    }
    if pod, n :| (
      && pod in cluster.pods && pod.ip.Some? && e == Host(pod.ip.value)
      && n in cluster.namespaces && n.name == pod.key.namespace && accepts(n.labels)) {
      PodsOfNamespacesMembers(cluster.pods, names, pod);
      ListNamespacesMembers(cluster.namespaces, accepts, pod.key.namespace);
      var i :| 0 <= i < |listed| && listed[i] == pod;
    }
  }

  datatype PeerTable = Hosts(entries: seq<Entry>) | Nets(entries: seq<Entry>)

  /** The first entry is the block, then one nomatch entry per exception. */
  function BlockTable(block: IPBlock): Option<seq<Entry>> {
    if block.cidr.None? then None else ExceptEntries([Net(block.cidr.value, false)], block.except)
  }

  function ExceptEntries(start: seq<Entry>, except: seq<Option<Prefix>>): Option<seq<Entry>>
    decreases |except|
  {
    if except == [] then Some(start)
    else if except[0].None? then None
    else ExceptEntries(start + [Net(except[0].value, true)], except[1..])
  }

  /** peerTable: the pod selector wins over the namespace selector, which wins over the block. */
  function PeerTableOf(cluster: Cluster, peer: Peer): Option<PeerTable> {
    if peer.podSelector.Some? then
      if peer.podSelector.value.BadSelector? then None
      else Some(Hosts(HostEntries(ListPods(cluster.pods, None, peer.podSelector.value.accepts))))
    else if peer.namespaceSelector.Some? then
      if peer.namespaceSelector.value.BadSelector? then None
      else
        var names := ListNamespaces(cluster.namespaces, peer.namespaceSelector.value.accepts);
        Some(Hosts(HostEntries(PodsOfNamespaces(cluster.pods, names))))
    else if peer.ipBlock.Some? then
      var entries := BlockTable(peer.ipBlock.value);
      if entries.None? then None else Some(Nets(entries.value))
    else None
  }

  function Extend(acc: Option<seq<Entry>>, more: seq<Entry>): Option<seq<Entry>> {
    Some(if acc.Some? then acc.value + more else more)
  }

  /** All host entries of the peers, or None when no peer yields a host table. */
  function HostsOf(cluster: Cluster, peers: seq<Peer>): Option<seq<Entry>> {
    if peers == [] then None
    else
      var front := HostsOf(cluster, peers[..|peers| - 1]);
      var table := PeerTableOf(cluster, peers[|peers| - 1]);
      if table.Some? && table.value.Hosts? then Extend(front, table.value.entries) else front
  }

  function NetsOf(cluster: Cluster, peers: seq<Peer>): Option<seq<Entry>> {
    if peers == [] then None
    else
      var front := NetsOf(cluster, peers[..|peers| - 1]);
      var table := PeerTableOf(cluster, peers[|peers| - 1]);
      if table.Some? && table.value.Nets? then Extend(front, table.value.entries) else front
  }

  /** Ports with no number are dropped, and every protocol other than TCP counts as UDP. */
  function PortsOf(ports: seq<PolicyPort>, tcp: bool): seq<string> {
    if ports == [] then []
    else
      var last := ports[|ports| - 1];
      PortsOf(ports[..|ports| - 1], tcp) + if last.port.Some? && IsTcp(last) == tcp then [last.port.value] else []
  }

  /** Without a protocol a port is a TCP port. */
  predicate IsTcp(port: PolicyPort) {
    port.protocol.None? || port.protocol == Some(Tcp)
  }

  /** The list has exactly the ports of the entries of its kind that have one; TCP is what says so or says nothing. */
  lemma {:induction false} PortsOfMembers(ports: seq<PolicyPort>, tcp: bool, x: string)
    ensures x in PortsOf(ports, tcp) <==>
      exists i :: 0 <= i < |ports| && ports[i].port == Some(x) && (ports[i].protocol == None || ports[i].protocol == Some(Tcp)) == tcp
    decreases |ports|
  {
    if ports != [] {
      var front := ports[..|ports| - 1];
      PortsOfMembers(front, tcp, x);
      if i :| 0 <= i < |front| && front[i].port == Some(x) && IsTcp(front[i]) == tcp { assert ports[i] == front[i]; }
      if i :| 0 <= i < |ports| && ports[i].port == Some(x) && IsTcp(ports[i]) == tcp {
        if i < |front| { assert front[i] == ports[i]; }
      }
    }
  }

  /** The ports come in the order of their entries. */
  lemma {:induction false} PortsInOrder(ports: seq<PolicyPort>, more: seq<PolicyPort>, tcp: bool)
    ensures PortsOf(ports + more, tcp) == PortsOf(ports, tcp) + PortsOf(more, tcp)
    decreases |more|
  {
    if more == [] {
      assert ports + more == ports;
    } else {
      var n := |more| - 1;
      assert (ports + more)[..|ports + more| - 1] == ports + more[..n];
      PortsInOrder(ports, more[..n], tcp);
    }
  }

  /** Both lists are empty exactly when no entry has a port. */
  lemma {:induction false} NoPorts(ports: seq<PolicyPort>)
    ensures PortsOf(ports, true) == [] && PortsOf(ports, false) == [] <==> forall i :: 0 <= i < |ports| ==> ports[i].port.None?
    decreases |ports|
  {
    if ports != [] {
      var front := ports[..|ports| - 1];
      NoPorts(front);
      assert forall i :: 0 <= i < |front| ==> front[i] == ports[i];
    }
  }

  // ---- Policies ----

  function Named(name: SetName, entries: Option<seq<Entry>>): Option<IpsetTable> {
    if entries.None? then None else Some(IpsetTable(name, entries.value))
  }

  function CompileRule(cluster: Cluster, key: Key, d: Direction, index: nat, spec: PeerSpec): CompiledRule {
    CompiledRule(
      Named(PeerHosts(d, index, key), HostsOf(cluster, spec.peers)),
      Named(PeerNets(d, index, key), NetsOf(cluster, spec.peers)),
      PortsOf(spec.ports, true), PortsOf(spec.ports, false))
  }

  function CompileSide(cluster: Cluster, np: NetworkPolicy, d: Direction, podTable: IpsetTable): Option<CompiledSide> {
    if !np.Enabled(d) then None
    else Some(CompiledSide(podTable,
      seq(|np.Specs(d)|, i requires 0 <= i < |np.Specs(d)| => CompileRule(cluster, np.key, d, i, np.Specs(d)[i]))))
  }

  /** policyResult; None when the policy's own selector is bad. */
  function Compile(cluster: Cluster, np: NetworkPolicy): Option<CompiledPolicy> {
    if np.podSelector.BadSelector? then None
    else
      var selected := ListPods(cluster.pods, Some(np.key.namespace), np.podSelector.accepts);
      var podTable := IpsetTable(PodSet(np.key), HostEntries(selected));
      Some(CompiledPolicy(np, CompileSide(cluster, np, Inbound, podTable), CompileSide(cluster, np, Outbound, podTable)))
  }

  /** syncNetworkPolices: policies that do not compile are skipped. */
  function CompileAll(cluster: Cluster, nps: seq<NetworkPolicy>): seq<CompiledPolicy> {
    if nps == [] then []
    else
      var front := CompileAll(cluster, nps[..|nps| - 1]);
      var last := Compile(cluster, nps[|nps| - 1]);
      if last.None? then front else front + [last.value]
  }

  /** Exactly the policies with a good selector are compiled, in order, and each is enabled somewhere. */
  lemma {:induction false} CompileAllMembers(cluster: Cluster, nps: seq<NetworkPolicy>, i: nat)
    requires i < |CompileAll(cluster, nps)|
    ensures
      var p := CompileAll(cluster, nps)[i];
      && p.np in nps && Compile(cluster, p.np) == Some(p)
      && (p.ingress.Some? || p.egress.Some?)
  {
    if nps != [] {
      assert nps == nps[..|nps| - 1] + [nps[|nps| - 1]];
      var front := nps[..|nps| - 1];
      if i < |CompileAll(cluster, front)| { CompileAllMembers(cluster, front, i); }
    }
  }

  lemma {:induction false} CompileAllCovers(cluster: Cluster, nps: seq<NetworkPolicy>, np: NetworkPolicy)
    requires np in nps && np.podSelector.Selector?
    ensures exists i :: 0 <= i < |CompileAll(cluster, nps)| && CompileAll(cluster, nps)[i].np == np
  {
    var front := nps[..|nps| - 1];
    assert nps == front + [nps[|nps| - 1]];
    if np in front {
      CompileAllCovers(cluster, front, np);
      var i :| 0 <= i < |CompileAll(cluster, front)| && CompileAll(cluster, front)[i].np == np;
      assert CompileAll(cluster, nps)[i].np == np;
    } else {
      var n := |CompileAll(cluster, nps)|;
      assert CompileAll(cluster, nps)[n - 1].np == np;
    }
  }

  ghost predicate DistinctKeys(nps: seq<NetworkPolicy>) {
    forall i, j :: 0 <= i < j < |nps| ==> nps[i].key != nps[j].key
  }

  ghost predicate DistinctPolicies(ps: seq<CompiledPolicy>) {
    forall i, j :: 0 <= i < j < |ps| ==> ps[i].np.key != ps[j].np.key
  }

  lemma {:induction false} CompileAllDistinct(cluster: Cluster, nps: seq<NetworkPolicy>)
    requires DistinctKeys(nps)
    ensures DistinctPolicies(CompileAll(cluster, nps))
  {
    if nps != [] {
      var front := nps[..|nps| - 1];
      CompileAllDistinct(cluster, front);
      var ps := CompileAll(cluster, front);
      forall i | 0 <= i < |ps| ensures ps[i].np.key != nps[|nps| - 1].key {
        CompileAllMembers(cluster, front, i);
      }
    }
  }

  // ---- Panics ----

  /** getNamespaces calls a method of the missing selector when a namespace selector does not convert. */
  predicate PeerPanics(peer: Peer) {
    peer.podSelector.None? && peer.namespaceSelector.Some? && peer.namespaceSelector.value.BadSelector?
  }

  predicate SpecPanics(spec: PeerSpec) {
    exists j :: 0 <= j < |spec.peers| && PeerPanics(spec.peers[j])
  }

  predicate SidePanics(np: NetworkPolicy, d: Direction) {
    exists i :: 0 <= i < |np.Specs(d)| && SpecPanics(np.Specs(d)[i])
  }

  /** policyResult looks at the peers of the enabled directions, unless the policy's own selector is bad. */
  predicate CompilePanics(np: NetworkPolicy) {
    np.podSelector.Selector? && exists d: Direction :: np.Enabled(d) && SidePanics(np, d)
  }

  predicate AnyPanics(nps: seq<NetworkPolicy>) {
    exists i :: 0 <= i < |nps| && CompilePanics(nps[i])
  }

  /** Peer j of rule i has no pod selector and a namespace selector that does not convert. */
  ghost predicate BadNamespaceAt(np: NetworkPolicy, d: Direction, i: int, j: int) {
    && 0 <= i < |np.Specs(d)| && 0 <= j < |np.Specs(d)[i].peers|
    && np.Specs(d)[i].peers[j].podSelector == None && np.Specs(d)[i].peers[j].namespaceSelector == Some(BadSelector)
  }

  /** By the policy types and the egress rules alone, the policy is one for ingress, or for egress. */
  ghost predicate IsFor(np: NetworkPolicy, d: Direction) {
    match d
    case Inbound => IngressType in np.policyTypes || EgressType !in np.policyTypes
    case Outbound => EgressType in np.policyTypes || (IngressType !in np.policyTypes && np.egress != [])
  }

  /** The policy's own selector converts, and such a peer stands in a direction that the policy is for. */
  ghost predicate Panicking(np: NetworkPolicy) {
    np.podSelector.Selector? && exists d, i, j :: IsFor(np, d) && BadNamespaceAt(np, d, i, j)
  }

  lemma SidePanicsAt(np: NetworkPolicy, d: Direction)
    ensures SidePanics(np, d) <==> exists i, j :: BadNamespaceAt(np, d, i, j)
  {
    if SidePanics(np, d) {
      var i :| 0 <= i < |np.Specs(d)| && SpecPanics(np.Specs(d)[i]);
      var j :| 0 <= j < |np.Specs(d)[i].peers| && PeerPanics(np.Specs(d)[i].peers[j]);
      assert BadNamespaceAt(np, d, i, j);
    }
    if i, j :| BadNamespaceAt(np, d, i, j) { assert PeerPanics(np.Specs(d)[i].peers[j]); }
  }

  /** Compiling a policy panics exactly then. */
  lemma PanicsExactly(np: NetworkPolicy)
    ensures CompilePanics(np) <==> Panicking(np)
  {
    SidePanicsAt(np, Inbound);
    SidePanicsAt(np, Outbound);
    assert np.Enabled(Inbound) == IsFor(np, Inbound) && np.Enabled(Outbound) == IsFor(np, Outbound);
    if CompilePanics(np) {
      var d: Direction :| np.Enabled(d) && SidePanics(np, d);
      var i, j :| BadNamespaceAt(np, d, i, j);
    }
  }

  lemma SomePanics(nps: seq<NetworkPolicy>)
    ensures AnyPanics(nps) <==> exists np :: np in nps && Panicking(np)
  {
    forall np { PanicsExactly(np); }
  }

  // ---- The same computations as the loops of policy.go ----

  method IngressOrEgress(np: NetworkPolicy) returns (ingress: bool, egress: bool)
    ensures ingress <==> IngressType in np.policyTypes || EgressType !in np.policyTypes
    ensures egress <==> EgressType in np.policyTypes || (IngressType !in np.policyTypes && np.egress != [])
    ensures ingress == np.Enabled(Inbound) && egress == np.Enabled(Outbound)
    ensures ingress || egress
  {
    ingress, egress := false, false;
    for i := 0 to |np.policyTypes|
      invariant ingress == (IngressType in np.policyTypes[..i])
      invariant egress == (EgressType in np.policyTypes[..i])
    {
      assert np.policyTypes[..i + 1] == np.policyTypes[..i] + [np.policyTypes[i]];
      if np.policyTypes[i] == IngressType {
        ingress := true;
      } else if np.policyTypes[i] == EgressType {
        egress := true;
      }
    }
    assert np.policyTypes[..|np.policyTypes|] == np.policyTypes;
    if !ingress && !egress {
      ingress := true;
      egress := |np.egress| > 0;
    }
  }

  method RulePorts(ports: seq<PolicyPort>) returns (tcpPorts: seq<string>, udpPorts: seq<string>)
    ensures tcpPorts == PortsOf(ports, true) && udpPorts == PortsOf(ports, false)
  {
    tcpPorts, udpPorts := [], [];
    for j := 0 to |ports|
      invariant tcpPorts == PortsOf(ports[..j], true) && udpPorts == PortsOf(ports[..j], false)
    {
      assert ports[..j + 1][..j] == ports[..j];
      var protocol := if ports[j].protocol.Some? then ports[j].protocol.value else Tcp;
      if ports[j].port.Some? {
        if protocol == Tcp {
          tcpPorts := tcpPorts + [ports[j].port.value];
        } else {
          udpPorts := udpPorts + [ports[j].port.value];
        }
      }
    }
    assert ports[..|ports|] == ports;
  }

  method IPBlockToTable(block: IPBlock) returns (entries: Option<seq<Entry>>)
    ensures entries == BlockTable(block)
  {
    if block.cidr.None? { return None; }
    var tbl := [Net(block.cidr.value, false)];
    for i := 0 to |block.except|
      invariant BlockTable(block) == ExceptEntries(tbl, block.except[i..])
    {
      if block.except[i].None? { return None; }
      tbl := tbl + [Net(block.except[i].value, true)];
    }
    entries := Some(tbl);
  }

  method PodEntries(pods: seq<Pod>) returns (entries: seq<Entry>)
    ensures entries == HostEntries(pods)
  {
    entries := [];
    for i := 0 to |pods|
      invariant entries == HostEntries(pods[..i])
    {
      assert pods[..i + 1][..i] == pods[..i];
      if pods[i].ip.Some? {
        entries := entries + [Host(pods[i].ip.value)];
      }
    }
    assert pods[..|pods|] == pods;
  }

  /** namespaceSelectorToTable; None is the panic of getNamespaces. */
  method NamespaceSelectorToTable(cluster: Cluster, selector: Selector) returns (entries: Option<seq<Entry>>)
    ensures entries.None? <==> selector.BadSelector?
    ensures selector.Selector? ==>
      entries == Some(HostEntries(PodsOfNamespaces(cluster.pods, ListNamespaces(cluster.namespaces, selector.accepts))))
    ensures selector.Selector? ==> forall e ::
      e in entries.value <==>
        exists pod, n ::
          && pod in cluster.pods && pod.ip.Some? && e == Host(pod.ip.value)
          && n in cluster.namespaces && n.name == pod.key.namespace && selector.accepts(n.labels)
  {
    if selector.BadSelector? { return None; }
    var names := ListNamespaces(cluster.namespaces, selector.accepts);
    var pods: seq<Pod> := [];
    for i := 0 to |names|
      invariant pods == PodsOfNamespaces(cluster.pods, names[..i])
    {
      assert names[..i + 1][..i] == names[..i];
      pods := pods + ListPods(cluster.pods, Some(names[i]), AnyLabels);
    }
    assert names[..|names|] == names;
    var all := PodEntries(pods);
    entries := Some(all);
    forall e ensures e in all <==> InAcceptedNamespace(cluster, selector.accepts, e) {
      NamespaceEntries(cluster, selector.accepts, e);
    }
  }

  method ComputePeerTable(cluster: Cluster, peer: Peer) returns (table: Option<PeerTable>, panics: bool)
    ensures panics <==> PeerPanics(peer)
    ensures table == PeerTableOf(cluster, peer)
  {
    panics := false;
    if peer.podSelector.Some? {
      if peer.podSelector.value.BadSelector? { return None, false; }
      var entries := PodEntries(ListPods(cluster.pods, None, peer.podSelector.value.accepts));
      return Some(Hosts(entries)), false;
    }
    if peer.namespaceSelector.Some? {
      var entries := NamespaceSelectorToTable(cluster, peer.namespaceSelector.value);
      if entries.None? { return None, true; }
      return Some(Hosts(entries.value)), false;
    }
    if peer.ipBlock.Some? {
      var entries := IPBlockToTable(peer.ipBlock.value);
      if entries.None? { return None, false; }
      return Some(Nets(entries.value)), false;
    }
    table := None;
  }

  method PeerRule(cluster: Cluster, spec: PeerSpec) returns (
      hosts: Option<seq<Entry>>, nets: Option<seq<Entry>>, tcpPorts: seq<string>, udpPorts: seq<string>, panics: bool)
    ensures panics <==> SpecPanics(spec)
    ensures !panics ==> hosts == HostsOf(cluster, spec.peers) && nets == NetsOf(cluster, spec.peers)
    ensures !panics ==> tcpPorts == PortsOf(spec.ports, true) && udpPorts == PortsOf(spec.ports, false)
  {
    tcpPorts, udpPorts := RulePorts(spec.ports);
    hosts, nets, panics := None, None, false;
    for j := 0 to |spec.peers|
      invariant !panics && forall m :: 0 <= m < j ==> !PeerPanics(spec.peers[m])
      invariant hosts == HostsOf(cluster, spec.peers[..j]) && nets == NetsOf(cluster, spec.peers[..j])
    {
      assert spec.peers[..j + 1][..j] == spec.peers[..j];
      var tbl;
      tbl, panics := ComputePeerTable(cluster, spec.peers[j]);
      if panics { return; }
      if tbl.Some? {
        if tbl.value.Hosts? {
          if hosts.None? { hosts := Some(tbl.value.entries); }
          else { hosts := Some(hosts.value + tbl.value.entries); }
        } else {
          if nets.None? { nets := Some(tbl.value.entries); }
          else { nets := Some(nets.value + tbl.value.entries); }
        }
      }
    }
    assert spec.peers[..|spec.peers|] == spec.peers;
  }

  ghost predicate CompiledSpecs(cluster: Cluster, np: NetworkPolicy, d: Direction, rules: seq<CompiledRule>, n: nat) {
    && |rules| == n <= |np.Specs(d)|
    && forall j :: 0 <= j < n ==> rules[j] == CompileRule(cluster, np.key, d, j, np.Specs(d)[j])
  }

  method CompileSpec(cluster: Cluster, np: NetworkPolicy, d: Direction, i: nat) returns (rule: CompiledRule, panics: bool)
    requires i < |np.Specs(d)|
    ensures panics <==> SpecPanics(np.Specs(d)[i])
    ensures !panics ==> rule == CompileRule(cluster, np.key, d, i, np.Specs(d)[i])
  {
    var hosts, nets, tcpPorts, udpPorts;
    hosts, nets, tcpPorts, udpPorts, panics := PeerRule(cluster, np.Specs(d)[i]);
    rule := CompiledRule(Named(PeerHosts(d, i, np.key), hosts), Named(PeerNets(d, i, np.key), nets), tcpPorts, udpPorts);
  }

  lemma CompiledSpecsSnoc(cluster: Cluster, np: NetworkPolicy, d: Direction, rules: seq<CompiledRule>, i: nat, rule: CompiledRule)
    requires CompiledSpecs(cluster, np, d, rules, i) && i < |np.Specs(d)|
    requires rule == CompileRule(cluster, np.key, d, i, np.Specs(d)[i])
    ensures CompiledSpecs(cluster, np, d, rules + [rule], i + 1)
  {
  }

  method CompileSpecs(cluster: Cluster, np: NetworkPolicy, d: Direction) returns (rules: seq<CompiledRule>, panics: bool)
    ensures panics <==> SidePanics(np, d)
    ensures !panics ==> CompiledSpecs(cluster, np, d, rules, |np.Specs(d)|)
  {
    rules, panics := [], false;
    for i := 0 to |np.Specs(d)|
      invariant !panics && forall j :: 0 <= j < i ==> !SpecPanics(np.Specs(d)[j])
      invariant CompiledSpecs(cluster, np, d, rules, i)
    {
      var rule;
      rule, panics := CompileSpec(cluster, np, d, i);
      if panics { return; }
      CompiledSpecsSnoc(cluster, np, d, rules, i, rule);
      rules := rules + [rule];
    }
  }

  lemma CompiledSpecsAre(cluster: Cluster, np: NetworkPolicy, d: Direction, podTable: IpsetTable, rules: seq<CompiledRule>)
    requires np.Enabled(d) && CompiledSpecs(cluster, np, d, rules, |np.Specs(d)|)
    ensures CompileSide(cluster, np, d, podTable) == Some(CompiledSide(podTable, rules))
  {
    var side := CompileSide(cluster, np, d, podTable).value;
    assert |side.rules| == |rules| && forall j :: 0 <= j < |rules| ==> rules[j] == side.rules[j];
    assert side.rules == rules;
  }

  /** policyResult: the side of one direction. */
  method CompileDirection(cluster: Cluster, np: NetworkPolicy, d: Direction, enabled: bool, podTable: IpsetTable)
    returns (side: Option<CompiledSide>, panics: bool)
    requires enabled == np.Enabled(d)
    ensures panics <==> enabled && SidePanics(np, d)
    ensures !panics ==> side == CompileSide(cluster, np, d, podTable)
  {
    side, panics := None, false;
    if enabled {
      var rules;
      rules, panics := CompileSpecs(cluster, np, d);
      side := Some(CompiledSide(podTable, rules));
      if !panics { CompiledSpecsAre(cluster, np, d, podTable, rules); }
    }
  }

  method PolicyResult(cluster: Cluster, np: NetworkPolicy) returns (result: Option<CompiledPolicy>, panics: bool)
    ensures panics <==> CompilePanics(np)
    ensures !panics ==> result == Compile(cluster, np) && (result.None? <==> np.podSelector.BadSelector?)
    ensures panics <==> Panicking(np)
    ensures !panics && result.Some? ==>
      && (result.value.ingress.Some? <==> IngressType in np.policyTypes || EgressType !in np.policyTypes)
      && (result.value.egress.Some? <==> EgressType in np.policyTypes || (IngressType !in np.policyTypes && np.egress != []))
  {
    PanicsExactly(np);
    if np.podSelector.BadSelector? { return None, false; }
    var entries := PodEntries(ListPods(cluster.pods, Some(np.key.namespace), np.podSelector.accepts));
    var podTable := IpsetTable(PodSet(np.key), entries);
    var ingress, egress := IngressOrEgress(np);
    var inSide, outSide;
    inSide, panics := CompileDirection(cluster, np, Inbound, ingress, podTable);
    if panics { return None, true; }
    outSide, panics := CompileDirection(cluster, np, Outbound, egress, podTable);
    result := Some(CompiledPolicy(np, inSide, outSide));
  }

  method CompilePolicies(cluster: Cluster) returns (policies: seq<CompiledPolicy>, panics: bool)
    ensures panics <==> AnyPanics(cluster.policies)
    ensures panics <==> exists np :: np in cluster.policies && Panicking(np)
    ensures !panics ==> policies == CompileAll(cluster, cluster.policies)
  {
    policies, panics := [], false;
    SomePanics(cluster.policies);
    for i := 0 to |cluster.policies|
      invariant !panics && forall j :: 0 <= j < i ==> !CompilePanics(cluster.policies[j])
      invariant policies == CompileAll(cluster, cluster.policies[..i])
    {
      assert cluster.policies[..i + 1][..i] == cluster.policies[..i];
      var result;
      result, panics := PolicyResult(cluster, cluster.policies[i]);
      if panics { return; }
      if result.Some? {
        policies := policies + [result.value];
      }
    }
    assert cluster.policies[..|cluster.policies|] == cluster.policies;
  }
}
