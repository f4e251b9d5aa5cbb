/**
 * The incremental path of pkg/policy/policy.go, which edits single set entries on a pod event, against the full
 * recomputation of policyResult.
 */
module Incremental {
  import opened Sequences
  import opened PacketFilter
  import opened NetworkPolicies
  import opened PolicyChains
  import opened PodSync

  // ---- Which pods a table is about ----

  /** The peer has a selector that yields a host table. */
  predicate HostPeer(peer: Peer) {
    if peer.podSelector.Some? then peer.podSelector.value.Selector?
    else peer.namespaceSelector.Some? && peer.namespaceSelector.value.Selector?
  }

  /**
   * The peer's selector picks the pod: a pod selector by the pod's labels, in all namespaces, and a namespace selector by
   * the labels of the pod's namespace.
   */
  predicate PeerPicks(namespaces: seq<Namespace>, peer: Peer, pod: Pod) {
    && HostPeer(peer)
    && if peer.podSelector.Some? then peer.podSelector.value.accepts(pod.labels)
       else NamespaceAccepted(namespaces, peer.namespaceSelector.value.accepts, pod.key.namespace)
  }

  predicate SpecPicks(namespaces: seq<Namespace>, spec: PeerSpec, pod: Pod) {
    exists j :: 0 <= j < |spec.peers| && PeerPicks(namespaces, spec.peers[j], pod)
  }

  /** The set named n of the policy is about the pod. */
  predicate Picks(np: NetworkPolicy, namespaces: seq<Namespace>, n: SetName, pod: Pod) {
    match n
    case PodSet(k) => k == np.key && Selects(np, pod)
    case PeerHosts(d, i, k) => k == np.key && np.Enabled(d) && i < |np.Specs(d)| && SpecPicks(namespaces, np.Specs(d)[i], pod)
    case _ => false
  }

  lemma PeerTableMembers(cluster: Cluster, peer: Peer, e: Entry)
    ensures (PeerTableOf(cluster, peer).Some? && PeerTableOf(cluster, peer).value.Hosts?) <==> HostPeer(peer)
    ensures HostPeer(peer) ==> (e in PeerTableOf(cluster, peer).value.entries <==>
      exists pod :: pod in cluster.pods && pod.ip.Some? && e == Host(pod.ip.value) && PeerPicks(cluster.namespaces, peer, pod))
  {
    if HostPeer(peer) {
      var listed := if peer.podSelector.Some? then ListPods(cluster.pods, None, peer.podSelector.value.accepts)
                    else PodsOfNamespaces(cluster.pods, ListNamespaces(cluster.namespaces, peer.namespaceSelector.value.accepts));
      assert PeerTableOf(cluster, peer).value.entries == HostEntries(listed);
      forall pod ensures pod in listed <==> pod in cluster.pods && PeerPicks(cluster.namespaces, peer, pod) {
        if peer.podSelector.Some? { ListPodsMembers(cluster.pods, None, peer.podSelector.value.accepts, pod); }
        else {
          PodsOfNamespacesMembers(cluster.pods, ListNamespaces(cluster.namespaces, peer.namespaceSelector.value.accepts), pod);
          ListNamespacesMembers(cluster.namespaces, peer.namespaceSelector.value.accepts, pod.key.namespace);
        }
      }
      HostEntriesMembers(listed, e);
      if e in HostEntries(listed) {
        var i :| 0 <= i < |listed| && listed[i].ip.Some? && e == Host(listed[i].ip.value);
        assert listed[i] in listed;
      }
      if pod :| pod in cluster.pods && pod.ip.Some? && e == Host(pod.ip.value) && PeerPicks(cluster.namespaces, peer, pod) {
        var i :| 0 <= i < |listed| && listed[i] == pod;
      }
    }
  }

  /** Some pod of the list has the address of `e` and is picked by one of the peers. */
  ghost predicate PeersYield(pods: seq<Pod>, namespaces: seq<Namespace>, peers: seq<Peer>, e: Entry) {
    exists j, pod :: 0 <= j < |peers| && pod in pods && pod.ip.Some? && e == Host(pod.ip.value) && PeerPicks(namespaces, peers[j], pod)
  }

  lemma {:induction false} HostsOfMembers(cluster: Cluster, peers: seq<Peer>, e: Entry)
    ensures HostsOf(cluster, peers).Some? <==> exists j :: 0 <= j < |peers| && HostPeer(peers[j])
    ensures HostsOf(cluster, peers).Some? ==>
      (e in HostsOf(cluster, peers).value <==> PeersYield(cluster.pods, cluster.namespaces, peers, e))
    ensures HostsOf(cluster, peers).None? ==> !PeersYield(cluster.pods, cluster.namespaces, peers, e)
  {
    if peers != [] {
      var front, last := peers[..|peers| - 1], peers[|peers| - 1];
      HostsOfMembers(cluster, front, e);
      PeerTableMembers(cluster, last, e);
      YieldSnoc(cluster.pods, cluster.namespaces, front, last, e);
      assert peers == front + [last];
      if j :| 0 <= j < |front| && HostPeer(front[j]) { assert HostPeer(peers[j]); }
      if j :| 0 <= j < |peers| && HostPeer(peers[j]) { if j < |front| { assert HostPeer(front[j]); } }
    }
  }

  lemma YieldSnoc(pods: seq<Pod>, namespaces: seq<Namespace>, front: seq<Peer>, last: Peer, e: Entry)
    ensures PeersYield(pods, namespaces, front + [last], e) <==>
      || PeersYield(pods, namespaces, front, e)
      || exists pod :: pod in pods && pod.ip.Some? && e == Host(pod.ip.value) && PeerPicks(namespaces, last, pod)
  {
    var peers := front + [last];
    if j, pod :| 0 <= j < |front| && pod in pods && pod.ip.Some? && e == Host(pod.ip.value) && PeerPicks(namespaces, front[j], pod) {
      assert peers[j] == front[j];
    }
    if pod :| pod in pods && pod.ip.Some? && e == Host(pod.ip.value) && PeerPicks(namespaces, last, pod) {
      assert peers[|front|] == last;
    }
    if j, pod :| 0 <= j < |peers| && pod in pods && pod.ip.Some? && e == Host(pod.ip.value) && PeerPicks(namespaces, peers[j], pod) {
      if j < |front| { assert front[j] == peers[j]; }
    }
  }

  /** Some pod of the list has the address of `e` and is one the set is about. */
  ghost predicate Holds(pods: seq<Pod>, np: NetworkPolicy, namespaces: seq<Namespace>, n: SetName, e: Entry) {
    exists pod :: pod in pods && pod.ip.Some? && e == Host(pod.ip.value) && Picks(np, namespaces, n, pod)
  }

  /** A host table holds exactly the addresses of the pods it is about. */
  lemma TableHolds(cluster: Cluster, np: NetworkPolicy, table: IpsetTable, e: Entry)
    requires TableOf(cluster, np, table) && !table.name.PeerNets?
    ensures e in table.entries <==> Holds(cluster.pods, np, cluster.namespaces, table.name, e)
  {
    match table.name
    case PodSet(k) =>
      var listed := ListPods(cluster.pods, Some(np.key.namespace), np.podSelector.accepts);
      forall pod ensures pod in listed <==> pod in cluster.pods && Selects(np, pod) {
        ListPodsMembers(cluster.pods, Some(np.key.namespace), np.podSelector.accepts, pod);
      }
      HostEntriesMembers(listed, e);
      if e in table.entries {
        var i :| 0 <= i < |listed| && listed[i].ip.Some? && e == Host(listed[i].ip.value);
        assert listed[i] in listed;
      }
      if pod :| pod in cluster.pods && pod.ip.Some? && e == Host(pod.ip.value) && Picks(np, cluster.namespaces, table.name, pod) {
        var i :| 0 <= i < |listed| && listed[i] == pod;
      }
    case PeerHosts(d, i, k) =>
      var peers := np.Specs(d)[i].peers;
      HostsOfMembers(cluster, peers, e);
      if j, pod :| 0 <= j < |peers| && pod in cluster.pods && pod.ip.Some? && e == Host(pod.ip.value) && PeerPicks(cluster.namespaces, peers[j], pod) {
        assert Picks(np, cluster.namespaces, table.name, pod);
      }
      if pod :| pod in cluster.pods && pod.ip.Some? && e == Host(pod.ip.value) && Picks(np, cluster.namespaces, table.name, pod) {
        var j :| 0 <= j < |peers| && PeerPicks(cluster.namespaces, peers[j], pod);
      }
  }

  // ---- Recomputed sets ----

  /** A table that the policies call for in this cluster. */
  ghost predicate Called(cluster: Cluster, nps: seq<NetworkPolicy>, table: IpsetTable) {
    exists i :: 0 <= i < |nps| && TableOf(cluster, nps[i], table)
  }

  /** Every set is as policyResult computes it for this cluster. */
  ghost predicate Reflects(sets: Sets, cluster: Cluster, nps: seq<NetworkPolicy>) {
    forall table :: Called(cluster, nps, table) ==> table.name in sets && sets[table.name] == EntrySet(table)
  }

  /** The same sets are called for whatever the pods are; only host entries depend on pods. */
  lemma OtherPods(a: Cluster, b: Cluster, np: NetworkPolicy, table: IpsetTable) returns (other: IpsetTable)
    requires TableOf(a, np, table) && a.namespaces == b.namespaces
    ensures TableOf(b, np, other) && other.name == table.name
    ensures table.name.PeerNets? ==> other == table
  {
    match table.name
    case PodSet(k) =>
      other := IpsetTable(table.name, HostEntries(ListPods(b.pods, Some(np.key.namespace), np.podSelector.accepts)));
    case PeerHosts(d, i, k) =>
      HostsOfMembers(a, np.Specs(d)[i].peers, Host([]));
      HostsOfMembers(b, np.Specs(d)[i].peers, Host([]));
      other := IpsetTable(table.name, HostsOf(b, np.Specs(d)[i].peers).value);
    case PeerNets(d, i, k) =>
      NetsSame(a, b, np.Specs(d)[i].peers);
      other := table;
  }

  lemma {:induction false} NetsSame(a: Cluster, b: Cluster, peers: seq<Peer>)
    ensures NetsOf(a, peers) == NetsOf(b, peers)
  {
    if peers != [] {
      NetsSame(a, b, peers[..|peers| - 1]);
      var last := peers[|peers| - 1];
      PeerTableMembers(a, last, Host([]));
      PeerTableMembers(b, last, Host([]));
    }
  }

  // ---- The edit ----

  /** The incremental path edits the set for the pod. */
  ghost predicate Edits(nps: seq<NetworkPolicy>, namespaces: seq<Namespace>, n: SetName, pod: Pod) {
    exists i :: 0 <= i < |nps| && Picks(nps[i], namespaces, n, pod)
  }

  /** What SyncPodIPInIPSet makes of the sets, when it does not crash. */
  ghost function Edited(sets: Sets, nps: seq<NetworkPolicy>, namespaces: seq<Namespace>, pod: Pod, e: Entry, add: bool): Sets {
    map n | n in sets ::
      if Edits(nps, namespaces, n, pod) then (if add then sets[n] + {e} else sets[n] - {e}) else sets[n]
  }

  /** The set's own policy is the only one that can edit it. */
  lemma EditsIffPicks(cluster: Cluster, nps: seq<NetworkPolicy>, i: nat, table: IpsetTable, pod: Pod)
    requires DistinctKeys(nps) && i < |nps| && TableOf(cluster, nps[i], table)
    ensures Edits(nps, cluster.namespaces, table.name, pod) <==> Picks(nps[i], cluster.namespaces, table.name, pod)
  {
    if j :| 0 <= j < |nps| && Picks(nps[j], cluster.namespaces, table.name, pod) {
      assert nps[j].key == nps[i].key;
      assert i == j;
    }
  }

  /** One table: what the edit leaves in it and what recomputation wants in it. */
  lemma EditedTable(a: Cluster, b: Cluster, nps: seq<NetworkPolicy>, i: nat, sets: Sets, pod: Pod, add: bool, table: IpsetTable)
    returns (before: IpsetTable)
    requires DistinctKeys(nps) && a.namespaces == b.namespaces && pod.ip.Some?
    requires Reflects(sets, a, nps) && i < |nps| && TableOf(b, nps[i], table)
    ensures TableOf(a, nps[i], before) && before.name == table.name && table.name in sets && sets[table.name] == EntrySet(before)
    ensures
      var e := Host(pod.ip.value);
      Edited(sets, nps, a.namespaces, pod, e, add)[table.name] ==
        if !Picks(nps[i], a.namespaces, table.name, pod) then EntrySet(before)
        else if add then EntrySet(before) + {e} else EntrySet(before) - {e}
    ensures table.name.PeerNets? ==> before == table
  {
    before := OtherPods(b, a, nps[i], table);
    assert Called(a, nps, before);
    EditsIffPicks(b, nps, i, table, pod);
  }

  /**
   * Adding: if every set is as recomputed for a population, then after SyncPodIPInIPSet(pod, add)
   * every set is as recomputed for the population with the pod.
   */
  lemma AddAgrees(cluster: Cluster, nps: seq<NetworkPolicy>, sets: Sets, pod: Pod)
    requires DistinctKeys(nps) && Reflects(sets, cluster, nps) && pod.ip.Some?
    ensures
      Reflects(Edited(sets, nps, cluster.namespaces, pod, Host(pod.ip.value), true), cluster.(pods := cluster.pods + [pod]), nps)
  {
    var e := Host(pod.ip.value);
    var after := cluster.(pods := cluster.pods + [pod]);
    var edited := Edited(sets, nps, cluster.namespaces, pod, e, true);
    forall table | Called(after, nps, table) ensures table.name in edited && edited[table.name] == EntrySet(table) {
      var i :| 0 <= i < |nps| && TableOf(after, nps[i], table);
      var before := EditedTable(cluster, after, nps, i, sets, pod, true, table);
      if !table.name.PeerNets? {
        forall x ensures x in edited[table.name] <==> x in table.entries {
          TableHolds(cluster, nps[i], before, x);
          TableHolds(after, nps[i], table, x);
          HoldsConcat(cluster.pods, pod, nps[i], cluster.namespaces, table.name, x);
        }
      }
    }
  }

  lemma HoldsConcat(pods: seq<Pod>, pod: Pod, np: NetworkPolicy, namespaces: seq<Namespace>, n: SetName, e: Entry)
    ensures Holds(pods + [pod], np, namespaces, n, e) <==>
      Holds(pods, np, namespaces, n, e) || (pod.ip.Some? && e == Host(pod.ip.value) && Picks(np, namespaces, n, pod))
  {
    if q :| q in pods && q.ip.Some? && e == Host(q.ip.value) && Picks(np, namespaces, n, q) { assert q in pods + [pod]; }
    assert pod in pods + [pod];
    if q :| q in pods + [pod] && q.ip.Some? && e == Host(q.ip.value) && Picks(np, namespaces, n, q) {
      if q in pods {}
    }
  }

  /** The table still needs the pod's address for another pod. */
  ghost predicate Shared(rest: seq<Pod>, nps: seq<NetworkPolicy>, namespaces: seq<Namespace>, pod: Pod) {
    exists i, n ::
      && 0 <= i < |nps| && nps[i].podSelector.Selector?
      && Picks(nps[i], namespaces, n, pod) && pod.ip.Some?
      && Holds(rest, nps[i], namespaces, n, Host(pod.ip.value))
  }

  /**
   * Deleting: SyncPodIPInIPSet(pod, delete) gives the sets recomputed without the pod if and only if no set that is
   * about the pod is also about another pod with the same address.
   */
  lemma DeleteAgrees(cluster: Cluster, rest: seq<Pod>, nps: seq<NetworkPolicy>, sets: Sets, pod: Pod)
    requires DistinctKeys(nps) && Reflects(sets, cluster, nps) && pod.ip.Some? && cluster.pods == rest + [pod]
    ensures
      Reflects(Edited(sets, nps, cluster.namespaces, pod, Host(pod.ip.value), false), cluster.(pods := rest), nps)
      <==> !Shared(rest, nps, cluster.namespaces, pod)
  {
    var after := cluster.(pods := rest);
    var edited := Edited(sets, nps, cluster.namespaces, pod, Host(pod.ip.value), false);
    if !Shared(rest, nps, cluster.namespaces, pod) {
      forall table | Called(after, nps, table) ensures table.name in edited && edited[table.name] == EntrySet(table) {
        DeleteTable(cluster, rest, nps, sets, pod, table);
      }
    } else {
      var i, n :| 0 <= i < |nps| && nps[i].podSelector.Selector? && Picks(nps[i], cluster.namespaces, n, pod)
        && Holds(rest, nps[i], cluster.namespaces, n, Host(pod.ip.value));
      var table := TableNamed(after, nps[i], cluster.namespaces, n, pod);
      var before := EditedTable(cluster, after, nps, i, sets, pod, false, table);
      TableHolds(after, nps[i], table, Host(pod.ip.value));
      assert Called(after, nps, table);
      assert Host(pod.ip.value) in EntrySet(table) && Host(pod.ip.value) !in edited[n];
    }
  }

  /** A set that is about some pod is called for. */
  lemma TableNamed(cluster: Cluster, np: NetworkPolicy, namespaces: seq<Namespace>, n: SetName, pod: Pod) returns (table: IpsetTable)
    requires np.podSelector.Selector? && Picks(np, namespaces, n, pod)
    ensures TableOf(cluster, np, table) && table.name == n
  {
    match n
    case PodSet(k) =>
      table := IpsetTable(n, HostEntries(ListPods(cluster.pods, Some(np.key.namespace), np.podSelector.accepts)));
    case PeerHosts(d, i, k) =>
      HostsOfMembers(cluster, np.Specs(d)[i].peers, Host([]));
      var j :| 0 <= j < |np.Specs(d)[i].peers| && PeerPicks(namespaces, np.Specs(d)[i].peers[j], pod);
      table := IpsetTable(n, HostsOf(cluster, np.Specs(d)[i].peers).value);
  }

  lemma DeleteTable(cluster: Cluster, rest: seq<Pod>, nps: seq<NetworkPolicy>, sets: Sets, pod: Pod, table: IpsetTable)
    requires DistinctKeys(nps) && Reflects(sets, cluster, nps) && pod.ip.Some? && cluster.pods == rest + [pod]
    requires Called(cluster.(pods := rest), nps, table) && !Shared(rest, nps, cluster.namespaces, pod)
    ensures
      var edited := Edited(sets, nps, cluster.namespaces, pod, Host(pod.ip.value), false);
      table.name in edited && edited[table.name] == EntrySet(table)
  {
    var after, e := cluster.(pods := rest), Host(pod.ip.value);
    var edited := Edited(sets, nps, cluster.namespaces, pod, e, false);
    var i :| 0 <= i < |nps| && TableOf(after, nps[i], table);
    var before := EditedTable(cluster, after, nps, i, sets, pod, false, table);
    if !table.name.PeerNets? {
      forall x ensures x in edited[table.name] <==> x in table.entries {
        TableHolds(cluster, nps[i], before, x);
        TableHolds(after, nps[i], table, x);
        HoldsConcat(rest, pod, nps[i], cluster.namespaces, table.name, x);
        assert Picks(nps[i], cluster.namespaces, table.name, pod) && Holds(rest, nps[i], cluster.namespaces, table.name, e)
          ==> Shared(rest, nps, cluster.namespaces, pod);
      }
    }
  }

  /** A set was about the pod with its old labels, is not with its new ones, and no other pod needs the address there. */
  ghost predicate Outdated(rest: seq<Pod>, nps: seq<NetworkPolicy>, namespaces: seq<Namespace>, old': Pod, new': Pod) {
    exists i, n ::
      && 0 <= i < |nps| && nps[i].podSelector.Selector?
      && Picks(nps[i], namespaces, n, old') && !Picks(nps[i], namespaces, n, new')
      && old'.ip.Some? && !Holds(rest, nps[i], namespaces, n, Host(old'.ip.value))
  }

  /**
   * Relabelling: UpdatePod only ever adds entries, so after a pod changed its labels the sets are as recomputed
   * if and only if no set has lost the pod.
   */
  lemma RelabelAgrees(cluster: Cluster, rest: seq<Pod>, nps: seq<NetworkPolicy>, sets: Sets, old': Pod, new': Pod)
    requires DistinctKeys(nps) && Reflects(sets, cluster, nps) && cluster.pods == rest + [old']
    requires old'.ip.Some? && new'.ip == old'.ip
    ensures
      Reflects(Edited(sets, nps, cluster.namespaces, new', Host(new'.ip.value), true), cluster.(pods := rest + [new']), nps)
      <==> !Outdated(rest, nps, cluster.namespaces, old', new')
  {
    var after, e := cluster.(pods := rest + [new']), Host(new'.ip.value);
    var edited := Edited(sets, nps, cluster.namespaces, new', e, true);
    if !Outdated(rest, nps, cluster.namespaces, old', new') {
      forall table | Called(after, nps, table) ensures table.name in edited && edited[table.name] == EntrySet(table) {
        var i :| 0 <= i < |nps| && TableOf(after, nps[i], table);
        RelabelTable(cluster, rest, nps, i, sets, old', new', table);
        var lost := Picks(nps[i], cluster.namespaces, table.name, old') && !Picks(nps[i], cluster.namespaces, table.name, new');
        assert lost && !Holds(rest, nps[i], cluster.namespaces, table.name, e) ==> Outdated(rest, nps, cluster.namespaces, old', new');
      }
    } else {
      var i, n :| 0 <= i < |nps| && nps[i].podSelector.Selector?
        && Picks(nps[i], cluster.namespaces, n, old') && !Picks(nps[i], cluster.namespaces, n, new')
        && !Holds(rest, nps[i], cluster.namespaces, n, e);
      var table := TableNamed(after, nps[i], cluster.namespaces, n, old');
      RelabelTable(cluster, rest, nps, i, sets, old', new', table);
      assert Called(after, nps, table);
    }
  }

  lemma RelabelTable(cluster: Cluster, rest: seq<Pod>, nps: seq<NetworkPolicy>, i: nat, sets: Sets, old': Pod, new': Pod, table: IpsetTable)
    requires DistinctKeys(nps) && Reflects(sets, cluster, nps) && cluster.pods == rest + [old']
    requires old'.ip.Some? && new'.ip == old'.ip && i < |nps|
    requires TableOf(cluster.(pods := rest + [new']), nps[i], table)
    ensures
      var e := Host(new'.ip.value);
      var edited := Edited(sets, nps, cluster.namespaces, new', e, true);
      && table.name in edited
      && (edited[table.name] == EntrySet(table) <==>
            !(Picks(nps[i], cluster.namespaces, table.name, old') && !Picks(nps[i], cluster.namespaces, table.name, new')
              && !Holds(rest, nps[i], cluster.namespaces, table.name, e)))
  {
    var after, e := cluster.(pods := rest + [new']), Host(new'.ip.value);
    var edited := Edited(sets, nps, cluster.namespaces, new', e, true);
    var before := EditedTable(cluster, after, nps, i, sets, new', true, table);
    if !table.name.PeerNets? {
      forall x
        ensures x in EntrySet(before) <==> Holds(rest, nps[i], cluster.namespaces, table.name, x) || (x == e && Picks(nps[i], cluster.namespaces, table.name, old'))
        ensures x in EntrySet(table) <==> Holds(rest, nps[i], cluster.namespaces, table.name, x) || (x == e && Picks(nps[i], cluster.namespaces, table.name, new'))
      {
        TableHolds(cluster, nps[i], before, x);
        TableHolds(after, nps[i], table, x);
        HoldsConcat(rest, old', nps[i], cluster.namespaces, table.name, x);
        HoldsConcat(rest, new', nps[i], cluster.namespaces, table.name, x);
      }
      if edited[table.name] == EntrySet(table) {
        assert e in edited[table.name] <==> e in EntrySet(table);
      } else {
        assert forall x :: x != e ==> (x in edited[table.name] <==> x in EntrySet(table));
      }
    }
  }
}
