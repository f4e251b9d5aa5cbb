/** What each pod event does to sets that are as recomputed: exactly which events keep them so. */
module SetRuns {
  import opened PacketFilter
  import opened NetworkPolicies
  import opened PolicyChains
  import opened Incremental

  function Without(pods: seq<Pod>, i: nat): seq<Pod>
    requires i < |pods|
  {
    pods[..i] + pods[i + 1..]
  }

  /** For every policy that compiles, the two populations put the same addresses into every set. */
  ghost predicate SameHolds(a: seq<Pod>, b: seq<Pod>, nps: seq<NetworkPolicy>, namespaces: seq<Namespace>) {
    forall i, n, x :: 0 <= i < |nps| && nps[i].podSelector.Selector? ==>
      (Holds(a, nps[i], namespaces, n, x) <==> Holds(b, nps[i], namespaces, n, x))
  }

  lemma SameMembersHold(a: seq<Pod>, b: seq<Pod>, nps: seq<NetworkPolicy>, namespaces: seq<Namespace>)
    requires forall pod :: pod in a <==> pod in b
    ensures SameHolds(a, b, nps, namespaces)
  {
  }

  /** Sets that reflect one population reflect every other that puts the same addresses into them. */
  lemma SameHoldsReflect(sets: Sets, cluster: Cluster, pods: seq<Pod>, nps: seq<NetworkPolicy>)
    requires SameHolds(cluster.pods, pods, nps, cluster.namespaces) && Reflects(sets, cluster, nps)
    ensures Reflects(sets, cluster.(pods := pods), nps)
  {
    var b := cluster.(pods := pods);
    forall table | Called(b, nps, table) ensures table.name in sets && sets[table.name] == EntrySet(table) {
      var i :| 0 <= i < |nps| && TableOf(b, nps[i], table);
      var before := OtherPods(b, cluster, nps[i], table);
      assert Called(cluster, nps, before);
      if !table.name.PeerNets? {
        forall x ensures x in before.entries <==> x in table.entries {
          TableHolds(cluster, nps[i], before, x);
          TableHolds(b, nps[i], table, x);
        }
        assert EntrySet(before) == EntrySet(table);
      }
    }
  }

  lemma ReflectsAlike(sets: Sets, cluster: Cluster, pods: seq<Pod>, nps: seq<NetworkPolicy>)
    requires SameHolds(cluster.pods, pods, nps, cluster.namespaces)
    ensures Reflects(sets, cluster, nps) <==> Reflects(sets, cluster.(pods := pods), nps)
  {
    if Reflects(sets, cluster, nps) { SameHoldsReflect(sets, cluster, pods, nps); }
    if Reflects(sets, cluster.(pods := pods), nps) {
      SameHoldsReflect(sets, cluster.(pods := pods), cluster.pods, nps);
      assert cluster.(pods := pods).(pods := cluster.pods) == cluster;
    }
  }

  lemma MoveToEnd(pods: seq<Pod>, i: nat, pod: Pod)
    requires i < |pods|
    ensures forall q :: q in pods[i := pod] <==> q in Without(pods, i) + [pod]
  {
    var a, b := pods[i := pod], Without(pods, i) + [pod];
    forall q | q in a ensures q in b {
      var j :| 0 <= j < |a| && a[j] == q;
      if j < i { assert b[j] == q; } else if j > i { assert b[j - 1] == q; } else { assert b[|b| - 1] == q; }
    }
    forall q | q in b ensures q in a {
      var j :| 0 <= j < |b| && b[j] == q;
      if j < i { assert a[j] == q; } else if j < |b| - 1 { assert a[j + 1] == q; } else { assert a[i] == q; }
    }
  }

  /** A pod without an address is in no set. */
  lemma NoAddressNoEntry(pods: seq<Pod>, pod: Pod, nps: seq<NetworkPolicy>, namespaces: seq<Namespace>)
    requires pod.ip.None?
    ensures SameHolds(pods, pods + [pod], nps, namespaces)
  {
    forall i, n, x | 0 <= i < |nps| && nps[i].podSelector.Selector?
      ensures Holds(pods, nps[i], namespaces, n, x) <==> Holds(pods + [pod], nps[i], namespaces, n, x)
    {
      HoldsConcat(pods, pod, nps[i], namespaces, n, x);
    }
  }

  // ---- A pod is added ----

  /** Some set is about the pod and does not have its address yet. */
  ghost predicate Missing(pods: seq<Pod>, nps: seq<NetworkPolicy>, namespaces: seq<Namespace>, pod: Pod) {
    exists i, n ::
      && 0 <= i < |nps| && nps[i].podSelector.Selector?
      && Picks(nps[i], namespaces, n, pod) && pod.ip.Some?
      && !Holds(pods, nps[i], namespaces, n, Host(pod.ip.value))
  }

  /** AddPod edits nothing, so the sets stay right exactly when none of them misses the new pod. */
  lemma AddPodAgrees(cluster: Cluster, nps: seq<NetworkPolicy>, sets: Sets, pod: Pod)
    requires DistinctKeys(nps) && Reflects(sets, cluster, nps)
    ensures Reflects(sets, cluster.(pods := cluster.pods + [pod]), nps) <==> !Missing(cluster.pods, nps, cluster.namespaces, pod)
  {
    var ns, after := cluster.namespaces, cluster.(pods := cluster.pods + [pod]);
    if !Missing(cluster.pods, nps, ns, pod) {
      forall i, n, x | 0 <= i < |nps| && nps[i].podSelector.Selector?
        ensures Holds(cluster.pods, nps[i], ns, n, x) <==> Holds(after.pods, nps[i], ns, n, x)
      {
        HoldsConcat(cluster.pods, pod, nps[i], ns, n, x);
      }
      SameHoldsReflect(sets, cluster, after.pods, nps);
    } else {
      var i, n :| 0 <= i < |nps| && nps[i].podSelector.Selector? && Picks(nps[i], ns, n, pod)
        && !Holds(cluster.pods, nps[i], ns, n, Host(pod.ip.value));
      AddPodLacks(cluster, nps, sets, pod, i, n);
    }
  }

  lemma AddPodLacks(cluster: Cluster, nps: seq<NetworkPolicy>, sets: Sets, pod: Pod, i: nat, n: SetName)
    requires Reflects(sets, cluster, nps) && i < |nps| && nps[i].podSelector.Selector? && pod.ip.Some?
    requires Picks(nps[i], cluster.namespaces, n, pod) && !Holds(cluster.pods, nps[i], cluster.namespaces, n, Host(pod.ip.value))
    ensures !Reflects(sets, cluster.(pods := cluster.pods + [pod]), nps)
  {
    var after, e := cluster.(pods := cluster.pods + [pod]), Host(pod.ip.value);
    var table := TableNamed(after, nps[i], cluster.namespaces, n, pod);
    var before := OtherPods(after, cluster, nps[i], table);
    assert Called(after, nps, table) && Called(cluster, nps, before);
    TableHolds(cluster, nps[i], before, e);
    TableHolds(after, nps[i], table, e);
    HoldsConcat(cluster.pods, pod, nps[i], cluster.namespaces, n, e);
    assert e in EntrySet(table) && e !in EntrySet(before);
  }

  // ---- A pod is updated or deleted ----

  /** The sets after the incremental edit; a pod without an address edits nothing. */
  ghost function PodEdit(sets: Sets, nps: seq<NetworkPolicy>, namespaces: seq<Namespace>, pod: Pod, add: bool): Sets {
    if pod.ip.None? then sets else Edited(sets, nps, namespaces, pod, Host(pod.ip.value), add)
  }

  ghost predicate UpdateKeeps(cluster: Cluster, nps: seq<NetworkPolicy>, i: nat, pod: Pod)
    requires i < |cluster.pods|
  {
    cluster.pods[i].ip.Some? ==> !Outdated(Without(cluster.pods, i), nps, cluster.namespaces, cluster.pods[i], pod)
  }

  /** After UpdatePod the sets are as recomputed exactly when no set has lost the pod. */
  lemma UpdatePodAgrees(cluster: Cluster, nps: seq<NetworkPolicy>, sets: Sets, i: nat, pod: Pod)
    requires DistinctKeys(nps) && Reflects(sets, cluster, nps) && i < |cluster.pods|
    requires cluster.pods[i].ip.Some? ==> pod.ip == cluster.pods[i].ip
    ensures
      Reflects(PodEdit(sets, nps, cluster.namespaces, pod, true), cluster.(pods := cluster.pods[i := pod]), nps)
      <==> UpdateKeeps(cluster, nps, i, pod)
  {
    var ns, was := cluster.namespaces, cluster.pods[i];
    var rest := Without(cluster.pods, i);
    var after := cluster.(pods := cluster.pods[i := pod]);
    assert cluster.pods[i := was] == cluster.pods;
    MoveToEnd(cluster.pods, i, was);
    MoveToEnd(cluster.pods, i, pod);
    SameMembersHold(cluster.pods, rest + [was], nps, ns);
    SameHoldsReflect(sets, cluster, rest + [was], nps);
    SameMembersHold(after.pods, rest + [pod], nps, ns);
    ReflectsAlike(PodEdit(sets, nps, ns, pod, true), after, rest + [pod], nps);
    assert after.(pods := rest + [pod]) == cluster.(pods := rest + [pod]);
    UpdateAtEnd(cluster.(pods := rest + [was]), rest, nps, sets, was, pod);
  }

  lemma UpdateAtEnd(cluster: Cluster, rest: seq<Pod>, nps: seq<NetworkPolicy>, sets: Sets, was: Pod, pod: Pod)
    requires DistinctKeys(nps) && cluster.pods == rest + [was] && Reflects(sets, cluster, nps) && (was.ip.Some? ==> pod.ip == was.ip)
    ensures
      Reflects(PodEdit(sets, nps, cluster.namespaces, pod, true), cluster.(pods := rest + [pod]), nps)
      <==> (was.ip.Some? ==> !Outdated(rest, nps, cluster.namespaces, was, pod))
  {
    if was.ip.Some? {
      RelabelAgrees(cluster, rest, nps, sets, was, pod);
    } else {
      NoAddressNoEntry(rest, was, nps, cluster.namespaces);
      var bare := cluster.(pods := rest);
      assert bare.(pods := rest + [was]) == cluster;
      ReflectsAlike(sets, bare, rest + [was], nps);
      if pod.ip.Some? {
        AddAgrees(bare, nps, sets, pod);
      } else {
        NoAddressNoEntry(rest, pod, nps, cluster.namespaces);
        SameHoldsReflect(sets, bare, rest + [pod], nps);
      }
    }
  }

  ghost predicate DeleteKeeps(cluster: Cluster, nps: seq<NetworkPolicy>, i: nat)
    requires i < |cluster.pods|
  {
    cluster.pods[i].ip.Some? ==> !Shared(Without(cluster.pods, i), nps, cluster.namespaces, cluster.pods[i])
  }

  /** After DeletePod the sets are as recomputed exactly when no set about the pod is about another pod with its address. */
  lemma DeletePodAgrees(cluster: Cluster, nps: seq<NetworkPolicy>, sets: Sets, i: nat)
    requires DistinctKeys(nps) && Reflects(sets, cluster, nps) && i < |cluster.pods|
    ensures
      Reflects(PodEdit(sets, nps, cluster.namespaces, cluster.pods[i], false), cluster.(pods := Without(cluster.pods, i)), nps)
      <==> DeleteKeeps(cluster, nps, i)
  {
    var ns, pod := cluster.namespaces, cluster.pods[i];
    var rest := Without(cluster.pods, i);
    assert cluster.pods[i := pod] == cluster.pods;
    MoveToEnd(cluster.pods, i, pod);
    SameMembersHold(cluster.pods, rest + [pod], nps, ns);
    SameHoldsReflect(sets, cluster, rest + [pod], nps);
    var moved := cluster.(pods := rest + [pod]);
    assert moved.(pods := rest) == cluster.(pods := rest);
    if pod.ip.Some? {
      DeleteAgrees(moved, rest, nps, sets, pod);
    } else {
      NoAddressNoEntry(rest, pod, nps, ns);
      ReflectsAlike(sets, cluster.(pods := rest), rest + [pod], nps);
      assert cluster.(pods := rest).(pods := rest + [pod]) == moved;
    }
  }
}
