/** Concrete inputs on which the code does not do what one would expect; the exact conditions are with the theorems. */
module Counterexamples {
  import opened Sequences
  import opened SaveRestore
  import opened FakeIptables
  import opened PacketFilter
  import opened NetworkPolicies
  import opened PolicyChains
  import opened Incremental
  import opened SetEdits
  import opened PolicyTexts
  import opened Bytes
  import opened AddressRanges

  function EveryLabel(labels: Labels): bool { true }

  function OnlyWeb(labels: Labels): bool { labels == map["app" := "web"] }

  /** A policy of namespace `ns` that selects by `accepts` and has no rules. */
  function Plain(accepts: Labels -> bool): NetworkPolicy {
    NetworkPolicy(Key("web", "ns"), Selector(accepts), [], [], [])
  }

  // ---- Incremental edits ----

  /** Two pods with one address: deleting one of them takes the address of the other out of the set. */
  lemma SharedExists()
    ensures
      var a, b := Pod(Key("a", "ns"), map[], Some([true]), true), Pod(Key("b", "ns"), map[], Some([true]), true);
      Shared([a], [Plain(EveryLabel)], [], b)
  {
    var a, b := Pod(Key("a", "ns"), map[], Some([true]), true), Pod(Key("b", "ns"), map[], Some([true]), true);
    var np := Plain(EveryLabel);
    assert Picks(np, [], PodSet(np.key), a) && Picks(np, [], PodSet(np.key), b);
    assert Holds([a], np, [], PodSet(np.key), Host([true]));
    assert [np][0] == np;
  }

  /** A pod that loses the label a policy selects stays in the policy's set. */
  lemma OutdatedExists()
    ensures
      var was := Pod(Key("a", "ns"), map["app" := "web"], Some([true]), true);
      Outdated([], [Plain(OnlyWeb)], [], was, was.(labels := map[]))
  {
    var was := Pod(Key("a", "ns"), map["app" := "web"], Some([true]), true);
    var np := Plain(OnlyWeb);
    assert "app" in was.labels && map["app" := "web"] != map[];
    assert Picks(np, [], PodSet(np.key), was) && !Picks(np, [], PodSet(np.key), was.(labels := map[]));
    assert [np][0] == np;
  }

  /** An egress-only policy with an ingress peer crashes the edit for every pod that the peer picks. */
  lemma DisabledPeerCrashes(cluster: Cluster, pod: Pod)
    ensures
      var peer := Peer(Some(Selector(EveryLabel)), None, None);
      var np := Plain(EveryLabel).(ingress := [PeerSpec([], [peer])], policyTypes := [EgressType]);
      !CompilePanics(np) && Compile(cluster, np).Some? && AnyCrashes([Compile(cluster, np).value], cluster.namespaces, pod)
  {
    var peer := Peer(Some(Selector(EveryLabel)), None, None);
    var np := Plain(EveryLabel).(ingress := [PeerSpec([], [peer])], policyTypes := [EgressType]);
    assert np.policyTypes[0] == EgressType && IngressType !in np.policyTypes && !np.Enabled(Inbound);
    assert PeerPicks(cluster.namespaces, np.ingress[0].peers[0], pod);
    assert SpecPicks(cluster.namespaces, np.Specs(Inbound)[0], pod);
    assert SpecCrashes(np, cluster.namespaces, Inbound, 0, pod);
    assert [Compile(cluster, np).value][0].np == np;
  }

  /** With a namespace selector that does not convert, it crashes the edit for every pod. */
  lemma BadSelectorCrashes(cluster: Cluster, pod: Pod)
    ensures
      var peer := Peer(None, Some(BadSelector), None);
      var np := Plain(EveryLabel).(ingress := [PeerSpec([], [peer])], policyTypes := [EgressType]);
      !CompilePanics(np) && Compile(cluster, np).Some? && AnyCrashes([Compile(cluster, np).value], cluster.namespaces, pod)
  {
    var peer := Peer(None, Some(BadSelector), None);
    var np := Plain(EveryLabel).(ingress := [PeerSpec([], [peer])], policyTypes := [EgressType]);
    assert np.policyTypes[0] == EgressType && IngressType !in np.policyTypes && !np.Enabled(Inbound);
    assert PeerPanics(np.ingress[0].peers[0]) && SpecPanics(np.Specs(Inbound)[0]);
    assert SpecCrashes(np, cluster.namespaces, Inbound, 0, pod);
    assert [Compile(cluster, np).value][0].np == np;
  }

  /** In an enabled direction such a selector crashes the compilation. */
  lemma BadSelectorPanics()
    ensures CompilePanics(Plain(EveryLabel).(ingress := [PeerSpec([], [Peer(None, Some(BadSelector), None)])]))
  {
    var np := Plain(EveryLabel).(ingress := [PeerSpec([], [Peer(None, Some(BadSelector), None)])]);
    assert PeerPanics(np.ingress[0].peers[0]) && SpecPanics(np.Specs(Inbound)[0]);
    assert np.Enabled(Inbound) && SidePanics(np, Inbound);
  }

  // ---- Text ----

  /** The last character of an unterminated line is lost when it stands alone. */
  lemma LastWordLost()
    ensures LineAt("ab c", 0) == Read("ab", 4)
  {
    var data := "ab c";
    NewlineAt(data, 0, 4);
    LineIs(data, 0, 0, 2, 3);
  }

  /** An unterminated line that ends in a blank is lost. */
  lemma LastLineLost()
    ensures LineAt("ab ", 0) == Read("", 3)
  {
    NewlineAt("ab ", 0, 3);
  }

  // ---- Restore ----

  /** The filter table with an old rule in the policy's chain and a stale chain whose name extends that chain's name. */
  function Leftover(hash: string -> string): TextTables {
    var c := ChainText(hash, Plain(EveryLabel).key);
    FreshTables()["filter" := FreshTables()["filter"][c := ["-j DROP"]][c + "X" := []]]
  }

  /** The old rule survives: the policy, which has no rules, does not end with an empty chain. */
  lemma LeftoverSurvives(isIP: string -> bool, hash: string -> string)
    requires Addresses(isIP) && Hashing(hash)
    ensures
      var np := Plain(EveryLabel);
      var cluster := Cluster([], [], [np]);
      var c, ps := ChainText(hash, np.key), CompileAll(cluster, [np]);
      var q := RestoreText(isIP, "", false, TextOf("filter", Generated(hash, ps, [c + "X"])), Leftover(hash));
      |ps| == 1 && ChainRules(ps[0]) == [] && "filter" in q.tables && c in q.tables["filter"] && q.tables["filter"][c] != []
  {
    var np := Plain(EveryLabel);
    var cluster := Cluster([], [], [np]);
    var ps := OnlyPolicy(cluster, np);
    var c := ChainText(hash, np.key);
    var stale, tables := [c + "X"], Leftover(hash);
    LeftoverStale(hash, ps, c, tables["filter"], stale);
    GeneratedRestores(isIP, hash, cluster, ps, tables, stale);
    assert ChainTexts(hash, ps)[0] == c && ContentTexts(hash, ps)[0] == [];
    assert c <= stale[0] && Extended(c, stale);
    assert c in ChainTexts(hash, ps) && c !in stale;
  }

  lemma OnlyPolicy(cluster: Cluster, np: NetworkPolicy) returns (ps: seq<CompiledPolicy>)
    requires np == Plain(EveryLabel) && cluster == Cluster([], [], [np])
    ensures ps == CompileAll(cluster, [np]) && |ps| == 1 && ps[0].np == np && ChainRules(ps[0]) == [] && GoodPolicies(cluster, ps)
  {
    ps := CompileAll(cluster, [np]);
    assert [np][..0] == [];
    assert CompileAll(cluster, [np][..0]) == [];
    assert ps == [Compile(cluster, np).value];
  }

  lemma LeftoverStale(hash: string -> string, ps: seq<CompiledPolicy>, c: string, t: TextTable, stale: seq<string>)
    requires Hashing(hash) && |ps| == 1 && c == ChainText(hash, ps[0].np.key)
    requires t == FreshTables()["filter"][c := ["-j DROP"]][c + "X" := []] && stale == [c + "X"]
    ensures StaleIn(hash, ps, t, stale) && GoodNames(stale) && Distinguishes(hash, KeysOf(ps))
  {
    ChainTextGood(hash, ps[0].np.key);
    assert ChainTexts(hash, ps) == [c];
    assert c + "X" != c && "GLX-PLCY" <= c + "X";
    forall x | x in FreshTables()["filter"] ensures !("GLX-PLCY" <= x) { assert x in ["INPUT", "FORWARD", "OUTPUT"] && x[0] != 'G'; }
    forall x ensures x in stale <==> x in t && "GLX-PLCY" <= x && x !in [c] { }
    assert ' ' !in c + "X" && '\n' !in c + "X";
  }

  // ---- Ranges ----

  /** 10.0.0.255/24: the default gateway is 10.0.1.0, outside the subnet. */
  lemma LastAddressSubnet()
    ensures
      var s := Subnet([10, 0, 0, 255], 24, 4);
      GoodSubnet(s) && !Roomy(s) && NextIP(s.ip) == [10, 0, 1, 0] && !Inside(s, NextIP(s.ip))
  {
    var s := Subnet([10, 0, 0, 255], 24, 4);
    Pow2Small();
    HostOfLast(s.ip, 8);
    assert SubnetSize(s) == 256 && Value(s.ip) % 256 == 255;
    NextInside(s);
    assert NextIP([10, 0, 0]) == [10, 0] + [1] by { assert [10, 0, 0][..2] == [10, 0]; }
    assert s.ip[..3] == [10, 0, 0];
  }
}
