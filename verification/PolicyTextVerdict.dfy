/** What the text that syncIptables restores does to a packet. */
module PolicyTextVerdicts {
  import opened Sequences
  import opened Tables
  import opened PacketFilter
  import opened NetworkPolicies
  import opened PolicyChains
  import opened FakeIptables
  import opened PolicyTexts
  import opened RuleReadings
  import opened PolicyTextSync
  import opened Verdicts

  /** Sets by the names that texts use. */
  type TextSets = map<string, set<Entry>>

  ghost predicate TextHolds(sets: TextSets, m: TextMatch, p: Packet) {
    match m
    case TextComment(_) => true
    case TextProto(protocol) => protocol == None || protocol == Some(p.protocol)
    case TextSet(name, end) => name in sets && SetCovers(sets[name], if end.Src? then p.src else p.dst)
    case TextPorts(ports) => p.dstPort in ports
  }

  ghost predicate TextMatches(sets: TextSets, t: TextRule, p: Packet) {
    forall i :: 0 <= i < |t.matches| ==> TextHolds(sets, t.matches[i], p)
  }

  /** The first rule that matches decides. */
  ghost function TextVerdict(sets: TextSets, rules: seq<string>, p: Packet): Verdict
    decreases |rules|
  {
    if rules == [] then FallThrough
    else
      var t := ReadRule(rules[0]);
      if t.Some? && TextMatches(sets, t.value, p) && t.value.target == "ACCEPT" then Accepted
      else if t.Some? && TextMatches(sets, t.value, p) && t.value.target == "DROP" then Dropped
      else TextVerdict(sets, rules[1..], p)
  }

  /** The policy's sets exist under their texts, with the same entries. */
  ghost predicate SetsAlike(hash: string -> string, key: Key, sets: Sets, texts: TextSets) {
    forall n :: OwnSet(n) && n.policy == key ==>
      (n in sets <==> SetText(hash, n) in texts) && (n in sets ==> texts[SetText(hash, n)] == sets[n])
  }

  ghost predicate OwnSetsOnly(key: Key, r: Rule) {
    forall i :: 0 <= i < |r.matches| && r.matches[i].InSet? ==> OwnSet(r.matches[i].name) && r.matches[i].name.policy == key
  }

  lemma SaidMatches(w: World, hash: string -> string, key: Key, sets: Sets, texts: TextSets, t: TextRule, r: Rule, p: Packet)
    requires Says(hash, t, r) && SetsAlike(hash, key, sets, texts) && OwnSetsOnly(key, r)
    ensures TextMatches(texts, t, p) <==> RuleMatches(w, sets, r, p)
  {
    forall i | 0 <= i < |r.matches| ensures TextHolds(texts, t.matches[i], p) <==> MatchHolds(w, sets, r.matches[i], p) {
      assert t.matches[i] == NamedMatch(hash, r.matches[i]);
    }
  }

  lemma {:induction false} SaidVerdict(w: World, hash: string -> string, key: Key, k: Kernel, texts: TextSets, lines: seq<string>, rules: seq<Rule>,
                                       p: Packet, depth: nat)
    requires AllSay(hash, lines, rules) && SetsAlike(hash, key, k.sets, texts)
    requires forall i :: 0 <= i < |rules| ==> OwnSetsOnly(key, rules[i])
    ensures TextVerdict(texts, lines, p) == Evaluate(w, k, rules, p, depth)
    decreases |rules|
  {
    if rules != [] {
      SaidMatches(w, hash, key, k.sets, texts, ReadRule(lines[0]).value, rules[0], p);
      assert forall i :: 0 <= i < |rules[1..]| ==> rules[1..][i] == rules[i + 1] && lines[1..][i] == lines[i + 1];
      SaidVerdict(w, hash, key, k, texts, lines[1..], rules[1..], p, depth);
      assert "ACCEPT"[0] != "DROP"[0];
    }
  }

  lemma SetRuleOwn(key: Key, v: Variant, src: SetName, dst: SetName)
    requires OwnSet(src) && OwnSet(dst) && src.policy == key && dst.policy == key
    ensures OwnSetsOnly(key, SetRule(key, v, src, dst))
  {
  }

  lemma ChainSetsOwn(cluster: Cluster, p: CompiledPolicy, r: Rule)
    requires Compile(cluster, p.np) == Some(p) && r in ChainRules(p) && GoodPolicy(p)
    ensures OwnSetsOnly(p.np.key, r)
  {
    var v, src, dst := ChainRuleParts(cluster, p, r);
    SetRuleOwn(p.np.key, v, src, dst);
  }

  /**
   * After syncIptables on text, with the sets in place, the chain of every policy accepts exactly what the policy allows and
   * otherwise returns, in any table whose policy chains have the controller's fixed-length names.
   */
  lemma RestoredVerdict(hash: string -> string, cluster: Cluster, ps: seq<CompiledPolicy>, t: TextTable, u: TextTable,
                        sets: Sets, texts: TextSets, n: nat, p: Packet)
    requires Hashing(hash) && GoodPolicies(cluster, ps) && ReadsAsCompiled(hash, ps, t, u) && n < |ps|
    requires forall c :: c in t && "GLX-PLCY" <= c ==> |c| == 25
    requires SetsInPlace(cluster, ps, sets) && SetsAlike(hash, ps[n].np.key, sets, texts)
    ensures
      var c := ChainText(hash, ps[n].np.key);
      c in u && TextVerdict(texts, u[c], p) == if Allows(cluster, ps[n].np, p) then Accepted else FallThrough
  {
    var c, rules := ChainText(hash, ps[n].np.key), ChainRules(ps[n]);
    ChainTextGood(hash, ps[n].np.key);
    assert ChainTexts(hash, ps)[n] == c && c in ChainTexts(hash, ps);
    forall d | d in t && "GLX-PLCY" <= d && d !in ChainTexts(hash, ps) ensures !(c <= d) {
      assert |d| == |c| && d != c;
    }
    forall i | 0 <= i < |rules| ensures OwnSetsOnly(ps[n].np.key, rules[i]) { ChainSetsOwn(cluster, ps[n], rules[i]); }
    var w, k := World((_, _) => false, (_, _) => FallThrough), Kernel(map[], sets);
    SaidVerdict(w, hash, ps[n].np.key, k, texts, u[c], rules, p, 0);
    PolicyChainVerdict(w, cluster, ps, n, k, p, 0);
  }
}
