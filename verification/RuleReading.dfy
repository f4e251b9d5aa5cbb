/**
 * What the text of a rule says: its words read the way iptables reads them, and what the rule then does to a packet.  The
 * sets are those that the text names.
 */
module RuleReadings {
  import opened Sequences
  import opened Text
  import opened PacketFilter
  import opened NetworkPolicies
  import opened PolicyChains
  import opened PolicyTexts

  datatype TextMatch =
    | TextComment(text: string)
    | TextProto(protocol: Option<Protocol>)
    | TextSet(name: string, end: End)
    | TextPorts(ports: seq<string>)

  datatype TextRule = TextRule(matches: seq<TextMatch>, target: string)

  function ReadProtocol(word: string): Option<Protocol> {
    if word == "all" then None
    else if word == "tcp" then Some(Tcp)
    else if word == "udp" then Some(Udp)
    else Some(OtherProtocol(word))
  }

  function Before(m: TextMatch, rest: Option<TextRule>): Option<TextRule> {
    if rest.None? then None else Some(rest.value.(matches := [m] + rest.value.matches))
  }

  /** -m loads a module; the target comes last. */
  function ReadWords(ws: seq<string>): Option<TextRule>
    decreases |ws|
  {
    if |ws| < 2 then None
    else if ws[0] == "-m" then ReadWords(ws[2..])
    else if ws[0] == "--comment" then Before(TextComment(ws[1]), ReadWords(ws[2..]))
    else if ws[0] == "-p" then Before(TextProto(ReadProtocol(ws[1])), ReadWords(ws[2..]))
    else if ws[0] == "--dports" then Before(TextPorts(Split(ws[1], ',')), ReadWords(ws[2..]))
    else if ws[0] == "--match-set" && |ws| > 2 && ws[2] == "src" then Before(TextSet(ws[1], Src), ReadWords(ws[3..]))
    else if ws[0] == "--match-set" && |ws| > 2 && ws[2] == "dst" then Before(TextSet(ws[1], Dst), ReadWords(ws[3..]))
    else if ws[0] == "-j" && |ws| == 2 then Some(TextRule([], ws[1]))
    else None
  }

  function ReadRule(rule: string): Option<TextRule> {
    ReadWords(Split(rule, ' '))
  }

  // ---- The structured rule behind it ----

  /** The match with its names as texts. */
  function NamedMatch(hash: string -> string, m: Match): TextMatch
    requires m.Comment? || m.Proto? || m.InSet? || m.DstPorts?
  {
    match m
    case Comment(key) => TextComment(KeyText(key))
    case Proto(protocol) => TextProto(protocol)
    case InSet(name, end) => TextSet(SetText(hash, name), end)
    case DstPorts(ports) => TextPorts(ports)
  }

  /** `t` says what `r` says, match by match. */
  ghost predicate Says(hash: string -> string, t: TextRule, r: Rule) {
    && r.target == Accept && t.target == "ACCEPT" && |t.matches| == |r.matches|
    && forall i :: 0 <= i < |r.matches| ==>
         && (r.matches[i].Comment? || r.matches[i].Proto? || r.matches[i].InSet? || r.matches[i].DstPorts?)
         && t.matches[i] == NamedMatch(hash, r.matches[i])
  }

  // One option at a time.

  lemma ReadModule(word: string, rest: seq<string>)
    ensures ReadWords(["-m", word] + rest) == ReadWords(rest)
  {
    assert (["-m", word] + rest)[2..] == rest;
  }

  lemma ReadComment(word: string, rest: seq<string>)
    ensures ReadWords(["--comment", word] + rest) == Before(TextComment(word), ReadWords(rest))
  {
    assert (["--comment", word] + rest)[2..] == rest;
  }

  lemma ReadProto(word: string, rest: seq<string>)
    ensures ReadWords(["-p", word] + rest) == Before(TextProto(ReadProtocol(word)), ReadWords(rest))
  {
    assert (["-p", word] + rest)[2..] == rest;
    assert "-p"[1] != "-m"[1];
  }

  lemma ReadPorts(word: string, rest: seq<string>)
    ensures ReadWords(["--dports", word] + rest) == Before(TextPorts(Split(word, ',')), ReadWords(rest))
  {
    assert (["--dports", word] + rest)[2..] == rest;
  }

  lemma ReadSet(name: string, end: string, rest: seq<string>)
    requires end == "src" || end == "dst"
    ensures ReadWords(["--match-set", name, end] + rest) == Before(TextSet(name, if end == "src" then Src else Dst), ReadWords(rest))
  {
    assert (["--match-set", name, end] + rest)[3..] == rest;
    assert "src"[0] != "dst"[0];
  }

  lemma ReadTarget(word: string)
    ensures ReadWords(["-j", word]) == Some(TextRule([], word))
  {
    assert "-j"[1] != "-m"[1] && "-j"[1] != "-p"[1];
  }

  lemma ReadTail(v: Variant)
    requires GoodVariant(v)
    ensures ReadWords(PortWords(v) + ["-j", "ACCEPT"]) == Some(TextRule(if v.AnyPort? then [] else [TextPorts(v.ports)], "ACCEPT"))
  {
    var end, rest := ["-j", "ACCEPT"], PortWords(v) + ["-j", "ACCEPT"];
    ReadTarget("ACCEPT");
    if v.AnyPort? {
      assert rest == end;
    } else {
      var word := Join(v.ports, ',');
      assert rest == ["-m", "multiport"] + (["--dports", word] + end);
      ReadModule("multiport", ["--dports", word] + end);
      ReadPorts(word, end);
      SplitJoin(v.ports, ',');
      assert [TextPorts(v.ports)] + [] == [TextPorts(v.ports)];
    }
  }

  lemma ReadSetWords(name: string, end: string, rest: seq<string>)
    requires end == "src" || end == "dst"
    ensures ReadWords(["-m", "set", "--match-set", name, end] + rest) == Before(TextSet(name, if end == "src" then Src else Dst), ReadWords(rest))
  {
    ReadModule("set", ["--match-set", name, end] + rest);
    ReadSet(name, end, rest);
    assert ["-m", "set", "--match-set", name, end] + rest == ["-m", "set"] + (["--match-set", name, end] + rest);
  }

  lemma ReadHead(comment: string, protocol: string, rest: seq<string>)
    ensures
      ReadWords(["-m", "comment", "--comment", comment, "-p", protocol] + rest) ==
      Before(TextComment(comment), Before(TextProto(ReadProtocol(protocol)), ReadWords(rest)))
  {
    var afterComment := ["-p", protocol] + rest;
    ReadModule("comment", ["--comment", comment] + afterComment);
    ReadComment(comment, afterComment);
    ReadProto(protocol, rest);
    assert ["-m", "comment", "--comment", comment, "-p", protocol] + rest == ["-m", "comment"] + (["--comment", comment] + afterComment);
  }

  lemma ReadParts(comment: string, v: Variant, src: string, dst: string)
    requires GoodVariant(v)
    ensures
      ReadWords(HeadWords(comment, ProtocolText(v), src, dst) + (PortWords(v) + ["-j", "ACCEPT"])) ==
      Some(TextRule(
        [TextComment(comment), TextProto(ReadProtocol(ProtocolText(v))), TextSet(src, Src), TextSet(dst, Dst)] +
        (if v.AnyPort? then [] else [TextPorts(v.ports)]), "ACCEPT"))
  {
    var tail := PortWords(v) + ["-j", "ACCEPT"];
    var second := ["-m", "set", "--match-set", dst, "dst"] + tail;
    var first := ["-m", "set", "--match-set", src, "src"] + second;
    ReadTail(v);
    ReadSetWords(dst, "dst", tail);
    ReadSetWords(src, "src", second);
    ReadHead(comment, ProtocolText(v), first);
    assert HeadWords(comment, ProtocolText(v), src, dst) + tail ==
      ["-m", "comment", "--comment", comment, "-p", ProtocolText(v)] + first;
    var ports := if v.AnyPort? then [] else [TextPorts(v.ports)];
    var a, b := TextComment(comment), TextProto(ReadProtocol(ProtocolText(v)));
    assert [a] + ([b] + ([TextSet(src, Src)] + ([TextSet(dst, Dst)] + ports))) == [a, b, TextSet(src, Src), TextSet(dst, Dst)] + ports;
  }

  lemma ReadProtocolOf(v: Variant)
    ensures ReadProtocol(ProtocolText(v)) == if v.OnTcp? then Some(Tcp) else if v.OnUdp? then Some(Udp) else None
  {
    assert "tcp"[0] != "all"[0] && "udp"[0] != "all"[0] && "udp"[0] != "tcp"[0];
  }

  /** The words of a rule are read as the rule's own comment, protocol, source set, destination set, ports and target. */
  lemma ReadBack(hash: string -> string, key: Key, v: Variant, src: SetName, dst: SetName)
    requires Hashing(hash) && GoodParts(key, v, src, dst)
    ensures
      var t := ReadWords(SetRuleWords(hash, key, v, src, dst));
      t.Some? && Says(hash, t.value, SetRule(key, v, src, dst))
  {
    ReadParts(KeyText(key), v, SetText(hash, src), SetText(hash, dst));
    ReadProtocolOf(v);
  }

  /** The text of every rule of a policy's chain says what the compiled rule says. */
  lemma ChainRuleReads(hash: string -> string, cluster: Cluster, p: CompiledPolicy, r: Rule)
    requires Hashing(hash) && Compile(cluster, p.np) == Some(p) && r in ChainRules(p) && GoodPolicy(p)
    ensures var t := ReadRule(Join(RuleWords(hash, r), ' ')); t.Some? && Says(hash, t.value, r)
  {
    var v, src, dst := ChainRuleParts(cluster, p, r);
    RuleWordsOf(hash, p.np.key, v, src, dst);
    SetRuleIsWords(hash, p.np.key, v, src, dst);
    WordsBlankFree(RuleWords(hash, r));
    SplitJoin(RuleWords(hash, r), ' ');
    ReadBack(hash, p.np.key, v, src, dst);
  }

  /** The texts say what the rules say, one by one and in order. */
  ghost predicate AllSay(hash: string -> string, texts: seq<string>, rules: seq<Rule>) {
    && |texts| == |rules|
    && forall i :: 0 <= i < |rules| ==> ReadRule(texts[i]).Some? && Says(hash, ReadRule(texts[i]).value, rules[i])
  }

  lemma ChainReads(hash: string -> string, cluster: Cluster, p: CompiledPolicy)
    requires Hashing(hash) && Compile(cluster, p.np) == Some(p) && GoodPolicy(p)
    ensures AllSay(hash, RuleTexts(hash, ChainRules(p)), ChainRules(p))
  {
    var rules := ChainRules(p);
    forall i | 0 <= i < |rules|
      ensures var t := ReadRule(RuleTexts(hash, rules)[i]); t.Some? && Says(hash, t.value, rules[i])
    {
      ChainRuleReads(hash, cluster, p, rules[i]);
    }
  }
}
