/**
 * The text that syncIptables writes for compiled policies, and what restoring it does.
 * The hash of names is a parameter: 16 base32 characters that do not collide on the policies at hand.
 */
module PolicyTexts {
  import opened Sequences
  import opened Tables
  import opened Text
  import opened RuleText
  import opened FakeIptables
  import opened PacketFilter
  import opened NetworkPolicies
  import opened PolicyChains

  // ---- Words ----

  predicate WordChar(c: char) {
    'a' <= c <= 'z' || 'A' <= c <= 'Z' || '0' <= c <= '9' || c == '-' || c == ','
  }

  /** A word of letters, digits, dashes and commas; dots and underscores only together with an underscore. */
  ghost predicate Word(w: string) {
    w != "" && forall c :: c in w ==> WordChar(c) || (c in "._" && '_' in w)
  }

  ghost predicate Words(ws: seq<string>) {
    forall i :: 0 <= i < |ws| ==> Word(ws[i])
  }

  /** An address has a dot or a colon, and none of the other marks. */
  ghost predicate Addresses(isIP: string -> bool) {
    forall s :: isIP(s) ==> ('.' in s || ':' in s) && '_' !in s && '/' !in s && '"' !in s
  }

  lemma WordStable(isIP: string -> bool, w: string)
    requires Addresses(isIP) && Word(w)
    ensures Bare(isIP, w) && ' ' !in w && '\n' !in w && '"' !in w
  {
    assert forall c :: c in w ==> !IsSpace(c) && c != '=' && c != '"' && c != ':';
    assert w[0] in w;
    if |w| > 16 { assert w[16] in w; }
    NotPrefix(TO_DESTINATION, w, 16);
  }

  lemma {:induction false} JoinChars(ws: seq<string>, sep: char, c: char)
    requires c != sep && forall i :: 0 <= i < |ws| ==> c !in ws[i]
    ensures c !in Join(ws, sep)
    decreases |ws|
  {
    if |ws| > 1 { JoinChars(ws[1..], sep, c); }
  }

  /** Blank-separated words are a rule in normal form. */
  lemma WordsGoodRule(isIP: string -> bool, ws: seq<string>)
    requires Addresses(isIP) && Words(ws) && ws != []
    ensures GoodRule(isIP, Join(ws, ' '))
  {
    forall i | 0 <= i < |ws| ensures Stable(isIP, ws[i]) && '\n' !in ws[i] { WordStable(isIP, ws[i]); }
    JoinChars(ws, ' ', '\n');
    StableParts(isIP, ws);
    JoinedEdges(ws);
    TrimVisible(Join(ws, ' '));
    ScanJoined(isIP, ws);
  }

  /** Joining words that do not hold the separator loses nothing. */
  lemma JoinInjective(a: seq<string>, b: seq<string>, sep: char)
    requires a != [] && b != [] && Join(a, sep) == Join(b, sep)
    requires forall i :: 0 <= i < |a| ==> sep !in a[i]
    requires forall i :: 0 <= i < |b| ==> sep !in b[i]
    ensures a == b
  {
    SplitJoin(a, sep);
    SplitJoin(b, sep);
  }

  // ---- No word sequence hides a deletion ----

  /** A word that begins with G does not follow one that ends in X. */
  ghost predicate NoGap(ws: seq<string>) {
    forall i :: 0 < i < |ws| && ws[i] != "" && ws[i][0] == 'G' && ws[i - 1] != "" ==> ws[i - 1][|ws[i - 1]| - 1] != 'X'
  }

  ghost predicate XThenG(s: string, k: nat) {
    k + 2 < |s| && s[k] == 'X' && s[k + 1] == ' ' && s[k + 2] == 'G'
  }

  lemma {:induction false} JoinNoGap(ws: seq<string>, k: nat)
    requires NoGap(ws) && forall i :: 0 <= i < |ws| ==> ' ' !in ws[i]
    ensures !XThenG(Join(ws, ' '), k)
    decreases |ws|
  {
    var s := Join(ws, ' ');
    if |ws| == 1 {
      if k + 1 < |s| { assert s[k + 1] in ws[0]; }
    } else if |ws| > 1 {
      var n := |ws[0]|;
      var rest := Join(ws[1..], ' ');
      assert s == ws[0] + " " + rest;
      assert forall i :: 0 <= i < |ws[1..]| ==> ws[1..][i] == ws[i + 1];
      if k + 1 < n {
        assert s[k + 1] == ws[0][k + 1];
      } else if k + 1 == n {
        assert s[k] == ws[0][n - 1];
        if k + 2 < |s| { assert s[k + 2] == rest[0]; JoinFirst(ws[1..]); }
      } else if k > n {
        JoinNoGap(ws[1..], k - n - 1);
        assert forall j :: 0 <= j < |rest| ==> s[n + 1 + j] == rest[j];
      }
    }
  }

  lemma JoinFirst(ws: seq<string>)
    requires ws != [] && Join(ws, ' ') != ""
    ensures Join(ws, ' ')[0] == if ws[0] == "" then ' ' else ws[0][0]
  {
  }

  lemma NoGapNoDeletion(ws: seq<string>, c: string)
    requires NoGap(ws) && (forall i :: 0 <= i < |ws| ==> ' ' !in ws[i]) && c != "" && c[0] == 'G'
    ensures !Contains(Join(ws, ' '), "-X " + c)
  {
    var s := Join(ws, ' ');
    forall i: nat | i <= |s| ensures !OccursAt(s, "-X " + c, i) {
      JoinNoGap(ws, i + 1);
      if i + 3 < |s| {
        NoDeletionAt(s, c, i);
      } else {
        assert |"-X " + c| >= 4;
      }
    }
  }

  // ---- Names ----

  predicate NameChar(c: char) {
    'a' <= c <= 'z' || '0' <= c <= '9' || c == '-' || c == '.'
  }

  /** Object names as Kubernetes admits them. */
  ghost predicate DnsName(s: string) {
    s != "" && forall c :: c in s ==> NameChar(c)
  }

  ghost predicate NamedKey(k: Key) {
    DnsName(k.name) && DnsName(k.namespace)
  }

  function KeyText(k: Key): string {
    k.name + "_" + k.namespace
  }

  lemma KeyTextWord(k: Key)
    requires NamedKey(k)
    ensures Word(KeyText(k)) && KeyText(k)[0] != 'G'
  {
    var t := KeyText(k);
    assert t[|k.name|] == '_';
    assert forall c :: c in t ==> c in k.name || c == '_' || c in k.namespace;
    assert t[0] == k.name[0] && k.name[0] in k.name;
  }

  lemma KeyTextInjective(a: Key, b: Key)
    requires NamedKey(a) && NamedKey(b) && KeyText(a) == KeyText(b)
    ensures a == b
  {
    SplitFirst(a.name, '_', a.namespace);
    SplitFirst(b.name, '_', b.namespace);
    IndexOfAbsent(a.namespace, '_');
    IndexOfAbsent(b.namespace, '_');
    assert Split(KeyText(a), '_') == [a.name, a.namespace] && Split(KeyText(b), '_') == [b.name, b.namespace];
  }

  predicate Base32(c: char) {
    'A' <= c <= 'Z' || '2' <= c <= '7'
  }

  /** The shape of nameHash and tableNameHash: 16 characters of base32. */
  ghost predicate Hashing(hash: string -> string) {
    forall s :: |hash(s)| == 16 && forall c :: c in hash(s) ==> Base32(c)
  }

  /** No two of the keys collide. */
  ghost predicate Distinguishes(hash: string -> string, keys: set<Key>) {
    forall a, b :: a in keys && b in keys && hash(KeyText(a)) == hash(KeyText(b)) ==> a == b
  }

  function Decimal(n: nat): (s: string)
    ensures s != "" && forall c :: c in s ==> '0' <= c <= '9'
  {
    var digit := ['0' + (n % 10) as char];
    if n < 10 then digit else Decimal(n / 10) + digit
  }

  /** The number that a text of decimal digits denotes. */
  function Number(s: string): int {
    if s == "" then 0 else 10 * Number(s[..|s| - 1]) + (s[|s| - 1] as int - '0' as int)
  }

  lemma {:induction false} DecimalDenotes(n: nat)
    ensures Number(Decimal(n)) == n
    decreases n
  {
    if n >= 10 {
      DecimalDenotes(n / 10);
      assert Decimal(n)[..|Decimal(n)| - 1] == Decimal(n / 10);
    }
  }

  lemma {:induction false} DecimalInjective(a: nat, b: nat)
    requires Decimal(a) == Decimal(b)
    ensures a == b
    decreases a
  {
    var s, t := Decimal(a), Decimal(b);
    assert s[|s| - 1] == '0' + (a % 10) as char && t[|t| - 1] == '0' + (b % 10) as char;
    assert a % 10 == b % 10;
    if a >= 10 && b >= 10 {
      assert Decimal(a / 10) == s[..|s| - 1] && Decimal(b / 10) == t[..|t| - 1];
      DecimalInjective(a / 10, b / 10);
    } else {
      assert a >= 10 ==> |s| >= 2;
      assert b >= 10 ==> |t| >= 2;
    }
  }

  /** GLX-PLCY- and the hash of the policy's name and namespace. */
  function ChainText(hash: string -> string, k: Key): string {
    "GLX-PLCY-" + hash(KeyText(k))
  }

  /** Policies whose hashes do not collide have different chains. */
  lemma ChainTextInjective(hash: string -> string, keys: set<Key>, a: Key, b: Key)
    requires Distinguishes(hash, keys) && a in keys && b in keys
    ensures ChainText(hash, a) == ChainText(hash, b) <==> a == b
  {
    assert hash(KeyText(a)) == ChainText(hash, a)[9..] && hash(KeyText(b)) == ChainText(hash, b)[9..];
  }

  /** The sets of a policy; any other set keeps its own name. */
  function SetWords(hash: string -> string, n: SetName): seq<string> {
    match n
    case PodSet(k) => ["GLX", "ip", hash(KeyText(k))]
    case PeerHosts(d, i, k) => ["GLX", if d.Inbound? then "sip" else "dip", Decimal(i), hash(KeyText(k))]
    case PeerNets(d, i, k) => ["GLX", if d.Inbound? then "snet" else "dnet", Decimal(i), hash(KeyText(k))]
    case StrayGlx(name) => [name]
    case Unmanaged(name) => [name]
  }

  function SetText(hash: string -> string, n: SetName): string {
    Join(SetWords(hash, n), '-')
  }

  ghost predicate OwnSet(n: SetName) {
    (n.PodSet? || n.PeerHosts? || n.PeerNets?) && NamedKey(n.policy)
  }

  /** The names of a policy's sets, part by part. */
  lemma SetTextIs(hash: string -> string, k: Key, d: Direction, i: nat)
    ensures
      var h := hash(k.name + "_" + k.namespace);
      && SetText(hash, PodSet(k)) == "GLX" + "-" + "ip" + "-" + h
      && SetText(hash, PeerHosts(d, i, k)) == "GLX" + "-" + (if d.Inbound? then "sip" else "dip") + "-" + Decimal(i) + "-" + h
      && SetText(hash, PeerNets(d, i, k)) == "GLX" + "-" + (if d.Inbound? then "snet" else "dnet") + "-" + Decimal(i) + "-" + h
  {
    var h := hash(KeyText(k));
    JoinThree("GLX", "ip", h);
    JoinFour("GLX", if d.Inbound? then "sip" else "dip", Decimal(i), h);
    JoinFour("GLX", if d.Inbound? then "snet" else "dnet", Decimal(i), h);
  }

  /** All of them have the prefix by which stale sets are told from other sets. */
  lemma SetTextPrefix(hash: string -> string, n: SetName)
    requires OwnSet(n)
    ensures "GLX" <= SetText(hash, n)
  {
    JoinBegins(SetWords(hash, n));
  }

  lemma JoinBegins(ws: seq<string>)
    requires |ws| > 1
    ensures ws[0] + "-" <= Join(ws, '-')
  {
  }

  lemma JoinThree(a: string, b: string, c: string)
    ensures Join([a, b, c], '-') == a + "-" + b + "-" + c
  {
    JoinCons(b, [c], '-');
    JoinCons(a, [b, c], '-');
    assert [a] + [b, c] == [a, b, c] && [b] + [c] == [b, c];
  }

  lemma JoinFour(a: string, b: string, c: string, d: string)
    ensures Join([a, b, c, d], '-') == a + "-" + b + "-" + c + "-" + d
  {
    JoinThree(b, c, d);
    JoinCons(a, [b, c, d], '-');
    assert [a] + [b, c, d] == [a, b, c, d];
  }

  lemma SetWordsPlain(hash: string -> string, n: SetName)
    requires Hashing(hash) && OwnSet(n)
    ensures forall i :: 0 <= i < |SetWords(hash, n)| ==> '-' !in SetWords(hash, n)[i] && Word(SetWords(hash, n)[i])
  {
  }

  lemma {:induction false} JoinWord(ws: seq<string>)
    requires ws != [] && Words(ws)
    ensures Word(Join(ws, '-'))
    decreases |ws|
  {
    if |ws| > 1 { JoinWord(ws[1..]); }
  }

  lemma SetTextWord(hash: string -> string, n: SetName)
    requires Hashing(hash) && OwnSet(n)
    ensures Word(SetText(hash, n))
  {
    SetWordsPlain(hash, n);
    JoinWord(SetWords(hash, n));
  }

  /** Different sets of policies whose hashes do not collide have different names. */
  lemma SetTextInjective(hash: string -> string, keys: set<Key>, a: SetName, b: SetName)
    requires Hashing(hash) && Distinguishes(hash, keys) && OwnSet(a) && OwnSet(b) && a.policy in keys && b.policy in keys
    requires SetText(hash, a) == SetText(hash, b)
    ensures a == b
  {
    SetWordsPlain(hash, a);
    SetWordsPlain(hash, b);
    JoinInjective(SetWords(hash, a), SetWords(hash, b), '-');
    var v, w := SetWords(hash, a), SetWords(hash, b);
    assert v[|v| - 1] == hash(KeyText(a.policy)) && w[|w| - 1] == hash(KeyText(b.policy));
    if |v| == 4 {
      assert v[2] == Decimal(a.index) && w[2] == Decimal(b.index);
      DecimalInjective(a.index, b.index);
    }
  }

  // ---- Rules ----

  function ProtocolText(v: Variant): string {
    match v
    case AnyPort => "all"
    case OnTcp(_) => "tcp"
    case OnUdp(_) => "udp"
  }

  function HeadWords(comment: string, protocol: string, src: string, dst: string): seq<string> {
    ["-m", "comment", "--comment", comment, "-p", protocol,
     "-m", "set", "--match-set", src, "src", "-m", "set", "--match-set", dst, "dst"]
  }

  function PortWords(v: Variant): seq<string> {
    if v.AnyPort? then [] else ["-m", "multiport", "--dports", Join(v.ports, ',')]
  }

  /** What writePolicyChainRules writes after the chain's name. */
  function SetRuleWords(hash: string -> string, key: Key, v: Variant, src: SetName, dst: SetName): seq<string> {
    HeadWords(KeyText(key), ProtocolText(v), SetText(hash, src), SetText(hash, dst)) + (PortWords(v) + ["-j", "ACCEPT"])
  }

  /** The words of a rule of a policy chain; other rules are not written by syncIptables. */
  function RuleWords(hash: string -> string, r: Rule): seq<string> {
    if 4 <= |r.matches| <= 5 && r.matches[0].Comment? && r.matches[2].InSet? && r.matches[3].InSet? then
      SetRuleWords(hash, r.matches[0].key, VariantOf(r), r.matches[2].name, r.matches[3].name)
    else []
  }

  function VariantOf(r: Rule): Variant {
    if |r.matches| == 5 && r.matches[4].DstPorts? && r.matches[1] == Proto(Some(Tcp)) then OnTcp(r.matches[4].ports)
    else if |r.matches| == 5 && r.matches[4].DstPorts? && r.matches[1] == Proto(Some(Udp)) then OnUdp(r.matches[4].ports)
    else AnyPort
  }

  lemma RuleWordsOf(hash: string -> string, key: Key, v: Variant, src: SetName, dst: SetName)
    ensures RuleWords(hash, SetRule(key, v, src, dst)) == SetRuleWords(hash, key, v, src, dst)
  {
  }

  predicate PortChar(c: char) {
    'a' <= c <= 'z' || '0' <= c <= '9' || c == '-'
  }

  /** A port number or a port name. */
  ghost predicate PortText(s: string) {
    s != "" && forall c :: c in s ==> PortChar(c)
  }

  ghost predicate PortTexts(ports: seq<string>) {
    forall i :: 0 <= i < |ports| ==> PortText(ports[i])
  }

  ghost predicate GoodVariant(v: Variant) {
    !v.AnyPort? ==> v.ports != [] && PortTexts(v.ports)
  }

  lemma {:induction false} PortsWord(ports: seq<string>)
    requires ports != [] && PortTexts(ports)
    ensures Word(Join(ports, ',')) && (forall c :: c in Join(ports, ',') ==> c != 'G')
    decreases |ports|
  {
    if |ports| > 1 { PortsWord(ports[1..]); }
  }

  lemma PortsInjective(a: seq<string>, b: seq<string>)
    requires a != [] && b != [] && PortTexts(a) && PortTexts(b) && Join(a, ',') == Join(b, ',')
    ensures a == b
  {
    JoinInjective(a, b, ',');
  }

  lemma MatchWords()
    ensures Word("-m") && Word("comment") && Word("--comment") && Word("-p")
  {
  }

  lemma MatchSetWords()
    ensures Word("set") && Word("--match-set") && Word("src") && Word("dst")
  {
  }

  lemma HeadIsWords(comment: string, protocol: string, src: string, dst: string)
    requires Word(comment) && Word(protocol) && Word(src) && Word(dst)
    ensures Words(HeadWords(comment, protocol, src, dst))
  {
    MatchWords();
    MatchSetWords();
  }

  lemma TailIsWords(v: Variant)
    requires GoodVariant(v)
    ensures Words(PortWords(v) + ["-j", "ACCEPT"])
  {
    if !v.AnyPort? { PortsWord(v.ports); }
    assert Word("-m") && Word("multiport") && Word("--dports") && Word("-j") && Word("ACCEPT");
  }

  /** The parts of a rule of the controller's. */
  ghost predicate GoodParts(key: Key, v: Variant, src: SetName, dst: SetName) {
    NamedKey(key) && GoodVariant(v) && OwnSet(src) && OwnSet(dst) && src.policy == key && dst.policy == key
  }

  lemma SetRuleIsWords(hash: string -> string, key: Key, v: Variant, src: SetName, dst: SetName)
    requires Hashing(hash) && GoodParts(key, v, src, dst)
    ensures Words(SetRuleWords(hash, key, v, src, dst))
  {
    KeyTextWord(key);
    SetTextWord(hash, src);
    SetTextWord(hash, dst);
    assert Word(ProtocolText(v)) by { assert Word("all") && Word("tcp") && Word("udp"); }
    HeadIsWords(KeyText(key), ProtocolText(v), SetText(hash, src), SetText(hash, dst));
    TailIsWords(v);
  }

  /** Different rules have different texts. */
  lemma SetRuleTextInjective(hash: string -> string, key: Key, v: Variant, src: SetName, dst: SetName,
                             u: Variant, src': SetName, dst': SetName)
    requires Hashing(hash) && GoodParts(key, v, src, dst) && GoodParts(key, u, src', dst')
    requires Join(SetRuleWords(hash, key, v, src, dst), ' ') == Join(SetRuleWords(hash, key, u, src', dst'), ' ')
    ensures v == u && src == src' && dst == dst'
  {
    var a, b := SetRuleWords(hash, key, v, src, dst), SetRuleWords(hash, key, u, src', dst');
    SetRuleIsWords(hash, key, v, src, dst);
    SetRuleIsWords(hash, key, u, src', dst');
    WordsBlankFree(a);
    WordsBlankFree(b);
    JoinInjective(a, b, ' ');
    assert a[9] == SetText(hash, src) && b[9] == SetText(hash, src');
    assert a[14] == SetText(hash, dst) && b[14] == SetText(hash, dst');
    SetTextInjective(hash, {key}, src, src');
    SetTextInjective(hash, {key}, dst, dst');
    SameVariant(a, b, hash, key, v, u, src, dst);
  }

  lemma SameVariant(a: seq<string>, b: seq<string>, hash: string -> string, key: Key, v: Variant, u: Variant, src: SetName, dst: SetName)
    requires GoodVariant(v) && GoodVariant(u) && a == b
    requires a == SetRuleWords(hash, key, v, src, dst) && b == SetRuleWords(hash, key, u, src, dst)
    ensures v == u
  {
    assert a[5] == ProtocolText(v) && b[5] == ProtocolText(u);
    assert "all"[0] != "tcp"[0] && "all"[0] != "udp"[0] && "tcp"[0] != "udp"[0];
    if !v.AnyPort? {
      assert a[19] == Join(v.ports, ',') && b[19] == Join(u.ports, ',');
      PortsInjective(v.ports, u.ports);
    }
  }

  lemma WordsBlankFree(ws: seq<string>)
    requires Words(ws)
    ensures forall i :: 0 <= i < |ws| ==> ' ' !in ws[i]
  {
  }

  /** No rule line of a policy chain looks like the deletion of a controller's chain. */
  lemma SetRuleNoGap(hash: string -> string, chain: string, key: Key, v: Variant, src: SetName, dst: SetName)
    requires Hashing(hash) && GoodParts(key, v, src, dst)
    ensures NoGap(["-A", chain] + SetRuleWords(hash, key, v, src, dst))
  {
    KeyTextWord(key);
    HeadNoG(KeyText(key), ProtocolText(v), SetText(hash, src), SetText(hash, dst));
    TailNoG(v);
    var ws := SetRuleWords(hash, key, v, src, dst);
    var all := ["-A", chain] + ws;
    forall i | 0 < i < |all| && all[i] != "" && all[i][0] == 'G' && all[i - 1] != ""
      ensures all[i - 1][|all[i - 1]| - 1] != 'X'
    {
      assert i == 1 || i - 2 == 9 || i - 2 == 14 by {
        if i >= 2 { assert all[i] == ws[i - 2]; }
      }
      assert all[0] == "-A" && all[10] == ws[8] == "--match-set" && all[15] == ws[13] == "--match-set";
    }
  }

  lemma HeadNoG(comment: string, protocol: string, src: string, dst: string)
    requires comment != "" && comment[0] != 'G' && protocol in {"all", "tcp", "udp"}
    ensures
      var ws := HeadWords(comment, protocol, src, dst);
      forall i :: 0 <= i < |ws| && i != 9 && i != 14 && ws[i] != "" ==> ws[i][0] != 'G'
  {
  }

  lemma TailNoG(v: Variant)
    requires GoodVariant(v)
    ensures
      var ws := PortWords(v) + ["-j", "ACCEPT"];
      forall i :: 0 <= i < |ws| && ws[i] != "" ==> ws[i][0] != 'G'
  {
    if !v.AnyPort? {
      PortsWord(v.ports);
      assert Join(v.ports, ',')[0] in Join(v.ports, ',');
    }
  }

  // ---- The text for all policies ----

  /** Names and ports that Kubernetes admits. */
  ghost predicate GoodPolicy(p: CompiledPolicy) {
    && NamedKey(p.np.key)
    && forall d: Direction, i :: p.Side(d).Some? && 0 <= i < |p.Side(d).value.rules| ==> GoodRulePorts(p.Side(d).value.rules[i])
  }

  ghost predicate GoodRulePorts(rule: CompiledRule) {
    PortTexts(rule.tcpPorts) && PortTexts(rule.udpPorts)
  }

  /** The names that a compiled rule gives to its peer tables are the policy's own. */
  lemma PeerNamesOwn(key: Key, d: Direction, i: nat, rule: CompiledRule, peer: SetName)
    requires NamedKey(key) && IndexedRule(key, d, i, rule) && peer in PeerNames(rule)
    ensures OwnSet(peer) && peer.policy == key
  {
  }

  lemma VariantsGood(rule: CompiledRule, v: Variant)
    requires GoodRulePorts(rule) && v in Variants(rule.tcpPorts, rule.udpPorts)
    ensures GoodVariant(v)
  {
  }

  lemma SideRuleParts(cluster: Cluster, p: CompiledPolicy, d: Direction, r: Rule) returns (v: Variant, peer: SetName)
    requires Compile(cluster, p.np) == Some(p) && r in SideRules(p.np.key, d, p.Side(d)) && GoodPolicy(p)
    ensures r == PairRule(p.np.key, d, PodSet(p.np.key), peer, v) && GoodVariant(v) && OwnSet(peer) && peer.policy == p.np.key
  {
    CompiledSideIndexed(cluster, p, d);
    var i;
    i, peer, v := SideRuleAt(p, d, r);
    var rule := p.Side(d).value.rules[i];
    assert IndexedRule(p.np.key, d, i, rule) && GoodRulePorts(rule);
    PeerNamesOwn(p.np.key, d, i, rule, peer);
    VariantsGood(rule, v);
  }

  lemma ChainRuleParts(cluster: Cluster, p: CompiledPolicy, r: Rule) returns (v: Variant, src: SetName, dst: SetName)
    requires Compile(cluster, p.np) == Some(p) && r in ChainRules(p) && GoodPolicy(p)
    ensures r == SetRule(p.np.key, v, src, dst) && GoodParts(p.np.key, v, src, dst)
  {
    var d := if r in SideRules(p.np.key, Inbound, p.Side(Inbound)) then Inbound else Outbound;
    var peer;
    v, peer := SideRuleParts(cluster, p, d, r);
    src, dst := if d.Inbound? then peer else PodSet(p.np.key), if d.Inbound? then PodSet(p.np.key) else peer;
  }

  function RuleTexts(hash: string -> string, rules: seq<Rule>): seq<string> {
    seq(|rules|, i requires 0 <= i < |rules| => Join(RuleWords(hash, rules[i]), ' '))
  }

  function ChainTexts(hash: string -> string, ps: seq<CompiledPolicy>): seq<string> {
    seq(|ps|, i requires 0 <= i < |ps| => ChainText(hash, ps[i].np.key))
  }

  function ContentTexts(hash: string -> string, ps: seq<CompiledPolicy>): seq<seq<string>> {
    seq(|ps|, i requires 0 <= i < |ps| => RuleTexts(hash, ChainRules(ps[i])))
  }

  lemma ChainRuleText(isIP: string -> bool, hash: string -> string, cluster: Cluster, p: CompiledPolicy, r: Rule)
    requires Addresses(isIP) && Hashing(hash) && Compile(cluster, p.np) == Some(p) && r in ChainRules(p) && GoodPolicy(p)
    ensures GoodRule(isIP, Join(RuleWords(hash, r), ' '))
  {
    var v, src, dst := ChainRuleParts(cluster, p, r);
    RuleWordsOf(hash, p.np.key, v, src, dst);
    SetRuleIsWords(hash, p.np.key, v, src, dst);
    WordsGoodRule(isIP, RuleWords(hash, r));
  }

  lemma RuleLineWords(chain: string, ws: seq<string>)
    requires ws != []
    ensures RuleLine(Append, chain, Join(ws, ' ')) == Join(["-A", chain] + ws, ' ')
  {
    var all := ["-A", chain] + ws;
    assert all[1..] == [chain] + ws && all[1..][1..] == ws;
    assert Join(all[1..], ' ') == chain + " " + Join(ws, ' ');
    assert Join(all, ' ') == "-A" + [' '] + (chain + " " + Join(ws, ' '));
  }

  lemma ChainRuleQuiet(hash: string -> string, cluster: Cluster, p: CompiledPolicy, r: Rule, chain: string, c: string)
    requires Hashing(hash) && Compile(cluster, p.np) == Some(p) && r in ChainRules(p) && GoodPolicy(p)
    requires ' ' !in chain && c != "" && c[0] == 'G'
    ensures !Contains(RuleLine(Append, chain, Join(RuleWords(hash, r), ' ')), "-X " + c)
  {
    var v, src, dst := ChainRuleParts(cluster, p, r);
    RuleWordsOf(hash, p.np.key, v, src, dst);
    var ws := RuleWords(hash, r);
    SetRuleIsWords(hash, p.np.key, v, src, dst);
    WordsBlankFree(ws);
    SetRuleNoGap(hash, chain, p.np.key, v, src, dst);
    NoGapNoDeletion(["-A", chain] + ws, c);
    RuleLineWords(chain, ws);
  }

  lemma RuleTextsDistinct(hash: string -> string, cluster: Cluster, p: CompiledPolicy)
    requires Hashing(hash) && Compile(cluster, p.np) == Some(p) && GoodPolicy(p)
    ensures NoDuplicates(RuleTexts(hash, ChainRules(p)))
  {
    var rules := ChainRules(p);
    ChainRulesNoDuplicates(cluster, p);
    forall i, j | 0 <= i < j < |rules| ensures RuleTexts(hash, rules)[i] != RuleTexts(hash, rules)[j] {
      var v, src, dst := ChainRuleParts(cluster, p, rules[i]);
      var u, src', dst' := ChainRuleParts(cluster, p, rules[j]);
      RuleWordsOf(hash, p.np.key, v, src, dst);
      RuleWordsOf(hash, p.np.key, u, src', dst');
      if RuleTexts(hash, rules)[i] == RuleTexts(hash, rules)[j] {
        SetRuleTextInjective(hash, p.np.key, v, src, dst, u, src', dst');
      }
    }
  }

  ghost predicate GoodPolicies(cluster: Cluster, ps: seq<CompiledPolicy>) {
    CompiledFrom(cluster, ps) && forall i :: 0 <= i < |ps| ==> GoodPolicy(ps[i])
  }

  ghost function KeysOf(ps: seq<CompiledPolicy>): set<Key> {
    set i | 0 <= i < |ps| :: ps[i].np.key
  }

  lemma ChainTextsDistinct(hash: string -> string, cluster: Cluster, ps: seq<CompiledPolicy>)
    requires Distinguishes(hash, KeysOf(ps)) && GoodPolicies(cluster, ps)
    ensures NoDuplicates(ChainTexts(hash, ps))
  {
    forall i, j | 0 <= i < j < |ps| ensures ChainTexts(hash, ps)[i] != ChainTexts(hash, ps)[j] {
      ChainTextInjective(hash, KeysOf(ps), ps[i].np.key, ps[j].np.key);
    }
  }

  /** The stale chains: those with the policy prefix that belong to no policy. */
  ghost predicate StaleIn(hash: string -> string, ps: seq<CompiledPolicy>, t: TextTable, stale: seq<string>) {
    && NoDuplicates(stale)
    && forall c :: c in stale <==> c in t && "GLX-PLCY" <= c && c !in ChainTexts(hash, ps)
  }

  function Generated(hash: string -> string, ps: seq<CompiledPolicy>, stale: seq<string>): seq<Directive<string, string>> {
    Rewrite(ChainTexts(hash, ps), ContentTexts(hash, ps), stale)
  }

  lemma ChainTextGood(hash: string -> string, k: Key)
    requires Hashing(hash)
    ensures var c := ChainText(hash, k); |c| == 25 && "GLX-PLCY" <= c && ProperName(c) && c[0] == 'G' && c !in Builtin("filter")
  {
    var c, h := ChainText(hash, k), hash(KeyText(k));
    assert forall x :: x in c ==> x in "GLX-PLCY-" || x in h;
    assert c[0] == 'G';
    assert "INPUT"[0] != 'G' && "FORWARD"[0] != 'G' && "OUTPUT"[0] != 'G';
    assert Builtin("filter") == {"INPUT", "FORWARD", "OUTPUT"};
  }

  /** Every line of the generated text can be printed, and no rule line mentions a deletion. */
  lemma GeneratedGood(isIP: string -> bool, hash: string -> string, cluster: Cluster, ps: seq<CompiledPolicy>, stale: seq<string>,
                      d: Directive<string, string>)
    requires Addresses(isIP) && Hashing(hash) && GoodPolicies(cluster, ps) && GoodNames(stale)
    requires d in Generated(hash, ps, stale)
    ensures Printable(isIP, d)
    ensures forall c :: c != "" && c[0] == 'G' ==> Quiet(d, c)
  {
    var names, contents := ChainTexts(hash, ps), ContentTexts(hash, ps);
    if d in FillAll(names, contents) {
      var i, j := FillAllMember(names, contents, d);
      var r := ChainRules(ps[i])[j];
      ChainTextGood(hash, ps[i].np.key);
      ChainRuleText(isIP, hash, cluster, ps[i], r);
      forall c | c != "" && c[0] == 'G' ensures Quiet(d, c) {
        ChainRuleQuiet(hash, cluster, ps[i], r, names[i], c);
      }
    } else if d in Declares<string, string>(names) {
      var i :| 0 <= i < |names| && d == Declare(names[i]);
      ChainTextGood(hash, ps[i].np.key);
    } else if d in Declares<string, string>(stale) {
      var i :| 0 <= i < |stale| && d == Declare(stale[i]);
    } else {
      assert d in Discards<string, string>(stale);
      var i :| 0 <= i < |stale| && d == Discard(stale[i]);
    }
  }

  /** A stale chain's name begins with this chain's name. */
  ghost predicate Extended(c: string, stale: seq<string>) {
    exists i :: 0 <= i < |stale| && c <= stale[i]
  }

  lemma DiscardsIn(hash: string -> string, ps: seq<CompiledPolicy>, stale: seq<string>, c: string)
    ensures (exists d :: d in Generated(hash, ps, stale) && d.Discard? && c <= d.chain) <==> Extended(c, stale)
  {
    var ds := Generated(hash, ps, stale);
    var names, contents := ChainTexts(hash, ps), ContentTexts(hash, ps);
    if d :| d in ds && d.Discard? && c <= d.chain {
      DiscardInRewrite(names, contents, stale, d.chain);
      assert d == Discard(d.chain);
    }
    if i :| 0 <= i < |stale| && c <= stale[i] {
      DiscardInRewrite(names, contents, stale, stale[i]);
      var d: Directive<string, string> := Discard(stale[i]);
      assert d in ds && d.Discard? && c <= d.chain;
    }
  }

  lemma DeclaredIn(hash: string -> string, ps: seq<CompiledPolicy>, stale: seq<string>, i: nat)
    requires i < |ps|
    ensures Declare(ChainTexts(hash, ps)[i]) in Generated(hash, ps, stale)
  {
    var names := ChainTexts(hash, ps);
    assert Declares<string, string>(names)[i] == Declare(names[i]);
  }

  /** The flush of a policy's chain is skipped exactly when a stale chain's name extends its name. */
  lemma SparedChains(isIP: string -> bool, hash: string -> string, cluster: Cluster, ps: seq<CompiledPolicy>, stale: seq<string>, i: nat)
    requires Addresses(isIP) && Hashing(hash) && GoodPolicies(cluster, ps) && GoodNames(stale) && i < |ps|
    requires ChainTexts(hash, ps)[i] !in stale
    ensures
      var ds := Generated(hash, ps, stale);
      var c := ChainTexts(hash, ps)[i];
      c in Spared("filter", TextOf("filter", ds), ds) <==> Extended(c, stale)
  {
    var ds := Generated(hash, ps, stale);
    var c := ChainTexts(hash, ps)[i];
    ChainTextGood(hash, ps[i].np.key);
    forall k | 0 <= k < |ds| ensures Printable(isIP, ds[k]) && Quiet(ds[k], c) {
      GeneratedGood(isIP, hash, cluster, ps, stale, ds[k]);
    }
    assert GoodName("filter");
    DeletionInText(isIP, "filter", ds, c);
    DiscardsIn(hash, ps, stale, c);
    DeclaredIn(hash, ps, stale, i);
    DiscardInRewrite(ChainTexts(hash, ps), ContentTexts(hash, ps), stale, c);
    var d: Directive<string, string> := Declare(c);
    assert d in ds && d.Declare? && d.chain == c;
  }

  /**
   * Restoring the text that syncIptables generates: the stale policy chains are gone, every chain that is not
   * a policy's is as before, every policy has its chain, and that chain holds exactly the policy's compiled
   * rules in order if and only if its old rules were flushed or were the first of the new ones.
   */
  lemma GeneratedRestores(isIP: string -> bool, hash: string -> string, cluster: Cluster, ps: seq<CompiledPolicy>,
                          tables: TextTables, stale: seq<string>)
    requires Addresses(isIP) && Hashing(hash) && Distinguishes(hash, KeysOf(ps)) && GoodPolicies(cluster, ps)
    requires "filter" in tables && StaleIn(hash, ps, tables["filter"], stale) && GoodNames(stale)
    ensures
      var t, names, contents := tables["filter"], ChainTexts(hash, ps), ContentTexts(hash, ps);
      var q := RestoreText(isIP, "", false, TextOf("filter", Generated(hash, ps, stale)), tables);
      && q.status in {Reading, Finished} && "filter" in q.tables && q.tables == tables["filter" := q.tables["filter"]]
      && (forall c :: c in q.tables["filter"] <==> (c in t || c in names) && c !in stale)
      && (forall c :: c in t && c !in names && c !in stale ==> q.tables["filter"][c] == t[c])
      && forall i :: 0 <= i < |ps| ==>
           (q.tables["filter"][names[i]] == contents[i] <==> (Extended(names[i], stale) ==> Rules(t, names[i]) <= contents[i]))
  {
    var t, names, contents := tables["filter"], ChainTexts(hash, ps), ContentTexts(hash, ps);
    var ds := Generated(hash, ps, stale);
    forall k | 0 <= k < |ds| ensures Printable(isIP, ds[k]) { GeneratedGood(isIP, hash, cluster, ps, stale, ds[k]); }
    assert Selected("", "filter");
    RestorePrinted(isIP, "", "filter", ds, tables);
    ChainTextsDistinct(hash, cluster, ps);
    var spared := Spared("filter", TextOf("filter", ds), ds);
    RestoreRewriteAny(t, spared, names, contents, stale);
    forall i | 0 <= i < |ps|
      ensures AppendNew(Remaining(t, spared, names[i]), contents[i]) == contents[i] <==> (Extended(names[i], stale) ==> Rules(t, names[i]) <= contents[i])
    {
      SparedChains(isIP, hash, cluster, ps, stale, i);
      RuleTextsDistinct(hash, cluster, ps[i]);
      AppendNewExact(Remaining(t, spared, names[i]), contents[i]);
    }
  }

  lemma NoneExtended(hash: string -> string, ps: seq<CompiledPolicy>, t: TextTable, stale: seq<string>, i: nat)
    requires Hashing(hash) && StaleIn(hash, ps, t, stale) && i < |ps|
    requires forall c :: c in t && "GLX-PLCY" <= c ==> |c| == 25
    ensures !Extended(ChainTexts(hash, ps)[i], stale)
  {
    var c := ChainTexts(hash, ps)[i];
    ChainTextGood(hash, ps[i].np.key);
    forall k | 0 <= k < |stale| ensures !(c <= stale[k]) {
      assert stale[k] in stale;
      assert |stale[k]| == |c| && stale[k] != c;
    }
  }

  /** In a table whose policy chains have the controller's fixed-length names, every policy's chain is exact. */
  lemma GeneratedExact(isIP: string -> bool, hash: string -> string, cluster: Cluster, ps: seq<CompiledPolicy>,
                       tables: TextTables, stale: seq<string>, i: nat)
    requires Addresses(isIP) && Hashing(hash) && Distinguishes(hash, KeysOf(ps)) && GoodPolicies(cluster, ps) && i < |ps|
    requires "filter" in tables && StaleIn(hash, ps, tables["filter"], stale) && GoodNames(stale)
    requires forall c :: c in tables["filter"] && "GLX-PLCY" <= c ==> |c| == 25
    ensures
      var q := RestoreText(isIP, "", false, TextOf("filter", Generated(hash, ps, stale)), tables);
      var c := ChainText(hash, ps[i].np.key);
      "filter" in q.tables && c in q.tables["filter"] && q.tables["filter"][c] == RuleTexts(hash, ChainRules(ps[i]))
  {
    GeneratedRestores(isIP, hash, cluster, ps, tables, stale);
    NoneExtended(hash, ps, tables["filter"], stale, i);
    var c := ChainText(hash, ps[i].np.key);
    assert ChainTexts(hash, ps)[i] == c && ContentTexts(hash, ps)[i] == RuleTexts(hash, ChainRules(ps[i]));
    assert c in ChainTexts(hash, ps) && c !in stale;
  }
}
