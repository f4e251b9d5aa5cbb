/** syncIptables on the textual handle: save, parse the chain lines, write the text, restore it. */
module PolicyTextSync {
  import opened Sequences
  import opened Tables
  import opened Text
  import opened RuleText
  import opened SaveRestore
  import opened FakeIptables
  import opened FakeHandles
  import opened PacketFilter
  import opened NetworkPolicies
  import opened PolicyChains
  import opened PolicyTexts
  import opened RuleReadings

  /** writeLine on each rule. */
  method WriteLines(hash: string -> string, chain: string, rules: seq<Rule>) returns (text: string)
    ensures text == Unlines(PrintAll(Fills(chain, RuleTexts(hash, rules))))
  {
    text := "";
    for i := 0 to |rules|
      invariant text == Unlines(PrintAll(Fills(chain, RuleTexts(hash, rules[..i]))))
    {
      WriteLine(hash, chain, rules, i);
      text := text + ("-A " + chain + " " + Join(RuleWords(hash, rules[i]), ' ') + "\n");
    }
    assert rules[..|rules|] == rules;
  }

  lemma WriteLine(hash: string -> string, chain: string, rules: seq<Rule>, i: nat)
    requires i < |rules|
    ensures
      Unlines(PrintAll(Fills(chain, RuleTexts(hash, rules[..i + 1])))) ==
      Unlines(PrintAll(Fills(chain, RuleTexts(hash, rules[..i])))) + ("-A " + chain + " " + Join(RuleWords(hash, rules[i]), ' ') + "\n")
  {
    var a, b := RuleTexts(hash, rules[..i]), RuleTexts(hash, rules[..i + 1]);
    var rule := Join(RuleWords(hash, rules[i]), ' ');
    assert b == a + [rule];
    var fills: seq<Directive<string, string>> := Fills(chain, a);
    assert Fills(chain, b) == fills + [AddRule(Append, chain, rule)];
    PrintAllConcat(fills, [AddRule(Append, chain, rule)]);
    var line := "-A " + chain + " " + rule;
    assert PrintAll([AddRule(Append, chain, rule)]) == [line];
    assert Unlines([line]) == line + "\n";
  }

  lemma PrintedTogether(a: seq<Directive<string, string>>, b: seq<Directive<string, string>>)
    ensures PrintAll(a + b) == PrintAll(a) + PrintAll(b)
  {
    var all := PrintAll(a + b);
    assert forall i :: 0 <= i < |a| ==> all[i] == PrintAll(a)[i];
    assert forall i :: 0 <= i < |b| ==> all[|a| + i] == PrintAll(b)[i];
  }

  lemma PrintAllConcat(a: seq<Directive<string, string>>, b: seq<Directive<string, string>>)
    ensures Unlines(PrintAll(a + b)) == Unlines(PrintAll(a)) + Unlines(PrintAll(b))
  {
    PrintedTogether(a, b);
    UnlinesConcat(PrintAll(a), PrintAll(b));
  }

  ghost predicate OwnLines(existing: map<string, string>) {
    forall c :: c in existing ==> existing[c] == MakeChainLine(c)
  }

  lemma WriteSnoc(hash: string -> string, ps: seq<CompiledPolicy>, i: nat)
    requires i < |ps|
    ensures
      var a, b, c := ps[..i], ps[..i + 1], ChainText(hash, ps[i].np.key);
      && ChainTexts(hash, b) == ChainTexts(hash, a) + [c]
      && Unlines(PrintAll(Declares(ChainTexts(hash, b)))) == Unlines(PrintAll(Declares(ChainTexts(hash, a)))) + (MakeChainLine(c) + "\n")
      && Unlines(PrintAll(FillAll(ChainTexts(hash, b), ContentTexts(hash, b)))) ==
         Unlines(PrintAll(FillAll(ChainTexts(hash, a), ContentTexts(hash, a)))) + Unlines(PrintAll(Fills(c, RuleTexts(hash, ChainRules(ps[i])))))
  {
    var a, b, c := ps[..i], ps[..i + 1], ChainText(hash, ps[i].np.key);
    var rules := RuleTexts(hash, ChainRules(ps[i]));
    assert ChainTexts(hash, b) == ChainTexts(hash, a) + [c];
    assert ContentTexts(hash, b) == ContentTexts(hash, a) + [rules];
    DeclaresSnoc<string, string>(ChainTexts(hash, a), c);
    PrintAllConcat(Declares(ChainTexts(hash, a)), [Declare(c)]);
    assert PrintAll([Declare(c)]) == [MakeChainLine(c)];
    assert Unlines([MakeChainLine(c)]) == MakeChainLine(c) + "\n";
    FillAllSnoc(ChainTexts(hash, a), ContentTexts(hash, a), c, rules);
    PrintAllConcat(FillAll(ChainTexts(hash, a), ContentTexts(hash, a)), Fills(c, rules));
  }

  /** writeRules: an existing chain is declared with the line it was saved with. */
  method WriteRulesText(hash: string -> string, policies: seq<CompiledPolicy>, existing: map<string, string>)
    returns (chains: string, active: set<string>, rules: string)
    requires OwnLines(existing)
    ensures chains == Unlines(PrintAll(Declares(ChainTexts(hash, policies))))
    ensures forall c :: c in active <==> c in ChainTexts(hash, policies)
    ensures rules == Unlines(PrintAll(FillAll(ChainTexts(hash, policies), ContentTexts(hash, policies))))
  {
    chains, active, rules := "", {}, "";
    for i := 0 to |policies|
      invariant chains == Unlines(PrintAll(Declares(ChainTexts(hash, policies[..i]))))
      invariant forall c :: c in active <==> c in ChainTexts(hash, policies[..i])
      invariant rules == Unlines(PrintAll(FillAll(ChainTexts(hash, policies[..i]), ContentTexts(hash, policies[..i]))))
    {
      var p := policies[i];
      var chain := ChainText(hash, p.np.key);
      WriteSnoc(hash, policies, i);
      chains := chains + ((if chain in existing then existing[chain] else MakeChainLine(chain)) + "\n");
      active := active + {chain};
      var inRules := WriteSideRules(p.np.key, Inbound, p.ingress);
      var outRules := WriteSideRules(p.np.key, Outbound, p.egress);
      var lines := WriteLines(hash, chain, inRules + outRules);
      rules := rules + lines;
    }
    assert policies[..|policies|] == policies;
  }

  lemma StaleSnoc(stale: seq<string>, c: string)
    ensures Unlines(PrintAll(Declares(stale + [c]))) == Unlines(PrintAll(Declares(stale))) + (MakeChainLine(c) + "\n")
    ensures Unlines(PrintAll(Discards(stale + [c]))) == Unlines(PrintAll(Discards(stale))) + ("-X " + c + "\n")
  {
    DeclaresSnoc<string, string>(stale, c);
    PrintAllConcat(Declares(stale), [Declare(c)]);
    assert PrintAll([Declare(c)]) == [MakeChainLine(c)];
    assert Discards<string, string>(stale + [c]) == Discards<string, string>(stale) + [Discard(c)];
    PrintAllConcat(Discards(stale), [Discard(c)]);
    assert PrintAll([Discard(c)]) == ["-X " + c];
    assert Unlines([MakeChainLine(c)]) == MakeChainLine(c) + "\n" && Unlines(["-X " + c]) == "-X " + c + "\n";
  }

  /** writeChains: the existing chains with the policy prefix that are not active, in any order. */
  method WriteChainsText(existing: map<string, string>, active: set<string>)
    returns (chains: string, discards: string, ghost stale: seq<string>)
    requires OwnLines(existing)
    ensures NoDuplicates(stale) && forall c :: c in stale <==> c in existing && "GLX-PLCY" <= c && c !in active
    ensures chains == Unlines(PrintAll(Declares(stale))) && discards == Unlines(PrintAll(Discards(stale)))
  {
    chains, discards, stale := "", "", [];
    var todo := existing.Keys;
    while todo != {}
      invariant todo <= existing.Keys && NoDuplicates(stale)
      invariant forall c :: c in stale <==> c in existing && c !in todo && "GLX-PLCY" <= c && c !in active
      invariant chains == Unlines(PrintAll(Declares(stale))) && discards == Unlines(PrintAll(Discards(stale)))
      decreases todo
    {
      var c :| c in todo;
      todo := todo - {c};
      if c !in active && "GLX-PLCY" <= c {
        StaleSnoc(stale, c);
        chains := chains + (existing[c] + "\n");
        discards := discards + ("-X " + c + "\n");
        stale := stale + [c];
      }
    }
  }

  lemma Regroup(a: string, b: string, c: string, d: string, e: string)
    ensures a + b + c + d + e == a + b + (c + d + e)
  {
  }

  lemma TextPieces(a: seq<Directive<string, string>>, b: seq<Directive<string, string>>, c: seq<Directive<string, string>>,
                   d: seq<Directive<string, string>>)
    ensures
      Unlines(PrintAll(a + b + c + d)) + "COMMIT\n" ==
      Unlines(PrintAll(a)) + Unlines(PrintAll(b)) + (Unlines(PrintAll(c)) + Unlines(PrintAll(d)) + "COMMIT\n")
  {
    PrintAllConcat(a, b);
    PrintAllConcat(a + b, c);
    PrintAllConcat(a + b + c, d);
    Regroup(Unlines(PrintAll(a)), Unlines(PrintAll(b)), Unlines(PrintAll(c)), Unlines(PrintAll(d)), "COMMIT\n");
  }

  lemma TextFrame(header: string, lines: seq<string>)
    ensures Unlines([header] + (lines + ["COMMIT"])) == header + "\n" + (Unlines(lines) + "COMMIT\n")
  {
    UnlinesConcat(lines, ["COMMIT"]);
    assert Unlines(["COMMIT"]) == "COMMIT\n";
    assert ([header] + (lines + ["COMMIT"]))[1..] == lines + ["COMMIT"];
  }

  lemma TextInPieces(table: string, names: seq<string>, contents: seq<seq<string>>, stale: seq<string>)
    requires |names| == |contents|
    ensures
      TextOf(table, Rewrite(names, contents, stale)) ==
      "*" + table + "\n" + (Unlines(PrintAll(Declares(names))) + Unlines(PrintAll(Declares(stale)))
      + (Unlines(PrintAll(FillAll(names, contents))) + Unlines(PrintAll(Discards(stale))) + "COMMIT\n"))
  {
    TextPieces(Declares(names), Declares(stale), FillAll(names, contents), Discards(stale));
    TextFrame("*" + table, PrintAll(Rewrite(names, contents, stale)));
  }

  /** The filter table `u` is `t` with the policy chains replaced; see `GeneratedRestores` for the exact condition. */
  ghost predicate SyncedTable(hash: string -> string, ps: seq<CompiledPolicy>, t: TextTable, u: TextTable) {
    var names, contents := ChainTexts(hash, ps), ContentTexts(hash, ps);
    && (forall c :: c in u <==> (c in t && !("GLX-PLCY" <= c)) || c in names)
    && (forall c :: c in t && !("GLX-PLCY" <= c) ==> u[c] == t[c])
    && forall i :: 0 <= i < |ps| ==>
         (u[names[i]] == contents[i] <==> (ExtendedIn(hash, ps, t, names[i]) ==> Rules(t, names[i]) <= contents[i]))
  }

  /** The table has a chain with the policy prefix that belongs to no policy and whose name extends `c`. */
  ghost predicate ExtendedIn(hash: string -> string, ps: seq<CompiledPolicy>, t: TextTable, c: string) {
    exists d :: d in t && "GLX-PLCY" <= d && d !in ChainTexts(hash, ps) && c <= d
  }

  lemma SyncedByText(isIP: string -> bool, hash: string -> string, cluster: Cluster, ps: seq<CompiledPolicy>, tables: TextTables, stale: seq<string>)
    requires Addresses(isIP) && Hashing(hash) && Distinguishes(hash, KeysOf(ps)) && GoodPolicies(cluster, ps)
    requires "filter" in tables && Neat(isIP, tables["filter"]) && StaleIn(hash, ps, tables["filter"], stale)
    ensures
      var q := RestoreText(isIP, "", false, TextOf("filter", Generated(hash, ps, stale)), tables);
      && q.status in {Reading, Finished} && "filter" in q.tables && q.tables == tables["filter" := q.tables["filter"]]
      && SyncedTable(hash, ps, tables["filter"], q.tables["filter"])
  {
    assert GoodNames(stale) by {
      forall i | 0 <= i < |stale| ensures GoodName(stale[i]) { assert stale[i] in stale; }
    }
    GeneratedRestores(isIP, hash, cluster, ps, tables, stale);
    var q := RestoreText(isIP, "", false, TextOf("filter", Generated(hash, ps, stale)), tables);
    SyncedFromGenerated(hash, ps, tables["filter"], q.tables["filter"], stale);
  }

  /**
   * Every policy's chain, read word by word, has the policy's compiled rules one by one, unless a stale chain's name
   * extends its name and its old rules are not the first of the new ones.
   */
  ghost predicate ReadsAsCompiled(hash: string -> string, ps: seq<CompiledPolicy>, t: TextTable, u: TextTable) {
    forall i :: 0 <= i < |ps| ==>
      var c := ChainText(hash, ps[i].np.key);
      && c in u
      && ((ExtendedIn(hash, ps, t, c) ==> Rules(t, c) <= RuleTexts(hash, ChainRules(ps[i]))) ==> AllSay(hash, u[c], ChainRules(ps[i])))
  }

  lemma SyncedReads(hash: string -> string, cluster: Cluster, ps: seq<CompiledPolicy>, t: TextTable, u: TextTable)
    requires Hashing(hash) && GoodPolicies(cluster, ps) && SyncedTable(hash, ps, t, u)
    ensures ReadsAsCompiled(hash, ps, t, u)
  {
    forall i | 0 <= i < |ps|
      ensures
        var c := ChainText(hash, ps[i].np.key);
        && c in u
        && ((ExtendedIn(hash, ps, t, c) ==> Rules(t, c) <= RuleTexts(hash, ChainRules(ps[i]))) ==> AllSay(hash, u[c], ChainRules(ps[i])))
    {
      assert ChainTexts(hash, ps)[i] == ChainText(hash, ps[i].np.key);
      assert ContentTexts(hash, ps)[i] == RuleTexts(hash, ChainRules(ps[i]));
      ChainReads(hash, cluster, ps[i]);
    }
  }

  method SyncIptables(handle: FakeIPTables, hash: string -> string, ghost cluster: Cluster, policies: seq<CompiledPolicy>)
    returns (ok: bool)
    requires Addresses(handle.isIP) && Hashing(hash) && Distinguishes(hash, KeysOf(policies)) && GoodPolicies(cluster, policies)
    requires "filter" in handle.tables && Neat(handle.isIP, handle.tables["filter"])
    modifies handle
    ensures ok && "filter" in handle.tables && handle.tables == old(handle.tables)["filter" := handle.tables["filter"]]
    ensures SyncedTable(hash, policies, old(handle.tables)["filter"], handle.tables["filter"])
    ensures ReadsAsCompiled(hash, policies, old(handle.tables)["filter"], handle.tables["filter"])
  {
    ghost var t := handle.tables["filter"];
    var saved, names := handle.SaveInto("filter");
    SavedChainLines(handle.isIP, "filter", t, names);
    var existing := GetChainLines("filter", saved.value);
    var chains, active, rules := WriteRulesText(hash, policies, existing.value);
    var staleChains, discards, stale := WriteChainsText(existing.value, active);
    TextInPieces("filter", ChainTexts(hash, policies), ContentTexts(hash, policies), stale);
    SyncedByText(handle.isIP, hash, cluster, policies, handle.tables, stale);
    var status := handle.Restore("", "*" + "filter" + "\n" + (chains + staleChains + (rules + discards + "COMMIT\n")), false);
    ok := status == Reading || status == Finished;
    SyncedReads(hash, cluster, policies, t, handle.tables["filter"]);
  }

  lemma SyncedFromGenerated(hash: string -> string, ps: seq<CompiledPolicy>, t: TextTable, u: TextTable, stale: seq<string>)
    requires Hashing(hash) && StaleIn(hash, ps, t, stale)
    requires
      var names, contents := ChainTexts(hash, ps), ContentTexts(hash, ps);
      && (forall c :: c in u <==> (c in t || c in names) && c !in stale)
      && (forall c :: c in t && c !in names && c !in stale ==> u[c] == t[c])
      && forall i :: 0 <= i < |ps| ==>
           (u[names[i]] == contents[i] <==> (Extended(names[i], stale) ==> Rules(t, names[i]) <= contents[i]))
    ensures SyncedTable(hash, ps, t, u)
  {
    var names := ChainTexts(hash, ps);
    forall i | 0 <= i < |ps| ensures "GLX-PLCY" <= names[i] && (Extended(names[i], stale) <==> ExtendedIn(hash, ps, t, names[i])) {
      ChainTextGood(hash, ps[i].np.key);
      if k :| 0 <= k < |stale| && names[i] <= stale[k] { assert stale[k] in stale; }
      if d :| d in t && "GLX-PLCY" <= d && d !in names && names[i] <= d { assert d in stale; }
    }
    assert forall c :: c in names ==> "GLX-PLCY" <= c;
  }

  // ---- Undoing what was printed ----

  /** A stale ipset entry is split back into the element and the options it was printed from. */
  lemma StaleEntryParts(element: string, options: seq<string>)
    requires ' ' !in element && forall i :: 0 <= i < |options| ==> ' ' !in options[i]
    ensures
      var parts := Split(Join([element] + options, ' '), ' ');
      parts[0] == element && parts[1..] == options
  {
    SplitJoin([element] + options, ' ');
  }

  /** strings.Trim of double quotes. */
  function TrimQuotes(s: string): string {
    if s != "" && s[0] == '"' then TrimQuotes(s[1..])
    else if s != "" && s[|s| - 1] == '"' then TrimQuotes(s[..|s| - 1])
    else s
  }

  /** Without the first two words and without quotes. */
  function RuleArgs(parts: seq<string>): Option<seq<string>> {
    if |parts| < 3 then None
    else Some(seq(|parts| - 2, i requires 0 <= i < |parts| - 2 => TrimQuotes(parts[i + 2])))
  }

  /** The arguments that deletePodRuleByKeyword takes from a line of a rule listing. */
  function ListedArgs(line: string): Option<seq<string>> {
    RuleArgs(Split(line, ' '))
  }

  predicate QuoteEdged(word: string) {
    word != "" && (word[0] == '"' || word[|word| - 1] == '"')
  }

  /** Dropping the two leading words of a listed rule gives arguments that delete that very rule, if and only if no word is quoted. */
  lemma ListedRuleDeletes(isIP: string -> bool, chain: string, rule: string)
    requires ' ' !in chain && GoodRule(isIP, rule)
    ensures
      var args := ListedArgs("-A " + chain + " " + rule);
      && args.Some?
      && (Normalize(isIP, Join(QuoteArgs(args.value), ' ')) == Normal(rule) <==> forall w :: w in Split(rule, ' ') ==> !QuoteEdged(w))
  {
    var words := Split(rule, ' ');
    ListedWords("-A", chain, rule);
    assert "-A" + " " == "-A ";
    var args := ListedArgs("-A " + chain + " " + rule).value;
    TrimmedWords(words, args, rule);
    if forall w :: w in words ==> !QuoteEdged(w) {
      UnquotedWords(words, args);
      JoinSplit(rule, ' ');
    }
    if Normalize(isIP, Join(args, ' ')) == Normal(rule) { QuotesLost(isIP, words, args, rule); }
  }

  lemma UnquotedWords(words: seq<string>, args: seq<string>)
    requires |args| == |words| && forall i :: 0 <= i < |words| ==> args[i] == TrimQuotes(words[i])
    requires forall w :: w in words ==> !QuoteEdged(w)
    ensures args == words
  {
    forall i | 0 <= i < |words| ensures args[i] == words[i] { assert words[i] in words; }
  }

  /** A rule cannot come back once a quote is gone. */
  lemma QuotesLost(isIP: string -> bool, words: seq<string>, args: seq<string>, rule: string)
    requires words == Split(rule, ' ') && |args| == |words| && forall i :: 0 <= i < |words| ==> args[i] == TrimQuotes(words[i])
    requires Normalize(isIP, Join(args, ' ')) == Normal(rule)
    ensures forall w :: w in words ==> !QuoteEdged(w)
  {
    TrimmedWords(words, args, rule);
    NormalizeQuotes(isIP, Join(args, ' '));
    JoinSplit(rule, ' ');
    FewerQuotes(args, words);
    forall w | w in words ensures !QuoteEdged(w) {
      var i :| 0 <= i < |words| && words[i] == w;
      TrimQuotesCount(w);
    }
  }

  lemma TrimmedWords(words: seq<string>, args: seq<string>, rule: string)
    requires words == Split(rule, ' ') && |args| == |words| && forall i :: 0 <= i < |words| ==> args[i] == TrimQuotes(words[i])
    ensures QuoteArgs(args) == args
    ensures forall i :: 0 <= i < |words| ==> Quotes(args[i]) <= Quotes(words[i])
  {
    forall i | 0 <= i < |words| ensures ' ' !in args[i] && Quotes(args[i]) <= Quotes(words[i]) {
      SplitWords(rule, ' ', i);
      TrimQuotesCount(words[i]);
    }
  }

  // ---- Counting quotes ----

  function Quotes(s: string): nat {
    if s == "" then 0 else Quotes(s[1..]) + if s[0] == '"' then 1 else 0
  }

  lemma {:induction false} QuotesConcat(a: string, b: string)
    ensures Quotes(a + b) == Quotes(a) + Quotes(b)
    decreases |a|
  {
    if a == "" {
      assert a + b == b;
    } else {
      assert (a + b)[1..] == a[1..] + b;
      QuotesConcat(a[1..], b);
    }
  }

  lemma QuotesCut(s: string, i: nat)
    requires i <= |s|
    ensures Quotes(s) == Quotes(s[..i]) + Quotes(s[i..])
  {
    assert s == s[..i] + s[i..];
    QuotesConcat(s[..i], s[i..]);
  }

  /** Trimming quotes takes some away, unless there are none at the ends. */
  lemma {:induction false} TrimQuotesCount(w: string)
    ensures Quotes(TrimQuotes(w)) <= Quotes(w) && (Quotes(TrimQuotes(w)) == Quotes(w) <==> !QuoteEdged(w))
    ensures forall c :: c in TrimQuotes(w) ==> c in w
    decreases |w|
  {
    if w != "" && w[0] == '"' {
      TrimQuotesCount(w[1..]);
    } else if w != "" && w[|w| - 1] == '"' {
      TrimQuotesCount(w[..|w| - 1]);
      QuotesCut(w, |w| - 1);
    }
  }

  lemma {:induction false} FewerQuotes(a: seq<string>, b: seq<string>)
    requires |a| == |b| && forall i :: 0 <= i < |a| ==> Quotes(a[i]) <= Quotes(b[i])
    ensures Quotes(Join(a, ' ')) <= Quotes(Join(b, ' '))
    ensures Quotes(Join(a, ' ')) == Quotes(Join(b, ' ')) ==> forall i :: 0 <= i < |a| ==> Quotes(a[i]) == Quotes(b[i])
    decreases |a|
  {
    if |a| > 1 {
      FewerQuotes(a[1..], b[1..]);
      JoinQuotes(a);
      JoinQuotes(b);
    }
  }

  lemma JoinQuotes(a: seq<string>)
    requires |a| > 1
    ensures Quotes(Join(a, ' ')) == Quotes(a[0]) + Quotes(Join(a[1..], ' '))
  {
    QuotesConcat(a[0] + " ", Join(a[1..], ' '));
    QuotesConcat(a[0], " ");
    NoQuotes(" ");
  }

  lemma {:induction false} TrimLeftQuotes(s: string)
    ensures Quotes(TrimLeft(s)) <= Quotes(s)
    decreases |s|
  {
    if s != "" && IsSpace(s[0]) { TrimLeftQuotes(s[1..]); }
  }

  lemma TrimSpaceQuotes(s: string)
    ensures Quotes(TrimSpace(s)) <= Quotes(s)
  {
    TrimLeftQuotes(s);
    TrimRightStart(TrimLeft(s));
    assert TrimLeft(s)[..|TrimSpace(s)|] == TrimSpace(s);
    QuotesCut(TrimLeft(s), |TrimSpace(s)|);
  }

  lemma {:induction false} NoQuotes(s: string)
    requires '"' !in s
    ensures Quotes(s) == 0
    decreases |s|
  {
    if s != "" { NoQuotes(s[1..]); }
  }

  lemma ArgumentQuotes(isIP: string -> bool, arg: string)
    ensures Quotes(Argument(isIP, arg)) <= Quotes(arg)
  {
    QuotesConcat(arg, "/32");
    NoQuotes("/32");
    TrimSpaceQuotes(if isIP(arg) then arg + "/32" else arg);
  }

  lemma ExpandQuotes(s: string)
    ensures Quotes(Expand(s)) == Quotes(s)
  {
    if TO_DESTINATION <= s {
      assert s[16..][1..] == s[17..] && Expand(s)[16..][1..] == s[17..] && Expand(s)[..16] == s[..16];
      QuotesCut(s, 16);
      QuotesCut(Expand(s), 16);
    }
  }

  lemma {:induction false} ScanQuotes(isIP: string -> bool, s: string)
    requires Scan(isIP, s).Args?
    ensures Quotes(Join(Scan(isIP, s).args, ' ')) <= Quotes(s)
    decreases |s|
  {
    var r := Expand(s);
    var end := ArgEnd(r).value;
    ExpandQuotes(s);
    ArgumentQuotes(isIP, r[..end]);
    if end == |r| {
      assert r[..end] == r;
    } else {
      ScanQuotes(isIP, r[end + 1..]);
      ScanNonEmpty(isIP, r[end + 1..]);
      JoinQuotes(Scan(isIP, s).args);
      QuotesCut(r, end);
      assert r[end..][1..] == r[end + 1..];
    }
  }

  /** Normalizing adds no quotes. */
  lemma NormalizeQuotes(isIP: string -> bool, rule: string)
    requires Normalize(isIP, rule).Normal?
    ensures Quotes(Normalize(isIP, rule).rule) <= Quotes(rule)
  {
    TrimSpaceQuotes(rule);
    ScanQuotes(isIP, TrimSpace(rule));
  }

  lemma ListedWords(option: string, chain: string, rule: string)
    requires ' ' !in option && ' ' !in chain
    ensures
      var args, words := ListedArgs(option + " " + chain + " " + rule), Split(rule, ' ');
      args.Some? && |args.value| == |words| && forall i :: 0 <= i < |words| ==> args.value[i] == TrimQuotes(words[i])
  {
    SplitTwo(option, chain, rule);
    DropTwo(option, chain, Split(rule, ' '));
  }

  lemma DropTwo(a: string, b: string, words: seq<string>)
    requires words != []
    ensures
      var args := RuleArgs([a] + ([b] + words));
      args.Some? && |args.value| == |words| && forall i :: 0 <= i < |words| ==> args.value[i] == TrimQuotes(words[i])
  {
    var parts := [a] + ([b] + words);
    assert forall i :: 0 <= i < |words| ==> parts[i + 2] == words[i];
  }
}
