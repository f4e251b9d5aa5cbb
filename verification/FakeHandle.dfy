/** The iptables fake as an object, and what every sequence of its commands keeps. */
module FakeHandles {
  import opened Sequences
  import opened Tables
  import opened Text
  import opened RuleText
  import opened RuleForms
  import opened SaveRestore
  import opened Sorting
  import opened FakeIptables

  // ---- What every command keeps ----

  ghost predicate AllNeat(isIP: string -> bool, tables: TextTables) {
    forall t :: t in tables ==> Neat(isIP, tables[t])
  }

  ghost predicate NeatRules(isIP: string -> bool, rules: seq<string>) {
    NoDuplicates(rules) && forall i :: 0 <= i < |rules| ==> GoodRule(isIP, rules[i])
  }

  /** Replacing the rules of one chain by neat ones. */
  lemma SetChainNeat(isIP: string -> bool, t: TextTable, c: string, rules: seq<string>)
    requires Neat(isIP, t) && GoodName(c) && NeatRules(isIP, rules)
    ensures Neat(isIP, t[c := rules])
  {
  }

  lemma SetTableNeat(isIP: string -> bool, tables: TextTables, table: string, t: TextTable)
    requires AllNeat(isIP, tables) && Neat(isIP, t)
    ensures AllNeat(isIP, tables[table := t])
  {
  }

  lemma PlaceNeat(isIP: string -> bool, rules: seq<string>, position: Position, r: string)
    requires NeatRules(isIP, rules) && GoodRule(isIP, r) && r !in rules
    ensures NeatRules(isIP, Place(rules, position, r))
  {
  }

  lemma EnsureChainNeat(isIP: string -> bool, t: TextTable, c: string)
    requires Neat(isIP, t) && GoodName(c)
    ensures Neat(isIP, Tables.EnsureChain(t, c))
  {
    SetChainNeat(isIP, t, c, []);
  }

  lemma EnsureRuleNeat(isIP: string -> bool, t: TextTable, position: Position, c: string, r: string)
    requires Neat(isIP, t) && GoodName(c) && GoodRule(isIP, r)
    ensures Neat(isIP, Tables.EnsureRule(t, position, c, r))
  {
    EnsureChainNeat(isIP, t, c);
    var u := Tables.EnsureChain(t, c);
    assert NeatRules(isIP, u[c]);
    if r !in u[c] {
      PlaceNeat(isIP, u[c], position, r);
      SetChainNeat(isIP, u, c, Place(u[c], position, r));
    }
  }

  /** The rule is refused, or its normal form is settled and of one line. */
  predicate Storable(isIP: string -> bool, rule: string) {
    var n := Normalize(isIP, rule);
    n.Normal? ==> '\n' !in n.rule && Settled(isIP, n.rule)
  }

  lemma PlainIsStorable(isIP: string -> bool, rule: string)
    requires AddressText(isIP) && Plain(rule)
    ensures Storable(isIP, rule)
  {
    if Normalize(isIP, rule).Normal? {
      NormalizePlain(isIP, rule);
      NormalizeIdempotent(isIP, rule);
      IdempotentExactly(isIP, rule);
    }
  }

  lemma UntidyRule(isIP: string -> bool, t: TextTable, c: string, r: string)
    requires c in t && r in t[c] && !GoodRule(isIP, r)
    ensures !Neat(isIP, t)
  {
    var i :| 0 <= i < |t[c]| && t[c][i] == r;
  }

  /** Storing a rule keeps the tables neat exactly when the rule is storable. */
  lemma StoreRuleNeat(isIP: string -> bool, tables: TextTables, position: Position, table: string, chain: string, rule: string)
    requires AddressText(isIP) && AllNeat(isIP, tables) && GoodName(chain)
    ensures AllNeat(isIP, StoreRule(isIP, tables, position, table, chain, rule).tables) <==> Storable(isIP, rule)
  {
    var t := Tables.EnsureChain(TableIn(tables, table), chain);
    EnsureChainNeat(isIP, TableIn(tables, table), chain);
    SetTableNeat(isIP, tables, table, t);
    if Normalize(isIP, rule).Normal? {
      var r := Normalize(isIP, rule).rule;
      var u := Tables.EnsureRule(t, position, chain, r);
      IdempotentExactly(isIP, rule);
      if GoodRule(isIP, r) {
        EnsureRuleNeat(isIP, t, position, chain, r);
        SetTableNeat(isIP, tables[table := t], table, u);
      } else {
        UntidyRule(isIP, u, chain, r);
        assert tables[table := t][table := u][table] == u;
      }
    }
  }

  /** No white space but blanks and newlines. */
  ghost predicate PlainText(s: string) {
    forall c :: c in s ==> IsSpace(c) ==> c == ' ' || c == '\n'
  }

  /** What a line says is as plain as the line. */
  lemma ParsePlain(line: string)
    requires Plain(line)
    ensures
      match Parse(line)
      case DeclareChain(c) => GoodName(c)
      case Add(_, c, r) => GoodName(c) && Plain(r)
      case _ => true
  {
    if line != "" && line[0] == ':' {
      SplitWords(line[1..], ' ', 0);
      assert IsSpace('\n');
    } else if |Split(line, ' ')| > 1 {
      SplitWords(line, ' ', 1);
      assert IsSpace('\n');
    }
  }

  lemma DeleteChainNeat(isIP: string -> bool, t: TextTable, c: string)
    requires Neat(isIP, t)
    ensures Neat(isIP, Tables.DeleteChain(t, c))
  {
  }

  lemma DeclareNeat(ctx: Context, tables: TextTables, table: string, c: string)
    requires AllNeat(ctx.isIP, tables) && GoodName(c)
    ensures AllNeat(ctx.isIP, DeclareIn(ctx, tables, table, c))
  {
    var was := TableIn(tables, table);
    DeleteChainNeat(ctx.isIP, was, c);
    SetTableNeat(ctx.isIP, tables, table, Tables.DeleteChain(was, c));
    var u := if ctx.flush && table in tables then tables[table := Tables.DeleteChain(was, c)] else tables;
    var t := Tables.EnsureChain(TableIn(u, table), c);
    EnsureChainNeat(ctx.isIP, TableIn(u, table), c);
    SetTableNeat(ctx.isIP, u, table, t);
    SetChainNeat(ctx.isIP, t, c, []);
    SetTableNeat(ctx.isIP, u[table := t], table, t[c := []]);
  }

  lemma RestoreLineNeat(ctx: Context, p: Progress, line: string)
    requires AddressText(ctx.isIP) && AllNeat(ctx.isIP, p.tables) && Plain(line)
    ensures AllNeat(ctx.isIP, RestoreLine(ctx, p, line).tables)
  {
    ParsePlain(line);
    match Parse(line) {
      case DeclareChain(c) => DeclareNeat(ctx, p.tables, p.current, c);
      case Add(position, c, r) =>
        StoreRuleNeat(ctx.isIP, p.tables, position, p.current, c, r);
        PlainIsStorable(ctx.isIP, r);
      case _ =>
    }
  }

  lemma {:induction false} RestoreLinesNeat(ctx: Context, p: Progress, lines: seq<string>)
    requires AddressText(ctx.isIP) && AllNeat(ctx.isIP, p.tables) && forall i :: 0 <= i < |lines| ==> Plain(lines[i])
    ensures AllNeat(ctx.isIP, RestoreLines(ctx, p, lines).tables)
    decreases |lines|
  {
    if lines != [] && p.status == Reading {
      RestoreLineNeat(ctx, p, lines[0]);
      RestoreLinesNeat(ctx, RestoreLine(ctx, p, lines[0]), lines[1..]);
    }
  }

  /** Whatever plain text is restored, the rules stay normalized and free of duplicates. */
  lemma RestoreTextNeat(isIP: string -> bool, only: string, flush: bool, data: string, tables: TextTables)
    requires AddressText(isIP) && AllNeat(isIP, tables) && PlainText(data)
    ensures AllNeat(isIP, RestoreText(isIP, only, flush, data, tables).tables)
  {
    forall i | 0 <= i < |Lines(data)| ensures Plain(Lines(data)[i]) {
      LinesOfText(data, i);
    }
    RestoreLinesNeat(Context(isIP, only, flush, data), Progress(tables, "", Reading), Lines(data));
  }

  /** The loop of Restore takes one line at a time. */
  lemma RestoreNext(ctx: Context, p: Progress, rest: string)
    requires p.status == Reading
    ensures
      var i := IndexOf(rest, '\n');
      RestoreLines(ctx, p, Lines(rest)) == if i == |rest| then p else RestoreLines(ctx, RestoreLine(ctx, p, rest[..i]), Lines(rest[i + 1..]))
  {
  }

  // ---- Searching and quoting ----

  /** findRule: the first place of the rule, or -1. */
  method FindRule(rules: seq<string>, rule: string) returns (i: int)
    ensures i == -1 <==> rule !in rules
    ensures i != -1 ==> 0 <= i < |rules| && rules[i] == rule && rule !in rules[..i]
  {
    for k := 0 to |rules|
      invariant rule !in rules[..k]
    {
      if rules[k] == rule { return k; }
      assert rules[..k + 1] == rules[..k] + [rules[k]];
    }
    assert rules[..|rules|] == rules;
    return -1;
  }

  method RemoveRule(rules: seq<string>, rule: string) returns (r: seq<string>)
    ensures r == RemoveFirst(rules, rule)
  {
    var i := FindRule(rules, rule);
    if i < 0 {
      RemoveFirstAbsent(rules, rule);
      return rules;
    }
    RemoveFirstAt(rules, rule, i);
    return rules[..i] + rules[i + 1..];
  }

  lemma DeleteRuleNeat(isIP: string -> bool, t: TextTable, c: string, r: string)
    requires Neat(isIP, t) && c in t
    ensures Neat(isIP, Tables.DeleteRule(t, c, r))
  {
    RemoveFirstNeat(isIP, t[c], r);
  }

  lemma {:induction false} RemoveFirstNeat(isIP: string -> bool, s: seq<string>, r: string)
    requires NoDuplicates(s) && forall i :: 0 <= i < |s| ==> GoodRule(isIP, s[i])
    ensures NoDuplicates(RemoveFirst(s, r)) && forall i :: 0 <= i < |RemoveFirst(s, r)| ==> GoodRule(isIP, RemoveFirst(s, r)[i])
    decreases |s|
  {
    if s != [] && s[0] != r {
      RemoveFirstNeat(isIP, s[1..], r);
      var rest := RemoveFirst(s[1..], r);
      forall i | 0 <= i < |rest| ensures rest[i] != s[0] {
        RemoveFirstMembers(s[1..], r, rest[i]);
      }
    }
  }

  function QuoteArg(arg: string): string {
    if ' ' in arg && !("\"" <= arg) then "\"" + arg + "\"" else arg
  }

  method NormalizeArgs(args: seq<string>) returns (r: seq<string>)
    ensures |r| == |args| && forall i :: 0 <= i < |args| ==> r[i] == QuoteArg(args[i])
  {
    r := [];
    for i := 0 to |args|
      invariant |r| == i && forall k :: 0 <= k < i ==> r[k] == QuoteArg(args[k])
    {
      r := r + [QuoteArg(args[i])];
    }
  }

  function QuoteArgs(args: seq<string>): seq<string> {
    seq(|args|, i requires 0 <= i < |args| => QuoteArg(args[i]))
  }

  /** An argument that is one word of a rule, or has blanks and no quotes. */
  ghost predicate ArgumentText(arg: string) {
    Written(arg) || (' ' in arg && '"' !in arg)
  }

  ghost predicate AllArguments(args: seq<string>) {
    forall i :: 0 <= i < |args| ==> ArgumentText(args[i])
  }

  /** How the argument appears in the stored rule: with quotes around it if it has blanks, otherwise as iptables prints it. */
  function Shown(isIP: string -> bool, arg: string): string {
    if ' ' in arg && arg[0] != '"' then "\"" + arg + "\"" else Printed(isIP, arg)
  }

  function AllShown(isIP: string -> bool, args: seq<string>): seq<string> {
    seq(|args|, i requires 0 <= i < |args| => Shown(isIP, args[i]))
  }

  lemma BlanksQuoted(arg: string)
    requires ' ' in arg && '"' !in arg
    ensures QuoteArg(arg) == "\"" + arg + "\"" && Quoted(QuoteArg(arg))
  {
    var q := "\"" + arg + "\"";
    assert q[1..|q| - 1] == arg && arg[0] in arg;
  }

  lemma DestinationTight(w: string)
    requires Destination(w)
    ensures ' ' !in w
  {
    assert w == "--to-destination=" + w[17..];
  }

  lemma QuotedArgument(isIP: string -> bool, arg: string)
    requires ArgumentText(arg)
    ensures Written(QuoteArg(arg)) && Printed(isIP, QuoteArg(arg)) == Shown(isIP, arg)
  {
    if !Written(arg) {
      BlanksQuoted(arg);
    } else if Destination(arg) {
      DestinationTight(arg);
    }
  }

  /** A rule given by such arguments is stored as these arguments, one by one, between single blanks. */
  lemma ArgumentsNormal(isIP: string -> bool, args: seq<string>)
    requires Addresses(isIP) && args != [] && AllArguments(args)
    ensures Normalize(isIP, Join(QuoteArgs(args), ' ')) == Normal(Join(AllShown(isIP, args), ' '))
  {
    var ws := QuoteArgs(args);
    forall i | 0 <= i < |args| ensures Written(ws[i]) && Printed(isIP, ws[i]) == Shown(isIP, args[i]) {
      QuotedArgument(isIP, args[i]);
    }
    assert AllPrinted(isIP, ws) == AllShown(isIP, args);
    NormalWords(isIP, "", ws, "");
    assert "" + Join(ws, ' ') + "" == Join(ws, ' ');
  }

  /** The tables with the rule in the chain: where it was, or else first or last. */
  function WithRule(tables: TextTables, table: string, chain: string, position: Position, r: string): TextTables {
    var t := if table in tables then tables[table] else map[];
    var was := if chain in t then t[chain] else [];
    tables[table := t[chain := if r in was then was else if position.Prepend? then [r] + was else was + [r]]]
  }

  lemma StoresRule(isIP: string -> bool, tables: TextTables, position: Position, table: string, chain: string, rule: string)
    requires Normalize(isIP, rule).Normal?
    ensures FakeIptables.StoreRule(isIP, tables, position, table, chain, rule) ==
      Stored(WithRule(tables, table, chain, position, Normalize(isIP, rule).rule), Reading)
  {
    var r := Normalize(isIP, rule).rule;
    var t := TableIn(tables, table);
    var u := Tables.EnsureChain(t, chain);
    assert tables[table := u][table := Tables.EnsureRule(u, position, chain, r)] == tables[table := Tables.EnsureRule(u, position, chain, r)];
    assert Tables.EnsureRule(u, position, chain, r) == WithRule(tables, table, chain, position, r)[table];
  }

  lemma BuiltinGood(table: string)
    requires table in BUILTIN_CHAINS
    ensures forall c :: c in BUILTIN_CHAINS[table] ==> GoodName(c)
  {
    assert GoodName("INPUT") && GoodName("FORWARD") && GoodName("OUTPUT") && GoodName("PREROUTING") && GoodName("POSTROUTING");
    var filter, nat', mangle := BUILTIN_CHAINS["filter"], BUILTIN_CHAINS["nat"], BUILTIN_CHAINS["mangle"];
    assert table == "filter" || table == "nat" || table == "mangle";
  }

  lemma FreshNeat(isIP: string -> bool)
    ensures AllNeat(isIP, FreshTables())
  {
    forall table | table in FreshTables() ensures Neat(isIP, FreshTables()[table]) {
      BuiltinGood(table);
    }
  }

  // ---- The object ----

  class FakeIPTables {
    const isIP: string -> bool
    var tables: TextTables

    ghost predicate Neatly() reads this {
      AllNeat(isIP, tables)
    }

    constructor (isIP: string -> bool)
      ensures this.isIP == isIP && tables == FreshTables()
      ensures Neatly()
    {
      this.isIP := isIP;
      tables := FreshTables();
      new;
      FreshNeat(isIP);
    }

    method EnsureChain(table: string, chain: string) returns (existed: bool)
      modifies this
      ensures existed == (chain in TableIn(old(tables), table))
      ensures tables == if existed then old(tables) else EnsureChainIn(old(tables), table, chain)
      ensures old(Neatly()) && GoodName(chain) ==> Neatly()
    {
      existed := table in tables && chain in tables[table];
      if !existed {
        var t := if table in tables then tables[table] else map[];
        tables := tables[table := t[chain := []]];
      }
    }

    method FlushChain(table: string, chain: string) returns (ok: bool)
      modifies this
      ensures ok == (chain in TableIn(old(tables), table))
      ensures tables == if ok then old(tables)[table := Tables.FlushChain(old(tables)[table], chain)] else old(tables)
      ensures old(Neatly()) ==> Neatly()
    {
      ok := table in tables && chain in tables[table];
      if ok { tables := tables[table := tables[table][chain := []]]; }
    }

    method DeleteChain(table: string, chain: string) returns (ok: bool)
      modifies this
      ensures ok == (chain in TableIn(old(tables), table))
      ensures tables == if ok then old(tables)[table := Tables.DeleteChain(old(tables)[table], chain)] else old(tables)
      ensures old(Neatly()) ==> Neatly()
    {
      ok := table in tables && chain in tables[table];
      if ok {
        assert tables[table] - {chain} == Tables.DeleteChain(tables[table], chain);
        tables := tables[table := tables[table] - {chain}];
      }
    }

    method StoreRule(position: Position, table: string, chain: string, rule: string) returns (existed: bool, status: Status)
      modifies this
      ensures Stored(tables, status) == FakeIptables.StoreRule(isIP, old(tables), position, table, chain, rule)
      ensures existed ==> tables == old(tables)
      ensures existed <==> Normalize(isIP, rule).Normal? && Normalize(isIP, rule).rule in Rules(TableIn(old(tables), table), chain)
    {
      var t := if table in tables then tables[table] else map[];
      if chain !in t { t := t[chain := []]; }
      tables := tables[table := t];
      existed := false;
      var n := NormalizeRule(isIP, rule);
      if n.BadQuotes? { return false, Failed; }
      if n.Panic? { return false, Panicked; }
      var i := FindRule(t[chain], n.rule);
      if i >= 0 {
        assert tables == old(tables);
        return true, Reading;
      }
      tables := tables[table := t[chain := if position.Prepend? then [n.rule] + t[chain] else t[chain] + [n.rule]]];
      return false, Reading;
    }

    method EnsureRule(position: Position, table: string, chain: string, args: seq<string>) returns (existed: bool, status: Status)
      modifies this
      ensures
        Stored(tables, status) ==
        FakeIptables.StoreRule(isIP, old(tables), position, table, chain, Join(QuoteArgs(args), ' '))
      ensures
        Addresses(isIP) && args != [] && AllArguments(args) ==>
          && status == Reading && existed == (Join(AllShown(isIP, args), ' ') in Rules(TableIn(old(tables), table), chain))
          && tables == WithRule(old(tables), table, chain, position, Join(AllShown(isIP, args), ' '))
      ensures old(Neatly()) && AddressText(isIP) && GoodName(chain) ==> (Neatly() <==> Storable(isIP, Join(QuoteArgs(args), ' ')))
    {
      var quoted := NormalizeArgs(args);
      assert quoted == QuoteArgs(args);
      if Addresses(isIP) && args != [] && AllArguments(args) {
        ArgumentsNormal(isIP, args);
        StoresRule(isIP, tables, position, table, chain, Join(quoted, ' '));
      }
      if Neatly() && AddressText(isIP) && GoodName(chain) {
        StoreRuleNeat(isIP, tables, position, table, chain, Join(quoted, ' '));
      }
      existed, status := StoreRule(position, table, chain, Join(quoted, ' '));
    }

    /** Deleting from a missing chain and deleting a rule that is not there both succeed. */
    method DeleteRule(table: string, chain: string, args: seq<string>) returns (status: Status)
      modifies this
      ensures
        chain in TableIn(old(tables), table) ==>
          match Normalize(isIP, Join(QuoteArgs(args), ' '))
          case Normal(r) => status == Reading && tables == old(tables)[table := Tables.DeleteRule(old(tables)[table], chain, r)]
          case BadQuotes => status == Failed && tables == old(tables)
          case Panic => status == Panicked && tables == old(tables)
      ensures chain !in TableIn(old(tables), table) ==> status == Reading && tables == old(tables)
      ensures old(Neatly()) ==> Neatly()
    {
      if table !in tables || chain !in tables[table] { return Reading; }
      var quoted := NormalizeArgs(args);
      assert quoted == QuoteArgs(args);
      var n := NormalizeRule(isIP, Join(quoted, ' '));
      if n.BadQuotes? { return Failed; }
      if n.Panic? { return Panicked; }
      var rules := RemoveRule(tables[table][chain], n.rule);
      if Neatly() { DeleteRuleNeat(isIP, tables[table], chain, n.rule); }
      tables := tables[table := tables[table][chain := rules]];
      return Reading;
    }

    method ListRule(table: string, chain: string) returns (r: Option<seq<string>>)
      ensures r == if chain in TableIn(tables, table) then Some(tables[table][chain]) else None
    {
      if table !in tables || chain !in tables[table] { return None; }
      return Some(tables[table][chain]);
    }

    /** The chains in sorted order, their lines first and then their rules. */
    method SaveInto(table: string) returns (r: Option<string>, ghost names: seq<string>)
      ensures r.Some? <==> table in tables
      ensures r.Some? ==> Enumerates(names, tables[table]) && Sorted(names) && r.value == SaveText(table, tables[table], names)
    {
      names := [];
      if table !in tables { return None, []; }
      var t := tables[table];
      var chainNames := ListChains(t);
      var sorted := SortStrings(chainNames);
      SameMembers(sorted, chainNames);
      var chainLines, rules := WriteTable(t, sorted);
      SavePieces(table, ChainLinesFor(sorted), SavedRules(t, sorted));
      return Some("*" + table + "\n" + chainLines + rules + "COMMIT\n"), sorted;
    }

    /** Reads the data line by line; the answer is Reading or Finished when nothing went wrong. */
    method Restore(only: string, data: string, flush: bool) returns (status: Status)
      modifies this
      ensures var p := RestoreText(isIP, only, flush, data, old(tables)); tables == p.tables && status == p.status
      ensures old(Neatly()) && AddressText(isIP) && PlainText(data) ==> Neatly()
    {
      var ctx := Context(isIP, only, flush, data);
      if Neatly() && AddressText(isIP) && PlainText(data) { RestoreTextNeat(isIP, only, flush, data, tables); }
      var p := Progress(tables, "", Reading);
      var rest := data;
      while p.status == Reading
        invariant RestoreText(isIP, only, flush, data, old(tables)) == RestoreLines(ctx, p, Lines(rest))
        invariant tables == p.tables
        decreases |rest|, if p.status == Reading then 1 else 0
      {
        var i := IndexOf(rest, '\n');
        RestoreNext(ctx, p, rest);
        if i == |rest| { return p.status; }
        p := RestoreLine(ctx, p, rest[..i]);
        tables := p.tables;
        rest := rest[i + 1..];
      }
      return p.status;
    }
  }

  method ListChains(t: TextTable) returns (names: seq<string>)
    ensures Enumerates(names, t)
  {
    names := [];
    var left := t.Keys;
    while left != {}
      invariant left <= t.Keys && NoDuplicates(names)
      invariant forall c :: c in names <==> c in t && c !in left
      decreases left
    {
      var c :| c in left;
      names := names + [c];
      left := left - {c};
    }
  }

  method SaveChain(chain: string, rules: seq<string>) returns (text: string)
    ensures text == Unlines(SavedChain(chain, rules))
  {
    text := "";
    for i := 0 to |rules|
      invariant text == Unlines(SavedChain(chain, rules[..i]))
    {
      var line := RuleLine(Append, chain, rules[i]);
      assert SavedChain(chain, rules[..i + 1]) == SavedChain(chain, rules[..i]) + [line];
      UnlinesConcat(SavedChain(chain, rules[..i]), [line]);
      text := text + (line + "\n");
    }
    assert rules[..|rules|] == rules;
  }

  // ---- Saving, piece by piece ----

  method WriteTable(t: TextTable, names: seq<string>) returns (chainLines: string, rules: string)
    requires forall i :: 0 <= i < |names| ==> names[i] in t
    ensures chainLines == Unlines(ChainLinesFor(names)) && rules == Unlines(SavedRules(t, names))
  {
    chainLines, rules := "", "";
    for i := 0 to |names|
      invariant chainLines == Unlines(ChainLinesFor(names[..i]))
      invariant rules == Unlines(SavedRules(t, names[..i]))
    {
      var lines := SaveChain(names[i], t[names[i]]);
      SaveStep(t, names, i);
      chainLines := chainLines + (MakeChainLine(names[i]) + "\n");
      rules := rules + lines;
    }
    assert names[..|names|] == names;
  }

  lemma {:induction false} SavedRulesConcat(t: TextTable, a: seq<string>, b: seq<string>)
    ensures SavedRules(t, a + b) == SavedRules(t, a) + SavedRules(t, b)
    decreases |a|
  {
    if a == [] {
      assert a + b == b;
    } else {
      assert (a + b)[0] == a[0] && (a + b)[1..] == a[1..] + b;
      SavedRulesConcat(t, a[1..], b);
    }
  }

  lemma SaveStep(t: TextTable, names: seq<string>, i: nat)
    requires i < |names| && names[i] in t
    ensures Unlines(ChainLinesFor(names[..i + 1])) == Unlines(ChainLinesFor(names[..i])) + (MakeChainLine(names[i]) + "\n")
    ensures
      Unlines(SavedRules(t, names[..i + 1])) ==
      Unlines(SavedRules(t, names[..i])) + Unlines(SavedChain(names[i], t[names[i]]))
  {
    var a, c := names[..i], names[i];
    assert names[..i + 1] == a + [c];
    assert ChainLinesFor(a + [c]) == ChainLinesFor(a) + [MakeChainLine(c)];
    UnlinesConcat(ChainLinesFor(a), [MakeChainLine(c)]);
    SavedRulesConcat(t, a, [c]);
    assert [c][1..] == [] && SavedRules(t, []) == [];
    assert SavedRules(t, [c]) == SavedChain(c, t[c]);
    UnlinesConcat(SavedRules(t, a), SavedChain(c, t[c]));
  }

  lemma SavePieces(table: string, chainLines: seq<string>, rules: seq<string>)
    ensures
      "*" + table + "\n" + Unlines(chainLines) + Unlines(rules) + "COMMIT\n" ==
      Unlines(["*" + table] + (chainLines + rules + ["COMMIT"]))
  {
    var body := chainLines + rules + ["COMMIT"];
    UnlinesConcat(chainLines, rules);
    UnlinesConcat(chainLines + rules, ["COMMIT"]);
    assert Unlines(["COMMIT"]) == "COMMIT\n";
    assert (["*" + table] + body)[1..] == body;
  }

  /** What is saved depends on the table alone: sorting leaves no choice of order. */
  lemma SaveDeterministic(table: string, t: TextTable, a: seq<string>, b: seq<string>)
    requires Enumerates(a, t) && Sorted(a) && Enumerates(b, t) && Sorted(b)
    ensures SaveText(table, t, a) == SaveText(table, t, b)
  {
    forall c ensures multiset(a)[c] == multiset(b)[c] {
      CountOnce(a, c);
      CountOnce(b, c);
      assert c in multiset(a) <==> c in a;
      assert c in multiset(b) <==> c in b;
    }
    assert multiset(a) == multiset(b);
    SortedUnique(a, b);
  }
}
