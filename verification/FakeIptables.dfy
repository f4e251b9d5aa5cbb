/**
 * The iptables fake: tables of chains of textual rules, saved as and restored from text.
 * Which words are addresses is a parameter, `isIP`.
 */
module FakeIptables {
  import opened Sequences
  import opened Tables
  import opened Text
  import opened RuleText
  import opened SaveRestore

  type TextTable = Table<string, string>
  type TextTables = map<string, TextTable>

  const BUILTIN_CHAINS: map<string, set<string>> := map[
    "filter" := {"INPUT", "FORWARD", "OUTPUT"},
    "nat" := {"PREROUTING", "INPUT", "OUTPUT", "POSTROUTING"},
    "mangle" := {"PREROUTING", "INPUT", "FORWARD", "OUTPUT", "POSTROUTING"}
  ]

  function Builtin(table: string): set<string> {
    if table in BUILTIN_CHAINS then BUILTIN_CHAINS[table] else {}
  }

  function FreshTables(): TextTables {
    map table | table in BUILTIN_CHAINS :: map c | c in BUILTIN_CHAINS[table] :: []
  }

  function TableIn(tables: TextTables, table: string): TextTable {
    if table in tables then tables[table] else map[]
  }

  function EnsureChainIn(tables: TextTables, table: string, chain: string): TextTables {
    tables[table := Tables.EnsureChain(TableIn(tables, table), chain)]
  }

  datatype Status = Reading | Finished | Failed | Panicked

  datatype Progress = Progress(tables: TextTables, current: string, status: Status)

  datatype Stored = Stored(tables: TextTables, status: Status)

  /** ensureRule: the chain is created even when the rule turns out to be malformed. */
  function StoreRule(isIP: string -> bool, tables: TextTables, position: Position, table: string, chain: string,
                     rule: string): Stored
  {
    var u := EnsureChainIn(tables, table, chain);
    match Normalize(isIP, rule)
    case Normal(r) => Stored(u[table := Tables.EnsureRule(u[table], position, chain, r)], Reading)
    case BadQuotes => Stored(u, Failed)
    case Panic => Stored(u, Panicked)
  }

  function TrimPrefix(s: string, p: string): string {
    if p <= s then s[|p|..] else s
  }

  // ---- Restoring ----

  datatype Command =
    | Skip
    | Open(table: string)
    | DeclareChain(chain: string)
    | Add(position: Position, chain: string, rule: string)
    | Remove(chain: string)
    | Malformed
    | Commit

  /** The line begins with a dash and the letter. */
  predicate HasOption(line: string, letter: char) {
    |line| >= 2 && line[0] == '-' && line[1] == letter
  }

  function ParseRule(position: Position, line: string): Command
    requires |line| >= 2
  {
    var parts := Split(line, ' ');
    if |parts| < 3 then Malformed
    else Add(position, parts[1], TrimPrefix(line, line[..2] + " " + parts[1] + " "))
  }

  function Parse(line: string): Command {
    if line == "" || line[0] == '#' then Skip
    else if line[0] == '*' then Open(line[1..])
    else if line[0] == ':' then DeclareChain(Split(line[1..], ' ')[0])
    else if HasOption(line, 'A') then ParseRule(Append, line)
    else if HasOption(line, 'I') then ParseRule(Prepend, line)
    else if HasOption(line, 'X') then
      var parts := Split(line, ' ');
      if |parts| < 2 then Malformed else Remove(parts[1])
    else if line == "COMMIT" then Commit
    else Skip
  }

  /** What stays the same while a text is restored; `only` is empty when all tables are restored. */
  datatype Context = Context(isIP: string -> bool, only: string, flush: bool, all: string)

  function DeclareIn(ctx: Context, tables: TextTables, table: string, chain: string): TextTables {
    var u := if ctx.flush && table in tables then tables[table := Tables.DeleteChain(tables[table], chain)] else tables;
    var v := EnsureChainIn(u, table, chain);
    if chain !in Builtin(table) && !Contains(ctx.all, "-X " + chain) then v[table := Tables.FlushChain(v[table], chain)] else v
  }

  /** Lines outside a table, or in a table that is not being restored, have no effect. */
  function Perform(ctx: Context, before: Progress, command: Command): Progress {
    var p := if command.Open? then before.(current := command.table) else before;
    if p.current == "" || (ctx.only != "" && ctx.only != p.current) then p
    else
      match command
      case Skip => p
      case Open(_) => p
      case DeclareChain(c) => p.(tables := DeclareIn(ctx, p.tables, p.current, c))
      case Add(position, c, rule) =>
        var s := StoreRule(ctx.isIP, p.tables, position, p.current, c, rule);
        p.(tables := s.tables, status := s.status)
      case Remove(c) =>
        if p.current !in p.tables || c !in p.tables[p.current] then p.(status := Failed)
        else p.(tables := p.tables[p.current := Tables.DeleteChain(p.tables[p.current], c)])
      case Malformed => p.(status := Failed)
      case Commit => if ctx.only == p.current then p.(status := Finished) else p.(current := "")
  }

  function RestoreLine(ctx: Context, before: Progress, line: string): Progress {
    Perform(ctx, before, Parse(line))
  }

  function RestoreLines(ctx: Context, p: Progress, lines: seq<string>): Progress
    decreases |lines|
  {
    if lines == [] || p.status != Reading then p else RestoreLines(ctx, RestoreLine(ctx, p, lines[0]), lines[1..])
  }

  /** Text after the last newline is not looked at, except for the deletions it may mention. */
  function RestoreText(isIP: string -> bool, only: string, flush: bool, data: string, tables: TextTables): Progress {
    RestoreLines(Context(isIP, only, flush, data), Progress(tables, "", Reading), Lines(data))
  }

  lemma {:induction false} RestoreLinesConcat(ctx: Context, p: Progress, a: seq<string>, b: seq<string>)
    ensures RestoreLines(ctx, p, a + b) == RestoreLines(ctx, RestoreLines(ctx, p, a), b)
    decreases |a|
  {
    if a == [] {
      assert a + b == b;
    } else if p.status == Reading {
      assert (a + b)[0] == a[0] && (a + b)[1..] == a[1..] + b;
      RestoreLinesConcat(ctx, RestoreLine(ctx, p, a[0]), a[1..], b);
    }
  }

  // ---- Printing directives ----

  function RuleLine(position: Position, chain: string, rule: string): string {
    (if position == Append then "-A " else "-I ") + chain + " " + rule
  }

  function Print(d: Directive<string, string>): string {
    match d
    case Declare(c) => MakeChainLine(c)
    case AddRule(position, c, r) => RuleLine(position, c, r)
    case Discard(c) => "-X " + c
  }

  function PrintAll(ds: seq<Directive<string, string>>): seq<string> {
    seq(|ds|, i requires 0 <= i < |ds| => Print(ds[i]))
  }

  ghost predicate GoodName(c: string) {
    ' ' !in c && '\n' !in c
  }

  ghost predicate GoodRule(isIP: string -> bool, rule: string) {
    '\n' !in rule && Normalize(isIP, rule) == Normal(rule)
  }

  ghost predicate Printable(isIP: string -> bool, d: Directive<string, string>) {
    GoodName(d.chain) && (d.AddRule? ==> GoodRule(isIP, d.rule))
  }

  ghost predicate AllPrintable(isIP: string -> bool, ds: seq<Directive<string, string>>) {
    forall i :: 0 <= i < |ds| ==> Printable(isIP, ds[i])
  }

  /** A restore that is under way in `table`. */
  ghost predicate Within(ctx: Context, p: Progress, table: string) {
    p.status == Reading && p.current == table != "" && table in p.tables && (ctx.only == "" || ctx.only == table)
  }

  function Advanced(p: Progress, table: string, r: Restored<string, string>): Progress {
    Progress(p.tables[table := r.table], table, if r.ok then Reading else Failed)
  }

  function CommandOf(d: Directive<string, string>): Command {
    match d
    case Declare(c) => DeclareChain(c)
    case AddRule(position, c, r) => Add(position, c, r)
    case Discard(c) => Remove(c)
  }

  lemma SplitTwo(a: string, b: string, rest: string)
    requires ' ' !in a && ' ' !in b
    ensures Split(a + " " + b + " " + rest, ' ') == [a] + ([b] + Split(rest, ' '))
  {
    assert a + " " + b + " " + rest == a + [' '] + (b + [' '] + rest);
    SplitFirst(a, ' ', b + [' '] + rest);
    SplitFirst(b, ' ', rest);
  }

  lemma ParseRuleLine(position: Position, option: string, chain: string, rule: string)
    requires ' ' !in chain && |option| == 2 && ' ' !in option
    ensures ParseRule(position, option + " " + chain + " " + rule) == Add(position, chain, rule)
  {
    var head := option + " " + chain + " ";
    var line := head + rule;
    assert line[..2] == option && line[|head|..] == rule;
    SplitTwo(option, chain, rule);
    var parts := Split(line, ' ');
    assert |parts| >= 3 && parts[1] == chain;
    assert line[..2] + " " + parts[1] + " " == head;
  }

  lemma ParseDeclare(c: string)
    requires ' ' !in c
    ensures Parse(MakeChainLine(c)) == DeclareChain(c)
  {
    assert MakeChainLine(c)[1..] == c + [' '] + "- [0:0]";
    SplitFirst(c, ' ', "- [0:0]");
  }

  lemma ParseDiscard(c: string)
    requires ' ' !in c
    ensures Parse("-X " + c) == Remove(c)
  {
    assert "-X " + c == "-X" + [' '] + c;
    SplitFirst("-X", ' ', c);
    IndexOfAbsent(c, ' ');
  }

  lemma ParseAdd(position: Position, c: string, r: string)
    requires ' ' !in c
    ensures Parse(RuleLine(position, c, r)) == Add(position, c, r)
  {
    var option := if position == Append then "-A" else "-I";
    ParseRuleLine(position, option, c, r);
    var line := option + " " + c + " " + r;
    assert RuleLine(position, c, r) == line by { assert "-A" + " " == "-A " && "-I" + " " == "-I "; }
    assert line[0] == '-' && line[1] == option[1];
  }

  /** Reading a printed directive gives the directive back. */
  lemma ParsePrinted(d: Directive<string, string>)
    requires ' ' !in d.chain
    ensures Parse(Print(d)) == CommandOf(d)
  {
    match d {
      case Declare(c) => ParseDeclare(c);
      case AddRule(position, c, r) => ParseAdd(position, c, r);
      case Discard(c) => ParseDiscard(c);
    }
  }

  lemma {:induction false} FirstIndex(s: string, c: char, i: nat)
    requires i < |s| && s[i] == c
    ensures IndexOf(s, c) <= i
    decreases |s|
  {
    if s[0] != c { FirstIndex(s[1..], c, i - 1); }
  }

  lemma SplitBlanks(s: string)
    ensures |Split(s, ' ')| >= 2 <==> ' ' in s
    ensures |Split(s, ' ')| >= 3 <==> exists i :: 0 <= i < |s| && s[i] == ' ' && ' ' in s[i + 1..]
  {
    var k := IndexOf(s, ' ');
    if i :| 0 <= i < |s| && s[i] == ' ' && ' ' in s[i + 1..] {
      FirstIndex(s, ' ', i);
      assert s[i + 1..] == s[k + 1..][i - k..];
    }
  }

  /** A rule line is malformed exactly when it has fewer than two blanks, and a deletion when it has none. */
  lemma MalformedExactly(line: string)
    requires |line| >= 2 && line[0] == '-'
    ensures line[1] == 'A' || line[1] == 'I' ==>
      (Parse(line) == Malformed <==> !exists i :: 0 <= i < |line| && line[i] == ' ' && ' ' in line[i + 1..])
    ensures line[1] == 'X' ==> (Parse(line) == Malformed <==> ' ' !in line)
  {
    SplitBlanks(line);
  }

  /**
   * The chains that declarations in the text leave unflushed: the builtin ones, and those for which
   * the text mentions a deletion although no line deletes them.
   */
  ghost function Spared(table: string, all: string, ds: seq<Directive<string, string>>): set<string> {
    Builtin(table) + set d | d in ds && d.Declare? && Contains(all, "-X " + d.chain) && Discard(d.chain) !in ds :: d.chain
  }

  /** The text mentions every deletion. */
  ghost predicate DeletionsShow(all: string, ds: seq<Directive<string, string>>) {
    forall c :: Discard(c) in ds ==> Contains(all, "-X " + c)
  }

  /** Declarations flush exactly the chains that are neither spared nor discarded. */
  ghost predicate FlushesRight(table: string, all: string, ds: seq<Directive<string, string>>, spared: set<string>) {
    forall c :: Declare(c) in ds ==>
      (Flushes(spared, ds, c) <==> c !in Builtin(table) && !Contains(all, "-X " + c))
  }

  lemma SparedRight(table: string, all: string, ds: seq<Directive<string, string>>)
    requires DeletionsShow(all, ds)
    ensures FlushesRight(table, all, ds, Spared(table, all, ds))
  {
    forall c | Declare(c) in ds
      ensures Flushes(Spared(table, all, ds), ds, c) <==> c !in Builtin(table) && !Contains(all, "-X " + c)
    {
      var d: Directive<string, string> := Declare(c);
      assert d in ds && d.Declare? && d.chain == c;
    }
  }

  lemma PrintedDeclare(ctx: Context, p: Progress, table: string, ds: seq<Directive<string, string>>, spared: set<string>, c: string)
    requires Within(ctx, p, table) && ' ' !in c && !ctx.flush && Declare(c) in ds && FlushesRight(table, ctx.all, ds, spared)
    ensures RestoreLine(ctx, p, MakeChainLine(c)) == Advanced(p, table, Obey(p.tables[table], spared, ds, Declare(c)))
  {
    ParseDeclare(c);
    var u := Tables.EnsureChain(p.tables[table], c);
    assert EnsureChainIn(p.tables, table, c) == p.tables[table := u];
    assert p.tables[table := u][table := Tables.FlushChain(u, c)] == p.tables[table := Tables.FlushChain(u, c)];
  }

  lemma PrintedAdd(ctx: Context, p: Progress, table: string, position: Position, c: string, r: string)
    requires Within(ctx, p, table) && ' ' !in c && GoodRule(ctx.isIP, r)
    ensures RestoreLine(ctx, p, RuleLine(position, c, r)) == Advanced(p, table, Restored(Tables.EnsureRule(p.tables[table], position, c, r), true))
  {
    ParseAdd(position, c, r);
    var u := Tables.EnsureChain(p.tables[table], c);
    var v := Tables.EnsureRule(u, position, c, r);
    assert v == Tables.EnsureRule(p.tables[table], position, c, r);
    assert p.tables[table := u][table := v] == p.tables[table := v];
  }

  lemma PrintedDiscard(ctx: Context, p: Progress, table: string, ds: seq<Directive<string, string>>, spared: set<string>, c: string)
    requires Within(ctx, p, table) && ' ' !in c
    ensures RestoreLine(ctx, p, "-X " + c) == Advanced(p, table, Obey(p.tables[table], spared, ds, Discard(c)))
  {
    ParseDiscard(c);
    assert p.tables[table := p.tables[table]] == p.tables;
  }

  lemma PrintedLine(ctx: Context, p: Progress, table: string, ds: seq<Directive<string, string>>, spared: set<string>,
                    d: Directive<string, string>)
    requires Within(ctx, p, table) && Printable(ctx.isIP, d)
    requires d.Declare? ==> !ctx.flush && d in ds && FlushesRight(table, ctx.all, ds, spared)
    ensures RestoreLine(ctx, p, Print(d)) == Advanced(p, table, Obey(p.tables[table], spared, ds, d))
  {
    match d {
      case Declare(c) => PrintedDeclare(ctx, p, table, ds, spared, c);
      case AddRule(position, c, r) => PrintedAdd(ctx, p, table, position, c, r);
      case Discard(c) => PrintedDiscard(ctx, p, table, ds, spared, c);
    }
  }

  lemma AdvancedTwice(p: Progress, table: string, q: Restored<string, string>, r: Restored<string, string>)
    ensures Advanced(Advanced(p, table, q), table, r) == Advanced(p, table, r)
  {
    assert p.tables[table := q.table][table := r.table] == p.tables[table := r.table];
  }

  /** The lines of printed directives do what the directives say. */
  lemma {:induction false} PrintedLines(ctx: Context, p: Progress, table: string, ds: seq<Directive<string, string>>,
                                        spared: set<string>, es: seq<Directive<string, string>>)
    requires Within(ctx, p, table) && AllPrintable(ctx.isIP, es)
    requires forall i :: 0 <= i < |es| && es[i].Declare? ==> !ctx.flush && es[i] in ds && FlushesRight(table, ctx.all, ds, spared)
    ensures RestoreLines(ctx, p, PrintAll(es)) == Advanced(p, table, Restore(p.tables[table], spared, ds, es))
    decreases |es|
  {
    if es == [] {
      assert p.tables[table := p.tables[table]] == p.tables;
    } else {
      assert Printable(ctx.isIP, es[0]);
      PrintedLine(ctx, p, table, ds, spared, es[0]);
      assert PrintAll(es)[0] == Print(es[0]) && PrintAll(es)[1..] == PrintAll(es[1..]);
      var u := Obey(p.tables[table], spared, ds, es[0]);
      if u.ok {
        var q := Advanced(p, table, u);
        PrintedLines(ctx, q, table, ds, spared, es[1..]);
        AdvancedTwice(p, table, u, Restore(u.table, spared, ds, es[1..]));
      }
    }
  }

  function TextOf(table: string, ds: seq<Directive<string, string>>): string {
    Unlines(["*" + table] + (PrintAll(ds) + ["COMMIT"]))
  }

  /** The table's name is one a save prints and a restore accepts. */
  ghost predicate Selected(only: string, table: string) {
    table != "" && GoodName(table) && (only == "" || only == table)
  }

  /** A text of printed directives, once split into lines. */
  lemma TextLines(table: string, lines: seq<string>)
    requires GoodName(table) && NewlineFree(lines)
    ensures Lines(Unlines(["*" + table] + (lines + ["COMMIT"]))) == ["*" + table] + (lines + ["COMMIT"])
  {
    LinesUnlines(["*" + table] + (lines + ["COMMIT"]));
  }

  lemma OpenLine(ctx: Context, tables: TextTables, table: string)
    requires table != ""
    ensures RestoreLine(ctx, Progress(tables, "", Reading), "*" + table) == Progress(tables, table, Reading)
  {
    assert ("*" + table)[1..] == table;
  }

  lemma CommitLine(ctx: Context, p: Progress)
    ensures
      var q := RestoreLines(ctx, p, ["COMMIT"]);
      q.tables == p.tables && (q.status == p.status || (p.status == Reading && q.status == Finished))
  {
    assert ["COMMIT"][1..] == [];
    var q := RestoreLine(ctx, p, "COMMIT");
    assert RestoreLines(ctx, q, []) == q;
  }

  /** Between its header and its COMMIT a table's lines act on that table. */
  lemma RestoreBody(isIP: string -> bool, only: string, flush: bool, table: string, lines: seq<string>, tables: TextTables)
    requires Selected(only, table) && NewlineFree(lines)
    ensures
      var data := Unlines(["*" + table] + (lines + ["COMMIT"]));
      var p := RestoreLines(Context(isIP, only, flush, data), Progress(tables, table, Reading), lines);
      var q := RestoreText(isIP, only, flush, data, tables);
      q.tables == p.tables && (q.status == p.status || (p.status == Reading && q.status == Finished))
  {
    var data := Unlines(["*" + table] + (lines + ["COMMIT"]));
    var ctx := Context(isIP, only, flush, data);
    TextLines(table, lines);
    OpenLine(ctx, tables, table);
    var start := Progress(tables, table, Reading);
    assert (["*" + table] + (lines + ["COMMIT"]))[1..] == lines + ["COMMIT"];
    RestoreLinesConcat(ctx, start, lines, ["COMMIT"]);
    CommitLine(ctx, RestoreLines(ctx, start, lines));
  }

  lemma PrintedNewlineFree(isIP: string -> bool, ds: seq<Directive<string, string>>)
    requires AllPrintable(isIP, ds)
    ensures NewlineFree(PrintAll(ds))
  {
    forall i | 0 <= i < |ds| ensures '\n' !in PrintAll(ds)[i] {
      assert Printable(isIP, ds[i]);
    }
  }

  lemma DiscardsShow(isIP: string -> bool, table: string, ds: seq<Directive<string, string>>)
    requires AllPrintable(isIP, ds)
    ensures DeletionsShow(TextOf(table, ds), ds)
  {
    forall c | Discard(c) in ds ensures Contains(TextOf(table, ds), "-X " + c) {
      var i :| 0 <= i < |ds| && ds[i] == Discard(c);
      assert Printable(isIP, ds[i]);
      var lines := ["*" + table] + (PrintAll(ds) + ["COMMIT"]);
      assert lines[i + 1] == "-X " + c;
      assert OccursAt(lines[i + 1], "-X " + c, 0);
      UnlinesContains(lines, "-X " + c);
    }
  }

  /** Restoring printed directives does to the table what the directives say, up to the first that fails. */
  lemma RestorePrinted(isIP: string -> bool, only: string, table: string, ds: seq<Directive<string, string>>, tables: TextTables)
    requires Selected(only, table) && table in tables && AllPrintable(isIP, ds)
    ensures
      var r := Restore(tables[table], Spared(table, TextOf(table, ds), ds), ds, ds);
      var q := RestoreText(isIP, only, false, TextOf(table, ds), tables);
      && q.tables == tables[table := r.table]
      && (if r.ok then q.status in {Reading, Finished} else q.status == Failed)
  {
    PrintedNewlineFree(isIP, ds);
    DiscardsShow(isIP, table, ds);
    RestoreBody(isIP, only, false, table, PrintAll(ds), tables);
    var ctx := Context(isIP, only, false, TextOf(table, ds));
    SparedRight(table, ctx.all, ds);
    PrintedLines(ctx, Progress(tables, table, Reading), table, ds, Spared(table, ctx.all, ds), ds);
  }

  // ---- Where a deletion shows in a text ----

  lemma DeletionAt(s: string, c: string, i: nat)
    requires OccursAt(s, "-X " + c, i)
    ensures i + 3 + |c| <= |s| && s[i + 1] == 'X' && s[i + 2] == ' ' && s[i + 3..i + 3 + |c|] == c
    ensures c != "" ==> s[i + 3] == c[0]
  {
    var needle := "-X " + c;
    assert s[i + 1] == needle[1] && s[i + 2] == needle[2];
    assert s[i + 3..i + 3 + |c|] == s[i..i + |needle|][3..];
    if c != "" { assert s[i + 3..i + 3 + |c|][0] == s[i + 3]; }
  }

  lemma NoDeletionAt(s: string, c: string, i: nat)
    requires i + 2 < |s| ==> s[i + 1] != 'X' || s[i + 2] != ' ' || (c != "" && i + 3 < |s| && s[i + 3] != c[0])
    ensures !OccursAt(s, "-X " + c, i)
  {
    if OccursAt(s, "-X " + c, i) {
      DeletionAt(s, c, i);
    }
  }

  /** A chain name that cannot be taken for part of a chain line. */
  ghost predicate ProperName(c: string) {
    GoodName(c) && c != "" && c[0] != '-'
  }

  lemma NoDeletionInDeclare(d: string, c: string)
    requires GoodName(d) && ProperName(c)
    ensures !Contains(MakeChainLine(d), "-X " + c)
  {
    var s := MakeChainLine(d);
    assert s == ":" + d + " - [0:0]";
    forall i: nat | i <= |s| ensures !OccursAt(s, "-X " + c, i) {
      if i + 1 < |d| { assert s[i + 2] == d[i + 1]; }
      NoDeletionAt(s, c, i);
    }
  }

  lemma DeletionInDiscard(d: string, c: string)
    requires GoodName(d) && GoodName(c)
    ensures Contains("-X " + d, "-X " + c) <==> c <= d
  {
    var s, needle := "-X " + d, "-X " + c;
    forall i: nat | 0 < i <= |s| ensures !OccursAt(s, needle, i) {
      if i - 1 < |d| { assert s[i + 2] == d[i - 1]; }
      NoDeletionAt(s, c, i);
    }
    if OccursAt(s, needle, 0) {
      DeletionAt(s, c, 0);
      assert s[3..3 + |c|] == d[..|c|];
    }
    if c <= d {
      assert d == c + d[|c|..];
      assert s[0..|needle|] == needle;
      assert OccursAt(s, needle, 0);
    }
  }

  lemma NoDeletionInHeader(table: string, c: string)
    requires GoodName(table)
    ensures !Contains("*" + table, "-X " + c) && !Contains("COMMIT", "-X " + c)
  {
    var s := "*" + table;
    forall i: nat | i <= |s| ensures !OccursAt(s, "-X " + c, i) {
      if i + 1 < |table| { assert s[i + 2] == table[i + 1]; }
      NoDeletionAt(s, c, i);
    }
    forall i: nat | i <= 6 ensures !OccursAt("COMMIT", "-X " + c, i) {
      NoDeletionAt("COMMIT", c, i);
    }
  }

  /** Adding the rule does not look like deleting the chain. */
  ghost predicate Quiet(d: Directive<string, string>, c: string) {
    d.AddRule? ==> !Contains(Print(d), "-X " + c)
  }

  lemma DeletionInPrinted(d: Directive<string, string>, c: string)
    requires GoodName(d.chain) && ProperName(c) && Quiet(d, c)
    ensures Contains(Print(d), "-X " + c) <==> d.Discard? && c <= d.chain
  {
    match d {
      case Declare(e) => NoDeletionInDeclare(e, c);
      case AddRule(_, _, _) =>
      case Discard(e) => DeletionInDiscard(e, c);
    }
  }

  lemma DeletionInText(isIP: string -> bool, table: string, ds: seq<Directive<string, string>>, c: string)
    requires GoodName(table) && AllPrintable(isIP, ds) && ProperName(c)
    requires forall d :: d in ds ==> Quiet(d, c)
    ensures Contains(TextOf(table, ds), "-X " + c) <==> exists d :: d in ds && d.Discard? && c <= d.chain
  {
    var needle := "-X " + c;
    var lines := ["*" + table] + (PrintAll(ds) + ["COMMIT"]);
    UnlinesContains(lines, needle);
    NoDeletionInHeader(table, c);
    forall i | 0 <= i < |ds| ensures Contains(Print(ds[i]), needle) <==> ds[i].Discard? && c <= ds[i].chain {
      assert Printable(isIP, ds[i]);
      DeletionInPrinted(ds[i], c);
    }
    if i :| 0 <= i < |lines| && Contains(lines[i], needle) {
      assert 0 < i <= |ds| && lines[i] == Print(ds[i - 1]);
    }
    if d :| d in ds && d.Discard? && c <= d.chain {
      var i :| 0 <= i < |ds| && ds[i] == d;
      assert lines[i + 1] == Print(ds[i]);
    }
  }

  // ---- Saving ----

  function SavedChain(chain: string, rules: seq<string>): seq<string> {
    seq(|rules|, i requires 0 <= i < |rules| => RuleLine(Append, chain, rules[i]))
  }

  function SavedRules(t: TextTable, names: seq<string>): seq<string> {
    if names == [] then [] else SavedChain(names[0], Rules(t, names[0])) + SavedRules(t, names[1..])
  }

  function SaveText(table: string, t: TextTable, names: seq<string>): string {
    Unlines(["*" + table] + (ChainLinesFor(names) + SavedRules(t, names) + ["COMMIT"]))
  }

  ghost predicate Enumerates(names: seq<string>, t: TextTable) {
    NoDuplicates(names) && forall c :: c in names <==> c in t
  }

  /** A table whose text can be read back: names without blanks, rules in normal form and only once. */
  ghost predicate Neat(isIP: string -> bool, t: TextTable) {
    forall c :: c in t ==> GoodName(c) && NoDuplicates(t[c]) && forall i :: 0 <= i < |t[c]| ==> GoodRule(isIP, t[c][i])
  }

  function ContentsOf(t: TextTable, names: seq<string>): seq<seq<string>> {
    seq(|names|, i requires 0 <= i < |names| => Rules(t, names[i]))
  }

  lemma {:induction false} SavedRulesPrinted(t: TextTable, names: seq<string>)
    ensures SavedRules(t, names) == PrintAll(FillAll(names, ContentsOf(t, names)))
    decreases |names|
  {
    if names != [] {
      SavedRulesPrinted(t, names[1..]);
      assert ContentsOf(t, names)[1..] == ContentsOf(t, names[1..]);
      var fills: seq<Directive<string, string>> := Fills(names[0], Rules(t, names[0]));
      assert SavedChain(names[0], Rules(t, names[0])) == PrintAll(fills);
    }
  }

  lemma {:induction false} FillsPrintable(isIP: string -> bool, t: TextTable, names: seq<string>)
    requires Neat(isIP, t) && forall i :: 0 <= i < |names| ==> names[i] in t
    ensures
      var ds := FillAll(names, ContentsOf(t, names));
      AllPrintable(isIP, ds) && forall i :: 0 <= i < |ds| ==> ds[i].AddRule?
    decreases |names|
  {
    if names != [] {
      FillsPrintable(isIP, t, names[1..]);
      assert ContentsOf(t, names)[1..] == ContentsOf(t, names[1..]);
    }
  }

  lemma SavedRulesGood(isIP: string -> bool, t: TextTable, names: seq<string>)
    requires Neat(isIP, t) && forall i :: 0 <= i < |names| ==> names[i] in t
    ensures NewlineFree(SavedRules(t, names)) && forall i :: 0 <= i < |SavedRules(t, names)| ==> "-" <= SavedRules(t, names)[i]
  {
    SavedRulesPrinted(t, names);
    FillsPrintable(isIP, t, names);
    PrintedNewlineFree(isIP, FillAll(names, ContentsOf(t, names)));
  }

  lemma EnumeratedNames(isIP: string -> bool, t: TextTable, names: seq<string>)
    requires Neat(isIP, t) && Enumerates(names, t)
    ensures GoodNames(names) && forall i :: 0 <= i < |names| ==> names[i] in t
  {
    forall i | 0 <= i < |names| ensures names[i] in t { assert names[i] in names; }
  }

  /** GetChainLines on the saved text of a table finds exactly its chains. */
  lemma SavedChainLines(isIP: string -> bool, table: string, t: TextTable, names: seq<string>)
    requires GoodName(table) && Neat(isIP, t) && Enumerates(names, t)
    ensures ChainLines(table, SaveText(table, t, names)) == Some(map c | c in t :: MakeChainLine(c))
  {
    EnumeratedNames(isIP, t, names);
    SavedRulesGood(isIP, t, names);
    ChainLinesOfSave(table, names, SavedRules(t, names));
    assert LineMap(names) == map c | c in t :: MakeChainLine(c);
  }

  // ---- Restoring what was saved ----

  /** The table once the chains have been declared: they are there and empty, the rest is as before. */
  ghost predicate Emptied(t: TextTable, u: TextTable, names: seq<string>) {
    && (forall c :: c in u <==> c in t || c in names)
    && forall c :: c in u ==> u[c] == if c in names then [] else t[c]
  }

  lemma DeclareEmpties(ctx: Context, tables: TextTables, table: string, c: string)
    requires table in tables && (ctx.flush || Rules(tables[table], c) == [])
    ensures
      var u := DeclareIn(ctx, tables, table, c);
      table in u && u == tables[table := u[table]] && Emptied(tables[table], u[table], [c])
  {
  }

  ghost predicate Clearable(flush: bool, t: TextTable, names: seq<string>) {
    flush || forall c :: c in names ==> Rules(t, c) == []
  }

  /** `q` is `p` after the declarations of the names. */
  ghost predicate Opened(ctx: Context, p: Progress, q: Progress, table: string, names: seq<string>) {
    && Within(ctx, p, table) && Within(ctx, q, table)
    && q.tables == p.tables[table := q.tables[table]]
    && Emptied(p.tables[table], q.tables[table], names)
  }

  lemma OpenedTogether(ctx: Context, p: Progress, q: Progress, r: Progress, table: string, a: seq<string>, b: seq<string>)
    requires Opened(ctx, p, q, table, a) && Opened(ctx, q, r, table, b)
    ensures Opened(ctx, p, r, table, a + b)
  {
  }

  lemma ClearableAfter(flush: bool, t: TextTable, u: TextTable, a: seq<string>, b: seq<string>)
    requires Clearable(flush, t, a + b) && Emptied(t, u, a)
    ensures Clearable(flush, u, b)
  {
    if !flush {
      forall c | c in b ensures Rules(u, c) == [] { assert c in a + b; }
    }
  }

  lemma DeclareLine(ctx: Context, p: Progress, table: string, c: string)
    requires Within(ctx, p, table) && GoodName(c) && Clearable(ctx.flush, p.tables[table], [c])
    ensures Opened(ctx, p, RestoreLine(ctx, p, MakeChainLine(c)), table, [c])
  {
    ParseDeclare(c);
    DeclareEmpties(ctx, p.tables, table, c);
  }

  ghost predicate GoodNames(names: seq<string>) {
    forall i :: 0 <= i < |names| ==> GoodName(names[i])
  }

  lemma FirstDeclared(ctx: Context, p: Progress, names: seq<string>)
    requires names != [] && p.status == Reading
    ensures RestoreLines(ctx, p, ChainLinesFor(names)) == RestoreLines(ctx, RestoreLine(ctx, p, MakeChainLine(names[0])), ChainLinesFor(names[1..]))
  {
    assert ChainLinesFor(names)[0] == MakeChainLine(names[0]) && ChainLinesFor(names)[1..] == ChainLinesFor(names[1..]);
  }

  lemma {:induction false} DeclareLines(ctx: Context, p: Progress, table: string, names: seq<string>)
    requires Within(ctx, p, table) && GoodNames(names) && Clearable(ctx.flush, p.tables[table], names)
    ensures Opened(ctx, p, RestoreLines(ctx, p, ChainLinesFor(names)), table, names)
    decreases |names|
  {
    if names == [] {
      assert p.tables[table := p.tables[table]] == p.tables;
    } else {
      var first, rest := [names[0]], names[1..];
      assert names == first + rest;
      FirstDeclared(ctx, p, names);
      DeclareLine(ctx, p, table, names[0]);
      var q := RestoreLine(ctx, p, MakeChainLine(names[0]));
      ClearableAfter(ctx.flush, p.tables[table], q.tables[table], first, rest);
      DeclareLines(ctx, q, table, rest);
      OpenedTogether(ctx, p, q, RestoreLines(ctx, q, ChainLinesFor(rest)), table, first, rest);
    }
  }

  /** The target table with the chains of `t` as they are in `t`. */
  function Overlaid(target: TextTable, t: TextTable): TextTable {
    map c | c in target.Keys + t.Keys :: if c in t then t[c] else target[c]
  }

  ghost predicate Filled(u: TextTable, v: TextTable, names: seq<string>, contents: seq<seq<string>>) {
    && |names| == |contents| && v.Keys == u.Keys
    && (forall i :: 0 <= i < |names| ==> names[i] in v && v[names[i]] == contents[i])
    && forall c :: c in u && c !in names ==> v[c] == u[c]
  }

  lemma OverlaidIs(target: TextTable, u: TextTable, v: TextTable, t: TextTable, names: seq<string>)
    requires Enumerates(names, t) && Emptied(target, u, names) && Filled(u, v, names, ContentsOf(t, names))
    ensures v == Overlaid(target, t)
  {
    forall c | c in t ensures c in v && v[c] == t[c] {
      var i :| 0 <= i < |names| && names[i] == c;
      assert ContentsOf(t, names)[i] == t[c];
    }
  }

  lemma FillReady(builtin: set<string>, u: TextTable, names: seq<string>, contents: seq<seq<string>>,
                  all: seq<Directive<string, string>>)
    requires NoDuplicates(names) && |names| == |contents|
    requires forall i :: 0 <= i < |names| ==> names[i] in u && u[names[i]] == [] && NoDuplicates(contents[i])
    ensures
      var r := Restore(u, builtin, all, FillAll(names, contents));
      r.ok && Filled(u, r.table, names, contents)
  {
    RestoreFillAll(u, builtin, all, names, contents);
    forall i | 0 <= i < |names| ensures AppendNew(u[names[i]], contents[i]) == contents[i] {
      AppendNewExact(u[names[i]], contents[i]);
    }
  }

  lemma FillEmptied(isIP: string -> bool, builtin: set<string>, target: TextTable, u: TextTable, t: TextTable, names: seq<string>,
                    all: seq<Directive<string, string>>)
    requires Neat(isIP, t) && Enumerates(names, t) && Emptied(target, u, names)
    ensures Restore(u, builtin, all, FillAll(names, ContentsOf(t, names))) == Restored(Overlaid(target, t), true)
  {
    var contents := ContentsOf(t, names);
    ReadyToFill(isIP, target, u, t, names);
    FillReady(builtin, u, names, contents, all);
    OverlaidIs(target, u, Restore(u, builtin, all, FillAll(names, contents)).table, t, names);
  }

  lemma ReadyToFill(isIP: string -> bool, target: TextTable, u: TextTable, t: TextTable, names: seq<string>)
    requires Neat(isIP, t) && Enumerates(names, t) && Emptied(target, u, names)
    ensures forall i :: 0 <= i < |names| ==> names[i] in u && u[names[i]] == [] && NoDuplicates(ContentsOf(t, names)[i])
  {
    forall i | 0 <= i < |names| ensures names[i] in u && u[names[i]] == [] && NoDuplicates(ContentsOf(t, names)[i]) {
      assert names[i] in t;
    }
  }

  lemma FillLines(ctx: Context, p: Progress, table: string, target: TextTable, t: TextTable, names: seq<string>)
    requires Within(ctx, p, table) && Neat(ctx.isIP, t) && Enumerates(names, t) && Emptied(target, p.tables[table], names)
    ensures RestoreLines(ctx, p, SavedRules(t, names)) == Progress(p.tables[table := Overlaid(target, t)], table, Reading)
  {
    var fills := FillAll(names, ContentsOf(t, names));
    EnumeratedNames(ctx.isIP, t, names);
    SavedRulesPrinted(t, names);
    FillsPrintable(ctx.isIP, t, names);
    PrintedLines(ctx, p, table, fills, Builtin(table), fills);
    FillEmptied(ctx.isIP, Builtin(table), target, p.tables[table], t, names, fills);
  }

  lemma SavedLines(ctx: Context, start: Progress, table: string, t: TextTable, names: seq<string>)
    requires Within(ctx, start, table) && Neat(ctx.isIP, t) && Enumerates(names, t)
    requires Clearable(ctx.flush, start.tables[table], names)
    ensures
      RestoreLines(ctx, start, ChainLinesFor(names) + SavedRules(t, names)) ==
      Progress(start.tables[table := Overlaid(start.tables[table], t)], table, Reading)
  {
    EnumeratedNames(ctx.isIP, t, names);
    DeclareLines(ctx, start, table, names);
    var p := RestoreLines(ctx, start, ChainLinesFor(names));
    RestoreLinesConcat(ctx, start, ChainLinesFor(names), SavedRules(t, names));
    var target := start.tables[table];
    FillLines(ctx, p, table, target, t, names);
    UpdatedTwice(start.tables, table, p.tables[table], Overlaid(target, t));
  }

  lemma UpdatedTwice(tables: TextTables, table: string, u: TextTable, v: TextTable)
    ensures tables[table := u][table := v] == tables[table := v]
  {
  }

  lemma SavedNewlineFree(isIP: string -> bool, t: TextTable, names: seq<string>)
    requires Neat(isIP, t) && Enumerates(names, t)
    ensures NewlineFree(ChainLinesFor(names) + SavedRules(t, names))
  {
    EnumeratedNames(isIP, t, names);
    SavedRulesGood(isIP, t, names);
    assert NewlineFree(ChainLinesFor(names));
  }

  /**
   * Restoring a saved table gives every saved chain its saved rules in their order and leaves the other
   * chains alone, provided the restore flushes or finds the saved chains empty.
   */
  lemma RestoreSaved(isIP: string -> bool, only: string, flush: bool, table: string, t: TextTable, names: seq<string>,
                     tables: TextTables)
    requires Selected(only, table) && table in tables && Neat(isIP, t) && Enumerates(names, t)
    requires flush || forall c :: c in t ==> Rules(tables[table], c) == []
    ensures
      var q := RestoreText(isIP, only, flush, SaveText(table, t, names), tables);
      q.tables == tables[table := Overlaid(tables[table], t)] && q.status in {Reading, Finished}
  {
    SavedNewlineFree(isIP, t, names);
    RestoreBody(isIP, only, flush, table, ChainLinesFor(names) + SavedRules(t, names), tables);
    SavedLines(Context(isIP, only, flush, SaveText(table, t, names)), Progress(tables, table, Reading), table, t, names);
  }

  lemma FreshEmpty(table: string, t: TextTable)
    requires table in BUILTIN_CHAINS && Builtin(table) <= t.Keys
    ensures table in FreshTables() && (forall c :: Rules(FreshTables()[table], c) == []) && Overlaid(FreshTables()[table], t) == t
  {
  }

  /** Saving a table and restoring the text into a fresh instance rebuilds the table. */
  lemma SaveRestoreIdentity(isIP: string -> bool, only: string, flush: bool, table: string, t: TextTable, names: seq<string>)
    requires table in BUILTIN_CHAINS && Selected(only, table) && Neat(isIP, t) && Enumerates(names, t)
    requires Builtin(table) <= t.Keys
    ensures
      var q := RestoreText(isIP, only, flush, SaveText(table, t, names), FreshTables());
      q.tables == FreshTables()[table := t] && q.status in {Reading, Finished}
  {
    FreshEmpty(table, t);
    RestoreSaved(isIP, only, flush, table, t, names, FreshTables());
  }
}
