/** Restoring a text with several tables: which tables it can touch, and what its sections do one after the other. */
module RestoreSections {
  import opened Sequences
  import opened Tables
  import opened Text
  import opened SaveRestore
  import opened FakeIptables

  // ---- Tables that no line can reach ----

  /** The table is not the one being restored, or the name of none. */
  ghost predicate Away(only: string, current: string, x: string) {
    current == "" || current != x || (only != "" && only != x)
  }

  ghost predicate SameAt(a: TextTables, b: TextTables, x: string) {
    (x in a <==> x in b) && (x in a ==> a[x] == b[x])
  }

  lemma PerformAway(ctx: Context, p: Progress, command: Command, x: string)
    requires Away(ctx.only, p.current, x) && (command.Open? ==> Away(ctx.only, command.table, x))
    ensures
      var q := Perform(ctx, p, command);
      SameAt(q.tables, p.tables, x) && Away(ctx.only, q.current, x)
  {
  }

  lemma {:induction false} LinesAway(ctx: Context, p: Progress, lines: seq<string>, x: string)
    requires Away(ctx.only, p.current, x)
    requires (ctx.only == "" || ctx.only == x) ==> "*" + x !in lines
    ensures SameAt(RestoreLines(ctx, p, lines).tables, p.tables, x)
    decreases |lines|
  {
    if lines != [] && p.status == Reading {
      var command := Parse(lines[0]);
      if command.Open? { assert lines[0] == "*" + command.table && lines[0] in lines; }
      PerformAway(ctx, p, command, x);
      LinesAway(ctx, RestoreLine(ctx, p, lines[0]), lines[1..], x);
    }
  }

  /** Whatever the text, a table whose header is not a line of it stays as it is, and so does a table that is not selected. */
  lemma RestoreFrame(isIP: string -> bool, only: string, flush: bool, data: string, tables: TextTables, x: string)
    requires "*" + x !in Lines(data) || (only != "" && only != x)
    ensures
      var after := RestoreText(isIP, only, flush, data, tables).tables;
      (x in after <==> x in tables) && (x in after ==> after[x] == tables[x])
  {
    LinesAway(Context(isIP, only, flush, data), Progress(tables, "", Reading), Lines(data), x);
  }

  // ---- Sections ----

  datatype Section = Section(table: string, ds: seq<Directive<string, string>>)

  function SectionLines(s: Section): seq<string> {
    ["*" + s.table] + (PrintAll(s.ds) + ["COMMIT"])
  }

  function AllLines(ss: seq<Section>): seq<string> {
    if ss == [] then [] else SectionLines(ss[0]) + AllLines(ss[1..])
  }

  ghost predicate Good(isIP: string -> bool, tables: TextTables, s: Section) {
    s.table != "" && GoodName(s.table) && s.table in tables && AllPrintable(isIP, s.ds)
  }

  ghost predicate AllGood(isIP: string -> bool, tables: TextTables, ss: seq<Section>) {
    forall i :: 0 <= i < |ss| ==> Good(isIP, tables, ss[i])
  }

  datatype Outcome = Outcome(tables: TextTables, ok: bool)

  /**
   * One section after the other, up to the first that fails. With a table selected, other sections are passed over, and
   * nothing comes after the first of its own.
   */
  ghost function InTurn(only: string, all: string, tables: TextTables, ss: seq<Section>): Outcome
    requires forall i :: 0 <= i < |ss| ==> ss[i].table in tables
    decreases |ss|
  {
    if ss == [] then Outcome(tables, true)
    else
      var t, ds := ss[0].table, ss[0].ds;
      if only != "" && only != t then InTurn(only, all, tables, ss[1..])
      else
        var r := Tables.Restore(tables[t], Spared(t, all, ds), ds, ds);
        var next := tables[t := r.table];
        if !r.ok || only == t then Outcome(next, r.ok) else InTurn(only, all, next, ss[1..])
  }

  lemma OpenSection(ctx: Context, p: Progress, table: string)
    requires p.status == Reading
    ensures RestoreLine(ctx, p, "*" + table) == p.(current := table)
  {
    assert ("*" + table)[1..] == table && "*" + table != "";
  }

  lemma CommitSection(ctx: Context, p: Progress)
    requires p.status == Reading && p.current != ""
    ensures RestoreLines(ctx, p, ["COMMIT"]) ==
      if ctx.only != "" && ctx.only != p.current then p
      else if ctx.only == p.current then p.(status := Finished) else p.(current := "")
  {
    assert ["COMMIT"][1..] == [];
    assert Parse("COMMIT") == Commit;
    var q := RestoreLine(ctx, p, "COMMIT");
    assert RestoreLines(ctx, q, []) == q;
  }

  /** The lines of a section, taken apart. */
  lemma SectionApart(ctx: Context, p: Progress, s: Section)
    requires p.status == Reading
    ensures
      RestoreLines(ctx, p, SectionLines(s)) ==
      RestoreLines(ctx, RestoreLines(ctx, p.(current := s.table), PrintAll(s.ds)), ["COMMIT"])
  {
    OpenSection(ctx, p, s.table);
    assert SectionLines(s)[1..] == PrintAll(s.ds) + ["COMMIT"];
    RestoreLinesConcat(ctx, p.(current := s.table), PrintAll(s.ds), ["COMMIT"]);
  }

  lemma SectionRuns(ctx: Context, p: Progress, s: Section)
    requires p.status == Reading && !ctx.flush && Good(ctx.isIP, p.tables, s) && (ctx.only == "" || ctx.only == s.table)
    requires DeletionsShow(ctx.all, s.ds)
    ensures
      var r := Tables.Restore(p.tables[s.table], Spared(s.table, ctx.all, s.ds), s.ds, s.ds);
      RestoreLines(ctx, p, SectionLines(s)) ==
        if !r.ok then Progress(p.tables[s.table := r.table], s.table, Failed)
        else if ctx.only == s.table then Progress(p.tables[s.table := r.table], s.table, Finished)
        else Progress(p.tables[s.table := r.table], "", Reading)
  {
    var start := p.(current := s.table);
    SectionApart(ctx, p, s);
    SparedRight(s.table, ctx.all, s.ds);
    PrintedLines(ctx, start, s.table, s.ds, Spared(s.table, ctx.all, s.ds), s.ds);
    var q := RestoreLines(ctx, start, PrintAll(s.ds));
    if q.status == Reading { CommitSection(ctx, q); }
  }

  lemma {:induction false} PassedLines(ctx: Context, p: Progress, ds: seq<Directive<string, string>>)
    requires p.status == Reading && ctx.only != "" && ctx.only != p.current && AllPrintable(ctx.isIP, ds)
    ensures RestoreLines(ctx, p, PrintAll(ds)) == p
    decreases |ds|
  {
    if ds != [] {
      assert Printable(ctx.isIP, ds[0]);
      ParsePrinted(ds[0]);
      assert PrintAll(ds)[0] == Print(ds[0]) && PrintAll(ds)[1..] == PrintAll(ds[1..]);
      PassedLines(ctx, p, ds[1..]);
    }
  }

  lemma SectionPassed(ctx: Context, p: Progress, s: Section)
    requires p.status == Reading && Good(ctx.isIP, p.tables, s) && ctx.only != "" && ctx.only != s.table
    ensures RestoreLines(ctx, p, SectionLines(s)) == p.(current := s.table)
  {
    SectionApart(ctx, p, s);
    PassedLines(ctx, p.(current := s.table), s.ds);
    CommitSection(ctx, p.(current := s.table));
  }

  ghost predicate AllShow(all: string, ss: seq<Section>) {
    forall i :: 0 <= i < |ss| ==> DeletionsShow(all, ss[i].ds)
  }

  lemma {:induction false} SectionsRun(ctx: Context, p: Progress, ss: seq<Section>)
    requires p.status == Reading && !ctx.flush && AllGood(ctx.isIP, p.tables, ss) && AllShow(ctx.all, ss)
    ensures
      var q, r := RestoreLines(ctx, p, AllLines(ss)), InTurn(ctx.only, ctx.all, p.tables, ss);
      q.tables == r.tables && (q.status == Failed <==> !r.ok) && q.status != Panicked
    decreases |ss|
  {
    if ss != [] {
      var s := ss[0];
      assert Good(ctx.isIP, p.tables, s) && DeletionsShow(ctx.all, s.ds);
      RestoreLinesConcat(ctx, p, SectionLines(s), AllLines(ss[1..]));
      if ctx.only != "" && ctx.only != s.table { SectionPassed(ctx, p, s); } else { SectionRuns(ctx, p, s); }
      var q := RestoreLines(ctx, p, SectionLines(s));
      if q.status == Reading {
        assert AllGood(ctx.isIP, q.tables, ss[1..]);
        SectionsRun(ctx, q, ss[1..]);
      }
    }
  }

  lemma {:induction false} LineOfSection(ss: seq<Section>, i: nat, d: Directive<string, string>)
    requires i < |ss| && d in ss[i].ds
    ensures Print(d) in AllLines(ss)
    decreases |ss|
  {
    if i == 0 {
      var k :| 0 <= k < |ss[0].ds| && ss[0].ds[k] == d;
      assert PrintAll(ss[0].ds)[k] == Print(d);
      assert SectionLines(ss[0])[k + 1] == Print(d);
    } else {
      LineOfSection(ss[1..], i - 1, d);
    }
  }

  lemma {:induction false} SectionsNewlineFree(isIP: string -> bool, tables: TextTables, ss: seq<Section>)
    requires AllGood(isIP, tables, ss)
    ensures NewlineFree(AllLines(ss))
    decreases |ss|
  {
    if ss != [] {
      assert Good(isIP, tables, ss[0]);
      PrintedNewlineFree(isIP, ss[0].ds);
      SectionsNewlineFree(isIP, tables, ss[1..]);
    }
  }

  lemma SectionsShow(isIP: string -> bool, tables: TextTables, ss: seq<Section>)
    requires AllGood(isIP, tables, ss)
    ensures AllShow(Unlines(AllLines(ss)), ss)
  {
    forall i, c | 0 <= i < |ss| && Discard(c) in ss[i].ds ensures Contains(Unlines(AllLines(ss)), "-X " + c) {
      var k :| 0 <= k < |ss[i].ds| && ss[i].ds[k] == Discard(c);
      assert Good(isIP, tables, ss[i]) && Printable(isIP, ss[i].ds[k]);
      LineOfSection(ss, i, Discard(c));
      var j :| 0 <= j < |AllLines(ss)| && AllLines(ss)[j] == "-X " + c;
      assert OccursAt(AllLines(ss)[j], "-X " + c, 0);
      UnlinesContains(AllLines(ss), "-X " + c);
    }
  }

  /**
   * Restoring the text of any sections does to the tables what the sections say in turn; a deletion anywhere in the text
   * counts for the declarations of all sections.
   */
  lemma RestoreInTurn(isIP: string -> bool, only: string, ss: seq<Section>, tables: TextTables)
    requires AllGood(isIP, tables, ss)
    ensures
      var data := Unlines(AllLines(ss));
      var q, r := RestoreText(isIP, only, false, data, tables), InTurn(only, data, tables, ss);
      q.tables == r.tables && (q.status == Failed <==> !r.ok) && q.status != Panicked
  {
    var data := Unlines(AllLines(ss));
    SectionsNewlineFree(isIP, tables, ss);
    LinesUnlines(AllLines(ss));
    SectionsShow(isIP, tables, ss);
    SectionsRun(Context(isIP, only, false, data), Progress(tables, "", Reading), ss);
  }
}
