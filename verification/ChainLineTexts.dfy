/** What GetChainLines finds in a text of any lines, not only in a saved table. */
module ChainLineTexts {
  import opened Sequences
  import opened Text
  import opened SaveRestore

  /** The line ends the table. */
  ghost predicate Ends(line: string) {
    "COMMIT" <= TrimBlanks(line) || "*" <= TrimBlanks(line)
  }

  /** The line declares the chain. */
  ghost predicate Declares(line: string, c: string) {
    ' ' !in c && ":" + c + " " <= TrimBlanks(line)
  }

  /** A chain line that stops after the name. */
  ghost predicate Unfinished(line: string) {
    |TrimBlanks(line)| > 1 && ":" <= TrimBlanks(line) && ' ' !in TrimBlanks(line)
  }

  ghost predicate LastDeclares(lines: seq<string>, i: int, c: string) {
    0 <= i < |lines| && Declares(lines[i], c) && forall j :: i < j < |lines| ==> !Declares(lines[j], c)
  }

  lemma FirstWord(t: string, c: string)
    requires ":" <= t && ' ' in t
    ensures ' ' !in c && ":" + c + " " <= t <==> c == t[1..IndexOf(t, ' ')]
  {
    var i := IndexOf(t, ' ');
    if ' ' !in c && ":" + c + " " <= t {
      var rest := t[|c| + 2..];
      assert t == (":" + c) + [' '] + rest;
      IndexOfAt(":" + c, ' ', rest);
    }
    var d := t[1..i];
    assert t[..i] == ":" + d && t[..i + 1] == ":" + d + " ";
  }

  lemma LineKinds(line: string, c: string)
    requires !Ends(line)
    ensures Classify(TrimBlanks(line)) == NoBlank <==> Unfinished(line)
    ensures Classify(TrimBlanks(line)) == ChainLine(c) <==> Declares(line, c)
    ensures Classify(TrimBlanks(line)) != EndOfTable
  {
    var t := TrimBlanks(line);
    if Declares(line, c) { assert t[|c| + 1] == ' '; }
    if ":" <= t {
      if ' ' in t { FirstWord(t, c); } else { IndexOfAbsent(t, ' '); }
    }
  }

  /** The chains found so far and those of the lines; the last line of a chain counts. */
  ghost predicate Found(lines: seq<string>, found: map<string, string>, r: map<string, string>) {
    forall c ::
      && (c in r <==> c in found || exists i :: LastDeclares(lines, i, c))
      && (forall i :: LastDeclares(lines, i, c) && c in r ==> r[c] == TrimBlanks(lines[i]))
      && (c in r && c in found && (forall i :: !LastDeclares(lines, i, c)) ==> r[c] == found[c])
  }

  lemma FoundFirst(lines: seq<string>, found: map<string, string>, next: map<string, string>, r: map<string, string>)
    requires lines != [] && Found(lines[1..], next, r)
    requires forall c :: c in next <==> c in found || Declares(lines[0], c)
    requires forall c :: c in next ==> next[c] == if Declares(lines[0], c) then TrimBlanks(lines[0]) else found[c]
    ensures Found(lines, found, r)
  {
    var rest := lines[1..];
    forall c
      ensures
        && (c in r <==> c in found || exists i :: LastDeclares(lines, i, c))
        && (forall i :: LastDeclares(lines, i, c) && c in r ==> r[c] == TrimBlanks(lines[i]))
        && (c in r && c in found && (forall i :: !LastDeclares(lines, i, c)) ==> r[c] == found[c])
    {
      forall i | i > 0 ensures LastDeclares(lines, i, c) <==> LastDeclares(rest, i - 1, c) {
        if LastDeclares(rest, i - 1, c) {
          forall j | i < j < |lines| ensures !Declares(lines[j], c) { assert rest[j - 1] == lines[j]; }
        }
      }
      if k :| LastDeclares(rest, k, c) {
        assert LastDeclares(lines, k + 1, c);
        assert !LastDeclares(lines, 0, c) by { assert rest[k] == lines[k + 1]; }
      } else {
        LastOf(rest, c);
        assert LastDeclares(lines, 0, c) <==> Declares(lines[0], c) by {
          forall j | 0 < j < |lines| ensures !Declares(lines[j], c) { assert rest[j - 1] == lines[j]; }
        }
      }
    }
  }

  lemma {:induction false} LastOf(lines: seq<string>, c: string)
    ensures (exists i :: 0 <= i < |lines| && Declares(lines[i], c)) ==> exists i :: LastDeclares(lines, i, c)
    decreases |lines|
  {
    if lines != [] {
      var k := |lines| - 1;
      if Declares(lines[k], c) {
        assert LastDeclares(lines, k, c);
      } else if i :| 0 <= i < |lines| && Declares(lines[i], c) {
        assert lines[..k][i] == lines[i];
        LastOf(lines[..k], c);
        var l :| LastDeclares(lines[..k], l, c);
        assert LastDeclares(lines, l, c) by {
          forall j | l < j < |lines| ensures !Declares(lines[j], c) { if j < k { assert lines[..k][j] == lines[j]; } }
        }
      }
    }
  }

  /** A table's lines: a crash exactly when one of them is unfinished, otherwise exactly the chains they declare. */
  lemma {:induction false} BodyChains(lines: seq<string>, found: map<string, string>)
    requires forall i :: 0 <= i < |lines| ==> !Ends(lines[i])
    ensures var r := LineChains(lines, found);
      && (r.None? <==> exists i :: 0 <= i < |lines| && Unfinished(lines[i]))
      && (r.Some? ==> Found(lines, found, r.value))
    decreases |lines|
  {
    if lines != [] {
      var line, rest := TrimBlanks(lines[0]), lines[1..];
      forall c { LineKinds(lines[0], c); }
      assert (exists i :: 0 <= i < |lines| && Unfinished(lines[i])) <==>
             Unfinished(lines[0]) || exists i :: 0 <= i < |rest| && Unfinished(rest[i]) by {
        if i :| 0 <= i < |lines| && Unfinished(lines[i]) { if i > 0 { assert rest[i - 1] == lines[i]; } }
        if i :| 0 <= i < |rest| && Unfinished(rest[i]) { assert lines[i + 1] == rest[i]; }
      }
      var kind := Classify(line);
      if !kind.NoBlank? {
        var next := if kind.ChainLine? then found[kind.chain := line] else found;
        BodyChains(rest, next);
        if LineChains(rest, next).Some? { FoundFirst(lines, found, next, LineChains(rest, next).value); }
      }
    }
  }

  /** What follows the end of the table does not matter. */
  lemma {:induction false} BodyEnds(lines: seq<string>, after: seq<string>, found: map<string, string>)
    requires forall i :: 0 <= i < |lines| ==> !Ends(lines[i])
    requires after == [] || Ends(after[0])
    ensures LineChains(lines + after, found) == LineChains(lines, found)
    decreases |lines|
  {
    if lines == [] {
      assert lines + after == after;
      if after != [] { assert Classify(TrimBlanks(after[0])) == EndOfTable; }
    } else {
      assert (lines + after)[0] == lines[0] && (lines + after)[1..] == lines[1..] + after;
      LineKinds(lines[0], "");
      var kind, line := Classify(TrimBlanks(lines[0])), TrimBlanks(lines[0]);
      BodyEnds(lines[1..], after, if kind.ChainLine? then found[kind.chain := line] else found);
    }
  }

  /** The search passes over the lines before the header. */
  lemma {:induction false} HeaderFound(table: string, pre: string, before: seq<string>, header: string, rest: string)
    requires NewlineFree(before) && '\n' !in header
    requires forall i :: 0 <= i < |before| ==> !("*" + table <= TrimBlanks(before[i]))
    requires "*" + table <= TrimBlanks(header)
    ensures AfterHeader(pre + Unlines(before) + header + "\n" + rest, "*" + table, |pre|) == |pre + Unlines(before) + header| + 1
    decreases |before|
  {
    var data := pre + Unlines(before) + header + "\n" + rest;
    if before == [] {
      assert data == pre + header + "\n" + rest && pre + Unlines(before) + header == pre + header;
      LineAtStart(pre, header, rest);
    } else {
      var tail := Unlines(before[1..]) + header + "\n" + rest;
      var pre' := pre + before[0] + "\n";
      assert data == pre + before[0] + "\n" + tail;
      LineAtStart(pre, before[0], tail);
      assert data == pre' + Unlines(before[1..]) + header + "\n" + rest;
      HeaderFound(table, pre', before[1..], header, rest);
    }
  }

  lemma AfterFound(table: string, before: seq<string>, header: string, lines: seq<string>)
    requires NewlineFree(before) && '\n' !in header && NewlineFree(lines)
    requires forall i :: 0 <= i < |before| ==> !("*" + table <= TrimBlanks(before[i]))
    requires "*" + table <= TrimBlanks(header)
    ensures ChainLines(table, Unlines(before) + header + "\n" + Unlines(lines)) == LineChains(lines, map[])
  {
    var rest, start := Unlines(lines), Unlines(before);
    HeaderFound(table, "", before, header, rest);
    var pre := start + header + "\n";
    assert "" + start == start;
    assert |pre| == |start + header| + 1;
    ChainsFromLines(pre, lines, map[]);
  }

  /**
   * GetChainLines on any lines: those before the first header of the table and those from the end of the table on do not
   * matter; it crashes exactly when a chain line between has no blank, and otherwise finds exactly the chains declared
   * between, each with its last line, trimmed.
   */
  lemma ChainLinesExactly(table: string, before: seq<string>, header: string, lines: seq<string>, after: seq<string>)
    requires NewlineFree(before) && '\n' !in header && NewlineFree(lines) && NewlineFree(after)
    requires forall i :: 0 <= i < |before| ==> !("*" + table <= TrimBlanks(before[i]))
    requires "*" + table <= TrimBlanks(header)
    requires (forall i :: 0 <= i < |lines| ==> !Ends(lines[i])) && (after == [] || Ends(after[0]))
    ensures
      var r := ChainLines(table, Unlines(before) + header + "\n" + Unlines(lines + after));
      && (r.None? <==> exists i :: 0 <= i < |lines| && Unfinished(lines[i]))
      && (r.Some? ==> forall c ::
            && (c in r.value <==> exists i :: LastDeclares(lines, i, c))
            && forall i :: LastDeclares(lines, i, c) ==> c in r.value && r.value[c] == TrimBlanks(lines[i]))
  {
    AfterFound(table, before, header, lines + after);
    BodyEnds(lines, after, map[]);
    BodyChains(lines, map[]);
  }
}
