/** Reading the chain lines out of iptables-save output. */
module SaveRestore {
  import opened Sequences
  import opened Text

  /** Blank-trimming; only the blank counts, not other white space. */
  function TrimBlanksLeft(s: string): string {
    if s != "" && s[0] == ' ' then TrimBlanksLeft(s[1..]) else s
  }

  function TrimBlanksRight(s: string): string {
    if s != "" && s[|s| - 1] == ' ' then TrimBlanksRight(s[..|s| - 1]) else s
  }

  function TrimBlanks(s: string): string {
    TrimBlanksRight(TrimBlanksLeft(s))
  }

  ghost predicate Blank(s: string) {
    forall i :: 0 <= i < |s| ==> s[i] == ' '
  }

  /** `t` is what is left of `s` between blanks, and it has no blank at either end. */
  lemma {:induction false} TrimBlanksSpec(s: string, a: nat, b: nat)
    requires a <= b <= |s| && Blank(s[..a]) && Blank(s[b..])
    requires a < b ==> s[a] != ' ' && s[b - 1] != ' '
    requires a == b ==> a == |s|
    ensures TrimBlanks(s) == s[a..b]
  {
    TrimLeftTo(s, a);
    TrimRightTo(s[a..], b - a);
  }

  lemma {:induction false} TrimLeftTo(s: string, a: nat)
    requires a <= |s| && Blank(s[..a]) && (a < |s| ==> s[a] != ' ')
    ensures TrimBlanksLeft(s) == s[a..]
    decreases a
  {
    if a > 0 {
      assert s[..a][0] == ' ';
      assert s[1..][..a - 1] == s[..a][1..];
      TrimLeftTo(s[1..], a - 1);
    }
  }

  lemma {:induction false} TrimRightTo(s: string, b: nat)
    requires b <= |s| && Blank(s[b..]) && (b > 0 ==> s[b - 1] != ' ')
    ensures TrimBlanksRight(s) == s[..b]
    decreases |s|
  {
    if b < |s| {
      assert s[b..][|s| - b - 1] == ' ';
      assert s[..|s| - 1][b..] == s[b..][..|s| - b - 1];
      TrimRightTo(s[..|s| - 1], b);
    }
  }

  datatype Read = Read(line: string, next: nat)

  /**
   * The line at index `i`.  A terminated line is trimmed of blanks.  Text after the last newline is
   * lost when it ends in a blank, and loses its last character when that stands alone.
   */
  function LineAt(data: string, i: nat): (r: Read)
    requires i <= |data|
    ensures i < |data| ==> i < r.next <= |data|
  {
    var e := i + IndexOf(data[i..], '\n');
    if e < |data| then Read(TrimBlanks(data[i..e]), e + 1)
    else if i == |data| || data[|data| - 1] == ' ' then Read("", |data|)
    else if i == |data| - 1 || data[|data| - 2] == ' ' then Read(TrimBlanks(data[i..|data| - 1]), |data|)
    else Read(TrimBlanks(data[i..]), |data|)
  }

  ghost predicate BlankBetween(data: string, a: nat, b: nat) {
    forall i :: a <= i < b < |data| + 1 ==> data[i] == ' '
  }

  /** The right trim index while the scan stands at `k`: where the current run of blanks began. */
  ghost predicate TrimmedTo(data: string, left: nat, k: nat, right: int) {
    && left <= k <= |data|
    && (right == -1 <==> k == left || data[k - 1] != ' ')
    && (right != -1 ==> left < right < k && BlankBetween(data, right, k) && data[right - 1] != ' ')
  }

  lemma LineIs(data: string, i: nat, left: nat, right: nat, e: nat)
    requires i <= left <= right <= e <= |data| && BlankBetween(data, i, left) && BlankBetween(data, right, e)
    requires left < right ==> data[left] != ' ' && data[right - 1] != ' '
    requires left == right ==> left == e
    ensures TrimBlanks(data[i..e]) == data[left..right]
  {
    var s := data[i..e];
    SliceSlice(data, i, e, left, right);
    TrimBlanksSpec(s, left - i, right - i);
  }

  lemma SliceSlice(s: string, i: nat, e: nat, a: nat, b: nat)
    requires i <= a <= b <= e <= |s|
    ensures s[i..e][a - i..b - i] == s[a..b]
  {
    var t, u, v := s[i..e], s[i..e][a - i..b - i], s[a..b];
    assert |u| == |v|;
    assert forall k :: 0 <= k < |u| ==> u[k] == t[a - i + k] == v[k];
  }

  ghost predicate NoNewline(data: string, a: nat, b: nat) {
    forall i :: a <= i < b < |data| + 1 ==> data[i] != '\n'
  }

  lemma NewlineAt(data: string, i: nat, e: nat)
    requires i <= e <= |data| && NoNewline(data, i, e) && (e < |data| ==> data[e] == '\n')
    ensures IndexOf(data[i..], '\n') == e - i
  {
    if e < |data| {
      assert data[i..] == data[i..e] + ['\n'] + data[e + 1..];
      IndexOfAt(data[i..e], '\n', data[e + 1..]);
    } else {
      IndexOfAbsent(data[i..], '\n');
    }
  }

  /** What the scan returns when it stops at `k`, on a newline or on the last character. */
  function Cut(data: string, left: nat, k: nat, right: int): (line: string)
    requires left <= k < |data| && (right != -1 ==> left < right < k)
  {
    if k <= left then ""
    else if right != -1 then data[left..right]
    else if data[k] == '\n' then data[left..k] else data[left..k + 1]
  }

  lemma CutAtNewline(data: string, i: nat, left: nat, k: nat, right: int)
    requires i <= left <= k < |data| && BlankBetween(data, i, left) && TrimmedTo(data, left, k, right)
    requires NoNewline(data, i, k) && data[k] == '\n' && data[left] != ' '
    ensures LineAt(data, i) == Read(Cut(data, left, k, right), k + 1)
  {
    NewlineAt(data, i, k);
    LineIs(data, i, left, if right != -1 then right else k, k);
  }

  lemma CutAtEnd(data: string, i: nat, left: nat, right: int)
    requires i <= left < |data| && BlankBetween(data, i, left) && TrimmedTo(data, left, |data| - 1, right)
    requires NoNewline(data, i, |data|) && data[|data| - 1] != ' ' && data[left] != ' '
    ensures LineAt(data, i) == Read(Cut(data, left, |data| - 1, right), |data|)
  {
    var k := |data| - 1;
    NewlineAt(data, i, |data|);
    if k == left {
      LineIs(data, i, left, left, k);
    } else if right != -1 {
      LineIs(data, i, left, right, k);
    } else {
      LineIs(data, i, left, |data|, |data|);
      assert data[i..|data|] == data[i..];
    }
  }

  method SkipBlanks(start: nat, data: string) returns (current: nat)
    requires start <= |data|
    ensures start <= current <= |data| && BlankBetween(data, start, current)
    ensures current < |data| ==> data[current] != ' '
  {
    current := start;
    while current < |data| && data[current] == ' '
      invariant start <= current <= |data| && BlankBetween(data, start, current)
    {
      current := current + 1;
    }
  }

  method ReadLine(readIndex: nat, data: string) returns (line: string, next: nat)
    requires readIndex <= |data|
    ensures Read(line, next) == LineAt(data, readIndex)
  {
    var left := SkipBlanks(readIndex, data);
    var current := left;
    var right := -1;
    while current < |data|
      invariant TrimmedTo(data, left, current, right) && (left < current == |data| ==> right != -1)
      invariant NoNewline(data, readIndex, current)
    {
      if data[current] == ' ' {
        if right == -1 { right := current; }
      } else if data[current] == '\n' || current == |data| - 1 {
        if data[current] == '\n' { CutAtNewline(data, readIndex, left, current, right); } else {
          CutAtEnd(data, readIndex, left, right);
        }
        if current <= left {
          return "", current + 1;
        }
        if right == -1 {
          right := current;
          if current == |data| - 1 && data[current] != '\n' { right := current + 1; }
        }
        return data[left..right], current + 1;
      } else {
        right := -1;
      }
      current := current + 1;
    }
    NewlineAt(data, readIndex, |data|);
    return "", current;
  }

  // ---- Chain lines ----

  function MakeChainLine(chain: string): string {
    ":" + chain + " - [0:0]"
  }

  datatype LineKind = Ignored | EndOfTable | ChainLine(chain: string) | NoBlank

  /** What a non-header line of a table is; a chain line without a blank is a slice out of range. */
  function Classify(line: string): LineKind {
    if line == "" then Ignored
    else if "COMMIT" <= line || "*" <= line then EndOfTable
    else if "#" <= line then Ignored
    else if ":" <= line && |line| > 1 then
      if IndexOf(line, ' ') == |line| then NoBlank else ChainLine(line[1..IndexOf(line, ' ')])
    else Ignored
  }

  /** The index after the line that opens the table. */
  function AfterHeader(data: string, header: string, i: nat): (next: nat)
    requires i <= |data|
    ensures i <= next <= |data|
    decreases |data| - i
  {
    if i == |data| then i
    else
      var r := LineAt(data, i);
      if header <= r.line then r.next else AfterHeader(data, header, r.next)
  }

  function ChainsFrom(data: string, i: nat, found: map<string, string>): Option<map<string, string>>
    requires i <= |data|
    decreases |data| - i
  {
    if i == |data| then Some(found)
    else
      var r := LineAt(data, i);
      match Classify(r.line)
      case Ignored => ChainsFrom(data, r.next, found)
      case EndOfTable => Some(found)
      case ChainLine(c) => ChainsFrom(data, r.next, found[c := r.line])
      case NoBlank => None
  }

  function ChainLines(table: string, data: string): Option<map<string, string>> {
    ChainsFrom(data, AfterHeader(data, "*" + table, 0), map[])
  }

  method GetChainLines(table: string, save: string) returns (r: Option<map<string, string>>)
    ensures r == ChainLines(table, save)
  {
    var chains: map<string, string> := map[];
    var readIndex := 0;
    while readIndex < |save|
      invariant readIndex <= |save|
      invariant AfterHeader(save, "*" + table, 0) == AfterHeader(save, "*" + table, readIndex)
      decreases |save| - readIndex
    {
      var line, n := ReadLine(readIndex, save);
      if "*" + table <= line {
        assert AfterHeader(save, "*" + table, readIndex) == n;
        readIndex := n;
        break;
      }
      readIndex := n;
    }
    assert readIndex == AfterHeader(save, "*" + table, 0);
    while readIndex < |save|
      invariant readIndex <= |save|
      invariant ChainLines(table, save) == ChainsFrom(save, readIndex, chains)
      decreases |save| - readIndex
    {
      var line, n := ReadLine(readIndex, save);
      readIndex := n;
      if |line| == 0 { continue; }
      if "COMMIT" <= line || "*" <= line {
        return Some(chains);
      } else if "#" <= line {
        continue;
      } else if ":" <= line && |line| > 1 {
        var blank := IndexOf(line, ' ');
        if blank == |line| { return None; }
        chains := chains[line[1..blank] := line];
      }
    }
    return Some(chains);
  }

  // ---- Parsing undoes printing ----

  lemma LineAtStart(pre: string, line: string, post: string)
    requires '\n' !in line
    ensures LineAt(pre + line + "\n" + post, |pre|) == Read(TrimBlanks(line), |pre + line| + 1)
  {
    var data := pre + line + "\n" + post;
    assert data[|pre|..] == line + ['\n'] + post;
    IndexOfAt(line, '\n', post);
    assert data[|pre|..|pre + line|] == line;
  }

  function LineChains(lines: seq<string>, found: map<string, string>): Option<map<string, string>> {
    if lines == [] then Some(found)
    else
      var line := TrimBlanks(lines[0]);
      match Classify(line)
      case Ignored => LineChains(lines[1..], found)
      case EndOfTable => Some(found)
      case ChainLine(c) => LineChains(lines[1..], found[c := line])
      case NoBlank => None
  }

  ghost predicate NewlineFree(lines: seq<string>) {
    forall i :: 0 <= i < |lines| ==> '\n' !in lines[i]
  }

  lemma {:induction false} ChainsFromLines(pre: string, lines: seq<string>, found: map<string, string>)
    requires NewlineFree(lines)
    ensures ChainsFrom(pre + Unlines(lines), |pre|, found) == LineChains(lines, found)
    decreases |lines|
  {
    var data := pre + Unlines(lines);
    if lines != [] {
      var rest := Unlines(lines[1..]);
      LineAtStart(pre, lines[0], rest);
      assert data == pre + lines[0] + "\n" + rest;
      var line := TrimBlanks(lines[0]);
      var kind := Classify(line);
      var pre' := pre + lines[0] + "\n";
      assert data == pre' + rest;
      if kind.ChainLine? {
        ChainsFromLines(pre', lines[1..], found[kind.chain := line]);
      } else {
        ChainsFromLines(pre', lines[1..], found);
      }
    }
  }

  function ChainLinesFor(names: seq<string>): seq<string> {
    seq(|names|, i requires 0 <= i < |names| => MakeChainLine(names[i]))
  }

  lemma TrimNothing(s: string)
    requires s != "" && s[0] != ' ' && s[|s| - 1] != ' '
    ensures TrimBlanks(s) == s
  {
  }

  lemma {:induction false} TrimKeepsFirst(s: string)
    requires s != "" && s[0] != ' '
    ensures var t := TrimBlanksRight(s); t != "" && t[0] == s[0]
    decreases |s|
  {
    if |s| > 1 && s[|s| - 1] == ' ' { TrimKeepsFirst(s[..|s| - 1]); }
  }

  lemma ClassifyChainLine(c: string)
    requires ' ' !in c
    ensures TrimBlanks(MakeChainLine(c)) == MakeChainLine(c) && Classify(MakeChainLine(c)) == ChainLine(c)
  {
    var line := MakeChainLine(c);
    TrimNothing(line);
    assert line == (":" + c) + [' '] + "- [0:0]";
    IndexOfAt(":" + c, ' ', "- [0:0]");
    assert line[1..|c| + 1] == c;
  }

  function LineMap(names: seq<string>): map<string, string> {
    map c | c in names :: MakeChainLine(c)
  }

  lemma LineMapCons(names: seq<string>, found: map<string, string>)
    requires names != []
    ensures found[names[0] := MakeChainLine(names[0])] + LineMap(names[1..]) == found + LineMap(names)
  {
    assert forall c :: c in names <==> c == names[0] || c in names[1..];
  }

  /** A table as it is saved: chain lines, then lines that add rules, then the end. */
  lemma {:induction false} ChainLinesRead(names: seq<string>, rules: seq<string>, found: map<string, string>)
    requires forall i :: 0 <= i < |names| ==> ' ' !in names[i]
    requires forall i :: 0 <= i < |rules| ==> "-" <= rules[i]
    ensures LineChains(ChainLinesFor(names) + rules + ["COMMIT"], found) == Some(found + LineMap(names))
    decreases |names|
  {
    if names == [] {
      RuleLinesSkipped(rules, found);
      assert ChainLinesFor(names) + rules + ["COMMIT"] == rules + ["COMMIT"];
      assert found + LineMap(names) == found;
    } else {
      ClassifyChainLine(names[0]);
      var lines, rest := ChainLinesFor(names) + rules + ["COMMIT"], ChainLinesFor(names[1..]) + rules + ["COMMIT"];
      assert lines[0] == MakeChainLine(names[0]) && lines[1..] == rest;
      ChainLinesRead(names[1..], rules, found[names[0] := MakeChainLine(names[0])]);
      LineMapCons(names, found);
    }
  }

  lemma {:induction false} RuleLinesSkipped(rules: seq<string>, found: map<string, string>)
    requires forall i :: 0 <= i < |rules| ==> "-" <= rules[i]
    ensures LineChains(rules + ["COMMIT"], found) == Some(found)
    decreases |rules|
  {
    if rules == [] {
      TrimNothing("COMMIT");
      assert Classify("COMMIT") == EndOfTable;
    } else {
      TrimKeepsFirst(rules[0]);
      var line := TrimBlanks(rules[0]);
      assert line[0] == '-';
      assert Classify(line) == Ignored;
      assert (rules + ["COMMIT"])[1..] == rules[1..] + ["COMMIT"];
      RuleLinesSkipped(rules[1..], found);
    }
  }

  lemma HeaderSkipped(table: string, rest: string)
    requires ' ' !in table && '\n' !in table
    ensures AfterHeader("*" + table + "\n" + rest, "*" + table, 0) == |table| + 2
  {
    var header := "*" + table;
    LineAtStart("", header, rest);
    assert "" + header + "\n" + rest == header + "\n" + rest;
    assert header[|header| - 1] != ' ' by { if table != "" { assert table[|table| - 1] in table; } }
    TrimNothing(header);
  }

  lemma SavedLinesNewlineFree(names: seq<string>, rules: seq<string>)
    requires forall i :: 0 <= i < |names| ==> '\n' !in names[i]
    requires NewlineFree(rules)
    ensures NewlineFree(ChainLinesFor(names) + rules + ["COMMIT"])
  {
  }

  lemma SavedChains(names: seq<string>, rules: seq<string>)
    requires forall i :: 0 <= i < |names| ==> ' ' !in names[i]
    requires forall i :: 0 <= i < |rules| ==> "-" <= rules[i]
    ensures LineChains(ChainLinesFor(names) + rules + ["COMMIT"], map[]) == Some(LineMap(names))
  {
    ChainLinesRead(names, rules, map[]);
    assert map[] + LineMap(names) == LineMap(names);
  }

  lemma ChainLinesAfterHeader(table: string, lines: seq<string>)
    requires ' ' !in table && '\n' !in table && NewlineFree(lines)
    ensures ChainLines(table, Unlines(["*" + table] + lines)) == LineChains(lines, map[])
  {
    var pre := "*" + table + "\n";
    assert (["*" + table] + lines)[1..] == lines;
    assert Unlines(["*" + table] + lines) == pre + Unlines(lines);
    HeaderSkipped(table, Unlines(lines));
    ChainsFromLines(pre, lines, map[]);
  }

  /** GetChainLines on a saved table finds exactly its chains, each with the line that declares it. */
  lemma ChainLinesOfSave(table: string, names: seq<string>, rules: seq<string>)
    requires ' ' !in table && '\n' !in table
    requires forall i :: 0 <= i < |names| ==> ' ' !in names[i] && '\n' !in names[i]
    requires NewlineFree(rules) && forall i :: 0 <= i < |rules| ==> "-" <= rules[i]
    ensures
      ChainLines(table, Unlines(["*" + table] + (ChainLinesFor(names) + rules + ["COMMIT"]))) ==
      Some(LineMap(names))
  {
    SavedLinesNewlineFree(names, rules);
    ChainLinesAfterHeader(table, ChainLinesFor(names) + rules + ["COMMIT"]);
    SavedChains(names, rules);
  }
}
