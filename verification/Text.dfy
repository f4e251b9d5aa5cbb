/** The pieces of Go's strings package that the text layers use. */
module Text {

  /** strings.Join with a one-character separator. */
  function Join(words: seq<string>, sep: char): string {
    if words == [] then ""
    else if |words| == 1 then words[0]
    else words[0] + [sep] + Join(words[1..], sep)
  }

  /** The first position of the character, or the length. */
  function IndexOf(s: string, c: char): (i: nat)
    ensures i <= |s| && (i < |s| ==> s[i] == c) && c !in s[..i]
  {
    if s == "" then 0 else if s[0] == c then 0 else
      var j := IndexOf(s[1..], c);
      assert s[..j + 1] == [s[0]] + s[1..][..j];
      j + 1
  }

  /** strings.Split with a one-character separator; never empty. */
  function Split(s: string, sep: char): (words: seq<string>)
    ensures words != []
    decreases |s|
  {
    var i := IndexOf(s, sep);
    if i == |s| then [s] else [s[..i]] + Split(s[i + 1..], sep)
  }

  lemma {:induction false} IndexOfAt(a: string, c: char, b: string)
    requires c !in a
    ensures IndexOf(a + [c] + b, c) == |a|
    decreases |a|
  {
    if a != "" {
      assert (a + [c] + b)[1..] == a[1..] + [c] + b;
      IndexOfAt(a[1..], c, b);
    }
  }

  lemma IndexOfAbsent(s: string, c: char)
    requires c !in s
    ensures IndexOf(s, c) == |s|
  {
  }

  lemma JoinCons(word: string, rest: seq<string>, sep: char)
    requires rest != []
    ensures Join([word] + rest, sep) == word + [sep] + Join(rest, sep)
  {
    assert ([word] + rest)[1..] == rest;
  }

  lemma CutAt(s: string, i: nat)
    requires i < |s|
    ensures s == s[..i] + [s[i]] + s[i + 1..]
  {
  }

  /** Splitting and joining again gives the text back, whatever it is. */
  lemma {:induction false} JoinSplit(s: string, sep: char)
    ensures Join(Split(s, sep), sep) == s
    decreases |s|
  {
    var i := IndexOf(s, sep);
    if i < |s| {
      JoinSplit(s[i + 1..], sep);
      JoinCons(s[..i], Split(s[i + 1..], sep), sep);
      CutAt(s, i);
    }
  }

  /** Joining separator-free words and splitting gives the words back. */
  lemma {:induction false} SplitJoin(words: seq<string>, sep: char)
    requires words != [] && forall i :: 0 <= i < |words| ==> sep !in words[i]
    ensures Split(Join(words, sep), sep) == words
    decreases |words|
  {
    if |words| == 1 {
      IndexOfAbsent(words[0], sep);
    } else {
      var rest := Join(words[1..], sep);
      IndexOfAt(words[0], sep, rest);
      var s := words[0] + [sep] + rest;
      assert s[..|words[0]|] == words[0] && s[|words[0]| + 1..] == rest;
      SplitJoin(words[1..], sep);
    }
  }

  lemma SplitFirst(a: string, c: char, b: string)
    requires c !in a
    ensures Split(a + [c] + b, c) == [a] + Split(b, c)
  {
    IndexOfAt(a, c, b);
    var s := a + [c] + b;
    assert s[..|a|] == a && s[|a| + 1..] == b;
  }

  /** The words are pieces of the text and do not hold the separator. */
  lemma {:induction false} SplitWords(s: string, sep: char, i: nat)
    requires i < |Split(s, sep)|
    ensures sep !in Split(s, sep)[i] && forall c :: c in Split(s, sep)[i] ==> c in s
    decreases |s|
  {
    var k := IndexOf(s, sep);
    if k < |s| && i > 0 { SplitWords(s[k + 1..], sep, i - 1); }
  }

  // ---- Substrings ----

  predicate OccursAt(s: string, needle: string, i: nat) {
    i + |needle| <= |s| && s[i..i + |needle|] == needle
  }

  /** strings.Contains. */
  predicate Contains(s: string, needle: string) {
    exists i :: 0 <= i <= |s| && OccursAt(s, needle, i)
  }

  lemma OccursAfter(a: string, b: string, needle: string, i: nat)
    ensures OccursAt(a + b, needle, |a| + i) <==> OccursAt(b, needle, i)
  {
    if |a| + i + |needle| <= |a + b| {
      assert (a + b)[|a| + i..|a| + i + |needle|] == b[i..i + |needle|];
    }
  }

  lemma OccursBefore(a: string, b: string, needle: string, i: nat)
    requires i + |needle| <= |a|
    ensures OccursAt(a + b, needle, i) <==> OccursAt(a, needle, i)
  {
    assert (a + b)[i..i + |needle|] == a[i..i + |needle|];
  }

  lemma OccursAcross(s: string, needle: string, i: nat, k: nat)
    requires i <= k < i + |needle| && k < |s| && s[k] !in needle
    ensures !OccursAt(s, needle, i)
  {
    if i + |needle| <= |s| { assert s[i..i + |needle|][k - i] == s[k]; }
  }

  /** A needle without the separator lies on one side of it. */
  lemma ContainsConcat(a: string, c: char, b: string, needle: string)
    requires c !in needle && needle != ""
    ensures Contains(a + [c] + b, needle) <==> Contains(a, needle) || Contains(b, needle)
  {
    var s := a + [c] + b;
    assert s == a + ([c] + b);
    if i: nat :| i <= |s| && OccursAt(s, needle, i) {
      if i + |needle| <= |a| {
        OccursBefore(a, [c] + b, needle, i);
      } else {
        assert i > |a| by { if i <= |a| { OccursAcross(s, needle, i, |a|); } }
        OccursAfter(a + [c], b, needle, i - |a| - 1);
      }
    }
    if i: nat :| i <= |a| && OccursAt(a, needle, i) {
      OccursBefore(a, [c] + b, needle, i);
    }
    if i: nat :| i <= |b| && OccursAt(b, needle, i) {
      OccursAfter(a + [c], b, needle, i);
      assert OccursAt(s, needle, i + |a| + 1);
    }
  }

  // ---- Lines ----

  /** Lines written one after the other, each with its newline. */
  function Unlines(lines: seq<string>): string {
    if lines == [] then "" else lines[0] + "\n" + Unlines(lines[1..])
  }

  lemma {:induction false} UnlinesConcat(a: seq<string>, b: seq<string>)
    ensures Unlines(a + b) == Unlines(a) + Unlines(b)
  {
    if a == [] {
      assert a + b == b;
    } else {
      assert (a + b)[0] == a[0] && (a + b)[1..] == a[1..] + b;
      UnlinesConcat(a[1..], b);
    }
  }

  /** The newline-terminated lines of a text; what follows the last newline is not a line. */
  function Lines(s: string): seq<string>
    decreases |s|
  {
    var i := IndexOf(s, '\n');
    if i == |s| then [] else [s[..i]] + Lines(s[i + 1..])
  }

  lemma {:induction false} LinesUnlines(lines: seq<string>)
    requires forall i :: 0 <= i < |lines| ==> '\n' !in lines[i]
    ensures Lines(Unlines(lines)) == lines
    decreases |lines|
  {
    if lines != [] {
      var rest := Unlines(lines[1..]);
      var s := lines[0] + "\n" + rest;
      IndexOfAt(lines[0], '\n', rest);
      assert s[..|lines[0]|] == lines[0] && s[|lines[0]| + 1..] == rest;
      LinesUnlines(lines[1..]);
    }
  }

  /** A needle without a newline is in the text exactly when it is in one of the lines. */
  lemma {:induction false} UnlinesContains(lines: seq<string>, needle: string)
    requires '\n' !in needle && needle != ""
    ensures Contains(Unlines(lines), needle) <==> exists i :: 0 <= i < |lines| && Contains(lines[i], needle)
    decreases |lines|
  {
    if lines == [] {
      assert !Contains("", needle);
    } else {
      ContainsConcat(lines[0], '\n', Unlines(lines[1..]), needle);
      UnlinesContains(lines[1..], needle);
      if i :| 0 <= i < |lines| && Contains(lines[i], needle) { if i > 0 { assert Contains(lines[1..][i - 1], needle); } }
      if i :| 0 <= i < |lines[1..]| && Contains(lines[1..][i], needle) { assert Contains(lines[i + 1], needle); }
    }
  }

  lemma {:induction false} LinesOfText(s: string, i: nat)
    requires i < |Lines(s)|
    ensures '\n' !in Lines(s)[i] && forall c :: c in Lines(s)[i] ==> c in s
    decreases |s|
  {
    var k := IndexOf(s, '\n');
    if i > 0 { LinesOfText(s[k + 1..], i - 1); }
  }
}
