/**
 * What the normal form of a rule is, in terms of the words the rule is written with: single blanks, addresses with
 * their prefix length, `--to-destination=x` in two words, quoted words as they are.
 */
module RuleForms {
  import opened Sequences
  import opened Text
  import opened RuleText

  /** A word without quotes around it. */
  ghost predicate BareWord(w: string) {
    w != "" && w[0] != '"' && Tight(w) && !("--to-destination=" <= w)
  }

  ghost predicate Destination(w: string) {
    "--to-destination=" <= w && BareWord(w[17..])
  }

  ghost predicate Written(w: string) {
    Quoted(w) || BareWord(w) || Destination(w)
  }

  ghost predicate AllWritten(ws: seq<string>) {
    forall i :: 0 <= i < |ws| ==> Written(ws[i])
  }

  function WithLength(isIP: string -> bool, w: string): string {
    if isIP(w) then w + "/32" else w
  }

  /** The word as iptables prints it. */
  function Printed(isIP: string -> bool, w: string): string {
    if w != "" && w[0] == '"' then w
    else if "--to-destination=" <= w then "--to-destination " + WithLength(isIP, w[17..])
    else WithLength(isIP, w)
  }

  function AllPrinted(isIP: string -> bool, ws: seq<string>): seq<string> {
    seq(|ws|, i requires 0 <= i < |ws| => Printed(isIP, ws[i]))
  }

  /** Texts that are not addresses. */
  ghost predicate Addresses(isIP: string -> bool) {
    AddressText(isIP) && !isIP("--to-destination")
  }

  ghost predicate AllSpace(s: string) {
    forall i :: 0 <= i < |s| ==> IsSpace(s[i])
  }

  // ---- One word ----

  lemma BareText(isIP: string -> bool, w: string)
    requires BareWord(w)
    ensures Argument(isIP, w) == WithLength(isIP, w)
  {
    TrimVisible(w);
    TrimVisible(w + "/32");
  }

  lemma QuotedText(isIP: string -> bool, w: string)
    requires AddressText(isIP) && Quoted(w)
    ensures Argument(isIP, w) == w
  {
    TrimVisible(w);
    assert w[0] in w;
  }

  /** A word is cut off, printed, where a blank follows. */
  lemma ScanBare(isIP: string -> bool, w: string, rest: string)
    requires BareWord(w)
    ensures Scan(isIP, w + " " + rest) == Cons(WithLength(isIP, w), Scan(isIP, rest))
  {
    var s := w + " " + rest;
    assert s == w + (" " + rest) && s[|w|] == ' ' && s[0] == w[0];
    FollowsWord(w, s);
    BareText(isIP, w);
    assert s[..|w|] == w && s[|w| + 1..] == rest;
  }

  lemma ScanBareEnd(isIP: string -> bool, w: string)
    requires BareWord(w)
    ensures Scan(isIP, w) == Args([WithLength(isIP, w)])
  {
    IndexOfAbsent(w, ' ');
    BareText(isIP, w);
  }

  lemma ScanQuoted(isIP: string -> bool, w: string, rest: string)
    requires AddressText(isIP) && Quoted(w)
    ensures Scan(isIP, w + " " + rest) == Cons(w, Scan(isIP, rest)) && Scan(isIP, w) == Args([w])
  {
    var s := w + " " + rest;
    QuotedEnd(w, " " + rest);
    assert s == w + (" " + rest) && s[..|w|] == w && s[|w| + 1..] == rest;
    QuotedEnd(w, "");
    assert w + "" == w;
    QuotedText(isIP, w);
  }

  /** The destination is cut from its option. */
  lemma ScanDestination(isIP: string -> bool, s: string)
    requires Addresses(isIP) && "--to-destination=" <= s
    ensures Scan(isIP, s) == Cons("--to-destination", Scan(isIP, s[17..]))
  {
    CutDestination(isIP, s);
    var r := Expand(s);
    assert s[..16] == TO_DESTINATION[..16] == "--to-destination";
    assert r[..16] == "--to-destination" && r[17..] == s[17..];
    TrimVisible("--to-destination");
  }

  /** What scanning gives after the first words. */
  ghost predicate Onwards(start: string, rest: Scanned, all: Scanned) {
    match rest
    case Args(more) => all.Args? && all.args != [] && Join(all.args, ' ') == start + " " + Join(more, ' ')
    case _ => all == rest
  }

  lemma ConsOnwards(arg: string, rest: Scanned)
    requires rest.Args? ==> rest.args != []
    ensures Onwards(arg, rest, Cons(arg, rest))
  {
    if rest.Args? { JoinCons(arg, rest.args, ' '); }
  }

  lemma OnwardsTwice(first: string, second: string, rest: Scanned, middle: Scanned, all: Scanned)
    requires Onwards(second, rest, middle) && Onwards(first, middle, all)
    ensures Onwards(first + " " + second, rest, all)
  {
    if rest.Args? {
      var more := Join(rest.args, ' ');
      assert first + " " + (second + " " + more) == first + " " + second + " " + more;
    }
  }

  lemma BareOnwards(isIP: string -> bool, w: string, rest: string)
    requires BareWord(w)
    ensures Onwards(WithLength(isIP, w), Scan(isIP, rest), Scan(isIP, w + " " + rest))
  {
    ScanNonEmpty(isIP, rest);
    ScanBare(isIP, w, rest);
    ConsOnwards(WithLength(isIP, w), Scan(isIP, rest));
  }

  lemma DestinationText(isIP: string -> bool, w: string)
    requires Destination(w)
    ensures Printed(isIP, w) == "--to-destination" + " " + WithLength(isIP, w[17..])
  {
    assert "--to-destination" + " " == "--to-destination ";
  }

  lemma DestinationMiddle(isIP: string -> bool, w: string, rest: string)
    requires Addresses(isIP) && Destination(w)
    ensures Onwards("--to-destination", Scan(isIP, w[17..] + " " + rest), Scan(isIP, w + " " + rest))
  {
    var x, s := w[17..], w + " " + rest;
    assert s == w + (" " + rest) && s[17..] == x + " " + rest && "--to-destination=" <= s;
    ScanDestination(isIP, s);
    ScanNonEmpty(isIP, x + " " + rest);
    ConsOnwards("--to-destination", Scan(isIP, x + " " + rest));
  }

  lemma DestinationOnwards(isIP: string -> bool, w: string, rest: string)
    requires Addresses(isIP) && Destination(w)
    ensures Onwards(Printed(isIP, w), Scan(isIP, rest), Scan(isIP, w + " " + rest))
  {
    var x := w[17..];
    DestinationMiddle(isIP, w, rest);
    BareOnwards(isIP, x, rest);
    OnwardsTwice("--to-destination", WithLength(isIP, x), Scan(isIP, rest), Scan(isIP, x + " " + rest),
                 Scan(isIP, w + " " + rest));
    DestinationText(isIP, w);
  }

  lemma DestinationEnd(isIP: string -> bool, w: string)
    requires Addresses(isIP) && Destination(w)
    ensures Scan(isIP, w).Args? && Join(Scan(isIP, w).args, ' ') == Printed(isIP, w)
  {
    var printed := WithLength(isIP, w[17..]);
    ScanDestination(isIP, w);
    ScanBareEnd(isIP, w[17..]);
    JoinCons("--to-destination", [printed], ' ');
    DestinationText(isIP, w);
  }

  lemma ScanWord(isIP: string -> bool, w: string, rest: string)
    requires Addresses(isIP) && Written(w)
    ensures Onwards(Printed(isIP, w), Scan(isIP, rest), Scan(isIP, w + " " + rest))
    ensures Scan(isIP, w).Args? && Join(Scan(isIP, w).args, ' ') == Printed(isIP, w)
  {
    if Quoted(w) {
      ScanNonEmpty(isIP, rest);
      ScanQuoted(isIP, w, rest);
      ConsOnwards(w, Scan(isIP, rest));
    } else if BareWord(w) {
      BareOnwards(isIP, w, rest);
      ScanBareEnd(isIP, w);
    } else {
      DestinationOnwards(isIP, w, rest);
      DestinationEnd(isIP, w);
    }
  }

  // ---- All words ----

  lemma {:induction false} JoinLast(ws: seq<string>, w: string)
    requires ws != []
    ensures Join(ws + [w], ' ') == Join(ws, ' ') + " " + w
    decreases |ws|
  {
    assert (ws + [w])[1..] == ws[1..] + [w];
    if |ws| > 1 {
      JoinLast(ws[1..], w);
      assert ws[0] + " " + (Join(ws[1..], ' ') + " " + w) == Join(ws, ' ') + " " + w;
    }
  }

  lemma PrintedRest(isIP: string -> bool, ws: seq<string>)
    requires |ws| > 1
    ensures Join(AllPrinted(isIP, ws), ' ') == Printed(isIP, ws[0]) + " " + Join(AllPrinted(isIP, ws[1..]), ' ')
  {
    assert AllPrinted(isIP, ws) == [Printed(isIP, ws[0])] + AllPrinted(isIP, ws[1..]);
    JoinCons(Printed(isIP, ws[0]), AllPrinted(isIP, ws[1..]), ' ');
  }

  /** The words before the last are printed one by one. */
  lemma {:induction false} ScanWords(isIP: string -> bool, ws: seq<string>, rest: string)
    requires Addresses(isIP) && ws != [] && AllWritten(ws)
    ensures Onwards(Join(AllPrinted(isIP, ws), ' '), Scan(isIP, rest), Scan(isIP, Join(ws, ' ') + " " + rest))
    decreases |ws|
  {
    if |ws| == 1 {
      ScanWord(isIP, ws[0], rest);
    } else {
      var tail := Join(ws[1..], ' ') + " " + rest;
      assert Join(ws, ' ') + " " + rest == ws[0] + " " + tail;
      ScanWords(isIP, ws[1..], rest);
      ScanWord(isIP, ws[0], tail);
      PrintedRest(isIP, ws);
      OnwardsTwice(Printed(isIP, ws[0]), Join(AllPrinted(isIP, ws[1..]), ' '), Scan(isIP, rest), Scan(isIP, tail),
                   Scan(isIP, ws[0] + " " + tail));
    }
  }

  lemma PrintedLast(isIP: string -> bool, front: seq<string>, w: string)
    requires front != []
    ensures Join(AllPrinted(isIP, front + [w]), ' ') == Join(AllPrinted(isIP, front), ' ') + " " + Printed(isIP, w)
  {
    assert AllPrinted(isIP, front + [w]) == AllPrinted(isIP, front) + [Printed(isIP, w)];
    JoinLast(AllPrinted(isIP, front), Printed(isIP, w));
  }

  lemma AllScanned(isIP: string -> bool, ws: seq<string>)
    requires Addresses(isIP) && ws != [] && AllWritten(ws)
    ensures var r := Scan(isIP, Join(ws, ' ')); r.Args? && Join(r.args, ' ') == Join(AllPrinted(isIP, ws), ' ')
  {
    var front, w := ws[..|ws| - 1], ws[|ws| - 1];
    ScanWord(isIP, w, "");
    if front == [] {
      assert ws == [w] && AllPrinted(isIP, ws) == [Printed(isIP, w)];
    } else {
      assert ws == front + [w];
      ScanWords(isIP, front, w);
      JoinLast(front, w);
      PrintedLast(isIP, front, w);
    }
  }

  // ---- The white space around ----

  lemma {:induction false} TrimLeftSpace(a: string, s: string)
    requires AllSpace(a)
    ensures TrimLeft(a + s) == TrimLeft(s)
    decreases |a|
  {
    if a == "" {
      assert a + s == s;
    } else {
      assert (a + s)[1..] == a[1..] + s;
      TrimLeftSpace(a[1..], s);
    }
  }

  lemma {:induction false} TrimRightSpace(s: string, b: string)
    requires AllSpace(b)
    ensures TrimRight(s + b) == TrimRight(s)
    decreases |b|
  {
    if b == "" {
      assert s + b == s;
    } else {
      var k := |b| - 1;
      assert (s + b)[..|s| + k] == s + b[..k];
      TrimRightSpace(s, b[..k]);
    }
  }

  lemma TrimPadded(a: string, s: string, b: string)
    requires AllSpace(a) && AllSpace(b) && s != "" && !IsSpace(s[0]) && !IsSpace(s[|s| - 1])
    ensures TrimSpace(a + s + b) == s
  {
    assert a + s + b == a + (s + b);
    TrimLeftSpace(a, s + b);
    TrimRightSpace(s, b);
  }

  lemma {:induction false} WordEdges(ws: seq<string>)
    requires ws != [] && AllWritten(ws)
    ensures var s := Join(ws, ' '); s != "" && !IsSpace(s[0]) && !IsSpace(s[|s| - 1])
    decreases |ws|
  {
    if |ws| > 1 { WordEdges(ws[1..]); }
  }

  // ---- The normal form ----

  /** A rule of such words, with any white space around it, is normalized to the printed words between single blanks. */
  lemma NormalWords(isIP: string -> bool, a: string, ws: seq<string>, b: string)
    requires Addresses(isIP) && ws != [] && AllWritten(ws) && AllSpace(a) && AllSpace(b)
    ensures Normalize(isIP, a + Join(ws, ' ') + b) == Normal(Join(AllPrinted(isIP, ws), ' '))
  {
    WordEdges(ws);
    TrimPadded(a, Join(ws, ' '), b);
    AllScanned(isIP, ws);
  }

  /** After such words, a quote that is opened and not closed is refused. */
  lemma OpenQuoteRefused(isIP: string -> bool, ws: seq<string>, w: string)
    requires Addresses(isIP) && AllWritten(ws) && w != "" && w[0] == '"' && '"' !in w[1..] && !IsSpace(w[|w| - 1])
    ensures Normalize(isIP, Join(ws + [w], ' ')) == BadQuotes
  {
    var s := Join(ws + [w], ' ');
    IndexOfAbsent(w[1..], '"');
    NotPrefix(TO_DESTINATION, w, 0);
    if ws == [] {
      assert ws + [w] == [w];
    } else {
      JoinLast(ws, w);
      WordEdges(ws);
      ScanWords(isIP, ws, w);
    }
    TrimVisible(s);
  }

  /** An empty rule crashes, and so does a rule whose last word is a destination option without the destination. */
  lemma EmptyCrashes(isIP: string -> bool, a: string, ws: seq<string>)
    requires Addresses(isIP) && AllWritten(ws) && AllSpace(a)
    ensures Normalize(isIP, a) == Panic && Normalize(isIP, Join(ws + ["--to-destination="], ' ')) == Panic
  {
    var w := "--to-destination=";
    var s := Join(ws + [w], ' ');
    TrimLeftSpace(a, "");
    assert a + "" == a;
    ScanDestination(isIP, w);
    if ws == [] {
      assert ws + [w] == [w];
    } else {
      JoinLast(ws, w);
      WordEdges(ws);
      ScanWords(isIP, ws, w);
    }
    TrimVisible(s);
  }
}
