/** The textual normal form under which the iptables fake stores a rule. */
module RuleText {
  import opened Sequences
  import opened Text

  /** unicode.IsSpace. */
  predicate IsSpace(c: char) {
    || c == ' ' || '\t' <= c <= '\r' || c == '\U{0085}' || c == '\U{00A0}' || c == '\U{1680}'
    || '\U{2000}' <= c <= '\U{200A}' || c == '\U{2028}' || c == '\U{2029}' || c == '\U{202F}'
    || c == '\U{205F}' || c == '\U{3000}'
  }

  function TrimLeft(s: string): string {
    if s != "" && IsSpace(s[0]) then TrimLeft(s[1..]) else s
  }

  function TrimRight(s: string): string {
    if s != "" && IsSpace(s[|s| - 1]) then TrimRight(s[..|s| - 1]) else s
  }

  /** strings.TrimSpace. */
  function TrimSpace(s: string): string {
    TrimRight(TrimLeft(s))
  }

  const TO_DESTINATION := "--to-destination="

  /** `--to-destination=x` counts as two words. */
  function Expand(remaining: string): (r: string)
    ensures |r| == |remaining|
  {
    if TO_DESTINATION <= remaining then remaining[..16] + " " + remaining[17..] else remaining
  }

  datatype Scanned = Args(args: seq<string>) | Mismatched | Crashed

  datatype Normalized = Normal(rule: string) | BadQuotes | Panic

  /** The end of the first argument: after the closing quote, or before the next blank. */
  function ArgEnd(remaining: string): (end: Option<nat>)
    requires remaining != ""
    ensures end.Some? ==> end.value <= |remaining|
  {
    if remaining[0] == '"' then
      var q := IndexOf(remaining[1..], '"');
      if q == |remaining| - 1 then None else Some(q + 2)
    else Some(IndexOf(remaining, ' '))
  }

  /** Addresses get the prefix length that iptables prints. */
  function Argument(isIP: string -> bool, arg: string): string {
    TrimSpace(if isIP(arg) then arg + "/32" else arg)
  }

  function Cons(arg: string, rest: Scanned): Scanned {
    if rest.Args? then Args([arg] + rest.args) else rest
  }

  function Scan(isIP: string -> bool, remaining: string): Scanned
    decreases |remaining|
  {
    if remaining == "" then Crashed
    else
      var r := Expand(remaining);
      var end := ArgEnd(r);
      if end.None? then Mismatched
      else if end.value == |r| then Args([Argument(isIP, r)])
      else Cons(Argument(isIP, r[..end.value]), Scan(isIP, r[end.value + 1..]))
  }

  /** The arguments separated by single blanks. */
  function Normalize(isIP: string -> bool, rule: string): Normalized {
    match Scan(isIP, TrimSpace(rule))
    case Args(args) => Normal(Join(args, ' '))
    case Mismatched => BadQuotes
    case Crashed => Panic
  }

  // ---- The scanning loop ----

  /** The text so far followed by the arguments still to come. */
  function Continue(normalized: string, rest: Scanned): Normalized {
    match rest
    case Args(args) =>
      if args == [] then Normal(normalized)
      else if normalized == "" then Normal(Join(args, ' ')) else Normal(normalized + " " + Join(args, ' '))
    case Mismatched => BadQuotes
    case Crashed => Panic
  }

  /** An argument that starts with a visible character stays non-empty. */
  lemma TrimKeepsStart(s: string)
    requires s != "" && !IsSpace(s[0])
    ensures TrimSpace(s) != ""
  {
    TrimRightKeepsStart(s);
  }

  lemma {:induction false} TrimRightKeepsStart(s: string)
    requires s != "" && !IsSpace(s[0])
    ensures TrimRight(s) != ""
    decreases |s|
  {
    if |s| > 1 && IsSpace(s[|s| - 1]) { TrimRightKeepsStart(s[..|s| - 1]); }
  }

  lemma {:induction false} TrimLeftVisible(s: string)
    ensures var t := TrimLeft(s); t == "" || !IsSpace(t[0])
    decreases |s|
  {
    if s != "" && IsSpace(s[0]) { TrimLeftVisible(s[1..]); }
  }

  lemma {:induction false} TrimRightStart(s: string)
    ensures TrimRight(s) <= s
    decreases |s|
  {
    if s != "" && IsSpace(s[|s| - 1]) { TrimRightStart(s[..|s| - 1]); }
  }

  lemma TrimSpaceVisible(s: string)
    ensures var t := TrimSpace(s); t == "" || !IsSpace(t[0])
  {
    TrimLeftVisible(s);
    TrimRightStart(TrimLeft(s));
  }

  lemma {:induction false} ScanNonEmpty(isIP: string -> bool, s: string)
    ensures Scan(isIP, s).Args? ==> Scan(isIP, s).args != []
    decreases |s|
  {
    if s != "" {
      var r := Expand(s);
      var end := ArgEnd(r);
      if end.Some? && end.value != |r| { ScanNonEmpty(isIP, r[end.value + 1..]); }
    }
  }

  lemma FirstArgument(isIP: string -> bool, remaining: string, end: nat)
    requires remaining != "" && !IsSpace(remaining[0]) && ArgEnd(Expand(remaining)) == Some(end)
    ensures Argument(isIP, Expand(remaining)[..end]) != ""
  {
    var r := Expand(remaining);
    var arg := r[..end];
    assert end > 0 && arg[0] == r[0];
    TrimKeepsStart(if isIP(arg) then arg + "/32" else arg);
  }

  lemma ContinueCons(normalized: string, arg: string, rest: Scanned)
    requires normalized != "" || arg != ""
    requires rest.Args? ==> rest.args != []
    ensures
      var longer := if normalized == "" then arg else normalized + " " + arg;
      Continue(normalized, Cons(arg, rest)) == Continue(longer, rest)
  {
    if rest.Args? {
      assert ([arg] + rest.args)[1..] == rest.args;
      assert normalized + " " + (arg + " " + Join(rest.args, ' ')) == normalized + " " + arg + " " + Join(rest.args, ' ');
    }
  }

  function Extend(normalized: string, arg: string): string {
    if normalized == "" then arg else normalized + " " + arg
  }

  /** One turn of the loop moves an argument from the remaining text to the normalized text. */
  lemma LoopStep(isIP: string -> bool, normalized: string, remaining: string, end: nat)
    requires remaining != "" && ArgEnd(Expand(remaining)) == Some(end)
    requires normalized == "" ==> !IsSpace(remaining[0])
    ensures
      var r := Expand(remaining);
      var longer := Extend(normalized, Argument(isIP, r[..end]));
      && longer != ""
      && Continue(normalized, Scan(isIP, remaining)) ==
         if end == |r| then Normal(longer) else Continue(longer, Scan(isIP, r[end + 1..]))
  {
    var r := Expand(remaining);
    var arg := Argument(isIP, r[..end]);
    if normalized == "" { FirstArgument(isIP, remaining, end); }
    if end == |r| {
      assert r[..end] == r;
    } else {
      ScanNonEmpty(isIP, r[end + 1..]);
      ContinueCons(normalized, arg, Scan(isIP, r[end + 1..]));
    }
  }

  /** normalizeRule. */
  method NormalizeRule(isIP: string -> bool, rule: string) returns (r: Normalized)
    ensures r == Normalize(isIP, rule)
  {
    var normalized := "";
    var remaining := TrimSpace(rule);
    TrimSpaceVisible(rule);
    ScanNonEmpty(isIP, remaining);
    while true
      invariant normalized == "" && remaining != "" ==> !IsSpace(remaining[0])
      invariant Normalize(isIP, rule) == Continue(normalized, Scan(isIP, remaining))
      decreases |remaining|
    {
      if remaining == "" { return Panic; }
      ghost var before := remaining;
      remaining := Expand(remaining);
      var found := ArgEnd(remaining);
      if found.None? { return BadQuotes; }
      var end := found.value;
      LoopStep(isIP, normalized, before, end);
      normalized := Extend(normalized, Argument(isIP, remaining[..end]));
      if |remaining| == end { return Normal(normalized); }
      remaining := remaining[end + 1..];
    }
  }

  // ---- Idempotence ----

  /** No white space but the blank. */
  ghost predicate Plain(s: string) {
    forall c :: c in s ==> IsSpace(c) ==> c == ' '
  }

  /** No address is written with a slash or a quote. */
  ghost predicate AddressText(isIP: string -> bool) {
    forall s :: isIP(s) ==> '/' !in s && '"' !in s
  }

  ghost predicate Quoted(arg: string) {
    |arg| >= 2 && arg[0] == '"' && arg[|arg| - 1] == '"' && '"' !in arg[1..|arg| - 1]
  }

  /** No blank at all, and no other white space at the ends. */
  ghost predicate Tight(arg: string) {
    ' ' !in arg && (arg != "" ==> !IsSpace(arg[0]) && !IsSpace(arg[|arg| - 1]))
  }

  /** What every argument looks like that scanning yields. */
  ghost predicate Shaped(arg: string) {
    Quoted(arg) || Tight(arg)
  }

  /** No quote is opened, no address or destination has to be rewritten. */
  ghost predicate Unmarked(isIP: string -> bool, arg: string) {
    (arg != "" ==> arg[0] != '"') && !(TO_DESTINATION <= arg) && !isIP(arg)
  }

  /** An argument that a second pass does not touch. */
  ghost predicate Lasting(isIP: string -> bool, arg: string) {
    Quoted(arg) || Unmarked(isIP, arg)
  }

  ghost predicate Bare(isIP: string -> bool, arg: string) {
    Tight(arg) && Unmarked(isIP, arg)
  }

  /** An argument that scanning leaves as it is. */
  ghost predicate Stable(isIP: string -> bool, arg: string) {
    Quoted(arg) || Bare(isIP, arg)
  }

  ghost predicate AllShaped(args: seq<string>) {
    && args != [] && args[|args| - 1] != ""
    && forall i :: 0 <= i < |args| ==> Shaped(args[i])
  }

  ghost predicate AllLasting(isIP: string -> bool, args: seq<string>) {
    forall i :: 0 <= i < |args| ==> Lasting(isIP, args[i])
  }

  ghost predicate AllStable(isIP: string -> bool, args: seq<string>) {
    && args != [] && args[|args| - 1] != ""
    && forall i :: 0 <= i < |args| ==> Stable(isIP, args[i])
  }

  lemma StableParts(isIP: string -> bool, args: seq<string>)
    ensures AllStable(isIP, args) <==> AllShaped(args) && AllLasting(isIP, args)
  {
    assert forall i :: 0 <= i < |args| ==> (Stable(isIP, args[i]) <==> Shaped(args[i]) && Lasting(isIP, args[i]));
  }

  lemma {:induction false} TrimVisible(s: string)
    requires s != "" ==> !IsSpace(s[0]) && !IsSpace(s[|s| - 1])
    ensures TrimSpace(s) == s
  {
  }

  lemma NotPrefix(p: string, s: string, i: nat)
    requires i < |p| && (i < |s| ==> s[i] != p[i])
    ensures !(p <= s)
  {
  }

  lemma LongerPrefix(p: string, s: string, more: string)
    requires |p| <= |s|
    ensures p <= s + more <==> p <= s
  {
  }

  lemma StableArgument(isIP: string -> bool, arg: string)
    requires AddressText(isIP) && Stable(isIP, arg)
    ensures Argument(isIP, arg) == arg
  {
    TrimVisible(arg);
    assert Quoted(arg) ==> '"' in arg;
  }

  lemma QuotedTail(arg: string, tail: string)
    requires Quoted(arg)
    ensures (arg + tail)[1..] == arg[1..|arg| - 1] + ['"'] + tail
  {
    var inner := arg[1..|arg| - 1];
    assert arg == ['"'] + inner + ['"'];
  }

  lemma QuotedEnd(arg: string, tail: string)
    requires Quoted(arg)
    ensures Expand(arg + tail) == arg + tail && ArgEnd(arg + tail) == Some(|arg|)
  {
    var s, inner := arg + tail, arg[1..|arg| - 1];
    assert s[0] == '"';
    NotPrefix(TO_DESTINATION, s, 0);
    QuotedTail(arg, tail);
    IndexOfAt(inner, '"', tail);
    assert IndexOf(s[1..], '"') == |arg| - 2 < |s| - 1;
  }

  lemma BareEnd(isIP: string -> bool, arg: string, rest: string)
    requires Bare(isIP, arg)
    ensures Expand(arg + " " + rest) == arg + " " + rest && ArgEnd(arg + " " + rest) == Some(|arg|)
  {
    var s := arg + " " + rest;
    assert s == arg + (" " + rest) && s[|arg|] == ' ';
    if |arg| < 17 { NotPrefix(TO_DESTINATION, s, |arg|); } else { LongerPrefix(TO_DESTINATION, arg, " " + rest); }
    assert ' ' !in arg;
    IndexOfAt(arg, ' ', rest);
    assert s[0] != '"';
  }

  /** A stable argument is cut off where it ends, whatever follows the blank. */
  lemma StableEnd(isIP: string -> bool, arg: string, rest: string)
    requires Stable(isIP, arg)
    ensures Expand(arg + " " + rest) == arg + " " + rest && ArgEnd(arg + " " + rest) == Some(|arg|)
  {
    if Quoted(arg) {
      QuotedEnd(arg, " " + rest);
      assert arg + (" " + rest) == arg + " " + rest;
    } else {
      BareEnd(isIP, arg, rest);
    }
  }

  lemma StableLast(isIP: string -> bool, arg: string)
    requires Stable(isIP, arg) && arg != ""
    ensures Expand(arg) == arg && ArgEnd(arg) == Some(|arg|)
  {
    if Quoted(arg) {
      QuotedEnd(arg, "");
      assert arg + "" == arg;
    } else {
      IndexOfAbsent(arg, ' ');
    }
  }

  lemma ScanCons(isIP: string -> bool, arg: string, rest: string)
    requires AddressText(isIP) && Stable(isIP, arg)
    ensures Scan(isIP, arg + " " + rest) == Cons(arg, Scan(isIP, rest))
  {
    var s := arg + " " + rest;
    StableArgument(isIP, arg);
    StableEnd(isIP, arg, rest);
    assert s[..|arg|] == arg && s[|arg| + 1..] == rest;
  }

  /** Scanning stable arguments separated by blanks gives them back. */
  lemma {:induction false} ScanJoined(isIP: string -> bool, args: seq<string>)
    requires AddressText(isIP) && AllStable(isIP, args)
    ensures Scan(isIP, Join(args, ' ')) == Args(args)
    decreases |args|
  {
    if |args| == 1 {
      StableArgument(isIP, args[0]);
      StableLast(isIP, args[0]);
    } else {
      ScanJoined(isIP, args[1..]);
      ScanCons(isIP, args[0], Join(args[1..], ' '));
      assert [args[0]] + args[1..] == args;
    }
  }

  // ---- What scanning yields ----

  lemma {:induction false} TrimRightVisible(s: string)
    ensures var t := TrimRight(s); t == "" || !IsSpace(t[|t| - 1])
    decreases |s|
  {
    if s != "" && IsSpace(s[|s| - 1]) { TrimRightVisible(s[..|s| - 1]); }
  }

  lemma TrimTight(s: string)
    requires ' ' !in s
    ensures Tight(TrimSpace(s))
  {
    TrimSubset(s);
    TrimSpaceVisible(s);
    TrimRightVisible(TrimLeft(s));
  }

  lemma {:induction false} TrimKeepsEnd(s: string)
    requires s != "" && !IsSpace(s[|s| - 1])
    ensures TrimSpace(s) != ""
    decreases |s|
  {
    if IsSpace(s[0]) {
      TrimKeepsEnd(s[1..]);
    }
  }

  lemma CutQuoted(isIP: string -> bool, remaining: string, end: nat)
    requires AddressText(isIP) && remaining != "" && remaining[0] == '"' && ArgEnd(remaining) == Some(end)
    ensures Expand(remaining) == remaining && Quoted(remaining[..end])
    ensures Argument(isIP, remaining[..end]) == remaining[..end]
  {
    var arg := remaining[..end];
    NotPrefix(TO_DESTINATION, remaining, 0);
    assert arg[1..end - 1] == remaining[1..][..end - 2] && arg[end - 1] == remaining[1..][end - 2];
    assert arg[0] in arg;
    TrimVisible(arg);
  }

  lemma ArgumentTight(isIP: string -> bool, arg: string)
    requires ' ' !in arg
    ensures Tight(Argument(isIP, arg))
    ensures arg != "" && !IsSpace(arg[|arg| - 1]) ==> Argument(isIP, arg) != ""
  {
    var a := if isIP(arg) then arg + "/32" else arg;
    TrimTight(a);
    if a != "" && !IsSpace(a[|a| - 1]) { TrimKeepsEnd(a); }
  }

  lemma ExpandBlank(s: string)
    ensures ' ' in Expand(s) || Expand(s) == s
  {
    if TO_DESTINATION <= s { assert Expand(s)[16] == ' '; }
  }

  /** Every argument is quoted, or free of blanks and trimmed. */
  lemma CutShaped(isIP: string -> bool, remaining: string, end: nat)
    requires AddressText(isIP) && remaining != "" && ArgEnd(Expand(remaining)) == Some(end)
    ensures Shaped(Argument(isIP, Expand(remaining)[..end]))
    ensures end == |remaining| && !IsSpace(remaining[end - 1]) ==> Argument(isIP, Expand(remaining)[..end]) != ""
  {
    var r := Expand(remaining);
    if remaining[0] == '"' {
      NotPrefix(TO_DESTINATION, remaining, 0);
      CutQuoted(isIP, remaining, end);
    } else {
      assert r[0] != '"';
      ArgumentTight(isIP, r[..end]);
      ExpandBlank(remaining);
      if end == |remaining| { assert r[..end] == r; }
    }
  }

  ghost predicate EndsVisibly(s: string) {
    s != "" ==> !IsSpace(s[|s| - 1])
  }

  lemma RestVisible(remaining: string, end: nat)
    requires EndsVisibly(remaining) && end < |remaining| && ArgEnd(Expand(remaining)) == Some(end)
    ensures EndsVisibly(Expand(remaining)[end + 1..])
  {
    var r := Expand(remaining);
    if TO_DESTINATION <= remaining {
      assert r == remaining[..16] + [' '] + remaining[17..];
      IndexOfAt(remaining[..16], ' ', remaining[17..]);
    }
  }

  lemma AllShapedCons(arg: string, args: seq<string>)
    requires Shaped(arg) && AllShaped(args)
    ensures AllShaped([arg] + args)
  {
  }

  lemma {:induction false} ScanShaped(isIP: string -> bool, remaining: string)
    requires AddressText(isIP) && EndsVisibly(remaining) && Scan(isIP, remaining).Args?
    ensures AllShaped(Scan(isIP, remaining).args)
    decreases |remaining|
  {
    var r := Expand(remaining);
    var end := ArgEnd(r).value;
    CutShaped(isIP, remaining, end);
    if end == |r| {
      assert r[..end] == r;
    } else {
      RestVisible(remaining, end);
      ScanShaped(isIP, r[end + 1..]);
      AllShapedCons(Argument(isIP, r[..end]), Scan(isIP, r[end + 1..]).args);
    }
  }

  /** Joined arguments neither begin nor end with white space. */
  lemma {:induction false} JoinedEdges(args: seq<string>)
    requires AllShaped(args)
    ensures var s := Join(args, ' '); s != "" && !IsSpace(s[|s| - 1]) && (args[0] != "" ==> !IsSpace(s[0]))
    decreases |args|
  {
    if |args| > 1 { JoinedEdges(args[1..]); }
  }

  /** The arguments of a rule, and its normal form, which nothing can be trimmed from. */
  lemma NormalShape(isIP: string -> bool, rule: string)
    requires AddressText(isIP) && Normalize(isIP, rule).Normal?
    ensures
      var args, n := Scan(isIP, TrimSpace(rule)).args, Normalize(isIP, rule).rule;
      AllShaped(args) && n == Join(args, ' ') && n != "" && !IsSpace(n[0]) && TrimSpace(n) == n
  {
    var s := TrimSpace(rule);
    TrimSpaceVisible(rule);
    TrimRightVisible(TrimLeft(rule));
    ScanShaped(isIP, s);
    var args := Scan(isIP, s).args;
    FirstArgument(isIP, s, ArgEnd(Expand(s)).value);
    assert Expand(s)[..|s|] == Expand(s);
    JoinedEdges(args);
    TrimVisible(Join(args, ' '));
  }

  // ---- Scanning again: the same arguments exactly when all of them last ----

  /** The text goes on after the argument with a blank, or ends. */
  ghost predicate Follows(arg: string, s: string) {
    arg <= s && (|arg| < |s| ==> s[|arg|] == ' ')
  }

  lemma FollowsWord(arg: string, s: string)
    requires Follows(arg, s) && ' ' !in arg
    ensures IndexOf(s, ' ') == |arg|
    ensures TO_DESTINATION <= s <==> TO_DESTINATION <= arg
  {
    if |arg| == |s| {
      IndexOfAbsent(s, ' ');
    } else {
      assert s == arg + [' '] + s[|arg| + 1..];
      IndexOfAt(arg, ' ', s[|arg| + 1..]);
      assert s == arg + s[|arg|..];
      if |arg| < 17 { NotPrefix(TO_DESTINATION, s, |arg|); } else { LongerPrefix(TO_DESTINATION, arg, s[|arg|..]); }
    }
  }

  /** A destination is cut in two. */
  lemma CutDestination(isIP: string -> bool, s: string)
    requires TO_DESTINATION <= s
    ensures ArgEnd(Expand(s)) == Some(16)
    ensures !(TO_DESTINATION <= Argument(isIP, Expand(s)[..16]))
  {
    var r := Expand(s);
    var arg := TO_DESTINATION[..16];
    assert r[..16] == arg;
    assert r == arg + [' '] + s[17..];
    IndexOfAt(arg, ' ', s[17..]);
    TrimVisible(arg);
    TrimVisible(arg + "/32");
    NotPrefix(TO_DESTINATION, arg + "/32", 16);
  }

  lemma AddressGrows(isIP: string -> bool, arg: string)
    requires Tight(arg) && isIP(arg)
    ensures Argument(isIP, arg) != arg
  {
    TrimVisible(arg + "/32");
  }

  /** The first argument changes if it does not last. */
  lemma FirstChanges(isIP: string -> bool, arg: string, s: string, end: nat)
    requires AddressText(isIP) && Shaped(arg) && Follows(arg, s) && s != "" && ArgEnd(Expand(s)) == Some(end)
    requires Argument(isIP, Expand(s)[..end]) == arg
    ensures Lasting(isIP, arg)
  {
    if !Quoted(arg) {
      if arg != "" && arg[0] == '"' {
        NotPrefix(TO_DESTINATION, s, 0);
        CutQuoted(isIP, s, end);
      } else {
        FollowsWord(arg, s);
        if TO_DESTINATION <= arg {
          CutDestination(isIP, s);
        } else if isIP(arg) {
          assert s[..end] == arg;
          AddressGrows(isIP, arg);
        }
      }
    }
  }

  lemma ScanHead(isIP: string -> bool, s: string)
    requires Scan(isIP, s).Args?
    ensures s != "" && ArgEnd(Expand(s)).Some?
    ensures Scan(isIP, s).args != [] && Scan(isIP, s).args[0] == Argument(isIP, Expand(s)[..ArgEnd(Expand(s)).value])
  {
    var r := Expand(s);
    assert r[..|r|] == r;
  }

  lemma JoinFollows(args: seq<string>)
    requires args != []
    ensures Follows(args[0], Join(args, ' '))
  {
  }

  ghost predicate Rescans(isIP: string -> bool, args: seq<string>) {
    Scan(isIP, Join(args, ' ')) == Args(args)
  }

  lemma {:induction false} RescanLasting(isIP: string -> bool, args: seq<string>)
    requires AddressText(isIP) && AllShaped(args) && Rescans(isIP, args)
    ensures AllLasting(isIP, args)
    decreases |args|
  {
    FirstLasts(isIP, args);
    if |args| > 1 {
      RescanRest(isIP, args);
      RescanLasting(isIP, args[1..]);
      AllLastingCons(isIP, args);
    }
  }

  lemma FirstLasts(isIP: string -> bool, args: seq<string>)
    requires AddressText(isIP) && AllShaped(args) && Rescans(isIP, args)
    ensures Lasting(isIP, args[0])
  {
    var s := Join(args, ' ');
    ScanHead(isIP, s);
    JoinFollows(args);
    FirstChanges(isIP, args[0], s, ArgEnd(Expand(s)).value);
  }

  lemma RescanRest(isIP: string -> bool, args: seq<string>)
    requires AddressText(isIP) && |args| > 1 && Stable(isIP, args[0]) && AllShaped(args) && Rescans(isIP, args)
    ensures AllShaped(args[1..]) && Rescans(isIP, args[1..])
  {
    var rest := Join(args[1..], ' ');
    ScanCons(isIP, args[0], rest);
    ScanTail(args[0], Scan(isIP, rest), args);
  }

  lemma AllLastingCons(isIP: string -> bool, args: seq<string>)
    requires args != [] && Lasting(isIP, args[0]) && AllLasting(isIP, args[1..])
    ensures AllLasting(isIP, args)
  {
  }

  lemma ScanTail(arg: string, rest: Scanned, args: seq<string>)
    requires Cons(arg, rest) == Args(args)
    ensures args != [] && rest == Args(args[1..])
  {
    assert rest.Args? && args[1..] == rest.args;
  }

  /** A second pass finds the same arguments if and only if every argument lasts. */
  lemma ScanAgain(isIP: string -> bool, rule: string)
    requires AddressText(isIP) && Normalize(isIP, rule).Normal?
    ensures
      var args := Scan(isIP, TrimSpace(rule)).args;
      Scan(isIP, TrimSpace(Normalize(isIP, rule).rule)) == Args(args) <==> AllLasting(isIP, args)
  {
    var args := Scan(isIP, TrimSpace(rule)).args;
    NormalShape(isIP, rule);
    StableParts(isIP, args);
    if AllLasting(isIP, args) { ScanJoined(isIP, args); }
    if Rescans(isIP, args) { RescanLasting(isIP, args); }
  }

  // ---- Fixed points: the text stays exactly when it is settled ----

  /** Every quote that opens a word closes before a blank or the end; every other word is trimmed and not to be rewritten. */
  predicate Settled(isIP: string -> bool, s: string)
    decreases |s|
  {
    && s != ""
    && ArgEnd(s).Some?
    && var end := ArgEnd(s).value;
       && (s[0] == '"' || (TrimSpace(s[..end]) == s[..end] && !isIP(s[..end]) && !(TO_DESTINATION <= s)))
       && (end == |s| || (s[end] == ' ' && Settled(isIP, s[end + 1..])))
  }

  lemma SameWord(a: string, b: string, s: string)
    requires Follows(a, s) && Follows(b, s) && ' ' !in a && ' ' !in b
    ensures a == b
  {
    FollowsWord(a, s);
    FollowsWord(b, s);
  }

  /** The first argument is the beginning of the text exactly when the first word is settled. */
  lemma FirstKept(isIP: string -> bool, s: string, end: nat)
    requires AddressText(isIP) && s != "" && s[0] != '"' && ArgEnd(Expand(s)) == Some(end)
    ensures Follows(Argument(isIP, Expand(s)[..end]), s) <==>
      !(TO_DESTINATION <= s) && TrimSpace(s[..end]) == s[..end] && !isIP(s[..end])
  {
    var word, arg := s[..IndexOf(s, ' ')], Argument(isIP, Expand(s)[..end]);
    assert Follows(word, s);
    FollowsWord(word, s);
    ArgumentTight(isIP, Expand(s)[..end]);
    if Follows(arg, s) { SameWord(arg, word, s); }
    if TO_DESTINATION <= s { CutDestination(isIP, s); }
    if !(TO_DESTINATION <= s) && isIP(word) && arg == word { AddressGrows(isIP, word); }
  }

  lemma JoinKept(arg: string, rest: string, s: string, end: nat)
    requires end < |s| && |arg| == end
    ensures s == arg + " " + rest <==> Follows(arg, s) && rest == s[end + 1..]
  {
    if s == arg + " " + rest { assert s[..end] == arg && s[end + 1..] == rest; }
    if Follows(arg, s) { CutAt(s, end); }
  }

  /** The first word of a settled text. */
  predicate HeadSettled(isIP: string -> bool, s: string, end: nat)
    requires s != "" && end <= |s|
  {
    && (s[0] == '"' || (TrimSpace(s[..end]) == s[..end] && !isIP(s[..end]) && !(TO_DESTINATION <= s)))
    && (end < |s| ==> s[end] == ' ')
  }

  lemma HeadKept(isIP: string -> bool, s: string, end: nat)
    requires AddressText(isIP) && s != "" && ArgEnd(s) == Some(end) && HeadSettled(isIP, s, end)
    ensures Expand(s) == s && Argument(isIP, s[..end]) == s[..end]
  {
    if s[0] == '"' { CutQuoted(isIP, s, end); }
  }

  lemma HeadExact(isIP: string -> bool, s: string, end: nat)
    requires AddressText(isIP) && s != "" && ArgEnd(Expand(s)) == Some(end)
    requires Follows(Argument(isIP, Expand(s)[..end]), s)
    ensures Expand(s) == s && HeadSettled(isIP, s, end) && Argument(isIP, s[..end]) == s[..end]
  {
    if s[0] == '"' {
      NotPrefix(TO_DESTINATION, s, 0);
      CutQuoted(isIP, s, end);
    } else {
      FirstKept(isIP, s, end);
    }
  }

  lemma {:induction false} KeptSettles(isIP: string -> bool, s: string)
    requires AddressText(isIP) && Scan(isIP, s).Args? && Join(Scan(isIP, s).args, ' ') == s
    ensures Settled(isIP, s)
    decreases |s|
  {
    ScanHead(isIP, s);
    JoinFollows(Scan(isIP, s).args);
    var end := ArgEnd(Expand(s)).value;
    HeadExact(isIP, s, end);
    if end < |s| {
      var rest := s[end + 1..];
      ScanNonEmpty(isIP, rest);
      JoinCons(s[..end], Scan(isIP, rest).args, ' ');
      JoinKept(s[..end], Join(Scan(isIP, rest).args, ' '), s, end);
      KeptSettles(isIP, rest);
    }
  }

  lemma {:induction false} SettledKept(isIP: string -> bool, s: string)
    requires AddressText(isIP) && Settled(isIP, s)
    ensures Scan(isIP, s).Args? && Join(Scan(isIP, s).args, ' ') == s
    decreases |s|
  {
    var end := ArgEnd(s).value;
    HeadKept(isIP, s, end);
    if end == |s| {
      assert s[..end] == s;
    } else {
      var rest := s[end + 1..];
      SettledKept(isIP, rest);
      ScanNonEmpty(isIP, rest);
      JoinCons(s[..end], Scan(isIP, rest).args, ' ');
      CutAt(s, end);
    }
  }

  lemma {:induction false} SettledEnd(isIP: string -> bool, s: string)
    requires Settled(isIP, s)
    ensures !IsSpace(s[|s| - 1])
    decreases |s|
  {
    var end := ArgEnd(s).value;
    if end < |s| {
      SettledEnd(isIP, s[end + 1..]);
    } else if s[0] != '"' {
      assert s[..end] == s;
      TrimRightVisible(TrimLeft(s));
    }
  }

  /** The texts that normalizeRule leaves as they are. */
  lemma FixedExactly(isIP: string -> bool, s: string)
    requires AddressText(isIP)
    ensures Normalize(isIP, s) == Normal(s) <==> s != "" && !IsSpace(s[0]) && Settled(isIP, s)
  {
    if Normalize(isIP, s) == Normal(s) {
      NormalShape(isIP, s);
      KeptSettles(isIP, s);
    }
    if s != "" && !IsSpace(s[0]) && Settled(isIP, s) {
      SettledEnd(isIP, s);
      TrimVisible(s);
      SettledKept(isIP, s);
    }
  }

  /** normalizeRule is idempotent at a rule if and only if its normal form is settled, which it is when all arguments last. */
  lemma IdempotentExactly(isIP: string -> bool, rule: string)
    requires AddressText(isIP) && Normalize(isIP, rule).Normal?
    ensures
      var n := Normalize(isIP, rule).rule;
      && (Normalize(isIP, n) == Normalize(isIP, rule) <==> Settled(isIP, n))
      && (AllLasting(isIP, Scan(isIP, TrimSpace(rule)).args) ==> Settled(isIP, n))
  {
    NormalShape(isIP, rule);
    ScanAgain(isIP, rule);
    FixedExactly(isIP, Normalize(isIP, rule).rule);
  }

  /** What scanning cuts off a text without odd white space is stable. */
  lemma CutStable(isIP: string -> bool, remaining: string, end: nat)
    requires AddressText(isIP) && Plain(remaining) && remaining != "" && ArgEnd(Expand(remaining)) == Some(end)
    ensures Stable(isIP, Argument(isIP, Expand(remaining)[..end]))
    ensures end == |remaining| ==> Argument(isIP, Expand(remaining)[..end]) != ""
  {
    if remaining[0] == '"' {
      NotPrefix(TO_DESTINATION, remaining, 0);
      CutQuoted(isIP, remaining, end);
    } else {
      CutBare(isIP, remaining, end);
    }
  }

  lemma CutBare(isIP: string -> bool, remaining: string, end: nat)
    requires AddressText(isIP) && Plain(remaining) && remaining != "" && ArgEnd(Expand(remaining)) == Some(end)
    requires Expand(remaining)[0] != '"'
    ensures Bare(isIP, Argument(isIP, Expand(remaining)[..end]))
    ensures end == |remaining| ==> Argument(isIP, Expand(remaining)[..end]) != ""
  {
    var r := Expand(remaining);
    var arg := r[..end];
    ExpandPlain(remaining);
    assert forall c :: c in arg ==> c in r && !IsSpace(c);
    assert !(TO_DESTINATION <= arg) by { NoDestination(remaining, end); }
    var a := if isIP(arg) then arg + "/32" else arg;
    assert forall c :: c in a ==> !IsSpace(c);
    if isIP(arg) {
      assert a[|arg|] == '/';
      assert '/' in a;
      if |arg| < 17 { NotPrefix(TO_DESTINATION, a, |arg|); } else { LongerPrefix(TO_DESTINATION, arg, "/32"); }
    }
    if a != "" { assert a[0] in a && a[|a| - 1] in a; }
    TrimVisible(a);
  }

  lemma ExpandPlain(remaining: string)
    requires Plain(remaining)
    ensures Plain(Expand(remaining))
  {
    forall c | c in Expand(remaining) ensures c in remaining || c == ' ' { ExpandChars(remaining, c); }
  }

  lemma NoDestination(remaining: string, end: nat)
    requires end <= |remaining|
    ensures !(TO_DESTINATION <= Expand(remaining)[..end])
  {
    var r := Expand(remaining);
    if TO_DESTINATION <= remaining {
      NotPrefix(TO_DESTINATION, r[..end], 16);
    } else {
      assert r == r[..end] + r[end..];
    }
  }

  lemma AllStableCons(isIP: string -> bool, arg: string, args: seq<string>)
    requires Stable(isIP, arg) && AllStable(isIP, args)
    ensures AllStable(isIP, [arg] + args)
  {
  }

  lemma PlainRest(remaining: string, end: nat)
    requires Plain(remaining) && end < |remaining|
    ensures Plain(Expand(remaining)[end + 1..])
  {
    ExpandPlain(remaining);
  }

  lemma {:induction false} ScanStable(isIP: string -> bool, remaining: string)
    requires AddressText(isIP) && Plain(remaining) && Scan(isIP, remaining).Args?
    ensures AllStable(isIP, Scan(isIP, remaining).args)
    decreases |remaining|
  {
    var r := Expand(remaining);
    var end := ArgEnd(r).value;
    CutStable(isIP, remaining, end);
    if end == |r| {
      assert r[..end] == r;
    } else {
      PlainRest(remaining, end);
      ScanStable(isIP, r[end + 1..]);
      AllStableCons(isIP, Argument(isIP, r[..end]), Scan(isIP, r[end + 1..]).args);
    }
  }

  lemma {:induction false} TrimSubset(s: string)
    ensures forall c :: c in TrimSpace(s) ==> c in s
  {
    TrimLeftSubset(s);
    TrimRightStart(TrimLeft(s));
  }

  lemma {:induction false} TrimLeftSubset(s: string)
    ensures forall c :: c in TrimLeft(s) ==> c in s
    decreases |s|
  {
    if s != "" && IsSpace(s[0]) { TrimLeftSubset(s[1..]); }
  }

  /** normalizeRule is idempotent on rules whose only white space is the blank: their arguments last. */
  lemma NormalizeIdempotent(isIP: string -> bool, rule: string)
    requires AddressText(isIP) && Plain(rule) && Normalize(isIP, rule).Normal?
    ensures Normalize(isIP, Normalize(isIP, rule).rule) == Normalize(isIP, rule)
  {
    TrimSubset(rule);
    ScanStable(isIP, TrimSpace(rule));
    StableParts(isIP, Scan(isIP, TrimSpace(rule)).args);
    ScanAgain(isIP, rule);
  }

  // ---- The characters of a normal form ----

  /** A character that normalizing may add. */
  predicate Added(c: char) {
    c == ' ' || c == '/' || c == '3' || c == '2'
  }

  lemma ExpandChars(s: string, c: char)
    requires c in Expand(s)
    ensures c in s || c == ' '
  {
    if TO_DESTINATION <= s { assert c in s[..16] || c == ' ' || c in s[17..]; }
  }

  lemma CutChars(isIP: string -> bool, s: string, end: nat, c: char)
    requires end <= |s| && c in Argument(isIP, Expand(s)[..end])
    ensures c in s || Added(c)
  {
    var arg := Expand(s)[..end];
    TrimSubset(if isIP(arg) then arg + "/32" else arg);
    if c in arg { ExpandChars(s, c); }
  }

  lemma {:induction false} ScanChars(isIP: string -> bool, s: string, i: nat, c: char)
    requires Scan(isIP, s).Args? && i < |Scan(isIP, s).args| && c in Scan(isIP, s).args[i]
    ensures c in s || Added(c)
    decreases |s|
  {
    ScanHead(isIP, s);
    var end := ArgEnd(Expand(s)).value;
    if i == 0 {
      CutChars(isIP, s, end, c);
    } else {
      ScanRest(isIP, s, i);
      ScanChars(isIP, Expand(s)[end + 1..], i - 1, c);
      RestChars(s, end + 1, c);
    }
  }

  lemma ScanRest(isIP: string -> bool, s: string, i: nat)
    requires Scan(isIP, s).Args? && 0 < i < |Scan(isIP, s).args|
    ensures s != "" && ArgEnd(Expand(s)).Some? && ArgEnd(Expand(s)).value < |s|
    ensures
      var rest := Scan(isIP, Expand(s)[ArgEnd(Expand(s)).value + 1..]);
      rest.Args? && i - 1 < |rest.args| && rest.args[i - 1] == Scan(isIP, s).args[i]
  {
  }

  lemma RestChars(s: string, start: nat, c: char)
    requires start <= |s|
    ensures c in Expand(s)[start..] ==> c in s || Added(c)
  {
    if c in Expand(s) { ExpandChars(s, c); }
  }

  lemma {:induction false} JoinChars(args: seq<string>, c: char)
    requires c in Join(args, ' ') && c != ' '
    ensures exists i :: 0 <= i < |args| && c in args[i]
    decreases |args|
  {
    if |args| > 1 && c !in args[0] {
      JoinChars(args[1..], c);
      var i :| 0 <= i < |args[1..]| && c in args[1..][i];
      assert c in args[i + 1];
    }
  }

  lemma NormalizeChars(isIP: string -> bool, rule: string, c: char)
    requires Normalize(isIP, rule).Normal? && c in Normalize(isIP, rule).rule
    ensures c in rule || Added(c)
  {
    var args := Scan(isIP, TrimSpace(rule)).args;
    if c != ' ' {
      JoinChars(args, c);
      var i :| 0 <= i < |args| && c in args[i];
      ScanChars(isIP, TrimSpace(rule), i, c);
      TrimSubset(rule);
    }
  }

  lemma NormalizePlain(isIP: string -> bool, rule: string)
    requires Plain(rule) && Normalize(isIP, rule).Normal?
    ensures Plain(Normalize(isIP, rule).rule)
  {
    forall c | c in Normalize(isIP, rule).rule && IsSpace(c) ensures c == ' ' { NormalizeChars(isIP, rule, c); }
  }

  /** Without quotes the arguments are words. */
  lemma ScanWords(isIP: string -> bool, s: string)
    requires AddressText(isIP) && EndsVisibly(s) && Scan(isIP, s).Args? && '"' !in s
    ensures forall i :: 0 <= i < |Scan(isIP, s).args| ==> ' ' !in Scan(isIP, s).args[i]
  {
    var args := Scan(isIP, s).args;
    ScanShaped(isIP, s);
    forall i | 0 <= i < |args| ensures Tight(args[i]) {
      if '"' in args[i] { ScanChars(isIP, s, i, '"'); }
    }
  }

  lemma UnquotedArgs(isIP: string -> bool, rule: string)
    requires AddressText(isIP) && Normalize(isIP, rule).Normal? && '"' !in rule
    ensures Scan(isIP, TrimSpace(rule)) == Args(Split(Normalize(isIP, rule).rule, ' '))
    ensures '"' !in Normalize(isIP, rule).rule
  {
    TrimSubset(rule);
    TrimRightVisible(TrimLeft(rule));
    ScanWords(isIP, TrimSpace(rule));
    ScanNonEmpty(isIP, TrimSpace(rule));
    SplitJoin(Scan(isIP, TrimSpace(rule)).args, ' ');
    if '"' in Normalize(isIP, rule).rule { NormalizeChars(isIP, rule, '"'); }
  }

  /** At rules without quotes normalizeRule is idempotent if and only if every argument lasts. */
  lemma UnquotedIdempotent(isIP: string -> bool, rule: string)
    requires AddressText(isIP) && Normalize(isIP, rule).Normal? && '"' !in rule
    ensures Normalize(isIP, Normalize(isIP, rule).rule) == Normalize(isIP, rule) <==>
      AllLasting(isIP, Scan(isIP, TrimSpace(rule)).args)
  {
    var n := Normalize(isIP, rule).rule;
    ScanAgain(isIP, rule);
    UnquotedArgs(isIP, rule);
    if Normalize(isIP, n) == Normal(n) { UnquotedArgs(isIP, n); }
  }

  /** A bare argument at the end is taken whole and trimmed. */
  lemma ScanBareLast(isIP: string -> bool, s: string)
    requires s != "" && s[0] != '"' && s[0] != '-' && ' ' !in s && !isIP(s)
    ensures Scan(isIP, s) == Args([TrimSpace(s)])
  {
    NotPrefix(TO_DESTINATION, s, 0);
    IndexOfAbsent(s, ' ');
  }

  lemma TwoEdges(first: string, rest: string)
    requires Shaped(first) && first != "" && rest != "" && !IsSpace(rest[|rest| - 1])
    ensures TrimSpace(first + " " + rest) == first + " " + rest
  {
    var s := first + " " + rest;
    assert !IsSpace(first[0]) && s[0] == first[0] && s[|s| - 1] == rest[|rest| - 1];
    TrimVisible(s);
  }

  /** Two arguments, the first of them stable, neither of them with white space at its outer end. */
  lemma NormalizeTwo(isIP: string -> bool, first: string, rest: string)
    requires AddressText(isIP) && Stable(isIP, first) && first != "" && rest != "" && !IsSpace(rest[|rest| - 1])
    ensures Normalize(isIP, first + " " + rest) ==
      match Scan(isIP, rest)
      case Args(args) => Normal(Join([first] + args, ' '))
      case Mismatched => BadQuotes
      case Crashed => Panic
  {
    var s := first + " " + rest;
    TwoEdges(first, rest);
    ScanCons(isIP, first, rest);
  }

  lemma TabTrimmed(s: string)
    requires s != "" && !IsSpace(s[0]) && !IsSpace(s[|s| - 1])
    ensures TrimSpace("\t" + s) == s
  {
    assert ("\t" + s)[1..] == s;
    assert TrimLeft("\t" + s) == TrimLeft(s) == s;
  }

  lemma OpenQuote(isIP: string -> bool, s: string)
    requires '"' !in s
    ensures Scan(isIP, "\"" + s) == Mismatched
  {
    var open := "\"" + s;
    NotPrefix(TO_DESTINATION, open, 0);
    assert open[1..] == s;
    IndexOfAbsent(s, '"');
  }

  /** With a tab normalizing is not idempotent: the second pass meets a quote that the tab hid from the first. */
  lemma TabsHideQuotes(isIP: string -> bool, first: string, s: string)
    requires AddressText(isIP) && Stable(isIP, first) && first != ""
    requires s != "" && '"' !in s && ' ' !in s && !IsSpace(s[|s| - 1])
    ensures Normalize(isIP, first + " " + ("\t\"" + s)) == Normal(first + " " + ("\"" + s))
    ensures Normalize(isIP, first + " " + ("\"" + s)) == BadQuotes
  {
    var open, hidden := "\"" + s, "\t\"" + s;
    assert hidden == "\t" + open && hidden[1] == '"';
    NormalizeTwo(isIP, first, hidden);
    ScanBareLast(isIP, hidden);
    TabTrimmed(open);
    JoinCons(first, [open], ' ');
    NormalizeTwo(isIP, first, open);
    OpenQuote(isIP, s);
  }

  ghost predicate OpensQuote(word: string) {
    Tight(word) && word != "" && word[0] == '"' && '"' !in word[1..]
  }

  ghost predicate ClosesQuote(word: string) {
    Tight(word) && |word| > 1 && word[|word| - 1] == '"' && '"' !in word[..|word| - 1]
  }

  lemma QuotedPair(open: string, close: string)
    requires OpensQuote(open) && ClosesQuote(close)
    ensures Quoted(open + " " + close)
  {
    var s := open + " " + close;
    assert s[1..|s| - 1] == open[1..] + [' '] + close[..|close| - 1];
  }

  lemma HiddenPair(isIP: string -> bool, open: string, close: string)
    requires AddressText(isIP) && OpensQuote(open) && ClosesQuote(close) && !(TO_DESTINATION <= close)
    ensures Scan(isIP, "\t" + open + " " + close) == Args([open, close])
  {
    var word := "\t" + open;
    var s := word + " " + close;
    NotPrefix(TO_DESTINATION, s, 0);
    assert word[1] == '"' && close[|close| - 1] == '"';
    IndexOfAt(word, ' ', close);
    assert s[..|word|] == word && s[|word| + 1..] == close;
    TabTrimmed(open);
    assert close[0] == close[..|close| - 1][0];
    StableArgument(isIP, close);
    StableLast(isIP, close);
  }

  lemma NormalizeBoth(isIP: string -> bool, first: string, rest: string, args: seq<string>)
    requires AddressText(isIP) && Stable(isIP, first) && first != "" && rest != "" && !IsSpace(rest[|rest| - 1])
    requires args != [] && Scan(isIP, rest) == Args(args)
    ensures Scan(isIP, TrimSpace(first + " " + rest)) == Args([first] + args)
    ensures Normalize(isIP, first + " " + rest) == Normal(first + " " + Join(args, ' '))
  {
    TwoEdges(first, rest);
    ScanCons(isIP, first, rest);
    JoinCons(first, args, ' ');
  }

  lemma QuotedPairScan(isIP: string -> bool, open: string, close: string)
    requires AddressText(isIP) && OpensQuote(open) && ClosesQuote(close)
    ensures Scan(isIP, open + " " + close) == Args([open + " " + close])
  {
    QuotedPair(open, close);
    StableArgument(isIP, open + " " + close);
    StableLast(isIP, open + " " + close);
  }

  /** The text may stay although the arguments do not last: a second pass can take two of them for a quoted one. */
  lemma QuotesRegroup(isIP: string -> bool, first: string, open: string, close: string)
    requires AddressText(isIP) && Stable(isIP, first) && first != ""
    requires OpensQuote(open) && ClosesQuote(close) && !(TO_DESTINATION <= close)
    ensures
      var rule, n := first + " " + ("\t" + open + " " + close), first + " " + (open + " " + close);
      && Normalize(isIP, rule) == Normal(n) && Scan(isIP, TrimSpace(rule)) == Args([first] + [open, close])
      && Normalize(isIP, n) == Normal(n) && Scan(isIP, TrimSpace(n)) == Args([first] + [open + " " + close])
  {
    var hidden, group := "\t" + open + " " + close, open + " " + close;
    assert hidden[|hidden| - 1] == '"' && group[|group| - 1] == '"';
    HiddenPair(isIP, open, close);
    NormalizeBoth(isIP, first, hidden, [open, close]);
    JoinCons(open, [close], ' ');
    assert [open] + [close] == [open, close];
    QuotedPairScan(isIP, open, close);
    NormalizeBoth(isIP, first, group, [group]);
  }
}
