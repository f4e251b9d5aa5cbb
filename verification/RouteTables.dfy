/**
 * Claiming a policy-routing table: findFreeTable and addPolicyRules of cmd/veth-host/veth-host.go.
 * Invocations run in separate processes and share only the kernel, so each kernel call is a step
 * and the steps of different invocations interleave freely.
 */
module RouteTables {
  import opened Sequences
  import opened Sorting

  const MAX_TABLE := 0xFFFF_FFFF
  const ATTEMPTS := 10

  // ---- Finding a free table ----

  /** The least table from `start` on that no rule uses. */
  ghost predicate FirstFree(used: set<int>, start: int, found: Option<int>) {
    match found
    case None => forall t :: start <= t < MAX_TABLE ==> t in used
    case Some(t) => start <= t < MAX_TABLE && t !in used && forall u :: start <= u < t ==> u in used
  }

  /** The rules of both address families count. */
  method FindFreeTable(v4: seq<int>, v6: seq<int>, start: int) returns (found: Option<int>)
    ensures FirstFree((set t | t in v4) + (set t | t in v6), start, found)
  {
    var taken: map<int, bool> := map[];
    for i := 0 to |v4|
      invariant forall t :: t in taken <==> t in v4[..i]
    {
      taken := taken[v4[i] := true];
    }
    for i := 0 to |v6|
      invariant forall t :: t in taken <==> t in v4 || t in v6[..i]
    {
      taken := taken[v6[i] := true];
    }
    assert v6[..|v6|] == v6;
    var i := start;
    while i < MAX_TABLE
      invariant forall u :: start <= u < i ==> u in taken
      invariant start <= i
    {
      if i !in taken { return Some(i); }
      i := i + 1;
    }
    return None;
  }

  // ---- One invocation ----

  datatype Invocation = Invocation(routes: seq<string>, tableStart: int) {
    /** The routes in the order in which they are added. */
    function Order(): seq<string> {
      Sort(routes)
    }
  }

  /** Which invocation added the route, by table and destination; None for routes that were there before. */
  type Routes = map<(int, string), Option<nat>>

  datatype Kernel = Kernel(routes: Routes, rules: seq<int>)

  datatype Phase =
    | Seeking(attempt: nat)
    | Adding(attempt: nat, table: int, next: nat)
    | Claimed(table: int)
    | Done(table: int)
    | Failed

  /** What the environment decides: the random offset and the rules seen, and whether a call fails. */
  datatype Choice =
    | Look(offset: nat, used: set<int>, found: Option<int>)
    | AddRoute(ok: bool)
    | AddRule(ok: bool)

  datatype Local = Local(kernel: Kernel, phase: Phase)

  function Begin(order: seq<string>, attempt: nat, table: int): Phase {
    if order == [] then Claimed(table) else Adding(attempt, table, 0)
  }

  function Retry(attempt: nat): Phase {
    if attempt + 1 < ATTEMPTS then Seeking(attempt + 1) else Failed
  }

  /** One kernel call of invocation `id`; a choice that does not fit the phase is no step. */
  function Step(inv: Invocation, id: nat, l: Local, choice: Choice): Local {
    var order := inv.Order();
    match l.phase
    case Seeking(i) =>
      if !choice.Look? then l
      else l.(phase := if choice.found.None? then Failed else Begin(order, i, choice.found.value))
    case Adding(i, table, k) =>
      if !choice.AddRoute? || k >= |order| then l
      else if !choice.ok || (table, order[k]) in l.kernel.routes then l.(phase := Retry(i))
      else
        Local(l.kernel.(routes := l.kernel.routes[(table, order[k]) := Some(id)]),
              if k + 1 == |order| then Claimed(table) else Adding(i, table, k + 1))
    case Claimed(table) =>
      if !choice.AddRule? then l
      else if choice.ok then Local(l.kernel.(rules := l.kernel.rules + [table]), Done(table))
      else l.(phase := Failed)
    case Done(_) => l
    case Failed => l
  }

  ghost predicate LegalChoice(inv: Invocation, choice: Choice) {
    choice.Look? ==> choice.offset < 1000 && FirstFree(choice.used, inv.tableStart + choice.offset, choice.found)
  }

  // ---- Many invocations ----

  datatype System = System(kernel: Kernel, phases: seq<Phase>)

  datatype Move = Move(id: nat, choice: Choice)

  function Advance(invs: seq<Invocation>, s: System, m: Move): System
    requires |invs| == |s.phases|
    ensures |Advance(invs, s, m).phases| == |s.phases|
  {
    if m.id >= |invs| then s
    else
      var l := Step(invs[m.id], m.id, Local(s.kernel, s.phases[m.id]), m.choice);
      System(l.kernel, s.phases[m.id := l.phase])
  }

  function Run(invs: seq<Invocation>, s: System, moves: seq<Move>): (r: System)
    requires |invs| == |s.phases|
    ensures |r.phases| == |invs|
    decreases |moves|
  {
    if moves == [] then s else Run(invs, Advance(invs, s, moves[0]), moves[1..])
  }

  ghost predicate LegalMoves(invs: seq<Invocation>, moves: seq<Move>) {
    forall i :: 0 <= i < |moves| && moves[i].id < |invs| ==> LegalChoice(invs[moves[i].id], moves[i].choice)
  }

  /** The invocations start together with whatever routes and rules the kernel has. */
  ghost predicate Initial(invs: seq<Invocation>, s: System) {
    && |s.phases| == |invs| && (forall i :: 0 <= i < |invs| ==> s.phases[i] == Seeking(0))
    && forall r :: r in s.kernel.routes ==> s.kernel.routes[r] == None
  }

  /** The first `n` routes of the order are in the table, put there by this invocation. */
  ghost predicate Holds(kernel: Kernel, order: seq<string>, id: nat, table: int, n: nat) {
    forall j :: 0 <= j < n && j < |order| ==> (table, order[j]) in kernel.routes && kernel.routes[(table, order[j])] == Some(id)
  }

  ghost predicate PhaseOk(inv: Invocation, id: nat, kernel: Kernel, phase: Phase) {
    match phase
    case Seeking(i) => i < ATTEMPTS
    case Adding(i, table, k) =>
      i < ATTEMPTS && inv.tableStart <= table < MAX_TABLE && k < |inv.Order()| && Holds(kernel, inv.Order(), id, table, k)
    case Claimed(table) => inv.tableStart <= table < MAX_TABLE && Holds(kernel, inv.Order(), id, table, |inv.Order()|)
    case Done(table) =>
      inv.tableStart <= table < MAX_TABLE && Holds(kernel, inv.Order(), id, table, |inv.Order()|) && table in kernel.rules
    case Failed => true
  }

  ghost predicate Inv(invs: seq<Invocation>, s: System) {
    |s.phases| == |invs| && forall i :: 0 <= i < |invs| ==> PhaseOk(invs[i], i, s.kernel, s.phases[i])
  }

  /** The kernel only gains routes and rules. */
  ghost predicate Grows(a: Kernel, b: Kernel) {
    && (forall r :: r in a.routes ==> r in b.routes && b.routes[r] == a.routes[r])
    && forall t :: t in a.rules ==> t in b.rules
  }

  lemma PhaseStays(inv: Invocation, id: nat, a: Kernel, b: Kernel, phase: Phase)
    requires PhaseOk(inv, id, a, phase) && Grows(a, b)
    ensures PhaseOk(inv, id, b, phase)
  {
  }

  lemma StepKeeps(inv: Invocation, id: nat, l: Local, choice: Choice)
    requires PhaseOk(inv, id, l.kernel, l.phase) && LegalChoice(inv, choice)
    ensures var n := Step(inv, id, l, choice); PhaseOk(inv, id, n.kernel, n.phase) && Grows(l.kernel, n.kernel)
  {
  }

  lemma AdvanceKeeps(invs: seq<Invocation>, s: System, m: Move)
    requires Inv(invs, s) && (m.id < |invs| ==> LegalChoice(invs[m.id], m.choice))
    ensures Inv(invs, Advance(invs, s, m)) && Grows(s.kernel, Advance(invs, s, m).kernel)
  {
    if m.id < |invs| {
      StepKeeps(invs[m.id], m.id, Local(s.kernel, s.phases[m.id]), m.choice);
      var t := Advance(invs, s, m);
      forall i | 0 <= i < |invs| ensures PhaseOk(invs[i], i, t.kernel, t.phases[i]) {
        if i != m.id { PhaseStays(invs[i], i, s.kernel, t.kernel, s.phases[i]); }
      }
    }
  }

  lemma {:induction false} RunKeeps(invs: seq<Invocation>, s: System, moves: seq<Move>)
    requires Inv(invs, s) && LegalMoves(invs, moves)
    ensures Inv(invs, Run(invs, s, moves))
    decreases |moves|
  {
    if moves != [] {
      AdvanceKeeps(invs, s, moves[0]);
      RunKeeps(invs, Advance(invs, s, moves[0]), moves[1..]);
    }
  }

  lemma RouteHeld(inv: Invocation, id: nat, kernel: Kernel, table: int, route: string)
    requires Holds(kernel, inv.Order(), id, table, |inv.Order()|) && route in inv.routes
    ensures (table, route) in kernel.routes && kernel.routes[(table, route)] == Some(id)
  {
    SortSpec(inv.routes);
    assert route in multiset(inv.Order());
    var j :| 0 <= j < |inv.Order()| && inv.Order()[j] == route;
  }

  /**
   * However the calls of any number of invocations interleave, two that succeed and have a route in common
   * end with different tables.
   */
  lemma MutualExclusion(invs: seq<Invocation>, s: System, moves: seq<Move>, a: nat, b: nat, route: string)
    requires Initial(invs, s) && LegalMoves(invs, moves) && a < |invs| && b < |invs| && a != b
    requires route in invs[a].routes && route in invs[b].routes
    ensures
      var t := Run(invs, s, moves);
      t.phases[a].Done? && t.phases[b].Done? ==> t.phases[a].table != t.phases[b].table
  {
    RunKeeps(invs, s, moves);
    var t := Run(invs, s, moves);
    assert PhaseOk(invs[a], a, t.kernel, t.phases[a]) && PhaseOk(invs[b], b, t.kernel, t.phases[b]);
    if t.phases[a].Done? && t.phases[b].Done? {
      RouteHeld(invs[a], a, t.kernel, t.phases[a].table, route);
      RouteHeld(invs[b], b, t.kernel, t.phases[b].table, route);
    }
  }

  /** A table that succeeded is at or above the invocation's start, has its rule, and holds all its routes. */
  lemma DoneTable(invs: seq<Invocation>, s: System, moves: seq<Move>, a: nat, route: string)
    requires Initial(invs, s) && LegalMoves(invs, moves) && a < |invs| && route in invs[a].routes
    requires Run(invs, s, moves).phases[a].Done?
    ensures
      var t := Run(invs, s, moves);
      var table := t.phases[a].table;
      && invs[a].tableStart <= table < MAX_TABLE && table in t.kernel.rules
      && (table, route) in t.kernel.routes && t.kernel.routes[(table, route)] == Some(a)
  {
    RunKeeps(invs, s, moves);
    var t := Run(invs, s, moves);
    assert PhaseOk(invs[a], a, t.kernel, t.phases[a]);
    RouteHeld(invs[a], a, t.kernel, t.phases[a].table, route);
  }

  // ---- At most ten attempts ----

  /** How often the invocation looks for a table. */
  function Looks(invs: seq<Invocation>, s: System, moves: seq<Move>, a: nat): nat
    requires |invs| == |s.phases| && a < |invs|
    decreases |moves|
  {
    if moves == [] then 0
    else
      (if moves[0].id == a && moves[0].choice.Look? && s.phases[a].Seeking? then 1 else 0)
      + Looks(invs, Advance(invs, s, moves[0]), moves[1..], a)
  }

  function AttemptsLeft(phase: Phase): int {
    match phase
    case Seeking(i) => ATTEMPTS - i
    case Adding(i, _, _) => ATTEMPTS - i - 1
    case _ => 0
  }

  lemma {:induction false} LooksBounded(invs: seq<Invocation>, s: System, moves: seq<Move>, a: nat)
    requires Inv(invs, s) && LegalMoves(invs, moves) && a < |invs|
    ensures Looks(invs, s, moves, a) <= AttemptsLeft(s.phases[a])
    decreases |moves|
  {
    if moves != [] {
      AdvanceKeeps(invs, s, moves[0]);
      LooksBounded(invs, Advance(invs, s, moves[0]), moves[1..], a);
    }
    assert PhaseOk(invs[a], a, s.kernel, s.phases[a]);
  }

  lemma AtMostTenAttempts(invs: seq<Invocation>, s: System, moves: seq<Move>, a: nat)
    requires Initial(invs, s) && LegalMoves(invs, moves) && a < |invs|
    ensures Looks(invs, s, moves, a) <= ATTEMPTS
  {
    LooksBounded(invs, s, moves, a);
  }

  /** Every look of the invocation finds a table, and its rule is accepted. */
  ghost predicate Favoured(moves: seq<Move>, a: nat) {
    forall i :: 0 <= i < |moves| && moves[i].id == a ==>
      (moves[i].choice.Look? ==> moves[i].choice.found.Some?) && (moves[i].choice.AddRule? ==> moves[i].choice.ok)
  }

  /** A table that is claimed is not lost any more. */
  lemma {:induction false} ClaimLasts(invs: seq<Invocation>, s: System, moves: seq<Move>, a: nat)
    requires |invs| == |s.phases| && a < |invs| && Favoured(moves, a) && (s.phases[a].Claimed? || s.phases[a].Done?)
    ensures !Run(invs, s, moves).phases[a].Failed?
    decreases |moves|
  {
    if moves != [] { ClaimLasts(invs, Advance(invs, s, moves[0]), moves[1..], a); }
  }

  lemma {:induction false} FailureUsesAll(invs: seq<Invocation>, s: System, moves: seq<Move>, a: nat)
    requires Inv(invs, s) && LegalMoves(invs, moves) && a < |invs| && Favoured(moves, a)
    requires !s.phases[a].Failed? && Run(invs, s, moves).phases[a].Failed?
    ensures Looks(invs, s, moves, a) == AttemptsLeft(s.phases[a])
    decreases |moves|
  {
    if moves != [] {
      var t := Advance(invs, s, moves[0]);
      AdvanceKeeps(invs, s, moves[0]);
      if t.phases[a].Failed? {
        LooksBounded(invs, t, moves[1..], a);
      } else {
        FailureUsesAll(invs, t, moves[1..], a);
        if t.phases[a].Claimed? || t.phases[a].Done? { ClaimLasts(invs, t, moves[1..], a); }
      }
      if !t.phases[a].Claimed? && !t.phases[a].Done? { FavouredStep(invs, s, moves[0], a); }
    }
  }

  /** A look takes one attempt, and nothing else does. */
  lemma FavouredStep(invs: seq<Invocation>, s: System, m: Move, a: nat)
    requires Inv(invs, s) && a < |invs| && !Advance(invs, s, m).phases[a].Claimed? && !Advance(invs, s, m).phases[a].Done?
    requires (m.id == a ==> (m.choice.Look? ==> m.choice.found.Some?) && (m.choice.AddRule? ==> m.choice.ok))
    ensures
      AttemptsLeft(Advance(invs, s, m).phases[a]) ==
      AttemptsLeft(s.phases[a]) - (if m.id == a && m.choice.Look? && s.phases[a].Seeking? then 1 else 0)
  {
    assert PhaseOk(invs[a], a, s.kernel, s.phases[a]);
  }

  /** An invocation whose looks find tables and whose rule is accepted gives up only after its tenth look. */
  lemma FailsAfterTen(invs: seq<Invocation>, s: System, moves: seq<Move>, a: nat)
    requires Initial(invs, s) && LegalMoves(invs, moves) && a < |invs| && Favoured(moves, a)
    requires Run(invs, s, moves).phases[a].Failed?
    ensures Looks(invs, s, moves, a) == 10
  {
    FailureUsesAll(invs, s, moves, a);
  }

  // ---- The first route guards the table ----

  /** Whoever has a route in a table has its first route there too. */
  ghost predicate FirstHeld(invs: seq<Invocation>, kernel: Kernel) {
    forall table, r :: (table, r) in kernel.routes && kernel.routes[(table, r)].Some? ==>
      var id := kernel.routes[(table, r)].value;
      && id < |invs| && invs[id].Order() != []
      && (table, invs[id].Order()[0]) in kernel.routes && kernel.routes[(table, invs[id].Order()[0])] == Some(id)
  }

  lemma AdvanceFirstHeld(invs: seq<Invocation>, s: System, m: Move)
    requires Inv(invs, s) && FirstHeld(invs, s.kernel)
    ensures FirstHeld(invs, Advance(invs, s, m).kernel)
  {
    if m.id < |invs| { assert PhaseOk(invs[m.id], m.id, s.kernel, s.phases[m.id]); }
  }

  lemma {:induction false} RunFirstHeld(invs: seq<Invocation>, s: System, moves: seq<Move>)
    requires Inv(invs, s) && LegalMoves(invs, moves) && FirstHeld(invs, s.kernel)
    ensures FirstHeld(invs, Run(invs, s, moves).kernel)
    decreases |moves|
  {
    if moves != [] {
      AdvanceKeeps(invs, s, moves[0]);
      AdvanceFirstHeld(invs, s, moves[0]);
      RunFirstHeld(invs, Advance(invs, s, moves[0]), moves[1..]);
    }
  }

  /** The least of the invocation's routes. */
  ghost predicate Least(inv: Invocation, first: string) {
    first in inv.routes && forall r :: r in inv.routes ==> AtMost(first, r)
  }

  lemma LeastIsFirst(inv: Invocation, first: string)
    requires Least(inv, first)
    ensures inv.Order() != [] && inv.Order()[0] == first
  {
    SortSpec(inv.routes);
    assert first in multiset(inv.Order());
    assert inv.Order()[0] in multiset(inv.routes);
    var j :| 0 <= j < |inv.Order()| && inv.Order()[j] == first;
    if j > 0 { AtMostAntisymmetric(inv.Order()[0], first); }
  }

  /**
   * Because routes are added in sorted order, invocations with a common least route never have routes in one table, not
   * even those that lose the race, at any moment of any interleaving.
   */
  lemma TablesNotShared(invs: seq<Invocation>, s: System, moves: seq<Move>, a: nat, b: nat, first: string, table: int, r: string, r': string)
    requires Initial(invs, s) && LegalMoves(invs, moves) && a < |invs| && b < |invs| && a != b
    requires Least(invs[a], first) && Least(invs[b], first)
    ensures
      var routes := Run(invs, s, moves).kernel.routes;
      (table, r) in routes && routes[(table, r)] == Some(a) ==> !((table, r') in routes && routes[(table, r')] == Some(b))
  {
    RunFirstHeld(invs, s, moves);
    LeastIsFirst(invs[a], first);
    LeastIsFirst(invs[b], first);
  }

  // ---- Without a common route, tables can be shared ----

  lemma {:induction false} RunConcat(invs: seq<Invocation>, s: System, a: seq<Move>, b: seq<Move>)
    requires |invs| == |s.phases|
    ensures Run(invs, s, a + b) == Run(invs, Run(invs, s, a), b)
    decreases |a|
  {
    if a == [] {
      assert a + b == b;
    } else {
      assert (a + b)[0] == a[0] && (a + b)[1..] == a[1..] + b;
      RunConcat(invs, Advance(invs, s, a[0]), a[1..], b);
    }
  }

  /** The routes of the order from `k` on, in the table. */
  ghost function Keys(order: seq<string>, table: int, k: nat): set<(int, string)> {
    set j | k <= j < |order| :: (table, order[j])
  }

  /** Left alone, an invocation adds its remaining routes to a table that has none of them. */
  lemma {:induction false} AddRest(invs: seq<Invocation>, s: System, id: nat, table: int, k: nat) returns (moves: seq<Move>)
    requires |invs| == |s.phases| && id < |invs| && NoDuplicates(invs[id].Order())
    requires k < |invs[id].Order()| && s.phases[id] == Adding(0, table, k)
    requires Keys(invs[id].Order(), table, k) !! s.kernel.routes.Keys
    ensures LegalMoves(invs, moves)
    ensures
      var t := Run(invs, s, moves);
      && t.phases == s.phases[id := Claimed(table)] && t.kernel.rules == s.kernel.rules
      && t.kernel.routes.Keys == s.kernel.routes.Keys + Keys(invs[id].Order(), table, k)
    decreases |invs[id].Order()| - k
  {
    var order := invs[id].Order();
    var m := Move(id, AddRoute(true));
    assert (table, order[k]) in Keys(order, table, k);
    var s' := Advance(invs, s, m);
    assert Run(invs, s, [m]) == s' by { assert Run(invs, s', []) == s'; }
    assert Keys(order, table, k) == {(table, order[k])} + Keys(order, table, k + 1);
    if k + 1 == |order| {
      moves := [m];
      assert Keys(order, table, k + 1) == {};
    } else {
      assert (table, order[k]) !in Keys(order, table, k + 1);
      var rest := AddRest(invs, s', id, table, k + 1);
      moves := [m] + rest;
      RunConcat(invs, s, [m], rest);
    }
  }

  /** Left alone from its first look on, an invocation claims the table it finds. */
  lemma ClaimAlone(invs: seq<Invocation>, s: System, id: nat) returns (moves: seq<Move>)
    requires |invs| == |s.phases| && id < |invs| && NoDuplicates(invs[id].Order())
    requires s.phases[id] == Seeking(0) && invs[id].tableStart < MAX_TABLE
    requires Keys(invs[id].Order(), invs[id].tableStart, 0) !! s.kernel.routes.Keys
    ensures LegalMoves(invs, moves)
    ensures
      var t := Run(invs, s, moves);
      && t.phases == s.phases[id := Claimed(invs[id].tableStart)] && t.kernel.rules == s.kernel.rules
      && t.kernel.routes.Keys == s.kernel.routes.Keys + Keys(invs[id].Order(), invs[id].tableStart, 0)
  {
    var table := invs[id].tableStart;
    var m := Move(id, Look(0, {}, Some(table)));
    var s' := Advance(invs, s, m);
    assert Run(invs, s, [m]) == s' by { assert Run(invs, s', []) == s'; }
    if invs[id].Order() == [] {
      moves := [m];
      assert Keys(invs[id].Order(), table, 0) == {};
    } else {
      var rest := AddRest(invs, s', id, table, 0);
      moves := [m] + rest;
      RunConcat(invs, s, [m], rest);
    }
  }

  ghost predicate Apart(a: seq<string>, b: seq<string>) {
    forall r :: r in a ==> r !in b
  }

  function FreshSystem(): System {
    System(Kernel(map[], []), [Seeking(0), Seeking(0)])
  }

  ghost predicate EndTogether(invs: seq<Invocation>, moves: seq<Move>)
    requires |invs| == 2
  {
    var t := Run(invs, FreshSystem(), moves);
    LegalMoves(invs, moves) && t.phases[0].Done? && t.phases[1].Done? && t.phases[0].table == t.phases[1].table
  }

  lemma KeysApart(a: Invocation, b: Invocation, table: int)
    requires Apart(a.routes, b.routes)
    ensures Keys(a.Order(), table, 0) !! Keys(b.Order(), table, 0)
  {
    SortSpec(a.routes);
    SortSpec(b.routes);
    forall i, j | 0 <= i < |a.Order()| && 0 <= j < |b.Order()| ensures a.Order()[i] != b.Order()[j] {
      assert a.Order()[i] in multiset(a.Order()) && b.Order()[j] in multiset(b.Order());
      assert a.Order()[i] in a.routes && b.Order()[j] in b.routes;
    }
  }

  lemma FinishBoth(invs: seq<Invocation>, s: System, table: int) returns (moves: seq<Move>)
    requires |invs| == 2 && s.phases == [Claimed(table), Claimed(table)]
    ensures LegalMoves(invs, moves) && Run(invs, s, moves).phases == [Done(table), Done(table)]
  {
    var m, n := Move(0, AddRule(true)), Move(1, AddRule(true));
    var s' := Advance(invs, s, m);
    var t := Advance(invs, s', n);
    moves := [m, n];
    assert moves[1..] == [n] && [n][1..] == [];
    assert Run(invs, s', [n]) == Run(invs, t, []) == t;
  }

  /** Two invocations without a common route can both succeed with one table. */
  lemma ShareTable(a: Invocation, b: Invocation) returns (moves: seq<Move>)
    requires NoDuplicates(a.routes) && NoDuplicates(b.routes) && Apart(a.routes, b.routes)
    requires a.tableStart == b.tableStart < MAX_TABLE
    ensures EndTogether([a, b], moves)
  {
    var invs, s, table := [a, b], FreshSystem(), a.tableStart;
    SortSpec(a.routes);
    SameMembers(a.Order(), a.routes);
    SortSpec(b.routes);
    SameMembers(b.Order(), b.routes);
    KeysApart(a, b, table);
    var first := ClaimAlone(invs, s, 0);
    var t := Run(invs, s, first);
    assert t.phases == [Claimed(table), Seeking(0)];
    var second := ClaimAlone(invs, t, 1);
    var u := Run(invs, t, second);
    assert u.phases == [Claimed(table), Claimed(table)];
    var third := FinishBoth(invs, u, table);
    moves := first + second + third;
    RunConcat(invs, s, first, second);
    RunConcat(invs, s, first + second, third);
  }

  /** Exclusion is exactly a matter of a common route. */
  lemma ExclusionExact(a: Invocation, b: Invocation)
    requires NoDuplicates(a.routes) && NoDuplicates(b.routes) && a.tableStart == b.tableStart < MAX_TABLE
    ensures (exists moves :: EndTogether([a, b], moves)) <==> Apart(a.routes, b.routes)
  {
    if Apart(a.routes, b.routes) {
      var moves := ShareTable(a, b);
    } else {
      var r :| r in a.routes && r in b.routes;
      forall moves ensures !EndTogether([a, b], moves) {
        if LegalMoves([a, b], moves) { MutualExclusion([a, b], FreshSystem(), moves, 0, 1, r); }
      }
    }
  }

  // ---- The code of one invocation ----

  function RunLocal(inv: Invocation, id: nat, l: Local, choices: seq<Choice>): Local {
    if choices == [] then l
    else
      var n := |choices| - 1;
      Step(inv, id, RunLocal(inv, id, l, choices[..n]), choices[n])
  }

  lemma RunLocalSnoc(inv: Invocation, id: nat, l: Local, choices: seq<Choice>, c: Choice)
    ensures RunLocal(inv, id, l, choices + [c]) == Step(inv, id, RunLocal(inv, id, l, choices), c)
  {
    assert (choices + [c])[..|choices|] == choices;
  }

  ghost predicate LegalChoices(inv: Invocation, choices: seq<Choice>) {
    forall i :: 0 <= i < |choices| ==> LegalChoice(inv, choices[i])
  }

  /** An attempt with this offset finds the table. */
  ghost predicate Finds(inv: Invocation, rules: seq<int>, offset: nat, found: Option<int>) {
    FirstFree((set t | t in rules), inv.tableStart + offset, found)
  }

  /** No route addition of the attempt fails by itself, and the table has none of the routes yet. */
  ghost predicate Admits(routes: Routes, order: seq<string>, table: int, fails: nat -> bool) {
    NoDuplicates(order) && forall k: nat :: k < |order| ==> !fails(k) && (table, order[k]) !in routes
  }

  /** Attempt i would succeed: it finds a table that admits the routes and that no earlier attempt has found. */
  ghost predicate Clean(inv: Invocation, rules: seq<int>, routes: Routes, offsets: seq<nat>, fails: (nat, nat) -> bool, i: nat)
    requires |offsets| == ATTEMPTS
  {
    && i < ATTEMPTS && (forall j :: 0 <= j < i ==> !Finds(inv, rules, offsets[j], None))
    && exists t ::
         && Finds(inv, rules, offsets[i], Some(t)) && Admits(routes, inv.Order(), t, (k: nat) => fails(i, k))
         && forall j :: 0 <= j < i ==> !Finds(inv, rules, offsets[j], Some(t))
  }

  class Host {
    var routes: Routes
    var rules: seq<int>

    ghost function View(): Kernel reads this {
      Kernel(routes, rules)
    }

    /** Adds the routes in order until one fails. */
    method AddRoutes(inv: Invocation, id: nat, attempt: nat, table: int, order: seq<string>, fails: nat -> bool,
                     ghost start: Local, ghost before: seq<Choice>) returns (ok: bool, ghost choices: seq<Choice>)
      requires order == inv.Order() && attempt < ATTEMPTS && LegalChoices(inv, before)
      requires RunLocal(inv, id, start, before) == Local(View(), Begin(order, attempt, table))
      modifies this`routes
      ensures LegalChoices(inv, choices)
      ensures RunLocal(inv, id, start, choices) == Local(View(), if ok then Claimed(table) else Retry(attempt))
      ensures ok <==> Admits(old(routes), order, table, fails)
      ensures forall t, r :: t != table ==> ((t, r) in routes <==> (t, r) in old(routes))
    {
      choices := before;
      var k := 0;
      while k < |order|
        invariant k <= |order| && LegalChoices(inv, choices) && rules == old(rules)
        invariant forall t, r :: (t, r) in routes <==> (t, r) in old(routes) || (t == table && r in order[..k])
        invariant Admits(old(routes), order[..k], table, fails)
        invariant RunLocal(inv, id, start, choices) == Local(View(), if k == |order| then Claimed(table) else Adding(attempt, table, k))
      {
        RunLocalSnoc(inv, id, start, choices, AddRoute(!fails(k)));
        choices := choices + [AddRoute(!fails(k))];
        if fails(k) || (table, order[k]) in routes {
          assert order[k] in order[..k] ==> !NoDuplicates(order);
          return false, choices;
        }
        assert order[..k + 1] == order[..k] + [order[k]];
        routes := routes[(table, order[k]) := Some(id)];
        k := k + 1;
      }
      assert order[..|order|] == order;
      return true, choices;
    }

    /** `offsets` are the random numbers of the attempts; `fails` says which route additions fail for other reasons. */
    method AddPolicyRules(inv: Invocation, id: nat, offsets: seq<nat>, fails: (nat, nat) -> bool, ruleOk: bool)
      returns (r: Option<int>, ghost choices: seq<Choice>)
      requires |offsets| == ATTEMPTS && forall i :: 0 <= i < ATTEMPTS ==> offsets[i] < 1000
      modifies this
      ensures LegalChoices(inv, choices)
      ensures RunLocal(inv, id, Local(old(View()), Seeking(0)), choices) == Local(View(), if r.Some? then Done(r.value) else Failed)
      ensures rules == if r.Some? then old(rules) + [r.value] else old(rules)
      ensures r.Some? ==> exists i :: 0 <= i < ATTEMPTS && Finds(inv, old(rules), offsets[i], r)
      ensures ruleOk && (exists i: nat :: Clean(inv, old(rules), old(routes), offsets, fails, i)) ==> r.Some?
      ensures ruleOk && Clean(inv, old(rules), old(routes), offsets, fails, 0) ==> Finds(inv, old(rules), offsets[0], r)
    {
      ghost var start := Local(View(), Seeking(0));
      var order := SortStrings(inv.routes);
      var table;
      table, choices := ClaimTable(inv, id, offsets, fails, order, start);
      if table.None? { return None, choices; }
      RunLocalSnoc(inv, id, start, choices, AddRule(ruleOk));
      choices := choices + [AddRule(ruleOk)];
      if !ruleOk { return None, choices; }
      rules := rules + [table.value];
      return table, choices;
    }

    /** One attempt: look for a free table and add the routes to it. */
    method Attempt(inv: Invocation, id: nat, attempt: nat, offset: nat, fails: nat -> bool, order: seq<string>,
                   ghost start: Local, ghost before: seq<Choice>)
      returns (found: Option<int>, added: bool, ghost choices: seq<Choice>)
      requires order == inv.Order() && attempt < ATTEMPTS && offset < 1000 && LegalChoices(inv, before)
      requires RunLocal(inv, id, start, before) == Local(View(), Seeking(attempt))
      modifies this`routes
      ensures LegalChoices(inv, choices)
      ensures Finds(inv, rules, offset, found) && (added <==> found.Some? && Admits(old(routes), order, found.value, fails))
      ensures forall t, r :: found != Some(t) ==> ((t, r) in routes <==> (t, r) in old(routes))
      ensures
        RunLocal(inv, id, start, choices) ==
        Local(View(), if found.None? then Failed else if added then Claimed(found.value) else Retry(attempt))
    {
      added := false;
      found := FindFreeTable(rules, rules, inv.tableStart + offset);
      assert (set t | t in rules) + (set t | t in rules) == set t | t in rules;
      ghost var look := Look(offset, (set t | t in rules) + (set t | t in rules), found);
      RunLocalSnoc(inv, id, start, before, look);
      choices := before + [look];
      if found.None? { return; }
      added, choices := AddRoutes(inv, id, attempt, found.value, order, fails, start, choices);
    }

    /** The retry loop: at most ten attempts. */
    method ClaimTable(inv: Invocation, id: nat, offsets: seq<nat>, fails: (nat, nat) -> bool, order: seq<string>, ghost start: Local)
      returns (table: Option<int>, ghost choices: seq<Choice>)
      requires order == inv.Order() && |offsets| == ATTEMPTS && forall i :: 0 <= i < ATTEMPTS ==> offsets[i] < 1000
      requires start == Local(View(), Seeking(0))
      modifies this`routes
      ensures table.Some? ==> exists i :: 0 <= i < ATTEMPTS && Finds(inv, rules, offsets[i], table)
      ensures (exists i: nat :: Clean(inv, rules, old(routes), offsets, fails, i)) ==> table.Some?
      ensures Clean(inv, rules, old(routes), offsets, fails, 0) ==> Finds(inv, rules, offsets[0], table)
      ensures LegalChoices(inv, choices)
      ensures RunLocal(inv, id, start, choices) == Local(View(), if table.Some? then Claimed(table.value) else Failed)
    {
      choices := [];
      table := None;
      var i: nat := 0;
      while i < ATTEMPTS && table.None?
        invariant i <= ATTEMPTS && LegalChoices(inv, choices)
        invariant table.Some? ==> exists j :: 0 <= j < ATTEMPTS && Finds(inv, rules, offsets[j], table)
        invariant forall t, r :: (t, r) in routes ==> (t, r) in old(routes) || exists j :: 0 <= j < i && Finds(inv, rules, offsets[j], Some(t))
        invariant table.None? ==> forall j: nat :: j < i ==> !Clean(inv, rules, old(routes), offsets, fails, j)
        invariant table.Some? && Clean(inv, rules, old(routes), offsets, fails, 0) ==> Finds(inv, rules, offsets[0], table)
        invariant
          RunLocal(inv, id, start, choices) ==
          Local(View(), if table.Some? then Claimed(table.value) else if i < ATTEMPTS then Seeking(i) else Failed)
        decreases ATTEMPTS - i
      {
        var attempt: nat := i;
        var found, added;
        found, added, choices := Attempt(inv, id, i, offsets[i], (k: nat) => fails(attempt, k), order, start, choices);
        if found.None? { return None, choices; }
        if added { table := found; }
        i := i + 1;
      }
    }
  }
}
