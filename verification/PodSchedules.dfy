/**
 * Any interleaving of pod programs: one goroutine per pod, every table command atomic.
 * A pod's view of the table follows its own program alone, and the rest of the table only ever moves
 * forward through the six idempotent commands of ensureBasicChain.
 */
module PodSchedules {
  import opened Sequences
  import opened Tables
  import opened PacketFilter
  import opened NetworkPolicies
  import opened PodSync

  datatype Thread = Thread(todo: seq<Op>, found: Option<Rule>)

  datatype System = System(chains: Chains, threads: map<Key, Thread>)

  type Programs = map<Key, seq<Op>>

  function Start(t: Chains, programs: Programs): System {
    System(t, map k | k in programs :: Thread(programs[k], None))
  }

  /** The goroutine of `key` executes its next command, if it has one. */
  function Advance(s: System, key: Key): System {
    if key in s.threads && s.threads[key].todo != [] then
      var th := s.threads[key];
      System(StepChains(s.chains, key, th.found, th.todo[0]),
             s.threads[key := Thread(th.todo[1..], StepFound(s.chains, key, th.found, th.todo[0]))])
    else s
  }

  function Run(s: System, schedule: seq<Key>): System
    decreases |schedule|
  {
    if schedule == [] then s else Run(Advance(s, schedule[0]), schedule[1..])
  }

  predicate Done(s: System) {
    forall k :: k in s.threads ==> s.threads[k].todo == []
  }

  /** A run that begins with the schedule and ends with all goroutines done leads from `t` to `u`. */
  ghost predicate Completes(t: Chains, programs: Programs, schedule: seq<Key>, u: Chains) {
    exists run :: schedule <= run && Done(Run(Start(t, programs), run)) && Run(Start(t, programs), run).chains == u
  }

  // ---- A pod's own run ----

  datatype ViewState = ViewState(view: PodView, found: Option<Rule>)

  /** The pod's program run on its view alone. */
  function RunView(v: PodView, key: Key, ops: seq<Op>): ViewState {
    if ops == [] then ViewState(v, None)
    else
      var s := RunView(v, key, ops[..|ops| - 1]);
      var op := ops[|ops| - 1];
      ViewState(StepView(s.view, key, s.found, op), ViewFound(s.view, s.found, op))
  }

  lemma RunViewStep(v: PodView, key: Key, ops: seq<Op>, n: nat)
    requires n < |ops|
    ensures
      var s := RunView(v, key, ops[..n]);
      RunView(v, key, ops[..n + 1]) == ViewState(StepView(s.view, key, s.found, ops[n]), ViewFound(s.view, s.found, ops[n]))
  {
    assert ops[..n + 1][..n] == ops[..n];
  }

  /** All jumps of a view lead to the pod. */
  ghost predicate OwnJumps(v: PodView, key: Key) {
    && (forall i :: 0 <= i < |v.ingress| ==> v.ingress[i].target == Jump(PodChain(key)))
    && (forall i :: 0 <= i < |v.egress| ==> v.egress[i].target == Jump(PodChain(key)))
  }

  lemma ViewOwnsJumps(t: Chains, key: Key)
    ensures OwnJumps(View(t, key), key)
  {
    forall r | r in View(t, key).ingress ensures r.target == Jump(PodChain(key)) { JumpsToMembers(Rules(t, Ingress), key, r); }
    forall r | r in View(t, key).egress ensures r.target == Jump(PodChain(key)) { JumpsToMembers(Rules(t, Egress), key, r); }
  }

  lemma {:induction false} RunViewOwns(v: PodView, key: Key, ops: seq<Op>)
    requires OwnJumps(v, key)
    ensures OwnJumps(RunView(v, key, ops).view, key)
    ensures RunView(v, key, ops).found.Some? ==> RunView(v, key, ops).found.value.target == Jump(PodChain(key))
  {
    if ops != [] {
      RunViewOwns(v, key, ops[..|ops| - 1]);
      var s := RunView(v, key, ops[..|ops| - 1]);
      StepViewOwns(s.view, key, s.found, ops[|ops| - 1]);
    }
  }

  lemma StepViewOwns(v: PodView, key: Key, found: Option<Rule>, op: Op)
    requires OwnJumps(v, key)
    ensures OwnJumps(StepView(v, key, found, op), key)
  {
    forall d: Direction, x ensures forall r :: r in RemoveFirst(v.Jumps(d), x) ==> r in v.Jumps(d) {
      forall r | r in RemoveFirst(v.Jumps(d), x) ensures r in v.Jumps(d) { RemoveFirstMembers(v.Jumps(d), x, r); }
    }
    var w := StepView(v, key, found, op);
    forall r, d: Direction | r in w.Jumps(d) ensures r.target == Jump(PodChain(key)) {
    }
    assert forall i :: 0 <= i < |w.ingress| ==> w.ingress[i] in w.Jumps(Inbound);
    assert forall i :: 0 <= i < |w.egress| ==> w.egress[i] in w.Jumps(Outbound);
  }

  // ---- The rest of the table ----

  /** The rest of the table after the first m commands of ensureBasicChain. */
  function RestAt(rest: Chains, m: nat): Chains {
    if m == 0 then rest else BasicStep(RestAt(rest, m - 1), m - 1)
  }

  predicate HasRule(t: Chains, c: Chain, r: Rule) { c in t && r in t[c] }

  /** The effect of the command is there. */
  predicate BasicDone(t: Chains, index: nat) {
    match index
    case 0 => Ingress in t
    case 1 => Egress in t
    case 2 => HasRule(t, Forward, Rule([], Jump(Ingress)))
    case 3 => HasRule(t, Forward, Rule([], Jump(Egress)))
    case 4 => HasRule(t, Output, Rule([], Jump(Ingress)))
    case 5 => HasRule(t, Input, Rule([], Jump(Egress)))
    case _ => true
  }

  lemma BasicDoes(t: Chains, index: nat)
    ensures BasicDone(BasicStep(t, index), index)
  {
  }

  lemma BasicStays(t: Chains, index: nat, other: nat)
    requires BasicDone(t, index)
    ensures BasicDone(BasicStep(t, other), index)
  {
  }

  lemma BasicIdle(t: Chains, index: nat)
    requires BasicDone(t, index)
    ensures BasicStep(t, index) == t
  {
  }

  lemma {:induction false} RestAtDone(rest: Chains, m: nat, index: nat)
    requires index < m
    ensures BasicDone(RestAt(rest, m), index)
  {
    if index == m - 1 {
      BasicDoes(RestAt(rest, m - 1), index);
    } else {
      RestAtDone(rest, m - 1, index);
      BasicStays(RestAt(rest, m - 1), index, m - 1);
    }
  }

  // ---- Programs as SyncPodChains writes them ----

  predicate HasBasics(ops: seq<Op>) {
    |ops| >= BASIC && ops[..BASIC] == BASICS
  }

  predicate WellFormed(ops: seq<Op>) {
    if HasBasics(ops) then forall i :: BASIC <= i < |ops| ==> !ops[i].Basic?
    else forall i :: 0 <= i < |ops| ==> !ops[i].Basic? && !ops[i].AddJump?
  }

  lemma ProgramWellFormed(pod: Pod, ps: seq<CompiledPolicy>)
    ensures WellFormed(Program(pod, ps))
    ensures HasBasics(Program(pod, ps)) <==> pod.ip.Some? && (Targeted(ps, pod, Inbound) || Targeted(ps, pod, Outbound))
  {
    var prog := Program(pod, ps);
    if pod.ip.Some? && (Targeted(ps, pod, Inbound) || Targeted(ps, pod, Outbound)) {
      assert prog[..BASIC] == BASICS;
    } else if prog != [] {
      assert !prog[0].Basic? && BASICS[0].Basic?;
      if |prog| >= BASIC { assert prog[..BASIC][0] == prog[0]; }
    }
  }

  // ---- The invariant of every interleaving ----

  /**
   * Thread k has executed pos[k] commands; its view is that of its own run so far, untouched pods keep their
   * views, and m commands of ensureBasicChain have taken effect.
   */
  ghost predicate Tracks(t: Chains, programs: Programs, s: System, pos: map<Key, nat>, m: nat) {
    && s.threads.Keys == programs.Keys == pos.Keys
    && m <= BASIC && Rest(s.chains) == RestAt(Rest(t), m)
    && (m > 0 ==> exists k :: k in programs && HasBasics(programs[k]))
    && (forall k {:trigger ThreadTracks(t, k, programs[k], s, pos[k], m)} :: k in programs ==> ThreadTracks(t, k, programs[k], s, pos[k], m))
    && forall k {:trigger View(s.chains, k)} :: k !in programs ==> View(s.chains, k) == View(t, k)
  }

  ghost predicate ThreadTracks(t: Chains, k: Key, ops: seq<Op>, s: System, n: nat, m: nat) {
    && k in s.threads && n <= |ops| && s.threads[k].todo == ops[n..]
    && ViewState(View(s.chains, k), s.threads[k].found) == RunView(View(t, k), k, ops[..n])
    && (HasBasics(ops) ==> n <= m || m == BASIC)
  }

  lemma StartTracks(t: Chains, programs: Programs)
    ensures Tracks(t, programs, Start(t, programs), map k | k in programs :: 0, 0)
  {
    var s := Start(t, programs);
    forall k | k in programs ensures ThreadTracks(t, k, programs[k], s, 0, 0) {
      assert programs[k][..0] == [] && programs[k][0..] == programs[k];
    }
  }

  lemma RestAdvances(rest: Chains, ops: seq<Op>, n: nat, m: nat) returns (m': nat)
    requires WellFormed(ops) && n < |ops| && m <= BASIC && (HasBasics(ops) ==> n <= m || m == BASIC)
    ensures m <= m' <= BASIC && StepRest(RestAt(rest, m), ops[n]) == RestAt(rest, m')
    ensures HasBasics(ops) ==> n + 1 <= m' || m' == BASIC
    ensures m' > m ==> HasBasics(ops)
  {
    m' := m;
    if ops[n].Basic? {
      assert HasBasics(ops) && n < BASIC;
      assert ops[n] == ops[..BASIC][n] == BASICS[n] == Basic(n);
      if n < m {
        RestAtDone(rest, m, n);
        BasicIdle(RestAt(rest, m), n);
      } else {
        m' := m + 1;
      }
    } else {
      assert HasBasics(ops) ==> BASIC <= n;
      if ops[n].AddJump? {
        RestAtDone(rest, m, 0);
        RestAtDone(rest, m, 1);
      }
    }
  }

  /** A step of one goroutine leaves all other goroutines and views alone. */
  lemma AdvanceLeaves(s: System, key: Key, k: Key)
    requires k != key && key in s.threads && s.threads[key].todo != []
    requires s.threads[key].found.Some? ==> s.threads[key].found.value.target == Jump(PodChain(key))
    ensures
      var u := Advance(s, key);
      && View(u.chains, k) == View(s.chains, k)
      && (k in u.threads <==> k in s.threads) && (k in s.threads ==> u.threads[k] == s.threads[k])
      && Rest(u.chains) == StepRest(Rest(s.chains), s.threads[key].todo[0])
  {
    StepOwn(s.chains, key, k, s.threads[key].found, s.threads[key].todo[0]);
  }

  lemma AdvanceOwn(t: Chains, key: Key, ops: seq<Op>, s: System, n: nat, m: nat, m': nat)
    requires ThreadTracks(t, key, ops, s, n, m) && n < |ops| && (HasBasics(ops) ==> n + 1 <= m' || m' == BASIC)
    ensures ThreadTracks(t, key, ops, Advance(s, key), n + 1, m')
    ensures s.threads[key].found.Some? ==> s.threads[key].found.value.target == Jump(PodChain(key))
  {
    var th := s.threads[key];
    assert th.todo[0] == ops[n] && th.todo[1..] == ops[n + 1..];
    ViewOwnsJumps(t, key);
    RunViewOwns(View(t, key), key, ops[..n]);
    RunViewStep(View(t, key), key, ops, n);
    StepOwn(s.chains, key, OtherKey(key), th.found, ops[n]);
  }

  function OtherKey(key: Key): (other: Key)
    ensures other != key
  {
    assert |key.name + "x"| != |key.name|;
    Key(key.name + "x", key.namespace)
  }

  /** While one thread steps, the others stay on track. */
  lemma OthersTrack(t: Chains, programs: Programs, s: System, pos: map<Key, nat>, m: nat, m': nat, key: Key)
    requires Tracks(t, programs, s, pos, m) && m <= m' <= BASIC && key in s.threads && s.threads[key].todo != []
    requires s.threads[key].found.Some? ==> s.threads[key].found.value.target == Jump(PodChain(key))
    ensures forall k {:trigger ThreadTracks(t, k, programs[k], Advance(s, key), pos[k], m')} ::
      k in programs && k != key ==> ThreadTracks(t, k, programs[k], Advance(s, key), pos[k], m')
    ensures forall k {:trigger View(Advance(s, key).chains, k)} :: k !in programs ==> View(Advance(s, key).chains, k) == View(t, k)
  {
    forall k | k in programs && k != key ensures ThreadTracks(t, k, programs[k], Advance(s, key), pos[k], m') {
      OtherTracks(t, k, programs[k], s, pos[k], m, m', key);
    }
    forall k | k !in programs ensures View(Advance(s, key).chains, k) == View(t, k) { AdvanceLeaves(s, key, k); }
  }

  lemma AdvanceRest(t: Chains, ops: seq<Op>, s: System, n: nat, m: nat, m': nat, key: Key)
    requires ThreadTracks(t, key, ops, s, n, m) && n < |ops| && Rest(s.chains) == RestAt(Rest(t), m)
    requires StepRest(RestAt(Rest(t), m), ops[n]) == RestAt(Rest(t), m')
    requires s.threads[key].found.Some? ==> s.threads[key].found.value.target == Jump(PodChain(key))
    ensures Rest(Advance(s, key).chains) == RestAt(Rest(t), m') && Advance(s, key).threads.Keys == s.threads.Keys
  {
    AdvanceLeaves(s, key, OtherKey(key));
  }

  /** All threads are on track, the thread of `key` at `n` and the others where `pos` says. */
  ghost predicate TracksAt(t: Chains, programs: Programs, u: System, pos: map<Key, nat>, n: nat, m: nat, key: Key) {
    && u.threads.Keys == programs.Keys == pos.Keys && key in programs
    && m <= BASIC && Rest(u.chains) == RestAt(Rest(t), m) && (m > 0 ==> exists k :: k in programs && HasBasics(programs[k]))
    && ThreadTracks(t, key, programs[key], u, n, m)
    && (forall k {:trigger ThreadTracks(t, k, programs[k], u, pos[k], m)} :: k in programs && k != key ==> ThreadTracks(t, k, programs[k], u, pos[k], m))
    && forall k {:trigger View(u.chains, k)} :: k !in programs ==> View(u.chains, k) == View(t, k)
  }

  lemma TracksFrom(t: Chains, programs: Programs, u: System, pos: map<Key, nat>, n: nat, m: nat, key: Key)
    requires TracksAt(t, programs, u, pos, n, m, key)
    ensures Tracks(t, programs, u, pos[key := n], m)
  {
    var at := pos[key := n];
    forall k | k in programs ensures ThreadTracks(t, k, programs[k], u, at[k], m) {
      if k != key { assert ThreadTracks(t, k, programs[k], u, pos[k], m); }
    }
  }

  /** How far the basic commands have got after the next step of the thread. */
  lemma BasicsAdvance(t: Chains, programs: Programs, s: System, pos: map<Key, nat>, m: nat, key: Key) returns (m': nat)
    requires key in programs && WellFormed(programs[key]) && Tracks(t, programs, s, pos, m) && pos[key] < |programs[key]|
    ensures m <= m' <= BASIC && StepRest(RestAt(Rest(t), m), programs[key][pos[key]]) == RestAt(Rest(t), m')
    ensures HasBasics(programs[key]) ==> pos[key] + 1 <= m' || m' == BASIC
    ensures m' > 0 ==> exists k :: k in programs && HasBasics(programs[k])
  {
    assert ThreadTracks(t, key, programs[key], s, pos[key], m);
    m' := RestAdvances(Rest(t), programs[key], pos[key], m);
  }

  lemma StepTracksAt(t: Chains, programs: Programs, s: System, pos: map<Key, nat>, m: nat, m': nat, key: Key)
    requires key in programs && Tracks(t, programs, s, pos, m) && pos[key] < |programs[key]| && m <= m' <= BASIC
    requires StepRest(RestAt(Rest(t), m), programs[key][pos[key]]) == RestAt(Rest(t), m')
    requires HasBasics(programs[key]) ==> pos[key] + 1 <= m' || m' == BASIC
    requires m' > 0 ==> exists k :: k in programs && HasBasics(programs[k])
    ensures TracksAt(t, programs, Advance(s, key), pos, pos[key] + 1, m', key)
  {
    var ops, n := programs[key], pos[key];
    assert ThreadTracks(t, key, ops, s, n, m);
    AdvanceOwn(t, key, ops, s, n, m, m');
    AdvanceRest(t, ops, s, n, m, m', key);
    OthersTrack(t, programs, s, pos, m, m', key);
  }

  lemma TracksAdvance(t: Chains, programs: Programs, s: System, pos: map<Key, nat>, m: nat, key: Key)
    returns (pos': map<Key, nat>, m': nat)
    requires forall k :: k in programs ==> WellFormed(programs[k])
    requires Tracks(t, programs, s, pos, m)
    ensures Tracks(t, programs, Advance(s, key), pos', m')
    ensures m <= m'
  {
    pos', m' := pos, m;
    if key in s.threads && s.threads[key].todo != [] {
      assert ThreadTracks(t, key, programs[key], s, pos[key], m);
      m' := BasicsAdvance(t, programs, s, pos, m, key);
      pos' := pos[key := pos[key] + 1];
      StepTracksAt(t, programs, s, pos, m, m', key);
      TracksFrom(t, programs, Advance(s, key), pos, pos[key] + 1, m', key);
    }
  }

  lemma OtherTracks(t: Chains, k: Key, ops: seq<Op>, s: System, n: nat, m: nat, m': nat, key: Key)
    requires ThreadTracks(t, k, ops, s, n, m) && k != key && m <= m' <= BASIC && key in s.threads && s.threads[key].todo != []
    requires s.threads[key].found.Some? ==> s.threads[key].found.value.target == Jump(PodChain(key))
    ensures ThreadTracks(t, k, ops, Advance(s, key), n, m')
  {
    AdvanceLeaves(s, key, k);
  }

  lemma {:induction false} RunTracks(t: Chains, programs: Programs, s: System, pos: map<Key, nat>, m: nat, schedule: seq<Key>)
    returns (pos': map<Key, nat>, m': nat)
    requires forall k :: k in programs ==> WellFormed(programs[k])
    requires Tracks(t, programs, s, pos, m)
    ensures Tracks(t, programs, Run(s, schedule), pos', m')
    decreases |schedule|
  {
    pos', m' := pos, m;
    if schedule != [] {
      pos', m' := TracksAdvance(t, programs, s, pos, m, schedule[0]);
      pos', m' := RunTracks(t, programs, Advance(s, schedule[0]), pos', m', schedule[1..]);
    }
  }

  // ---- Confluence ----

  ghost predicate AnyBasics(programs: Programs) {
    exists k :: k in programs && HasBasics(programs[k])
  }

  /** Where every complete interleaving ends: each pod as if it had run alone. */
  ghost predicate Ends(t: Chains, programs: Programs, u: Chains) {
    && Rest(u) == RestAt(Rest(t), if AnyBasics(programs) then BASIC else 0)
    && (forall k :: k in programs ==> View(u, k) == RunView(View(t, k), k, programs[k]).view)
    && forall k :: k !in programs ==> View(u, k) == View(t, k)
  }

  lemma TracksDone(t: Chains, programs: Programs, s: System, pos: map<Key, nat>, m: nat)
    requires Tracks(t, programs, s, pos, m) && Done(s)
    ensures Ends(t, programs, s.chains)
  {
    forall k | k in programs
      ensures View(s.chains, k) == RunView(View(t, k), k, programs[k]).view && (HasBasics(programs[k]) ==> m == BASIC)
    {
      assert ThreadTracks(t, k, programs[k], s, pos[k], m);
      assert pos[k] == |programs[k]| && programs[k][..|programs[k]|] == programs[k];
    }
  }

  lemma CompleteRun(t: Chains, programs: Programs, schedule: seq<Key>)
    requires forall k :: k in programs ==> WellFormed(programs[k])
    requires Done(Run(Start(t, programs), schedule))
    ensures Ends(t, programs, Run(Start(t, programs), schedule).chains)
  {
    StartTracks(t, programs);
    var pos, m := RunTracks(t, programs, Start(t, programs), map k | k in programs :: 0, 0, schedule);
    TracksDone(t, programs, Run(Start(t, programs), schedule), pos, m);
  }

  /** The same chains with the same rules; only the jumps of different pods may be ordered differently. */
  ghost predicate SameUpToJumpOrder(a: Chains, b: Chains) {
    && a.Keys == b.Keys
    && forall c :: c in a ==>
         if c == Ingress || c == Egress then
           && multiset(a[c]) == multiset(b[c])
           && WithoutPodJumps(a[c]) == WithoutPodJumps(b[c])
           && forall k :: JumpsTo(a[c], k) == JumpsTo(b[c], k)
         else a[c] == b[c]
  }

  lemma {:induction false} FilterCounts(rules: seq<Rule>, r: Rule)
    ensures LeadsToPod(r) ==> multiset(rules)[r] == multiset(JumpsTo(rules, r.target.chain.pod))[r]
    ensures !LeadsToPod(r) ==> multiset(rules)[r] == multiset(WithoutPodJumps(rules))[r]
  {
    if rules != [] {
      FilterCounts(rules[1..], r);
      assert rules == [rules[0]] + rules[1..];
    }
  }

  lemma SameFilters(a: seq<Rule>, b: seq<Rule>)
    requires WithoutPodJumps(a) == WithoutPodJumps(b) && forall k :: JumpsTo(a, k) == JumpsTo(b, k)
    ensures multiset(a) == multiset(b)
  {
    forall r: Rule ensures multiset(a)[r] == multiset(b)[r] {
      FilterCounts(a, r);
      FilterCounts(b, r);
    }
  }

  lemma SameParts(a: Chains, b: Chains)
    requires Rest(a) == Rest(b) && forall k :: View(a, k) == View(b, k)
    ensures SameUpToJumpOrder(a, b)
  {
    forall c ensures c in a <==> c in b {
      if c.PodChain? { assert View(a, c.pod) == View(b, c.pod); }
      else { assert c in Rest(a) <==> c in Rest(b); }
    }
    forall c | c in a && c != Ingress && c != Egress ensures a[c] == b[c] {
      if c.PodChain? { assert View(a, c.pod) == View(b, c.pod); }
      else { assert Rest(a)[c] == Rest(b)[c]; }
    }
    forall c | c in a && (c == Ingress || c == Egress)
      ensures WithoutPodJumps(a[c]) == WithoutPodJumps(b[c]) && forall k :: JumpsTo(a[c], k) == JumpsTo(b[c], k)
      ensures multiset(a[c]) == multiset(b[c])
    {
      assert Rest(a)[c] == Rest(b)[c];
      forall k ensures JumpsTo(a[c], k) == JumpsTo(b[c], k) { assert View(a, k) == View(b, k); }
      SameFilters(a[c], b[c]);
    }
  }

  /**
   * Every interleaving of the pod goroutines that lets all of them finish ends with the same chains and
   * the same rules, up to the order of jumps of different pods in GLX-INGRESS and GLX-EGRESS.
   */
  lemma Confluence(t: Chains, programs: Programs, one: seq<Key>, two: seq<Key>)
    requires forall k :: k in programs ==> WellFormed(programs[k])
    requires Done(Run(Start(t, programs), one)) && Done(Run(Start(t, programs), two))
    ensures SameUpToJumpOrder(Run(Start(t, programs), one).chains, Run(Start(t, programs), two).chains)
  {
    CompleteRun(t, programs, one);
    CompleteRun(t, programs, two);
    var a, b := Run(Start(t, programs), one).chains, Run(Start(t, programs), two).chains;
    forall k ensures View(a, k) == View(b, k) { if k in programs {} }
    SameParts(a, b);
  }

  /** Rules `e` are found before rules `f` in the list. */
  ghost predicate Precedes(rules: seq<Rule>, e: Rule, f: Rule) {
    forall i :: 0 <= i < |rules| && rules[i] == f ==> e in rules[..i]
  }

  /** Once the jump to GLX-EGRESS is in FORWARD, a jump to GLX-INGRESS is there too, and none comes before it. */
  ghost predicate EgressLeads(t: Chains) {
    var e, f := Rule([], Jump(Egress)), Rule([], Jump(Ingress));
    e in Rules(t, Forward) ==> f in Rules(t, Forward) && Precedes(Rules(t, Forward), e, f)
  }

  lemma EgressStaysFirst(t: Chains, programs: Programs, schedule: seq<Key>)
    requires forall k :: k in programs ==> WellFormed(programs[k])
    requires EgressLeads(t)
    ensures EgressLeads(Run(Start(t, programs), schedule).chains)
  {
    StartTracks(t, programs);
    var pos, m := RunTracks(t, programs, Start(t, programs), map k | k in programs :: 0, 0, schedule);
    var u := Run(Start(t, programs), schedule).chains;
    assert Rules(u, Forward) == Rules(Rest(u), Forward) && Rules(t, Forward) == Rules(Rest(t), Forward);
    ForwardAt(Rest(t), m);
    ForwardOrdered(Rules(t, Forward), m, Rules(Rest(u), Forward));
  }

  lemma EmptyRun(t: Chains, programs: Programs)
    ensures Run(Start(t, programs), []).chains == t
  {
  }

  /** GLX-EGRESS leads in FORWARD at every moment of every interleaving. */
  ghost predicate EgressAlwaysLeads(t: Chains, programs: Programs) {
    forall schedule {:trigger Run(Start(t, programs), schedule)} :: EgressLeads(Run(Start(t, programs), schedule).chains)
  }

  /** It does so if and only if it does at the start. */
  lemma EgressFirst(t: Chains, programs: Programs)
    requires forall k :: k in programs ==> WellFormed(programs[k])
    ensures EgressAlwaysLeads(t, programs) <==> EgressLeads(t)
  {
    if EgressLeads(t) {
      forall schedule ensures EgressLeads(Run(Start(t, programs), schedule).chains) {
        EgressStaysFirst(t, programs, schedule);
      }
    }
    if EgressAlwaysLeads(t, programs) {
      EmptyRun(t, programs);
      assert EgressLeads(Run(Start(t, programs), []).chains);
    }
  }

  lemma ForwardOrdered(old': seq<Rule>, m: nat, new': seq<Rule>)
    requires
      var e, f := Rule([], Jump(Egress)), Rule([], Jump(Ingress));
      var mid := if f in old' then old' else [f] + old';
      && new' == (if m <= 2 then old' else if m == 3 then mid else if e in mid then mid else [e] + mid)
      && (e in old' ==> f in old' && Precedes(old', e, f))
    ensures
      var e, f := Rule([], Jump(Egress)), Rule([], Jump(Ingress));
      e in new' ==> f in new' && Precedes(new', e, f)
  {
    var e, f := Rule([], Jump(Egress)), Rule([], Jump(Ingress));
    if e !in old' && e in new' {
      var mid := if f in old' then old' else [f] + old';
      assert new' == [e] + mid && f in mid;
      assert forall i :: 0 < i < |new'| ==> new'[..i][0] == e;
    }
  }

  /** How FORWARD grows with the six commands. */
  lemma ForwardAt(rest: Chains, m: nat)
    requires m <= BASIC
    ensures
      var old', new' := Rules(rest, Forward), Rules(RestAt(rest, m), Forward);
      var e, f := Rule([], Jump(Egress)), Rule([], Jump(Ingress));
      var mid := if f in old' then old' else [f] + old';
      new' == if m <= 2 then old' else if m == 3 then mid else if e in mid then mid else [e] + mid
  {
    if m == 1 {
      assert RestAt(rest, 1) == BasicStep(RestAt(rest, 0), 0);
    } else if m >= 2 {
      ForwardAt(rest, m - 1);
    }
  }

  // ---- One pod alone ----

  datatype SoloState = SoloState(chains: Chains, found: Option<Rule>)

  /** The pod's commands executed one after the other with nobody else at work. */
  function Solo(t: Chains, key: Key, ops: seq<Op>): SoloState {
    if ops == [] then SoloState(t, None)
    else
      var s := Solo(t, key, ops[..|ops| - 1]);
      var op := ops[|ops| - 1];
      SoloState(StepChains(s.chains, key, s.found, op), StepFound(s.chains, key, s.found, op))
  }

  lemma SoloStep(t: Chains, key: Key, ops: seq<Op>, n: nat)
    requires n < |ops|
    ensures
      var s := Solo(t, key, ops[..n]);
      Solo(t, key, ops[..n + 1]) == SoloState(StepChains(s.chains, key, s.found, ops[n]), StepFound(s.chains, key, s.found, ops[n]))
  {
    assert ops[..n + 1][..n] == ops[..n];
  }

  lemma {:induction false} RunSnoc(s: System, schedule: seq<Key>, key: Key)
    ensures Run(s, schedule + [key]) == Advance(Run(s, schedule), key)
    decreases |schedule|
  {
    if schedule == [] {
      assert schedule + [key] == [key];
      assert Run(s, [key]) == Run(Advance(s, key), [key][1..]);
    } else {
      assert (schedule + [key])[1..] == schedule[1..] + [key];
      RunSnoc(Advance(s, schedule[0]), schedule[1..], key);
    }
  }

  function Times(key: Key, n: nat): seq<Key> { seq(n, _ => key) }

  lemma {:induction false} SoloIsRun(t: Chains, key: Key, ops: seq<Op>, n: nat)
    requires n <= |ops|
    ensures
      var s := Solo(t, key, ops[..n]);
      Run(Start(t, map[key := ops]), Times(key, n)) == System(s.chains, map[key := Thread(ops[n..], s.found)])
  {
    if n == 0 {
      assert ops[..0] == [] && ops[0..] == ops;
    } else {
      SoloIsRun(t, key, ops, n - 1);
      SoloStep(t, key, ops, n - 1);
      RunSnoc(Start(t, map[key := ops]), Times(key, n - 1), key);
      assert Times(key, n) == Times(key, n - 1) + [key];
      var s := Solo(t, key, ops[..n - 1]);
      AdvanceOnly(s.chains, key, ops, n - 1, s.found);
    }
  }

  lemma AdvanceOnly(chains: Chains, key: Key, ops: seq<Op>, n: nat, found: Option<Rule>)
    requires n < |ops|
    ensures
      Advance(System(chains, map[key := Thread(ops[n..], found)]), key) ==
      System(StepChains(chains, key, found, ops[n]), map[key := Thread(ops[n + 1..], StepFound(chains, key, found, ops[n]))])
  {
    assert ops[n..][0] == ops[n] && ops[n..][1..] == ops[n + 1..];
    var threads := map[key := Thread(ops[n..], found)];
    assert threads[key := Thread(ops[n + 1..], StepFound(chains, key, found, ops[n]))] ==
      map[key := Thread(ops[n + 1..], StepFound(chains, key, found, ops[n]))];
  }
}
