/** The scheduler plugin: queue order, filter, score and normalization of pkg/scheduling. */
module Scheduling {
  import opened Sequences
  import opened Sorting

  const MAX_ENIS := 16
  const MAX_IPS := 20
  const MAX_NODE_SCORE := 100

  // ---- Queue order ----

  datatype QueuedPod = QueuedPod(priority: int, time: int, namespace: string, name: string)

  predicate Below(a: string, b: string) {
    AtMost(a, b) && a != b
  }

  /** The key of the second pod takes the name of the first. */
  predicate Less(p: QueuedPod, q: QueuedPod) {
    if p.priority != q.priority then p.priority > q.priority
    else if p.time != q.time then p.time < q.time
    else Below(p.namespace + "/" + p.name, q.namespace + "/" + p.name)
  }

  ghost predicate SlashFree(p: QueuedPod) {
    '/' !in p.namespace
  }

  lemma {:induction false} AtMostTail(a: string, b: string, tail: string)
    requires '/' !in a && '/' !in b
    ensures AtMost(a + "/" + tail, b + "/" + tail) <==> AtMost(a + "/", b + "/")
    decreases |a|
  {
    var x, y := a + "/" + tail, b + "/" + tail;
    if a != "" && b != "" {
      assert x[1..] == a[1..] + "/" + tail && y[1..] == b[1..] + "/" + tail;
      assert (a + "/")[1..] == a[1..] + "/" && (b + "/")[1..] == b[1..] + "/";
      AtMostTail(a[1..], b[1..], tail);
    } else if a == "" && b == "" {
      AtMostReflexive(x);
      AtMostReflexive("/");
    } else if a == "" {
      assert b[0] in b && y[0] == b[0] != x[0];
    } else {
      assert a[0] in a && x[0] == a[0] != y[0];
    }
  }

  lemma SameKey(a: string, b: string, tail: string)
    ensures a + tail == b + tail <==> a == b
  {
    if a + tail == b + tail {
      assert |a| == |b|;
      assert a == (a + tail)[..|a|] && b == (b + tail)[..|b|];
    }
  }

  predicate NamespaceBelow(a: string, b: string) {
    Below(a + "/", b + "/")
  }

  /** The pods' names do not matter: the queue is ordered by priority, then time, then namespace. */
  lemma LessIgnoresNames(p: QueuedPod, q: QueuedPod)
    requires SlashFree(p) && SlashFree(q)
    ensures
      Less(p, q) <==>
        || p.priority > q.priority
        || (p.priority == q.priority && p.time < q.time)
        || (p.priority == q.priority && p.time == q.time && NamespaceBelow(p.namespace, q.namespace))
  {
    AtMostTail(p.namespace, q.namespace, p.name);
    SameKey(p.namespace, q.namespace, "/");
    assert p.namespace + "/" + p.name == p.namespace + ("/" + p.name);
    assert q.namespace + "/" + p.name == q.namespace + ("/" + p.name);
    SameKey(p.namespace, q.namespace, "/" + p.name);
  }

  lemma LessIrreflexive(p: QueuedPod)
    ensures !Less(p, p)
  {
  }

  lemma NamespaceTransitive(a: string, b: string, c: string)
    requires NamespaceBelow(a, b) && NamespaceBelow(b, c)
    ensures NamespaceBelow(a, c)
  {
    AtMostTransitive(a + "/", b + "/", c + "/");
    if a + "/" == c + "/" { AtMostAntisymmetric(a + "/", b + "/"); }
  }

  lemma LessTransitive(p: QueuedPod, q: QueuedPod, r: QueuedPod)
    requires SlashFree(p) && SlashFree(q) && SlashFree(r) && Less(p, q) && Less(q, r)
    ensures Less(p, r)
  {
    LessIgnoresNames(p, q);
    LessIgnoresNames(q, r);
    LessIgnoresNames(p, r);
    if NamespaceBelow(p.namespace, q.namespace) && NamespaceBelow(q.namespace, r.namespace) {
      NamespaceTransitive(p.namespace, q.namespace, r.namespace);
    }
  }

  lemma LessAsymmetric(p: QueuedPod, q: QueuedPod)
    requires SlashFree(p) && SlashFree(q) && Less(p, q)
    ensures !Less(q, p)
  {
    if Less(q, p) {
      LessTransitive(p, q, p);
      LessIrreflexive(p);
    }
  }

  ghost predicate Tied(p: QueuedPod, q: QueuedPod) {
    !Less(p, q) && !Less(q, p)
  }

  /** Two pods tie exactly when priority, timestamp and namespace agree; so ties are transitive. */
  lemma TiesExactly(p: QueuedPod, q: QueuedPod)
    requires SlashFree(p) && SlashFree(q)
    ensures Tied(p, q) <==> p.priority == q.priority && p.time == q.time && p.namespace == q.namespace
  {
    LessIgnoresNames(p, q);
    LessIgnoresNames(q, p);
    AtMostTotal(p.namespace + "/", q.namespace + "/");
    SameKey(p.namespace, q.namespace, "/");
  }

  lemma TiesTransitive(p: QueuedPod, q: QueuedPod, r: QueuedPod)
    requires SlashFree(p) && SlashFree(q) && SlashFree(r) && Tied(p, q) && Tied(q, r)
    ensures Tied(p, r)
  {
    TiesExactly(p, q);
    TiesExactly(q, r);
    TiesExactly(p, r);
  }

  // ---- Filter, collection and score ----

  datatype Counts = Counts(enis: int, ips: int)

  datatype Node = Node(name: string, internalIP: Option<string>)

  /** What the compute service answers for an instance's address; None is an error. */
  type Service = string -> Option<Counts>

  datatype Data = Data(ints: int, ips: int)

  type CycleState = map<string, Data>

  predicate Filter(service: Service, node: Node) {
    && node.internalIP.Some?
    && var c := service(node.internalIP.value);
       c.Some? && c.value.enis < MAX_ENIS && c.value.ips < MAX_IPS
  }

  /** The limits are crossed over: the limit of addresses counts the interfaces, and the other way round. */
  function DataOf(c: Counts): Data {
    Data(MAX_IPS - c.enis, MAX_ENIS - c.ips)
  }

  /** CollectNodeIntsAndIps: a node without address or counts leaves the state alone. */
  function Collect(service: Service, state: CycleState, node: Node): CycleState {
    if node.internalIP.None? || service(node.internalIP.value).None? then state
    else state[node.internalIP.value := DataOf(service(node.internalIP.value).value)]
  }

  /** The workers take the nodes off the channel one by one; their writes come in some order. */
  method ParallelCollection(service: Service, before: CycleState, order: seq<Node>) returns (state: CycleState, failed: bool)
    ensures state == CollectAll(service, before, order)
    ensures failed <==> exists node :: node in order && (node.internalIP.None? || service(node.internalIP.value).None?)
  {
    state, failed := before, false;
    for i := 0 to |order|
      invariant CollectAll(service, before, order) == CollectAll(service, state, order[i..])
      invariant failed <==> exists node :: node in order[..i] && (node.internalIP.None? || service(node.internalIP.value).None?)
    {
      assert order[i..][1..] == order[i + 1..] && order[..i + 1] == order[..i] + [order[i]];
      if order[i].internalIP.None? || service(order[i].internalIP.value).None? { failed := true; }
      state := Collect(service, state, order[i]);
    }
    assert order[..|order|] == order;
  }

  function CollectAll(service: Service, state: CycleState, order: seq<Node>): CycleState
    decreases |order|
  {
    if order == [] then state else CollectAll(service, Collect(service, state, order[0]), order[1..])
  }

  lemma {:induction false} CollectAllSpec(service: Service, state: CycleState, order: seq<Node>, ip: string)
    ensures
      var after := CollectAll(service, state, order);
      var written := exists i :: 0 <= i < |order| && order[i].internalIP == Some(ip) && service(ip).Some?;
      && (ip in after <==> ip in state || written)
      && (ip in after ==> after[ip] == if written then DataOf(service(ip).value) else state[ip])
    decreases |order|
  {
    if order != [] {
      CollectAllSpec(service, Collect(service, state, order[0]), order[1..], ip);
      if i :| 0 <= i < |order| && order[i].internalIP == Some(ip) && service(ip).Some? {
        if i > 0 { assert order[1..][i - 1] == order[i]; }
      }
      if i :| 0 <= i < |order[1..]| && order[1..][i].internalIP == Some(ip) && service(ip).Some? {
        assert order[i + 1].internalIP == Some(ip);
      }
    }
  }

  /** The order in which the workers write does not matter. */
  lemma CollectionConfluent(service: Service, state: CycleState, a: seq<Node>, b: seq<Node>)
    requires multiset(a) == multiset(b)
    ensures CollectAll(service, state, a) == CollectAll(service, state, b)
  {
    var s, t := CollectAll(service, state, a), CollectAll(service, state, b);
    forall ip ensures (ip in s <==> ip in t) && (ip in s ==> s[ip] == t[ip]) {
      CollectAllSpec(service, state, a, ip);
      CollectAllSpec(service, state, b, ip);
      SameWrites(a, b, ip);
    }
  }

  lemma SameWrites(a: seq<Node>, b: seq<Node>, ip: string)
    requires multiset(a) == multiset(b)
    ensures (exists i :: 0 <= i < |a| && a[i].internalIP == Some(ip)) <==> (exists i :: 0 <= i < |b| && b[i].internalIP == Some(ip))
  {
    if i :| 0 <= i < |a| && a[i].internalIP == Some(ip) {
      assert a[i] in multiset(b);
      var j :| 0 <= j < |b| && b[j] == a[i];
    }
    if i :| 0 <= i < |b| && b[i].internalIP == Some(ip) {
      assert b[i] in multiset(a);
      var j :| 0 <= j < |a| && a[j] == b[i];
    }
  }

  function Score(state: CycleState, node: Node): Option<int> {
    if node.internalIP.None? || node.internalIP.value !in state then None
    else
      var d := state[node.internalIP.value];
      Some(d.ips + d.ints)
  }

  // ---- NormalizeScore ----

  /** Go's integer division, which truncates toward zero. */
  function Quotient(a: int, b: int): int
    requires b > 0
  {
    if a >= 0 then a / b else -((-a) / b)
  }

  function Highest(scores: seq<int>): int {
    if scores == [] then 0
    else
      var h := Highest(scores[..|scores| - 1]);
      if h > scores[|scores| - 1] then h else scores[|scores| - 1]
  }

  lemma {:induction false} HighestSpec(scores: seq<int>)
    ensures Highest(scores) >= 0 && (Highest(scores) > 0 ==> Highest(scores) in scores)
    ensures forall i :: 0 <= i < |scores| ==> scores[i] <= Highest(scores)
    decreases |scores|
  {
    if scores != [] { HighestSpec(scores[..|scores| - 1]); }
  }

  /** It divides by zero exactly when there are scores and none is positive; otherwise every score is scaled. */
  method NormalizeScore(scores: array<int>) returns (panics: bool)
    modifies scores
    ensures panics <==> scores.Length > 0 && forall i :: 0 <= i < scores.Length ==> old(scores[i]) <= 0
    ensures panics ==> scores[..] == old(scores[..])
    ensures !panics ==> scores.Length == 0 || Highest(old(scores[..])) > 0
    ensures !panics ==> forall i :: 0 <= i < scores.Length ==> scores[i] == Quotient(old(scores[i]) * MAX_NODE_SCORE, Highest(old(scores[..])))
  {
    ghost var was := scores[..];
    var highest := 0;
    for i := 0 to scores.Length
      invariant highest == Highest(was[..i])
    {
      assert was[..i + 1][..i] == was[..i];
      highest := if highest > scores[i] then highest else scores[i];
    }
    assert was[..scores.Length] == was;
    HighestSpec(was);
    if scores.Length > 0 && highest == 0 { return true; }
    for i := 0 to scores.Length
      invariant forall k :: 0 <= k < i ==> scores[k] == Quotient(was[k] * MAX_NODE_SCORE, highest)
      invariant forall k :: i <= k < scores.Length ==> scores[k] == was[k]
    {
      scores[i] := Quotient(scores[i] * MAX_NODE_SCORE, highest);
    }
    return false;
  }

  // ---- The whole pipeline ----

  /** The service counts what is there. */
  ghost predicate Counting(service: Service) {
    forall ip :: service(ip).Some? ==> service(ip).value.enis >= 0 && service(ip).value.ips >= 0
  }

  /** The raw score of a collected node: 36 less its interfaces and its addresses. */
  lemma RawScoreIs(service: Service, state: CycleState, order: seq<Node>, node: Node)
    requires node in order && node.internalIP.Some? && service(node.internalIP.value).Some?
    ensures
      var c := service(node.internalIP.value).value;
      Score(CollectAll(service, state, order), node) == Some(36 - c.enis - c.ips)
  {
    CollectAllSpec(service, state, order, node.internalIP.value);
    var i :| 0 <= i < |order| && order[i] == node;
  }

  /**
   * Filter tests the counts against their own limits, the collected data hold each count against the other limit: a
   * collected node passes exactly when its data are above 4 and above -4.
   */
  lemma FilterInData(service: Service, state: CycleState, order: seq<Node>, node: Node)
    requires node in order && node.internalIP.Some? && service(node.internalIP.value).Some?
    ensures
      var after := CollectAll(service, state, order);
      && node.internalIP.value in after
      && (Filter(service, node) <==> after[node.internalIP.value].ints > 4 && after[node.internalIP.value].ips > -4)
  {
    CollectAllSpec(service, state, order, node.internalIP.value);
    var i :| 0 <= i < |order| && order[i] == node;
  }

  /** The division truncates toward zero. */
  lemma QuotientTruncates(a: int, b: int)
    requires b > 0
    ensures a >= 0 ==> b * Quotient(a, b) <= a < b * (Quotient(a, b) + 1)
    ensures a <= 0 ==> b * (Quotient(a, b) - 1) < a <= b * Quotient(a, b)
  {
  }

  lemma QuotientMonotone(a: int, b: int, h: int)
    requires h > 0 && 0 <= a <= b
    ensures Quotient(a, h) <= Quotient(b, h)
  {
    MulAtMost(h, b / h + 1, a / h);
  }

  lemma MulAtMost(h: int, x: int, y: int)
    requires h > 0
    ensures x <= y ==> h * x <= h * y
  {
  }

  /** Scores from 2 to 36 become 5 to 100: the best gets 100, and no order is inverted. */
  lemma NormalizedBounds(scores: seq<int>, i: nat, j: nat)
    requires (forall k :: 0 <= k < |scores| ==> 2 <= scores[k] <= 36) && i < |scores| && j < |scores|
    ensures
      var h := Highest(scores);
      && h > 0
      && 5 <= Quotient(scores[i] * MAX_NODE_SCORE, h) <= 100
      && (scores[i] == h ==> Quotient(scores[i] * MAX_NODE_SCORE, h) == 100)
      && (exists k :: 0 <= k < |scores| && scores[k] == h)
      && (scores[i] <= scores[j] ==> Quotient(scores[i] * MAX_NODE_SCORE, h) <= Quotient(scores[j] * MAX_NODE_SCORE, h))
  {
    HighestSpec(scores);
    var h := Highest(scores);
    assert h in scores && 2 <= h <= 36;
    QuotientBounds(scores[i], h);
    if scores[i] <= scores[j] { QuotientMonotone(scores[i] * MAX_NODE_SCORE, scores[j] * MAX_NODE_SCORE, h); }
  }

  lemma QuotientBounds(s: int, h: int)
    requires 2 <= s <= h <= 36
    ensures 5 <= Quotient(s * MAX_NODE_SCORE, h) <= 100 && (s == h ==> Quotient(s * MAX_NODE_SCORE, h) == 100)
  {
    var q := (s * 100) / h;
    assert s * 100 == h * q + (s * 100) % h;
    MulAtMost(h, q, 4);
    MulAtMost(h, 101, q);
    MulAtMost(h, q, 99);
  }

  /** The raw score of a node, zero when it has none. */
  function RawScore(state: CycleState, node: Node): int {
    if Score(state, node).Some? then Score(state, node).value else 0
  }

  function RawScores(state: CycleState, nodes: seq<Node>): seq<int> {
    seq(|nodes|, i requires 0 <= i < |nodes| => RawScore(state, nodes[i]))
  }

  function FinalScore(scores: seq<int>, i: nat): int
    requires i < |scores| && Highest(scores) > 0
  {
    Quotient(scores[i] * MAX_NODE_SCORE, Highest(scores))
  }

  /** What the node has in use, as the service counts it. */
  function InUse(service: Service, node: Node): int
    requires node.internalIP.Some? && service(node.internalIP.value).Some?
  {
    var c := service(node.internalIP.value).value;
    c.enis + c.ips
  }

  ghost predicate AllPass(service: Service, nodes: seq<Node>) {
    forall k :: 0 <= k < |nodes| ==> Filter(service, nodes[k])
  }

  lemma RawScoresAre(service: Service, before: CycleState, nodes: seq<Node>, order: seq<Node>, k: nat)
    requires Counting(service) && multiset(order) == multiset(nodes) && AllPass(service, nodes) && k < |nodes|
    ensures
      var state := CollectAll(service, before, order);
      && Score(state, nodes[k]) == Some(RawScores(state, nodes)[k])
      && RawScores(state, nodes)[k] == 36 - InUse(service, nodes[k]) && 2 <= RawScores(state, nodes)[k] <= 36
  {
    assert nodes[k] in multiset(order);
    RawScoreIs(service, before, order, nodes[k]);
  }

  /**
   * For nodes that pass the filter, in whatever order the workers collect them: every node scores 36 less what it has
   * in use, nothing is divided by zero, final scores lie between 5 and 100, a node with no more in use than another
   * never ends below it, and a node with the least in use gets 100.
   */
  lemma PipelineBounds(service: Service, before: CycleState, nodes: seq<Node>, order: seq<Node>, i: nat, j: nat)
    requires Counting(service) && multiset(order) == multiset(nodes) && i < |nodes| && j < |nodes|
    requires AllPass(service, nodes)
    ensures
      var state := CollectAll(service, before, order);
      var scores := RawScores(state, nodes);
      && Score(state, nodes[i]) == Some(36 - InUse(service, nodes[i])) && scores[i] == 36 - InUse(service, nodes[i])
      && Highest(scores) > 0 && 5 <= FinalScore(scores, i) <= 100
      && (InUse(service, nodes[i]) <= InUse(service, nodes[j]) ==> FinalScore(scores, i) >= FinalScore(scores, j))
      && ((forall k :: 0 <= k < |nodes| ==> InUse(service, nodes[i]) <= InUse(service, nodes[k])) ==> FinalScore(scores, i) == 100)
      && (exists k :: 0 <= k < |nodes| && FinalScore(scores, k) == 100)
  {
    var scores := RawScores(CollectAll(service, before, order), nodes);
    forall k | 0 <= k < |nodes| ensures 2 <= scores[k] <= 36 && scores[k] == 36 - InUse(service, nodes[k]) {
      RawScoresAre(service, before, nodes, order, k);
    }
    RawScoresAre(service, before, nodes, order, i);
    NormalizedBounds(scores, i, j);
    NormalizedBounds(scores, j, i);
    var best :| 0 <= best < |scores| && scores[best] == Highest(scores);
    NormalizedBounds(scores, best, best);
    assert FinalScore(scores, best) == 100;
    HighestSpec(scores);
  }

  /** With a least loaded node `b`, every final score is the percentage that the node's raw score is of that of `b`. */
  lemma FinalScoreIs(service: Service, before: CycleState, nodes: seq<Node>, order: seq<Node>, i: nat, b: nat)
    requires Counting(service) && multiset(order) == multiset(nodes) && i < |nodes| && b < |nodes|
    requires AllPass(service, nodes)
    requires forall k :: 0 <= k < |nodes| ==> InUse(service, nodes[b]) <= InUse(service, nodes[k])
    ensures
      var scores := RawScores(CollectAll(service, before, order), nodes);
      var best := 36 - InUse(service, nodes[b]);
      && best > 0 && Highest(scores) == best
      && best * FinalScore(scores, i) <= 100 * (36 - InUse(service, nodes[i])) < best * (FinalScore(scores, i) + 1)
  {
    var scores := RawScores(CollectAll(service, before, order), nodes);
    forall k | 0 <= k < |nodes| ensures 2 <= scores[k] <= 36 && scores[k] == 36 - InUse(service, nodes[k]) {
      RawScoresAre(service, before, nodes, order, k);
    }
    HighestSpec(scores);
    assert Highest(scores) == scores[b] by {
      assert Highest(scores) > 0 && Highest(scores) in scores;
      var h :| 0 <= h < |scores| && scores[h] == Highest(scores);
    }
    QuotientTruncates(scores[i] * MAX_NODE_SCORE, Highest(scores));
  }
}
