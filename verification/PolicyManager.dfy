/**
 * The controller of pkg/policy: its state, the sync methods of policy.go and the event handlers of event.go, over
 * the kernel's two tables.
 */
module PolicyManagers {
  import opened Sequences
  import Tables
  import opened PacketFilter
  import opened NetworkPolicies
  import opened PolicyChains
  import opened PodSync
  import opened PodSchedules
  import opened PodSafety
  import opened KernelHost
  import opened SetSync
  import opened EventSafety
  import opened SetEdits
  import opened SetRuns

  type Addresses = map<Key, Option<Addr>>

  // ---- Clusters and their local pods ----

  ghost predicate DistinctPods(pods: seq<Pod>) {
    forall i, j :: 0 <= i < j < |pods| ==> pods[i].key != pods[j].key
  }

  function LocalPods(pods: seq<Pod>): map<Key, Pod> {
    if pods == [] then map[]
    else
      var last := pods[|pods| - 1];
      var front := LocalPods(pods[..|pods| - 1]);
      if last.local then front[last.key := last] else front
  }

  function LocalIPs(cluster: Cluster): Addresses {
    var pods := LocalPods(cluster.pods);
    map k | k in pods :: pods[k].ip
  }

  lemma {:induction false} LocalPodsSpec(pods: seq<Pod>, k: Key)
    ensures k in LocalPods(pods) ==> LocalPods(pods)[k] in pods && LocalPods(pods)[k].key == k && LocalPods(pods)[k].local
    ensures DistinctPods(pods) ==> (k in LocalPods(pods) <==> exists i :: 0 <= i < |pods| && pods[i].local && pods[i].key == k)
    ensures DistinctPods(pods) ==> forall i :: 0 <= i < |pods| && pods[i].local && pods[i].key == k ==> LocalPods(pods)[k] == pods[i]
  {
    if pods != [] {
      var front := pods[..|pods| - 1];
      LocalPodsSpec(front, k);
      assert forall i :: 0 <= i < |front| ==> front[i] == pods[i];
      if i :| 0 <= i < |front| && front[i].local && front[i].key == k { assert pods[i].key == k; }
      if i :| 0 <= i < |pods| && pods[i].local && pods[i].key == k {
        if i < |front| { assert front[i].key == k; }
      }
    }
  }

  lemma ProgramTail(pod: Pod, ps: seq<CompiledPolicy>)
    requires pod.ip.Some? && (Targeted(ps, pod, Inbound) || Targeted(ps, pod, Outbound))
    ensures
      var ops := Program(pod, ps);
      && |ops| == BASIC + 3 && ops[..BASIC + 3] == ops
      && ops[BASIC] == Fill(PodRules(pod, ps))
      && ops[BASIC + 1] == JumpOp(Inbound, Targeted(ps, pod, Inbound), pod.ip.value)
      && ops[BASIC + 2] == JumpOp(Outbound, Targeted(ps, pod, Outbound), pod.ip.value)
  {
  }

  // ---- The controller ----

  class PolicyManager {
    var policies: seq<CompiledPolicy>
    const host: Machine
    /** The cluster state that `policies` was compiled from. */
    ghost var source: Cluster

    /** Between events: the policies are compiled, their sets exist, and the kernel is settled for them. */
    ghost predicate Valid(ips: Addresses)
      reads this, host
    {
      && Compiled() && TraceSafe(host.trace)
      && Settled(host.State(), ips, Names(policies))
      && Desired(policies).Keys <= host.sets.Keys
    }

    ghost predicate Compiled()
      reads this
    {
      && CompiledFrom(source, policies)
      && forall i :: 0 <= i < |policies| ==> policies[i].ingress.Some? || policies[i].egress.Some?
    }

    /** A controller that starts on a machine without any GLX state. */
    constructor (host: Machine)
      requires OthersSafe(host.chains, host.sets.Keys) && TraceSafe(host.trace)
      requires forall c :: c in host.chains ==> !c.PolicyChain? && !c.PodChain?
      requires forall c, r :: c in host.chains && r in host.chains[c] ==> !LeadsToPod(r)
      ensures this.host == host && fresh(this) && policies == []
      ensures Valid(map[])
    {
      this.host := host;
      policies := [];
      source := Cluster([], [], []);
      new;
      FreshSettled(host.State());
      assert PolicyChainNames([]) == [] && AllTables([]) == [];
    }

    // ---- Policies ----

    /** syncNetworkPolices.  A panic comes before the policies are stored. */
    method SyncNetworkPolicies(cluster: Cluster) returns (crashed: bool)
      requires DistinctKeys(cluster.policies)
      modifies this
      ensures crashed <==> AnyPanics(cluster.policies)
      ensures crashed ==> policies == old(policies) && source == old(source)
      ensures !crashed ==> policies == CompileAll(cluster, cluster.policies) && source == cluster && Compiled()
    {
      var compiled;
      compiled, crashed := CompilePolicies(cluster);
      if crashed { return; }
      policies := compiled;
      source := cluster;
      CompileAllDistinct(cluster, cluster.policies);
      forall i | 0 <= i < |policies|
        ensures Compile(cluster, policies[i].np) == Some(policies[i]) && (policies[i].ingress.Some? || policies[i].egress.Some?)
      {
        CompileAllMembers(cluster, cluster.policies, i);
      }
    }

    /** syncIptables: one restore of the policy chains. */
    method SyncIptables(ghost ips: Addresses, ghost before: set<Chain>)
      requires Compiled() && TraceSafe(host.trace) && Settled(host.State(), ips, before)
      requires PodsClean(host.chains, ips, Names(policies)) && Desired(policies).Keys <= host.sets.Keys
      modifies host
      ensures old(host.trace) <= host.trace
      ensures host.chains == SyncedChains(old(host.chains), policies) && host.sets == old(host.sets)
      ensures TraceSafe(host.trace) && Settled(host.State(), ips, Names(policies))
    {
      var existing := host.chains.Keys;
      var chainLines, active, ruleLines := WriteRules(policies);
      var stale := WriteChains(existing, active);
      var lines := chainLines + Tables.Declares(stale) + ruleLines + Tables.Discards(stale);
      SyncIptablesRestores(source, host.chains, policies, stale);
      var ok := host.RestoreAll(lines);
      SyncedSettled(source, old(host.State()), ips, policies, host.sets);
      SettledIsSafe(host.State(), ips, Names(policies));
    }

    /**
     * syncRules: sets first, then the chains that match them, then the sets nobody matches any more.
     * The pods must not refer to policies that are gone.
     */
    method SyncRules(ghost ips: Addresses, ghost before: set<Chain>)
      requires Compiled() && TraceSafe(host.trace) && Settled(host.State(), ips, before)
      requires PodsClean(host.chains, ips, Names(policies))
      modifies host
      ensures old(host.trace) <= host.trace
      ensures host.chains == SyncedChains(old(host.chains), policies)
      ensures host.sets == SyncedSets(old(host.sets), policies)
      ensures Valid(ips)
    {
      var listed := host.sets.Keys;
      var newSets := InitIPSetMap(policies);
      ghost var k0 := host.State();
      RegisterNames(map[], AllTables(policies));
      SettledIsSafe(k0, ips, before);
      CreateIPSets(host, newSets);
      assert host.sets == k0.sets + Desired(policies);
      DesiredManaged(source, policies);
      SettledMoreSets(k0, ips, before, host.sets);
      SyncIptables(ips, before);
      KeptIsSynced(k0.sets, policies);
      SyncedSettled(source, k0, ips, policies, SyncedSets(k0.sets, policies));
      SettledIsSafe(Kernel(host.chains, SyncedSets(k0.sets, policies)), ips, Names(policies));
      DestroyStale(host, listed, newSets.Keys);
    }

    // ---- Pods ----

    /** One command of a pod's goroutine. */
    method Execute(key: Key, found: Option<Rule>, op: Op) returns (found': Option<Rule>)
      requires op.Fill? ==> NoDuplicates(op.rules)
      modifies host
      ensures host.chains == StepChains(old(host.chains), key, found, op) && host.sets == old(host.sets)
      ensures found' == StepFound(old(host.chains), key, found, op)
      ensures Recorded(old(host.trace), old(host.State()), host.trace, host.State())
    {
      found' := found;
      match op {
        case Basic(index) => ExecuteBasic(index);
        case Fill(rules) =>
          RestoreOneChain(host.chains, PodChain(key), rules);
          var ok := host.RestoreAll(Tables.Rewrite([PodChain(key)], [rules], []));
        case AddJump(d, a) => host.EnsureRule(Tables.Append, JumpChain(d), JumpRule(d, key, a));
        case RemoveJump(d, a) => host.DeleteRule(JumpChain(d), JumpRule(d, key, a));
        case FindJump(d) => found' := FindJumpRule(Tables.Rules(host.chains, JumpChain(d)), key);
        case DropFound(d) => if found.Some? { host.DeleteRule(JumpChain(d), found.value); }
        case Flush => host.FlushChain(PodChain(key));
        case Remove => host.DeleteChain(PodChain(key));
      }
    }

    /** The commands of ensureBasicChain, one by one. */
    method ExecuteBasic(index: nat)
      modifies host
      ensures host.chains == BasicStep(old(host.chains), index) && host.sets == old(host.sets)
      ensures Recorded(old(host.trace), old(host.State()), host.trace, host.State())
    {
      match index {
        case 0 => host.EnsureChain(Ingress);
        case 1 => host.EnsureChain(Egress);
        case 2 => host.EnsureRule(Tables.Prepend, Forward, Rule([], Jump(Ingress)));
        case 3 => host.EnsureRule(Tables.Prepend, Forward, Rule([], Jump(Egress)));
        case 4 => host.EnsureRule(Tables.Prepend, Output, Rule([], Jump(Ingress)));
        case 5 => host.EnsureRule(Tables.Prepend, Input, Rule([], Jump(Egress)));
        case _ =>
      }
    }

    /** The first listed line that names the pod's chain. */
    static method FindJumpRule(rules: seq<Rule>, key: Key) returns (found: Option<Rule>)
      ensures found == FirstOf(JumpsTo(rules, key)) && FindsJump(rules, key, found)
    {
      FirstJump(rules, key);
      for i := 0 to |rules|
        invariant JumpsTo(rules, key) == JumpsTo(rules[i..], key)
      {
        if rules[i].target == Jump(PodChain(key)) { return Some(rules[i]); }
        assert rules[i..][1..] == rules[i + 1..];
      }
      found := None;
    }

    /** One command run alone; it has to be the next one of the pod's program. */
    method Command(ghost k0: Kernel, ghost ips: Addresses, ghost names: set<Chain>, ghost ps: seq<CompiledPolicy>, pod: Pod, ghost n: nat,
                   found: Option<Rule>, op: Op)
      returns (found': Option<Rule>)
      requires Settled(k0, ips, names) && Names(ps) <= Rest(k0.chains).Keys && pod.key in ips && ips[pod.key] == pod.ip
      requires n < |Program(pod, ps)| && op == Program(pod, ps)[n] && (op.Fill? ==> NoDuplicates(op.rules))
      requires SoloState(host.chains, found) == Solo(k0.chains, pod.key, Program(pod, ps)[..n])
      requires host.sets == k0.sets && TraceSafe(host.trace)
      modifies host
      ensures old(host.trace) <= host.trace
      ensures SoloState(host.chains, found') == Solo(k0.chains, pod.key, Program(pod, ps)[..n + 1])
      ensures host.sets == k0.sets && TraceSafe(host.trace)
    {
      found' := Execute(pod.key, found, op);
      SoloStep(k0.chains, pod.key, Program(pod, ps), n);
      SoloSafe(k0, ips, names, pod, ps, n + 1);
    }

    /** filterMatchingPolicies: the indices of the policies that select the pod, per direction. */
    method FilterMatchingPolicies(pod: Pod) returns (ingress: set<nat>, egress: set<nat>)
      ensures forall i :: i in ingress <==> 0 <= i < |policies| && Affects(policies[i], pod, Inbound)
      ensures forall i :: i in egress <==> 0 <= i < |policies| && Affects(policies[i], pod, Outbound)
      ensures (ingress != {} <==> Targeted(policies, pod, Inbound)) && (egress != {} <==> Targeted(policies, pod, Outbound))
    {
      ingress, egress := {}, {};
      for i := 0 to |policies|
        invariant forall j :: j in ingress <==> 0 <= j < i && Affects(policies[j], pod, Inbound)
        invariant forall j :: j in egress <==> 0 <= j < i && Affects(policies[j], pod, Outbound)
      {
        if Selects(policies[i].np, pod) {
          if policies[i].ingress.Some? { ingress := ingress + {i}; }
          if policies[i].egress.Some? { egress := egress + {i}; }
        }
      }
      if ingress != {} { var i :| i in ingress; assert Affects(policies[i], pod, Inbound); }
      if egress != {} { var i :| i in egress; assert Affects(policies[i], pod, Outbound); }
    }

    /** The rules of the pod's chain, in policy order. */
    method WritePodRules(pod: Pod, ingress: set<nat>, egress: set<nat>) returns (rules: seq<Rule>)
      requires forall i :: i in ingress <==> 0 <= i < |policies| && Affects(policies[i], pod, Inbound)
      requires forall i :: i in egress <==> 0 <= i < |policies| && Affects(policies[i], pod, Outbound)
      ensures rules == PodRules(pod, policies)
    {
      rules := [Rule([Comment(pod.key), Established], Accept)];
      for i := 0 to |policies|
        invariant rules == [Rule([Comment(pod.key), Established], Accept)] + PolicyJumps(pod, policies[..i])
      {
        assert policies[..i + 1][..i] == policies[..i];
        if i in ingress || i in egress {
          rules := rules + [PolicyJump(pod.key, policies[i].np.key)];
        }
      }
      assert policies[..|policies|] == policies;
      rules := rules + [Rule([Comment(pod.key)], Drop)];
    }

    /** deletePodRuleByKeyword: list the chain, then delete the first line that names the pod's chain. */
    method DeletePodRuleByKeyword(ghost k0: Kernel, ghost ips: Addresses, ghost names: set<Chain>, pod: Pod, ghost n: nat, d: Direction,
                                  found: Option<Rule>)
      returns (found': Option<Rule>)
      requires Settled(k0, ips, names) && pod.key in ips && ips[pod.key] == pod.ip
      requires n + 2 <= |CLEANUP| && CLEANUP[n] == FindJump(d) && CLEANUP[n + 1] == DropFound(d)
      requires SoloState(host.chains, found) == Solo(k0.chains, pod.key, CLEANUP[..n])
      requires host.sets == k0.sets && TraceSafe(host.trace)
      modifies host
      ensures old(host.trace) <= host.trace
      ensures SoloState(host.chains, found') == Solo(k0.chains, pod.key, CLEANUP[..n + 2])
      ensures host.sets == k0.sets && TraceSafe(host.trace)
    {
      assert Program(pod, []) == CLEANUP && Names([]) == {};
      found' := Command(k0, ips, names, [], pod, n, found, FindJump(d));
      found' := Command(k0, ips, names, [], pod, n + 1, found', DropFound(d));
    }

    /** deletePodChains: both jumps, then the chain. */
    method DeletePodChains(ghost ips: Addresses, ghost names: set<Chain>, pod: Pod)
      requires TraceSafe(host.trace) && Settled(host.State(), ips, names)
      requires pod.key in ips && ips[pod.key] == pod.ip
      modifies host
      ensures old(host.trace) <= host.trace
      ensures host.chains == Solo(old(host.chains), pod.key, CLEANUP).chains && host.sets == old(host.sets)
      ensures TraceSafe(host.trace)
    {
      ghost var k0 := host.State();
      assert CLEANUP[..0] == [];
      var found := DeletePodRuleByKeyword(k0, ips, names, pod, 0, Inbound, None);
      found := DeletePodRuleByKeyword(k0, ips, names, pod, 2, Outbound, found);
      FlushAndRemove(k0, ips, names, pod, found);
    }

    method FlushAndRemove(ghost k0: Kernel, ghost ips: Addresses, ghost names: set<Chain>, pod: Pod, found: Option<Rule>)
      requires Settled(k0, ips, names) && pod.key in ips && ips[pod.key] == pod.ip
      requires SoloState(host.chains, found) == Solo(k0.chains, pod.key, CLEANUP[..4])
      requires host.sets == k0.sets && TraceSafe(host.trace)
      modifies host
      ensures old(host.trace) <= host.trace
      ensures host.chains == Solo(k0.chains, pod.key, CLEANUP).chains && host.sets == k0.sets && TraceSafe(host.trace)
    {
      assert Program(pod, []) == CLEANUP && Names([]) == {} && CLEANUP[..6] == CLEANUP;
      var found' := Command(k0, ips, names, [], pod, 4, found, Flush);
      found' := Command(k0, ips, names, [], pod, 5, found', Remove);
    }

    /** ensureBasicChain. */
    method EnsureBasicChain(ghost k0: Kernel, ghost ips: Addresses, pod: Pod)
      requires Compiled() && Settled(k0, ips, Names(policies)) && pod.key in ips && ips[pod.key] == pod.ip
      requires host.State() == k0 && TraceSafe(host.trace) && HasBasics(Program(pod, policies))
      modifies host
      ensures old(host.trace) <= host.trace
      ensures SoloState(host.chains, None) == Solo(k0.chains, pod.key, Program(pod, policies)[..BASIC])
      ensures host.sets == k0.sets && TraceSafe(host.trace)
    {
      ghost var ops := Program(pod, policies);
      assert ops[..0] == [];
      for index := 0 to BASIC
        invariant SoloState(host.chains, None) == Solo(k0.chains, pod.key, ops[..index])
        invariant host.sets == k0.sets && TraceSafe(host.trace) && old(host.trace) <= host.trace
      {
        assert ops[index] == ops[..BASIC][index] == BASICS[index] == Basic(index);
        var found := Command(k0, ips, Names(policies), policies, pod, index, None, Basic(index));
        BasicFindsNothing(k0.chains, pod.key, ops, index);
      }
    }

    lemma BasicFindsNothing(t: Chains, key: Key, ops: seq<Op>, n: nat)
      requires n < |ops| && ops[n].Basic? && Solo(t, key, ops[..n]).found == None
      ensures Solo(t, key, ops[..n + 1]).found == None
    {
      SoloStep(t, key, ops, n);
    }

    /** The part of SyncPodChains after the basic chains: the pod's chain, then its jumps. */
    method FillPodChain(ghost k0: Kernel, ghost ips: Addresses, pod: Pod, ingress: bool, egress: bool, rules: seq<Rule>)
      requires Compiled() && Settled(k0, ips, Names(policies)) && pod.key in ips && ips[pod.key] == pod.ip && pod.ip.Some?
      requires ingress == Targeted(policies, pod, Inbound) && egress == Targeted(policies, pod, Outbound) && (ingress || egress)
      requires rules == PodRules(pod, policies) && NoDuplicates(rules)
      requires SoloState(host.chains, None) == Solo(k0.chains, pod.key, Program(pod, policies)[..BASIC])
      requires host.sets == k0.sets && TraceSafe(host.trace)
      modifies host
      ensures old(host.trace) <= host.trace
      ensures host.chains == Solo(k0.chains, pod.key, Program(pod, policies)).chains && host.sets == k0.sets
      ensures TraceSafe(host.trace)
    {
      ProgramTail(pod, policies);
      var found := Command(k0, ips, Names(policies), policies, pod, BASIC, None, Fill(rules));
      var into, from := JumpOp(Inbound, ingress, pod.ip.value), JumpOp(Outbound, egress, pod.ip.value);
      found := Command(k0, ips, Names(policies), policies, pod, BASIC + 1, found, into);
      found := Command(k0, ips, Names(policies), policies, pod, BASIC + 2, found, from);
    }

    /** SyncPodChains, run alone: its commands are exactly the pod's program, in order. */
    method SyncPodChains(ghost ips: Addresses, pod: Pod)
      requires Compiled() && TraceSafe(host.trace) && Settled(host.State(), ips, Names(policies))
      requires pod.key in ips && ips[pod.key] == pod.ip
      modifies host
      ensures old(host.trace) <= host.trace
      ensures host.chains == Solo(old(host.chains), pod.key, Program(pod, policies)).chains && host.sets == old(host.sets)
      ensures TraceSafe(host.trace)
    {
      var ingress, egress := FilterMatchingPolicies(pod);
      ProgramWellFormed(pod, policies);
      if ingress == {} && egress == {} {
        DeletePodChains(ips, Names(policies), pod);
      } else if pod.ip.Some? {
        ghost var k0 := host.State();
        EnsureBasicChain(k0, ips, pod);
        var rules := WritePodRules(pod, ingress, egress);
        PodRulesNoDuplicates(pod, policies);
        FillPodChain(k0, ips, pod, ingress != {}, egress != {}, rules);
      }
    }

    /** The goroutine of pod k takes its next step. */
    method Step(threads: map<Key, Thread>, k: Key) returns (threads': map<Key, Thread>)
      requires k in threads && threads[k].todo != [] && (threads[k].todo[0].Fill? ==> NoDuplicates(threads[k].todo[0].rules))
      modifies host
      ensures System(host.chains, threads') == Advance(System(old(host.chains), threads), k) && host.sets == old(host.sets)
      ensures threads' == threads[k := Thread(threads[k].todo[1..], threads'[k].found)]
      ensures Recorded(old(host.trace), old(host.State()), host.trace, host.State())
    {
      var th := threads[k];
      var found := Execute(k, th.found, th.todo[0]);
      threads' := threads[k := Thread(th.todo[1..], found)];
    }

    /** The goroutines have run as `executed` says, and nothing has dangled so far. */
    ghost predicate Midway(k0: Kernel, programs: Programs, threads: map<Key, Thread>, executed: seq<Key>)
      reads host
    {
      && Executed(k0.chains, programs, host.chains, threads, executed)
      && host.sets == k0.sets && TraceSafe(host.trace)
    }

    /** A step of one of the interleaved goroutines keeps everything referenced. */
    method StepSafely(ghost k0: Kernel, ghost ips: Addresses, ghost names: set<Chain>, ghost pods: map<Key, Pod>, ghost programs: Programs,
                      threads: map<Key, Thread>, k: Key, ghost executed: seq<Key>)
      returns (threads': map<Key, Thread>)
      requires Interleaves(k0, ips, names, pods, programs, policies) && Midway(k0, programs, threads, executed)
      requires k in threads && threads[k].todo != []
      modifies host
      ensures old(host.trace) <= host.trace
      ensures Midway(k0, programs, threads', executed + [k])
      ensures threads'[k].todo == threads[k].todo[1..]
      ensures forall j :: j in threads && j != k ==> threads'[j] == threads[j]
    {
      assert threads[k].todo[0] in threads[k].todo;
      ghost var chains, trace, state := host.chains, host.trace, host.State();
      threads' := Step(threads, k);
      StepKeepsSafe(k0, ips, names, pods, programs, policies, chains, threads, executed, k, host.chains, threads');
      RecordedSafe(trace, state, host.trace, host.State());
    }

    /** The goroutines run as the schedule says; a turn of a goroutine that is done has no effect. */
    method RunSchedule(ghost k0: Kernel, ghost ips: Addresses, ghost names: set<Chain>, ghost pods: map<Key, Pod>, ghost programs: Programs,
                       start: map<Key, Thread>, schedule: seq<Key>)
      returns (threads: map<Key, Thread>)
      requires Interleaves(k0, ips, names, pods, programs, policies) && Midway(k0, programs, start, [])
      modifies host
      ensures old(host.trace) <= host.trace
      ensures Midway(k0, programs, threads, schedule)
    {
      threads := start;
      for i := 0 to |schedule|
        invariant Midway(k0, programs, threads, schedule[..i]) && old(host.trace) <= host.trace
      {
        var k := schedule[i];
        assert schedule[..i + 1] == schedule[..i] + [k];
        if k in threads && threads[k].todo != [] {
          threads := StepSafely(k0, ips, names, pods, programs, threads, k, schedule[..i]);
        } else {
          RunSnoc(Start(k0.chains, programs), schedule[..i], k);
        }
      }
      assert schedule[..|schedule|] == schedule;
    }

    method RunOneToEnd(ghost k0: Kernel, ghost ips: Addresses, ghost names: set<Chain>, ghost pods: map<Key, Pod>, ghost programs: Programs,
                       start: map<Key, Thread>, k: Key, ghost before: seq<Key>)
      returns (threads: map<Key, Thread>, ghost executed: seq<Key>)
      requires Interleaves(k0, ips, names, pods, programs, policies) && Midway(k0, programs, start, before) && k in start
      modifies host
      ensures old(host.trace) <= host.trace
      ensures before <= executed && Midway(k0, programs, threads, executed) && threads[k].todo == []
      ensures forall j :: j in threads && j != k ==> threads[j] == start[j]
    {
      threads, executed := start, before;
      while threads[k].todo != []
        invariant before <= executed && Midway(k0, programs, threads, executed) && old(host.trace) <= host.trace
        invariant forall j :: j in threads && j != k ==> threads[j] == start[j]
        decreases |threads[k].todo|
      {
        threads := StepSafely(k0, ips, names, pods, programs, threads, k, executed);
        executed := executed + [k];
      }
    }

    /** wg.Wait: all goroutines run to their ends. */
    method RunToEnd(ghost k0: Kernel, ghost ips: Addresses, ghost names: set<Chain>, ghost pods: map<Key, Pod>, ghost programs: Programs,
                    start: map<Key, Thread>, ghost before: seq<Key>)
      returns (threads: map<Key, Thread>, ghost executed: seq<Key>)
      requires Interleaves(k0, ips, names, pods, programs, policies) && Midway(k0, programs, start, before)
      modifies host
      ensures old(host.trace) <= host.trace
      ensures before <= executed && Midway(k0, programs, threads, executed)
      ensures forall k :: k in threads ==> threads[k].todo == []
    {
      threads, executed := start, before;
      var waiting := threads.Keys;
      while waiting != {}
        invariant waiting <= programs.Keys && Midway(k0, programs, threads, executed) && DoneOutside(threads, waiting)
        invariant before <= executed && old(host.trace) <= host.trace
        decreases waiting
      {
        var k :| k in waiting;
        ghost var earlier := threads;
        threads, executed := RunOneToEnd(k0, ips, names, pods, programs, threads, k, executed);
        DoneOutsideStep(earlier, threads, waiting, k);
        waiting := waiting - {k};
      }
    }

    /**
     * syncPods: one goroutine per local pod, interleaved as `schedule` says and then run to their ends.  `names` are the
     * policy chains that the pods may refer to at the start.
     */
    method SyncPods(ghost ips: Addresses, ghost names: set<Chain>, pods: map<Key, Pod>, schedule: seq<Key>)
      requires Compiled() && TraceSafe(host.trace) && Settled(host.State(), ips, names)
      requires Names(policies) <= Rest(host.chains).Keys && (names <= Names(policies) || ips.Keys <= pods.Keys)
      requires forall q :: q in pods ==> pods[q].key == q && q in ips && ips[q] == pods[q].ip
      modifies host
      ensures old(host.trace) <= host.trace
      ensures TraceSafe(host.trace) && Settled(host.State(), ips, Names(policies)) && host.sets == old(host.sets)
      ensures Ends(old(host.chains), ProgramsOf(pods, policies), host.chains)
      ensures Completes(old(host.chains), ProgramsOf(pods, policies), schedule, host.chains)
    {
      ghost var k0 := host.State();
      ghost var programs := ProgramsOf(pods, policies);
      var threads := map q | q in pods :: Thread(Program(pods[q], policies), None);
      StartExecuted(k0.chains, programs, pods, policies, threads);
      threads := RunSchedule(k0, ips, names, pods, programs, threads, schedule);
      ghost var executed;
      threads, executed := RunToEnd(k0, ips, names, pods, programs, threads, schedule);
      assert System(host.chains, threads) == Run(Start(k0.chains, programs), executed);
      SyncPodsEnd(k0, ips, names, programs, pods, policies, executed, threads, host.chains);
    }

    // ---- Event handlers ----

    /** UpdatePod.  A crash of the incremental path ends the process. */
    method UpdatePod(ghost ips: Addresses, namespaces: seq<Namespace>, pod: Pod) returns (crashed: bool)
      requires Valid(ips) && (pod.local ==> pod.key in ips && ips[pod.key] == pod.ip)
      modifies this, host
      ensures old(host.trace) <= host.trace
      ensures Valid(ips)
      ensures crashed <==> pod.ip.Some? && AnyCrashes(policies, namespaces, pod)
      ensures policies == old(policies) && source == old(source)
      ensures host.chains == if pod.local then Solo(old(host.chains), pod.key, Program(pod, policies)).chains else old(host.chains)
      ensures !crashed ==> host.sets == PodEdit(old(host.sets), NPs(policies), namespaces, pod, true)
    {
      crashed := false;
      SettledIsSafe(host.State(), ips, Names(policies));
      if pod.local {
        SoloSettles(host.State(), ips, pod, policies);
        SyncPodChains(ips, pod);
        SettledIsSafe(host.State(), ips, Names(policies));
      }
      if pod.ip.Some? {
        ghost var k := host.State();
        crashed := SyncPodIPInIPSet(host, source, policies, namespaces, pod, true);
        SettledMoreSets(k, ips, Names(policies), host.sets);
      }
    }

    /** DeletePod. */
    method DeletePod(ghost ips: Addresses, namespaces: seq<Namespace>, pod: Pod) returns (crashed: bool)
      requires Valid(ips) && (pod.local ==> pod.key in ips && ips[pod.key] == pod.ip) && (!pod.local ==> pod.key !in ips)
      modifies this, host
      ensures old(host.trace) <= host.trace
      ensures Valid(ips - {pod.key})
      ensures crashed <==> pod.ip.Some? && AnyCrashes(policies, namespaces, pod)
      ensures policies == old(policies) && source == old(source)
      ensures host.chains == if pod.local then Solo(old(host.chains), pod.key, CLEANUP).chains else old(host.chains)
      ensures !crashed ==> host.sets == PodEdit(old(host.sets), NPs(policies), namespaces, pod, false)
    {
      crashed := false;
      SettledIsSafe(host.State(), ips, Names(policies));
      if pod.local {
        DeleteSettles(host.State(), ips, Names(policies), pod);
        DeletePodChains(ips, Names(policies), pod);
        SettledIsSafe(host.State(), ips - {pod.key}, Names(policies));
      } else {
        assert ips - {pod.key} == ips;
      }
      if pod.ip.Some? {
        ghost var k := host.State();
        crashed := SyncPodIPInIPSet(host, source, policies, namespaces, pod, false);
        SettledMoreSets(k, ips - {pod.key}, Names(policies), host.sets);
      }
    }

    /** Nothing has changed since the start of the call. */
    twostate predicate Untouched()
      reads this, host
    {
      && policies == old(policies) && source == old(source)
      && host.chains == old(host.chains) && host.sets == old(host.sets) && host.trace == old(host.trace)
    }

    /** AddPolicy and UpdatePolicy: policy chains before the pod rules that jump to them. */
    method AddOrUpdatePolicy(ghost ips: Addresses, cluster: Cluster, schedule: seq<Key>) returns (crashed: bool)
      requires Valid(ips) && DistinctKeys(cluster.policies) && DistinctPods(cluster.pods) && ips == LocalIPs(cluster)
      requires Names(policies) <= Names(CompileAll(cluster, cluster.policies))
      modifies this, host
      ensures Valid(ips) && old(host.trace) <= host.trace
      ensures crashed <==> AnyPanics(cluster.policies)
      ensures crashed ==> Untouched()
      ensures !crashed ==> policies == CompileAll(cluster, cluster.policies) && source == cluster
      ensures !crashed ==> host.sets == SyncedSets(old(host.sets), policies)
      ensures !crashed ==> Ends(SyncedChains(old(host.chains), policies), ProgramsOf(LocalPods(cluster.pods), policies), host.chains)
      ensures !crashed ==>
        Completes(SyncedChains(old(host.chains), policies), ProgramsOf(LocalPods(cluster.pods), policies), schedule, host.chains)
    {
      ghost var names := Names(policies);
      crashed := SyncNetworkPolicies(cluster);
      if crashed { return; }
      PodsCleanMore(host.chains, ips, names, Names(policies));
      SyncRules(ips, names);
      forall q | q in LocalPods(cluster.pods) ensures LocalPods(cluster.pods)[q].key == q { LocalPodsSpec(cluster.pods, q); }
      SyncPods(ips, Names(policies), LocalPods(cluster.pods), schedule);
    }

    /** DeletePolicy: pod rules before the policy chains they jump to. */
    method DeletePolicy(ghost ips: Addresses, cluster: Cluster, schedule: seq<Key>) returns (crashed: bool)
      requires Valid(ips) && DistinctKeys(cluster.policies) && DistinctPods(cluster.pods) && ips == LocalIPs(cluster)
      requires Names(CompileAll(cluster, cluster.policies)) <= Names(policies)
      modifies this, host
      ensures Valid(ips) && old(host.trace) <= host.trace
      ensures crashed <==> AnyPanics(cluster.policies)
      ensures crashed ==> Untouched()
      ensures !crashed ==> policies == CompileAll(cluster, cluster.policies) && source == cluster
      ensures !crashed ==> host.sets == SyncedSets(old(host.sets), policies)
      ensures !crashed ==>
        exists u ::
          && Ends(old(host.chains), ProgramsOf(LocalPods(cluster.pods), policies), u)
          && Completes(old(host.chains), ProgramsOf(LocalPods(cluster.pods), policies), schedule, u)
          && host.chains == SyncedChains(u, policies)
    {
      ghost var names := Names(policies);
      crashed := SyncNetworkPolicies(cluster);
      if crashed { return; }
      forall q | q in LocalPods(cluster.pods) ensures LocalPods(cluster.pods)[q].key == q { LocalPodsSpec(cluster.pods, q); }
      SyncPods(ips, names, LocalPods(cluster.pods), schedule);
      SyncRules(ips, Names(policies));
    }
  }

  ghost predicate DoneOutside(threads: map<Key, Thread>, waiting: set<Key>) {
    forall k :: k in threads && k !in waiting ==> threads[k].todo == []
  }

  lemma DoneOutsideStep(a: map<Key, Thread>, b: map<Key, Thread>, waiting: set<Key>, k: Key)
    requires DoneOutside(a, waiting) && a.Keys == b.Keys && k in b && b[k].todo == []
    requires forall j :: j in b && j != k ==> b[j] == a[j]
    ensures DoneOutside(b, waiting - {k})
  {
  }

  /** The table and the goroutines are where the executed steps lead. */
  ghost predicate Executed(t: Chains, programs: Programs, chains: Chains, threads: map<Key, Thread>, executed: seq<Key>) {
    && System(chains, threads) == Run(Start(t, programs), executed)
    && FillsFine(threads) && threads.Keys == programs.Keys
  }

  lemma ExecutedStep(t: Chains, programs: Programs, chains: Chains, threads: map<Key, Thread>, executed: seq<Key>, k: Key,
                     chains': Chains, threads': map<Key, Thread>)
    requires Executed(t, programs, chains, threads, executed) && k in threads && threads[k].todo != [] && k in threads'
    requires System(chains', threads') == Advance(System(chains, threads), k)
    requires threads' == threads[k := Thread(threads[k].todo[1..], threads'[k].found)]
    ensures Executed(t, programs, chains', threads', executed + [k])
  {
    RunSnoc(Start(t, programs), executed, k);
    FillsFineStep(threads, k, threads'[k].found);
  }

  /** The conditions under which syncPods interleaves safely. */
  ghost predicate Interleaves(k0: Kernel, ips: Addresses, names: set<Chain>, pods: map<Key, Pod>, programs: Programs, ps: seq<CompiledPolicy>) {
    Settled(k0, ips, names) && Names(ps) <= Rest(k0.chains).Keys && PodPrograms(programs, pods, ips, ps)
  }

  function ProgramsOf(pods: map<Key, Pod>, ps: seq<CompiledPolicy>): Programs {
    map q | q in pods :: Program(pods[q], ps)
  }

  lemma ScheduleSafe(k0: Kernel, ips: Addresses, names: set<Chain>, pods: map<Key, Pod>, programs: Programs, ps: seq<CompiledPolicy>,
                     executed: seq<Key>)
    requires Interleaves(k0, ips, names, pods, programs, ps)
    ensures NoDangling(Kernel(Run(Start(k0.chains, programs), executed).chains, k0.sets))
  {
    SettledIsSafe(k0, ips, names);
    NamesHold(ps);
    InterleavingSafe(k0, ips, programs, pods, ps, executed);
  }

  lemma StepKeepsSafe(k0: Kernel, ips: Addresses, names: set<Chain>, pods: map<Key, Pod>, programs: Programs, ps: seq<CompiledPolicy>,
                      chains: Chains, threads: map<Key, Thread>, executed: seq<Key>, k: Key, chains': Chains, threads': map<Key, Thread>)
    requires Interleaves(k0, ips, names, pods, programs, ps)
    requires Executed(k0.chains, programs, chains, threads, executed) && k in threads && threads[k].todo != [] && k in threads'
    requires System(chains', threads') == Advance(System(chains, threads), k)
    requires threads' == threads[k := Thread(threads[k].todo[1..], threads'[k].found)]
    ensures Executed(k0.chains, programs, chains', threads', executed + [k])
    ensures NoDangling(Kernel(chains', k0.sets))
  {
    ExecutedStep(k0.chains, programs, chains, threads, executed, k, chains', threads');
    ScheduleSafe(k0, ips, names, pods, programs, ps, executed + [k]);
  }

  lemma SyncPodsEnd(k0: Kernel, ips: Addresses, names: set<Chain>, programs: Programs, pods: map<Key, Pod>, ps: seq<CompiledPolicy>,
                    executed: seq<Key>, threads: map<Key, Thread>, chains: Chains)
    requires Interleaves(k0, ips, names, pods, programs, ps) && (names <= Names(ps) || ips.Keys <= pods.Keys)
    requires System(chains, threads) == Run(Start(k0.chains, programs), executed) && forall k :: k in threads ==> threads[k].todo == []
    ensures Ends(k0.chains, programs, chains) && Settled(Kernel(chains, k0.sets), ips, Names(ps))
  {
    forall q | q in programs ensures WellFormed(programs[q]) { ProgramWellFormed(pods[q], ps); }
    CompleteRun(k0.chains, programs, executed);
    SyncPodsSettles(k0, ips, names, programs, pods, ps, chains);
  }

  lemma FillsFineStep(threads: map<Key, Thread>, k: Key, found: Option<Rule>)
    requires FillsFine(threads) && k in threads && threads[k].todo != []
    ensures FillsFine(threads[k := Thread(threads[k].todo[1..], found)])
  {
    assert forall op :: op in threads[k].todo[1..] ==> op in threads[k].todo;
  }

  ghost predicate FillsFine(threads: map<Key, Thread>) {
    forall k, op :: k in threads && op in threads[k].todo && op.Fill? ==> NoDuplicates(op.rules)
  }

  lemma StartExecuted(t: Chains, programs: Programs, pods: map<Key, Pod>, ps: seq<CompiledPolicy>, threads: map<Key, Thread>)
    requires DistinctPolicies(ps) && programs == ProgramsOf(pods, ps)
    requires threads == map q | q in pods :: Thread(Program(pods[q], ps), None)
    ensures Executed(t, programs, t, threads, [])
  {
    ProgramsFine(pods, ps);
    assert threads == Start(t, programs).threads;
  }

  lemma ProgramsFine(pods: map<Key, Pod>, ps: seq<CompiledPolicy>)
    requires DistinctPolicies(ps)
    ensures FillsFine(map q | q in pods :: Thread(Program(pods[q], ps), None))
  {
    forall q, op | q in pods && op in Program(pods[q], ps) && op.Fill? ensures NoDuplicates(op.rules) {
      PodRulesNoDuplicates(pods[q], ps);
    }
  }
}
