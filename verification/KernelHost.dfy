/**
 * The two kernel tables as one mutable object: the chains of pkg/utils/iptables/testing/fake_iptables.go and the
 * sets of pkg/utils/ipset/testing/fake.go.  `trace` records the state after every command.
 */
module KernelHost {
  import opened Sequences
  import Tables
  import opened PacketFilter

  ghost predicate TraceSafe(trace: seq<Kernel>) {
    forall i :: 0 <= i < |trace| ==> NoDangling(trace[i])
  }

  /** The trace shows the step from one state to the next, unless it changes nothing. */
  ghost predicate Recorded(was: seq<Kernel>, before: Kernel, now: seq<Kernel>, after: Kernel) {
    now == was + [after] || (now == was && after == before)
  }

  lemma RecordedSafe(was: seq<Kernel>, before: Kernel, now: seq<Kernel>, after: Kernel)
    requires Recorded(was, before, now, after) && TraceSafe(was) && NoDangling(after)
    ensures TraceSafe(now) && was <= now
  {
  }

  class Machine {
    var chains: Chains
    var sets: Sets
    ghost var trace: seq<Kernel>

    ghost function State(): Kernel
      reads this
    {
      Kernel(chains, sets)
    }

    constructor (chains: Chains, sets: Sets)
      ensures this.chains == chains && this.sets == sets && trace == [Kernel(chains, sets)]
    {
      this.chains, this.sets := chains, sets;
      trace := [Kernel(chains, sets)];
    }

    // ---- iptables ----

    method EnsureChain(c: Chain)
      modifies this
      ensures chains == Tables.EnsureChain(old(chains), c) && sets == old(sets)
      ensures trace == old(trace) + [State()]
    {
      if c !in chains {
        chains := chains[c := []];
      }
      trace := trace + [State()];
    }

    method FlushChain(c: Chain)
      modifies this
      ensures chains == Tables.FlushChain(old(chains), c) && sets == old(sets)
      ensures trace == old(trace) + [State()]
    {
      if c in chains {
        chains := chains[c := []];
      }
      trace := trace + [State()];
    }

    method DeleteChain(c: Chain)
      modifies this
      ensures chains == Tables.DeleteChain(old(chains), c) && sets == old(sets)
      ensures trace == old(trace) + [State()]
    {
      chains := chains - {c};
      trace := trace + [State()];
    }

    /** findRule: the first index of the rule, or -1. */
    static method FindRule(rules: seq<Rule>, r: Rule) returns (index: int)
      ensures -1 <= index < |rules|
      ensures index < 0 <==> r !in rules
      ensures 0 <= index ==> rules[index] == r && r !in rules[..index]
    {
      for i := 0 to |rules|
        invariant r !in rules[..i]
      {
        if rules[i] == r { return i; }
      }
      index := -1;
    }

    method EnsureRule(position: Tables.Position, c: Chain, r: Rule)
      modifies this
      ensures chains == Tables.EnsureRule(old(chains), position, c, r) && sets == old(sets)
      ensures trace == old(trace) + [State()]
    {
      if c !in chains {
        chains := chains[c := []];
      }
      var index := FindRule(chains[c], r);
      if index < 0 {
        if position == Tables.Prepend {
          chains := chains[c := [r] + chains[c]];
        } else {
          chains := chains[c := chains[c] + [r]];
        }
      }
      trace := trace + [State()];
    }

    static method CutRule(rules: seq<Rule>, r: Rule) returns (rest: seq<Rule>)
      ensures rest == RemoveFirst(rules, r)
    {
      var index := FindRule(rules, r);
      if index < 0 {
        RemoveFirstAbsent(rules, r);
        return rules;
      }
      RemoveFirstAt(rules, r, index);
      rest := rules[..index] + rules[index + 1..];
    }

    method DeleteRule(c: Chain, r: Rule)
      modifies this
      ensures chains == Tables.DeleteRule(old(chains), c, r) && sets == old(sets)
      ensures trace == old(trace) + [State()]
    {
      if c in chains {
        var rest := CutRule(chains[c], r);
        chains := chains[c := rest];
      }
      trace := trace + [State()];
    }

    /** RestoreAll without flushing: the lines take effect as one command. */
    method RestoreAll(lines: seq<Tables.Directive<Chain, Rule>>) returns (ok: bool)
      modifies this
      ensures Tables.Restored(chains, ok) == Tables.Restore(old(chains), BUILTIN, lines, lines) && sets == old(sets)
      ensures trace == old(trace) + [State()]
    {
      ok := true;
      var i := 0;
      while i < |lines| && ok
        invariant 0 <= i <= |lines|
        invariant sets == old(sets) && trace == old(trace)
        invariant ok ==> Tables.Restore(old(chains), BUILTIN, lines, lines) == Tables.Restore(chains, BUILTIN, lines, lines[i..])
        invariant !ok ==> Tables.Restore(old(chains), BUILTIN, lines, lines) == Tables.Restored(chains, false)
        decreases |lines| - i
      {
        assert lines[i..][1..] == lines[i + 1..];
        match lines[i] {
        case Declare(c) =>
          if c !in chains { chains := chains[c := []]; }
          if c !in BUILTIN && Tables.Discard(c) !in lines { chains := chains[c := []]; }
        case AddRule(position, c, r) =>
          chains := Tables.EnsureRule(chains, position, c, r);
        case Discard(c) =>
          if c in chains { chains := Tables.DeleteChain(chains, c); } else { ok := false; }
        }
        i := i + 1;
      }
      trace := trace + [State()];
    }

    // ---- ipset ----

    method CreateSet(n: SetName)
      modifies this
      ensures sets == (if n in old(sets) then old(sets) else old(sets)[n := {}]) && chains == old(chains)
      ensures trace == old(trace) + [State()]
    {
      if n !in sets {
        sets := sets[n := {}];
      }
      trace := trace + [State()];
    }

    method DestroySet(n: SetName)
      modifies this
      ensures sets == old(sets) - {n} && chains == old(chains)
      ensures trace == old(trace) + [State()]
    {
      sets := sets - {n};
      trace := trace + [State()];
    }

    /** Adding to a set that does not exist is not possible. */
    method AddEntry(n: SetName, e: Entry)
      requires n in sets
      modifies this
      ensures sets == old(sets)[n := old(sets)[n] + {e}] && chains == old(chains)
      ensures trace == old(trace) + [State()]
    {
      sets := sets[n := sets[n] + {e}];
      trace := trace + [State()];
    }

    method DelEntry(n: SetName, e: Entry)
      modifies this
      ensures sets == (if n in old(sets) then old(sets)[n := old(sets)[n] - {e}] else old(sets)) && chains == old(chains)
      ensures trace == old(trace) + [State()]
    {
      if n in sets {
        sets := sets[n := sets[n] - {e}];
      }
      trace := trace + [State()];
    }
  }
}
