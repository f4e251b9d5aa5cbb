/**
 * The names, rules and sets that the network-policy controller puts into the kernel, and what
 * the kernel does with a packet.  An address is its bit string and a network is a bit prefix
 * (section 3.1 of RFC 4632).  Hashed names are represented by what is hashed, which takes
 * the hash to be injective.
 */
module PacketFilter {
  import opened Sequences
  import opened Tables

  type Addr = seq<bool>
  type Prefix = seq<bool>

  datatype Key = Key(name: string, namespace: string)

  datatype Direction = Inbound | Outbound

  /** `PolicyChain(k)` is GLX-PLCY-hash(k) and `PodChain(k)` is GLX-POD-hash(k). */
  datatype Chain =
    | Forward | Input | Output
    | Ingress | Egress
    | PodChain(pod: Key)
    | PolicyChain(policy: Key)
    | OtherChain(name: string)

  const BUILTIN: set<Chain> := {Forward, Input, Output}

  /**
   * GLX-ip-hash, GLX-sip/dip-i-hash, GLX-snet/dnet-i-hash; `StrayGlx` is any other name with the
   * GLX prefix and `Unmanaged` any name without it.
   */
  datatype SetName =
    | PodSet(policy: Key)
    | PeerHosts(direction: Direction, index: nat, policy: Key)
    | PeerNets(direction: Direction, index: nat, policy: Key)
    | StrayGlx(name: string)
    | Unmanaged(name: string)

  /** An ipset element with its only option, nomatch. */
  datatype Entry = Host(addr: Addr) | Net(prefix: Prefix, nomatch: bool)

  type Sets = map<SetName, set<Entry>>

  datatype Protocol = Tcp | Udp | OtherProtocol(name: string)

  datatype End = Src | Dst

  datatype Match =
    | Comment(key: Key)
    | Source(addr: Addr)
    | Destination(addr: Addr)
    | Established
    | Proto(protocol: Option<Protocol>)
    | InSet(name: SetName, end: End)
    | DstPorts(ports: seq<string>)
    | ForeignMatch(text: string)

  datatype Target = Accept | Drop | Jump(chain: Chain) | ForeignTarget(text: string)

  datatype Rule = Rule(matches: seq<Match>, target: Target)

  type Chains = Table<Chain, Rule>

  datatype Kernel = Kernel(chains: Chains, sets: Sets)

  // ---- References ----

  ghost predicate RuleRefersOnly(r: Rule, chains: set<Chain>, sets: set<SetName>) {
    && (r.target.Jump? ==> r.target.chain in chains)
    && forall i :: 0 <= i < |r.matches| && r.matches[i].InSet? ==> r.matches[i].name in sets
  }

  ghost predicate RulesReferOnly(rules: seq<Rule>, chains: set<Chain>, sets: set<SetName>) {
    forall i :: 0 <= i < |rules| ==> RuleRefersOnly(rules[i], chains, sets)
  }

  /** Every jump goes to a chain that exists and every set that is matched exists. */
  ghost predicate NoDangling(k: Kernel) {
    forall c :: c in k.chains ==> RulesReferOnly(k.chains[c], k.chains.Keys, k.sets.Keys)
  }

  // ---- Packets ----

  datatype Packet = Packet(src: Addr, dst: Addr, protocol: Protocol, dstPort: string, established: bool)

  datatype Verdict = Accepted | Dropped | FallThrough

  /** What rules of other programs do; they are opaque to this model. */
  datatype World = World(matches: (string, Packet) -> bool, decides: (string, Packet) -> Verdict)

  /** The element `e` is a longest prefix of `a` in the set. */
  ghost predicate MostSpecific(entries: set<Entry>, e: Entry, a: Addr) {
    && e in entries && e.Net? && e.prefix <= a
    && forall f :: f in entries && f.Net? && f.prefix <= a ==> |f.prefix| <= |e.prefix|
  }

  /**
   * hash:net lookup: the most specific element decides.  The kernel stores one element per network;
   * should both flavours of one network be present, nomatch decides.
   */
  ghost predicate NetsCover(entries: set<Entry>, a: Addr) {
    && (exists e :: MostSpecific(entries, e, a))
    && forall e :: MostSpecific(entries, e, a) ==> !e.nomatch
  }

  ghost predicate SetCovers(entries: set<Entry>, a: Addr) {
    Host(a) in entries || NetsCover(entries, a)
  }

  ghost predicate MatchHolds(w: World, sets: Sets, m: Match, p: Packet) {
    match m
    case Comment(_) => true
    case Source(a) => p.src == a
    case Destination(a) => p.dst == a
    case Established => p.established
    case Proto(None) => true
    case Proto(Some(protocol)) => p.protocol == protocol
    case InSet(name, end) => name in sets && SetCovers(sets[name], if end.Src? then p.src else p.dst)
    case DstPorts(ports) => p.dstPort in ports
    case ForeignMatch(text) => w.matches(text, p)
  }

  ghost predicate RuleMatches(w: World, sets: Sets, r: Rule, p: Packet) {
    forall i :: 0 <= i < |r.matches| ==> MatchHolds(w, sets, r.matches[i], p)
  }

  /**
   * Runs a rule list on a packet.  A chain that falls through returns to its caller.
   * `depth` bounds the nesting of jumps.
   */
  ghost function Evaluate(w: World, k: Kernel, rules: seq<Rule>, p: Packet, depth: nat): Verdict
    decreases depth, |rules|
  {
    if rules == [] then FallThrough
    else if !RuleMatches(w, k.sets, rules[0], p) then Evaluate(w, k, rules[1..], p, depth)
    else
      var v := Apply(w, k, rules[0].target, p, depth);
      if v == FallThrough then Evaluate(w, k, rules[1..], p, depth) else v
  }

  ghost function Apply(w: World, k: Kernel, target: Target, p: Packet, depth: nat): Verdict
    decreases depth, 0
  {
    match target
    case Accept => Accepted
    case Drop => Dropped
    case Jump(c) => if depth == 0 then FallThrough else Evaluate(w, k, Rules(k.chains, c), p, depth - 1)
    case ForeignTarget(text) => w.decides(text, p)
  }
}
