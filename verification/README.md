# Meliodas in Dafny

A model, with proofs, of the parts of the repository in which state, ordering or arithmetic decide correctness:

* the network-policy controller (`pkg/policy`): NetworkPolicy objects are compiled into ipsets and a graph of
  iptables chains, FORWARD to GLX-EGRESS and GLX-INGRESS to GLX-POD-x to GLX-PLCY-x, and the graph is kept
  right under policy and pod events, with one goroutine per pod;
* the iptables-save text layer (`pkg/utils/iptables`): the line scanner, the chain-line parser, rule normalization, save
  and restore;
* address allocation (`pkg/ipam`): the mix store on a remote port, and ranges of addresses;
* the race for policy-routing tables (`cmd/veth-host`) and the scheduler plugin (`pkg/scheduling`).

`dafny verify dfyconfig.toml` verifies everything.

## How it is built

The kernel is modelled by the repository's own fakes. `Tables` has the commands on the chains of one iptables table,
generic in names and rules. The controller works on structured names and rules (`PacketFilter`), where
a hashed name is represented by what is hashed; `KernelHost.Machine` runs the commands and keeps a ghost trace of all
states, one per command. The text layer works on strings (`FakeIptables`, `FakeHandles`). `PolicyTexts` renders the
structured rules as the words the controller writes, with the hash as a parameter: 16 characters of base32 that do not
collide on the policies at hand (`HashNames` shows that such hashes exist). `RuleReadings` reads such words back and
`PolicyTextVerdicts` evaluates packets against the restored text. `RuleForms` and `ChainLineTexts` say what the normal form
of a rule is and what the parser of chain lines finds, for texts of any words and lines.

Concurrency. `PodSync` turns SyncPodChains into a program of atomic handle calls, and projects the chains
onto the view of one pod (its chain and its jumps) and the rest. A call of one goroutine changes its own view
only, besides the idempotent commands of ensureBasicChain; from this `PodSchedules` derives where every
interleaving ends, and `PodSafety` that nothing dangles on the way. `PolicyManagers` has the imperative code, which takes an
arbitrary schedule, and `EventRuns` whole runs of events.

Meaning. `Verdicts` evaluates a packet against the kernel state. `IPBlocks` has the most-specific-prefix semantics of
hash:net sets with nomatch entries. `Incremental`, `SetEdits` and `SetRuns` compare the incremental set edits with a
recompilation. `InterleavingVerdicts` shows that verdicts do not depend on the interleaving, `Hooks` follows FORWARD,
INPUT and OUTPUT through a whole run, and `PodEvents` has what pod events keep.

The verdict is the one the code implements: ACCEPT in the chain of the source pod is final, and a rule with
an empty `from` or `to` writes no iptables rule at all.

## Findings

* IP blocks. Peers of one rule share one hash:net set. An exception of one block that lies in another block takes its
  addresses away from the other block too, exactly where nothing more specific is listed (`IPBlocks.MergedExact`,
  `ShadowedBlockExists`).
* Incremental edits. Deleting a pod is right exactly when no set about the pod is also about another pod with the same
  address (`DeleteAgrees`, `SharedExists`). UpdatePod never deletes: after a label change the sets are right exactly when
  no set has lost the pod (`RelabelAgrees`, `OutdatedExists`). AddPod edits nothing (`AddPodAgrees`).
* Crashes. The edit dereferences a nil rule when a policy has peers that pick the pod in a direction that its policy types
  disable, and getNamespaces a nil selector when a namespace selector does not convert; it crashes exactly then
  (`SyncPodIPInIPSet`, `DisabledPeerCrashes`, `BadSelectorCrashes`).
* Restore (`GeneratedRestores`, `LeftoverSurvives`). Whether a declared chain is flushed depends on a substring search for
  "-X name" in the whole text, so a stale chain whose name extends a policy chain's name keeps the old rules of the latter
  alive. The policy's chain is exact if and only if no stale chain extends its name or its old rules are the first of the
  new ones.
* Rule normalization is not idempotent: white space other than the blank can hide a quote, an address or
  `--to-destination=` from the first pass (`TabsHideQuotes`). A second pass finds the same arguments if and only if every
  argument is quoted or neither opens a quote, nor begins with `--to-destination=`, nor is an address (`ScanAgain`). The
  text stays if and only if it is settled: every word that opens a quote ends where the quote closes, and every other word is
  trimmed and needs no rewriting (`IdempotentExactly`). The latter is more: arguments may regroup (`QuotesRegroup`). Rules
  without quotes have one condition for both (`UnquotedIdempotent`), and plain rules always meet it (`NormalizeIdempotent`).
* deletePodRuleByKeyword strips quotes from the words of a listed rule; on the fake, which keeps quotes, the rule is then
  deleted if and only if no word begins or ends with one (`ListedRuleDeletes`).
* AddPod writes nothing: policies in force stay in force exactly when the sets need no edit and the new pod is not a
  selected local one with an address. UpdatePod and DeletePod keep them in force exactly when they keep the sets right
  (`Handle`).
* A reservation that fails after the server has updated the port leaves the new address on the port without a record
  (`ReserveFails`).
* Route tables: the least route guards the table because routes are added in sorted order (`TablesNotShared`).
* ReadLine drops the last character of unterminated text when it stands alone after a blank, and everything after the last
  newline when that ends in a blank (`LineAt`, `LastWordLost`, `LastLineLost`). Terminated lines are unaffected.
* The lock file lies in the data directory and is empty. When every record has an owner, a release removes the lock file
  exactly when its id is blank (`LockFileKept`).
* Route tables exclude each other exactly when the invocations have a route in common (`ExclusionExact`).
* The default end of an IPv6 range is outside the range exactly when it is a mapped IPv4 address, as in ::/80
  (`DefaultEndContained`, `MappedEndExists`). A subnet given by its last address has its default gateway outside
  (`NextInside`, `LastAddressSubnet`).
* Filter and the collected data use the two limits crosswise, so raw scores range from 2 to 36.

## Model

| member | source | states |
|---|---|---|
| `NetworkPolicies.IngressOrEgress` | pkg/policy/policy.go:303-316 | from policyTypes and the egress rules alone: ingress unless only egress is listed, egress when listed or when no type is listed and there are egress rules; never neither |
| `NetworkPolicies.RulePorts` | pkg/policy/policy.go:450-471 | the ports split into TCP (the default) and everything else, in order, portless entries dropped |
| `NetworkPolicies.PortsOfMembers` | pkg/policy/policy.go:450-471 | the TCP list has exactly the ports of the entries with protocol TCP or none, the other list those with any other protocol |
| `NetworkPolicies.IPBlockToTable` | pkg/policy/policy.go:395-411 | the network followed by its exceptions as nomatch entries, or nothing if one does not parse |
| `NetworkPolicies.PodEntries` | pkg/policy/policy.go:433-442 | one entry per pod that has an address, in order |
| `NetworkPolicies.ListNamespacesMembers` | pkg/policy/policy.go:1025-1037 | a name is listed exactly when it is the name of a namespace whose labels the selector accepts |
| `NetworkPolicies.NamespaceSelectorToTable` | pkg/policy/policy.go:366-380 | an entry is in the table exactly when a pod with its address lies in a namespace whose labels the selector accepts; the nil dereference of getNamespaces exactly when the selector does not convert |
| `NetworkPolicies.ComputePeerTable` | pkg/policy/policy.go:382-393 | pod selector before namespace selector before IP block; an empty peer or a bad pod selector is an error, a bad namespace selector a panic |
| `NetworkPolicies.PeerRule` | pkg/policy/policy.go:318-342 | address entries and network entries of all good peers are concatenated, each table present only if some peer yields it; a panic exactly when some peer panics |
| `NetworkPolicies.PolicyResult` | pkg/policy/policy.go:259-301 | the compiled policy: one shared pod table, one rule per spec of each enabled direction, tables named by direction and index; which sides there are, from policyTypes and the egress rules alone; nothing exactly for a bad selector; a panic exactly when a peer of an enabled direction panics |
| `NetworkPolicies.PanicsExactly` | pkg/policy/policy.go:1025-1030 | compiling panics exactly when the policy's own selector converts and a peer of a direction it is for has no pod selector and a namespace selector that does not convert |
| `NetworkPolicies.CompilePolicies` | pkg/policy/policy.go:197-220 | every policy that compiles, in order; a panic exactly when some policy panics |
| `NetworkPolicies.CompileAllCovers` | pkg/policy/policy.go:197-220 | no policy with a convertible selector is lost |
| `PolicyChains.DesiredHas` | pkg/policy/policy.go:596-625 | every table any policy calls for is in the desired sets under its own name with exactly its entries: no table overwrites another |
| `PolicyChains.DesiredOnly` | pkg/policy/policy.go:596-625 | nothing else is desired |
| `PolicyChains.InitIPSetMap` | pkg/policy/policy.go:596-625 | the loops build that map |
| `PolicyChains.WritePolicyChainRules` | pkg/policy/policy.go:670-711 | one rule per source, destination and protocol with ports, or one for all protocols when there are no ports |
| `PolicyChains.WriteRules` | pkg/policy/policy.go:555-594 | a chain line per policy, then for each its ingress and egress rules in order |
| `PolicyChains.WriteChains` | pkg/policy/policy.go:534-552 | the existing policy chains that are not active, each once, in any map order |
| `PolicyChains.ChainRulesMembers` | pkg/policy/policy.go:555-594 | a chain has exactly the rules of its enabled directions, specs, peer tables and port variants |
| `PolicyChains.ChainRulesNoDuplicates` | pkg/policy/policy.go:555-594 | a compiled chain never repeats a rule, so check-then-add keeps them all |
| `PolicyChains.SyncIptablesRestores` | pkg/policy/policy.go:505-532 | restoring the lines replaces the policy chains by the compiled ones and changes nothing else, whatever was there |
| `Tables.RestoreRewriteAny` | pkg/utils/iptables/testing/fake_iptables.go:283-360 | any declare-fill-discard text: stale chains go, other chains stay, kept chains have the new rules appended to what the flush left |
| `Tables.AppendNewExact` | pkg/utils/iptables/testing/fake_iptables.go:160-184 | ensuring rules one by one ends with exactly those rules if and only if the old rules were the first of them |
| `KernelHost.Machine.EnsureRule` | pkg/utils/iptables/testing/fake_iptables.go:160-184 | adds at the position only if absent, creating the chain; one command in the trace |
| `KernelHost.Machine.DeleteRule` | pkg/utils/iptables/testing/fake_iptables.go:232-248 | removes the first occurrence, if any |
| `KernelHost.Machine.RestoreAll` | pkg/utils/iptables/testing/fake_iptables.go:283-360 | the directives in order up to the first failure, as one command |
| `SetSync.SetsConverge` | pkg/policy/policy.go:475-503 | GLX sets are exactly the desired ones with exactly the desired entries whatever they held; other sets untouched; a second run changes nothing |
| `SetSync.ReconcileSet` | pkg/policy/policy.go:627-662 | one set reaches its desired entries by adding what is missing and deleting what is stale, and changes no other set |
| `SetSync.CreateIPSets` | pkg/policy/policy.go:627-662 | all desired sets, in any map order, with nothing dangling after any command |
| `SetSync.DestroyStale` | pkg/policy/policy.go:488-499 | exactly the listed GLX sets that are not wanted are destroyed, and no rule names one of them |
| `IPBlocks.SingleBlock` | pkg/policy/policy.go:395-431 | a block with exceptions strictly inside it accepts exactly the network minus the exceptions |
| `IPBlocks.MergedExact` | pkg/policy/policy.go:318-342 | at any address the merged table accepts exactly the union of those differences if and only if no exception of one block shadows another block there |
| `IPBlocks.MergedBlocks` | pkg/policy/policy.go:318-342 | it does so at every bit string if and only if no exception lies in another block without lying in one of its exceptions |
| `IPBlocks.ShadowedBlock` | pkg/policy/policy.go:334-338 | a shadowed address is in the union and not accepted |
| `IPBlocks.ShadowedBlockExists` | pkg/policy/policy.go:334-338 | concrete blocks for which this happens |
| `PodSync.StepOwn` | pkg/policy/policy.go:822-1023 | a handle call of one pod's sync changes that pod's view as it would alone, no other pod's view, and the rest only by the basic commands |
| `PodSchedules.CompleteRun` | pkg/policy/policy.go:154-195 | every interleaving that finishes leaves each pod as if it had run alone, and the basic chains complete |
| `PodSchedules.Confluence` | pkg/policy/policy.go:154-195 | all of them end with the same chains and rules, up to the order of different pods' jumps in GLX-INGRESS and GLX-EGRESS |
| `PodSchedules.EgressFirst` | pkg/policy/policy.go:929-959 | once the jump to GLX-EGRESS is in FORWARD, the jump to GLX-INGRESS is there too and comes after it: at every moment of every interleaving if and only if it is so at the start |
| `PodSchedules.SoloIsRun` | pkg/policy/policy.go:822-898 | one sync alone is the run in which only it moves |
| `PodSafety.SoloSync` | pkg/policy/policy.go:822-898 | one sync takes a pod with at most one jump per direction to its exact chain and jumps, and leaves all other pods alone |
| `PodSafety.LifetimeClean` | pkg/policy/policy.go:962-1023 | after any number of syncs under changing labels and policies, an address once given being kept: at most one jump per direction, only the last sync counts, none selecting leaves no trace, other pods untouched |
| `PodSafety.InterleavingSafe` | pkg/policy/policy.go:154-195 | nothing dangles at any moment of any interleaving |
| `PodSafety.InterleavingEnds` | pkg/policy/policy.go:154-195 | every pod ends with its exact chain and jumps |
| `EventSafety.SyncPodsSettles` | pkg/policy/policy.go:154-195 | afterwards pod chains name only the new policies' chains, so that the others may go |
| `EventSafety.DeleteSettles` | pkg/policy/policy.go:962-982 | deleting a pod's chains keeps every reference good and forgets the pod |
| `EventSafety.SyncSafeExactly` | pkg/policy/event.go:53-75 | replacing the policy chains leaves nothing dangling if and only if no pod chain jumps to a policy that goes |
| `PolicyManagers.PolicyManager.SyncNetworkPolicies` | pkg/policy/policy.go:197-220 | the manager's policies are the compiled ones of the listed objects; a panic leaves the old ones |
| `PolicyManagers.PolicyManager.SyncIptables` | pkg/policy/policy.go:505-532 | policy chains are replaced, all else kept, by one restore after which nothing dangles |
| `PolicyManagers.PolicyManager.SyncRules` | pkg/policy/policy.go:475-503 | sets and policy chains as desired; no rule names a missing set after any single command |
| `PolicyManagers.PolicyManager.FilterMatchingPolicies` | pkg/policy/policy.go:900-927 | per direction, exactly the indices of policies of the pod's namespace that are enabled and select it |
| `PolicyManagers.PolicyManager.WritePodRules` | pkg/policy/policy.go:847-862 | established connections, the jumps to the selecting policies in order, then DROP |
| `PolicyManagers.PolicyManager.DeletePodRuleByKeyword` | pkg/policy/policy.go:985-1023 | the first jump to the pod's chain is found and deleted, with nothing dangling |
| `PolicyManagers.PolicyManager.DeletePodChains` | pkg/policy/policy.go:962-982 | both jumps go before the chain is flushed and removed |
| `PolicyManagers.PolicyManager.SyncPodChains` | pkg/policy/policy.go:822-898 | the chains become what the pod's program makes of them, with nothing dangling after any command |
| `PolicyManagers.PolicyManager.SyncPods` | pkg/policy/policy.go:154-195 | for every schedule: nothing dangles after any command, the run begins as the schedule says, and the chains end where every interleaving ends |
| `PolicyManagers.PolicyManager.UpdatePod` | pkg/policy/event.go:29-39 | the new chains and sets, and the exact condition of a crash |
| `PolicyManagers.PolicyManager.DeletePod` | pkg/policy/event.go:41-51 | the new chains and sets, without the pod, and the exact condition of a crash |
| `PolicyManagers.PolicyManager.AddOrUpdatePolicy` | pkg/policy/event.go:53-67 | compile, sets and policy chains, then pods: the final sets and chains, nothing dangling on the way; a panic of the compilation changes nothing |
| `PolicyManagers.PolicyManager.DeletePolicy` | pkg/policy/event.go:69-75 | pods before policy chains: the final sets and chains, nothing dangling on the way; a panic of the compilation changes nothing |
| `EventRuns.Boot` | pkg/policy/policy.go:91-105 | a controller that starts without GLX state and without policies is in step with the cluster, and what there is to enforce is in force |
| `EventRuns.Handle` | pkg/policy/event.go:29-75 | the exact condition of a crash, in terms of the policies, pods and namespaces of the cluster; otherwise the manager stays in step, a policy event puts the policies in force and the sets right, a pod event keeps right sets right exactly when `KeepsSets` holds, and policies in force exactly when, besides, it is not AddPod for a selected local pod with an address |
| `EventRuns.RunEvents` | pkg/policy/event.go:29-75 | over every serial run of events and every schedule: exactly the events before the first that crashes are handled; after every single command each jump target and each matched set exists; the policies are in force after every run that ends in a policy event or whose pod events keep them so, and then FORWARD, INPUT and OUTPUT treat every packet as the NetworkPolicy objects say; the sets are right after every run whose pod events keep them so |
| `PodEvents.CompileAlike` | pkg/policy/policy.go:259-342 | policies compiled for different clusters have the same chains and differ in the entries of their tables only |
| `PodEvents.SyncForced` | pkg/policy/event.go:29-39 | UpdatePod on this node keeps all policy chains, pod chains and hooks as the policies ask, with the pod as it is now |
| `PodEvents.RemovalForced` | pkg/policy/event.go:41-51 | DeletePod on this node keeps them, without the pod |
| `PodEvents.AdditionForced` | pkg/policy/event.go:25-27 | a pod that appears without a sync leaves them as asked exactly when it needs no chain |
| `PodEvents.SelectedExactly` | pkg/policy/policy.go:900-927 | a pod needs a chain exactly when it has an address and some policy of its namespace selects it |
| `SetEdits.CrashesExactly` | pkg/policy/policy.go:759-826 | the edit crashes exactly when a peer in any direction has such a namespace selector, or picks the pod in a direction the policy is not for |
| `SetEdits.SyncPodIPInIPSet` | pkg/policy/policy.go:734-818 | makes exactly the edits that the policies call for, or crashes, exactly when a disabled direction has peers that pick the pod or some peer's namespace selector does not convert |
| `Incremental.AddAgrees` | pkg/policy/policy.go:734-818 | recomputed sets plus an incremental addition are the sets recomputed with the pod |
| `Incremental.DeleteAgrees` | pkg/policy/policy.go:734-818 | a deletion agrees with recomputation if and only if no set about the pod is about another pod with its address |
| `Incremental.RelabelAgrees` | pkg/policy/event.go:29-39 | an update agrees with recomputation if and only if no set has lost the pod |
| `SetRuns.AddPodAgrees` | pkg/policy/event.go:25-27 | AddPod edits nothing, so right sets stay right if and only if none misses the new pod |
| `SetRuns.UpdatePodAgrees` | pkg/policy/event.go:29-39 | for any pod of the population, with or without an address: right sets stay right if and only if none has lost the pod |
| `SetRuns.DeletePodAgrees` | pkg/policy/event.go:41-51 | for any pod of the population: right sets stay right if and only if none about the pod is about another pod with its address |
| `Verdicts.PolicyChainVerdict` | pkg/policy/policy.go:670-711 | a policy chain accepts exactly what the policy allows, else returns |
| `Verdicts.InPlaceDecide` | pkg/policy/policy.go:475-503 | so do all policy chains of a kernel whose sets and policy chains are in place |
| `Verdicts.PodChainVerdict` | pkg/policy/policy.go:847-862 | a pod chain never returns: it accepts established connections and what a selecting policy allows, and drops the rest |
| `Verdicts.JumpChainVerdict` | pkg/policy/policy.go:871-896 | a jump chain applies the chain of the one selected pod with the packet's address, else returns |
| `Verdicts.ForwardVerdict` | pkg/policy/policy.go:822-959 | FORWARD: the source pod's chain if an egress policy selects it, else the destination pod's chain if an ingress policy selects it, else the old rules; for every interleaving |
| `Verdicts.PeersCoverMeaning` | pkg/policy/policy.go:318-342 | where nothing shadows the address, the peer tables cover the selected pods and the networks without their exceptions |
| `Verdicts.EndToEnd` | pkg/policy/event.go:53-67 | the same in terms of the NetworkPolicy objects, after a policy event on a fresh table |
| `InterleavingVerdicts.InterleavingVerdict` | pkg/policy/policy.go:154-195 | from any table with clean pods and distinct addresses, two complete interleavings treat every packet alike on every chain |
| `Hooks.InForceEnforces` | pkg/policy/policy.go:929-959 | with everything in force: FORWARD asks the source pod, then the destination pod, INPUT the source pod, OUTPUT the destination pod, and then each its old rules |
| `Hooks.AddInForce` | pkg/policy/event.go:53-67 | adding or updating a policy puts everything in force, from any state between events |
| `Hooks.DeleteInForce` | pkg/policy/event.go:69-75 | so does deleting one |
| `SaveRestore.ReadLine` | pkg/utils/iptables/save_restore.go:82-128 | the exact line and next index: a terminated line is blank-trimmed, the index is just after the newline, and it strictly advances within the buffer |
| `SaveRestore.GetChainLines` | pkg/utils/iptables/save_restore.go:48-79 | the chain lines of the table's section, or a crash on a chain line without a blank |
| `SaveRestore.ChainLinesOfSave` | pkg/utils/iptables/save_restore.go:48-79 | on a printed table it finds exactly the chains, each with its own chain line |
| `ChainLineTexts.ChainLinesExactly` | pkg/utils/iptables/save_restore.go:48-79 | on any lines: what is before the table's header and from its end on does not matter; a crash exactly when a chain line has no blank; otherwise exactly the chains declared, each with its last line |
| `FakeIptables.SavedChainLines` | pkg/utils/iptables/testing/fake_iptables.go:260-281 | the same on what SaveInto prints for any table |
| `RuleText.NormalizeRule` | pkg/utils/iptables/testing/fake_iptables.go:186-225 | the scanning loop cuts the rule into quoted and bare arguments, expands `--to-destination=`, completes addresses, and fails or crashes as specified |
| `RuleForms.NormalWords` | pkg/utils/iptables/testing/fake_iptables.go:186-225 | the normal form word by word: quoted words as they are, addresses with /32, a destination option in two words, single blanks, no white space around |
| `RuleForms.OpenQuoteRefused` | pkg/utils/iptables/testing/fake_iptables.go:196-202 | a quote that is opened and not closed is an error |
| `RuleForms.EmptyCrashes` | pkg/utils/iptables/testing/fake_iptables.go:186-196 | an empty rule, or a last word `--to-destination=`, is an index out of range |
| `RuleText.NormalizeIdempotent` | pkg/utils/iptables/testing/fake_iptables.go:186-225 | normalizing twice is normalizing once, for rules whose only white space is the blank |
| `RuleText.ScanAgain` | pkg/utils/iptables/testing/fake_iptables.go:186-225 | for any rule, a second pass finds the same arguments if and only if every argument is quoted or opens no quote, is no destination and no address |
| `RuleText.FixedExactly` | pkg/utils/iptables/testing/fake_iptables.go:186-225 | the texts that are left as they are: those that begin visibly and are settled word by word |
| `RuleText.IdempotentExactly` | pkg/utils/iptables/testing/fake_iptables.go:186-225 | normalizing twice is normalizing once if and only if the normal form is settled; it is when every argument lasts |
| `RuleText.UnquotedIdempotent` | pkg/utils/iptables/testing/fake_iptables.go:186-225 | for rules without quotes, if and only if every argument of the first pass lasts |
| `RuleText.QuotesRegroup` | pkg/utils/iptables/testing/fake_iptables.go:196-218 | rules whose text stays although the second pass takes two arguments for one |
| `RuleText.TabsHideQuotes` | pkg/utils/iptables/testing/fake_iptables.go:216 | a tab before an open quote is trimmed away by the first pass, and the second pass fails |
| `FakeIptables.ParsePrinted` | pkg/utils/iptables/testing/fake_iptables.go:283-360 | reading a printed line gives the directive back |
| `FakeIptables.MalformedExactly` | pkg/utils/iptables/testing/fake_iptables.go:311-345 | a rule line is refused exactly when it has fewer than two blanks, a deletion exactly when it has none |
| `FakeIptables.DeletionInText` | pkg/utils/iptables/testing/fake_iptables.go:311-320 | the text contains "-X c" exactly when some deleted chain's name begins with c |
| `FakeIptables.RestorePrinted` | pkg/utils/iptables/testing/fake_iptables.go:283-360 | restoring printed directives does to the table what the directives say, up to the first failure, and nothing to other tables |
| `RestoreSections.RestoreFrame` | pkg/utils/iptables/testing/fake_iptables.go:283-360 | whatever the text, a table whose header is not a line of it, or that is not selected, stays as it is |
| `RestoreSections.RestoreInTurn` | pkg/utils/iptables/testing/fake_iptables.go:283-360 | a text of several tables does what its sections say in turn, up to a failure or the COMMIT of the selected table; a deletion anywhere in it counts for all |
| `FakeIptables.RestoreSaved` | pkg/utils/iptables/testing/fake_iptables.go:283-360 | restoring a saved table gives the saved chains their saved rules in order and leaves the others, when it flushes or finds them empty |
| `FakeIptables.SaveRestoreIdentity` | pkg/utils/iptables/testing/fake_iptables.go:254-360 | saving and restoring into a fresh instance rebuilds the table, for every table in normal form |
| `FakeHandles.RestoreTextNeat` | pkg/utils/iptables/testing/fake_iptables.go:283-360 | whatever plain text is restored, rules stay normalized and free of duplicates |
| `Sorting.Lexicographic` | pkg/utils/iptables/testing/fake_iptables.go:268-276 | the order of the names: a prefix first, otherwise the first character that differs decides |
| `FakeHandles.SaveDeterministic` | pkg/utils/iptables/testing/fake_iptables.go:268-276 | the saved text depends on the table alone |
| `FakeHandles.FindRule` | pkg/utils/iptables/testing/fake_iptables.go:151-158 | the first occurrence, or -1 exactly when there is none |
| `FakeHandles.NormalizeArgs` | pkg/utils/iptables/testing/fake_iptables.go:400-407 | arguments with blanks are quoted, unless they begin with a quote |
| `FakeHandles.ArgumentsNormal` | pkg/utils/iptables/testing/fake_iptables.go:400-407 | a rule given by arguments is stored as these arguments one by one, each with blanks in quotes |
| `FakeHandles.FakeIPTables.EnsureRule` | pkg/utils/iptables/testing/fake_iptables.go:227-230 | stores the normalized rule once (for arguments without odd quotes: exactly these arguments, those with blanks in quotes), and keeps the tables in normal form exactly when the normal form is settled and of one line |
| `FakeHandles.FakeIPTables.DeleteRule` | pkg/utils/iptables/testing/fake_iptables.go:232-248 | deletes the normalized rule; a missing chain or rule is no error |
| `FakeHandles.FakeIPTables.SaveInto` | pkg/utils/iptables/testing/fake_iptables.go:260-281 | header, chain lines in sorted order, rules in the same order, COMMIT |
| `FakeHandles.FakeIPTables.Restore` | pkg/utils/iptables/testing/fake_iptables.go:283-360 | the line loop computes the restored tables and the outcome, and keeps the normal form |
| `PolicyTexts.SetTextInjective` | pkg/policy/policy.go:259-299 | different sets of policies whose hashes do not collide have different names |
| `PolicyTexts.SetTextIs` | pkg/policy/policy.go:259-299 | the names part by part: ip, sip or dip with the index, snet or dnet with the index, and the hash of name_namespace |
| `PolicyTexts.ChainTextInjective` | pkg/policy/policy.go:718-720 | so do their chains |
| `PolicyTexts.SetRuleTextInjective` | pkg/policy/policy.go:670-711 | different rules of a chain have different texts |
| `HashNames.HashFor` | pkg/policy/policy.go:726-730 | up to 32^16 policies can be told apart by some hash of the right shape |
| `PolicyTexts.GeneratedRestores` | pkg/policy/policy.go:505-594 | the generated text, restored, for policies whose hashes do not collide: stale policy chains gone, other chains unchanged, and each policy's chain exact if and only if it was flushed or held a prefix of the new rules |
| `PolicyTexts.GeneratedExact` | pkg/policy/policy.go:505-594 | with the controller's fixed-length chain names, every policy's chain holds exactly its rules in order |
| `PolicyTextSync.SyncIptables` | pkg/policy/policy.go:505-532 | the whole path on text: save, parse chain lines, write both buffers, restore; afterwards each policy's chain, read word by word, has the compiled rules one by one, unless a stale chain's name extends its name |
| `RuleReadings.ReadBack` | pkg/policy/policy.go:664-711 | the words of a rule are read as its own comment, protocol, source set, destination set, ports and target |
| `RuleReadings.ChainReads` | pkg/policy/policy.go:555-594 | so is the text of every rule of a policy's chain, in order |
| `PolicyTextVerdicts.RestoredVerdict` | pkg/policy/policy.go:505-594 | a packet evaluated against the restored text, with sets by name: the policy's chain accepts exactly what the policy allows |
| `PolicyTextSync.StaleEntryParts` | pkg/policy/policy.go:651-654 | splitting a printed entry gives the element and its options back |
| `PolicyTextSync.ListedRuleDeletes` | pkg/policy/policy.go:1007-1016 | the words of a listed rule without the first two and without quotes delete that very rule, if and only if no word begins or ends with a quote |
| `MixStores.Difference` | pkg/ipam/backend/neutron/mix_store.go:279-297 | the first address of the longer new list that the old list lacks |
| `MixStores.DifferenceFinds` | pkg/ipam/backend/neutron/mix_store.go:279-297 | on a longer duplicate-free list there always is one |
| `MixStores.FindIndex` | pkg/ipam/backend/neutron/mix_store.go:245-252 | the first index of the address, if any |
| `MixStores.FindRecord` | pkg/ipam/backend/neutron/mix_store.go:200-214 | the first file in directory order whose trimmed contents are the trimmed id |
| `MixStores.MixStore.Reserve` | pkg/ipam/backend/neutron/mix_store.go:131-191 | what is submitted, the new addresses and records, and the outcome, on every path |
| `MixStores.MixStore.ReleaseByID` | pkg/ipam/backend/neutron/mix_store.go:195-243 | what is submitted and the new addresses and records, on every path |
| `MixStores.IPAllocator.Get` | pkg/ipam/backend/allocator/allocator.go:33-52 | one reservation under the lock, which is free again afterwards; the version, address, mask and gateway it returns |
| `MixStores.IPAllocator.Release` | pkg/ipam/backend/allocator/allocator.go:55-60 | one release under the lock, which is free again afterwards |
| `MixStores.ReserveFails` | pkg/ipam/backend/neutron/mix_store.go:131-191 | the exact condition of success and the address given; a failure writes no record, but an update the server made stands |
| `MixStores.ReserveErrors` | pkg/ipam/backend/neutron/mix_store.go:131-191 | which error a reservation fails with, each if and only if |
| `MixStores.ReleaseExactly` | pkg/ipam/backend/neutron/mix_store.go:195-243 | an unknown id succeeds without effect, a refused update fails without effect, and otherwise the record goes |
| `MixStores.GetGives` | pkg/ipam/backend/neutron/mix_store.go:131-191 | with a willing server and disk it fails only at the limit, and gives an address that was nobody's |
| `MixStores.RunSafe` | pkg/ipam/backend/neutron/mix_store.go:131-259 | over every run of locked calls: at most 20 addresses, none twice, every record for an address of the port |
| `MixStores.RunKeepsOwner` | pkg/ipam/backend/neutron/mix_store.go:131-259 | an owner keeps its address until its id is released |
| `MixStores.ReserveThenRelease` | pkg/ipam/backend/neutron/mix_store.go:131-243 | releasing a new id after reserving it restores addresses and records |
| `MixStores.LockFileKept` | pkg/ipam/backend/neutron/mix_store.go:200-241 | when every record has an owner, a release removes the lock file exactly when the id is blank |
| `RouteTables.FindFreeTable` | cmd/veth-host/veth-host.go:166-185 | the least table from the start on that no rule of either family uses |
| `RouteTables.Host.AddPolicyRules` | cmd/veth-host/veth-host.go:187-244 | the retry loop is a run of the step machine, ending in a claimed table or failure; the table is the least free one for some attempt's start, and it succeeds whenever some attempt finds a table that admits all routes and that no earlier attempt found |
| `RouteTables.MutualExclusion` | cmd/veth-host/veth-host.go:187-244 | for any number of invocations and any interleaving, two that succeed and share a route have different tables |
| `RouteTables.ExclusionExact` | cmd/veth-host/veth-host.go:187-244 | and only then: without a common route some interleaving ends with one table for both |
| `RouteTables.DoneTable` | cmd/veth-host/veth-host.go:187-244 | the table is at or above the start, has its rule, and holds all routes of the invocation |
| `RouteTables.FailsAfterTen` | cmd/veth-host/veth-host.go:196-225 | an invocation whose looks find tables and whose rule is accepted fails only after ten looks |
| `RouteTables.TablesNotShared` | cmd/veth-host/veth-host.go:187-244 | routes are added in sorted order, so invocations with a common least route never have routes in one table, at any moment |
| `RouteTables.AtMostTenAttempts` | cmd/veth-host/veth-host.go:196-225 | no invocation looks for a table more than ten times |
| `Bytes.SameNetworkIsBlock` | pkg/ipam/backend/allocator/range.go:102-104 | the masked comparison byte by byte says that the addresses have the same network number |
| `Bytes.LastValue` | pkg/ipam/backend/allocator/range.go:154-158 | the bytes with their host bits set have the value of the last address of the network |
| `AddressRanges.ComputeLastIP` | pkg/ipam/backend/allocator/range.go:154-164 | the loop builds those bytes and takes one off the last byte for IPv4 |
| `AddressRanges.LastIPValue` | pkg/ipam/backend/allocator/range.go:154-164 | network + size - 2 for IPv4, without underflow, and network + size - 1 for IPv6 |
| `AddressRanges.Canonicalize` | pkg/ipam/backend/allocator/range.go:27-86 | success exactly when the subnet is good and the given fields fit into it; then the range filled in: given addresses kept, an omitted gateway or start one after the subnet's address, an omitted end the last address; otherwise the range as the failure leaves it |
| `AddressRanges.CanonicalizeGives` | pkg/ipam/backend/allocator/range.go:27-86 | the value of every field of the result |
| `AddressRanges.CanonicalizeSucceeds` | pkg/ipam/backend/allocator/range.go:27-86 | success exactly when the subnet has its mask's family and at least two host bits, the given addresses lie in it, and a given end is not below the start |
| `AddressRanges.FailureKeeps` | pkg/ipam/backend/allocator/range.go:27-86 | a failure keeps the address of every given field and fills in gateway and start at most |
| `AddressRanges.FailureStops` | pkg/ipam/backend/allocator/range.go:27-86 | nothing is rewritten after the field that fails |
| `AddressRanges.CanonicalValue` | pkg/ipam/backend/allocator/range.go:142-152 | the standard form of an address has the same number, without the prefix of a mapped address |
| `AddressRanges.WideMask` | pkg/ipam/backend/allocator/range.go:102-104 | a sixteen-byte mask on an IPv4 subnet counts by its last 32 bits |
| `AddressRanges.CanonicalizeSettles` | pkg/ipam/backend/allocator/range.go:27-86 | on success gateway, start and end lie inside the subnet if and only if the defaults that were needed are usable |
| `AddressRanges.CanonicalizeOrders` | pkg/ipam/backend/allocator/range.go:51-83 | with usable bounds, start is at most end, except exactly when an IPv4 start is the broadcast address and no end was given |
| `AddressRanges.CanonicalizeFixed` | pkg/ipam/backend/allocator/range.go:27-86 | a settled non-empty range is a fixed point |
| `AddressRanges.NextInside` | pkg/ipam/backend/allocator/range.go:44-46 | for a mask with at least one bit, the default gateway is inside exactly when the subnet is not given by its last address |
| `AddressRanges.NextProper` | pkg/ipam/backend/allocator/range.go:44-69 | it is usable as gateway or start exactly when, besides, it is not a mapped IPv4 address |
| `AddressRanges.DefaultEndContained` | pkg/ipam/backend/allocator/range.go:81-83 | the default IPv6 end is in the range exactly when it is not a mapped IPv4 address |
| `AddressRanges.MappedEndExists` | pkg/ipam/backend/allocator/range.go:154-164 | for ::/80 it is one |
| `AddressRanges.ContainsIsInterval` | pkg/ipam/backend/allocator/range.go:89-122 | a range with its bounds in the subnet contains exactly the addresses of its family from start to end |
| `AddressRanges.OverlapsExact` | pkg/ipam/backend/allocator/range.go:125-135 | non-empty such ranges overlap exactly when they share an address |
| `RangeSets.RangeSet.Canonicalize` | pkg/ipam/backend/allocator/range_set.go:58-88 | success exactly when all ranges canonicalize, are of one family and no two overlap; a failure by the first range that fails or is of another family, or by an overlap, with the ranges rewritten in place exactly so far |
| `RangeSets.RangeSet.RangeFor` | pkg/ipam/backend/allocator/range_set.go:30-42 | the first range that contains the address, or none exactly when there is none |
| `RangeSets.RangeSet.Overlaps` | pkg/ipam/backend/allocator/range_set.go:45-54 | some pair of ranges overlaps |
| `RangeSets.SetBounded` | pkg/ipam/backend/allocator/range_set.go:58-88 | the ranges of a canonicalized set have their bounds in the subnet if and only if the defaults that were needed are usable |
| `RangeSets.AcceptedExactly` | pkg/ipam/backend/allocator/range_set.go:58-88 | filled-in ranges form a set exactly when there are some, they are of one family and no two share an address |
| `RangeSets.RangeForUnique` | pkg/ipam/backend/allocator/range_set.go:30-42 | in a canonicalized set no two ranges contain one address |
| `RangeSets.SetsOverlapExact` | pkg/ipam/backend/allocator/range_set.go:45-54 | two sets overlap exactly when some address is in both |
| `Scheduling.LessIgnoresNames` | pkg/scheduling/scheduling.go:94-113 | for slash-free namespaces the order is priority, then time, then namespace: names never matter |
| `Scheduling.LessIrreflexive` | pkg/scheduling/scheduling.go:94-113 | no pod goes before itself |
| `Scheduling.LessAsymmetric` | pkg/scheduling/scheduling.go:94-113 | two pods never go before each other |
| `Scheduling.LessTransitive` | pkg/scheduling/scheduling.go:94-113 | the order is transitive |
| `Scheduling.TiesExactly` | pkg/scheduling/scheduling.go:94-113 | pods tie exactly when priority, time and namespace agree |
| `Scheduling.TiesTransitive` | pkg/scheduling/scheduling.go:94-113 | ties are transitive |
| `Scheduling.ParallelCollection` | pkg/scheduling/parallel.go:47-93 | the state after the workers' writes, and failure exactly when some node has no address or no counts |
| `Scheduling.CollectionConfluent` | pkg/scheduling/parallel.go:47-93 | the order of the writes does not matter |
| `Scheduling.NormalizeScore` | pkg/scheduling/scheduling.go:158-167 | every score scaled by the highest; division by zero exactly when there are scores and none is positive |
| `Scheduling.PipelineBounds` | pkg/scheduling/scheduling.go:115-204 | for nodes that pass the filter, collected in any order: a raw score is 36 less what the node has in use, no division by zero, results from 5 to 100, a less loaded node never below a more loaded one, a least loaded one at 100 |
| `Scheduling.RawScoreIs` | pkg/scheduling/scheduling.go:184-197 | the raw score of a collected node is 36 less its interfaces and its addresses |
| `Scheduling.FilterInData` | pkg/scheduling/parallel.go:37-40 | a collected node passes the filter exactly when its two values are above 4 and above -4 |
| `Scheduling.FinalScoreIs` | pkg/scheduling/scheduling.go:158-167 | a final score is the percentage, rounded down, that the node's raw score is of a least loaded node's |
| `Counterexamples.SharedExists` | pkg/policy/event.go:41-51 | two pods with one address, for which a deletion goes wrong |
| `Counterexamples.OutdatedExists` | pkg/policy/event.go:29-39 | a pod that loses a label, for which an update goes wrong |
| `Counterexamples.DisabledPeerCrashes` | pkg/policy/policy.go:759-787 | an egress-only policy with an ingress peer, which crashes the edit |
| `Counterexamples.BadSelectorCrashes` | pkg/policy/policy.go:1025-1030 | the same with a namespace selector that does not convert, for every pod |
| `Counterexamples.BadSelectorPanics` | pkg/policy/policy.go:1025-1030 | in an enabled direction it crashes the compilation |
| `Counterexamples.LastWordLost` | pkg/utils/iptables/save_restore.go:108-122 | "ab c" without a newline is read as "ab" |
| `Counterexamples.LastLineLost` | pkg/utils/iptables/save_restore.go:103-128 | "ab " without a newline is read as nothing |
| `Counterexamples.LeftoverSurvives` | pkg/utils/iptables/testing/fake_iptables.go:311-320 | a table in which an old rule of a policy chain survives the restore |
| `Counterexamples.LastAddressSubnet` | pkg/ipam/backend/allocator/range.go:44-46 | 10.0.0.255/24 gets the gateway 10.0.1.0 |

## Left out

- Errors of the kernel handles, of the listers and of file and network calls, except the refusals and disk errors of the mix store: the model's commands succeed, as the fakes' do.
- The exec runners for iptables and ipset, file locks, dbus, informers, leader election and event queues; each handle call is one atomic command.
- Label selector parsing: a selector is a predicate on labels, or one that does not convert.
- SHA-256 and base32: hashed names are represented by what is hashed (structured model) or given by a hash of 16 base32 characters that does not collide on the policies at hand (text model).
- CIDR parsing and printing in the controller: a network is its bit prefix, or one that does not parse; the TrimSuffix of "/32" is not modelled.
- Ports are texts that are compared as texts; port ranges and named ports are not resolved.
- Tables other than filter in the controller; the text layer has all tables.
- Jumps nest at most `depth` deep in the packet evaluation; three levels are all the controller uses.
- The text of the rules in pod chains and of the jumps to them: the text model covers what syncIptables writes; those rules are structured only.
- deletePodRuleByKeyword follows the shape of real rule listings, which begin with "-A chain"; the fake's ListRule omits it.
- The real ipset ignores options when it deletes an entry; convergence is stated for the fake, which keys an entry with its options.
- Legal: an update that makes a policy's selector unconvertible, which the API server refuses, and a pod that changes its address or its node, are not legal events of a run; `SyncSafeExactly` says when the former would dangle.
- MergedBlocks: addresses are bit strings of any length; for addresses of one width the exact condition is the one of `MergedExact` at each of them.
- Where a network is listed both plain and as nomatch, nomatch decides in the model; the kernel keeps one element per network. `MergedExact` rests on this where an exception equals another block.
- Non-contiguous masks, which Canonicalize always rejects, are not represented, and NextIP keeps the length of its argument.
- Address texts in the mix store are canonical, so that a record's file name is the server's text.
- The sentinel -1 for "no table" in addPolicyRules is an option type, the two families share one rule list in the sequential method, and sleeping between attempts has no effect in the model.
- mix_route_store, eni_store, separate_store, the controller and router packages, the CNI commands, qos and the AES helpers.
