# Verified model of k8s-vpcnet

k8s-vpcnet gives Kubernetes pods addresses from AWS network interfaces (ENIs). A central controller
creates and attaches ENIs and records them on the node object; a daemon on each node configures the
attached ENIs it reads there, gives their secondary addresses to an IP allocator, hands them out to
pods, and taints the node when none is left. This project models those four pieces in Dafny, each
as the code does it, and proves properties of every run, every interleaving and every packet.

| file | models |
|---|---|
| `Net.dfy`, `Runs.dfy` | addresses, CIDR blocks, ENI records, the pool of a list of ENIs; induction over runs |
| `Slices.dfy` | Go slices, the ENI records that hold them, gathering, sorting and rotating the pool |
| `AllocatorSpec.dfy`, `Allocator.dfy` | the allocator's lock sections as functions; the object whose methods refine them |
| `CrashSafety.dfy` | runs with failing and torn writes, crashes and restarts: safety, durability, no leaks |
| `Linearizability.dfy` | interleavings of callers between Allocate's two critical sections |
| `Conservation.dfy` | what the free count says |
| `NodeObject.dfy` | the node, its mutators, the versioned API server, the optimistic update loop |
| `EniController.dfy`, `Provisioning.dfy` | the provisioning controller and its runs with arbitrarily stale reads |
| `ProvisioningAnswers.dfy` | what one call does and reports; that what is recorded is what EC2 answered |
| `ProvisioningFresh.dfy`, `ProvisioningLosses.dfy`, `ProvisioningStops.dfy` | how many steps it takes; exactly what stale reads lose; exactly when it stops for good |
| `TaintProtocol.dfy` | IPAM Add and Del, the reconciler, the taint |
| `Routing.dfy`, `Packets.dfy`, `Masquerade.dfy` | the compiled routes, rules and NAT chains, and every packet's fate |
| `IfManager.dfy`, `IfController.dfy` | the host object with ConfigureRoutes and ConfigureIPMasq; the daemon's handleNode |
| `EndToEnd.dfy`, `Wiring.dfy`, `PodWiring.dfy` | all of it together: provenance; one interface's setup; every pool address's wiring |

`dafny verify dfyconfig.toml` checks the whole project.

The environment is explicit. A write to the state file ends in one of four ways; an update of the
node meets any list of other clients' writes and any delivery outcome; EC2 and kernel answers,
including which call is refused, are parameters. Theorems range over all of them.

## Results a reader would not expect

- The address walk has no `break`, so the allocator returns the last freed address whenever it can,
  the opposite of what its comments say; otherwise it walks down from that address, and then down
  from the top (`PickMeaning`). `PickReturnsLastFreed` is the exact condition;
  `IntendedPickAvoidsLastFreed` proves the documented intent of the variant that stops early, and
  `IntendedPickNeedsDistinct` shows it needs a pool without repeats.
- `ErrEmptyPool`, documented for an empty pool, is never returned without a race: the free check
  answers first (`AtomicOutcome`, `ErrorKindShowsLostRace`).
- ReleaseByContainer frees one address of a container that has several (`ReleaseLeavesTheRest`).
- A stale read in the provisioning controller never breaks the record's shape
  (`StaleReadsAreSafe`), and never gives a device index to two attached interfaces
  (`StepKeepsDevices`). What it can do is lose an interface from the accounts and hand on a recorded
  position, both at the same steps: exactly when it records a list made from a version with other
  interfaces than the latest (`StepKeepsAccounts`, `StepOnlyGrows`, `LostTogether`).
- The attach step drops its write error, and EC2 does not attach twice. With reads of the current
  node, one attachment whose record is not committed, for whatever reason, stops provisioning for
  good, and nothing else does (`DroppedWriteGetsStuck`, `StoppedIff`, `StuckForever`).
- An exhausted node goes untainted exactly when an Add takes the last free address of an untainted
  node and its state write fails or its notification does not write, or when a new pool without a
  free address arrives, which notifies nobody (`StepKeepsTainted`).
- The daemon takes an interface name that exists as set up. A setup that is cut short after the name
  is given and before the last jump leaves its interface in the pool, at the next successful call,
  with an address that is not wired; one that fails later, at the last address's redirect, does no
  harm (`WiredIffFinishes`, `RetryWiresIffFinished`). That is the only way a pool address is not
  wired, however stale the controller's reads (`AlwaysWired`).
- Routing and NAT differ on exactly two kinds of packet: to an ENI-subnet address outside every
  exempt block, masqueraded on the ENI, and multicast that leaves by the primary interface
  unmasqueraded (`RoutingAgreesWithNat`).
- A service or cluster block equal to the ENI's subnet takes its route: packets to neighbours then
  go through the gateway (`LinkMeaning`).

## Model

| member | source | states |
|---|---|---|
| Net.BlockIsInterval | pkg/config/config.go:17-30 | a canonical block is the interval of its size that starts at its base, so matching prefix bits means lying in it |
| Slices.SortInPlace | pkg/allocator/allocator.go:113-114 | sorting through Less and Swap alone leaves the one ascending arrangement of the addresses |
| Slices.SortedUnique | pkg/allocator/allocator.go:222-235 | a multiset of addresses has only one ascending arrangement, so the library's choice of algorithm cannot matter |
| Slices.RotateSlice | pkg/allocator/allocator.go:122 | appending a slice's head behind its own tail, in the same backing array or a new one, is a rotation: the overlap is harmless |
| Slices.MoveToEnd | pkg/allocator/allocator.go:118-125 | the loop that rotates the slice it is indexing computes the specified rotation and writes only its own arrays |
| Slices.RotationEndsWithLast | pkg/allocator/allocator.go:119-124 | on any list containing the last freed address, with or without repeats, the loop ends in a cyclic rotation of it with that address last |
| Slices.RotationUnique | pkg/allocator/allocator.go:119-124 | on distinct addresses that rotation is the only one |
| Slices.RotationPermutes | pkg/allocator/allocator.go:119-124 | the loop loses, adds and repeats no address, and does nothing when the address is not there |
| Slices.Gather | pkg/allocator/allocator.go:104-107 | appending every ENI's list to a slice that starts without room gives the pool in an array of its own, whatever arrays the ENIs' slices share |
| Slices.OrderPool | pkg/allocator/allocator.go:104-125 | gathering, sorting in place and rotating leave the ordered pool in an array of its own and every ENI's own list as it was |
| AllocatorSpec.PickIffFree | pkg/allocator/allocator.go:127-141 | the commit finds an address exactly when the free count is positive, and what it finds is free |
| AllocatorSpec.CommitOutcome | pkg/allocator/allocator.go:101-174 | the panic branch is dead for every pool; the two exhaustion errors are exactly the exhausted pools, and leave the state alone |
| AllocatorSpec.AtomicOutcome | pkg/allocator/allocator.go:95-174 | an undisturbed Allocate reports no free addresses, success or a write failure, each under its exact condition |
| AllocatorSpec.CommitTakes | pkg/allocator/allocator.go:127-173 | a commit takes one free address, records it for its caller under an ENI that lists it, and changes nothing else |
| AllocatorSpec.PickMeaning | pkg/allocator/allocator.go:113-137 | which address is taken from every pool: the greatest free one up to the last freed address, or, without one or without a usable hint, the greatest free one |
| AllocatorSpec.PickReturnsLastFreed | pkg/allocator/allocator.go:116-137 | the last freed address is returned exactly when it is in the pool and free |
| AllocatorSpec.OwnerIsLast | pkg/allocator/allocator.go:143-151 | an address listed by several ENIs is attributed to the last of them |
| AllocatorSpec.FreedIsNext | pkg/allocator/allocator.go:127-141 | an address just released and still in the pool is the next one handed out |
| AllocatorSpec.IntendedPickAvoidsLastFreed | pkg/allocator/state.go:28 | stopping at the first free address returns the last freed one exactly when it is the only free one |
| AllocatorSpec.IntendedPickNeedsDistinct | pkg/allocator/state.go:28 | with a repeated address that intent fails |
| Allocator.New | pkg/allocator/allocator.go:52-80 | starts with no pool, allocations or hint without a file, from the file if it reads and decodes, and fails otherwise |
| Allocator.Allocator.Write | pkg/allocator/state.go:36-52 | the whole state is on disk after success; a failure leaves the old file, a torn one or the new one |
| Allocator.Allocator.SetENIs | pkg/allocator/allocator.go:82-93 | replaces the pool by the very records it is given, keeps allocations and hint, and persists |
| Allocator.Allocator.FreeAddressCount | pkg/allocator/allocator.go:202-220 | counts the pool's unallocated entries |
| Allocator.Allocator.Reserve | pkg/allocator/allocator.go:104-137 | gathering, ordering and walking settle on the specified address without touching an ENI's list |
| Allocator.Allocator.FindENI | pkg/allocator/allocator.go:143-151 | an address is attributed to the last ENI that lists it, and to none exactly when none does |
| Allocator.Allocator.CommitSection | pkg/allocator/allocator.go:101-174 | the second critical section refines its specification, never panics and keeps the ENI records |
| Allocator.Allocator.Allocate | pkg/allocator/allocator.go:95-174 | succeeds exactly when an address is free and the write completes; reports no free addresses exactly when none is |
| Allocator.Allocator.ReleaseByContainer | pkg/allocator/allocator.go:177-199 | frees one of the container's addresses, whichever its map iteration ends on, or none if it has none |
| CrashSafety.StepKeepsSafe | pkg/allocator/allocator.go:82-198 | every section, crash and restart keeps what callers hold recorded, and returns only unheld addresses |
| CrashSafety.AlwaysSafe | pkg/allocator/allocator.go:52-80 | in every run, held addresses are recorded for their holders in memory, and on disk whenever it is readable |
| CrashSafety.NoAddressHandedOutTwice | pkg/allocator/allocator.go:167-198 | between two successful replies with one address, the first holder's own release of it happened, despite failed and torn writes, crashes and restarts |
| CrashSafety.RestartRestores | pkg/allocator/allocator.go:52-93 | after any step whose state write completes, any number of crashes and restarts gives back exactly the memory it left: pool, allocations and hint; and a restart is always possible |
| CrashSafety.ReleasedStaysFree | pkg/allocator/allocator.go:177-199 | an address whose release was reported successful is allocated in no later state, across crashes and restarts, unless a later commit took it |
| CrashSafety.FieldsMeaning | pkg/allocator/allocator.go:82-199 | only releases that free something change the hint and drop an allocation, only pool changes change the pool, only commits add an allocation, whatever becomes of the write |
| CrashSafety.HintIsLastFreed | pkg/allocator/allocator.go:189-192 | while the process runs, the hint is the address freed last |
| CrashSafety.PoolIsLastSet | pkg/allocator/allocator.go:82-93 | while the process runs, the pool is the one set last |
| Linearizability.CommitIsAtomic | pkg/allocator/allocator.go:95-174 | a commit has the effect and response of a whole atomic Allocate at that moment, and fails for exhaustion exactly when nothing is free there |
| Linearizability.Linearizable | pkg/allocator/allocator.go:95-174 | every interleaving of callers, releases and pool changes gives the store and responses of atomic calls placed at one of their own sections |
| Linearizability.ErrorKindShowsLostRace | pkg/allocator/allocator.go:109-141 | the empty-pool and could-not-allocate errors imply another commit or pool change between the call's two sections |
| Conservation.Conserved | pkg/allocator/allocator.go:202-220 | free plus allocated pool addresses is the pool, for every distinct pool |
| Conservation.CommitTakesOne | pkg/allocator/allocator.go:167-173 | an Allocate that finds an address lowers the free count by exactly one, even if its write fails |
| Conservation.ReleaseFreesOne | pkg/allocator/allocator.go:189-192 | a release raises the free count by one exactly when what it frees is in the pool |
| Conservation.ReleaseLeavesTheRest | pkg/allocator/allocator.go:181-192 | a release empties a container exactly when the container had at most one address |
| Conservation.ExactlyTheFreeOnesSucceed | pkg/allocator/allocator.go:95-174 | exactly as many consecutive Allocates succeed as there are different free addresses, then all report exhaustion |
| Conservation.HandedOutAreDifferent | pkg/allocator/allocator.go:95-174 | consecutive Allocates hand out different addresses, all of them free before |
| Conservation.WholePoolIsUsable | pkg/allocator/allocator_test.go:63-78 | a fresh pool of n distinct addresses serves exactly n Allocates |
| NodeObject.ScanTaints | pkg/objutil/node.go:52-61 | the flag loop finds a taint with the key and effect exactly when there is one |
| NodeObject.KeepOthers | pkg/objutil/node.go:74-85 | the collecting loop computes the specified removal |
| NodeObject.AddTaintCount | pkg/objutil/node.go:63-72 | adding puts one more taint with the key and effect and no value there, and changes the number of no other |
| NodeObject.RemoveTaintMeaning | pkg/objutil/node.go:74-85 | removal leaves none of the taint and every other taint as often as it was |
| NodeObject.TaintRoundTrip | pkg/objutil/node.go:63-85 | removing what was added gives back the node exactly when it did not have the taint |
| NodeObject.ApiServer.Update | pkg/objutil/node.go:30-37 | a write is accepted only for the version it read |
| NodeObject.UpdateNode | pkg/objutil/node.go:21-48 | the retry loop refines its specification; it makes one attempt for each conflict it meets and one more, unless the node cannot be read again |
| NodeObject.CommitsMeaning | pkg/objutil/node.go:21-48 | under which disturbances an update is committed, and under which the caller is told so |
| NodeObject.UpdateMeaning | pkg/objutil/node.go:21-48 | whatever other writers do, a committed object is the mutator applied to the immediately preceding version, and success means committed |
| NodeObject.OthersSurvive | pkg/objutil/node.go:19-48 | all labels, taints and other annotations of the immediately preceding version survive an annotation update |
| NodeObject.OthersSurviveLabel | pkg/objutil/node.go:19-48 | all annotations, taints and other labels survive a label update |
| NodeObject.OthersSurviveTaint | pkg/objutil/node.go:19-85 | all labels, annotations and other taints survive a taint update, which leaves the taint as wanted |
| EniController.PodAddresses | cmd/eni-controller/enicontroller/controller.go:419-424 | the filter loop keeps exactly the non-primary addresses, in order |
| EniController.CreateENI | cmd/eni-controller/enicontroller/controller.go:405-432 | asks for the recorded subnet and groups and one address less than the type allows, and makes of the answer an unattached interface |
| EniController.AddInterface | cmd/eni-controller/enicontroller/controller.go:287-310 | the create step: numbers the interface by its position, gives it the instance's subnet, and reports what became of its record |
| EniController.AttachInterface | cmd/eni-controller/enicontroller/controller.go:262-282 | the attach step: reports the attachment as a success whatever became of its record |
| EniController.AttachENI | cmd/eni-controller/enicontroller/controller.go:435-469 | the interface is attached at its own index, and stays so when its deletion policy is refused |
| EniController.HandleNode | cmd/eni-controller/enicontroller/controller.go:147-313 | one call takes the one planned step, with every error path, and reports success for an attach whose record was refused |
| Provisioning.StepKeepsOK | cmd/eni-controller/enicontroller/controller.go:221-310 | every call and every other client's write keeps all versions in order |
| Provisioning.StaleReadsAreSafe | cmd/eni-controller/enicontroller/controller.go:221-310 | reading arbitrary earlier versions, every committed version has at most limit - 1 interfaces, index = position + 1, at most the last unattached, recorded-attached only if attached at EC2 |
| Provisioning.BareNodeOK | cmd/eni-controller/enicontroller/controller.go:239-247 | a node nothing was ever recorded on is a start for that |
| Provisioning.RecordedPoolIsSound | cmd/eni-controller/enicontroller/controller.go:419-432 | any version's pool has no repeats, no interface address of any created interface, and no address with two owners |
| Provisioning.StepAdds | cmd/eni-controller/enicontroller/controller.go:178-312 | a step, from whatever version it read, continues the history by versions with the latest one's part and at most one commit of its own change |
| ProvisioningAnswers.ReadyCall | cmd/eni-controller/enicontroller/controller.go:262-312 | on a labelled version that makes sense: what a call attaches, creates and asks for, and exactly when it reports success |
| ProvisioningAnswers.UnreadyCall | cmd/eni-controller/enicontroller/controller.go:161-259 | on any other version: nothing at EC2, and exactly when it reports success |
| ProvisioningAnswers.CreateMeaning | cmd/eni-controller/enicontroller/controller.go:287-310 | a step creates an interface only as EC2 answered, with the subnet and number after the version it read, and changes none |
| ProvisioningAnswers.CreatedAsAnswered | cmd/eni-controller/enicontroller/controller.go:287-310 | in every run with stale reads, every interface ever created has the identity, MAC and addresses EC2 answered in some step, and the subnet of the info in the version that step read |
| ProvisioningAnswers.RecordedAsAnswered | cmd/eni-controller/enicontroller/controller.go:287-310 | and so has every interface any version records |
| ProvisioningAnswers.AnswersInOrder | cmd/eni-controller/enicontroller/controller.go:419-424 | the pod addresses keep EC2's order |
| ProvisioningAnswers.AlwaysInSubnet | cmd/eni-controller/enicontroller/controller.go:202-217 | if EC2 describes one subnet, every info, every created interface and hence every recorded one has it, in every state of every run |
| ProvisioningAnswers.InfoIsDescribed | cmd/eni-controller/enicontroller/controller.go:182-233 | every info ever recorded is, whole, what EC2 described in some call |
| ProvisioningAnswers.AlwaysIdentified | cmd/eni-controller/enicontroller/controller.go:248-259 | in every run the node's label, if it has one, is its provider's instance identity |
| Provisioning.StepKeepsDevices | cmd/eni-controller/enicontroller/controller.go:441-447 | from whatever version read, a device index is never given to two interfaces, if EC2 attaches only what is free where it is free |
| Provisioning.AttachedAtOneIndex | cmd/eni-controller/enicontroller/controller.go:262-282 | so any two versions that record an interface as attached at one index record the same one |
| ProvisioningFresh.CallMakesOneStep | cmd/eni-controller/enicontroller/controller.go:178-312 | without errors a call takes exactly one of the steps left; with none left it changes nothing |
| ProvisioningFresh.BareNodeStepCount | cmd/eni-controller/enicontroller/controller.go:178-312 | a bare node changes in exactly its first 2 + 2 * (limit - 1) calls and never after |
| ProvisioningFresh.FixedPointIsComplete | cmd/eni-controller/enicontroller/controller.go:262-312 | no steps left means info, label and all allowed interfaces recorded and attached, and conversely |
| ProvisioningLosses.StepKeepsAccounts | cmd/eni-controller/enicontroller/controller.go:285-310 | from whatever version read, a step keeps "created is recorded plus orphaned, disjointly" exactly when what it records, if anything, was made from a version with the latest one's interfaces |
| ProvisioningLosses.AlwaysAccounted | cmd/eni-controller/enicontroller/controller.go:285-310 | in every run, all states are accounted for exactly when all steps are such |
| ProvisioningLosses.StepOnlyGrows | cmd/eni-controller/enicontroller/controller.go:262-310 | from whatever version read, no position changes hands exactly when what the step records, if anything, was made from a version with as many interfaces as the latest |
| ProvisioningLosses.AlwaysOnlyGrows | cmd/eni-controller/enicontroller/controller.go:262-310 | in every run, later versions record the same interfaces at the same positions, and perhaps more, exactly when all steps are such |
| ProvisioningLosses.LostTogether | cmd/eni-controller/enicontroller/controller.go:262-310 | while no position has changed hands, a step loses an interface exactly when it hands on a position |
| ProvisioningLosses.CurrentReadKeeps | cmd/eni-controller/enicontroller/controller.go:147-313 | a call that reads the current controller's part keeps both |
| ProvisioningLosses.StaleCreateLosesInterface | cmd/eni-controller/enicontroller/controller.go:287-310 | two committed creates from one version, whatever others write meanwhile, lose the first interface and change an index's owner |
| ProvisioningStops.DroppedWriteGetsStuck | cmd/eni-controller/enicontroller/controller.go:262-282 | with a current read, a step makes the next attach impossible exactly when it attaches an interface and its record is not committed, for whatever reason |
| ProvisioningStops.DoomedStep | cmd/eni-controller/enicontroller/controller.go:262-282 | from then on a step with a current read changes neither EC2 nor the recorded interfaces, and every call on a node with info and label fails and changes nothing |
| ProvisioningStops.StoppedIff | cmd/eni-controller/enicontroller/controller.go:262-310 | over runs with current reads, provisioning has stopped exactly when some earlier step attached an interface and did not record it |
| ProvisioningStops.StuckForever | cmd/eni-controller/enicontroller/controller.go:262-282 | over such runs, once stopped it stays stopped: nothing is created, attached or recorded any more, labelled or not |
| TaintProtocol.Reconciler.PoolFull | cmd/vpcnet-daemon/reconciler/reconciler.go:149-168 | adds the taint if the cache lacks it, through the optimistic update |
| TaintProtocol.Reconciler.PoolNotFull | cmd/vpcnet-daemon/reconciler/reconciler.go:173-192 | removes the taint if the cache shows it |
| TaintProtocol.Reconciler.IpCheck | cmd/vpcnet-daemon/reconciler/reconciler.go:194-204 | notifies according to the free count |
| TaintProtocol.Reconciler.EvictPod | cmd/vpcnet-daemon/reconciler/reconciler.go:132-144 | the pod is deleted against the node the check has left, the check's error is ignored, and a pod already gone is no error |
| TaintProtocol.Service.Add | cmd/vpcnet-daemon/ipamsvc/ipam-service.go:58-94 | which notifications follow each allocation outcome, the allocator and node state left, that the response is what is then recorded for the caller, and that the pod is deleted only on exhaustion and only after them |
| TaintProtocol.Service.Del | cmd/vpcnet-daemon/ipamsvc/ipam-service.go:97-105 | a release that never touches the node |
| TaintProtocol.NotifiedMeaning | cmd/vpcnet-daemon/reconciler/reconciler.go:146-192 | for any cache and any fate of the update: a notification that writes leaves the taint as wanted, one that does not leaves it as it was, and when it reports success |
| TaintProtocol.TickMakesExact | cmd/vpcnet-daemon/reconciler/reconciler.go:194-204 | after a tick from any state, tainted iff exhausted, exactly when it was so before or the notification writes |
| TaintProtocol.AddMeaning | cmd/vpcnet-daemon/ipamsvc/ipam-service.go:58-94 | exactly when a successful Add leaves the taint exact, and exactly when an Add breaks "exhausted implies tainted" |
| TaintProtocol.FullAddMeaning | cmd/vpcnet-daemon/ipamsvc/ipam-service.go:58-75 | an Add on an exhausted node, tainted or not: it fails, and leaves the node tainted exactly when it was or one of its two notifications writes; without deletion it changes nothing |
| TaintProtocol.StepKeepsTainted | cmd/vpcnet-daemon/ipamsvc/ipam-service.go:58-105 | of Adds, Dels, pool changes, ticks and other clients' writes, exactly which break it |
| TaintProtocol.AlwaysTaintedWhenFull | cmd/vpcnet-daemon/ipamsvc/ipam-service.go:58-105 | in every run, with stale caches and failing updates and writes, an exhausted node is tainted throughout exactly when no step was one of those |
| TaintProtocol.CurrentCacheRemembers | cmd/vpcnet-daemon/reconciler/reconciler.go:146-192 | with a current cache and an update that succeeds, a tick or successful Add leaves the taint exact, and an Add whose state write completes never breaks the protocol |
| TaintProtocol.OffStep | cmd/vpcnet-daemon/reconciler/reconciler.go:149-197 | with tainting switched off no step of ours touches the node, whatever caches and API answers, and a tick reports success |
| TaintProtocol.OffLeavesNode | cmd/vpcnet-daemon/reconciler/reconciler.go:149-197 | so in every run the node's history is exactly what other clients made it |
| Routing.GatewayIsFirstAddress | pkg/ifmgr/ifmgr_linux.go:71-73 | incrementing the last octet gives network + 1 inside the subnet, without wrapping, exactly for prefixes of at most 31 bits |
| Routing.TablesAreSeparate | pkg/ifmgr/ifmgr_linux.go:17-23 | tables of indices 1 to 14 differ from each other and from the kernel's own |
| Routing.ConfiguredMeaning | pkg/ifmgr/ifmgr_linux.go:146-183 | success exactly when no kernel call fails and no block has host bits set, and then everything is installed |
| Routing.TableRoutesEveryPacket | pkg/ifmgr/ifmgr_linux.go:75-153 | the ENI's table answers for every destination: by the ENI iff in the service, cluster, subnet or VPC-routed blocks, else by the primary interface, with overlapping, repeated or all-covering blocks; always by the ENI without masquerading; and with its exact next hop |
| Routing.LinkMeaning | pkg/ifmgr/ifmgr_linux.go:71-139 | the next hop is on the link exactly when masquerading is on, the longest matching block is the subnet's, and the service and cluster blocks are others; otherwise it is the subnet's gateway |
| Packets.PodPacket | pkg/ifmgr/ifmgr_linux.go:155-181 | a pod packet to a non-local destination is resolved in its own ENI's table and never falls through, with its exact device and next hop |
| Packets.PacketToLocalPod | pkg/ifmgr/ifmgr_linux.go:159-166 | a packet to a local pod is resolved in the main table if that has a route |
| Packets.PacketToHost | pkg/ifmgr/ifmgr_linux.go:17-23 | a packet to the host itself is resolved in the local table |
| Packets.ConfigureExtendsWired | pkg/ifmgr/ifmgr_linux.go:146-183 | configuring one more ENI keeps every earlier ENI's tables and rules |
| Packets.KernelTablesUntouched | pkg/ifmgr/ifmgr_linux.go:75-144 | local, main and default tables are never written |
| Packets.OtherTrafficUnchanged | pkg/ifmgr/ifmgr_linux.go:146-181 | packets neither from nor to the new pods go where they went, even if configuring fails half way |
| Packets.PartialRoutes | pkg/ifmgr/ifmgr_linux.go:146-153 | a call refused anywhere leaves exactly the routes before the refused one |
| Packets.PartialRules | pkg/ifmgr/ifmgr_linux.go:155-181 | and exactly the rules whose calls came before it |
| Masquerade.CallsShareTheChain | pkg/ifmgr/ifmgr_linux.go:186-234 | a call, complete or failing anywhere, leaves the chain as far as the furthest call got; after a complete one it never changes |
| Masquerade.CanonicalShape | pkg/ifmgr/ifmgr_linux.go:196-212 | the chain accepts the cluster, service, 224.0.0.0/4 and VPC-routed blocks and no others, and then masquerades once |
| Masquerade.MasqueradeEachMeaning | pkg/ifmgr/ifmgr_linux.go:186-231 | any sequence of calls leaves the chain of the first; jumps, and redirects if configured, cover exactly the pods passed |
| Masquerade.VerdictMeaning | pkg/ifmgr/ifmgr_linux.go:189-218 | a pod packet to any destination is masqueraded exactly when that is in neither the cluster nor the service block, in no VPC-routed block, and not multicast |
| Masquerade.RoutingAgreesWithNat | pkg/ifmgr/ifmgr_linux.go:97-144 | for every destination, multicast included, the two exact kinds of packet on which routing and masquerading differ |
| Masquerade.AgreementInsideCluster | pkg/ifmgr/ifmgr_linux.go:97-144 | with the ENI subnet inside the cluster or VPC-routed blocks, and multicast aside: masqueraded iff leaving by the primary interface |
| Masquerade.PartialPods | pkg/ifmgr/ifmgr_linux.go:214-231 | a call refused anywhere leaves a pod's jump, and its redirect, exactly if that pod's own call came before the refused one |
| IfManager.GatewayOctets | pkg/ifmgr/ifmgr_linux.go:71-73 | the in-place increment on a copied address has the specified value |
| IfManager.Host.BuildRoutes | pkg/ifmgr/ifmgr_linux.go:75-144 | the branching and loop build the specified route list |
| IfManager.Host.ConfigureRoutes | pkg/ifmgr/ifmgr_linux.go:59-184 | the kernel state and result for every call that may be refused; nothing changes if a lookup fails first |
| IfManager.Host.ConfigureIPMasq | pkg/ifmgr/ifmgr_linux.go:186-234 | the chains and result for every iptables call that may fail |
| IfManager.Host.ConfigureInterface | pkg/ifmgr/ifmgr_linux.go:25-57 | the name is given first: a refused address or link-up leaves the interface named, a refused rename or an unknown MAC does not |
| IfController.SetUpEni | cmd/vpcnet-daemon/ifcontroller/controller.go:234-269 | an existing interface is skipped, otherwise link, routes and masquerading in order |
| IfController.SetUpEach | cmd/vpcnet-daemon/ifcontroller/controller.go:229-270 | the loop sets the attached ones up until one fails, and collects exactly their records |
| IfController.HandleNode | cmd/vpcnet-daemon/ifcontroller/controller.go:188-280 | sets up the attached ENIs of the version read and, only if all succeed, makes their records the pool |
| EndToEnd.StepKeepsSourced | cmd/vpcnet-daemon/ifcontroller/controller.go:229-280 | every step of the whole system keeps pools and allocations traceable to a recorded version |
| EndToEnd.AlwaysSourced | pkg/allocator/allocator.go:143-165 | every allocation ever reported matches an interface some version records as attached: address, ENI address and subnet; and that subnet is in an info some version records |
| EndToEnd.AllocatedInSubnet | pkg/allocator/allocator.go:154-161 | if EC2 describes one subnet for the node, every allocation ever reported is reported with it |
| EndToEnd.OwnedAtEc2 | cmd/eni-controller/enicontroller/controller.go:419-432 | such an address is a secondary address of exactly one created interface, attached at EC2, and no interface's own address |
| EndToEnd.PoolIsConserved | pkg/allocator/allocator.go:202-220 | in every reachable state the pool is distinct, and free plus allocated is its size |
| Wiring.FirstSetUpWires | cmd/vpcnet-daemon/ifcontroller/controller.go:238-270 | on a clean host with canonical blocks and no refused call, setting an ENI up succeeds and wires it |
| Wiring.WiredIffFinishes | cmd/vpcnet-daemon/ifcontroller/controller.go:234-270 | on a configured host, a setup that names the interface leaves it wired exactly when nothing up to the last jump is refused, unwired otherwise, and when it reports success |
| Wiring.ReportedHasRedirects | pkg/ifmgr/ifmgr_linux.go:220-231 | a setup that reports success leaves every address its metadata redirect to the host's own address, if a port is configured |
| Wiring.SetUpWires | cmd/vpcnet-daemon/ifcontroller/controller.go:234-270 | any setup that is not cut short keeps the host configured, and if it succeeds the ENI is among the configured ones, now or from before |
| Wiring.UnwiredStays | cmd/vpcnet-daemon/ifcontroller/controller.go:234-270 | an interface left unwired stays so whatever is set up next |
| PodWiring.HandledMeaning | cmd/vpcnet-daemon/ifcontroller/controller.go:203-280 | a successful call on the own node's record makes the attached interfaces, all and only them, the pool in memory and in the file; what it leaves alone, and when it reports success; allocations and hint are never touched |
| PodWiring.RetryWiresIffFinished | cmd/vpcnet-daemon/ifcontroller/controller.go:229-280 | at the next successful call the named interface is skipped and enters the pool, its last address wired exactly when its setup had finished |
| PodWiring.AlwaysWired | cmd/vpcnet-daemon/ifcontroller/controller.go:229-280 | in a run from a clean host, with arbitrarily stale reads by the controller and the daemon and daemon crashes, the host is configured for every ENI of the pool in memory and on disk exactly when no setup was cut short; otherwise some attached interface is never wired |
| PodWiring.PoolAddressIsWired | pkg/ifmgr/ifmgr_linux.go:155-181 | then every pool address has its to-rule, its from-rule, its jump, its table and one owner |
| PodWiring.EveryPodPacketIsRouted | pkg/ifmgr/ifmgr_linux.go:75-218 | then every packet from any pool address, multicast included, has its exact table, device, next hop and masquerading, and routing and masquerading agree |
| PodWiring.RecordedTablesAreSeparate | cmd/eni-controller/enicontroller/controller.go:293-294 | interfaces recorded in one version get different route tables, none of them the kernel's |

## Left out

- JSON and TOML encoding, CIDR and provider-ID parsing: an annotation or the state file either decodes to its record or does not; addresses key the allocation map directly because their text form is injective.
- Nil pointers: an ENI's CIDRBlock and the node's annotation and label maps are taken to be there.
- Other clients writing the controller's own annotations, label or the no-free-ips taint: writers are arbitrary otherwise.
- An instance changing its type between two calls: the limit is that of one type.
- The entries of the instance-type tables: any table with at most 15 interfaces per type.
- Node deletion, cleanupNode (a stub), work queues, backoff, the five-retry exit, logging, signal handling.
- Pods as objects: a deletion is the request made and the answer it gets.
- CNI installation, rt_tables naming, the gRPC service and the CNI plugin.
- IPv6, and kernel route attributes other than destination, device and gateway.
- Foreign iptables rules in the chains that are appended to, and foreign policy rules, in the packet theorems about a configured host.
- PodIPMasq switched off: ConfigureIPMasq is still called then, so agreement with NAT is not claimed.
- IfManager.Host.ConfigureInterface: the search for the MAC address, the link's address and its up state are not part of the host's state; each step's answer is a parameter, and of what they change only the name is kept, because only that decides whether the interface is set up again.
- Provisioning.StepKeepsDevices: assumes, with ProvisioningStops and PodWiring, that EC2 refuses to attach an interface that is attached already or at a device index that is taken.
- ProvisioningStops.StoppedIff: assumes, with DroppedWriteGetsStuck and StuckForever, reads of the current controller's part; a call that reads a stale version may plan from another list.
- PodWiring.AlwaysWired: the host is not rebooted. A daemon crash during a setup is the call it came before being refused, followed by the crash.
- TaintProtocol.AlwaysTaintedWhenFull: the calls are sequential, and other clients leave this taint alone.
- ProvisioningFresh.BareNodeStepCount: assumes EC2 and the API server answer, conflicts aside.
