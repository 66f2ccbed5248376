# A Dafny model of tetrapod

tetrapod connects the nodes of a Kubernetes cluster with WireGuard. Its control plane hands out
address blocks, its agents probe the paths to each other ("disco"), and an engine on each node keeps
the WireGuard device, its addresses and its routes in step with the configuration. This project
models these parts and proves what they are for.

`dafny verify dfyconfig.toml` checks everything. There is one module per file.

## The allocator and its controller

`PrefixBlocks` has prefix blocks (CIDR notation, section 3.1 of RFC 4632) as nodes of a binary trie,
and canonical covers: ascending lists of blocks without a mergeable pair. `FreeSpace` says what is
free, by cutting the trie at the used blocks; `Allocator` is the imperative computation (subtract,
span, merge, first fit), proved equal to it. The block operations that the program takes from a
library are written out from the sets of addresses they denote. `BlockCapacity`, `Claims`,
`ClaimRuns`, `ReconcilePass`, `ClaimCapacity`, `TornPatches`, `TornClaim` and `Reconciler` are the controller: what
one pass decides, a step system in which users create, edit and delete claims and blocks between any
two requests of the worker, and the reconciler as an object.

Assumed: one worker reconciles (the program configures no more); its reads see its own last status
patch; CIDRs have zero host bits and one address family; sizes are not negative; one namespace.
Labels are matched by an arbitrary predicate. The random shuffle is a parameter.

Findings:

- Status patches are merge patches by name. If a claim is deleted and re-created between the read and
  the patch, the new object, which has no status, gets only the fields that the patch changes: the
  patch is torn. The server refuses it unless it has the two required fields, generation and state
  (controlplane/config/crd/bases/controlplane.miscord.win_cidrclaims.yaml:121-123). One that has them
  may leave a ready claim with a CIDR of 4 addresses whose status says 1 (`TornClaim.SizeCanBeLost`).
  Worse, when a claim changes its CIDR within one block, the patch does not carry the block's name;
  the re-created claim then holds a CIDR that the allocator does not see, and the next claim is given
  the same one, though the only block was never touched. `TornClaim.CidrCanBeSharedByTwo` ends with
  two ready, up-to-date claims that share a CIDR. `TornPatches.SizesInRuns` and
  `TornPatches.GloballyDisjoint` say exactly for which runs sizes and disjointness hold.
- A ready claim keeps block and size when its spec asks for another size; sizes are therefore stated
  for `status.sizeBit` (`ReconcilePass.EditOfReadyClaim`).
- `isReady` takes the address of its loop variable. Since every listed block matches the selector,
  it makes no difference which block's labels are looked at afterwards.

## The prober

Times are whole milliseconds. `Ticker` is the back-off loop with its reset channel; `PacketManager`
the outstanding pings; `FailureDetection` puts both together with the reported state and a clock;
`ProbedEndpoint` is the endpoint object, each of whose handlers is proved to be one step of
`FailureDetection`. `PingPong` has two nodes and a network that loses, reorders and duplicates
packets. `ReceivePath` has the loops that hand a received packet on, and when they block. `PeerTables` has the tables of peers and endpoints and the choice of the active endpoint,
`Notifier` the status notifiers, which are the same for endpoints and peers.

Assumed: timers fire on time and woken goroutines act at once (`FailureDetection` only, where also a
ping that cannot be encrypted is a step); fewer than
2^32 endpoint IDs and packet IDs are used; calls of `SetEndpoints` and `SetPeers` come one after
another. A received ping reads the state before it takes the lock; `FailureDetection` therefore lets
it restart the ticker in any state, whatever the 30 s spacing, while the object of `ProbedEndpoint`
performs check and restart one after the other. Packets in `PingPong` carry the identity of the sending object
as a mark that no step looks at; a forged packet is not among the steps, since packets are sealed
under a key that only the two nodes share.

Findings:

- The sends on the receive path do not watch whether the other side was closed. An endpoint that is
  closed with a full channel blocks the loop of its peer for ever, and with the next packet for that
  peer the receiver, so nothing is received for any peer any more (`ReceivePath.StuckBehindEndpoint`).
  The same happens when a peer is closed between being looked up and getting its packet
  (`ReceivePath.StuckBehindPeer`). `ReceivePath.ProgressExactly` has the exact condition.
- A received ping that finds the endpoint connecting, but restarts its ticker only after a pong was
  accepted, makes a connected endpoint probe like a connecting one (`FailureDetection.LateRestart`),
  until the next change of state or priority.
- While pings cannot be encrypted and none is outstanding, a loss is not reported
  (`FailureDetection.SilenceUnnoticed`).

## WireGuard, addresses and routes

`WireGuard` has the device as a map of peers and configuring it with the documented meaning of
setting, replacing and removing, under cryptokey routing: an allowed IP belongs to one peer.
`WireGuardSync` proves that the incremental update has the effect of a full replacement; `WgEngine`
is the engine with its cached configuration, sorting its arguments in place; `RouteDiff` is the
difference of addresses and of routes and its application to addresses, `LinkRoutes` which routes are
wanted and its application to them; `Sorting` specifies sorting.

Assumed: public keys within one configuration are distinct, allowed IPs of different peers are
disjoint, configurations neither remove nor only update peers; the device applies an update entirely
or not at all and nobody else changes it; endpoints do not roam. Keys and networks are ordered as
their texts, which is taken to be injective, and represented by numbers in that order.

Findings:

- Before the first call the cached configuration is empty. A configuration that sets neither peers nor
  listen port, private key and firewall mark is therefore not sent until some other one was, and
  peers that the device had before remain (`WgEngine.PeerRemains`). `WgEngine.DeviceFollowsConfig`
  has the exact condition over all runs. A configuration with a listen port, which the program always
  builds, is never overlooked (`WgEngine.PortIsEnough`).
- Routes of scope 254 and the IPv6 multicast route are never deleted, also when nothing asks for them
  any more (`LinkRoutes.ProtectedRemains`). The comment in the program takes 254 for the link scope; in
  Linux it is the scope of the host, and link-scope routes, 253, are deleted.

## The packet filter

`Bpf` has an interpreter for classic BPF and the 23-instruction program; `Codec` the wire format of
disco messages; `Splitter` the demultiplexer; `EndToEnd` chains them. `ByteData` and `Powers` hold
bytes, bitwise AND and powers of two, `Collections` small facts about sequences and sets. Encryption is a parameter of which only is assumed that
opening what was sealed under the same key gives the message back. Packets fit into the 4096-byte
buffers of the splitter. The receiver skips frames of more than 2048 bytes and cuts the payload at
the UDP length; that the IP lengths agree with it is assumed. A load beyond the end of the packet rejects it, as in the kernel.

## The reconfiguration trigger

`ReconfigTrigger` has the callers that store a configuration and trigger, and the runner.

## Model

| member | source | states |
|---|---|---|
| PrefixBlocks.NestedOrDisjoint | controlplane/pkg/ipaddrutil/ipaddrutil.go:13-32 | two prefix blocks never overlap partially |
| PrefixBlocks.CoveredInOne | controlplane/pkg/ipaddrutil/ipaddrutil.go:32-46 | in a fully merged cover, an aligned block that is covered at all sits inside a single element, so looking at single elements is enough |
| PrefixBlocks.CanonicalUnique | controlplane/pkg/ipaddrutil/ipaddrutil.go:27-32 | a set of addresses has one merged ascending cover only |
| PrefixBlocks.CanonicalMinimal | controlplane/pkg/ipaddrutil/ipaddrutil.go:27-32 | the merged cover has the fewest blocks among all lists of blocks that denote the same addresses |
| FreeSpace.FreeDenotes | controlplane/pkg/ipaddrutil/ipaddrutil.go:7-33 | the reference free list covers exactly base minus the union of used |
| FreeSpace.FreeCanonical | controlplane/pkg/ipaddrutil/ipaddrutil.go:27-32 | the reference free list is ascending, disjoint and has no mergeable pair |
| FreeSpace.FirstFitLowest | controlplane/pkg/ipaddrutil/ipaddrutil.go:35-50 | first fit over the free list finds the lowest aligned free block of the size, and nothing if and only if there is none |
| Allocator.Subtract | controlplane/pkg/ipaddrutil/ipaddrutil.go:16-18 | what is left of a range without a block: sorted ranges with exactly the remaining addresses |
| Allocator.SubtractUsed | controlplane/pkg/ipaddrutil/ipaddrutil.go:9-21 | after the loop over used the ranges hold exactly the unused addresses of base |
| Allocator.SpanWithPrefixBlocks | controlplane/pkg/ipaddrutil/ipaddrutil.go:28-30 | a range is split into ascending prefix blocks with exactly its addresses |
| Allocator.MergeToPrefixBlocks | controlplane/pkg/ipaddrutil/ipaddrutil.go:32-32 | merging keeps the addresses and leaves no mergeable pair |
| Allocator.FreeBlocks | controlplane/pkg/ipaddrutil/ipaddrutil.go:8-33 | the computed free list is the reference free list of the set of used blocks, so order and repetition of used do not matter |
| Allocator.FindSubBlock | controlplane/pkg/ipaddrutil/ipaddrutil.go:36-50 | the early-return loop is first fit |
| Allocator.FindFree | controlplane/controllers/cidrclaim_controller.go:209-216 | free list and first fit together find the lowest free aligned block of the size, and nothing if and only if there is none |
| BlockCapacity.CapacityExact | controlplane/controllers/cidrclaim_controller.go:199-216 | a block in which only claims of one size hold space refuses the next one if and only if 2^(n-s) of them do, or 2^n - 1 for single addresses; never do more |
| Claims.AllocateExact | controlplane/controllers/cidrclaim_controller.go:174-222 | allocation yields a free aligned part of a selected block, and fails if and only if no selected block has one, whatever the shuffle |
| ClaimRuns.InvStep | controlplane/controllers/cidrclaim_controller.go:57-149 | every step of worker and users keeps: claims of the same block are disjoint, also against what the worker is about to write |
| ClaimRuns.NeverOverlapping | controlplane/controllers/cidrclaim_controller.go:57-149 | in every run claims whose status names the same block have disjoint CIDRs, whatever their state and whatever is edited |
| TornPatches.TornExactly | controlplane/controllers/cidrclaim_controller.go:224-238 | a torn patch that the server accepts leaves all sizes right if and only if it carries the whole allocation |
| TornPatches.SizesInRuns | controlplane/controllers/cidrclaim_controller.go:142-148 | throughout a run each CIDR has 2^status.sizeBit addresses and each ready claim has one, if and only if every torn patch that is accepted carries the whole allocation |
| TornPatches.TornNamed | controlplane/controllers/cidrclaim_controller.go:224-238 | a torn patch that the server accepts leaves a CIDR without a block if and only if it carries a CIDR but no name |
| TornPatches.GloballyDisjoint | controlplane/controllers/cidrclaim_controller.go:57-149 | with disjoint blocks that are not edited: throughout a run every CIDR, of whatever claim, lies in its block and all are disjoint, if and only if no torn patch that is accepted carries a CIDR without its block's name |
| TornClaim.SizeCanBeLost | controlplane/controllers/cidrclaim_controller.go:224-238 | a concrete run in which an accepted patch reaches a re-created claim and its status loses the size |
| TornClaim.CidrCanBeSharedByTwo | controlplane/controllers/cidrclaim_controller.go:112-119 | a concrete run with one untouched block that ends with two ready, up-to-date claims holding the same CIDR |
| ClaimCapacity.ReadyIffRoom | controlplane/controllers/cidrclaim_controller.go:129-149 | with one selected block a claim becomes ready if and only if fewer claims than the capacity hold space in it |
| ClaimCapacity.CapacityInRuns | controlplane/controllers/cidrclaim_controller.go:129-149 | the same in every run of claims of one size over a block that is not moved, with any deletions in between |
| ClaimCapacity.ExactlyCapacityReady | controlplane/controllers/cidrclaim_controller.go:129-149 | from an unused block, creating and reconciling any number of claims makes exactly as many ready as the capacity admits |
| ReconcilePass.FinishIsRun | controlplane/controllers/cidrclaim_controller.go:57-149 | an uninterrupted pass is a run of the step system |
| ReconcilePass.PassDecides | controlplane/controllers/cidrclaim_controller.go:57-149 | what every pass comes to, for any number of blocks: nothing for a claim that is up to date; an error for a malformed selector; the old allocation if it is ready in a selected block; otherwise ready with a part it can have if and only if there is one, and else an error that says whether no block matches or none is available, with the old allocation |
| ReconcilePass.UpToDateIsBound | controlplane/controllers/cidrclaim_controller.go:121-148 | a claim that a pass makes up to date names a block that it selects |
| ReconcilePass.EditOfReadyClaim | controlplane/controllers/cidrclaim_controller.go:92-94 | a ready claim keeps block, CIDR and size through any edit of its spec whose selector still matches the block; otherwise it is decided anew |
| Reconciler.CIDRClaimReconciler.Reconcile | controlplane/controllers/cidrclaim_controller.go:57-149 | one call has the effect of an uninterrupted pass of the worker, on all paths, and the outcome of `PassDecides` |
| Reconciler.CIDRClaimReconciler.Bind | controlplane/controllers/cidrclaim_controller.go:96-146 | listing, filtering, grouping and allocating decide as the step system does |
| Reconciler.CIDRClaimReconciler.WithoutSelf | controlplane/controllers/cidrclaim_controller.go:103-110 | the loop removes the claim itself and nothing else |
| Reconciler.CIDRClaimReconciler.GroupByBlock | controlplane/controllers/cidrclaim_controller.go:112-119 | each group holds exactly the claims that name the block, and claims without a block are in none |
| Reconciler.CIDRClaimReconciler.AllocateFrom | controlplane/controllers/cidrclaim_controller.go:174-222 | the loop over the shuffled blocks allocates from the first block that can serve the claim |
| Reconciler.CIDRClaimReconciler.UpdateStatus | controlplane/controllers/cidrclaim_controller.go:224-238 | an undisturbed patch stores the whole status with the observed generation, unless a claim without status would still have no state |
| Ticker.TickerSafety | disco/ticker/ticker.go:74-141 | in every interleaving: 100 ms <= interval <= maximum <= 10 s, firings at least 100 ms apart, and a waiting loop is armed for the current interval or a reset is pending |
| Ticker.BackOff | disco/ticker/ticker.go:103-108 | n undisturbed firings give min(start * 2^n, max) |
| Ticker.ProbeSchedule | disco/ticker/ticker.go:112-141 | after a change or forced restart the next firing is 100 ms (connecting) or 3 s (connected) after the last one, and the following intervals double up to 3 s (primary) or 10 s |
| Ticker.LoopTicker.constructor | disco/ticker/ticker.go:46-61 | a new ticker is connecting, primary, and wakes at once |
| Ticker.LoopTicker.ChangeState | disco/ticker/ticker.go:112-141 | the new settings are those of the step, and nothing changes when state and priority stay and no restart is forced |
| Ticker.LoopTicker.ArmTimer | disco/ticker/ticker.go:79-86 | the loop arms the timer for the interval after the last firing |
| Ticker.LoopTicker.Continue | disco/ticker/ticker.go:90-108 | after a reset the loop only re-arms; after the timer it wakes its owner and lengthens the interval |
| PacketManager.EachPingOnce | disco/pktmgr/pktmgr.go:24-56 | in every run each added ping is in exactly one of outstanding, acknowledged, dropped, superseded, and once |
| PacketManager.NothingOlderDropped | disco/pktmgr/pktmgr.go:38-56 | once the acknowledgement of a ping sent at t has been handled, nothing sent before t is dropped |
| PacketManager.DropsComeLater | disco/pktmgr/pktmgr.go:38-56 | the same in terms of steps: after an acknowledgement and the end of its sweep only pings that were not sent earlier can be dropped |
| PacketManager.AckIsRun | disco/pktmgr/pktmgr.go:38-56 | handling an acknowledgement without interference leaves exactly the pings that are not older |
| PacketManager.Manager.AddPacket | disco/pktmgr/pktmgr.go:24-25 | the ping is outstanding with its time of sending |
| PacketManager.Manager.Expired | disco/pktmgr/pktmgr.go:31-34 | the timer drops the ping and runs the callback if and only if the ping is still outstanding |
| PacketManager.Manager.RecvAck | disco/pktmgr/pktmgr.go:38-56 | the round-trip time, and removal of the ping and of exactly those sent strictly earlier; an unknown ID changes nothing |
| FailureDetection.FailureDetected | disco/discoPeerEndpoint.go:97-139 | in every run, when no pong is accepted from some time on and the first ping tried then can be encrypted, then 10 s and 400 ms later the endpoint reports Connecting, whatever priorities and pings do in between |
| FailureDetection.ReportsLastVerdict | disco/discoPeerEndpoint.go:97-139 | in every run the endpoint reports Connected if and only if the last accepted pong or dropped ping was an accepted pong, and otherwise Connecting without a round-trip time; it and its ticker have the priority set last |
| FailureDetection.RoundTripReported | disco/discoPeerEndpoint.go:127-139 | in every run the reported round-trip time is the time between sending a ping and accepting its pong, until the next verdict |
| FailureDetection.TickerInStep | disco/discoPeerEndpoint.go:178-204 | the ticker works with the reported state as long as restarts come while connecting |
| FailureDetection.LateRestart | disco/discoPeerEndpoint.go:189-204 | a restart that comes later makes a connected endpoint probe like a connecting one |
| FailureDetection.StaysConnecting | disco/discoPeerEndpoint.go:97-139 | the loss stays reported until a pong is accepted |
| FailureDetection.TimeAdvances | disco/ticker/ticker.go:78-109 | from every state and for every duration there is a run of nothing but timers, sending and dropping at whose end that time has passed |
| FailureDetection.SilenceIsNoticed | disco/discoPeerEndpoint.go:97-139 | after any history there is a silent run of 10 s and 401 ms, and at its end the endpoint reports Connecting |
| FailureDetection.SilenceUnnoticed | disco/discoPeerEndpoint.go:116-120 | while encryption fails and no ping is outstanding, a silence of any length may pass with the state unchanged |
| ProbedEndpoint.DiscoPeerEndpoint.constructor | disco/discoPeerEndpoint.go:63-95 | a new endpoint is the start of the timed endpoint |
| ProbedEndpoint.DiscoPeerEndpoint.Woken | disco/discoPeerEndpoint.go:105-125 | taking a token is the sending step with a new ID, or the failing step when encryption fails |
| ProbedEndpoint.DiscoPeerEndpoint.HandlePong | disco/discoPeerEndpoint.go:127-139 | a pong for an outstanding ping makes the endpoint and its ticker Connected and reports the time since sending; any other changes nothing |
| ProbedEndpoint.DiscoPeerEndpoint.TimerDue | disco/discoPeerEndpoint.go:97-103 | a due timer drops the ping and reports Connecting if the ping is outstanding, and does nothing otherwise |
| ProbedEndpoint.DiscoPeerEndpoint.SetPriority | disco/discoPeerEndpoint.go:178-187 | the new priority goes to the ticker together with the reported state |
| ProbedEndpoint.DiscoPeerEndpoint.ReceivePing | disco/discoPeerEndpoint.go:189-204 | without interference the ticker restarts if and only if the endpoint is connecting and the last restart is more than 30 s ago |
| ProbedEndpoint.DiscoPeerEndpoint.Reinitialize | disco/discoPeerEndpoint.go:194-203 | the part under the lock, from any state: the restarting step if the last one is more than 30 s ago, otherwise nothing |
| PingPong.CreditsAreEarned | disco/discoPeer.go:222-287 | in every run a pong is credited only to the object that sent the ping, only after the other node received it, and a ping is credited at most once |
| PingPong.ExchangeIsCredited | disco/discoPeer.go:222-287 | from every reachable state a listed endpoint with an empty channel gets credited for a ping when nothing is lost |
| PingPong.ClosedForGood | disco/discoPeer.go:149-165 | after an endpoint was closed no pong with its ID has any effect, in any run |
| PingPong.LaterEndpointNotCredited | disco/discoPeer.go:108-139 | a later endpoint with the same address is never credited for a ping of an earlier one |
| ReceivePath.ProgressExactly | disco/discoPeer.go:218-287 | in every reachable state in which the receiver has a packet, two steps of the loops make the peer ready to take it, if and only if the receiver is not stuck; otherwise no steps of anybody ever free it |
| ReceivePath.NeverStuckWhileOpen | disco/discoPeerEndpoint.go:141-165 | as long as nothing is closed the receiver is never stuck |
| ReceivePath.StuckBehindEndpoint | disco/discoPeerEndpoint.go:163-172 | a concrete run in which a closed endpoint with a full channel blocks its open peer and the receiver |
| ReceivePath.StuckBehindPeer | disco/disco.go:143-151 | a concrete run in which a peer is closed after it was looked up and blocks the receiver |
| PeerTables.DiscoPeer.SetEndpoints | disco/discoPeer.go:98-166 | on an open peer exactly the given addresses are live afterwards; old ones keep their IDs, new ones get IDs never used before; the tables stay mutually inverse and no ID ever stands for another address |
| PeerTables.DiscoPeer.CloseOld | disco/discoPeer.go:149-165 | of the live endpoints exactly those with a given address stay, with their IDs |
| PeerTables.DiscoPeer.StatusChanged | disco/discoPeer.go:134-137 | a report, even of a closed endpoint, is stored under its own ID and the choice is made anew |
| PeerTables.DiscoPeer.UpdateStatus | disco/discoPeer.go:172-216 | in any visiting order: a live Connected endpoint of least round-trip time is published, it is Primary and all others Sub; with none the published status stays and all are Primary |
| PeerTables.DiscoPeer.Close | disco/discoPeer.go:305-318 | nothing is live afterwards, and a second call does nothing |
| PeerTables.Disco.AddPeer | disco/disco.go:155-192 | a known key gives the peer there is, a new key a new peer without endpoints |
| PeerTables.Disco.SetPeers | disco/disco.go:194-210 | afterwards the live peers are exactly the keys, each with exactly its endpoints; kept peers are the same objects, whose kept endpoints keep their IDs, whose new ones get new IDs, and whose reports and published status stay; the others are closed |
| Notifier.DeliveredInOrder | disco/discoPeerEndpoint.go:223-260 | in every interleaving the delivered values are an in-order subsequence of those held, no two in a row equal |
| Notifier.BlockedIsUpToDate | disco/discoPeer.go:337-373 | a watcher that is blocked with no wake-up on the way has delivered the current value, and the status is open |
| Notifier.WatcherGoesOn | disco/discoPeer.go:337-373 | from every reachable state at most five steps of the watcher alone deliver the current value and block, or finish if the status is closed; it never finishes while it is open |
| WireGuard.MergeExact | tetraengine/wgengine/util.go:119-194 | the merge join emits exactly: each expected peer that is new, each current peer that is gone as a removal, each changed peer with allowed IPs replaced |
| WireGuard.MergeInKeyOrder | tetraengine/wgengine/util.go:119-194 | no key has two updates |
| WireGuardSync.MergeRefinesReplace | tetraengine/wgengine/util.go:110-197 | applied to a device that agrees with the current list, the updates make it agree with the expected list, also when IPs move between peers |
| WireGuardSync.NoDiffExactly | tetraengine/wgengine/util.go:103-105 | the difference is empty if and only if both lists have the same keys with no difference |
| WgEngine.ComputePeerDiff | tetraengine/wgengine/util.go:110-197 | sorts both arrays in place, which may be the same array, in any order of equal keys, and merges them; for distinct keys that is the specified difference |
| WgEngine.ComputeConfigDiff | tetraengine/wgengine/util.go:84-108 | for distinct keys the specified difference and whether there is one |
| WgEngine.MergeSorted | tetraengine/wgengine/util.go:119-196 | the two-index loop is the specified merge join |
| WgEngine.EntriesDiffer | tetraengine/wgengine/util.go:152-183 | which entries of one key count as different |
| WgEngine.CallKeeps | tetraengine/wgengine/wgengine.go:172-194 | for every configuration of distinct keys and disjoint IPs: device and cache stay in agreement, also when the call fails; a successful call ends in agreement unless configuration and cache ask for nothing and the device has peers |
| WgEngine.OmittedAgrees | tetraengine/wgengine/wgengine.go:175-177 | an omitted update was not needed, with exactly that exception |
| WgEngine.DeviceFollowsConfig | tetraengine/wgengine/wgengine.go:172-194 | over all runs: after a successful call the device has exactly the expected keys and allowed IPs and every configured setting, if and only if it is not so that it had peers at first and no call so far asked for anything it took |
| WgEngine.FailsExactly | tetraengine/wgengine/wgengine.go:175-191 | a call fails only when the device refuses an update, and must when one was needed; then the device stays as it is |
| WgEngine.RepeatOmitted | tetraengine/wgengine/wgengine.go:173-177 | a configuration that was applied is not sent again |
| WgEngine.PortIsEnough | tetraengine/tetraengine.go:285-290 | with a listen port a successful call always ends in agreement |
| WgEngine.PeerRemains | tetraengine/wgengine/util.go:84-108 | a concrete device whose peer outlives a successful first call |
| WgEngine.WireGuardEngine.ReconfigWireguard | tetraengine/wgengine/wgengine.go:172-194 | for distinct keys the method with its cached field is the call on values, with the same condition for agreement |
| RouteDiff.DiffIPs | tetraengine/wgengine/util.go:11-36 | deleted and added lists of addresses as the scan says, the latter independent of the map's order |
| RouteDiff.DiffRoutes | tetraengine/wgengine/util.go:38-65 | the same for routes, which must also agree in the link |
| RouteDiff.AddedUnique | tetraengine/wgengine/util.go:27-33 | the sorted added list is determined by the map, not by its iteration order |
| RouteDiff.DifferenceReachesDesired | tetraengine/wgengine/util.go:11-65 | for arbitrary lists with duplicates, deleting and adding leaves exactly one entry per desired key, equal in what matters to its last duplicate |
| RouteDiff.KeptExactly | tetraengine/wgengine/util.go:17-25 | no more is deleted than has to be: of the current entries of a key the first that is as desired stays |
| RouteDiff.WantedIsLast | tetraengine/wgengine/util.go:12-15 | of desired duplicates the last one counts |
| LinkRoutes.RoutesExactly | tetraengine/wgengine/util.go:67-82 | the desired routes are exactly one per allowed IP of every peer, on the link and in the table, in the order of peers and IPs |
| LinkRoutes.GenerateRoutes | tetraengine/wgengine/util.go:67-82 | the nested loops produce just these |
| RouteDiff.AddressTable.Reconfig | tetraengine/wgengine/wgengine.go:196-220 | afterwards the link has each desired address exactly once and nothing else |
| LinkRoutes.RouteTable.Reconfig | tetraengine/wgengine/wgengine.go:230-267 | afterwards the link has one route per desired network and the protected routes that should have gone; a route is only added where its network has none; the networks are exactly the allowed IPs, each once, if and only if each protected route was the first of an allowed IP |
| LinkRoutes.DesiredUnlessProtected | tetraengine/wgengine/wgengine.go:246-252 | the link's routes end up exactly as desired if and only if each protected one is desired and the first of its network |
| LinkRoutes.ProtectedRemains | tetraengine/wgengine/wgengine.go:246-252 | a concrete route of scope 254 that remains though nothing asks for it |
| Bpf.ProgramDecides | pkg/hijack/receiver/rawsockrecv/bpf.go:5-119 | for every packet and port the program ends with a verdict, and accepts if and only if the frame is unfragmented UDP over IPv4 or IPv6 to the port whose payload is disco or STUN |
| Codec.RoundTrip | disco/packet.go:20-101 | a sealed, written, parsed and opened message arrives unchanged |
| Codec.Layout | disco/packet.go:20-77 | which bytes hold the header, the key, and, sealed, endpoint ID, packet ID and key |
| Codec.OpenExactly | disco/packet.go:79-101 | an envelope opens to a message if and only if it holds exactly that message's 40 bytes and names its sender |
| Codec.EncryptedDiscoPacket.Marshal | disco/packet.go:20-33 | writes the wire form of pings and pongs and refuses every other header |
| Codec.EncryptedDiscoPacket.Unmarshal | disco/packet.go:35-47 | fills in what the bytes hold, or fails for fewer than 33 bytes and changes nothing |
| Codec.DiscoPacket.Encrypt | disco/packet.go:59-77 | the buffer is filled so that the result is the sealed message |
| Codec.DiscoPacket.Decrypt | disco/packet.go:79-101 | succeeds exactly when the envelope opens, and then holds its message |
| Splitter.EachGetsItsOwn | pkg/splitconn/splitconn.go:60-99 | in every run each child gets, in order, a subsequence of exactly the packets whose first matching filter is its own |
| Splitter.PullIsRun | pkg/splitconn/splitconn.go:60-99 | what a read does is a run of arrivals, a prefix of what comes in, and of taking the packet it got, so the statements about runs hold for reads |
| Splitter.NothingLost | pkg/splitconn/splitconn.go:81-90 | a child whose queue was never full when a packet came has all of its own |
| Splitter.Bundler.Add | pkg/splitconn/splitconn.go:33-45 | a new child is empty and comes last |
| Splitter.Bundler.Dispatch | pkg/splitconn/splitconn.go:81-90 | a packet goes to the first child whose filter matches, if there is room, and to nobody else |
| Splitter.Bundler.ReadFrom | pkg/splitconn/splitconn.go:60-99 | a read yields the child's next packet cut to the buffer, after dispatching what came before it |
| EndToEnd.FrameAccepted | pkg/hijack/receiver/rawsockrecv/bpf.go:77-115 | of the frames that carry a payload with its first bit set, the filter takes exactly those to its port |
| EndToEnd.DiscoChild | tetraengine/tetraengine.go:77-83 | a packet belongs to the disco child if and only if its first bit is set, and every packet to one of the two |
| EndToEnd.PayloadOfFrame | pkg/hijack/receiver/rawsockrecv/rawsockrecv.go:98-141 | the payload cut out of a frame is the one put in, whatever padding follows |
| EndToEnd.MessageArrives | tetraengine/tetraengine.go:77-83 | every ping and pong in an unfragmented UDP frame to the port that fits the receive buffer is accepted, and the payload cut out of it is classified as disco, decoded to what was sent, and queued for the disco child alone unless its queue is full |
| ReconfigTrigger.NoLostReconfig | tetraengine/tetraengine.go:167-180 | in every interleaving, with empty channel, idle runner and no caller between store and send, the last configuration loaded is the last one stored |
| ReconfigTrigger.RunnerCatchesUp | tetraengine/tetraengine.go:341-344 | from every reachable state without such a caller the runner alone gets there in at most five steps |

## Left out

- The Kubernetes API, caches, watches and owner references; a stale cache would break disjointness, hence the assumption on reads.
- Cryptography, nonces and base64.
- Netlink, wgctrl, namespaces, sockets, raw sending and XDP; the device and the link's addresses and routes are values that change as documented.
- Partial failure of a device update, failing netlink calls and endpoint roaming.
- Duplicate public keys in one list of peers: two current entries against one expected entry emit a removal, and which of two equal keys comes first is up to the sort.
- Wrap-around of 32-bit endpoint and packet IDs.
- Goroutines that race inside one `SetEndpoints`, `SetPeers` or `AddPeer`, including a close at the same time; those calls are atomic here, unlike the steps of `PacketManager`, `Notifier`, `Ticker` and `ReconfigTrigger`.
- Closing of tickers and endpoints with timers still under way; `PingPong` lets a closed endpoint go on, which is one of the things it may do.
- The sending side of disco, taken never to block.
- Concurrent readers of the splitter and single-flight reads: children read one at a time.
- Merging and spanning as the library implements them; only their results are those of the program.
- `reconfig` and `notify` of the engine, the STUN client, CNI plugins, configuration loading and logging.
- Ticker.LoopTicker.Continue: does not model the real timer, whose firing is a parameter; the interleavings are those of the steps.
- PeerTables.Disco.SetPeers: does not model the close signal of the whole instance; the instance is open.
- ProbedEndpoint.DiscoPeerEndpoint.ReceivePing: does not let other goroutines in between its look at the state and `Reinitialize`; `Reinitialize` itself and the machine of `FailureDetection` allow any state.
- The receiver's check of the destination address and its queue of ten messages.
