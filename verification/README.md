# waitless: a verified model of the network stack core and the virtio emulator

This project models, in Dafny, the parts of the waitless repository where a
mistake would be hardest to see: neighbour resolution, the virtio split-queue
emulation, the Internet checksum and its offload split, UDP frame building and
classification, the software flow hash, and the DHCP client. What the code does
in place is modelled in place (classes, arrays, loops proved against
specification functions); what it computes is modelled as functions. The main
results are statements over every input, every run or every interleaving.

`dafny verify dfyconfig.toml` checks the whole project.

## Reading order

| module | models |
|---|---|
| `Basics`, `Prefix` | fixed-width integers, byte order, addresses, masks, in-place overwrites; masks as network prefixes |
| `Checksum` | the RFC 1071 checksum, its 32-bit accumulator, pseudo headers, the offload split |
| `Arp`, `ArpRuns` | the ARP table, gateway shortcut, per-core fast slots; what holds after any sequence of events |
| `Resolver`, `ResolverSafety`, `ResolverClaims`, `ResolverOwners`, `ResolverRetries` | the asynchronous next-hop resolver as a step machine over any number of tasks and receivers |
| `Ndp` | the IPv6 neighbour cache as a bounded FIFO |
| `Virtqueue`, `Chains` | split-queue rings with wrapping 16-bit cursors; descriptor chains |
| `VirtioConsole`, `ConsoleInput` | the console device; console input end to end |
| `CtrlCommand`, `VirtioCtrl` | one control command off a chain; the network control queue |
| `Icmpv6` | ICMPv6 builders, checksum verification, Neighbour Discovery options |
| `Ip`, `Udp`, `Classify`, `UdpDelivery` | headers, the two UDP send layouts, the receive classifier, the send/receive round trip |
| `FlowHash` | the flow hash and its injectivity |
| `DhcpOptions`, `Dhcp`, `DhcpRun`, `DhcpWire` | the option walker, the lease merge rule, a whole discovery run, the stored lease by its bytes |

## Modelling decisions

- Both targets are little-endian, so a value stored in memory is its
  little-endian byte sequence, and an IPv4 address is the native word whose
  memory image is the wire octets.
- Atomics are sequentially consistent. In the resolver every slot load,
  compare-exchange, locked cache access and waker-slot operation is a step of
  its own; a waker slot stores on park and takes and fires on wake, each under
  its own lock (`crates/runtime/executor/src/waker_slot.rs`).
- A timed wait polls its event before its timer
  (`crates/runtime/executor/src/select.rs`), so an expired window is modelled
  as a flag read after the last poll of the event.
- Guest RAM is modelled as separate arrays for the descriptor table, each ring
  and the buffers: a driver keeps them disjoint. A driver also keeps chains
  acyclic, shorter than 2^32 bytes and inside RAM, and publishes only while
  fewer than `qsize` entries are unreturned.
- The IPv4 identification counter is an object passed to the writers; MAC
  resolution, clocks, stdin and the network are parameters.
- A DHCP datagram is handled in one atomic step. The network of a discovery run
  is an arbitrary script of datagrams in every gap between two client steps.

Where a promise in the source's own comments does not hold of the code, the
model follows the code, exhibits the failing run and states exactly when the
promise holds:

- The resolver's coalescing promise (one request stream per IP) fails when two
  claims interleave, as a nearby comment admits: `TwoOwnersWhenInterleaved`. A
  step breaks it exactly when it takes a slot as an owner while another owner of
  that IP is live (`BrokenExactly`, lifted to runs by `OneOwnerExactly`), and it
  holds in every run in which no slot is taken for an IP that another task is
  still claiming (`OneOwnerPerIp`).
- `resolve_route` promises that the synchronous path stays cold afterwards.
  `SnoopedGatewayStillAsks` gives a run in which it does not; `WarmAfterRoute`
  states exactly when it does.
- The frame layout promises at most 1514 bytes, but the size guard counts an IPv4
  header for both families: `OversizedIpv6Ships` gives the oversized frames and
  `FrameFitsExactly` says which frames keep to the bound.
- A control command should be read as its first eight bytes. `SpoiledCommand`
  gives the chains on which it is not, because an earlier acknowledgement falls on
  a byte still to be read; `CommandIsPrefix` states exactly when it is, and
  `AnnouncesCommands` when the announcements of a batch are the right ones.
- `ipv4_parse` promises to turn away packets that are not for us, but its subnet
  broadcast test looks at host bits only. `ForeignBroadcastKept` and
  `HostPrefixKeepsAll` give packets it keeps all the same; `KeptBeyondUs` says
  exactly which ones.

One consequence of the DHCP merge rule is worth knowing: an OFFER handled between
the ACK and the store replaces the lease, so a successful run can store an address
no ACK carried (`UnconfirmedLeaseStored`; `ConfirmedExactly` states when some ACK
did).

## Model

| member | source | states |
|---|---|---|
| Basics.PowerOfTwoTest | tools/hvf-runner/src/virtio_console.rs:300-303 | the test `n & (n-1) == 0` accepts exactly the powers of two |
| Basics.MaskIsMod | tools/hvf-runner/src/virtio_console.rs:314 | masking a cursor with `qsize - 1` is reduction modulo a power-of-two `qsize` |
| Prefix.OutsideMask | crates/net/src/ipv4.rs:154-156 | the test `dst & !mask == !mask` holds exactly when every bit outside the mask is one |
| Prefix.HostBitsOnes | crates/net/src/ipv4.rs:154-156 | for a network prefix that is, in network order, exactly the last address of a block |
| Prefix.SameNetwork | crates/net/src/types.rs:386-389 | two addresses agree under a prefix mask exactly when they lie in the same block, in network order |
| Checksum.SumWords | crates/net/src/checksum.rs:18-29 | the accumulator loop computes the little-endian word sum, odd last byte included, without overflow up to 131074 bytes |
| Checksum.AccumulatorBoundExact | crates/net/src/checksum.rs:18-29 | every buffer of length n fits the 32-bit accumulator if and only if n is at most 131074 |
| Checksum.Fold | crates/net/src/checksum.rs:32-37 | the end-around-carry loop terminates with 0 for 0 and otherwise the representative modulo 65535 in 1..65535 |
| Checksum.FoldAbsorbs | crates/net/src/checksum.rs:32-37 | fold(a + fold(b)) = fold(a + b), the fact the offload split rests on |
| Checksum.InternetChecksum | crates/net/src/checksum.rs:50-52 | the complement of the folded sum |
| Checksum.ByteOrderIndependent | crates/net/src/checksum.rs:18-52 | the little-endian sum stored in memory order is byte for byte the big-endian checksum of RFC 1071 section 2, for every length |
| Checksum.L4PseudoPartial | crates/net/src/checksum.rs:64-90 | the folded sum of the IPv4 or IPv6 pseudo header written out as bytes; 0 for mixed families |
| Checksum.L4ChecksumV6 | crates/net/src/checksum.rs:98-124 | the checksum of pseudo header followed by segment, for segments of up to 131039 bytes |
| Checksum.SegmentBoundExact | crates/net/src/checksum.rs:98-124 | for ICMPv6, and every next header from 31 on, all segments of length n fit the 32-bit accumulator if and only if n is at most 131039 |
| Checksum.OffloadEquivalent | crates/net/src/checksum.rs:64-124 | partial sum in an even field, then a plain checksum over the segment, equals the full L4 checksum with the field zero, for every segment and both families |
| Checksum.SealedVerifies | crates/net/src/icmpv6.rs:337-342 | a segment whose field holds its L4 checksum verifies to 0 |
| Checksum.FinishedVerifies | crates/net/src/checksum.rs:54-90 | a stamped segment, finished as a device would, verifies to 0 |
| Arp.FirstMatch | crates/net/src/arp.rs:90-97 | the first valid entry for an IP, and no earlier one |
| Arp.UpdateLookup | crates/net/src/arp.rs:90-121 | after an update the new pair is found and every other IP answers as before, unless a full table gave up slot 0 for it |
| Arp.UpdateKeepsDistinct | crates/net/src/arp.rs:99-121 | an update never leaves two valid entries for one IP |
| Arp.FullKeepsIps | crates/net/src/arp.rs:99-121 | in a full table only slot 0 can change its IP |
| Arp.UnpackPack | crates/net/src/arp.rs:168-190 | unpacking a packed byte string gives it back |
| Arp.FastStoreThenLookup | crates/net/src/arp.rs:193-228 | a fast slot answers with the MAC just stored for a non-zero IP |
| Arp.DecodeEncode | crates/net/src/arp.rs:20-48 | an ARP packet with any trailing padding decodes to itself |
| Arp.ReplyTeachesAsker | crates/net/src/arp.rs:311-327 | a packet is answered exactly when it asks for our configured address, and the asker then maps it to our MAC |
| Arp.ReplyOnWire | crates/net/src/arp.rs:311-327 | by the byte offsets of RFC 826: which packets are answered, to whom, and every field of the reply |
| Arp.NextHopByPrefix | crates/net/src/types.rs:382-394 | by network prefix: our own block and the limited broadcast are reached directly, everything else through the gateway, nothing without one |
| Arp.ArpStack.constructor | crates/net/src/arp.rs:81-89 | the empty table, no gateway, clear fast slots |
| Arp.ArpStack.CacheLookup | crates/net/src/arp.rs:90-97 | the scanning loop is the table lookup |
| Arp.ArpStack.CacheUpdate | crates/net/src/arp.rs:99-121 | the two scanning loops write the table as `Update` does: own entry, else first free, else slot 0 |
| Arp.ArpStack.StoreFast | crates/net/src/arp.rs:216-228 | the three stores replace this core's slot and no other |
| Arp.ArpStack.ArpReceive | crates/net/src/arp.rs:278-327 | table, gateway MAC, fast slot and reply after one packet; short packets and the unspecified sender teach nothing; what they come to over a run is `FastCoherent` and `CacheCoherent` |
| Arp.ArpStack.ArpLearn | crates/net/src/arp.rs:267-276 | snooping touches only this core's fast slot, and only for usable pairs |
| Arp.ArpStack.ArpResolve | crates/net/src/arp.rs:329-380 | answer order fast slot, gateway shortcut, table; otherwise the request target |
| ArpRuns.StepShared | crates/net/src/arp.rs:278-309 | an event changes the shared table and gateway only by the pair it announced |
| ArpRuns.CacheCoherent | crates/net/src/arp.rs:90-121 | after any run: distinct IPs, every hit is the latest announced MAC, the gateway MAC is the gateway's latest |
| ArpRuns.HeardOnWire | crates/net/src/arp.rs:278-291 | what a frame announces, by the byte offsets of RFC 826: sender address and sender MAC, unless it is short or the sender unspecified |
| ArpRuns.FastCoherent | crates/net/src/arp.rs:193-380 | after any run, a fast slot answers with the MAC its core was given for that IP, by a frame it heard, a sender it snooped or a resolve through the next hop, and the core was told nothing since |
| ArpRuns.ToldIsKnown | crates/net/src/arp.rs:267-309 | a core that was told a pair and had no event since answers with it |
| ArpRuns.ResolveAnswers | crates/net/src/arp.rs:329-380 | after any run every answer is the MAC this core was given for the destination or the one last announced for its next hop; a request goes to the next hop, and only if that was never heard or was pushed out of a full table |
| ArpRuns.AnswerIsKept | crates/net/src/arp.rs:346-380 | an answer is remembered: asking again on the same core gives it again and changes nothing |
| ArpRuns.RouteAnswers | crates/net/src/arp.rs:577-632 | the same for `resolve_route`, answered after any continuation of the run, and when it finds no route or no answer |
| ArpRuns.ShortcutAgrees | crates/net/src/arp.rs:346-363 | after any run the gateway shortcut agrees with any table hit |
| ArpRuns.CompleteUpToCapacity | crates/net/src/arp.rs:99-121 | while at most 64 hosts have spoken the table is exactly the map from host to latest MAC |
| ArpRuns.OnlySlotZeroChanges | crates/net/src/arp.rs:99-121 | once full, slots 1..63 keep their IP over every continuation of the run |
| ArpRuns.GatewayHeardStaysCold | crates/net/src/arp.rs:329-363 | once the gateway was heard by ARP, an off-link destination is answered without a request, by the fast slot or the gateway's latest MAC |
| ArpRuns.WarmAfterRoute | crates/net/src/arp.rs:577-632 | after a successful `resolve_route`, `arp_resolve` sends a request if and only if the gateway is known to this core's fast slot alone (or is the broadcast address) |
| ArpRuns.RouteThenSendIsCold | crates/net/src/arp.rs:618-632 | answers from the table or a reply, and on-link destinations, leave the synchronous path cold |
| ArpRuns.SnoopedGatewayStillAsks | crates/net/src/arp.rs:256-276 | on an ordinary /24 network, a run in which a gateway known only by snooping makes `resolve_route` succeed and the send still ask |
| ResolverSafety.ActionKeepsInv | crates/net/src/arp.rs:464-616 | every atomic step of every task and receiver keeps exclusivity, registration and the wake obligation |
| ResolverSafety.NoLostWakeup | crates/net/src/arp.rs:487-569 | in every interleaving, a suspended un-woken task whose IP the table holds is still owed a wake by a receiver that already updated the table |
| ResolverSafety.QuiescentDelivered | crates/net/src/arp.rs:487-569 | once no receiver is running, every suspended task is runnable or its IP is not in the table |
| ResolverRetries.ReleasesWhenDone | crates/net/src/arp.rs:577-616 | in every interleaving a task gives its claim up only once its IP was in the table at its last read, it was dropped, or three windows ran out; it never waits again after that, and no fourth window runs out |
| ResolverClaims.PendingTableExclusive | crates/net/src/arp.rs:464-536 | in every interleaving live claims hold distinct slots, each slot stores its claimant's IP, a slot is 0 exactly when unclaimed, at most 8 are live |
| ResolverClaims.ClaimAloneIsAtomic | crates/net/src/arp.rs:505-523 | the split owner scan and compare-exchange loop, run without interleaving, is one atomic claim |
| ResolverClaims.TwoOwnersWhenInterleaved | crates/net/src/arp.rs:505-523 | an interleaving in which two claims of one IP both conclude they own it |
| ResolverOwners.BrokenExactly | crates/net/src/arp.rs:495-523 | from any world with single owners, a step breaks single ownership if and only if it is a successful compare-exchange of a task that found no claim of its IP while another owner of that IP is live |
| ResolverOwners.OneOwnerExactly | crates/net/src/arp.rs:495-523 | a run from boot has single owners throughout if and only if none of its steps is such a compare-exchange |
| ResolverOwners.OneOwnerPerIp | crates/net/src/arp.rs:495-523 | in every run of the split-step machine in which no task takes a slot for an IP another task is still claiming, the live claims of one IP have at most one owner, however releases, wakes, cache updates and claims of other IPs interleave |
| ResolverOwners.AtomicClaimsOneOwner | crates/net/src/arp.rs:495-523 | in particular when claims of one IP never overlap |
| Ndp.PushKeepsDistinct | crates/net/src/ndp.rs:78-106 | the bounded queue never holds an IP twice |
| Ndp.LookupRefines | crates/net/src/ndp.rs:69-76 | scanning the array is reading the abstract queue as a map |
| Ndp.UpdateRefines | crates/net/src/ndp.rs:78-106 | refresh, insertion and eviction at the cursor are the queue's refresh in place, append, and drop-oldest-then-append |
| Ndp.NdpCache.constructor | crates/net/src/ndp.rs:61-67 | the empty queue |
| Ndp.NdpCache.Lookup | crates/net/src/ndp.rs:69-76 | the loop answers as the queue does |
| Ndp.NdpCache.Update | crates/net/src/ndp.rs:78-106 | the contents become the queue after the push |
| Ndp.NdpCache.Write | crates/net/src/ndp.rs:78-106 | which slot the three loops write and how the cursor moves |
| Ndp.NdpCache.Learn | crates/net/src/ndp.rs:114-121 | unusable addresses change nothing; others are pushed |
| Ndp.NdpCache.Resolve | crates/net/src/ndp.rs:126-135 | multicast has no cached MAC; otherwise the queue's answer |
| Ndp.QueueSound | crates/net/src/ndp.rs:51-106 | after any history: at most 32 distinct usable IPs, each with its latest MAC |
| Ndp.QueueIsWindow | crates/net/src/ndp.rs:78-106 | the queue holds exactly the 32 most recent newcomers, oldest first |
| Ndp.FindExactly | crates/net/src/ndp.rs:69-106 | from the history alone: a lookup finds the MAC last learned for an address among the 32 most recent newcomers, and nothing for any other |
| Ndp.NothingForgotten | crates/net/src/ndp.rs:51-106 | while at most 32 usable addresses have been learned, a lookup finds the MAC learned last for each of them |
| Virtqueue.SlotIsMod | tools/hvf-runner/src/virtio_console.rs:314 | a wrapped 16-bit cursor masked by `qsize - 1` is the unbounded count modulo `qsize` |
| Virtqueue.HeadsAre | tools/hvf-runner/src/virtio_console.rs:307-319 | the entries between the cursors are the published heads not yet completed, in order |
| Virtqueue.StepKeepsInv | tools/hvf-runner/src/virtio_console.rs:292-359 | publishing, serving and reaping keep the ring invariant across wraparound |
| Virtqueue.ExactlyOnceInOrder | tools/hvf-runner/src/virtio_console.rs:292-366 | in every run, resets included, the driver reads back the heads it published since the last reset in order, once each, with the lengths the device recorded; the device's cursors and the published index stay equal; a drained queue has returned everything |
| Virtqueue.ResetForgets | tools/hvf-runner/src/virtio_console.rs:265-274 | a reset starts a new epoch: the run after it is the run from fresh rings, whatever came before |
| Chains.FlagMasks | tools/hvf-runner/src/virtio_console.rs:334-344 | the two descriptor flag tests are the masks 1 and 2 |
| Chains.ReadableIs | tools/hvf-runner/src/virtio_console.rs:325-345 | the readable bytes of a chain are what memory holds at the addresses of its descriptors without the write flag, in chain order |
| Chains.TotalLenAppend | tools/hvf-runner/src/virtio_console.rs:339-345 | a recorded length is the plain sum of the descriptors' lengths |
| VirtioConsole.Virtq.SizedIsServiceable | tools/hvf-runner/src/virtio_console.rs:300-303 | announced-size rings are all a driver has to provide: an accepted 16-bit power of two is at most 32768 |
| VirtioConsole.Virtq.Reset | tools/hvf-runner/src/virtio_console.rs:265-274 | a device reset clears size, ready flag and both cursors, so the queue is no longer looked at, and leaves guest memory alone |
| VirtioConsole.Virtq.Configure | tools/hvf-runner/src/virtio_console.rs:216-264 | after a device reset, pointing the device at cleared rings of a power-of-two size makes the queue the ring protocol's starting point |
| VirtioConsole.Virtq.Usable | tools/hvf-runner/src/virtio_console.rs:296-303 | the ready and power-of-two tests accept exactly the enabled queues |
| VirtioConsole.Virtq.Publish | tools/hvf-runner/src/virtio_console.rs:359-366 | cursors and used index move exactly when an entry was completed, leaving the abstract machine's queue |
| VirtioConsole.NonZeroAppend | tools/hvf-runner/src/virtio_console.rs:375-388 | dropping NUL bytes distributes over concatenation, so flush points cannot matter |
| VirtioConsole.NonZeroStrips | tools/hvf-runner/src/virtio_console.rs:375-388 | the text kept is exactly the non-NUL bytes in their order: a strictly increasing list of positions that misses no non-NUL byte |
| VirtioConsole.NonZeroKeeps | tools/hvf-runner/src/virtio_console.rs:375-388 | no NUL is left, every other byte occurs as often as before, and text goes through unchanged if and only if it has no NUL |
| VirtioConsole.HeadLensAt | tools/hvf-runner/src/virtio_console.rs:313-357 | every entry of a batch is recorded with the whole length of its chain |
| VirtioConsole.VirtioConsole.FlushTx | tools/hvf-runner/src/virtio_console.rs:390-397 | pending bytes reach stdout and nothing stays pending |
| VirtioConsole.VirtioConsole.AppendTx | tools/hvf-runner/src/virtio_console.rs:375-388 | stdout followed by pending grows by the bytes without their NULs, position by position; no newline and fewer than 256 bytes stay pending |
| VirtioConsole.VirtioConsole.EmitChain | tools/hvf-runner/src/virtio_console.rs:325-345 | the chain walk emits the readable buffers in order and totals every descriptor's length |
| VirtioConsole.VirtioConsole.EmitOne | tools/hvf-runner/src/virtio_console.rs:328-344 | one descriptor's text and length come off the front of the chain's |
| VirtioConsole.VirtioConsole.TransmitEntry | tools/hvf-runner/src/virtio_console.rs:313-357 | one entry: its text, and its used element at the used cursor's slot |
| VirtioConsole.VirtioConsole.TransmitAll | tools/hvf-runner/src/virtio_console.rs:313-357 | the loop ends at the available index after completing every outstanding head |
| VirtioConsole.VirtioConsole.ProcessTx | tools/hvf-runner/src/virtio_console.rs:292-373 | a transmit call serves the ring as the abstract machine does and adds to stdout the readable bytes of the published chains without their NULs, in order and no others, nothing pending; a queue that is not ready or not a power of two is untouched |
| VirtioConsole.VirtioConsole.ReceiveEntry | tools/hvf-runner/src/virtio_console.rs:429-457 | one byte leaves the queue for the entry's buffer, with a used element of length 1 |
| VirtioConsole.VirtioConsole.ReceiveRound | tools/hvf-runner/src/virtio_console.rs:428-457 | that entry is one step of the abstract queue, and what remains to deliver is unchanged |
| VirtioConsole.VirtioConsole.ReceiveAll | tools/hvf-runner/src/virtio_console.rs:428-457 | exactly the smaller of queued bytes and available entries is moved |
| VirtioConsole.VirtioConsole.ProcessRx | tools/hvf-runner/src/virtio_console.rs:404-473 | a receive call serves the ring with that many unit entries, keeps the remaining bytes queued in order, and fills the buffers |
| ConsoleInput.DeliverFills | tools/hvf-runner/src/virtio_console.rs:428-447 | delivery puts byte i in buffer i and touches no other byte of RAM |
| ConsoleInput.ApplyConserves | tools/hvf-runner/src/virtio_console.rs:404-473 | stdin, posting, receive calls and read-backs each keep the byte account |
| ConsoleInput.InputConserved | tools/hvf-runner/src/virtio_console.rs:404-473 | in every run, bytes read by the driver, then bytes in returned buffers, then bytes queued are exactly what stdin supplied |
| CtrlCommand.WalkKeepsFirst | tools/hvf-runner/src/virtio.rs:458-502 | for every chain the walk keeps the first eight readable bytes it meets and acknowledges every writable descriptor |
| CtrlCommand.SeenAt | tools/hvf-runner/src/virtio.rs:464-495 | each byte the walk meets is memory as it was, or 0 exactly where an earlier acknowledgement of the chain fell |
| CtrlCommand.CommandIsPrefix | tools/hvf-runner/src/virtio.rs:458-502 | the collected command is the first min(8, total) bytes of the concatenated readable buffers, however they are split, if and only if no earlier acknowledgement overwrites a non-zero one of those bytes |
| CtrlCommand.OrderedIsUnspoiled | tools/hvf-runner/src/virtio.rs:443-456 | chains with their writable descriptors last are never spoiled, whatever memory holds |
| CtrlCommand.SpoiledCommand | tools/hvf-runner/src/virtio.rs:458-502 | a writable descriptor in front of a readable one at the same address makes the device read a command other than the driver's first eight bytes, whenever the byte there is not 0 |
| VirtioCtrl.AnnouncedExactly | tools/hvf-runner/src/virtio.rs:504-513 | a command is announced if and only if it starts with class 4 and command 0 and has a count, and the count is its next two bytes in little-endian order |
| VirtioCtrl.CommandAnnounced | tools/hvf-runner/src/virtio.rs:504-513 | a command announces what its first eight readable bytes say if and only if no acknowledgement hides its class byte, its command byte or a recognised command's argument |
| VirtioCtrl.AnnouncesCommands | tools/hvf-runner/src/virtio.rs:435-513 | entry by entry, a batch announces what its commands' first eight readable bytes say if and only if none of them is misread in that way, memory being as the entries before left it |
| VirtioCtrl.CtrlQueue.Visit | tools/hvf-runner/src/virtio.rs:475-495 | a readable descriptor contributes up to the room left; a writable one is acknowledged with 0 |
| VirtioCtrl.CtrlQueue.WalkChain | tools/hvf-runner/src/virtio.rs:464-502 | the chain loop collects and acknowledges in order and totals the lengths |
| VirtioCtrl.CtrlQueue.Obey | tools/hvf-runner/src/virtio.rs:458-513 | one command: memory acknowledged, the announcement its bytes make, its chain's length |
| VirtioCtrl.CtrlQueue.ServeEntry | tools/hvf-runner/src/virtio.rs:436-526 | one entry: its command, its used element at the available slot, and the published index |
| VirtioCtrl.CtrlQueue.ServeAll | tools/hvf-runner/src/virtio.rs:435-526 | the loop ends at the available index after completing every outstanding head |
| VirtioCtrl.CtrlQueue.HandleCtrlQueue | tools/hvf-runner/src/virtio.rs:417-533 | the single-cursor loop publishes the same used ring and consumes the same entries as the two-cursor machine, announces what the commands say when none is misread, and interrupts exactly when it served something; a queue that is not ready is untouched |
| Icmpv6.StampedVerifies | crates/net/src/icmpv6.rs:337-342 | every stamped message verifies for the same addresses |
| Icmpv6.BuildEchoReply | crates/net/src/icmpv6.rs:76-99 | the reply's bytes, when it is refused, and that what is written verifies |
| Icmpv6.BuildNeighborAdvertisement | crates/net/src/icmpv6.rs:126-155 | as above for the advertisement with its target link-layer option |
| Icmpv6.BuildNeighborSolicitation | crates/net/src/icmpv6.rs:160-183 | as above for the solicitation |
| Icmpv6.BuildRouterSolicitation | crates/net/src/icmpv6.rs:188-209 | as above for the router solicitation |
| Icmpv6.EchoReplyOnWire | crates/net/src/icmpv6.rs:76-99 | type 129, code 0, and identifier, sequence number and data as in the request |
| Icmpv6.AdvertisementOnWire | crates/net/src/icmpv6.rs:126-155 | by the offsets of RFC 4861 section 4.4: solicited and override flags, target, target link-layer option |
| Icmpv6.SolicitationOnWire | crates/net/src/icmpv6.rs:160-183 | by the offsets of RFC 4861 section 4.3: target and source link-layer option |
| Icmpv6.RouterSolicitationOnWire | crates/net/src/icmpv6.rs:188-209 | by the offsets of RFC 4861 section 4.1: source link-layer option |
| Icmpv6.VerifyChecksum | crates/net/src/icmpv6.rs:337-342 | accepts exactly the messages whose checksum over the pseudo header is 0 |
| Icmpv6.OptionsOfEncoded | crates/net/src/icmpv6.rs:293-311 | an encoded option in front is the first one the iterator yields |
| Icmpv6.OptionBodies | crates/net/src/icmpv6.rs:293-311 | every yielded option has at least six body bytes |
| Icmpv6.LlaIsFirstMatch | crates/net/src/icmpv6.rs:344-363 | the answer is the first six body bytes of the first option of the wanted kind, and none if there is none |
| Icmpv6.ParseLlaOption | crates/net/src/icmpv6.rs:344-363 | the walker on every byte string agrees with the option iterator |
| Icmpv6.FindPrefixInfo | crates/net/src/icmpv6.rs:315-335 | the first prefix option long enough to read |
| Icmpv6.PrefixReadBack | crates/net/src/icmpv6.rs:315-335 | an option written by RFC 4861 section 4.6.2 reads back to its prefix, its two flags and its two lifetimes, whatever the reserved bits hold |
| Icmpv6.PrefixIsFirst | crates/net/src/icmpv6.rs:315-335 | the option read is the earliest long enough, and none only if there is none |
| Icmpv6.SolicitationRoundTrip | crates/net/src/icmpv6.rs:160-244 | parsing a built solicitation recovers target and sender MAC |
| Ip.Ipv4HeaderVerifies | crates/net/src/ipv4.rs:94-113 | every IPv4 header written sums to checksum 0 |
| Ip.FillEthernetHeader | crates/net/src/ethernet.rs:73-83 | the 14 header bytes at the slot and nothing else |
| Ip.FillIpv4Header | crates/net/src/ipv4.rs:94-113 | the 20 header bytes with this core's next identification, nothing else touched, checksum 0 |
| Ip.IpIdSlot.Take | crates/net/src/ipv4.rs:75-83 | fetch-and-increment with 16-bit wraparound |
| Ip.FillIpv6Header | crates/net/src/ipv6.rs:83-100 | the 40 header bytes and nothing else |
| Ip.BuildIpv6 | crates/net/src/ipv6.rs:105-130 | refused exactly when the payload is over the MTU or the buffer too small; otherwise header and payload in front of an untouched rest |
| Ip.ParseIpv4 | crates/net/src/ipv4.rs:117-166 | an accepted packet's payload bounds lie inside the input, behind the header; which packets are accepted is `KeptExactly` |
| Ip.KeptExactly | crates/net/src/ipv4.rs:117-159 | a packet is kept if and only if its header is readable and its destination is our address or 255.255.255.255, or the interface has no address or no mask, or every bit outside the mask is one |
| Ip.KeptByPrefix | crates/net/src/ipv4.rs:150-159 | the same for a network prefix in network order: the last case is the last address of any block of that size |
| Ip.KeptBeyondUs | crates/net/src/ipv4.rs:115-159 | packets for us are always kept; a configured interface also keeps exactly those for the last address of a block of another network |
| Ip.ForeignBroadcastKept | crates/net/src/ipv4.rs:150-159 | 192.168.1.2/24 keeps a packet for 10.9.9.255 |
| Ip.HostPrefixKeepsAll | crates/net/src/ipv4.rs:150-159 | under the mask 255.255.255.255 every destination is kept |
| Ip.ParseIpv6 | crates/net/src/ipv6.rs:141-169 | likewise for IPv6, starting at byte 40, the hop limit part of the result |
| Ip.Ipv4RoundTrip | crates/net/src/ipv4.rs:94-166 | a written header parses back to its fields with the payload clamped to the input, if and only if the destination rule of `KeptExactly` accepts it |
| Ip.Ipv6RoundTrip | crates/net/src/ipv6.rs:83-169 | a written IPv6 header parses back to addresses, next header and hop limit, payload clamped |
| Udp.MemMove | crates/boot/src/mem_stubs.rs:53-70 | either direction of overlap leaves the destination with the bytes the source held before |
| Udp.FillUdpFrameHeaders | crates/net/src/udp.rs:180-244 | UDP, IP and Ethernet writes together overwrite exactly the header bytes at `eth_off`, for every length, the fields wrapping at 16 bits |
| Udp.SendWithL2Headroom | crates/net/src/udp.rs:262-317 | the shipped slice is the canonical frame around the payload; size guards and unresolved neighbours ship nothing and change nothing |
| Udp.WriteUdpTxHeaders | crates/net/src/udp.rs:353-389 | after the overlapping move and the header fill, the first `on_wire` bytes are the canonical frame around the original payload |
| Udp.SendViaTxHandle | crates/net/src/udp.rs:391-433 | the slot path ships the same outcome as the headroom path |
| Udp.SendBothWays | crates/net/src/udp.rs:262-433 | same payload, same identification: both layouts ship identical bytes and checksum offsets |
| Udp.ShippedV4OnWire | crates/net/src/udp.rs:180-317 | every byte of a sent IPv4 frame by its offset: resolved MAC, our MAC, type, addresses, lengths, identification, ports, payload, and where its checksum is finished |
| Udp.ShippedV6OnWire | crates/net/src/udp.rs:180-317 | the same for IPv6, with the unspecified source address and 64 hops |
| Udp.RefusedExactly | crates/net/src/udp.rs:262-290 | nothing is shipped exactly for an empty payload, one over 1472 bytes, or an unresolved neighbour |
| Udp.FrameFitsExactly | crates/net/src/udp.rs:157-159 | a shipped frame keeps to the documented 1514 bytes if and only if it is IPv4 or its payload is at most 1452 bytes |
| Udp.OversizedIpv6Ships | crates/net/src/udp.rs:266-270 | every IPv6 payload of 1453 to 1472 bytes, whatever it holds, is shipped as an oversized frame |
| Classify.OffsetsInBounds | crates/net/src/types.rs:257-268 | the L4 segment re-sliced by a frame's own summary is always in bounds, and the families of source and destination agree |
| Classify.ArpExactly | crates/net/src/classify.rs:73-92 | frames of type 0x0806, and no others, are classified as ARP, at offset 14 |
| Classify.SummaryV4 | crates/net/src/classify.rs:100-119 | a kept IPv4 frame by byte offset: protocol, addresses, segment bounds, and the sender's MAC exactly for senders in our own block |
| Classify.SummaryV6 | crates/net/src/classify.rs:124-144 | the same for IPv6, and exactly when it is kept |
| Classify.Owner | crates/net/src/classify.rs:153-165 | the owner is below the number of cores |
| Classify.OwnerFollowsFlow | crates/net/src/classify.rs:148-165 | frames with the same addresses have the same owner when they agree on their first four L4 bytes, or both have fewer |
| Classify.OwnerIgnoresOptions | crates/net/src/classify.rs:100-165 | on the wire: IPv4 options, trailing bytes and an over-long length field do not affect the owner, and the frame is kept exactly when its destination is accepted |
| Classify.OwnerIgnoresTail | crates/net/src/classify.rs:124-165 | the same for IPv6 frames |
| UdpDelivery.DatagramRoundTrip | crates/net/src/udp.rs:527-539 | the UDP header checks recover ports and payload of a built segment |
| UdpDelivery.SendReceiveRoundTrip | crates/net/src/classify.rs:73-144 | for any checksum field and padding, a built frame is kept exactly by receivers whose destination rule takes it, its L4 segment re-slices exactly, and ports and payload come back |
| UdpDelivery.UnicastDelivered | crates/net/src/classify.rs:73-144 | a frame built for a receiver's own address always reaches it, with addresses, ports and payload, whatever its network configuration |
| UdpDelivery.DeliveredExactly | crates/net/src/ipv4.rs:150-159 | for every other IPv4 destination, exactly by the rule for the receiver's prefix |
| UdpDelivery.ShippedFrameVerifies | crates/net/src/udp.rs:209-216 | finishing a shipped frame at the offsets handed to the driver gives a frame of the same datagram whose UDP checksum verifies |
| FlowHash.FnvStepBijective | crates/net/src/classify.rs:197-199 | for each folded word the FNV step is a bijection, with its inverse |
| FlowHash.MixBijective | crates/net/src/classify.rs:206-213 | the finaliser is a bijection on 32 bits, with its inverse |
| FlowHash.OneFieldSeparates | crates/net/src/classify.rs:217-242 | changing exactly one folded field always changes the hash before the modulo |
| FlowHash.V4NeighboursApart | crates/net/src/classify.rs:217-224 | two IPv4 tuples that differ in exactly one field never hash alike |
| FlowHash.V6OctetApart | crates/net/src/classify.rs:228-242 | two IPv6 tuples that differ in exactly one address octet never hash alike |
| FlowHash.V6PortApart | crates/net/src/classify.rs:228-242 | two IPv6 tuples that differ in one port never hash alike |
| FlowHash.Fmix32 | crates/net/src/classify.rs:206-213 | the five in-place stages are the finaliser |
| FlowHash.FlowHashV4 | crates/net/src/classify.rs:217-224 | the running hash is the fold over the four fields, below the number of cores |
| FlowHash.FlowHashV6 | crates/net/src/classify.rs:228-242 | the octet loop is the fold over 32 octets and two ports, below the number of cores |
| FlowHash.FlowOwner | crates/net/src/classify.rs:179-191 | dispatch by family; mixed families own core 0 |
| DhcpOptions.ParseOptions | crates/net/src/dhcp_parse.rs:51-90 | on every byte string the walker is the left fold over the well-formed options before the first End or truncation, and reads each field from the last usable option of its code |
| DhcpOptions.CollectReads | crates/net/src/dhcp_parse.rs:71-86 | by index over the options: subnet mask, router, DNS server and server identifier are the first four bytes of the last option 1, 3, 6 and 54 that has four, the message type the first byte of the last non-empty option 53, and nothing where there is none |
| DhcpOptions.PadsChangeNothing | crates/net/src/dhcp_parse.rs:51-90 | any number of pads between options changes nothing |
| DhcpOptions.UnknownChangesNothing | crates/net/src/dhcp_parse.rs:51-90 | an unknown option between options changes nothing |
| DhcpOptions.EndStops | crates/net/src/dhcp_parse.rs:55-59 | nothing after the End marker is read |
| DhcpOptions.ReplyHeaderRead | crates/net/src/dhcp_parse.rs:98-121 | a reply on the wire is accepted exactly for its own transaction id and yields exactly the address it offers; requests are refused |
| Dhcp.HandledHistory | crates/net/src/dhcp.rs:117-171 | over any history the lease is the merge of the accepted replies and each flag says whether one of its kind came in |
| Dhcp.RejectedChangesNothing | crates/net/src/dhcp.rs:117-171 | NAKs, foreign transactions, short datagrams and other ports change nothing |
| Dhcp.AcceptExactly | crates/net/src/dhcp.rs:117-135 | by the offsets of RFC 2131: exactly which datagrams are accepted, as OFFER or as ACK, and the address and options read from them |
| Dhcp.MergedLease | crates/net/src/dhcp.rs:133-161 | closed form of the merge: the last OFFER's values, each overridden by the last later ACK that carries it; the IP is the last reply's |
| Dhcp.RequestCarriesOffer | crates/net/src/dhcp.rs:222-244 | a REQUEST's options name the offered address and the server identifier, under the run's transaction id |
| Dhcp.MessageOnWire | crates/net/src/dhcp.rs:177-205 | by the offsets of RFC 2131: operation, hardware type, transaction id, broadcast flag, hardware address, cookie, and zeros elsewhere |
| Dhcp.DiscoverAsks | crates/net/src/dhcp.rs:207-220 | a DISCOVER's options say so and ask for mask, router and DNS server |
| Dhcp.OwnMessageIgnored | crates/net/src/dhcp_parse.rs:98-106 | the client never takes one of its own broadcasts for a reply |
| DhcpRun.SuccessExactly | crates/net/src/dhcp.rs:271-301 | discovery succeeds if and only if an OFFER of this transaction was accepted after the OFFER reset and before it stopped asking, and an ACK after the ACK reset and before it stopped requesting |
| DhcpRun.StoredLease | crates/net/src/dhcp.rs:271-312 | the stored configuration is that of the last OFFER accepted since the reset and the ACKs after it; nothing older leaks in; the stored address is the last accepted reply's |
| DhcpWire.StoredOnWire | crates/net/src/dhcp.rs:117-312 | the stored configuration by the bytes on the wire: among the accepted datagrams from the last OFFER on, mask, router and DNS server are the last given in options 1, 3 and 6, the server is the OFFER's option 54, the address the last datagram's |
| DhcpRun.ConfirmedExactly | crates/net/src/dhcp.rs:271-312 | some accepted ACK carried the stored address if and only if the last accepted reply is an ACK, or an ACK accepted before the last OFFER carried the address of that OFFER |
| DhcpRun.LateOfferStored | crates/net/src/dhcp.rs:292-312 | any OFFER handled between the ACK and the store replaces the lease of a run that succeeds |
| DhcpRun.UnconfirmedLeaseStored | crates/net/src/dhcp.rs:292-312 | so some network makes a run succeed and store an address that no accepted ACK carried |
| DhcpRun.SendsBounded | crates/net/src/dhcp.rs:278-301 | at most five DISCOVERs then at most five REQUESTs under the new transaction id; a REQUEST is sent if and only if an OFFER came in; a phase is given up only after all five; each REQUEST is built from the lease as the datagrams handled before it left it |
| DhcpRun.RequestNamesOffer | crates/net/src/dhcp.rs:291-298 | the i-th REQUEST is the one for the lease of the last OFFER accepted before it was built and the ACKs accepted since, so with `RequestCarriesOffer` it names that address and that server |
| DhcpRun.DhcpClient.constructor | crates/net/src/dhcp.rs:89-101 | the initial transaction id, an empty lease, clear flags |
| DhcpRun.DhcpClient.HandleReply | crates/net/src/dhcp.rs:117-171 | the client after one datagram is the specification's |
| DhcpRun.DhcpClient.MergeReply | crates/net/src/dhcp.rs:133-170 | an OFFER replaces the lease, an ACK overrides what it carries, anything else changes nothing |
| DhcpRun.DhcpClient.BuildPayload | crates/net/src/dhcp.rs:177-205 | fixed header then options at the front of the buffer; the length covers the 300-byte minimum |
| DhcpRun.DhcpClient.Build | crates/net/src/dhcp.rs:207-244 | the reused 300-byte buffer holds exactly the DISCOVER or REQUEST, zero behind its options |
| DhcpRun.DhcpClient.Phase | crates/net/src/dhcp.rs:278-298 | one retry loop: what it sends and the client it leaves behind |
| DhcpRun.DhcpClient.Negotiate | crates/net/src/dhcp.rs:278-301 | both phases: verdict, client and messages of the run once started |
| DhcpRun.DhcpClient.Discover | crates/net/src/dhcp.rs:247-312 | verdict, client state, messages sent and stored configuration of a whole run; a failed bind does nothing and a failed run stores nothing |

## Left out

- NIC drivers, the reactor, the executor, timers, TCP, QUIC, TLS and the applications: only what the modelled code needs of them is assumed, as listed above.
- The busy-poll loop of `arp_resolve` after its first request, and ARP announcements: they depend on device polling. `Arp.Resolve` stops where a request would be sent.
- The torn-read protocol of the per-core fast slots (invalidate, write, publish, re-check) and memory orderings weaker than sequential consistency.
- Configuration changes in mid-run: every run has one fixed configuration.
- `send_to_addr` and UDP segmentation offload: wrappers around the two modelled send paths; `WriteUdpTxHeaders` covers the shared header fill, 16-bit truncation of the length fields included.
- Observability counters, log lines and the other fields of the device register file.
- Cyclic or out-of-RAM descriptor chains, chains of 2^32 bytes or more, and control queues whose size is not a power of two: excluded by precondition, as is aliasing between rings and buffers.
- Device resets in the console input account: a reset loses the bytes of returned but unread buffers, so `ConsoleInput.InputConserved` covers runs without one.
- Parsing of router advertisements and IPv6 address formation: fixed-offset reads with no state behind them.
- Checksum.L4ChecksumV6: limited to segments of 131039 bytes; from 131040 bytes on the source's 32-bit accumulator can overflow (`SegmentBoundExact`), and an IPv6 segment is at most 65535 bytes.
- UDP checksum 0 as "no checksum": the finishing rule of the device is modelled as a plain one's-complement checksum.
