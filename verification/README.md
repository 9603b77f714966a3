# Verified model of the NetXtreme II driver's rings, reset and loaders

AzulNX2Ethernet drives the QLogic NetXtreme II network controllers. The driver and the
controller share two descriptor rings, one page each, whose 16-bit indices run freely, wrap,
and skip the slot that links the page to its own start. This project models both rings with
the hardware on the other side, the boot-firmware handshake and the reset built on it, the
initialisation of on-chip context memory, and the two firmware loaders, and proves what they
guarantee over every run.

## How it is organised

| files | what they model |
|---|---|
| `Machine.dfy`, `RingIndex.dfy` | fixed-width arithmetic; the index macros and the cycle they generate |
| `TxRing.dfy` | the transmit ring of the controller object (class `Transmitter`) and the functions that specify it |
| `TxStream.dfy` | the stream of all posted descriptors and the parser that recovers packets from it |
| `TxSystem.dfy`, `TxTheorems.dfy` | transmit ring and hardware as a step system; results over every run |
| `RxRing.dfy` | the receive ring (class `Receiver`) and its specification |
| `RxSystem.dfy`, `RxTheorems.dfy` | receive ring and hardware as a step system; results while refills succeed |
| `RxBatches.dfy`, `RxRefills.dfy` | one interrupt and whole runs when refills may fail: contents, counts, doorbells |
| `RxLedger.dfy`, `RxStale.dfy` | the ledger of all refills of a run, which determines the ring; when stale descriptors and empty slots reach the hardware and the handler |
| `FirmwareLink.dfy`, `ControllerReset.dfy` | the sequence-numbered mailbox handshake; the two-phase reset |
| `ContextMemory.dfy` | paged context memory of the 5706/5708 and its initialisation |
| `FirmwareFile.dfy`, `Rv2pLoader.dfy`, `MipsLoader.dfy` | big-endian firmware files; the RV2P and MIPS loaders |
| `Driver.dfy`, `DriverSystem.dfy` | the controller object as the network stack drives it; the whole as a step system |

Each class keeps the driver's fields and updates them in place; its methods are proved equal
to functions over the abstract state, and the lemmas are about those functions and about
every sequence of steps. The methods of `Driver.Controller` are specified on the values of
its fields, and each specification is proved equal to what the whole-driver step system does
(`Driver.OutputSimulates`, `Driver.InterruptSimulates`; enabling is defined the same way on
both sides). A counter `k` of descriptors posted since initialisation stands for
the index `IndexAfter(k)`, which is `k` applications of the successor macro to 0; all
wrap-around reasoning goes through the bijection in `RingIndex`.

## Assumptions

- A send and an enable are one step each and an interrupt is three, one for each status block
  field it reads; the hardware acts between steps. `TxTheorems.FetchDuringFill` and `TxTheorems.SendFetchCommute` show that a fetch
  during a send changes nothing.
- The transmit hardware fetches one descriptor at a time while its index differs from the
  doorbell, and publishes its index at any time, possibly as the link slot that precedes it.
- The receive hardware writes a header at the address in the next posted descriptor. It does
  nothing before the rings are initialised.
- A packet is an identity with the segments the memory cursor reports, at most 512; an empty
  list stands for a failed walk. Checksum and VLAN demands are part of the packet.
- TransmitReceive.cpp:159 passes the address of the 16-bit `bdVlanTag` as that of a 32-bit
  variable. The model takes the tag from its low half, as on a little-endian host, and does not
  represent what the store of the other half overwrites.
- "Refills succeed" means: every allocation in an interrupt returns a packet that maps to one
  segment and whose buffer is not one the ring still holds.
- The status index is a value the hardware supplies whenever it is read.
- Registers behind the indirect window and the context and RV2P registers keep what is
  written, with the field widths of their definitions.

## Findings about the code

- The comment at TransmitReceive.cpp:149 says the first segment gets the start flag; the code
  puts START on every descriptor of a packet, so only END separates packets (`TxStream.BdRoundTrip`).
- The checksum mask is not reset between packets of one interrupt, so a packet can be reported
  with another's flags: `RxTheorems.ChecksumLeaks` gives an input, `RxTheorems.ChecksumExactIff`
  the exact condition.
- A failed refill is ignored. The producer then counts only the successes
  (`RxRefills.ProducerInEveryState`), and producer and slots drift apart exactly when a refill
  failed (`RxRefills.AlignedIffAllRefilled`, `RxBatches.RefillSlotIff`). Over a run, descriptors
  of buffers already given away are released to the hardware exactly when some failed refill is
  followed by a successful one, in the same interrupt or any later one
  (`RxStale.NoStaleReleasedIff`; for one state `RxStale.SafeIff`, without any assumption on reused
  buffers `RxStale.AlwaysSafeIff`). The hardware then writes into such a buffer
  (`RxStale.HardwareWritesGivenAway`). The handler dereferences an empty slot at
  TransmitReceive.cpp:361 once the released slots are used up exactly when one of them belongs to
  a failed allocation (`RxStale.HandlerMeetsEmptySlotIff`, over runs `RxStale.NeverEmptyIff`).
  `RxStale.FaultingRun` is a run from initialisation with both effects, although each of its
  interrupts by itself has one refill only.
- A receive ring that could not be filled leaves an enabled driver that receives nothing:
  `RxRefills.ReceivesIffFilled`.
- The handler acknowledges the status index it reads last, although each ring's index was read
  before: an update published in between is acknowledged without being handled, and only then
  (`DriverSystem.InterruptCatchesUp`).
- A packet sent before enabling is reported as sent and lost: `DriverSystem.LostBeforeEnable`,
  `DriverSystem.SuccessMeansQueuedIff`. The output queue is started at AzulNX2Ethernet.cpp:206 and
  the driver enabled at line 208, so this needs a packet in that window or a direct call.
- A success of the handshake can be due to an acknowledgement 65536 calls old. The outcomes a
  caller has seen exclude it if and only if no success follows 65535 failures in a row:
  `FirmwareLink.TruthfulIffRegular`, with the history built by `FirmwareLink.StaleSuccess`.
- The RV2P page-size patch is undone by a later fixup of the same instruction, and an even fixup
  stores halves of two instructions: `Rv2pLoader.PatchSurvivesIff`, `Rv2pLoader.EvenFixupCorrupts`.
  `Rv2pLoader.ImageLoadedIff` gives the exact condition for the patched image to be loaded.
- A MIPS processor that was halted before its initialisation does not get its mode register
  back: `MipsLoader.ModeRestoredIff`.

## Model

| member | source | states |
|---|---|---|
| RingIndex.MaskIsRemainder | src/AzulNX2Ethernet/HwBuffers.h:126-127 | the mask with 1023 in the index macros is the remainder modulo 1024 on 16-bit values |
| RingIndex.CycleIsomorphism | src/AzulNX2Ethernet/HwBuffers.h:120-127 | the successor macro is one cycle through exactly the 65472 indices off the link slot, conjugate to +1, and the slot macro is the position modulo 1023 |
| RingIndex.IndexAfterFacts | src/AzulNX2Ethernet/HwBuffers.h:176-183 | the same for counters of any size, across the link slot and the 16-bit wrap |
| RingIndex.NormalizeIntoCycle | src/AzulNX2Ethernet/TransmitReceive.cpp:113-120 | every raw 16-bit status value is mapped into the cycle; a value on the link slot becomes its successor and every other value is kept |
| RingIndex.PublishedIndex | src/AzulNX2Ethernet/TransmitReceive.cpp:332-339 | whichever way the hardware publishes its index, normalising gives that index back |
| RingIndex.DistIsFirstArrival | src/AzulNX2Ethernet/TransmitReceive.cpp:223-233 | stepping with `!=` as the guard arrives after exactly the cyclic distance and not before |
| RingIndex.ReachableIffInCycle | src/AzulNX2Ethernet/TransmitReceive.cpp:223-233 | such a loop stops if and only if its target is off the link slot |
| RingIndex.SlotsDistinct | src/AzulNX2Ethernet/HwBuffers.h:126-127 | counters less than one ring apart name different slots |
| RingIndex.CounterOfSlot | src/AzulNX2Ethernet/HwBuffers.h:126-127 | within one ring of counters every slot is named exactly once |
| RingIndex.OneRingLater | src/AzulNX2Ethernet/HwBuffers.h:182-183 | one ring later is the same slot and the index plus 1024 modulo 65536 |
| TxRing.Transmitter.constructor | src/AzulNX2Ethernet/Controller.cpp:133-137 | the zero-filled object with an empty packet table |
| TxRing.Transmitter.InitTxRing | src/AzulNX2Ethernet/TransmitReceive.cpp:61-83 | resets the indices and the free count to 1022, writes the link descriptor, leaves the packet table alone |
| TxRing.Transmitter.DescriptorFlags | src/AzulNX2Ethernet/TransmitReceive.cpp:151-162 | the flags and the tag every descriptor of the packet carries, from its demands; EveryDescriptor gives the resulting words |
| TxRing.Transmitter.WriteDescriptor | src/AzulNX2Ethernet/TransmitReceive.cpp:172-191 | one descriptor at the producer's slot, byte total and producer advanced |
| TxRing.Transmitter.WriteSegment | src/AzulNX2Ethernet/TransmitReceive.cpp:172-191 | one turn of the filling loop writes the next descriptor of the packet's encoding, END only on the last |
| TxRing.Transmitter.FillChain | src/AzulNX2Ethernet/TransmitReceive.cpp:167-192 | the filling loop writes the encoding of the packet, in order, and returns the slot of its last descriptor |
| TxRing.Transmitter.SendTxPacket | src/AzulNX2Ethernet/TransmitReceive.cpp:122-215 | stall, drop or accept with the exact new state, including packet pointer, free count and both doorbells |
| TxRing.Transmitter.HandleTxInterrupt | src/AzulNX2Ethernet/TransmitReceive.cpp:217-236 | terminates for every target off the link slot with the exact state after freeing and counting up to it |
| TxStream.BdRoundTrip | src/AzulNX2Ethernet/TransmitReceive.cpp:149-187 | a descriptor keeps its segment through the address split and carries the packet's demands; START is on every descriptor and END only on the last |
| TxStream.ParseStream | src/AzulNX2Ethernet/TransmitReceive.cpp:167-192 | splitting the descriptors of any packets at END gives back exactly their segment lists |
| TxStream.ParseCut | src/AzulNX2Ethernet/TransmitReceive.cpp:167-192 | cut anywhere, parsing gives exactly the packets that end before the cut and the first segments of the next |
| TxSystem.FillWrites | src/AzulNX2Ethernet/TransmitReceive.cpp:167-192 | filling writes the next slots only: the rest of the window and the link descriptor are kept |
| TxSystem.AcceptExtends | src/AzulNX2Ethernet/TransmitReceive.cpp:146-210 | accepting a packet extends the window of the descriptor stream by exactly its entries |
| TxSystem.ReclaimAdvances | src/AzulNX2Ethernet/TransmitReceive.cpp:217-233 | stepping to the index of a stream position frees exactly the packets that end before it |
| TxSystem.RunInv | src/AzulNX2Ethernet/TransmitReceive.cpp:122-236 | the ring invariant holds after every interleaving of sends, fetches, publications and interrupts |
| TxTheorems.Conservation | src/AzulNX2Ethernet/TransmitReceive.cpp:131-233 | free count plus distance from consumer to producer is 1022 in every reachable state, at least one descriptor stays free, and the ring is empty exactly when all are free |
| TxTheorems.Fifo | src/AzulNX2Ethernet/TransmitReceive.cpp:194-233 | accepted packets are the freed ones followed by those parked between consumer and producer, in order |
| TxTheorems.FreedOnce | src/AzulNX2Ethernet/TransmitReceive.cpp:226-229 | no packet is freed twice or freed while still in flight |
| TxTheorems.WireCarriesPackets | src/AzulNX2Ethernet/TransmitReceive.cpp:122-236 | what the hardware fetched parses into a prefix of the accepted packets and part of the next, and every freed packet is among the completed ones |
| TxTheorems.DescriptorRoundTrip | src/AzulNX2Ethernet/TransmitReceive.cpp:167-192 | walking the ring from any unreclaimed packet boundary to the producer and parsing gives back the segment lists of the packets from there |
| TxTheorems.EveryDescriptor | src/AzulNX2Ethernet/TransmitReceive.cpp:151-191 | in every reachable state, descriptor by descriptor, what the hardware fetched and what is posted are the segments of the accepted packets in order, with address halves, length, tag and the whole 16-bit flag word |
| TxTheorems.LinkDescriptorKept | src/AzulNX2Ethernet/TransmitReceive.cpp:76-83 | over every run the link slot holds the ring's own address |
| TxTheorems.DroppedExactly | src/AzulNX2Ethernet/TransmitReceive.cpp:139-142 | over every run the packets freed without being sent are exactly those without a segment, in order |
| TxTheorems.SlotOwnership | src/AzulNX2Ethernet/TransmitReceive.cpp:194-199 | a slot holds a packet pointer exactly when it lies between consumer and producer and its descriptor carries END |
| TxTheorems.SendPreservesWindow | src/AzulNX2Ethernet/TransmitReceive.cpp:167-199 | a send changes no descriptor or pointer in the window, overwrites no live pointer and never touches the link descriptor |
| TxTheorems.SendOutcome | src/AzulNX2Ethernet/TransmitReceive.cpp:131-214 | exact conditions for drop, accept and stall; a stall changes nothing; with at most 509 descriptors in flight every packet is accepted |
| TxTheorems.Doorbells | src/AzulNX2Ethernet/TransmitReceive.cpp:190-207 | both doorbells always show the producer and the byte total of everything accepted modulo 2^32 |
| TxTheorems.ReclaimCount | src/AzulNX2Ethernet/TransmitReceive.cpp:223-233 | for every target, honest or not, the loop turns exactly as often as the cyclic distance |
| TxTheorems.FetchDuringFill | src/AzulNX2Ethernet/TransmitReceive.cpp:167-207 | while a send is half done, a descriptor the hardware may fetch is already final |
| TxTheorems.SendFetchCommute | src/AzulNX2Ethernet/TransmitReceive.cpp:167-207 | a send and a fetch of a posted descriptor commute |
| TxTheorems.Drain | src/AzulNX2Ethernet/TransmitReceive.cpp:217-236 | from every reachable state, fetching what is posted, publishing and interrupting frees every accepted packet and all 1022 descriptors |
| RxRing.Receiver.constructor | src/AzulNX2Ethernet/Controller.cpp:133-137 | the zero-filled object with an empty packet table |
| RxRing.Receiver.InitRxDescriptor | src/AzulNX2Ethernet/TransmitReceive.cpp:290-317 | allocation, mapping and posting of one slot with both failure exits |
| RxRing.Receiver.InitRxRing | src/AzulNX2Ethernet/TransmitReceive.cpp:238-288 | fills the 1023 slots, stops at the first failure without ringing a doorbell |
| RxRing.Receiver.TakePacket | src/AzulNX2Ethernet/TransmitReceive.cpp:354-396 | one turn of the receive loop: reject or deliver by header, then refill, with the carried checksum mask |
| RxRing.Receiver.HandleRxInterrupt | src/AzulNX2Ethernet/TransmitReceive.cpp:341-407 | terminates for every target off the link slot with the exact new state and doorbells |
| RxSystem.InterruptInv | src/AzulNX2Ethernet/TransmitReceive.cpp:341-400 | one interrupt with successful refills keeps the ring invariant and makes exactly the specified upcalls |
| RxSystem.RunInv | src/AzulNX2Ethernet/TransmitReceive.cpp:238-407 | while refills succeed the ring invariant holds after every interleaving |
| RxTheorems.LinkDescriptorKept | src/AzulNX2Ethernet/TransmitReceive.cpp:254-260 | over every run, even when refills fail, the link descriptor holds the ring's own address |
| RxTheorems.RingFull | src/AzulNX2Ethernet/TransmitReceive.cpp:244-269 | between interrupts the producer stays 1024 ahead of the consumer modulo 65536, all 1023 slots hold a packet its own descriptor addresses, buffers are distinct, no empty slot is met |
| RxTheorems.PacketConservation | src/AzulNX2Ethernet/TransmitReceive.cpp:353-397 | packets handed out by the allocator are, in order, those freed or delivered once each, then those in the ring |
| RxTheorems.Dispositions | src/AzulNX2Ethernet/TransmitReceive.cpp:367-394 | each packet taken from the ring is freed or delivered according to the header received for it |
| RxTheorems.FramesInOrder | src/AzulNX2Ethernet/TransmitReceive.cpp:357-394 | end to end, the k-th disposal belongs to the k-th received frame; delivered exactly when error-free and in range, with the header length less 4, no wrap, within the limit |
| RxTheorems.InterruptUpcalls | src/AzulNX2Ethernet/TransmitReceive.cpp:353-397 | the exact upcalls of one interrupt as a function of the headers received since the last |
| RxTheorems.ChecksumBits | src/AzulNX2Ethernet/TransmitReceive.cpp:374-393 | in terms of the headers received, IP, TCP and UDP are reported exactly when bit 13, 14 or 15 is set in the header of a packet delivered up to this one in the interrupt |
| RxTheorems.OwnFlags | src/AzulNX2Ethernet/HwBuffers.h:155-157 | a packet's own flags are those three bits of its own header |
| RxTheorems.Doorbells | src/AzulNX2Ethernet/TransmitReceive.cpp:399-400 | while refills succeed both doorbells show the producer and the byte total of every posted buffer modulo 2^32 |
| RxTheorems.ChecksumExactIff | src/AzulNX2Ethernet/TransmitReceive.cpp:348-393 | a packet is reported with its own flags if and only if no packet delivered before it in the interrupt had a flag it lacks |
| RxTheorems.ChecksumLeaks | src/AzulNX2Ethernet/TransmitReceive.cpp:348-393 | a two-packet input where the second is reported with the first one's flag |
| RxBatches.ProducerCountsSuccesses | src/AzulNX2Ethernet/TransmitReceive.cpp:297-397 | whatever the allocator answers, and even if the handler meets an empty slot, a batch advances the producer by the successes among its completed turns and the byte counter by their lengths |
| RxBatches.BatchContents | src/AzulNX2Ethernet/TransmitReceive.cpp:353-397 | a batch meets an empty slot if and only if one lies in it; otherwise each slot holds what its refill was given, its descriptor is new exactly when the refill succeeded, and other slots are kept |
| RxBatches.BatchDisposals | src/AzulNX2Ethernet/TransmitReceive.cpp:354-394 | every packet of a batch is freed or delivered, in order, whatever the refills do |
| RxBatches.InterruptReports | src/AzulNX2Ethernet/TransmitReceive.cpp:348-394 | from any state and with any answers, each upcall of an interrupt frees or delivers its packet as the errors and length in its header demand, and a delivered one is reported with exactly the checksums whose status bit 13, 14 or 15 is set in a packet delivered up to it |
| RxBatches.RefillSlotIff | src/AzulNX2Ethernet/TransmitReceive.cpp:354-397 | whatever failed before, turn j refills the consumer's slot, which is the slot `rxProd` names at that moment if and only if the producer was one ring ahead when the batch started and all earlier refills of the batch succeeded |
| RxBatches.DoorbellsOfInterrupt | src/AzulNX2Ethernet/TransmitReceive.cpp:399-400 | an interrupt rings both doorbells once, at its end, with the new producer and byte total, and none if it met an empty slot |
| RxRefills.InitCounts | src/AzulNX2Ethernet/TransmitReceive.cpp:244-269 | filling succeeds exactly when every answer does; the producer and byte counter have counted the slots before the first failure and no doorbell has rung |
| RxRefills.InitAnyState | src/AzulNX2Ethernet/TransmitReceive.cpp:262-269 | from any state, filling succeeds exactly when every slot has or gets a packet of one segment, and a packet still in its slot is kept |
| RxRefills.FullAfterInit | src/AzulNX2Ethernet/TransmitReceive.cpp:244-284 | from any state, a successful initialisation leaves consumer 0, producer 1024, a full ring and both doorbells showing it; a failed one rings none |
| RxRefills.RunCounts | src/AzulNX2Ethernet/TransmitReceive.cpp:297-400 | from any state over any run with any answers, the producer advances by exactly the successful refills and the byte counter by exactly their lengths |
| RxRefills.ProducerInEveryState | src/AzulNX2Ethernet/TransmitReceive.cpp:283-400 | in every reachable state, whatever failed at start or later, faulted or not, `rxProd` and `rxProdBufferSize` are the count and total length of the descriptors posted |
| RxRefills.DoorbellsInEveryState | src/AzulNX2Ethernet/TransmitReceive.cpp:283-400 | for a filled ring both doorbells show those totals in every unfaulted state |
| RxRefills.AlignedIffAllRefilled | src/AzulNX2Ethernet/TransmitReceive.cpp:353-400 | in every unfaulted state of every run the producer is one page ahead if and only if the ring was filled and every refill since succeeded |
| RxRefills.UnfilledRingReceivesNothing | src/AzulNX2Ethernet/Controller.cpp:360-361 | as the failure is ignored, an enabled driver with an unfilled ring never receives |
| RxRefills.ReceivesIffFilled | src/AzulNX2Ethernet/Controller.cpp:360-361 | something can be received if and only if the ring could be filled |
| RxLedger.LedgerInterrupt | src/AzulNX2Ethernet/TransmitReceive.cpp:341-407 | an interrupt of any unfaulted state meets an empty slot if and only if the ledger has a failed allocation among the counters published; otherwise it moves the ring along the ledger |
| RxLedger.RunLedger | src/AzulNX2Ethernet/TransmitReceive.cpp:238-407 | in every unfaulted state of every run of a filled ring, packets, descriptors, indices and upcalls are those the sequence of all refills determines |
| RxLedger.UpcallsInTurn | src/AzulNX2Ethernet/TransmitReceive.cpp:354-394 | in every unfaulted state of every run the k-th packet freed or delivered is the one the k-th refill obtained |
| RxStale.SafeIff | src/AzulNX2Ethernet/TransmitReceive.cpp:297-400 | in one state, every released slot owns the buffer its descriptor addresses (or holds a packet) if and only if the refills from the consumer's counter up to the number of successes left it so |
| RxStale.AlwaysSafeIff | src/AzulNX2Ethernet/TransmitReceive.cpp:238-407 | over every run, with any answers and faulted or not, all states have only such released slots if and only if the first refills do, as many as succeeded at all |
| RxStale.NoStaleReleasedIff | src/AzulNX2Ethernet/TransmitReceive.cpp:238-407 | over every run, no stale descriptor is ever released and no empty slot met if and only if no failed refill is followed by a successful one |
| RxStale.OneInterruptIff | src/AzulNX2Ethernet/TransmitReceive.cpp:353-400 | in the first interrupt with a failure this depends on the order of its own answers only |
| RxStale.NeverEmptyIff | src/AzulNX2Ethernet/TransmitReceive.cpp:297-400 | over every run, no empty slot is released or met if and only if no failed allocation is among the first refills, as many as succeeded; enough is that none is followed by a success |
| RxStale.FailedRefillLeavesStaleDescriptor | src/AzulNX2Ethernet/TransmitReceive.cpp:290-316 | in every unfaulted state, any failed refill, by allocation or by mapping, leaves its slot with what the allocator gave and its descriptor with a packet freed or delivered before |
| RxStale.PostedDescriptors | src/AzulNX2Ethernet/TransmitReceive.cpp:309-315 | in every unfaulted state of a filled ring each descriptor has the address halves and length of its slot's last successful refill and the flags start and end, no other |
| RxStale.HardwareWritesGivenAway | src/AzulNX2Ethernet/TransmitReceive.cpp:297-400 | from every unfaulted state, if a released counter not yet used has a failed refill, receptions lead to the hardware writing into the buffer of a packet freed or delivered before |
| RxStale.HandlerMeetsEmptySlotIff | src/AzulNX2Ethernet/TransmitReceive.cpp:354-400 | from every unfaulted state, once the released descriptors are used up the handler meets an empty slot if and only if one of them belongs to a failed allocation |
| RxStale.FaultingRun | src/AzulNX2Ethernet/TransmitReceive.cpp:297-364 | a concrete run from initialisation, with one refill in each interrupt, in which both happen |
| FirmwareLink.Link.FirmwareSync | src/AzulNX2Ethernet/Private.cpp:351-387 | succeeds exactly when one of 1000 polls shows this call's sequence number; its accesses are those HandshakeAccesses lists |
| FirmwareLink.HandshakeAccesses | src/AzulNX2Ethernet/Private.cpp:351-387 | access by access: the word with the message's code, its data and the sequence number, the reads up to the first whose low half is that number, and the time-out message if there is none, unless the data is 1 |
| FirmwareLink.Link.PollReset | src/AzulNX2Ethernet/Controller.cpp:197-212 | succeeds exactly when one of ten reads shows the reset finished |
| FirmwareLink.ResetPolls | src/AzulNX2Ethernet/Controller.cpp:197-212 | the reads go up to the first value with bits 8 and 9 clear, and succeed exactly if there is one |
| FirmwareLink.AckNamesCurrent | src/AzulNX2Ethernet/Private.cpp:354-368 | success means an acknowledged message number equal to this one modulo 65536, and the current message itself while acknowledgements are of the latest 65536 calls |
| FirmwareLink.SuccessIsTruthful | src/AzulNX2Ethernet/Private.cpp:351-387 | when no success follows 65535 failures in a row, a call succeeds exactly when its own message was acknowledged while it polled |
| FirmwareLink.StaleSuccess | src/AzulNX2Ethernet/Private.cpp:351-387 | for any outcomes with such a success, a history of polls that yields them and makes that success stale |
| FirmwareLink.TruthfulIffRegular | src/AzulNX2Ethernet/Private.cpp:351-387 | outcomes are truthful in every history that yields them if and only if no success follows 65535 failures in a row |
| FirmwareLink.TimeoutKeepsMessage | src/AzulNX2Ethernet/Private.cpp:376-384 | the time-out word keeps data and sequence number and replaces the code |
| ControllerReset.ResetController | src/AzulNX2Ethernet/Controller.cpp:142-244 | exact success condition, number of handshakes, and the complete log of register, shared-memory and configuration accesses |
| ControllerReset.ResetCore | src/AzulNX2Ethernet/Controller.cpp:174-222 | the steps between the handshakes for both chip families |
| ControllerReset.StartReset | src/AzulNX2Ethernet/Controller.cpp:181-213 | the reset by command on the 5709, by request and at most ten polls on the others |
| ControllerReset.ResetAccesses | src/AzulNX2Ethernet/Controller.cpp:174-222 | between its handshakes a reset makes exactly these accesses, with these offsets and values, on every outcome |
| ControllerReset.ResetOutcome | src/AzulNX2Ethernet/Controller.cpp:166-244 | how far a reset goes, its success and its number of handshakes, as a condition on the values read |
| ControllerReset.ResetOnlyAfterAck | src/AzulNX2Ethernet/Controller.cpp:149-213 | on every outcome the reset has one place in the log, after DMA was switched off, the first message acknowledged and the signature written |
| ControllerReset.DmaOffFirst | src/AzulNX2Ethernet/Controller.cpp:149-170 | on every outcome the log opens with bits 4, 17, 19 and 26 written to the block disable register and, on the 5709, with bit 16 and no other cleared in the core control register; the first message follows |
| ControllerReset.SuccessfulResetOrder | src/AzulNX2Ethernet/Controller.cpp:149-235 | success implies the order DMA off, message, acknowledgement, signature, reset, second message, its acknowledgement |
| ContextMemory.Device.WriteReg32 | src/AzulNX2Ethernet/Registers.h:2123-2132 | the assumed effect of the four context registers, with their field widths |
| ContextMemory.Device.WriteContext32 | src/AzulNX2Ethernet/Private.cpp:213-216 | a context write stores one word through the page table |
| ContextMemory.Device.ZeroFirstPage | src/AzulNX2Ethernet/Private.cpp:461-463 | the inner loop zeroes exactly the physical page that page 0 is mapped to |
| ContextMemory.Device.InitContext | src/AzulNX2Ethernet/Private.cpp:454-467 | from any state, the first 192 physical pages end zero and mapped one to one, nothing else changes, and every context word reads zero |
| Rv2pLoader.Device.WriteReg32 | src/AzulNX2Ethernet/Registers.h:3300-3310 | the assumed effect of the instruction and address registers |
| Rv2pLoader.Device.WriteImage | src/AzulNX2Ethernet/Private.cpp:538-548 | the first pass stores every instruction of the file |
| Rv2pLoader.Device.ApplyFixups | src/AzulNX2Ethernet/Private.cpp:550-563 | the second pass rewrites the instruction of every active fixup |
| Rv2pLoader.Device.LoadRv2pFirmware | src/AzulNX2Ethernet/Private.cpp:518-570 | both passes on the chosen processor, the other untouched, then its start command |
| Rv2pLoader.LoadedImage | src/AzulNX2Ethernet/Private.cpp:508-563 | for every table and length, each instruction is what the last active fixup naming it stores, otherwise the file's last one for that place, otherwise what was there |
| Rv2pLoader.LoadedBytes | src/AzulNX2Ethernet/Private.cpp:508-563 | the same byte by byte from the file, with the five bits kept of each high half and 1023 in the low 16 bits of what fixup 0 rewrites last |
| Rv2pLoader.PatchSurvivesIff | src/AzulNX2Ethernet/Private.cpp:508-563 | for every table, the instruction fixup 0 names holds the page size if and only if no later active fixup names it or the word that one stores has it already |
| Rv2pLoader.ImageLoadedIff | src/AzulNX2Ethernet/Private.cpp:508-563 | instruction memory holds the patched image after both passes if and only if each fixup that is the last to name its instruction is harmless: odd and not over a patch that changed something, or even with matching neighbours |
| Rv2pLoader.OddTableLoadedIff | src/AzulNX2Ethernet/Private.cpp:508-563 | with odd fixups, if and only if there is no patch, no later fixup repeats fixup 0, or the file already has the page size |
| Rv2pLoader.EvenFixupCorrupts | src/AzulNX2Ethernet/Private.cpp:553-561 | an even fixup that damages an instruction |
| MipsLoader.Device.LoadSection | src/AzulNX2Ethernet/Private.cpp:583-593 | the copy loop writes the section's words in order from its wrapped base address |
| MipsLoader.Device.LoadCpuFirmware | src/AzulNX2Ethernet/Private.cpp:572-632 | the complete write log: stop, three sections, prefetch cleared, start address |
| MipsLoader.Device.StopCpu | src/AzulNX2Ethernet/Private.cpp:646-656 | halt bit set, then the state cleared |
| MipsLoader.Device.StartCpu | src/AzulNX2Ethernet/Private.cpp:634-644 | the state cleared, then the halt bit cleared |
| MipsLoader.Device.InitCpu | src/AzulNX2Ethernet/Private.cpp:658-677 | load followed by start |
| MipsLoader.SectionsLoaded | src/AzulNX2Ethernet/Private.cpp:578-623 | the bytes of every section end, four to a register, at the scratchpad base plus the section's address less 0x800_0000, modulo 2^32 and as an integer when nothing wraps |
| MipsLoader.RestUnchanged | src/AzulNX2Ethernet/Private.cpp:572-656 | nothing outside the sections and the four control registers changes |
| MipsLoader.HaltedWhileCopying | src/AzulNX2Ethernet/Private.cpp:572-656 | the halt bit is set before every write from the second to the last: state, section words, prefetch, start address, state, release, in that order |
| MipsLoader.ControlWrites | src/AzulNX2Ethernet/Private.cpp:625-656 | the values of all other writes: halt bit set in the mode found, state cleared, prefetch cleared, start address, state cleared, halt bit cleared in the mode then read |
| MipsLoader.ControlRegistersDistinct | src/AzulNX2Ethernet/Private.cpp:658-761 | the four control registers and the scratchpad of each of the five processors lie at fixed offsets in its own window, and are distinct |
| MipsLoader.ModeRestoredIff | src/AzulNX2Ethernet/Private.cpp:634-656 | the processor ends running at its start address; its mode register is restored if and only if it was not halted |
| Driver.Controller.constructor | src/AzulNX2Ethernet/AzulNX2Ethernet.cpp:28-32 | the object starts in the first state of the step system: disabled, no handshake made, both rings zero |
| Driver.Controller.OutputPacket | src/AzulNX2Ethernet/AzulNX2Ethernet.cpp:167-173 | sends when enabled, otherwise reports success and does nothing |
| Driver.Controller.InterruptOccurred | src/AzulNX2Ethernet/AzulNX2Ethernet.cpp:222-268 | for every raw status values, both rings handled in order and the status index recorded unless the handler met an empty slot; nothing while disabled |
| Driver.Controller.InitControllerChip | src/AzulNX2Ethernet/Controller.cpp:282-346 | fails when the context is not ready; otherwise one more handshake, with the wait 2 message, whose result is ignored |
| Driver.Controller.StartController | src/AzulNX2Ethernet/Controller.cpp:349-361 | both rings initialised, the receive result ignored |
| Driver.Controller.Enable | src/AzulNX2Ethernet/AzulNX2Ethernet.cpp:175-215 | exact success condition, number of handshakes and their log; initialises the rings only on success and never again |
| DriverSystem.EnableOutcome | src/AzulNX2Ethernet/AzulNX2Ethernet.cpp:175-215 | success of enabling and its number of handshakes, as a condition on the values read |
| Driver.EnableMessages | src/AzulNX2Ethernet/Controller.cpp:142-346 | a successful enabling sends the words 0x0101, 0x0102 and 0x0103 in the upper half, in this order, each with the number of its call |
| Driver.OutputSimulates | src/AzulNX2Ethernet/AzulNX2Ethernet.cpp:167-173 | from every state, sending is one step of the whole-driver system, with the same status |
| Driver.InterruptSimulates | src/AzulNX2Ethernet/AzulNX2Ethernet.cpp:222-268 | an interrupt is its three driver steps, whatever the hardware does between the reads of the status block |
| Driver.HandlerMayRun | src/AzulNX2Ethernet/AzulNX2Ethernet.cpp:222-268 | the handler's precondition holds before enabling, and after it in every run in which no failed allocation is among the first refills, as many as succeeded |
| DriverSystem.LifecycleHolds | src/AzulNX2Ethernet/AzulNX2Ethernet.cpp:167-215 | over every run, with success of enabling decided by what firmware and bus answer, the rings are initialised at most once and before any send that reaches them, then behave as runs of their own steps |
| DriverSystem.WholeDriverFifo | src/AzulNX2Ethernet/AzulNX2Ethernet.cpp:167-268 | packets reported as sent are those output too early, then those freed, then those in flight, in order |
| DriverSystem.SuccessMeansQueuedIff | src/AzulNX2Ethernet/AzulNX2Ethernet.cpp:167-173 | success means queued if and only if nothing was output before enabling |
| DriverSystem.LostBeforeEnable | src/AzulNX2Ethernet/AzulNX2Ethernet.cpp:169-170 | a packet output before enabling is reported as sent and lost |
| DriverSystem.HardwareInvisible | src/AzulNX2Ethernet/AzulNX2Ethernet.cpp:222-268 | hardware events change nothing the driver writes |
| DriverSystem.CaughtUpIff | src/AzulNX2Ethernet/AzulNX2Ethernet.cpp:256-264 | in every enabled state a consumer equals its published index if and only if all that is published was handled |
| DriverSystem.InterruptCatchesUp | src/AzulNX2Ethernet/AzulNX2Ethernet.cpp:256-266 | after an interrupt each ring has caught up if and only if nothing new was published for it since its index was read, although the last index is acknowledged |
| DriverSystem.WholeDriverReceives | src/AzulNX2Ethernet/Controller.cpp:360-361 | the receive ring inside the whole driver is a run to which all receive results apply |

## Left out

- FirmwareLink.Link.FirmwareSync: messages whose low half is not zero are not modelled, because every caller passes code and data fields only.
- FirmwareLink.AckNamesCurrent: firmware is represented by the message numbers its register shows, not by a program.
- ContextMemory.Device.InitContext: the 5709/5716 branch, which fills a host page table and waits for the hardware, is an input of enabling.
- Rv2pLoader.Device.LoadRv2pFirmware: fixups of 2^30 and more, whose byte offset wraps, are excluded because they make the code read outside the firmware file.
- Rv2pLoader.ImageLoadedIff: stated for images that fit the 1024 instructions; a longer one overwrites its own beginning, as LoadedImage says.
- MipsLoader.SectionsLoaded: stated for sections that overlap neither each other nor the control registers.
- TxRing.Transmitter.SendTxPacket: the 32-bit store of the VLAN demand through the 16-bit local at TransmitReceive.cpp:159 is represented only by the tag.
- RxRing.Receiver.InitRxRing: the three context words written at lines 277-281 and the unused `rxFreeDescriptors` are not modelled.
- RxTheorems.Doorbells: restricted to runs in which refills succeed; RxRefills.ProducerInEveryState and RxRefills.DoorbellsInEveryState cover the others.
- RxTheorems.RingFull: speaks of the states between interrupts; RxBatches.RefillSlotIff says where each refill lands.
- RxStale.NoStaleReleasedIff: a packet that maps to more than one segment is taken not to start at the address and length its slot's descriptor already has; AlwaysSafeIff does without.
- RxStale.HandlerMeetsEmptySlotIff: the dereference of the empty slot is a flag that stops the handler.
- Driver.Controller.InterruptOccurred: the interrupt acknowledgement and masking writes, the read of the index for a log message, and link-change handling are not modelled.
- Driver.Controller.constructor: the handshakes that attaching the driver makes before the first enabling are not counted.
- Driver.Controller.InitControllerChip: the context initialisation is one of its inputs and the register configuration around the handshake is not modelled.
- Driver.Controller.StartController: receive mode, block enabling, interrupt enabling and media state are not modelled.
- Driver.Controller.Enable: stopping the controller's blocks before the reset, media state and starting the output queue are not modelled.
- Driver.InterruptSimulates: requires that the handler has not met an empty slot before, which nothing survives in the original.
- RxTheorems.PacketConservation: a packet the allocator hands out again after its disposal counts as a new one.
- Concurrent execution of two driver entry points, which the I/O Kit work loop and output queue are responsible for.
- Packet contents, the trimming of header and CRC from a delivered packet, and flushing of the input queue.
- The driver's unused `rxFreeDescriptors`, the releasing of the receive ring's packets, and the context registers written at ring initialisation.
- Interrupt acknowledgement and masking registers, link-change handling, PHY access and media selection.
- MAC address, receive mode, device naming, PCI mapping, DMA allocation, logging and delays.
