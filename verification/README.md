# A verified model of the packet library's stateful parts

This project models the parts of the repository that carry state from one call to the next, and proves what
they guarantee. Objects whose methods change fields are Dafny classes with those fields, loops are loops, and
each method is tied to a function of the old state; the theorems are about those functions and about every run
of them.

| part of the repository | modules |
|---|---|
| the ring of variable-length records shared by one writer and one reader (`CycleBuffer`) | `RingLayout`, `RingOccupancy`, `RingFifo`, `RingRefusal`, `RingInterleaved`, `RingSolo`, `RingTornReads`, `RingSamples` |
| the layers of a parsed packet and the flow key made of them (`PacketDetails`) | `FlowLayers`, `FlowKey`, `FlowSteps`, `FlowBytes`, `FlowDirection`, `FlowPushes`, `FlowHash`, `FlowStack`, `FlowDetails` |
| the slot allocator and the packet list built on it (`AllocatorList`, `PacketAccum`) | `SlotAllocator`, `PacketList` |
| the control connection and the registry of channels (`SharedSocket`, `SharedServer`, `SharedClient`) | `SharedSocket`, `CommandFraming`, `ClientWrites`, `CommandCodec`, `CommandLayout`, `ChannelRegistry`, `ChannelHistory`, `ChannelServer`, `ServerLoop`, `ServerGreeting` |
| the flow accumulator's cyclic scan and ordered key (`SharedFlowAccum`) | `FlowSeqKey`, `BlockScan` |
| a buffer seen through a stack of headers (`HeaderIf`, `PacketPtr`) | `HeaderStack`, `HeaderLayout` |
| replay of a capture file at its own pace (`DriverOffline`, `DriverPcap`) | `OfflineReplay`, `ReplaySchedule`, `ReplayTimes` |

`Bytes` holds bytes, little-endian loads and stores, and the wrap-around of 16- and 32-bit conversions; `Wrappers` the optional
values that stand for pointers that may be null.

`dafny verify dfyconfig.toml` verifies everything.

## What turned out not to hold

Each of these is stated as an exact condition, or with a concrete run, beside the theorem it limits.

- **The writer's refusal test reads `tail` up to four times.** If the reader wraps between the two clauses,
  both can miss that the ring is full. A call of `write1` keeps the ring sound under every interleaving exactly when
  it begins with `tail` at or below `head`, or with a record that need not wrap, or with a queue whose own wrap lands
  beyond the end of the record (`RingTornReads.WriteSafeExactly`; the condition is `RingRefusal.SafeToTest`). From a
  cleared ring of five bytes an interleaving makes the reader leave the array (`RingTornReads.TornRunGoesWild`). A
  writer with one snapshot of `tail` is safe without any condition (`RingInterleaved.SnapshotSafety`).
- **The reader's test samples `head` twice.** It may report an empty ring although a record is queued, exactly
  when `head` passes the end of the array between the samples (`RingSamples.NullExactly`), and there is a run in
  which it does (`RingSamples.MissesARecord`). No record is lost.
- **An unmixed Ethernet layer in the key makes it depend on the direction.** The twelve bytes taken start at the
  source address, which stands behind the destination in the header; so the second half is the type and payload,
  not the other address, and the two directions between two stations never share the key
  (`FlowKey.EthernetBreaksTheKey`). An Ethernet layer that does not fit into the key does no harm.
- **Unmixed VLAN, MPLS and Ethernet layers in the key** have their two halves swapped by side. Exactly when the key is
  the same for both directions all the same is said, for every stack of layers, by
  `FlowDirection.DirectionIndependentBySrcLower` and `FlowDirection.DirectionIndependentByCalcSide`.
- **`calcSide` and `isSrcLowerAddr` answer the opposite of each other** (`FlowDirection.SidesAreOpposite`), so a key
  filled with one side must not be compared with the other.
- **After an MTP header that finds its level full, `lastMtpLayer` points behind the layers**: the header takes the place
  of the innermost layer, but the index is the one after it (`FlowStack.FullLevel`).
- **A layer offset above 2047 is truncated**, although the assertion in `AddrOffset::set` lets offsets up to
  0x3FFF pass (`FlowLayers.PackRoundTrip`).
- **`init` of the allocator reads the array pointer before it sets it.** The slots fit whatever it held, but
  overlap the allocator's own context when its residue modulo the page size exceeds 4056
  (`SlotAllocator.SlotsFitRegion`).
- **Binding a second hash to a channel** leaves that hash behind when the channel is closed
  (`ChannelRegistry.RebindingLeavesAHash`); this is the only way (`ChannelRegistry.InverseKept`,
  `ChannelRegistry.CloseUnbinds`).
- **The flow side does not decode from a key**: `getFlowSide` is always false (`FlowSeqKey.KeyRoundTrip`).
- **The scan of `SharedFlowAccum::get` does not end** when the iterator stands on the first block and none is
  ready (`BlockScan.ScanEnds`).
- **`finished()` of a replay can be true while packets are still in the file**: after any oversized record
  (`OfflineReplay.FinishedExactly`).
- **The replay schedule counts from a clock that must have left 0.** With such a clock, which one that counts from
  the epoch is, every run is on schedule (`ReplaySchedule.OnScheduleOffZero`). For a clock that may read 0 but does not
  run backwards this is true exactly of the files without pauses or with a pause right behind the first packet
  (`ReplaySchedule.OnScheduleForward`); for one that may also run backwards, exactly of those with no third packet or
  with such a pause (`ReplaySchedule.OnScheduleExactly`).
- **The client cannot notice that a command has not been sent.** Its methods return the -1 of `write` as a truth
  value, so they always return true (`ClientWrites.ClientWrite`). What has gone out is a prefix of what was sent, as
  the end-to-end results need it, exactly if nothing follows the first command that has not gone out in full
  (`ClientWrites.PrefixExactly`).
- **`rebase` moves the top header** when its place does not fit 16 bits (`HeaderStack.RebaseExactly`), and does
  not keep the payload's length when an Ip4 header on top speaks for itself (`HeaderStack.RebaseKeepsView`).

## Model

The table lists the theorems and the methods that carry an algorithm. Setters and one-line handlers state their
whole new state in their own contracts.

| member | source | states |
|---|---|---|
| RingLayout.ChainFrame | lib/libshared/CycleBuffer.h:85-95 | changing bytes outside tail..head leaves every queued record as it is |
| RingLayout.ChainAppend | lib/libshared/CycleBuffer.h:85-95 | a record laid out at head becomes the last of the queue, in all three layouts |
| RingLayout.RefusalGuardsRoom | lib/libshared/CycleBuffer.h:78-83 | a write that the test lets pass has room; below 2^31 the test, cast included, refuses exactly the writes without cautious room, and of those with room only the ones whose body alone wraps and that end at most two bytes before tail |
| RingLayout.RoomExactly | lib/libshared/CycleBuffer.h:85-95 | room is exactly what a write needs: its bytes lie inside the array, outside every queued record and are all different, head stays below size and off tail, and a wrapped head is strictly below tail |
| RingLayout.WriteFrame | lib/libshared/CycleBuffer.h:85-95 | a permitted write does no harm, wraps exactly if head falls, and the occupied region grows by the stored bytes |
| RingLayout.RoomGrows | lib/libshared/CycleBuffer.h:78-83 | a read never takes away the room of a permitted write |
| RingOccupancy.CostOfRecord | lib/libshared/CycleBuffer.h:63-66 | a record costs its length and body, and when it wraps a gap of at most max(1, len) |
| RingOccupancy.LengthIsPayloadPlusGap | lib/libshared/CycleBuffer.h:63-66 | length() is the sum of the queued records' bytes plus, while head is below tail, exactly the cells skipped before the wrap, at most max(1, len) of the wrapping record; it never exceeds size - 1 |
| RingOccupancy.WriteTakes | lib/libshared/CycleBuffer.h:95 | a write adds exactly the cost of its record to length() |
| RingOccupancy.ReadGivesBack | lib/libshared/CycleBuffer.h:122 | a read takes off exactly the cost of the oldest record |
| RingOccupancy.CursorOfRecord | lib/libshared/CycleBuffer.h:85-122 | every record is read at the cursor it was written at, so a read gives back what its write took |
| RingOccupancy.EmptyRingAccepts | lib/libshared/CycleBuffer.h:76-83 | an empty ring accepts a record of length len at every cursor if and only if 2*len + 4 < size |
| RingOccupancy.PingPongNeverRefused | lib/libshared/CycleBuffer.h:76-83 | write-and-read traffic from clear() goes on for ever if and only if 2*len + 4 < size; for len + 2 < size <= 2*len + 4 the second record is refused on an empty ring, below that the first |
| RingFifo.WriteRefinesEnqueue | lib/libshared/CycleBuffer.h:74-97 | a true write1 appends exactly its record to the queue, a false one changes nothing, and an empty ring does not refuse a small enough record |
| RingFifo.ReadRefinesDequeue | lib/libshared/CycleBuffer.h:99-124 | read1 is null exactly when the queue is empty and otherwise gives the oldest record byte for byte, having derived the layout from tail, length and size |
| RingFifo.RunRefinesFifo | lib/libshared/CycleBuffer.h:74-124 | every run of calls gives the outcomes of a FIFO queue, and no call leaves the array |
| RingFifo.ClearedRingIsFifo | lib/libshared/CycleBuffer.h:49-56 | the same from clear(), whatever the buffer holds, for every size |
| RingFifo.CycleBuffer.LengthUsed | lib/libshared/CycleBuffer.h:63-66 | 0 exactly for the empty queue, at least the queued bytes, below size |
| RingFifo.CycleBuffer.StoreRecord | lib/libshared/CycleBuffer.h:85-95 | the in-place stores make the array that holds length and body, and head moves behind the body |
| RingFifo.CycleBuffer.Write1 | lib/libshared/CycleBuffer.h:74-97 | the object in place does what Write does; the queue gains the record exactly if the answer is true |
| RingFifo.CycleBuffer.Read1 | lib/libshared/CycleBuffer.h:99-124 | the position and length handed out delimit the oldest record, which leaves the queue; not found exactly when the queue is empty |
| RingRefusal.UntornTestIsSafe | lib/libshared/CycleBuffer.h:78-83 | with reads of tail that do not straddle a wrap of the reader, passing the test means room at the moment of the decision |
| RingRefusal.WhereTailCanBe | lib/libshared/CycleBuffer.h:111-122 | while head is below tail the reader's cursor is above head up to the wrapping record and at or below it from there on |
| RingRefusal.RefusalTestExact | lib/libshared/CycleBuffer.h:78-83 | however the reader moves between the reads, only records with room get through if and only if SafeToTest holds at the start |
| RingInterleaved.StoreStep | lib/libshared/CycleBuffer.h:85-94 | a byte of a record in flight touches neither a queued record nor a byte already stored |
| RingInterleaved.PublishHeadStep | lib/libshared/CycleBuffer.h:95 | when head is published the record is complete and joins the queue |
| RingInterleaved.TestSteps | lib/libshared/CycleBuffer.h:104-120 | the reader may sample two different values of head and still finds only complete records |
| RingInterleaved.PublishTailStep | lib/libshared/CycleBuffer.h:122-123 | the record is intact when its tail advance is published |
| RingInterleaved.StepKeepsInv | lib/libshared/CycleBuffer.h:74-124 | every step of either side keeps the invariant, if calls of write1 begin only where SafeToTest holds |
| RingInterleaved.InterleavedSafety | lib/libshared/CycleBuffer.h:74-124 | over every interleaving whose calls of write1 begin where SafeToTest holds: no access leaves the array, the bytes between the cursors are the queued records, and what was received is a prefix of what was sent |
| RingInterleaved.SnapshotSafety | lib/libshared/CycleBuffer.h:78-83 | the same over every interleaving, without any condition, for a writer that reads tail once |
| RingSolo.SoloWrite | lib/libshared/CycleBuffer.h:74-97 | the steps of an undisturbed write1 together are Write |
| RingSolo.SoloRead | lib/libshared/CycleBuffer.h:99-124 | the steps of an undisturbed read1 together are Read |
| RingTornReads.WriteSafeExactly | lib/libshared/CycleBuffer.h:74-124 | from any state of the invariant, wherever the reader is in its call: a call of write1 keeps the ring sound under every interleaving if and only if it begins where SafeToTest holds |
| RingTornReads.HarmfulRun | lib/libshared/CycleBuffer.h:78-95 | otherwise some interleaving leaves the array, or ends with cursors between which the queued records do not lie |
| RingTornReads.TornRunGoesWild | lib/libshared/CycleBuffer.h:78-83 | from a cleared ring some interleaving makes the reader leave the array |
| RingSamples.NullExactly | lib/libshared/CycleBuffer.h:104-109 | whatever a writer that begins safely does between the reader's two samples of head, null is reported exactly if the ring is empty at the second sample or head has passed the end in between |
| RingSamples.MissesARecord | lib/libshared/CycleBuffer.h:104-109 | from a cleared ring some run reports null although a record was queued before the first sample |
| Bytes.LowByteFirst | src/core/PacketDetails.h:150-151 | integers read from a packet through casts have their least significant byte at the lowest address |
| FlowLayers.PackRoundTrip | src/core/PacketDetails.h:86-112 | type and mix bit come back from the packed word, the offset modulo 2048; all of them if and only if the offset is below 2048 |
| FlowLayers.ScansOfTheMasks | src/core/Os.h:67-77 | on the masks in use bitScanForward gives 0 and bitScanReverse one past the top bit, so the two fields do not overlap |
| FlowLayers.CompareDecides | src/core/PacketDetails.h:373-397 | the comparison of a layer's addresses is a tie exactly if their key bytes are equal |
| FlowBytes.MemcmpIsOrder | src/core/PacketDetails.h:373-381 | memcmp is negative exactly if at the first place where they differ the first string has the smaller byte, positive exactly if the second has |
| FlowBytes.CompareExactly | src/core/PacketDetails.h:373-397 | what the side functions compare is what stands in the header: two addresses of six, four or two bytes, the two point codes of fourteen bits, or the first two bytes of a tag |
| FlowBytes.KeyBytesExactly | src/core/PacketDetails.h:419-448 | and so is what goes into the key, in the order that the side says |
| FlowBytes.SrcLowerExactly | src/core/PacketDetails.h:358-403 | isSrcLowerAddr says yes if and only if some unmixed layer other than a tag, fitting into 31 bytes with those inside it, has its first address below its second in the packet, and all layers inside it that take part have equal addresses |
| FlowBytes.SideExactly | src/core/PacketDetails.h:455-502 | calcSide says 1 if and only if some unmixed layer, tags included, fitting into 31 bytes with those inside it, has its second address below its first, and all layers inside it that take part have equal addresses |
| FlowBytes.KeyLaidOut | src/core/PacketDetails.h:405-453 | the key is, from the innermost layer outwards, the addresses of every unmixed layer that fits with those inside it into 31 bytes, as they stand in its header and in the order of the side, and nothing else |
| FlowKey.KeysAgreeExactly | src/core/PacketDetails.h:405-453 | for every stack and whatever sides they use, a packet and its reverse get the same key if and only if every layer in the key agrees |
| FlowKey.EthernetBreaksTheKey | src/core/PacketDetails.h:146-158 | with an unmixed Ethernet layer in the key and different stations, the two directions never share a key |
| FlowKey.SelectionMirror | src/core/PacketDetails.h:369-372 | a packet and its reverse select the same layers for the key and for the comparison |
| FlowDirection.AgreementExactly | src/core/PacketDetails.h:405-453 | the layers of a key agree if and only if no Ethernet header in it joins two stations and, on the same side, the pairs are equal, on different sides, the other layers read the same both ways |
| FlowDirection.BackIsReverse | src/core/PacketDetails.h:373-397 | what the reverse packet compares can be read off the packet itself |
| FlowDirection.DirectionIndependentBySrcLower | src/core/PacketDetails.h:358-403 | for every stack: sides from isSrcLowerAddr give both directions the same key if and only if no Ethernet header in the key joins two stations and, where both take the same side, its address pairs are equal, where not, its other layers read the same both ways |
| FlowDirection.SrcLowerWithoutEthernet | src/core/PacketDetails.h:358-403 | where Ethernet takes no part: if and only if all compared addresses are equal or the tags in the key read the same both ways |
| FlowDirection.DirectionIndependentByCalcSide | src/core/PacketDetails.h:455-502 | for every stack: sides from calcSide do if and only if no Ethernet header in the key joins two stations and either its address pairs are equal or its other layers read the same both ways |
| FlowDirection.DirectionIndependent | src/core/PacketDetails.h:358-502 | without Ethernet, VLAN and MPLS layers in the key it is direction-free with either function, whatever lies outside the key |
| FlowDirection.SidesAreOpposite | src/core/PacketDetails.h:455-502 | without tags in the key calcSide says yes exactly if isSrcLowerAddr says no and some address pair of the key differs |
| FlowPushes.ApplyKeepsCounters | src/core/PacketDetails.h:146-337 | every push call keeps each counter within its maximum and layersCnt ahead of their sum by the uncounted layers |
| FlowPushes.BookKept | src/core/PacketDetails.h:140-346 | over every push sequence that stores at most 255 layers: no byte counter wraps at any point, counters stay within their maxima, layersCnt exceeds their sum by exactly the stored SctpChunk and M2ua layers, lastIpLayer is unset or a stored layer, every word is stored by one of the calls |
| FlowPushes.WhenBytesFit | src/core/PacketDetails.h:133-138 | the maxima and the number of SctpChunk and M2ua headers summing up to at most 255 is enough for that |
| FlowPushes.HashMirrored | src/core/PacketDetails.h:150-330 | a header and its reverse add the same to flowHash |
| FlowHash.HashOfHeader | src/core/PacketDetails.h:146-337 | of a header laid out in memory order the hash takes its two hardware addresses, each four bytes plus two in 32 bits, its tag or label twice, its two point codes, its two IP or M3UA addresses, its two ports, or its circuit code, and nothing of SctpChunk, M2ua and M3ua without addresses |
| FlowHash.FlowHashExactly | src/core/PacketDetails.h:140-337 | after any calls that store at most 255 layers flowHash is the sum of the headers hashed modulo 2^64: level 2 headers unless mixed or the level is full, IP headers unless mixed while the level is not, all others always; every counter is the number of its calls up to its maximum, and each flag says exactly that there were more |
| FlowStack.AddsItsLayer | src/core/PacketDetails.h:146-337 | while its level is not full a call adds its own layer, readable with type, offset and mix bit, and the three indices are kept |
| FlowStack.FullLevel | src/core/PacketDetails.h:160-292 | once it is, an MTP, IP or level 4 header replaces the innermost layer, unmixed, and any other changes no layer |
| FlowStack.StackIsCalls | src/core/PacketDetails.h:339-356 | without overflow the key functions see one layer for each call, in order, with the type, place and mix bit it was pushed with, except that the last IP header is never mixed |
| FlowPushes.HashIsDirectionFree | src/core/PacketDetails.h:146-337 | while at most 255 layers are stored, a push sequence and its reverse leave the same state, flowHash modulo 2^64 included, also when levels overflow, and no byte wraps in either |
| FlowPushes.EffectiveFromPush | src/core/PacketDetails.h:339-356 | each layer the key functions see lies where one of the calls put it, with the mix bit it was pushed with unless it is the last IP layer |
| FlowPushes.FlowIsDirectionFree | src/core/PacketDetails.h:140-502 | end to end: if offsets are below 2048, Ethernet, VLAN and MPLS are pushed mixed and at most 255 layers are stored, both directions of a flow get the same hash and the same key |
| FlowDetails.ScanSrcLower | src/core/PacketDetails.h:358-403 | the loop answers yes exactly if the innermost compared layer with different addresses has the lower source |
| FlowDetails.ScanSide | src/core/PacketDetails.h:455-502 | the loop answers 1 exactly if the innermost layer of the key with different addresses has the higher source |
| FlowDetails.FillKey | src/core/PacketDetails.h:405-453 | the loop stores exactly the flow key in bytes 0..30 and its length in byte 31, and touches nothing else |
| FlowDetails.MatchKey | src/core/PacketDetails.h:504-566 | the loop says yes exactly if the stored key agrees with the packet's on all its bytes and in byte 31 |
| FlowDetails.PacketDetails.PushHeader | src/core/PacketDetails.h:146-337 | for every header a parser finds in the packet, the object becomes what Apply says, hash computed from the packet's bytes |
| FlowDetails.PacketDetails.GetLayersCnt | src/core/PacketDetails.h:339-346 | the number of counted layers; takes the mix bit off the last IP layer and leaves the effective layers as they were |
| FlowDetails.PacketDetails.IsSrcLowerAddr | src/core/PacketDetails.h:358-403 | answers SrcLower of the effective layers |
| FlowDetails.PacketDetails.CalcSide | src/core/PacketDetails.h:455-502 | answers SideOf of the effective layers |
| FlowDetails.PacketDetails.FillAddresses | src/core/PacketDetails.h:405-453 | the address buffer holds the flow key, then its old bytes, and the length in byte 31; comparing right afterwards succeeds |
| FlowDetails.PacketDetails.CmpAddresses | src/core/PacketDetails.h:504-566 | true if and only if the stored key agrees with what filling would store |
| SlotAllocator.LentIsOutstanding | lib/libshared/AllocatorList.h:86-107 | the slots that are not free are, as a multiset, those handed out less those given back |
| SlotAllocator.AllocatorList.Outstanding | lib/libshared/AllocatorList.h:28-35 | in every state of the object: handed out = given back + lent, and free and lent slots together are all slots |
| SlotAllocator.FreeListFrame | lib/libshared/AllocatorList.h:22-26 | clients that write lent slots, links included, leave the free list alone |
| SlotAllocator.SlotsFitRegion | lib/libshared/AllocatorList.h:109-128 | there are as many slots as fit behind the first page; they fit the region for every residue of the uninitialised pointer; they stay clear of the context if and only if the residue is at most 4056 |
| SlotAllocator.AllocatorList.constructor | lib/libshared/AllocatorList.h:109-128 | the linking loop makes the list of all slots in order, nothing lent |
| SlotAllocator.AllocatorList.Get | lib/libshared/AllocatorList.h:86-96 | null exactly if one slot is left, and then nothing changes; otherwise the oldest free slot, which becomes lent; slots are handed out in the order init and put supplied them |
| SlotAllocator.AllocatorList.Put | lib/libshared/AllocatorList.h:98-107 | a lent slot joins the end of the free list; no other lent slot is touched |
| PacketList.WalkReadsContents | lib/libstack/PacketAccum.h:43-56 | walking the blocks by their links reads exactly the stored packets and meets no block twice |
| PacketList.AccumulatedFrame | lib/libstack/PacketAccum.h:43-62 | writes outside its blocks cannot disturb an accumulator |
| PacketList.LinkBlock | lib/libstack/PacketAccum.h:20-23 | hanging a fresh block behind a full one keeps the packets |
| PacketList.StorePacket | lib/libstack/PacketAccum.h:33-34 | storing a packet appends it |
| PacketList.PacketAccum.Put | lib/libstack/PacketAccum.h:15-36 | the packet is appended exactly if true is returned; false exactly if a block is needed and none can be had, and then nothing changes, allocator included; other lent slots are untouched and a new block was not lent before |
| SharedSocket.Socket.Read | lib/libshared/SharedSocket.cpp:23-54 | the bytes ready up to the size wanted, in however many portions recv gave them; an error exactly if the connection ends before that many have come; the rest of the stream is untouched |
| SharedSocket.Socket.Write | lib/libshared/SharedSocket.cpp:56-82 | everything has been sent, or an error after some prefix of it; an empty write is an error |
| CommandFraming.CutLosesNothing | lib/libshared/SharedServer.cpp:114-139 | commands and remainder together are the stream, and every command has sizeof(ss_cmd) bytes |
| CommandFraming.CutPortion | lib/libshared/SharedServer.cpp:119-138 | a portion up to the end of the current command completes it or is put by |
| CommandFraming.CutOfSent | lib/libshared/SharedServer.cpp:114-139 | cutting undoes sending one command after the other |
| CommandFraming.ReceivedIsPrefixOfSent | lib/libshared/SharedServer.cpp:114-139 | whatever part of the sent bytes has arrived, the commands cut out of it are the first of those sent |
| CommandFraming.WriteAll | lib/libshared/SharedClient.cpp:27-70 | a caller that stops at the first command not sent leaves a prefix of the bytes on the wire, all of them exactly if every command was sent |
| ClientWrites.ClientWrite | lib/libshared/SharedClient.cpp:27-70 | a method of the client returns true whatever happened, after some prefix of the command has gone out |
| ClientWrites.SendAll | lib/libshared/SharedClient.cpp:27-70 | a client that goes on leaves on the wire, one after the other, what has gone out of each command |
| ClientWrites.PrefixExactly | lib/libshared/SharedClient.cpp:27-70 | that is a prefix of what was sent, whatever the commands are, if and only if nothing follows the first command that has not gone out in full |
| CommandFraming.Connection.OnReadable | lib/libshared/SharedServer.cpp:114-139 | for every way recv splits the stream, the commands handled are those the bytes received so far contain and the partial buffer is the remainder; a call takes exactly what is ready up to the end of the current command, and closes exactly if the connection ends before that |
| CommandCodec.DecodeEncode | lib/libshared/SharedServer.cpp:153-207 | processCommands reads the command that the client laid out: code, id, hash, keyword, the low 32 bits of a size and a name prefix up to its first zero |
| CommandLayout.DecodeExactly | lib/libshared/SharedServer.cpp:153-207 | processCommands takes 144 bytes for a command if and only if they are laid out as it: the code in the low word, the keyword exactly for the text "hi!", id and hash in 64 bits, size in 32, the prefix up to the first zero, anything else unsupported |
| CommandLayout.ClientLayout | lib/libshared/SharedClient.cpp:27-70 | what the client lays out is that command, and all bytes that it does not use are zero |
| CommandCodec.ReadInFull | lib/libshared/SharedClient.cpp:34-56 | that is the whole command if and only if a channel's size fits 32 bits and its prefix has no zero |
| CommandCodec.ServerReadsWhatClientSent | lib/libshared/SharedClient.cpp:27-70 | end to end, when a prefix of the client's bytes has gone out (PrefixExactly): always the first of those sent, and all of them once all bytes have come |
| ChannelRegistry.StepKeepsInv | lib/libshared/SharedServer.cpp:146-256 | every event keeps ids distinct and below _shm_index, and every id's single hash leading back to it |
| ChannelRegistry.RunKeepsInv | lib/libshared/SharedServer.cpp:146-256 | the same over every run |
| ChannelRegistry.OnlyInitedChange | lib/libshared/SharedServer.cpp:153-174 | the maps change only by commands of sockets in SS_INITED |
| ChannelRegistry.BoundHashStays | lib/libshared/SharedServer.cpp:210-256 | a bound hash keeps its channel; it goes exactly with a closeChan for the id under which it is listed |
| ChannelRegistry.InverseKept | lib/libshared/SharedServer.cpp:229-232 | the two hash maps stay exact inverses through a step if and only if the step does not bind a channel that has a hash |
| ChannelRegistry.CloseUnbinds | lib/libshared/SharedServer.cpp:340-348 | after closeChan no hash leads to the id if and only if every hash that did was the one listed under it |
| ChannelRegistry.LiveKept | lib/libshared/SharedServer.cpp:328-348 | while the maps are inverses, every bound hash leads to a channel that is still open |
| ChannelRegistry.RegistryConsistent | lib/libshared/SharedServer.cpp:146-353 | from an empty server over every run: the invariant; and without rebinding the maps are inverses and send reaches open channels only |
| ChannelRegistry.RebindingLeavesAHash | lib/libshared/SharedServer.cpp:229-232 | a run of six events after which a hash leads to a closed channel |
| ChannelHistory.InitedExactly | lib/libshared/SharedServer.cpp:153-174 | over every run a socket is in SS_INITED if and only if it has sent the keyword while connected, and since then its connection has not been lost, replaced or closed by a command of its own |
| ChannelHistory.ChannelsExactly | lib/libshared/SharedServer.cpp:279-340 | over every run a socket has a channel if and only if a command of its own opened it, SS_NEWRCHAN for one the server writes and SS_NEWWCHAN for one it reads, with the number of channels asked for before as its id, and none has closed it since |
| ChannelHistory.HashesLeadBack | lib/libshared/SharedServer.cpp:210-256 | over every run a hash leads to a channel only because the socket that opened the channel, and had not closed it, bound the hash to its id |
| ChannelHistory.RoutesAsAsked | lib/libshared/SharedServer.cpp:263-272 | data for a hash goes to an id only if some socket asked for it with SS_NEWRCHAN and bound the hash to it, and does go there from the binding on until somebody closes the id |
| ChannelServer.SharedServer.NewChan | lib/libshared/SharedServer.cpp:279-326 | an id is used up in any case; the channel is added to the socket's exactly if its memory could be created |
| ChannelServer.SharedServer.BindChan | lib/libshared/SharedServer.cpp:210-256 | the search finds the socket's first channel with that id; the hash is bound to it unless it is bound already, and listed unless the id has one; true exactly if the channel was found |
| ChannelServer.SharedServer.CloseChan | lib/libshared/SharedServer.cpp:328-353 | the channel leaves the socket's list, and the hashes listed under the id go even when the channel is not the socket's |
| ChannelServer.SharedServer.EraseHashes | lib/libshared/SharedServer.cpp:340-348 | exactly the hashes listed under the id are unbound |
| ChannelServer.SharedServer.ProcessCommand | lib/libshared/SharedServer.cpp:146-208 | the dispatch does to the registry what Step says for every command |
| ChannelServer.SharedServer.Send | lib/libshared/SharedServer.cpp:263-272 | data goes to the channel the hash leads to if the server writes it, and nowhere otherwise |
| ServerLoop.HistoryGrows | lib/libshared/SharedServer.cpp:96-141 | a turn of any connection adds at most one event to the history that explains registry, connections and open sockets |
| ServerLoop.EveryRunIsConsistent | lib/libshared/SharedServer.cpp:96-141 | over every run of turns of any number of connections: some history leads to the registry, in it every descriptor has exactly the commands its bytes contain however they were split, the open connections are those the registry knows, and the registry is consistent |
| ServerLoop.ServeReadable | lib/libshared/SharedServer.cpp:114-139 | the loop body for a readable connection is one turn, with exactly the bytes that were ready up to the end of the current command, or with the end if the connection ended before; a connection that its own command has closed is not served again |
| ServerGreeting.InitedOnlyByKeyword | lib/libshared/SharedServer.cpp:114-170 | over every run of turns the server takes a socket for initialised only if its present connection has sent a whole command with code 0 and the text "hi!" |
| FlowSeqKey.KeyRoundTrip | lib/libshared/SharedFlowAccum.h:18-46 | index and sequence number decode back; the side does if and only if it is false |
| FlowSeqKey.KeyOrder | lib/libshared/SharedFlowAccum.h:18-22 | keys compare as (side, index, sequence) do lexicographically, and are equal only for equal parts |
| FlowSeqKey.PreparedInFlow | lib/libshared/SharedFlowAccum.h:18-22 | a prepared key belongs to its flow side and to no other |
| FlowSeqKey.FlowOrder | lib/libshared/SharedFlowAccum.h:18-46 | inside a flow side a key is determined and ordered by its sequence number |
| FlowSeqKey.FlowIsContiguous | lib/libshared/SharedFlowAccum.cpp:96-112 | in every sorted map the blocks of a flow side are one contiguous run in sequence order |
| FlowSeqKey.LowerBoundFindsBlock | lib/libshared/SharedFlowAccum.cpp:96-112 | the lower bound is the flow side's first block at or behind the sequence number, and lands outside the flow side only if there is none |
| BlockScan.LooksInCyclicOrder | lib/libshared/SharedFlowAccum.cpp:48-65 | the turns of the loop look at the blocks in cyclic order from the iterator |
| BlockScan.EachBlockOnce | lib/libshared/SharedFlowAccum.cpp:48-65 | one round meets every block exactly once |
| BlockScan.ScanEnds | lib/libshared/SharedFlowAccum.cpp:50-65 | the scan ends if and only if the iterator is not on the first block or some block is ready |
| BlockScan.SharedFlowAccum.Get | lib/libshared/SharedFlowAccum.cpp:40-70 | the first ready block in cyclic order, or none exactly if none is ready, after at most one look at each; the iterator ends behind the block found, or where it was |
| BlockScan.SharedFlowAccum.GetLowerBoundBlock | lib/libshared/SharedFlowAccum.cpp:96-112 | the flag is set exactly if some key is not below the one asked for |
| HeaderStack.AdvanceKeepsPayload | lib/libstack/HeaderIf.h:53-60 | moving the base past any headers and laying any others on it finds the same payload as all of them stacked, at every depth |
| HeaderStack.AdvanceKeepsHeader | lib/libstack/HeaderIf.h:32-35 | and the same top header with the same size |
| HeaderStack.AdvanceKeepsPayloadLength | lib/libstack/HeaderIf.h:89-93 | the payload's length survives if and only if LengthMoves: an Ip4 layer left in the stack needs a base that does not move, otherwise a new base that stores its length, or a getLength that is the base's |
| HeaderStack.AdvanceKeepsEnd | lib/libstack/HeaderIf.h:53-60 | offset plus length stays put if and only if the new base stores its length or getLength is the base's |
| HeaderStack.LengthAfter | lib/libstack/PacketPtr.h:198-230 | the new base reports the length given if it is a PacketPtr, otherwise the old one's less the bytes passed |
| HeaderStack.RebaseKeepsView | lib/libstack/HeaderIf.h:57-60 | rebase of any stack keeps the top header's and the payload's address, and the payload's length under the exact condition, for a base of either kind |
| HeaderStack.RebaseSharpensAssertion | lib/libstack/HeaderIf.h:77-81 | after rebase to a PacketPtr payload() asserts that the whole old stack fits, not only its top header |
| HeaderStack.PushYieldsPayload | lib/libstack/HeaderIf.h:53-56 | the base that push leaves is exactly the payload window |
| HeaderStack.LengthOfBase | lib/libstack/PacketPtr.h:93-96 | without an Ip4 layer getLength is the base's |
| HeaderStack.RebaseExactly | lib/libstack/HeaderIf.h:57-60 | the header's address is kept if and only if it fits 16 bits, and then the payload's if and only if the sizes do not wrap |
| HeaderLayout.StackOfHeaders | lib/libstack/HeaderIf.h:32-93 | for headers one behind the other in the buffer, each saying its own length (IP header length in words, TCP data offset, chunk length in network order, constant), the full size is the sum of their lengths, and the top header and the payload are found where they lie, at every depth |
| HeaderLayout.LengthOfHeaders | lib/libstack/Ip4.h:46-52 | getLength is the total length that the nearest IP header from the top says |
| HeaderLayout.PayloadLengthOfHeaders | lib/libstack/HeaderIf.h:89-93 | payloadLength takes all headers of the stack off that |
| HeaderLayout.BaseOfPacket | lib/libstack/PacketPtr.h:93-106 | without an IP header length and offset are those stored at the start of the buffer, and a base with an offset of its own keeps the end of the packet |
| HeaderLayout.WhatIsShown | lib/libstack/HeaderIf.h:53-60 | a base that shows headers and a payload shows exactly the payload after push, and the top header and the payload after rebase |
| HeaderLayout.BaseOfPush | lib/libstack/PacketPtr.h:198-235 | push leaves a PacketPtr, which stores payload length and place at the start of the buffer, also from a PacketOffsetPtr; only PktOffset leaves its like and the buffer alone |
| HeaderStack.PacketPtr.MoveFrom | lib/libstack/PacketPtr.h:51-55 | the buffer and what it stands for change hands, the source is left empty |
| HeaderStack.PacketPtr.RebaseTo | lib/libstack/HeaderIf.h:57-60 | the buffer goes to the new base, which is what Rebase says; the stack is left without one |
| HeaderStack.PacketPtr.PushTo | lib/libstack/HeaderIf.h:53-56 | the same for push |
| OfflineReplay.DeliveredInOrder | src/drivers/DriverPcap.h:85-109 | over every run and under every clock: delivered, held and unread packets are together the accepted records of the file in order |
| OfflineReplay.AcceptedBySize | src/drivers/DriverPcap.cpp:3-16 | the accepted records are those of fewer than 65536 bytes, in the order of the file |
| OfflineReplay.RunIsScheduled | src/drivers/Driver.h:40-56 | over every run the schedule of the last packet taken is the first delivery plus all pauses, or later if it was not anchored |
| OfflineReplay.NeverEarly | src/drivers/Driver.h:40-72 | over every run no packet is delivered before the first delivery plus the pauses up to it, however late those before it were |
| ReplaySchedule.OnScheduleOffZero | src/drivers/Driver.h:40-72 | with a clock that has left 0, over every run: a call that has a packet at hand returns it if and only if the clock has reached the first delivery plus the pauses up to it |
| ReplaySchedule.OnScheduleForward | src/drivers/Driver.h:40-72 | that this is so for every clock that does not run backwards, 0 included, is true of a file if and only if it asks for no pause or for one right behind the first packet |
| ReplaySchedule.OnScheduleExactly | src/drivers/Driver.h:40-72 | for every clock, running backwards included: if and only if it has no third packet or a pause before the second |
| ReplayTimes.ClimbSpans | src/drivers/Driver.h:46-50 | the climbs of nonzero timestamps add up to at least the time from the first to the last, and to exactly that if and only if they never fall |
| ReplayTimes.NeverBeforeItsTime | src/drivers/Driver.h:40-72 | over every run and under every clock, packet i is not delivered before the first delivery plus the climbs of the timestamps up to it, so not before the time between the two packets in the file |
| ReplayTimes.DeliveredAtItsTime | src/drivers/Driver.h:40-72 | with a clock that has left 0, a call returns the next packet exactly if the clock has reached that time, which for timestamps in order is the difference of the two timestamps |
| OfflineReplay.RunKeepsFinishedInv | src/drivers/DriverPcap.h:98-100 | finished() is true after every oversized record; without one it means that the file is read and nothing is held |
| OfflineReplay.FinishedExactly | src/drivers/DriverPcap.h:98-114 | that a finished driver has delivered every packet is true of all runs if and only if no packet lies behind an oversized record |
| OfflineReplay.DriverPcap.OfflineProcess | src/drivers/Driver.h:40-56 | the schedule moves on by the pause, and the packet is held exactly if that lies ahead of the clock; called only with nothing held |
| OfflineReplay.DriverPcap.OfflineHandle | src/drivers/Driver.h:58-72 | the held packet is returned exactly if it is due; called only with a packet held |
| OfflineReplay.DriverPcap.GetPackets | src/drivers/DriverPcap.h:85-109 | one call of the driver is one Call of the model, and neither assertion of the pacing fires |

## Left out

- RingInterleaved.InterleavedSafety: assumes sequentially consistent memory; publication order on weaker memory is not modelled, because the code marks the cursors volatile only.
- RingFifo.CycleBuffer.Read1: hands out the place of the record as it is at the call; that later writes may overwrite what the pointer shows is not captured.
- RingOccupancy.EmptyRingAccepts: requires 0 < size < 2^31; beyond that the cast of `tail` can only add refusals, which the FIFO theorems allow.
- FlowPushes.BookKept: requires that at most 255 layers are stored, which is what the unsigned bytes of the code can count; what happens after a counter has wrapped is not modelled.
- FlowPushes.HashIsDirectionFree: requires the same.
- FlowPushes.FlowIsDirectionFree: requires the same.
- FlowHash.FlowHashExactly: requires the same.
- FlowStack.StackIsCalls: speaks of sequences in which no level overflows; what an overflowing call does is said one call at a time by FlowStack.FullLevel.
- ChannelHistory.ChannelsExactly: for runs of fewer than 2^64 events, after which ids would repeat.
- HeaderLayout.BaseOfPacket: for a base with its own offset only while that lies within the packet.
- FlowDetails.PacketDetails.PushHeader: a call that adds a layer requires a free entry in the layers array, whose real size is the reserve behind the packet.
- FlowDetails.PacketDetails.LoadLayers: the loops work on the layers read once, not entry by entry; nothing changes them in between.
- BlockScan.SharedFlowAccum.Get: requires the condition of ScanEnds, because the scan does not return otherwise; readiness is fixed during a call, and the iterator starts at a chosen place where the code leaves it default-constructed.
- SharedSocket.Socket.Read: what recv returns is a finite script of portions, waits and an end; a hard error counts as an end.
- ServerLoop.EveryRunIsConsistent: the operating system gives a new connection a descriptor that is not in use.
- ServerLoop.ServeReadable: a command that closes its own connection erases the partial buffer that the loop still resets afterwards; that access is not modelled.
- HeaderStack.RebaseKeepsView: headers of constant size, Ip4, Tcp and SctpChunk; the payload shift of Tcp and the optional parts of the SS7 headers are not included. The base's packet header is the 4-byte one; the larger `Packet` differs in where the two fields stand.
- OfflineReplay.DriverPcap.GetPackets: the offline mode only, without read errors of the file; microseconds do not wrap at 64 bits.
- Mutexes and the early returns that leave them locked, shared memory, sockets, select and accept, logging, configuration and address printing.
- CommandCodec.DecodeEncode: requires a prefix that leaves room for its terminating zero, as the client copies it without a check; a text without a zero is read to its end only.
- The names that the server makes of a prefix and an id, and the client's side of the acknowledgements.
- `SharedFlowAccum::put` and the TCP block wrapper: the block format they need is not consistent in itself.
- The cursors `_tmp_head` and `_tmp_tail`, which nothing reads.
- Clock calibration and the handler threads of the application.
