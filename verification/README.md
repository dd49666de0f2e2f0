# whip6, in Dafny

A verification model of the microcontroller core of whip6 (Warsaw High-performance IPv6): the
6LoWPAN adaptation layer in `microc`, and the build tool that whip6 is made with.  The model
follows the C and Python code branch by branch: linked lists are linked objects, pools are
shared, counters are 8, 16, or 32 bits wide, and loops are loops.  Each operation on the heap is
proved to refine a pure function on values, and what the code promises is proved about these
functions, over all inputs and all runs.

| module | of what |
|---|---|
| `LowpanTypes`, `Sequences` | bytes, addresses, headers; reading and overwriting stretches of bytes |
| `FragmentSpecs` | the list of received ranges of a packet, as values |
| `ReassemblyModel` | the reassembler as a state machine on values, and its runs |
| `ReassemblyRuns` | what holds in all states of a run exactly when each step meets a condition |
| `PacketFates` | what becomes of a packet that a payload is passed to, in every case |
| `DatagramKeys` | what tells datagrams apart, and finding the packet of a frame |
| `SpecChains`, `PacketBytes`, `Defragmenter` | the reassembler on the heap: spec chains and their pool, packet bytes, the three lists of packet states |
| `FrameHeaders`, `FramePacking` | the mesh, broadcast, and fragmentation headers of RFC 4944 |
| `FrameLayout` | where each of their bytes is on the wire |
| `Packets`, `Fragmenter`, `FragmenterRuns` | packets, the fragmenter, and requests to it one after another |
| `EndToEnd`, `AmongOthers` | fragmenter and reassembler together, alone and among the frames of others |
| `LinkQuality`, `LinkModel` | a link's estimate of quality; the link table, its runs, and reclamation, as values |
| `IndexChains`, `LinkTable` | the link table on the heap: hash chains and the free list through shared index fields |
| `Chunks`, `IoVec`, `ChainAllocation` | I/O vectors, iterators over them, allocation of chains |
| `Checksum` | the Internet checksum, fed in pieces |
| `Ipv6AddressText` | printing IPv6 addresses character by character |
| `StagingQueue` | the queue of packets staged for forwarding |
| `SmakeTargets` | the depth-first `make` of smake |

A fragment spec is a range of received bytes; a list of specs is canonical when its first range
starts at 0, possibly empty, and any two ranges are separated by a gap.  A packet is its 40
header bytes followed by its flattened I/O vector.  `Abs` of a class is its state as a value,
and a contract `Step(old(Abs()), event) == (Abs(), result)` says that a method does what the
state machine does.

Where the code and what is said about it differ, the model follows the code:

- Merging a fragment whose bytes are the ones already stored joins the grown spec with the next
  spec once only.  When it reaches further, a swallowed spec remains on the list, and the list is
  no longer canonical (`StoreCanonicalIff`, `RunKeepsFormIff`).  A datagram can then arrive in full
  and not come out (`AllCanArriveAndNothingComeOut`); as long as no fragment reaches too far, it
  comes out exactly when an accepted fragment completes what the specs cover (`RunHandsOverIff`).  What the specs claim stays true in
  every run, and no incomplete packet is handed over (`RunHandsOverOnlyWrittenPackets`).
- Finding a packet does not search the locked ones.  In a run, keys are unique all along exactly
  when each find that succeeds does so when no locked packet has its key (`RunKeepsKeysUniqueIff`);
  two finds in a row for one key break that (`KeysCanClash`).
- Finding or creating a link is documented to leave the table unmodified when it fails.  With no
  address, a full table, and permission to evict, it evicts a link and then fails
  (`FailureLeavesTableIff`, `FailureCanEvict`).
- While a link has no estimate, acks are counted in 8 bits without a bound.  From a new link
  nothing wraps with up to n of them pending exactly when n is at most 224
  (`QualityStaysInBounds`, `PendingAckBoundIsTight`).
- The sweeps over the link table add `firstIdx` and `numIdx` in 8 bits.  The mark sweep stays in
  the pool exactly when the window does not wrap (`WindowFitsIff`), the removal sweep also when
  its budget is used up before the end of the pool (`SweepInPoolIff`).
- Comparisons return an 8-bit difference; its sign is the order of the bytes only when they are
  close enough (`SignIsOrderIff`).
- Serializing 16 bits into a vector that is one byte too short writes the high byte, reports one
  byte lacking, and leaves the iterator where it was.
- The checksum accumulates in 32 bits, which is enough for 131074 bytes; `Finalize` says exactly
  when the result is right beyond that.
- A set address bit in the mesh dispatch means an extended address.

## Model

| member | source | states |
|---|---|---|
| `EndToEnd.FragmentThenReassemble` | microc/src/6lowpan/uc6LoWPANDefragmentation.c:721-897 | End to end: for any accepted datagram and any frame payload limits under which the fragmenter gets done, the emitted frames, in any order and with any duplicates, make reassembly return nothing until the last missing one arrives, and then exactly the datagram, with the reassembler back in the state before |
| `EndToEnd.EndToEndIdentity` | nesc/whip6/lib/lowpan/LoWPANDefragmenterMainPrv.nc:281-432 | The same for any sequence of frames that carry consecutive slices of a datagram: what unpacking, finding, and passing each arrival yields |
| `EndToEnd.SliceArrives` | microc/src/6lowpan/uc6LoWPANDefragmentation.c:570-897 | One arrival, new or repeated: nothing comes out and the packet holds one slice more, or it was the last one, the datagram comes out, and both pools are as before |
| `EndToEnd.CompleteIffAll` | microc/src/6lowpan/uc6LoWPANDefragmentation.c:872-884 | The first spec spans the packet exactly when all slices have arrived, and then the bytes are the datagram |
| `EndToEnd.EmitPartitions` | microc/src/6lowpan/uc6LoWPANFragmentation.c:346-393 | The fragments for any sequence of frame sizes are consecutive non-empty slices from offset 0 on, at multiples of 8, each within its frame |
| `EndToEnd.JoinedIsDatagram` | microc/src/6lowpan/uc6LoWPANFragmentation.c:346-393 | The slices, put together, are the datagram up to where they end |
| `EndToEnd.NextFragmentCarries` | microc/src/6lowpan/uc6LoWPANFragmentation.c:36-233 | One fragment: its frame holds the headers and the slice it claims, the 11-bit and 8-bit fields of section 5.3 of RFC 4944 fit, and the offset advances to a multiple of 8 or to the end |
| `EndToEnd.FrameUnpacks` | microc/src/6lowpan/uc6LoWPANHeaderManipulation.c:146-260 | An emitted frame is unpacked to its mesh header, its fragmentation header, and its slice |
| `EndToEnd.ReceiveUnpacked` | nesc/whip6/lib/lowpan/LoWPANDefragmenterMainPrv.nc:281-432 | Receiving a fragment whose packet is found or allocated is passing the rest of its payload to that packet |
| `DatagramKeys.SameKeyIff` | microc/src/6lowpan/uc6LoWPANDefragmentation.c:544-617 | Two frames have the same key exactly when tag, originator, final destination, and PAN agree; the two ends are those of the mesh header where there is one, and those of the link otherwise |
| `DatagramKeys.KeyIsOf` | microc/src/6lowpan/uc6LoWPANDefragmentation.c:608-617 | A packet is met by the frames of its own datagram and by no others |
| `DatagramKeys.FindLocks` | microc/src/6lowpan/uc6LoWPANDefragmentation.c:570-689 | Finding succeeds exactly when the datagram is not shorter than an IPv6 header and its first packet has the frame's size, or there are bytes and a packet state for a new one; the packet locked is of the frame's datagram and size, with what was received before or with nothing; the packets of other datagrams stay, in order |
| `DatagramKeys.OthersWithout` | microc/src/6lowpan/uc6LoWPANDefragmentation.c:604-625 | Taking a packet out leaves the packets of other datagrams, in order |
| `Defragmenter.CreateVirtualMeshHeaderIfNecessary` | microc/src/6lowpan/uc6LoWPANDefragmentation.c:544-566 | A frame without a mesh header gets the two ends of its link in the fields of one, which stays absent |
| `AmongOthers.EndToEndAmongOthers` | nesc/whip6/lib/lowpan/LoWPANDefragmenterMainPrv.nc:281-432 | End to end among the frames of others, that is all that carry no fragment or one whose tag, originator, final destination, or PAN differs, malformed ones included: as long as the pools suffice when the datagram's own fragments arrive, these bring nothing out until the last missing one does, and then exactly the datagram |
| `AmongOthers.OwnArrives` | microc/src/6lowpan/uc6LoWPANDefragmentation.c:570-897 | One fragment, new or repeated, whatever other packets are under reassembly |
| `AmongOthers.ForeignKeeps` | nesc/whip6/lib/lowpan/LoWPANDefragmenterMainPrv.nc:281-432 | A frame whose tag, originator, final destination, or PAN is another, or that carries no fragment, leaves the packet of the datagram alone |
| `AmongOthers.FindKeepsOthers` | microc/src/6lowpan/uc6LoWPANDefragmentation.c:570-689 | Finding or allocating for one key leaves the packets of the others |
| `AmongOthers.PassKeepsOthers` | microc/src/6lowpan/uc6LoWPANDefragmentation.c:721-897 | So does passing |
| `FragmenterRuns.RequestFragments` | microc/src/6lowpan/uc6LoWPANFragmentation.c:346-393 | Requests for a sequence of frames: the payloads of those that succeed are exactly what the specification emits for the headers provided, and the token ends where they end |
| `FragmenterRuns.RequestOne` | microc/src/6lowpan/uc6LoWPANFragmentation.c:346-393 | One of these requests; the mesh and broadcast headers survive it |
| `FragmenterRuns.NextFragmentSucceedsIff` | microc/src/6lowpan/uc6LoWPANFragmentation.c:36-233 | A request succeeds exactly when the headers serialize, no compression is asked for, and what is left fits with a byte to spare or there is room for eight bytes; which error it is otherwise |
| `Fragmenter.NextFragmentFills` | microc/src/6lowpan/uc6LoWPANFragmentation.c:183-197 | A frame that does not end the datagram carries a multiple of 8 bytes and has room for less than eight more |
| `FragmenterRuns.EmitFills` | microc/src/6lowpan/uc6LoWPANFragmentation.c:346-393 | So do all frames of a run of requests |
| `FragmenterRuns.FinishedIff` | microc/src/6lowpan/uc6LoWPANFragmentation.c:346-393 | Frames with one limit finish what is left of a datagram exactly when it is at most what they can take, computed from the limit, the headers, and their number |
| `FragmenterRuns.RequestTakes` | microc/src/6lowpan/uc6LoWPANFragmentation.c:36-233 | One request takes all that is left if that fits, else the capacity of the frame, and fails exactly when that is zero |
| `FragmenterRuns.EnoughFramesFinish` | microc/src/6lowpan/uc6LoWPANFragmentation.c:346-393 | Frames with room for the headers and eight bytes finish the datagram when at the capacity of the smallest there are enough for it |
| `FragmenterRuns.RoomIs` | microc/src/6lowpan/uc6LoWPANHeaderManipulation.c:410-628 | The bytes in front of a slice: 1 or 2 and the two addresses of a mesh header, 2 of a broadcast header, and 5 of a fragmentation header, with the dispatch in the first fragment |
| `FragmenterRuns.RoomyFramesFinish` | microc/src/6lowpan/uc6LoWPANFragmentation.c:346-393 | Frames for 34 bytes or more, one for every eight bytes of the datagram, finish it |
| `FragmenterRuns.RoomyFrame` | microc/src/6lowpan/uc6LoWPANFragmentation.c:36-233 | Such a frame takes eight bytes or all that is left |
| `FragmenterRuns.HeadersSerialize` | microc/src/6lowpan/uc6LoWPANHeaderManipulation.c:410-475 | Only a mesh header can lack a serialized form |
| `Fragmenter.NextFragmentSame` | microc/src/6lowpan/uc6LoWPANFragmentation.c:346-393 | Of the headers provided only the mesh and the broadcast header matter |
| `Fragmenter.FitSlice` | microc/src/6lowpan/uc6LoWPANFragmentation.c:186-193 | All that is left if that is less than the room, else the largest multiple of 8 for which there is room |
| `FragmentSpecs.FindAfter` | microc/src/6lowpan/uc6LoWPANDefragmentation.c:133-154 | The place of a fragment: after the last spec that starts before it |
| `FragmentSpecs.MergedMeaning` | microc/src/6lowpan/uc6LoWPANDefragmentation.c:172-218 | Two joined ranges become the range of exactly the bytes of both |
| `FragmentSpecs.Store` | microc/src/6lowpan/uc6LoWPANDefragmentation.c:306-492 | Merging conserves specs between list and pool; it fails only when the pool is empty |
| `FragmentSpecs.StoreSound` | microc/src/6lowpan/uc6LoWPANDefragmentation.c:306-492 | After any fragment, overlapping and conflicting ones included, a list with increasing offsets and ends within the packet covers the new range and nothing that was not stored |
| `FragmentSpecs.StoreUncovered` | microc/src/6lowpan/uc6LoWPANDefragmentation.c:306-492 | A range disjoint from the coverage gives the canonical list of the union, and fails exactly when it touches nothing and the pool is empty |
| `FragmentSpecs.StoreKnown` | microc/src/6lowpan/uc6LoWPANDefragmentation.c:306-492 | A covered range with the same bytes changes nothing |
| `FragmentSpecs.CoveredIsContained` | microc/src/6lowpan/uc6LoWPANDefragmentation.c:306-492 | In a canonical list a covered range lies in one spec |
| `FragmentSpecs.StoreConflicting` | microc/src/6lowpan/uc6LoWPANDefragmentation.c:306-492 | A range with other bytes, however it overlaps: the list stays canonical, covers the range, and adds nothing else; it fails only when the pool is empty |
| `FragmentSpecs.StoreCovers` | microc/src/6lowpan/uc6LoWPANDefragmentation.c:306-492 | Whatever a fragment overlaps and whatever its bytes: exactly when it fails for want of a spec, and exactly what is covered afterwards |
| `FragmentSpecs.JoinNextCovers` | microc/src/6lowpan/uc6LoWPANDefragmentation.c:236-280 | What joining a spec with the next one leaves covered |
| `FragmentSpecs.InsertAfterCovers` | microc/src/6lowpan/uc6LoWPANDefragmentation.c:406-490 | What a fragment with a gap before it leaves covered |
| `FragmentSpecs.StoreCanonicalIff` | microc/src/6lowpan/uc6LoWPANDefragmentation.c:236-492 | The list stays canonical exactly unless the bytes are identical, the merged spec grows and reaches beyond the one spec that the code swallows |
| `FragmentSpecs.CanonicalFormCanBeLost` | microc/src/6lowpan/uc6LoWPANDefragmentation.c:236-280 | A list and a fragment for which one swallowed spec is not enough |
| `ReassemblyRuns.AllCanArriveAndNothingComeOut` | microc/src/6lowpan/uc6LoWPANDefragmentation.c:236-280 | A run from Init, with the bytes: five fragments bring all 64 bytes of a datagram, and its packet is still pending |
| `ReassemblyRuns.RunKeepsFormIff` | microc/src/6lowpan/uc6LoWPANDefragmentation.c:306-492 | In a run all lists stay canonical exactly when no fragment that leaves its packet pending reaches too far |
| `ReassemblyRuns.StepKeepsFormIff` | microc/src/6lowpan/uc6LoWPANDefragmentation.c:570-1072 | The same for one operation |
| `ReassemblyRuns.RunHandsOverIff` | microc/src/6lowpan/uc6LoWPANDefragmentation.c:721-897 | After any such run from Init, Pass returns the packet exactly when the fragment is accepted and [0, totalSize) is covered then |
| `ReassemblyRuns.CompletesIff` | microc/src/6lowpan/uc6LoWPANDefragmentation.c:872-884 | The same for one packet with a canonical list |
| `FragmentSpecs.CompleteIff` | microc/src/6lowpan/uc6LoWPANDefragmentation.c:872-884 | The test for completeness, that the first spec spans the packet, is right for canonical lists |
| `ReassemblyModel.WrittenOk` | microc/src/6lowpan/uc6LoWPANDefragmentation.c:774-870 | Storing data keeps every byte in a spec the last one written at its place |
| `ReassemblyModel.CompletedWasWritten` | microc/src/6lowpan/uc6LoWPANDefragmentation.c:721-897 | A fragment leaves a truthful packet, or completes one all of whose bytes were written |
| `ReassemblyModel.RunHandsOverOnlyWrittenPackets` | microc/src/6lowpan/uc6LoWPANDefragmentation.c:721-897 | At any point of any run from Init, whatever arrived before, a returned packet had every byte of [0, totalSize) written since it was allocated, and each byte is the last one written there |
| `ReassemblyModel.StepConserves` | microc/src/6lowpan/uc6LoWPANDefragmentation.c:570-1072 | Every operation keeps all packets truthful and conserves packet states and specs |
| `ReassemblyModel.RunConserves` | microc/src/6lowpan/uc6LoWPANDefragmentation.c:496-1072 | So does every run |
| `ReassemblyModel.YoungIsSubsequence` | microc/src/6lowpan/uc6LoWPANDefragmentation.c:1005-1048 | A timeout keeps exactly the packets whose age modulo 2^32 is below the limit, in order |
| `PacketFates.FateIs` | microc/src/6lowpan/uc6LoWPANDefragmentation.c:721-897 | What becomes of a packet: destroyed exactly when the payload is not acceptable or no spec is left; otherwise its bytes are those before with the data over them, exactly so much is covered, and it is handed over only when that is all of it, and then unless the fragment reaches too far |
| `PacketFates.FragmentDataIs` | microc/src/6lowpan/uc6LoWPANDefragmentation.c:743-805 | Which payloads are acceptable as fragments, and which of their bytes are the datagram's |
| `PacketFates.IdenticalIff` | microc/src/6lowpan/uc6LoWPANDefragmentation.c:805-859 | When the bytes count as identical: all are there, and for a first fragment one was stored before |
| `PacketFates.PassMoves` | microc/src/6lowpan/uc6LoWPANDefragmentation.c:721-897 | The other locked packets stay in their order; the packet goes to the front of the current ones, or its state is free and it is returned if it is complete |
| `PacketFates.UnlockMoves` | microc/src/6lowpan/uc6LoWPANDefragmentation.c:989-1001 | Unlocking puts the packet to the front of the current ones and changes nothing else |
| `PacketFates.TerminateFrees` | microc/src/6lowpan/uc6LoWPANDefragmentation.c:1052-1072 | Terminating frees all packet states and specs, exactly when no packet is locked |
| `ReassemblyModel.FindKeepsKeysUniqueIff` | microc/src/6lowpan/uc6LoWPANDefragmentation.c:570-689 | A successful find keeps the keys of packets unique exactly when no locked packet has the key: locked ones are not searched |
| `ReassemblyModel.PassKeepsKeysUnique` | microc/src/6lowpan/uc6LoWPANDefragmentation.c:721-1001 | One Pass or Unlock keeps the keys unique |
| `ReassemblyRuns.RunKeepsKeysUniqueIff` | microc/src/6lowpan/uc6LoWPANDefragmentation.c:570-1072 | In a run, timeouts, terminations, and failed finds included, keys are unique all along exactly when each find that succeeds does so when no locked packet has its key |
| `ReassemblyRuns.StepKeepsKeysUniqueIff` | microc/src/6lowpan/uc6LoWPANDefragmentation.c:570-1072 | The same for one operation |
| `ReassemblyRuns.KeysCanClash` | microc/src/6lowpan/uc6LoWPANDefragmentation.c:604-688 | A run from Init, two finds for one key, that locks two packets with the key |
| `ReassemblyRuns.RunKeepsIff` | microc/src/6lowpan/uc6LoWPANDefragmentation.c:570-1072 | What each operation keeps exactly when a condition holds, a run keeps exactly when the condition holds at each of its operations |
| `SpecChains.FindWhereNewFragSpecShouldBeInserted` | microc/src/6lowpan/uc6LoWPANDefragmentation.c:133-154 | The loop finds the place that the specification names |
| `SpecChains.ConcatenateNewFragSpecWithExistingOne` | microc/src/6lowpan/uc6LoWPANDefragmentation.c:172-218 | The signed result tells joined from overlapping from apart, and the spec is the joined range exactly when it was joined |
| `SpecChains.TryToConcatenateFragSpecWithNextOnList` | microc/src/6lowpan/uc6LoWPANDefragmentation.c:236-280 | The linked list becomes the specified list; the swallowed spec goes to the pool; no spec is lost or shared |
| `SpecChains.MergeFirstFragSpec` | microc/src/6lowpan/uc6LoWPANDefragmentation.c:318-351 | The branch for offset 0 |
| `SpecChains.MergeFragSpecAfter` | microc/src/6lowpan/uc6LoWPANDefragmentation.c:352-491 | The branch for a fragment after a spec |
| `SpecChains.InsertFragSpecAfter` | microc/src/6lowpan/uc6LoWPANDefragmentation.c:406-490 | Joining the next spec, replacing what clashes, or taking a spec from the pool |
| `SpecChains.MergeNewFragSpecIntoPacket` | microc/src/6lowpan/uc6LoWPANDefragmentation.c:306-492 | The whole relinking in place refines the pure merge |
| `PacketBytes.TwoPartsAreOneSplice` | microc/src/6lowpan/uc6LoWPANDefragmentation.c:807-859 | Copying into the 40 header bytes and then into the vector is one copy into the packet |
| `PacketBytes.TwoPartsAreOneComparison` | microc/src/6lowpan/uc6LoWPANDefragmentation.c:807-845 | Comparing the two parts is one comparison |
| `PacketBytes.CopyIntoPacket` | microc/src/6lowpan/uc6LoWPANDefragmentation.c:805-859 | The copy fits exactly when the range lies within the packet, and reports whether the bytes were there |
| `PacketBytes.RawIpv6HeaderUnpack` | microc/src/6lowpan/uc6LoWPANIpv6HeaderCompression.c:17-102 | The first fragment: accepted exactly when it starts with the IPv6 dispatch, leaves room for a next fragment on an 8-byte border or completes the packet, and fits |
| `Defragmenter.StoreSpec` | microc/src/6lowpan/uc6LoWPANDefragmentation.c:306-492 | The packet's own chain after a merge |
| `Defragmenter.CopyFragment` | microc/src/6lowpan/uc6LoWPANDefragmentation.c:743-859 | Which bytes a frame brings to a packet, and whether they were there |
| `Defragmenter.AcceptFragment` | microc/src/6lowpan/uc6LoWPANDefragmentation.c:743-871 | Copying and recording together do what the model says |
| `Defragmenter.Defragmenter.constructor` | microc/src/6lowpan/uc6LoWPANDefragmentation.c:496-540 | All packet states are free, all additional specs pooled, and the invariant of all lists holds |
| `Defragmenter.Defragmenter.EmptyIsValid` | microc/src/6lowpan/uc6LoWPANDefragmentation.c:496-540 | The abstract state after Init |
| `Defragmenter.Defragmenter.UnlockDefragPacket` | microc/src/6lowpan/uc6LoWPANDefragmentation.c:90-119 | Takes the packet off the locked list exactly when it is there, keeping the order of the others |
| `Defragmenter.Defragmenter.DestroyFragSpecsOfPacket` | microc/src/6lowpan/uc6LoWPANDefragmentation.c:28-49 | All additional specs of the packet go to the pool |
| `Defragmenter.Defragmenter.DestroyDefragPacket` | microc/src/6lowpan/uc6LoWPANDefragmentation.c:60-77 | The packet state and its specs are free again |
| `Defragmenter.Defragmenter.AllocateAndLock` | microc/src/6lowpan/uc6LoWPANDefragmentation.c:622-689 | A free state is taken and locked if the packet allocator delivers |
| `Defragmenter.Defragmenter.LockOrReplace` | microc/src/6lowpan/uc6LoWPANDefragmentation.c:667-689 | A found packet of the same size is locked; one of another size is destroyed and replaced |
| `Defragmenter.Defragmenter.FindKey` | microc/src/6lowpan/uc6LoWPANDefragmentation.c:604-688 | The search of the current packets refines Find |
| `Defragmenter.Defragmenter.FindExistingOrAllocateNewPacketAndLockIt` | microc/src/6lowpan/uc6LoWPANDefragmentation.c:570-689 | The heap operation refines Find; the packet state returned has the frame's tag, originator, final destination, PAN, and size; the current packets that differ in any of the first four stay, in order; frames without a fragmentation header or between PANs get nothing |
| `Defragmenter.Defragmenter.Accept` | microc/src/6lowpan/uc6LoWPANDefragmentation.c:743-871 | A fragment stored in a packet that is on no list |
| `Defragmenter.Defragmenter.TakePacket` | microc/src/6lowpan/uc6LoWPANDefragmentation.c:879-883 | The packet leaves its state before this is freed |
| `Defragmenter.Defragmenter.Conclude` | microc/src/6lowpan/uc6LoWPANDefragmentation.c:872-897 | Handed over, put back, or destroyed |
| `Defragmenter.Defragmenter.PassToUnlocked` | microc/src/6lowpan/uc6LoWPANDefragmentation.c:721-897 | Pass, once the packet is off the locked list |
| `Defragmenter.Defragmenter.PassFrameWithIpv6PacketFragment` | microc/src/6lowpan/uc6LoWPANDefragmentation.c:721-897 | The heap operation refines the Pass step, returned bytes included |
| `Defragmenter.Defragmenter.UnlockPacket` | microc/src/6lowpan/uc6LoWPANDefragmentation.c:989-1001 | Refines the Unlock step; fails exactly when the packet is not locked |
| `Defragmenter.Defragmenter.PeriodicTimeout` | microc/src/6lowpan/uc6LoWPANDefragmentation.c:1005-1048 | Refines the Timeout step; refused exactly when a packet is locked |
| `Defragmenter.Defragmenter.TerminateAllReassemblies` | microc/src/6lowpan/uc6LoWPANDefragmentation.c:1052-1072 | Refines the Terminate step; refused exactly when a packet is locked |
| `FrameHeaders.RoundTrip` | microc/src/6lowpan/uc6LoWPANHeaderManipulation.c:146-628 | Whatever headers are packed, followed by an IPv6 or IPHC dispatch or a nonzero fragment offset, are unpacked to the same bitmap, fields, and offset |
| `FrameLayout.ParseIff` | microc/src/6lowpan/uc6LoWPANHeaderManipulation.c:146-406 | Unpacking yields some headers exactly when they lie at the start of the payload, byte by byte: a mesh header, a broadcast header, a fragmentation header, each optional and in this order, then an IPv6 or IPHC dispatch or the data of a later fragment |
| `FrameLayout.LayoutIsUnique` | microc/src/6lowpan/uc6LoWPANHeaderManipulation.c:146-406 | A payload has one reading at most |
| `FrameLayout.PackedLayout` | microc/src/6lowpan/uc6LoWPANHeaderManipulation.c:410-628 | What packing writes is laid out so |
| `FrameLayout.ParseFragIff` | microc/src/6lowpan/uc6LoWPANHeaderManipulation.c:360-406 | The fragmentation header of section 5.3 of RFC 4944, byte by byte: the size in the low bits of the dispatch and the next byte, the tag with its high byte first, the offset in units of 8 |
| `FrameLayout.FragBytesAt` | microc/src/6lowpan/uc6LoWPANHeaderManipulation.c:590-628 | Packing lays a fragmentation header out so, and fails exactly for offsets that are no multiples of 8 |
| `FrameLayout.ParseMeshIff` | microc/src/6lowpan/uc6LoWPANHeaderManipulation.c:264-338 | The mesh header of section 5.2 of RFC 4944, byte by byte: the address bits, the hop limit in the dispatch or behind it, then the originator, then the final destination |
| `FrameLayout.MeshBytesAt` | microc/src/6lowpan/uc6LoWPANHeaderManipulation.c:479-566 | Packing lays a mesh header out so, with the extra byte exactly for hop limits from 15 on |
| `FrameHeaders.Parse` | microc/src/6lowpan/uc6LoWPANHeaderManipulation.c:146-260 | Unpacking ends within the payload on every input |
| `FrameHeaders.MeshDispatchBits` | microc/src/6lowpan/uc6LoWPANHeaderManipulation.c:479-566 | The mesh dispatch byte as coded: a set address bit means an extended address; hop limits from 15 on take an extra byte |
| `FrameHeaders.FragDispatchBits` | microc/src/6lowpan/uc6LoWPANHeaderManipulation.c:590-628 | The dispatch tells first from subsequent fragments, and the 11 size bits come back |
| `FramePacking.PackMeshHdr` | microc/src/6lowpan/uc6LoWPANHeaderManipulation.c:479-566 | A size of zero exactly when an address is missing or the header does not fit; otherwise dispatch, hop limit, originator, and final destination lie at the offset, and nothing else changed |
| `FramePacking.PackBc0Hdr` | microc/src/6lowpan/uc6LoWPANHeaderManipulation.c:570-586 | The same for the broadcast header |
| `FramePacking.PackFragxHdr` | microc/src/6lowpan/uc6LoWPANHeaderManipulation.c:590-628 | The same for the fragmentation header: size, tag with the high byte first, and offset divided by 8 lie at the offset |
| `FramePacking.UnpackMeshHdr` | microc/src/6lowpan/uc6LoWPANHeaderManipulation.c:264-338 | Of a mesh dispatch, exactly the header that lies there, byte by byte, or an error when none does |
| `FramePacking.UnpackFragxHdr` | microc/src/6lowpan/uc6LoWPANHeaderManipulation.c:360-406 | Of a fragmentation dispatch, exactly the header that lies there, byte by byte, or an error when none does |
| `FramePacking.LowpanHeaders.AddMeshHeader` | microc/include/6lowpan/detail/uc6LoWPANHeaderManipulationImpl.h:80-91 | Sets the bit and the fields, and nothing else |
| `FramePacking.LowpanHeaders.AddBc0Header` | microc/include/6lowpan/detail/uc6LoWPANHeaderManipulationImpl.h:95-102 | Sets the bit and the field, and nothing else |
| `FramePacking.LowpanHeaders.AddFragHeader` | microc/include/6lowpan/detail/uc6LoWPANHeaderManipulationImpl.h:106-117 | Sets the bit and the fields, and nothing else |
| `FramePacking.LowpanHeaders.Pack` | microc/src/6lowpan/uc6LoWPANHeaderManipulation.c:410-475 | Succeeds exactly when the headers have a serialized form that fits the buffer, and writes that |
| `FramePacking.LowpanHeaders.Unpack` | microc/src/6lowpan/uc6LoWPANHeaderManipulation.c:146-260 | Succeeds exactly when headers lie at the start of the payload, and yields those; on an error bitmap and offset are zero |
| `Fragmenter.SliceLength` | microc/src/6lowpan/uc6LoWPANFragmentation.c:183-197 | All that is left if there is room to spare, else the largest multiple of 8 for which there is room: less than eight bytes of room remain |
| `Fragmenter.NextFragment` | microc/src/6lowpan/uc6LoWPANFragmentation.c:346-393 | A fragment is not empty, within what is left, and within its frame |
| `Fragmenter.Token.Start` | microc/src/6lowpan/uc6LoWPANFragmentation.c:300-306 | A token for a packet starts at offset 0, without headers, with the tag |
| `Fragmenter.PackFirstFragmentWithRawIpv6Header` | microc/src/6lowpan/uc6LoWPANFragmentation.c:36-110 | Writes the dispatch and the first slice; errors move nothing |
| `Fragmenter.PackFirstFragment` | microc/src/6lowpan/uc6LoWPANFragmentation.c:129-146 | Without compression as above; with it an error |
| `Fragmenter.PackSubsequentFragment` | microc/src/6lowpan/uc6LoWPANFragmentation.c:164-233 | Writes the slice at the offset, from header and payload; errors move nothing |
| `Fragmenter.CopyBytes` | microc/src/6lowpan/uc6LoWPANFragmentation.c:198-225 | The bytes of a slice across the border between the header and the vector |
| `Fragmenter.Fragmenter.constructor` | microc/src/6lowpan/uc6LoWPANFragmentation.c:237-268 | All tokens are free |
| `Fragmenter.Fragmenter.StartFragmentingIpv6Packet` | microc/src/6lowpan/uc6LoWPANFragmentation.c:272-309 | Accepts exactly when a token is free, the packet is at most 1280 bytes long, and the payload is all there; tags count up in 16 bits |
| `Fragmenter.Fragmenter.ProvideAdditional6LoWPANHeadersForIpv6Packet` | microc/src/6lowpan/uc6LoWPANFragmentation.c:313-342 | Sets the headers of a token |
| `Fragmenter.Fragmenter.RequestNextFragmentOfIpv6Packet` | microc/src/6lowpan/uc6LoWPANFragmentation.c:346-393 | The frame holds the next fragment and the offset moves past it, or the status says why not and the offset stays; the mesh and broadcast headers stay either way |
| `Fragmenter.RequestFragment` | microc/src/6lowpan/uc6LoWPANFragmentation.c:346-393 | The same for any flags |
| `Fragmenter.Fragmenter.FinishFragmentingIpv6Packet` | microc/src/6lowpan/uc6LoWPANFragmentation.c:397-431 | Gives back the token's packet and frees the token, exactly when it is current |
| `LinkQuality.QualityStaysInBounds` | microc/src/6lowpan/uc6LoWPANMeshManipulation.c:300-379 | Over every run of reports, the ETX is infinite or from 16 to 1020, and no 8- or 16-bit sum or product wraps, if at most 224 acks are pending in the initial phase |
| `LinkQuality.PendingAckBoundIsTight` | microc/src/6lowpan/uc6LoWPANMeshManipulation.c:300-379 | No run from a new link with at most n acks pending in its initial phase wraps a counter, exactly for n up to 224 |
| `LinkQuality.WrappingRunWraps` | microc/src/6lowpan/uc6LoWPANMeshManipulation.c:344-379 | A run from a new link with 225 pending acks in which the 8-bit number of unicasts wraps to zero |
| `LinkQuality.IntegrateEtx` | microc/src/6lowpan/uc6LoWPANMeshManipulation.c:101-116 | An ETX moves by an eighth of its distance from the sample, rounded down |
| `LinkQuality.IntegratePrr` | microc/src/6lowpan/uc6LoWPANMeshManipulation.c:82-97 | A reception rate moves by three sixteenths of its distance from the sample, rounded down |
| `LinkQuality.EtxConverges` | microc/src/6lowpan/uc6LoWPANMeshManipulation.c:101-116 | After n equal samples the distance from them is (7/8)^n of what it was, or up to seven 16ths more |
| `LinkQuality.PrrConverges` | microc/src/6lowpan/uc6LoWPANMeshManipulation.c:82-97 | Likewise for a rate, with 13/16 and up to five 255ths |
| `LinkQuality.AckedRunConverges` | microc/src/6lowpan/uc6LoWPANMeshManipulation.c:777-804 | On a link with an estimate, 8 n acked unicasts are n samples of one transmission: what they leave of the distance of the ETX from that, and that nothing else changes |
| `LinkQuality.BeaconRunConverges` | microc/src/6lowpan/uc6LoWPANMeshManipulation.c:734-773 | 2 n beacons of which none was missed are n samples of the full rate: what they leave of the distance from that |
| `LinkQuality.UnackedRunLoses` | microc/src/6lowpan/uc6LoWPANMeshManipulation.c:777-804 | A link is lost by unicasts exactly when 31 in a row are not acked |
| `LinkQuality.UnicastCounts` | microc/src/6lowpan/uc6LoWPANMeshManipulation.c:344-379 | Any other unicast is counted; from eight on the ETX moves towards the unicasts per ack, and the counters start again unless there was no ack |
| `LinkQuality.UnicastLoses` | microc/src/6lowpan/uc6LoWPANMeshManipulation.c:777-804 | The 31st unicast without an ack makes the ETX infinite |
| `LinkQuality.BeaconEstimated` | microc/src/6lowpan/uc6LoWPANMeshManipulation.c:300-334 | From two beacons on, received or missed, the rate moves towards the fraction received and the ETX towards its inverse; the first estimate starts from two transmissions |
| `LinkQuality.BeaconAfterGap` | microc/src/6lowpan/uc6LoWPANMeshManipulation.c:734-773 | A beacon after more than ten missed ones starts the link anew |
| `LinkQuality.BeaconCounted` | microc/src/6lowpan/uc6LoWPANMeshManipulation.c:734-773 | A first beacon, none missed, is counted; a lost link is in its initial phase again |
| `LinkQuality.EtxIntegratedBetween` | microc/src/6lowpan/uc6LoWPANMeshManipulation.c:101-116 | An integrated ETX lies between its two inputs |
| `LinkQuality.PrrIntegratedBetween` | microc/src/6lowpan/uc6LoWPANMeshManipulation.c:82-97 | An integrated PRR lies between its two inputs |
| `LinkQuality.PrrToEtxBounds` | microc/include/base/detail/ucEtxImpl.h:20-34 | ETX values of PRRs from 4 on |
| `LinkQuality.PrrSampleBounds` | microc/src/6lowpan/uc6LoWPANMeshManipulation.c:67-78 | PRR samples from beacons |
| `LinkQuality.EtxSampleBounds` | microc/src/6lowpan/uc6LoWPANMeshManipulation.c:344-379 | ETX samples from unicasts |
| `LinkQuality.BeaconKeepsOk` | microc/src/6lowpan/uc6LoWPANMeshManipulation.c:734-773 | A beacon, with any sequence number, keeps the bounds |
| `LinkQuality.UnicastKeepsOk` | microc/src/6lowpan/uc6LoWPANMeshManipulation.c:777-804 | An allowed unicast keeps the bounds |
| `LinkQuality.RecomputedOk` | microc/src/6lowpan/uc6LoWPANMeshManipulation.c:300-334 | Recomputation from beacons keeps the bounds |
| `LinkQuality.RecomputedFromUnicastsOk` | microc/src/6lowpan/uc6LoWPANMeshManipulation.c:344-379 | Recomputation from unicasts keeps the bounds |
| `LinkQuality.NewLinkIsOk` | microc/src/6lowpan/uc6LoWPANMeshManipulation.c:279-290 | A new link is in bounds |
| `LinkModel.FindOrCreateBinds` | microc/src/6lowpan/uc6LoWPANMeshManipulation.c:605-655 | Makes the address resolvable and changes at most one other binding: that of the first removable link of maximal ETX; exactly when it fails |
| `LinkModel.FailureLeavesTableIff` | microc/include/6lowpan/uc6LoWPANMeshManipulation.h:49-62 | The documented promise that a failure leaves the table unmodified holds exactly unless the address is none, the table is full, and a link can be evicted |
| `LinkModel.FailureCanEvict` | microc/src/6lowpan/uc6LoWPANMeshManipulation.c:605-655 | A table for which it does not hold |
| `LinkModel.CreateBinds` | microc/src/6lowpan/uc6LoWPANMeshManipulation.c:400-454 | A created link is the only change, and is found |
| `LinkModel.RemoveWellFormed` | microc/src/6lowpan/uc6LoWPANMeshManipulation.c:659-681 | Removing keeps free list and addresses in order |
| `LinkModel.RemoveUnbinds` | microc/src/6lowpan/uc6LoWPANMeshManipulation.c:659-681 | Removing unbinds that address and no other |
| `LinkModel.WorstIsMaximal` | microc/src/6lowpan/uc6LoWPANMeshManipulation.c:462-497 | The link chosen for eviction has maximal ETX among the removable ones, and the smallest index of these |
| `LinkModel.Worst` | microc/src/6lowpan/uc6LoWPANMeshManipulation.c:462-497 | It is neither initial nor pinned |
| `LinkModel.WindowFitsIff` | microc/src/6lowpan/uc6LoWPANMeshManipulation.c:808-849 | The mark sweep stays in the pool exactly for windows that do not wrap in 8 bits, and its result says whether links follow |
| `LinkModel.SweepInPoolIff` | microc/src/6lowpan/uc6LoWPANMeshManipulation.c:874-888 | The removal sweep stays in the pool exactly when the pool does not end before its window, or as many links as may be removed are removed before it ends |
| `LinkModel.SweepRemoves` | microc/src/6lowpan/uc6LoWPANMeshManipulation.c:853-890 | A sweep removes the first marked links of its window, as many as it may, and nothing else |
| `LinkModel.StepKeepsOk` | microc/src/6lowpan/uc6LoWPANMeshManipulation.c:400-890 | Every operation keeps table and estimates in order, and the marks exactly what the history of each link says |
| `LinkModel.RunKeepsOk` | microc/src/6lowpan/uc6LoWPANMeshManipulation.c:400-890 | So does every run |
| `LinkModel.ResetOk` | microc/src/6lowpan/uc6LoWPANMeshManipulation.c:501-545 | The table after a reset |
| `LinkModel.ReclaimIsSafe` | microc/src/6lowpan/uc6LoWPANMeshManipulation.c:734-890 | After any run, a sweep removes at most maxRemoved links, none pinned or initial, and each visited by two marks since its last beacon or acked unicast, by one if there never was any |
| `LinkModel.ReclaimsIff` | microc/src/6lowpan/uc6LoWPANMeshManipulation.c:734-890 | After any run, a link is marked exactly when two marks visited it since its last beacon or acked unicast, or one if there never was any; a sweep then removes exactly the first maxRemoved of those in its window that are neither pinned nor initial, all of them when its budget is not less than its window, and changes nothing else |
| `LinkModel.SweepReclaims` | microc/src/6lowpan/uc6LoWPANMeshManipulation.c:853-890 | The same for one sweep over a table whose marks are true to its history |
| `IndexChains.ChainPush` | microc/src/6lowpan/uc6LoWPANMeshManipulation.c:400-454 | Linking in front keeps a chain acyclic |
| `IndexChains.ChainPop` | microc/src/6lowpan/uc6LoWPANMeshManipulation.c:400-454 | Taking the first off keeps the rest a chain |
| `IndexChains.ChainUnlink` | microc/src/6lowpan/uc6LoWPANMeshManipulation.c:174-270 | Unlinking from the middle removes exactly that index |
| `IndexChains.Hash` | microc/src/6lowpan/uc6LoWPANMeshManipulation.c:127-164 | The hash loops compute the byte sum in 8 bits |
| `IndexChains.ByteSumIsSum` | microc/src/6lowpan/uc6LoWPANMeshManipulation.c:127-164 | Summing in 8 bits yields the sum of the bytes modulo 256 |
| `LinkTable.LinkTable.EveryLinkInOnePlace` | microc/src/6lowpan/uc6LoWPANMeshManipulation.c:174-545 | In every valid state each index is exactly once on the free list, or exactly once on the chain of its own address's bucket, although free list and chains share a field |
| `LinkTable.LinkTable.Reset` | microc/src/6lowpan/uc6LoWPANMeshManipulation.c:501-545 | Establishes the invariant; every link is free |
| `LinkTable.LinkTable.LookupLink` | microc/src/6lowpan/uc6LoWPANMeshManipulation.c:549-601 | The hash lookup finds what a linear scan finds |
| `LinkTable.LinkTable.LookupShrt` | microc/src/6lowpan/uc6LoWPANMeshManipulation.c:558-576 | The lookup of short addresses |
| `LinkTable.LinkTable.LookupExt` | microc/src/6lowpan/uc6LoWPANMeshManipulation.c:577-595 | The lookup of extended addresses |
| `LinkTable.LookupByChain` | microc/src/6lowpan/uc6LoWPANMeshManipulation.c:549-601 | A bucket search agrees with the scan |
| `LinkTable.LinkTable.RemoveFromHashTableForExtAddr` | microc/src/6lowpan/uc6LoWPANMeshManipulation.c:174-217 | Unlinks the link from its bucket; the free list survives the shared field |
| `LinkTable.LinkTable.RemoveFromHashTableForShortAddr` | microc/src/6lowpan/uc6LoWPANMeshManipulation.c:227-270 | Unlinks the link from its bucket |
| `LinkTable.LinkTable.RemoveExistingLink` | microc/src/6lowpan/uc6LoWPANMeshManipulation.c:659-681 | Refines Remove |
| `LinkTable.LinkTable.TryToEvictWorstLink` | microc/src/6lowpan/uc6LoWPANMeshManipulation.c:462-497 | Refines Evict |
| `LinkTable.LinkTable.AllocateLinkForShortAddr` | microc/src/6lowpan/uc6LoWPANMeshManipulation.c:400-421 | Refines Create |
| `LinkTable.LinkTable.AllocateLinkForExtAddr` | microc/src/6lowpan/uc6LoWPANMeshManipulation.c:433-454 | Refines Create |
| `LinkTable.LinkTable.FindExistingOrCreateNewLink` | microc/src/6lowpan/uc6LoWPANMeshManipulation.c:605-655 | Refines FindOrCreate |
| `LinkTable.LinkTable.ReportBroadcastReceptionForExistingLink` | microc/src/6lowpan/uc6LoWPANMeshManipulation.c:734-773 | The estimate after the beacon; nothing else changes |
| `LinkTable.LinkTable.ReportUnicastCompletionForExistingLink` | microc/src/6lowpan/uc6LoWPANMeshManipulation.c:777-804 | The estimate after the unicast; nothing else changes |
| `LinkTable.LinkTable.MarkUnrefreshedLinksForRemoval` | microc/src/6lowpan/uc6LoWPANMeshManipulation.c:808-849 | Refines Mark over the window, by which exactly the stale links get marked (ReclaimsIff) |
| `LinkTable.LinkTable.RemoveLinksMarkedForRemoval` | microc/src/6lowpan/uc6LoWPANMeshManipulation.c:853-890 | Refines Sweep over the window |
| `LinkTable.LinkNode.Become` | microc/src/6lowpan/uc6LoWPANMeshManipulation.c:400-454 | The flags, the one address, and the reset quality of a created link |
| `LinkTable.LinkNode.RecomputeBeaconBasedLinkQualityIfNecessary` | microc/src/6lowpan/uc6LoWPANMeshManipulation.c:300-334 | The specified estimate, step by step, whose numbers are those of BeaconEstimated |
| `LinkTable.LinkNode.RecomputeAckBasedLinkQualityIfNecessary` | microc/src/6lowpan/uc6LoWPANMeshManipulation.c:344-379 | The specified estimate, step by step, whose numbers are those of UnicastCounts |
| `LinkTable.LinkNode.SampleOf` | microc/src/6lowpan/uc6LoWPANMeshManipulation.c:360-373 | The sample in 16 bits |
| `LinkTable.LinkNode.ReportBroadcastReception` | microc/src/6lowpan/uc6LoWPANMeshManipulation.c:734-773 | Estimate and flags after a beacon |
| `LinkTable.LinkNode.ReportUnicastCompletion` | microc/src/6lowpan/uc6LoWPANMeshManipulation.c:777-804 | Estimate and flags after a unicast |
| `Chunks.NormalUnique` | microc/include/base/detail/ucIoVecImpl.h:233-317 | A valid iterator is determined by its position in the bytes |
| `Chunks.NormalAtEnd` | microc/include/base/detail/ucIoVecImpl.h:233-317 | An iterator is invalid exactly when it is past the last byte |
| `IoVec.GetTotalLength` | microc/include/base/detail/ucIoVecImpl.h:31-42 | The length of the flattened bytes |
| `IoVec.ShortRead` | microc/include/base/detail/ucIoVecImpl.h:137-176 | Reads what the same read on the flattened bytes does, wherever the borders are |
| `IoVec.ShortWrite` | microc/include/base/detail/ucIoVecImpl.h:94-133 | Writes as the same write on the flattened bytes does, and nothing else |
| `IoVec.ShortCompare` | microc/include/base/detail/ucIoVecImpl.h:46-90 | Compares as on the flattened bytes: the first difference, or -1 when the vector is too short |
| `IoVec.ShortMemCmp` | microc/include/base/detail/ucStringImpl.h:89-104 | The first difference of two buffers, in 8 bits |
| `IoVec.SignIsOrderIff` | microc/include/base/detail/ucStringImpl.h:89-104 | The sign of the 8-bit difference tells which byte is smaller exactly when they are less than half the range apart, or when the first is half the range below the second |
| `IoVec.Order` | microc/src/base/ucIoVec.c:14-100 | The result is zero exactly for the same bytes |
| `IoVec.Compare` | microc/src/base/ucIoVec.c:14-100 | Compares stretches of two vectors as on the flattened bytes, whatever their borders |
| `IoVec.CompareFrom` | microc/src/base/ucIoVec.c:44-100 | The comparing loop from two places on |
| `IoVec.CompareChunks` | microc/src/base/ucIoVec.c:53-90 | The bytes of two chunks |
| `IoVec.StepOver` | microc/src/base/ucIoVec.c:65-77 | Going on within a chunk or to the next |
| `IoVec.IovIter.MoveForward` | microc/include/base/detail/ucIoVecImpl.h:233-274 | Moves by the smaller of the request and what is left, to a normalized place |
| `IoVec.IovIter.MoveBackward` | microc/include/base/detail/ucIoVecImpl.h:278-317 | Moves back by the request, or past the beginning, where the iterator is invalid |
| `IoVec.MovingBackRestores` | microc/include/base/detail/ucIoVecImpl.h:233-317 | Moving back after a move forward that stays valid restores the iterator |
| `IoVec.IovIter.ReadAndMoveForward` | microc/include/base/detail/ucIoVecImpl.h:321-379 | Reads as on the flattened bytes and moves past them |
| `IoVec.IovIter.WriteAndMoveForward` | microc/include/base/detail/ucIoVecImpl.h:383-441 | Writes as on the flattened bytes and moves past them |
| `IoVec.IovIter.SerializeUInt8AndMoveForward` | microc/include/base/detail/ucIoVecImpl.h:445-469 | Writes a byte if there is room, and reports how much is lacking |
| `IoVec.IovIter.SerializeUInt16AndMoveForward` | microc/src/base/ucIoVec.c:167-209 | Writes two bytes in network order across chunk borders; one byte short, the high byte is written but the iterator stays |
| `IoVec.CopyBytesAndMoveForward` | microc/src/base/ucIoVec.c:104-163 | Copies the smallest of the request, what the source has, and what the destination takes; both iterators move past it |
| `Checksum.OnesSumIsFolded` | microc/include/ipv6/detail/ucIpv6ChecksumImpl.h:53-130 | The one's-complement sum of RFC 1071 is the folded ordinary sum, odd lengths included |
| `Checksum.FoldStep` | microc/include/ipv6/detail/ucIpv6ChecksumImpl.h:122-127 | A step of the folding loop keeps the folded value |
| `Checksum.TruncatedFoldsIff` | microc/include/ipv6/detail/ucIpv6ChecksumImpl.h:31-105 | When accumulating in 32 bits loses nothing that matters, exactly |
| `Checksum.TotalFits` | microc/include/ipv6/detail/ucIpv6ChecksumImpl.h:31-105 | Up to 131074 bytes the sum fits 32 bits |
| `Checksum.Computation.constructor` | microc/include/ipv6/detail/ucIpv6ChecksumImpl.h:20-30 | Nothing fed |
| `Checksum.Computation.ProvideWithOneByte` | microc/include/ipv6/detail/ucIpv6ChecksumImpl.h:31-50 | One byte more is fed, with the parity carried |
| `Checksum.Computation.ProvideWithByteArray` | microc/include/ipv6/detail/ucIpv6ChecksumImpl.h:53-105 | The array is fed, however the parity stands at its ends |
| `Checksum.Computation.AddPairs` | microc/include/ipv6/detail/ucIpv6ChecksumImpl.h:88-97 | The loop over the pairs of bytes |
| `Checksum.Computation.ProvideWithIovAndAdvanceIovIterator` | microc/src/ipv6/ucIpv6Checksum.c:15-88 | Exactly the next bytes of the vector are fed, wherever its borders are, and the iterator moves past them |
| `Checksum.Computation.FeedOn` | microc/src/ipv6/ucIpv6Checksum.c:45-88 | The loop over the following chunks |
| `Checksum.Computation.ProvideIpv6PseudoHeader` | microc/src/ipv6/ucIpv6Checksum.c:92-153 | What is fed, and that with anything before and after it the sum is that of the full pseudo header of section 8.1 of RFC 2460, although words of zeros are skipped |
| `Checksum.ZerosSkipped` | microc/src/ipv6/ucIpv6Checksum.c:92-153 | The short and the full pseudo header have the same sum, between whatever is fed before and after |
| `Checksum.PseudoHeaderChecksum` | microc/src/ipv6/ucIpv6Checksum.c:92-153 | So do their checksums with the data behind them |
| `Checksum.ChecksumForOutPacket` | nesc/whip6/lib/udp/UDPRawSocketManagerMainPrv.nc:668-735 | An outgoing datagram gets the Internet checksum of its full pseudo header and payload, fed in blocks from a vector, with zero sent as all ones; it is given up exactly when the vector is too short |
| `Checksum.ReceiverAcceptsIff` | microc/include/ipv6/detail/ucIpv6ChecksumImpl.h:109-130 | With a checksum in place of two zeros at an even offset the one's-complement sum is all ones exactly when it is the checksum of the bytes, or all ones for a checksum of zero |
| `Checksum.TotalWithWord` | microc/include/ipv6/detail/ucIpv6ChecksumImpl.h:53-105 | A word in place of two zeros adds to the sum |
| `Checksum.PseudoHeaderLayout` | microc/src/ipv6/ucIpv6Checksum.c:92-153 | The two addresses, the length in four bytes, three zeros, and the next header of section 8.1 of RFC 2460 are where they belong |
| `Checksum.ExampleSum` | microc/include/ipv6/detail/ucIpv6ChecksumImpl.h:53-130 | The example of section 3 of RFC 1071 |
| `Checksum.FeedInBlocks` | nesc/whip6/lib/udp/UDPRawSocketManagerMainPrv.nc:696-735 | The blocks are the bytes of the payload, each once |
| `Checksum.ZerosAddNothing` | microc/src/ipv6/ucIpv6Checksum.c:92-153 | Two zeros in a row add nothing, at either parity |
| `Checksum.Computation.Finalize` | microc/include/ipv6/detail/ucIpv6ChecksumImpl.h:109-130 | The Internet checksum of all bytes fed, in whatever pieces, up to 131074 bytes; beyond that exactly under the stated condition |
| `Ipv6AddressText.OutIter.constructor` | microc/src/ipv6/ucIpv6AddressHumanReadableIo.c:49-112 | What is to be printed is the canonical text of section 4 of RFC 5952 |
| `Ipv6AddressText.OutIter.ContinueWriting` | microc/src/ipv6/ucIpv6AddressHumanReadableIo.c:116-172 | The next character of the text; after its end the end of string, forever |
| `Ipv6AddressText.OutIter.WriteDigit` | microc/src/ipv6/ucIpv6AddressHumanReadableIo.c:125-151 | A digit, and the action after it |
| `Ipv6AddressText.NextDigit` | microc/src/ipv6/ucIpv6AddressHumanReadableIo.c:126-136 | Leading zeros of a group are skipped, up to its last digit |
| `Ipv6AddressText.LongestZeros` | microc/src/ipv6/ucIpv6AddressHumanReadableIo.c:58-94 | The first longest run of at least two zero groups, or none |
| `Ipv6AddressText.CanonicalIsUnique` | microc/src/ipv6/ucIpv6AddressHumanReadableIo.c:49-172 | An address has one canonical text |
| `Ipv6AddressText.CanonicalParses` | microc/src/ipv6/ucIpv6AddressHumanReadableIo.c:49-172 | A parser recovers the address from the text |
| `Ipv6AddressText.CanonicalDetermines` | microc/src/ipv6/ucIpv6AddressHumanReadableIo.c:49-172 | Two addresses never have the same text |
| `Ipv6AddressText.CanonicalFits` | microc/src/ipv6/ucIpv6AddressHumanReadableIo.c:49-172 | A text has from 2 to 39 characters |
| `Ipv6AddressText.Rfc5952Examples` | microc/src/ipv6/ucIpv6AddressHumanReadableIo.c:49-172 | Of two runs of zeros the longer one is left out, and of two of the same length the first, as in the examples of section 4.2.3 of RFC 5952 |
| `Ipv6AddressText.HexTextIsDigits` | microc/src/ipv6/ucIpv6AddressHumanReadableIo.c:33-46 | The shortest hexadecimal form of a group is its digits without leading zeros |
| `Ipv6AddressText.NumberStep` | microc/src/ipv6/ucIpv6AddressHumanReadableIo.c:125-151 | What is left after a character of a number |
| `SmakeTargets.SMake.Run` | nesc/whip6/smake/smake_impl.py:142-214 | Ends well exactly when no name is ambiguous and nothing reachable is undefined, fails, or lies on a loop; then exactly the reachable targets were completed, parts first, and each reachable build step ran once |
| `SmakeTargets.SMake.Make` | nesc/whip6/smake/smake_impl.py:160-211 | Terminates on every graph; a normal return completes the target and what it reaches, an exit means that the root target cannot be built |
| `SmakeTargets.SMake.Complete` | nesc/whip6/smake/smake_impl.py:209-210 | Popping the history and adding to the ready set keeps the order of completion |
| `SmakeTargets.InOrderIsBuildable` | nesc/whip6/smake/smake_impl.py:160-211 | What was completed in order needs nothing that is missing, failing, or on a loop |
| `SmakeTargets.LoopFound` | nesc/whip6/smake/smake_impl.py:164-169 | A target found in the history lies on a loop |
| `SmakeTargets.StepsRunOnce` | nesc/whip6/smake/smake_impl.py:176-204 | No build step runs twice |
| `SmakeTargets.StepsAreDirect` | nesc/whip6/smake/smake_impl.py:173-204 | The steps run are those of completed direct targets |
| `StagingQueue.Queue.constructor` | microc/src/6lowpan/uc6LoWPANPacketForwarding.c:16-37 | All elements are in the pool |
| `StagingQueue.Queue.EnqueuePacket` | microc/src/6lowpan/uc6LoWPANPacketForwarding.c:41-71 | The first free element goes to the end of the staged ones with the packet; nothing happens exactly when the pool is empty |
| `StagingQueue.Queue.MoveToStaged` | microc/src/6lowpan/uc6LoWPANPacketForwarding.c:50-66 | The relinking of it |
| `StagingQueue.Queue.FindStagedPacket` | microc/src/6lowpan/uc6LoWPANPacketForwarding.c:75-100 | The first staged element of the packet and the one before it |
| `StagingQueue.Queue.FindCompletedPacket` | microc/src/6lowpan/uc6LoWPANPacketForwarding.c:138-163 | The same among the completed ones |
| `StagingQueue.FindOn` | microc/src/6lowpan/uc6LoWPANPacketForwarding.c:84-99 | The searching loop |
| `StagingQueue.Queue.MarkPacketAsCompleted` | microc/src/6lowpan/uc6LoWPANPacketForwarding.c:104-134 | Exactly that element leaves the staged ones and ends the completed ones |
| `StagingQueue.Queue.RemoveFromStaged` | microc/src/6lowpan/uc6LoWPANPacketForwarding.c:110-123 | Unlinking with the predecessor, the last pointer kept right |
| `StagingQueue.Queue.AddToCompleted` | microc/src/6lowpan/uc6LoWPANPacketForwarding.c:124-133 | Linking at the end |
| `StagingQueue.Queue.RemoveFirstCompletedPacket` | microc/src/6lowpan/uc6LoWPANPacketForwarding.c:167-182 | The first completed element returns to the pool |
| `StagingQueue.Queue.OnOneList` | microc/src/6lowpan/uc6LoWPANPacketForwarding.c:16-182 | In every valid state each element is on exactly one of the three lists, once |
| `StagingQueue.Queue.AddToStaged` | microc/src/6lowpan/uc6LoWPANPacketForwarding.c:55-63 | Linking at the end |
| `StagingQueue.Queue.UnlinkFirstCompleted` | microc/src/6lowpan/uc6LoWPANPacketForwarding.c:172-177 | Unlinking the first, the last pointer kept right |
| `StagingQueue.FillPool` | microc/src/6lowpan/uc6LoWPANPacketForwarding.c:30-36 | The pool holds each element of the array once |
| `ChainAllocation.AllocateChain` | microc/src/base/ucIoVecAllocation.c:16-64 | A doubly linked chain of exactly the requested length with the right last chunk, exactly when the allocator delivers; otherwise nothing, with every chunk given back |
| `ChainAllocation.Allocator.AllocNewIoVecChunk` | microc/include/external/ucExternalBaseAllocators.h:22-38 | What is promised of the external allocator: nothing, or a new chunk of 1 to the requested number of bytes, whose links mean nothing |
| `ChainAllocation.Allocator.FreeExistingIoVecChunk` | microc/include/external/ucExternalBaseAllocators.h:40-47 | A freed chunk is no longer allocated, and its links mean nothing |
| `ChainAllocation.Link` | microc/src/base/ucIoVecAllocation.c:35-44 | A chunk linked behind the last one both ways |
| `ChainAllocation.Close` | microc/src/base/ucIoVecAllocation.c:47-50 | The last chunk ends the chain |
| `ChainAllocation.FreeChain` | microc/src/base/ucIoVecAllocation.c:68-80 | Frees exactly the chunks of the chain, reading no chunk after it was freed |

## Left out

- External allocators: the packet allocator of the reassembler is a parameter that delivers a packet or nothing, the chunk allocator a sequence of outcomes.
- Clocks, radios, and IEEE 802.15.4 frames: the time is a parameter, a frame is a payload buffer with a capacity and a length, and a frame's addresses come with it.
- Frames with an entire IPv6 packet (`uc6LoWPANDefragmentation.c`, 899-985): no state is involved beyond one copy.
- Header compression (IPHC): the fragmenter has a flag for it and an error for the flag, and that is modelled; the compression is not implemented.
- `size_t`: lengths and offsets of I/O vectors and of checksum pieces are unbounded.
- Element identity across reuse: an allocator that hands out a chunk it was given back is modelled by one that hands out a new chunk.
- The part of a link that belongs to the MAC layer, and walking over the links of a table.  The source reads the flag that pins a link and nowhere sets it; here it is an event of a run.
- In smake: reading specifications, finding boards, arguments, printing; a build step is a name with an outcome, and an exit of the process is a result.
- RPL, source routing, ICMPv6, UDP beyond its outgoing checksum, address classification, drivers, and board support: independent of the above.
- IoVec.CopyBytesAndMoveForward: requires that the two vectors share no memory; what copying a vector onto itself yields is not specified by the source.
- LinkTable.LinkTable.MarkUnrefreshedLinksForRemoval: requires that the window does not wrap in 8 bits; `WindowFitsIff` shows that otherwise the source leaves the pool.
- LinkTable.LinkTable.RemoveLinksMarkedForRemoval: requires that the sweep stays in the pool, which `SweepInPoolIff` states exactly.
- LinkTable.LinkTable.AllocateLinkForShortAddr: requires that no link has the address; the source calls this private function only after the lookup failed.
- LinkTable.LinkTable.AllocateLinkForExtAddr: requires the same.
- Defragmenter.Defragmenter.PassFrameWithIpv6PacketFragment: requires that the frame is one the packet was locked for, which the source takes for granted when it compares sizes at locking time only.
