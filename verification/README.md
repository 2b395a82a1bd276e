# Realm's active-message and memory layers, modelled and verified

This project models the hard state of Realm's active-message layer (`templates/activemsg.cc`,
`templates/activemsg.h`), of its memory layer (`templates/mem_impl.cc`) and of the packet format of
the MPI port (`macros_ammpi/am_mpi.def`), and proves what the code relies on.

| file | part of the system |
|---|---|
| `LmbFlow.dfy`, `Endpoint.dfy` | one endpoint: its queues, `push_messages`, the buffer (LMB) it fills, the counters it keeps for its peer |
| `LmbProtocol.dfy`, `LmbLayout.dfy` | two endpoints and an unordered network: data, flips and acks; where the buffers lie in the segments |
| `Reassembly.dfy`, `SourcePointer.dfy` | cutting long messages into chunks, putting them back together, and the source pointer that travels with them |
| `FreeList.dfy` | lists of free spans, shared by the source data pool and the memory allocator |
| `SourcePool.dfy`, `PoolQueues.dfy`, `Spill.dfy` | the source data pool, the endpoints whose messages wait for it, and the spill budget |
| `TodoRing.dfy`, `EndpointTokens.dfy`, `IncomingQueue.dfy` | the to-do rings of `EndpointManager` and `IncomingMessageManager` |
| `RemoteWrite.dfy`, `WriteFence.dfy` | splitting of remote writes, and the counting of writes and fences |
| `RangeAllocator.dfy`, `StripedMemory.dfy` | the free-block allocator and the block-cyclic global memory |
| `MpiPacket.dfy`, `Words.dfy` | packets of the MPI port |
| `Bytes.dfy` | byte strings, ranges, sums and small arithmetic facts |

Classes and methods follow the source's own updates in place and are tied, by their `ensures`, to
functions on values. Concurrent parts are transition systems: a step is one critical section, one
message delivery or one handler, and the lemmas speak of every run. A run is either a sequence of
states with the steps between them, or a term that lists its steps; in both cases every interleaving
and every order of delivery is covered.

`dafny verify dfyconfig.toml` checks everything. Inductions are written out: lemmas for which Dafny would
try one of its own carry `{:induction false}`.

## What the proofs say about the source

- The comment "then no other span will either" (`templates/activemsg.cc:642`) is not true in
  general. `RefusalIsRight` gives the exact condition: it fails exactly when the front request already
  fitted a free span before the release. `FrontMayFitAFreeSpan` is a run, from an empty pool, that
  takes that branch in such a state. What does hold, and what the design needs, is that nobody is
  stranded (`ServedBeforeWaiting`, `QuietMeansDrained`).
- The retry loop at `templates/activemsg.cc:633-640` never grants anything, because `alloc_srcptr`
  returns 0 while anybody waits. One release serves at most one request. The run of
  `FrontMayFitAFreeSpan` shows this, too.
- `lmb_r_bases` is computed with the peer's segment size (`templates/activemsg.cc:1220`). Both sides
  agree on an address exactly when the two segments have the same size (`BasesAgree`).
- A FREE message with a 2D or span source that has to wait never returns its spill bytes, because
  such sources report KEEP (`templates/activemsg.cc:289`, 2190). `RefundedOnce` and `AccountEven` say
  exactly which messages return them.
- A fence for no writes is never acknowledged by the handlers; `do_remote_fence` forbids it
  (`AckedExactlyOnce`).
- The global memory stays inside its segments exactly when the size per node is a multiple of the
  stride, or there is one node (`FitsIff`); the constructor does not check it.
- The MPI port sends lengths as signed 32-bit and long offsets as 32-bit numbers; the exact bounds are
  in `MediumLengthSurvivesIff` and `LongRoundTrip`. A message without arguments, of any of the three
  kinds, is fatal at the receiver (`ShortRoundTrip`, `MediumNeedsArguments`, `LongNeedsArguments`).

## Model

| member | source | states |
|---|---|---|
| LmbFlow.AlignUp | templates/activemsg.cc:1387-1389 | the next write offset is the least multiple of 128 that is not below the end of the message |
| LmbFlow.PushStep | templates/activemsg.cc:1269-1455 | one locked section of `push_messages`: keeps the writer's invariant; sends the front of the queues and nothing else, or a flip of at least one message; never flips an empty buffer; finds nothing to do exactly when both queues are empty |
| LmbFlow.PushAllFacts | templates/activemsg.cc:1252-1470 | a whole `push_messages` loses, repeats and reorders nothing, returns whether anything is left, respects the limit, stops early only at a blocked message, never flips twice in a row (so it ends), places the messages of one fill without overlap inside the buffer, also across calls, and its flip counts account for every placed message |
| Endpoint.ActiveMessageEndpoint.constructor | templates/activemsg.cc:1200-1223 | a new endpoint: empty queues, all buffers writable, counters zero, bases by the layout |
| Endpoint.ActiveMessageEndpoint.PushOnce | templates/activemsg.cc:1269-1455 | the in-place section of the loop refines `PushStep` |
| Endpoint.ActiveMessageEndpoint.PushMessages | templates/activemsg.cc:1252-1470 | the in-place loop ends and refines `PushAll`: same packets, same final state, same result |
| Endpoint.ActiveMessageEndpoint.EnqueueMessage | templates/activemsg.cc:1497-1511 | one message joins the end of the right queue; the result says whether both were empty |
| LmbFlow.ScanFinds | templates/activemsg.cc:1517-1527 | the scan over the read bases returns the first buffer that holds the pointer, or -1 when none does |
| Endpoint.ActiveMessageEndpoint.HandleLongMsgptr | templates/activemsg.cc:1515-1556 | refines `Scan` and `Count`, the functions the two-node system uses: counts the message for the buffer that holds the pointer, and queues one ack exactly when the counter comes to zero |
| Endpoint.ActiveMessageEndpoint.HandleFlipRequest | templates/activemsg.cc:1606-1634 | refines `Count`: subtracts the flip's count, and queues one ack exactly when the counter comes to zero |
| Endpoint.ActiveMessageEndpoint.HandleFlipAck | templates/activemsg.cc:1639-1655 | makes the buffer writable and changes nothing else |
| Endpoint.ActiveMessageEndpoint.AdjustLongMsgsize | templates/activemsg.cc:1558-1601 | the in-place map of observed messages follows `Adjust`, with pointer and size passed back |
| LmbProtocol.FindBufferFinds | templates/activemsg.cc:1519-1527 | the scan over the read buffers returns the one buffer that holds the pointer, or none when none does |
| LmbProtocol.StepSafe | templates/activemsg.cc:1515-1655 | every step of the two-node system, delivered in any order, keeps the invariant that ties counters, flips, acks and unhandled messages |
| LmbProtocol.RunSafe | templates/activemsg.cc:1252-1655 | the invariant holds in every state of every run |
| LmbProtocol.NothingUnhandledIsOverwritten | templates/activemsg.cc:1361-1455 | in every run a message is placed clear of every message that has not been handled |
| LmbProtocol.HandledOnceAndIntact | templates/activemsg.h:353-360 | in every run each message is handled at most once, its handler sees the bytes that were sent, and what was sent is either handled or still on the books |
| LmbProtocol.OneAckPerFlip | templates/activemsg.cc:1606-1655 | in every run each flip gets exactly one ack, which exists only after all messages of the buffer were handled; a writable buffer has no flip or ack outstanding |
| LmbProtocol.SpanReturnedOnce | templates/activemsg.h:499-522 | in every run the release of a pool span is posted at most once per message, only for messages sent with a span, and exactly when all chunks of the message have arrived |
| LmbProtocol.SpanReturnedByLastChunk | templates/activemsg.h:512-518 | the step that posts a release is the arrival of that message's last chunk |
| LmbProtocol.DeliveriesRunOut | templates/activemsg.cc:1252-1655 | whatever is delivered and in whatever order, deliveries end within a bound |
| LmbProtocol.QuietMeansDone | templates/activemsg.cc:1515-1655 | when nothing is left to deliver every message has been handled and every buffer is writable again |
| LmbProtocol.ProgressRunsOut | templates/activemsg.cc:1252-1655 | pushes and deliveries, interleaved in any way, end within a bound |
| LmbProtocol.QuietMeansSent | templates/activemsg.cc:1252-1470 | when neither a push nor a delivery is possible, everything sent has been handled, and the queues are empty or the front message waits for the pool or names a target no caller may use: nobody is left behind a buffer |
| LmbLayout.BasesAgree | templates/activemsg.cc:1219-1220 | the sender's write base and the receiver's read base of a buffer are the same address if and only if the segments have equal sizes |
| LmbLayout.LayoutDisjoint | templates/activemsg.cc:1219-1219 | buffers of different (sender, index) pairs do not overlap in a segment |
| LmbLayout.LayoutInTop | templates/activemsg.cc:2464-2466 | all buffers lie in the top nodes * num_lmbs * lmb_size bytes of the segment |
| LmbLayout.ScanRecovers | templates/activemsg.cc:1515-1528 | with equal segment sizes the receiver's scan over its read bases recovers the index of the buffer for any pointer inside it, and the link is an instance of the two-node system |
| Reassembly.SendLong | templates/activemsg.cc:1862-1886 | the loop sends exactly the chunks of the payload, highest first, each to its place at the target |
| Reassembly.ChunksJoinToPayload | templates/activemsg.cc:1862-1886 | the chunks joined in order are the payload, for any maximum request size |
| Reassembly.AdjustStep | templates/activemsg.cc:1558-1601 | whichever chunk of a message arrives next, the map entry follows the chunks seen so far; the call says ready exactly on the last one, with the original pointer and the total size, and the entry gone |
| Reassembly.ArriveKeepsInv | templates/activemsg.h:499-522 | an arrival, interleaved with chunks of any other messages, keeps the receiver's invariant: a message is ready exactly when all its chunks are in place, and its span is given back then, once, and not before |
| Reassembly.LaunchKeepsInv | templates/activemsg.cc:1860-1872 | a new message with an id of its own keeps the receiver's invariant |
| Reassembly.RetireKeepsInv | templates/activemsg.h:353-360 | running the handler of a ready message keeps the receiver's invariant |
| SourcePointer.PointerSurvives | templates/activemsg.cc:191-194 | a 64-bit pointer survives both splits into signed 32-bit arguments and both joins, so the span released is the span sent |
| SourcePool.RoundUp | templates/activemsg.cc:473-481 | the rounded size is a multiple of 64 not below the size and less than 64 above it |
| SourcePool.FitIsBest | templates/activemsg.cc:497-520 | the span chosen is large enough and no large-enough span is smaller |
| SourcePool.ReserveOk | templates/activemsg.cc:483-561 | a reservation keeps the pool tiled in 64-byte blocks; it grants exactly when nobody waits and some span is large enough, and otherwise queues the request |
| SourcePool.ReleaseOk | templates/activemsg.cc:563-646 | a release keeps the pool tiled, coalesced and never without a span in use while somebody waits; it serves the front request exactly when the merged span is large enough, with room for the rounded size |
| SourcePool.UnusedIsWhole | templates/activemsg.cc:566-613 | with nothing in use the free list is one span, the whole pool |
| SourcePool.RefusalIsRight | templates/activemsg.cc:641-645 | after a release that grants nothing, the front request fits a free span if and only if it fitted one before the release |
| SourcePool.FrontMayFitAFreeSpan | templates/activemsg.cc:633-645 | a run from an empty pool: a release serves one request although the next one fits as well, and the following release refuses that one while it still fits a free span |
| SourcePool.SrcDataPool.constructor | templates/activemsg.cc:438-452 | a new pool is one free span |
| SourcePool.SrcDataPool.AllocSrcptr | templates/activemsg.cc:483-545 | the in-place allocation refines `Alloc` |
| SourcePool.SrcDataPool.AddPending | templates/activemsg.cc:547-561 | the request joins the end of the queue |
| SourcePool.SrcDataPool.ReleaseSrcptr | templates/activemsg.cc:563-658 | the in-place release, with its loops over both neighbours, refines `Release` and reports who was served |
| PoolQueues.StepSafe | templates/activemsg.cc:2099-2203 | with any number of endpoints, reserving under the endpoint's mutex, queueing, sending and releasing keep the order and span invariants |
| PoolQueues.RunSafe | templates/activemsg.cc:1490-1509 | these hold in every state of every run |
| PoolQueues.ServedBeforeWaiting | templates/activemsg.cc:2096-2098 | in every queue the pool-using messages that were served come before those that wait, and the waiting ones stand in the order of the pool's queue |
| PoolQueues.SpanCanMove | templates/activemsg.cc:1319-1336 | a message that holds a span is never stuck: some step that finishes work is possible |
| PoolQueues.QuietMeansDrained | templates/activemsg.cc:2096-2098 | when no step is left, nobody waits, every queue is empty and the pool is one free span |
| PoolQueues.WorkRunsOut | templates/activemsg.cc:618-645 | work in hand ends within a bound, however it is interleaved; so every waiting message is served |
| Spill.SpillAccount.AllocSpillMemory | templates/activemsg.cc:660-683 | succeeds exactly when there is no limit, the thread is exempt or the bytes fit; total, per-type counter and both peaks move accordingly |
| Spill.SpillAccount.ReleaseSpillMemory | templates/activemsg.cc:722-735 | total and per-type counter go down together |
| Spill.RunSafe | templates/activemsg.cc:1476-1488 | in every run the total is the sum of what messages hold, and so is every per-type counter |
| Spill.RefundedOnce | templates/activemsg.cc:2128-2156 | a message that reserved bytes returns them exactly once if and only if it did not wait, is COPY, or has a contiguous source; never twice |
| Spill.AccountEven | templates/activemsg.cc:2184-2203 | when all messages are done the account is zero if and only if no FREE message with a 2D or span source had to wait |
| Spill.LimitRespected | templates/activemsg.cc:666-668 | with a limit and no exempt thread the total never exceeds the limit |
| Spill.FreeTwoDLeaks | templates/activemsg.cc:289-289 | for every size, a FREE message with a 2D source that waits leaves its bytes in the account |
| TodoRing.Ring.Push | templates/activemsg.cc:2249-2261 | with fewer entries than nodes an entry is added at the end and the indices do not meet |
| TodoRing.Ring.Pop | templates/activemsg.cc:2302-2307 | the oldest entry is taken and the rest keep their order |
| TodoRing.Ring.EmptyMeansNoEntries | templates/activemsg.cc:2279-2293 | equal indices mean exactly that the ring has no entries |
| EndpointTokens.StepSafe | templates/activemsg.cc:2249-2327 | enqueuing, adding, popping, pushing, a busy lock and stopping, by any number of threads, keep one token for every endpoint with something queued and none for the others |
| EndpointTokens.NeverIdle | templates/activemsg.cc:1455-1466 | a thread that believes its endpoint has more to send is right, so the branch that found nothing to do is never taken for empty queues |
| EndpointTokens.RunSafe | templates/activemsg.cc:2275-2327 | the token rule holds in every state of every run |
| EndpointTokens.RingNeverWraps | templates/activemsg.cc:2249-2261 | whenever a thread is about to add an endpoint the ring has a free slot and does not hold that endpoint |
| EndpointTokens.NothingForgotten | templates/activemsg.cc:2284-2292 | an endpoint has queued messages if and only if it is on the ring or held by a thread that will put it back |
| EndpointTokens.OneHolder | templates/activemsg.cc:1472-1512 | no two threads hold the same endpoint, and none holds one that is on the ring |
| EndpointTokens.QuietMeansSent | templates/activemsg.cc:2275-2327 | with an empty ring and no thread inside, every queue is empty |
| IncomingQueue.IncomingMessageManager.constructor | templates/activemsg.cc:1016-1031 | empty lists, empty ring |
| IncomingQueue.IncomingMessageManager.AddIncomingMessage | templates/activemsg.cc:1041-1064 | appends to the sender's linked list through the tail pointer, writes no other node, and puts the sender on the ring exactly when its list was empty; the ring never wraps |
| IncomingQueue.IncomingMessageManager.GetMessages | templates/activemsg.cc:1098-1133 | takes the whole list of the oldest sender, in order, and nothing else; batches joined with what is left are what was added; empty-handed exactly when no list has a message |
| IncomingQueue.RunBatch | templates/activemsg.cc:1163-1184 | walking a batch handles every message once, in order |
| RemoteWrite.CopyLines | templates/activemsg.cc:2798-2808 | a strided source is copied line by line into consecutive bytes, and nothing else changes |
| RemoteWrite.CopySpans | templates/activemsg.cc:2814-2826 | a span list is copied into consecutive bytes; neither assert fails |
| RemoteWrite.CopyBytes | templates/activemsg.cc:2783-2789 | a contiguous source is copied byte for byte |
| RemoteWrite.WriteContiguous | templates/mem_impl.cc:1483-1547 | the messages tile the target range with the source's bytes, each within the buffer size, and their number is the length over the buffer size, rounded up; one direct message for a registered memory; the count is their number |
| RemoteWrite.WriteLines | templates/mem_impl.cc:1549-1618 | the messages tile the target range with the gathered lines, cut between lines; one direct message for a registered memory; their number is the lines over the lines that fit a buffer, rounded up |
| RemoteWrite.WriteSpans | templates/mem_impl.cc:1620-1721 | the messages tile the target range with the gathered spans: big spans are chopped, small ones grouped; the loop ends and its asserts hold; at most three messages per buffer-full of data, and one |
| WriteFence.PartialWrites.HandleWrite | templates/mem_impl.cc:1121-1160 | the in-place counting of a write refines `CountWrite`; sequence number 0 is not tracked |
| WriteFence.PartialWrites.HandleFence | templates/mem_impl.cc:1394-1435 | the in-place counting of a fence refines `CountFence` |
| WriteFence.CountWriteStep | templates/mem_impl.cc:1121-1160 | one more write moves an entry along the formula, acknowledges only as the last of all, and touches no other key |
| WriteFence.CountFenceStep | templates/mem_impl.cc:1394-1435 | the same for the fence; its asserts hold |
| WriteFence.StepSafe | templates/mem_impl.cc:1077-1160 | beginning a transfer, storing a piece, counting it and the fence keep the invariant, in any order and for any number of keys |
| WriteFence.AckMeansStored | templates/mem_impl.cc:1145-1155 | in every run, when a fence is acknowledged every piece written under it is in memory |
| WriteFence.AckedExactlyOnce | templates/mem_impl.cc:1387-1436 | in every run no fence is acknowledged twice, and one is if and only if it arrived, all its writes arrived, and there is at least one write |
| WriteFence.CounterFormula | templates/mem_impl.cc:1121-1159 | an entry exists from the first arrival until fence and all writes are in, and its counter is the announced writes (if the fence is in) minus the writes that arrived |
| WriteFence.FenceAssertsHold | templates/mem_impl.cc:1420-1424 | neither assert of the fence handler can fail in any run |
| WriteFence.SplitMayBegin | templates/mem_impl.cc:1483-1721 | what any form of `do_remote_write` returns, with a new key and room in the target, is a set of writes that may be sent and fenced with the returned count |
| WriteFence.EndToEnd | templates/mem_impl.cc:1387-1436 | in every run that contains such a write and its fence: the fence is acknowledged if and only if it and all `count` messages are in, by exactly one step, and that step leaves the payload at the destination |
| RangeAllocator.PaddedIsLeast | templates/mem_impl.cc:146-153 | padding reaches the next multiple of the alignment |
| RangeAllocator.LastFit | templates/mem_impl.cc:159-189 | the block chosen is the last in address order that has room |
| RangeAllocator.MemoryImpl.AllocBytesLocal | templates/mem_impl.cc:137-194 | the loop from the highest address refines `LastFit` and `Carve`; zero bytes get the special offset, failure gives -1; usage and both peaks are exact |
| RangeAllocator.MemoryImpl.FreeBytesLocal | templates/mem_impl.cc:196-273 | the branches over both neighbours refine `Insert`; usage goes down by the padded size |
| RangeAllocator.CarveTakes | templates/mem_impl.cc:163-187 | an allocation makes exactly its bytes not free and keeps the blocks apart and coalesced |
| RangeAllocator.InsertAdds | templates/mem_impl.cc:217-272 | a free makes exactly its bytes free and keeps the blocks apart and coalesced |
| RangeAllocator.CanonicalUnique | templates/mem_impl.cc:217-272 | a set of free bytes has only one coalesced block list, so the list does not depend on history |
| RangeAllocator.RunSafe | templates/mem_impl.cc:137-273 | in every run live allocations are inside the memory and apart, and the free bytes are exactly the rest |
| RangeAllocator.FreeSafe | templates/mem_impl.cc:217-265 | freeing a live allocation meets the asserts about both neighbours |
| RangeAllocator.AllFreedRestores | templates/mem_impl.cc:196-273 | with nothing live the free list is the single block [0, size) |
| RangeAllocator.FreeUndoesAlloc | templates/mem_impl.cc:137-273 | freeing what was just allocated restores the state exactly |
| RangeAllocator.FreesCommute | templates/mem_impl.cc:196-273 | the order of two frees leaves no trace |
| RangeAllocator.FailsOnlyWhenFull | templates/mem_impl.cc:191-193 | an allocation fails if and only if no run of that many free bytes exists |
| RangeAllocator.UsageBalances | templates/mem_impl.cc:166-214 | usage plus free bytes is the size of the memory, in every run |
| RangeAllocator.OffsetsAligned | templates/mem_impl.cc:146-153 | in a memory whose size is a multiple of its alignment every offset given out is aligned |
| StripedMemory.OffsetBack | templates/mem_impl.cc:678-680 | the offset can be recovered from node and place |
| StripedMemory.LocalBack | templates/mem_impl.cc:678-680 | node and place can be recovered from the offset: with OffsetBack, a bijection |
| StripedMemory.FitsIff | templates/mem_impl.cc:620-646 | every byte has a place inside its node's segment if and only if the size per node is a multiple of the stride or there is one node |
| StripedMemory.OntoSegments | templates/mem_impl.cc:620-646 | and then every byte of a segment belongs to an offset inside the memory |
| StripedMemory.NextBlock | templates/mem_impl.cc:808-812 | stepping node and block at the end of a block gives what division gives for the next offset |
| StripedMemory.GASNetMemory.GetBytes | templates/mem_impl.cc:674-699 | returns the bytes of the flat view |
| StripedMemory.GASNetMemory.PutBytes | templates/mem_impl.cc:701-726 | writes the bytes into the flat view and changes nothing else |
| StripedMemory.GASNetMemory.GetBatch | templates/mem_impl.cc:766-813 | every request gets the bytes of the flat view |
| StripedMemory.CompleteAny | templates/mem_impl.cc:863-863 | of puts on their way that do not overlap, whichever completes first, the outcome is the same |
| StripedMemory.GASNetMemory.PutStepping | templates/mem_impl.cc:848-881 | one request puts its chunks on their way, or copies them on this node, by stepping node and block; if it overlaps nothing on its way, then once all have completed the flat view has its bytes and no other change |
| StripedMemory.GASNetMemory.WaitSync | templates/mem_impl.cc:885-895 | waiting completes every put, in any order; if they are apart, the outcome is that of the order in which they were issued |
| StripedMemory.GASNetMemory.PutBatch | templates/mem_impl.cc:835-895 | for requests that do not overlap: the flat view has the bytes of all of them, in whatever order the network completes their chunks |
| StripedMemory.PutThenGet | templates/mem_impl.cc:674-726 | what was put is read back, and every range apart from it is unchanged |
| MpiPacket.SendShort | macros_ammpi/am_mpi.def:439-450 | the packet of a short message, with its arguments |
| MpiPacket.PackMedium | macros_ammpi/am_mpi.def:537-545 | the message is packed exactly when it is not empty and there is room; the packet fits 80 words and the words before it are untouched |
| MpiPacket.SendMedium | macros_ammpi/am_mpi.def:452-484 | the packet of a medium message, and whether the message follows separately |
| MpiPacket.SendLong | macros_ammpi/am_mpi.def:506-522 | the packet of a long message: length and offset as 32-bit words |
| MpiPacket.RunAm | macros_ammpi/am_mpi.def:283-374 | the receiver, which overwrites word 0 on the way, refines `Decode` |
| MpiPacket.ShortRoundTrip | macros_ammpi/am_mpi.def:377-385 | with 1 to 16 arguments the handler gets the same id and arguments, whatever the buffer held before; with none it dies |
| MpiPacket.SameDecision | macros_ammpi/am_mpi.def:312-340 | from the header alone the receiver takes the sender's decision about packing |
| MpiPacket.MediumRoundTrip | macros_ammpi/am_mpi.def:304-347 | below 2 GB and with 1 to 16 arguments the handler gets the same id, arguments, length and bytes |
| MpiPacket.MediumLengthSurvivesIff | macros_ammpi/am_mpi.def:305-309 | the length arrives if and only if it is below 2 GB |
| MpiPacket.MediumNeedsArguments | macros_ammpi/am_mpi.def:387-393 | a medium packet without arguments is fatal at the receiver, whatever the message |
| MpiPacket.LongNeedsArguments | macros_ammpi/am_mpi.def:387-393 | and so is a long one |
| MpiPacket.LongRoundTrip | macros_ammpi/am_mpi.def:365-374 | the handler is given the sender's length and offset if and only if they have 31 and 32 bits |

## Left out

- Locks, condition variables, threads and core reservations: a critical section is one step; a failed trylock is a step of its own, sleeping is waiting for a step to be possible.
- GASNet and MPI calls: sends are steps, the network is unordered and loses nothing; two-sided MPI matching of a separate medium message is by its tag; multi-receive tag matching is not modelled.
- The `num_args` switch ladders in `send_short` and `send_long`, tracing, timing, profiling, logging and command-line parsing.
- Messages whose id fields start at argument 2 (`templates/activemsg.cc:1854-1858`), although the receiver reads arguments 0 and 1.
- The loop of `EndpointManager::push_messages` is modelled as its steps, not as one method; endpoint messages are values, not objects.
- `OutgoingMessage` objects and the running of `copy_data` under `reserve_srcdata` and `assign_srcdata_pointer`: the pool and spill models keep the message's mode, size and span; the copies themselves are `CopyBytes`, `CopyLines` and `CopySpans`.
- Running without a source data pool (`templates/activemsg.cc:2164-2181`).
- `int` and `size_t` are unbounded in the counters, sizes and offsets of the active-message and memory layers; 32- and 64-bit widths are modelled in `Words`, `SourcePointer` and `MpiPacket`.
- Free lists and block lists are sequences in address order, where the source has ordered maps; `lower_bound` is a function on them.
- StripedMemory.GASNetMemory.PutBatch: says nothing about requests that overlap, whose outcome depends on the order in which the network completes them.
- The segments of the striped memory are one field that is reassigned chunk by chunk; a remote put or get is a copy, and non-blocking gets complete at once.
- Spill.SpillAccount.AllocSpillMemory: leaves out the count of suspended threads and the sleep, which only delay the next attempt, and the assert that a size above the limit is never asked for (`templates/activemsg.cc:688`).
- WriteFence.PartialWrites.HandleWrite: the copy into memory that precedes the counting is the step `Land` of the transition system, not part of the method.
- SourcePool.SrcDataPool.ReleaseSrcptr: makes the first attempt of the retry loop only, and shows that it fails.
- `get_home_node`, `do_remote_serdez`, `do_remote_reduce` and reduction lists: the same chunking again, or operators that are not part of this model.
- `new_instance` and `release_instance`: the table of instances of a memory and the reuse of its slots; no byte of the memory is accounted for there.
- `BasicRangeAllocator` (its body is not part of this model) and `RemoteIDAllocator` (unused).
- The `put_medium`, `pre_medium` and `INCOMING_THREADS` variants of the MPI layer: disabled build options.
- Startup, shutdown, collective spawn, affinity tables and node announcements.
