# shmipc-rs: a verified model of the V5 shared-memory transport

This project models the V5 transport of shmipc-rs, a Rust library for inter-process communication over
shared memory, and proves what its parts promise. Check it with `dafny verify dfyconfig.toml`.

A sender writes a message into blocks of its own segment, pushes the root of the block chain into a
lock-free ring and wakes the peer if the peer sleeps. The peer drains the ring, hands the chain to a stream,
reads the bytes without copying where it can, and gives the blocks back through a release queue. A
stream that cannot use shared memory falls back to the unix socket.

| part | files |
|---|---|
| the ring and the wakeup flag | `SpecQueue`, `Ring`, `RingSafety`, `Wakeup` |
| two channels, one order | `BatchList`, `CrossChannel`, `CrossOrder`, `CrossReset` |
| the allocators | `BlockMath`, `Tiling`, `FreeLists`, `Arena`, `Buddy`, `Fixed` |
| regions and the segment | `Region`, `RegionFailures`, `SlabRegion`, `Dedicated`, `Segment` |
| messages | `Chain`, `WriteBuffer`, `TinyBlocks`, `ReadBuffer`, `Batches`, `Ownership`, `Grants` |
| the socket | `Frames`, `BufReader`, `ReadLoop`, `SocketWriter` |
| the V4 buffer | `LinkedBuffer`, `SlicePin` |

Protocols (`Ring`, `Wakeup`, `CrossChannel`, `Ownership`, `Batches`, `SocketWriter`, `SlicePin`) are state
machines. Each atomic load, store or compare-and-swap, or each section under one lock, is one step; a
theorem about them quantifies over every sequence of enabled steps. Objects that the source updates in
place are classes with a `Valid()` invariant and an abstract value that every method's contract speaks
about.

The main results:

- **Ring.** For any number of producers, at any interleaving, the ring refines a queue that claims at the
  back and takes from the front; what is popped is a prefix of what was claimed; no slot has two owners
  (`RingIsSafe`, `StepRefines`). A refusal is not always "full": `RefusedWhileEmpty` is a run from the
  empty ring that ends with a refusal by an empty ring, `RefusalMeansFullOrStale` says exactly when a push
  is refused, and with one producer that is exactly when the ring is full (`SoloRefusalMeansFull`).
- **Wakeup.** No wakeup is lost, with spurious and barrier drains clearing the flag (`NoLostWakeup`,
  `QuiescentMeansDrained`).
- **Order across channels.** What a stream delivers is a prefix of what its peer handed over, although
  some of it went through the ring and some through the socket (`DeliveredInOrder`). In every reachable
  state, a reset keeps this if and only if none of the stream's frames is on its way (`ResetIsSafeIff`);
  otherwise a later message or the close overtakes them (`ResetReordersBytes`, `ResetReorders`). The pool,
  which resets only streams outside fallback, never does that (`PoolIsCareful`).
- **Buddy allocator.** Free and live blocks tile the arena after every operation; merging is complete, so
  a request is refused exactly when no aligned free range of its order exists; a free succeeds exactly for
  a live block (`BuddyAllocator.Alloc`, `FreeRangeIsServed`, `BuddyAllocator.FreeAt`). The slab allocator
  serves a request from the least class that fits and has a block, and no payload can be taken for a
  header there (`FixedAllocator.Alloc`, `FixedAllocator.WritePayload`); a region that runs it keeps valid
  whatever is written, and a refused free changes nothing (`SlabRegion.WritePayload`, `SlabRegion.FreeAt`).
- **Segment.** Buffers in use never overlap each other or the release queue; freeing any offset removes
  that buffer and no other; trimming loses no buffer (`LocalManager.Alloc`, `BuffersApart`,
  `LocalManager.FreeAt`, `LocalManager.PruneIdle`). A refused free of a region is not always without
  effect; the contract of `SharedRegion.FreeAt` says exactly when it is, and `SharedRegion.WritePayload`
  says exactly which payloads keep a region valid. `RefusedFreeWrites` and `ForgingPayloadBreaks` reach
  the other side of both. What the segment builds is sound exactly when every region ends inside it
  (`NewWithSize`, `RegionBehindTheEnd`).
- **Messages.** Whatever is written and handed over reads back as the same bytes, and the reader's
  cycle, node and size checks accept it exactly when it has no more blocks than the node limit; with the
  default block sizes that is always so, and with smaller ones it is not (`RoundTrip`, `MessageIsShort`,
  `ReadBuffer.WalkChain`, `TooManyBlocks`). On
  arbitrary segment contents both walks end, and any chain the reader accepts is the one whose blocks the
  release walk would schedule (`CollectChain`, `ChainIsUnique`). Every kind of read takes the same bytes
  off one byte queue.
- **Ownership.** Over every run a block is in one place, is returned once per grant, and is never granted
  again while a chunk or a zero-copy result refers to it (`BlocksAreConserved`, `ReadersAreSafe`). An
  allocation of the segment's manager is a run of these steps, and what it grants is what the write
  buffer relies on, for every chain of other buffers in use (`AllocBlock`).
- **Socket.** For every way the socket cuts its bytes into reads and every size of the read buffer, exactly
  the frames that came whole are recovered, up to the first whose head does not fit the buffer
  (`ReadEvents`, `AllTakenIff`, `SmallBufferMisses`); direct wakeups and the write loop never interleave
  inside a frame (`FramesNeverInterleave`).
- **V4 buffer.** The linked buffer is one byte queue over its slices, whatever slices are empty or unused,
  and what it seals the peer finds by following the links (`LinkedBuffer.WriteBytes`,
  `LinkedBuffer.ReadExact`, `LinkedBuffer.Finish`). Three operations are not always a queue's, and their
  contracts say exactly when: `read_available_into` can consume bytes and then refuse
  (`RefusedAfterReading`), a reservation of 4 GiB or more can count bytes that are not there
  (`LostReservation`), and a write or reservation can panic (`PanickingWrite`, `PanickingReservation`).

## Model

| member | source | states |
|---|---|---|
| Ring.GeometryIsDivMod | src/v5/mpsc.rs:220-242 | the slot and the lap of a position are its remainder and quotient by the capacity |
| Ring.WindowInjective | src/v5/mpsc.rs:220-242 | no two positions of one window of `cap` share a slot |
| RingSafety.CasKeeps | src/v5/mpsc.rs:281-289 | a successful or failed claim keeps the ring invariant, head cache or not |
| RingSafety.StoreTurnKeeps | src/v5/mpsc.rs:291-311 | publishing keeps the invariant and touches no other position |
| RingSafety.PopFreeKeeps | src/v5/mpsc.rs:342-356 | handing the slot to the next lap before moving `head` keeps the invariant |
| RingSafety.StepKeeps | src/v5/mpsc.rs:261-363 | every step of every producer and of the consumer keeps the ring invariant |
| RingSafety.RingIsSafe | src/v5/mpsc.rs:261-363 | for every run: head <= tail <= head + cap, the popped values are the claims up to head, the cached head never overstates the true one, no two producers own one slot |
| RingSafety.ClaimedSlotIsWritable | src/v5/mpsc.rs:291-297 | for every run, a producer that has claimed a position finds its slot at the writable turn |
| RingSafety.PoppedValueWasClaimed | src/v5/mpsc.rs:342-360 | for every run, the value the consumer reads at the head is the one claimed for that position |
| RingSafety.StepRefines | src/v5/mpsc.rs:261-363 | every step of the ring claims, publishes or takes in an abstract queue, or changes nothing there |
| RingSafety.RefusalMeansFullOrStale | src/v5/mpsc.rs:270-279 | a push is refused if and only if the ring is full at the head load or the producer's `tail` is behind `head` |
| RingSafety.SoloRefusalMeansFull | src/v5/mpsc.rs:270-279 | with one producer, for every run, a push is refused if and only if the ring is full |
| RingSafety.RefusedWhileEmpty | src/v5/mpsc.rs:270-279 | a run of three producers from the empty ring ends with a refusal while the ring is empty |
| Wakeup.ProducerStepKeepsWake | src/v5/queue.rs:260-269 | a producer's steps keep: a published head of an idle ring has a wakeup under way or a producer about to claim |
| Wakeup.ConsumerStepKeepsWake | src/v5/queue.rs:277-288 | so do the consumer's, which clears the flag, looks again and sets it if something was published |
| Wakeup.NoLostWakeup | src/session/mod.rs:746-789 | for every run: consumer asleep, no wakeup under way and a published head imply a producer between its publish and its claim |
| Wakeup.QuiescentMeansDrained | src/session/mod.rs:1237-1311 | for every run: when all pushes have finished and no wakeup is under way, a sleeping consumer has popped everything that was ever claimed, in order |
| BatchList.JoinAppends | src/session/mod.rs:1326-1361 | joining a batch appends to what waits under that key and to nothing else |
| BatchList.JoinKeepsUnique | src/session/mod.rs:1343-1360 | there is one batch per key, before and after |
| CrossOrder.DeliverAllSpec | src/session/mod.rs:1365-1380 | flushing gives every open stream exactly its batch |
| CrossOrder.ClaimKeeps | src/stream.rs:971-1018 | handing a message or a close to the ring keeps the order invariant of every stream |
| CrossOrder.SocketKeeps | src/stream.rs:1055-1086 | so does putting a frame or a close on the socket |
| CrossOrder.PopDataKeeps | src/session/mod.rs:1246-1252 | so does popping data into a batch |
| CrossOrder.PopCloseKeeps | src/session/mod.rs:1253-1258 | so does a close popped from the ring, the batches flushed before it |
| CrossOrder.SawEmptyKeeps | src/session/mod.rs:1285-1310 | a barrier that saw the ring empty has delivered everything of the event's stream that went through the ring |
| CrossOrder.DeliverEventKeeps | src/session/mod.rs:1455-1468 | so the event's bytes are next in line, although other streams may have pushed in between: this one sends no more through the ring |
| CrossOrder.PoolIsCareful | src/session/mod.rs:566-573 | a stream outside fallback has no frame on its way, so a pool that closes the others instead of resetting them keeps the order |
| CrossReset.ResetKeepsInvIff | src/stream.rs:585-615 | a reset keeps the order invariant if and only if no frame of the stream is on its way |
| CrossReset.DrainRuns | src/session/mod.rs:1237-1311 | from every reachable state, whatever is claimed, published or locked, the receiver can take everything there is in the ring |
| CrossReset.ResetIsSafeIff | src/stream.rs:585-615 | in every reachable state, resetting an open stream keeps its bytes and its close in order in every later run if and only if no frame of it is on its way |
| CrossReset.ResetReordersBytes | src/stream.rs:585-615 | from every reachable state with a frame on its way and nothing half written, a reset can be followed by bytes delivered out of order |
| CrossReset.ResetReorders | src/stream.rs:585-615 | an instance from the initial state: a byte written after the reset is delivered before the frame |
| CrossOrder.StepKeeps | src/session/mod.rs:1226-1323 | every step of every sender and of the receiver keeps the order invariant |
| CrossOrder.DeliveredInOrder | src/session/mod.rs:1455-1513 | for every run that resets no stream with a frame on its way, and every stream not closed by its receiver: the delivered bytes are a prefix of the bytes in hand-over order, and the peer's close is seen only after all of them |
| CrossOrder.NothingStaysBehind | src/stream.rs:971-1018 | for every run: once both channels are empty, everything handed over has been delivered |
| BlockMath.XorIsBuddy | src/v5/buddy.rs:293-305 | the xor of an aligned offset and its block size is the offset of the other half of its parent |
| Tiling.Laminar | src/v5/buddy.rs:53-86 | two aligned blocks are disjoint or nested |
| Tiling.SplitTiles | src/v5/buddy.rs:66-80 | replacing a block by its halves keeps the tiling |
| Tiling.MergeTiles | src/v5/buddy.rs:279-315 | replacing two buddies by their parent keeps the tiling |
| Tiling.FreeRangeIsServed | src/v5/buddy.rs:53-66 | if no two free buddies are left below an order, a free range of that order lies in a free block of that order or above |
| Buddy.MergeScan | src/v5/buddy.rs:279-315 | the in-place scan of a sorted list moves exactly the buddy pairs up and leaves no pair behind |
| Buddy.BuddyAllocator.MergeOrder | src/v5/buddy.rs:279-315 | one round of coalescing keeps the partition and leaves no pair at its order |
| Buddy.BuddyAllocator.CoalesceUntil | src/v5/buddy.rs:279-315 | afterwards no two free buddies are left below the target |
| Buddy.BuddyAllocator.Take | src/v5/buddy.rs:66-80 | splitting down yields an aligned block of the order asked for, out of free space only |
| Buddy.BuddyAllocator.Carve | src/v5/buddy.rs:53-80 | a block is found if and only if an aligned range of this order is wholly free |
| Buddy.BuddyAllocator.Alloc | src/v5/buddy.rs:53-86 | an allocation succeeds if and only if the size is legal and a range is free; it is disjoint from every live block, its header and capacity lie inside it, every byte outside its header is kept |
| Buddy.BuddyAllocator.FreeAt | src/v5/buddy.rs:124-135 | over an arena whose headers are honest, a free by offset succeeds if and only if a live block has its data there; a refusal changes nothing |
| Buddy.BuddyAllocator.Free | src/v5/buddy.rs:95-121 | the same for an allocation record, which must also describe the block |
| Buddy.BuddyAllocator.Release | src/v5/buddy.rs:271-277 | a released block joins the free blocks and keeps the partition |
| Buddy.BuddyAllocator.Reset | src/v5/buddy.rs:162-175 | a reset frees everything and leaves a partition without pairs |
| Buddy.BuddyAllocator.constructor | src/v5/buddy.rs:191-227 | a fresh allocator is a partition into top blocks with nothing live |
| Buddy.NewWithBlockSize | src/v5/buddy.rs:191-227 | construction succeeds if and only if the block sizes are powers of two in order, leave room for a header and divide the arena |
| Buddy.OrderForSpec | src/v5/buddy.rs:230-235 | the order for a size is the smallest whose blocks hold it |
| Buddy.OrderForCapacitySpec | src/v5/buddy.rs:239-248 | the order for a capacity inverts the capacity of an order |
| Buddy.BuddyAllocator.LiveApart | src/v5/buddy.rs:53-86 | two live blocks never overlap |
| Arena.WriteHeader | src/v5/region.rs:471-476 | a stamped header reads back, and no other byte or word changes |
| Arena.ClearMagic | src/v5/region.rs:478-481 | clearing leaves no magic and changes no other byte or word |
| Fixed.Layout.ClassFor | src/v5/fixed.rs:284-301 | an offset has a class if and only if a block of that class starts there, and then one class only |
| Fixed.BlocksApart | src/v5/fixed.rs:225-275 | no two blocks overlap, whatever their classes |
| Fixed.FixedAllocator.Alloc | src/v5/fixed.rs:56-82 | succeeds if and only if some class fits and has a block left; the block is of the least such class and was not live; its header reads back and no other byte changes |
| Fixed.FixedAllocator.FreeAt | src/v5/fixed.rs:96-117 | over an honest arena, succeeds if and only if a live block has its data there; a refusal changes nothing |
| Fixed.FixedAllocator.Free | src/v5/fixed.rs:90-92 | believes an allocation record in nothing but its data offset |
| Fixed.FixedAllocator.Reset | src/v5/fixed.rs:145-152 | everything is free again, and the arena is still honest if and only if nothing was live |
| Fixed.FixedAllocator.WritePayload | src/v5/fixed.rs:36-38 | whatever a holder writes behind a block's header, the arena stays honest |
| Fixed.NewFromConfig | src/v5/fixed.rs:182-275 | construction succeeds if and only if three ascending sizes above the header have shares that add up and each class gets a block |
| Region.SharedRegion.constructor | src/v5/region.rs:182-233 | a region over zeroes is valid and has nothing in use |
| Region.SharedRegion.Activate | src/v5/region.rs:252-261 | the lazy reset happens only with no block in use, and loses none |
| Region.SharedRegion.Alloc | src/v5/region.rs:249-281 | succeeds if and only if a range is free; the block handed out met no live block and its buffer header gives its own offset, no next block, the length and the room |
| Region.SharedRegion.FreeAt | src/v5/region.rs:285-307 | succeeds if and only if the offset is in use; a refusal keeps allocator and count, and keeps the bytes if and only if the offset is not a block boundary or its name field is zero already |
| Region.SharedRegion.PunchIfIdle | src/v5/region.rs:341-350 | pages go back if and only if the region is active, old enough and has no block in use |
| Region.SharedRegion.WritePayload | src/v5/region.rs:249-281 | after a payload write the region is valid if and only if the payload forges no allocator header at a block boundary |
| SlabRegion.SlabRegion.constructor | src/v5/region.rs:182-233 | a region over zeroes that runs the slab allocator is valid and has nothing in use |
| SlabRegion.New | src/v5/region.rs:193-224 | construction succeeds if and only if the three classes it derives fit the arena in order |
| SlabRegion.SlabRegion.Activate | src/v5/region.rs:252-261 | the lazy reset happens only with no block in use, and loses none |
| SlabRegion.SlabRegion.Alloc | src/v5/region.rs:249-281 | succeeds if and only if a block that fits is free; it is of the least such class, was not live, and its buffer header gives its own offset, no next block, the length and the room |
| SlabRegion.SlabRegion.FreeAt | src/v5/region.rs:285-307 | succeeds if and only if the offset is in use; a refusal changes nothing, bytes included |
| SlabRegion.SlabRegion.PunchIfIdle | src/v5/region.rs:341-350 | pages go back if and only if the region is active, old enough and has no block in use |
| SlabRegion.SlabRegion.WritePayload | src/v5/region.rs:249-281 | the region stays valid whatever is written behind a block's buffer header |
| RegionFailures.FreeInside | src/v5/region.rs:285-307 | a release refused at an inner block boundary changes bytes |
| RegionFailures.RefusedFreeWrites | src/v5/region.rs:285-307 | a region, an allocation and a payload after which that happens |
| RegionFailures.ForgingPayloadBreaks | src/v5/region.rs:249-281 | a payload after which the region is not valid |
| Dedicated.RegionSize | src/v5/dynshm.rs:98-103 | the smallest multiple of the block size that holds header and payload; zero if and only if the size cannot be described |
| Dedicated.TilesExactly | src/v5/dynshm.rs:193-203 | every byte from the lowest dedicated region to the end of the segment is in exactly one region |
| Dedicated.Area.Alloc | src/v5/dynshm.rs:474-515 | succeeds if and only if a freed region of about the right size exists or a new one fits above the shared area; the buffer was not in use and no other region changes |
| Dedicated.Area.Free | src/v5/dynshm.rs:640-651 | succeeds if and only if a buffer in use starts there, which then is not in use; a refusal changes nothing |
| Dedicated.Area.Prune | src/v5/dynshm.rs:672-697 | exactly the longest run of punched regions at the low end is trimmed; no buffer in use is lost and no other region moves |
| Segment.LocalManager.constructor | src/v5/dynshm.rs:391-412 | a manager over empty regions has nothing in use, and is valid if and only if they leave the dedicated area a start inside the segment |
| Segment.NewWithSize | src/v5/dynshm.rs:323-423 | construction succeeds if and only if the sizes are legal, and yields a segment with nothing in use, which is valid if and only if every shared region ends inside it |
| Segment.RegionBehindTheEnd | src/v5/dynshm.rs:330-383 | a total and a cap the source accepts whose second region lies behind the end of the segment |
| Segment.RoundRobin | src/v5/dynshm.rs:450-463 | the pass over the pinned regions visits every one of them, wherever the cursor stands |
| Segment.LocalManager.SharedByOffset | src/v5/dynshm.rs:528-534 | the region index is that of the one region whose range holds the offset, if any |
| Segment.LocalManager.Routed | src/v5/dynshm.rs:625-645 | a buffer in use belongs to the region its offset is routed to |
| Segment.LocalManager.BuffersApart | src/v5/dynshm.rs:364-383 | no two buffers in use overlap, shared or dedicated |
| Segment.LocalManager.Inside | src/v5/dynshm.rs:364-383 | every buffer in use lies behind the release queue and inside the segment |
| Segment.LocalManager.AllocPinned | src/v5/dynshm.rs:450-463 | the pinned regions refuse only if none of them can serve the size |
| Segment.LocalManager.AllocShared | src/v5/dynshm.rs:448-470 | the shared regions refuse only if none of them can serve the size |
| Segment.LocalManager.AllocDedicated | src/v5/dynshm.rs:474-515 | a dedicated buffer was not in use and holds header and payload; a refusal means that nothing fits |
| Segment.LocalManager.Alloc | src/v5/dynshm.rs:429-470 | the buffers in use are those before, less what was reclaimed, plus the new one; `NoSpace` means that no region could have served the size |
| Segment.LocalManager.FreeAt | src/v5/dynshm.rs:625-657 | for any offset: the buffer in use there stops being in use and no other does |
| Segment.LocalManager.DrainReleases | src/v5/dynshm.rs:603-613 | exactly the released buffers stop being in use |
| Segment.LocalManager.PruneIdle | src/v5/dynshm.rs:661-698 | no buffer in use is lost, and pinned regions are left alone |
| Chain.ChainIsUnique | src/v5/dynshm.rs:957-969 | a root names at most one chain |
| Chain.LinkedAgree | src/v5/dynshm.rs:957-969 | two lists of linked blocks from one root are the same, however long |
| Chain.CollectChain | src/v5/dynshm.rs:949-969 | on any contents the walk ends; it succeeds if and only if the root names a chain, and yields its blocks in order |
| Chain.RemoteManager.FlushReleases | src/v5/dynshm.rs:980-992 | queued and pending offsets together keep their order; exactly what fits is pushed |
| Chain.RemoteManager.Free | src/v5/dynshm.rs:919-946 | a block is scheduled if and only if it is in bounds and names itself |
| Chain.RemoteManager.FreeChain | src/v5/dynshm.rs:949-975 | all blocks of the chain are scheduled in order, or nothing changes |
| Chain.RemoteManager.RetryPending | src/v5/dynshm.rs:995-1001 | a retry loses and reorders nothing, and empties the list if the queue has room |
| WriteBuffer.AppendKeeps | src/v5/dynshm.rs:154-190 | writing behind what the last block holds keeps the message a chain and adds exactly these bytes |
| WriteBuffer.GrowKeeps | src/buffer/buf_v5.rs:110-146 | continuing in a granted block does, too |
| WriteBuffer.LongChainsHoldMuch | src/buffer/buf_v5.rs:100-108 | any two neighbouring blocks hold more than the smallest block's room |
| WriteBuffer.MessageIsShort | src/v5/dynshm.rs:52-53 | with the default block sizes, a message within the transfer limit has no more blocks than the node limit |
| WriteBuffer.MessageIsChain | src/buffer/buf_v5.rs:216-229 | a message's root names its chain if and only if that has no more blocks than the node limit |
| TinyBlocks.TooManyBlocks | src/buffer/buf_v5.rs:71-157 | writes into 64-byte blocks, far below the transfer limit, after which the root names no chain the peer accepts |
| WriteBuffer.Survives | src/buffer/buf_v5.rs:272-285 | a chain whose headers and payloads are untouched keeps its bytes |
| WriteBuffer.WriteBuffer.WriteFallback | src/buffer/buf_v5.rs:186-206 | a heap write adds exactly its bytes to the message |
| WriteBuffer.WriteBuffer.WriteShm | src/buffer/buf_v5.rs:99-146 | a shared-memory write adds exactly its bytes, in the last block or a granted one, and leaves messages handed over before alone |
| WriteBuffer.WriteBuffer.WriteBytes | src/buffer/buf_v5.rs:71-157 | whatever the path, the message grows by exactly the data; when it is refused and when it leaves shared memory is stated exactly; blocks stay as roomy as the grants; messages handed over before keep their bytes |
| WriteBuffer.WriteBuffer.TakeShm | src/buffer/buf_v5.rs:216-229 | the blocks handed over spell the message and form a chain the peer accepts if and only if they are no more than the node limit, which holds with the default block sizes; refused if and only if a part is on the heap |
| WriteBuffer.WriteBuffer.TakeFallback | src/buffer/buf_v5.rs:242-254 | the chunks for the socket spell the message |
| ReadBuffer.RoundTrip | src/buffer/buf_v5.rs:803-846 | what the write buffer hands over is accepted if and only if it has no more blocks than the node limit, always with the default block sizes, and stands for the same bytes |
| ReadBuffer.OnePlace | src/buffer/buf_v5.rs:499-578 | a delivered block is in one place; a leased block has not been given back |
| ReadBuffer.PopOwned | src/buffer/buf_v5.rs:849-855 | a spent chunk's block goes back, unless a lease holds it |
| ReadBuffer.PinOwned | src/buffer/buf_v5.rs:549-566 | borrowing a chunk's block keeps every block in one place |
| ReadBuffer.DropOwned | src/buffer/buf_v5.rs:499-506 | a held block goes back with its last lease |
| ReadBuffer.Gather | src/buffer/buf_v5.rs:678-691 | the bytes copied together are the first unread ones |
| ReadBuffer.ReadBuffer.WalkChain | src/buffer/buf_v5.rs:803-846 | on any contents the walk ends; it accepts if and only if the root names a chain within the transfer limit, whose bytes become readable |
| ReadBuffer.ReadBuffer.TakeInput | src/buffer/buf_v5.rs:766-784 | one input becomes readable if and only if it is heap bytes or an acceptable chain |
| ReadBuffer.ReadBuffer.DrainPending | src/buffer/buf_v5.rs:753-799 | all inputs become readable in order if and only if all are good; at the first bad one the roots behind it are handed back |
| ReadBuffer.ReadBuffer.ReadExact | src/buffer/buf_v5.rs:607-653 | succeeds if and only if that many bytes are unread, returns the first of them with or without a copy, and consumes exactly these; a refusal changes nothing |
| ReadBuffer.ReadBuffer.Peek | src/buffer/buf_v5.rs:656-693 | the same bytes without consuming them |
| ReadBuffer.ReadBuffer.Discard | src/buffer/buf_v5.rs:695-711 | skips exactly that many bytes or changes nothing |
| ReadBuffer.ReadBuffer.Read | src/buffer/buf_v5.rs:858-873 | returns as many of the first unread bytes as there are |
| ReadBuffer.ReadBuffer.ReadChunk | src/buffer/buf_v5.rs:598-604 | refused if and only if the front chunk is empty; without empty chunks, if and only if nothing is unread |
| ReadBuffer.RefusedBeforeTheLast | src/buffer/buf_v5.rs:598-604 | a chain the walk accepts whose first block is empty: a chunk is refused although a byte is left |
| ReadBuffer.ReadBuffer.DropFront | src/buffer/buf_v5.rs:569-578 | dropping a chunk keeps every block in one place |
| ReadBuffer.ReadBuffer.DropLease | src/buffer/buf_v5.rs:499-506 | gives the block back exactly when its chunk is spent and no lease is left |
| ReadBuffer.ReadBuffer.Close | src/buffer/buf_v5.rs:878-885 | without leases, every block ever delivered has been given back exactly once |
| Batches.FlushAccounts | src/session/mod.rs:1365-1380 | a batch is delivered behind what was delivered before, or released if that life of the stream is over |
| Batches.StepSound | src/buffer/buf_v5.rs:415-440 | one batch per stream and generation, and inboxes of one generation only, at every step |
| Batches.BatchesLoseNothing | src/session/mod.rs:1326-1380 | for every run: what is delivered in one life of a stream is a prefix of what was popped in it, and all of it while that life lasts and the batches are flushed; the rest is released |
| Batches.NothingCrossesLives | src/buffer/buf_v5.rs:415-440 | for every run: an inbox holds nothing popped in another life of its stream |
| Batches.CloseComesLast | src/session/mod.rs:1253-1258 | for every run: a close is applied only after everything popped before it has been delivered |
| Ownership.StepKeeps | src/buffer/buf_v5.rs:216-302 | every step keeps: the allocated blocks are those somebody has, each once |
| Ownership.BlocksAreConserved | src/v5/dynshm.rs:603-657 | for every run: an allocated block is in exactly one place and any other in none; grants less returns are what is allocated; every block a step returns is allocated |
| Ownership.ReadersAreSafe | src/buffer/buf_v5.rs:499-578 | for every run: a block a chunk or a zero-copy result refers to cannot be granted again and is not on its way to release |
| Grants.GrantIsHonoured | src/v5/dynshm.rs:429-470 | a buffer in use that is in no message may be granted to any message of buffers in use |
| Grants.GrantIsRoomy | src/v5/dynshm.rs:429-515 | with the default block sizes every buffer has the room the node limit relies on |
| Grants.AllocBlock | src/v5/dynshm.rs:429-470 | an allocation is a run of the ownership account's own steps and keeps the account and the buffers in use the same; what it grants is what the write buffer relies on |
| Grants.FreeBlocks | src/v5/dynshm.rs:625-657 | so is giving blocks back one by one |
| Frames.U32RoundTrip | src/protocol/header.rs:28-30 | a big-endian word reads back |
| Frames.HeaderReadsBack | src/protocol/header.rs:27-54 | length, magic, version and type of an encoded event read back, whatever follows |
| Frames.FrameChunk | src/stream.rs:1035-1047 | a chunk is spread over full frames and a current one, in order |
| Frames.FrameFallback | src/stream.rs:1022-1052 | the payloads spell the message, none is empty or too long, all but the last are full |
| Frames.FallbackCarriesMessage | src/stream.rs:1055-1086 | the events of a fallback message are ones the reader accepts, carry the message, and only the last has the status |
| BufReader.BufReader.Compact | src/util/buf_reader.rs:151-168 | the buffered bytes move to the front unchanged |
| BufReader.BufReader.ReadMore | src/util/buf_reader.rs:59-66 | a read appends to the buffer and gets nothing only when the buffer is full or the stream has ended |
| BufReader.BufReader.FillAtLeast | src/util/buf_reader.rs:35-68 | fails if and only if the bytes are not buffered yet and do not fit or do not come: a full buffer is never mistaken for the end |
| BufReader.BufReader.FillBuf | src/util/buf_reader.rs:207-235 | loses nothing, and leaves the buffer empty only at the end of the stream |
| BufReader.BufReader.PollRead | src/util/buf_reader.rs:185-203 | takes bytes off the front of the stream, none only at its end |
| BufReader.BufReader.Consume | src/util/buf_reader.rs:237-240 | drops that many buffered bytes |
| BufReader.BufReader.ReadExact | src/util/buf_reader.rs:185-240 | succeeds if and only if the stream has that many bytes, and returns the first of them |
| ReadLoop.NextHeader | src/session/mod.rs:1096-1121 | a whole header buffered is that of the next event |
| ReadLoop.HandleEvents | src/session/mod.rs:1092-1184 | bytes that begin a sequence of events are never refused; exactly the first events are taken; what is asked for next is more than is buffered and no more than the next frame has |
| ReadLoop.Round | src/session/mod.rs:862-903 | one round of the loop keeps pace with the stream, and ends it only when the next frame is not all there or its head does not fit the buffer |
| ReadLoop.TakePayload | src/session/mod.rs:894-926 | a fallback payload read past the buffer completes its event, or the stream has ended |
| ReadLoop.ReadEvents | src/session/mod.rs:855-931 | for every chunking and every buffer capacity: if what came is, as far as it goes, a sequence of events, exactly the events that came whole are taken, in order, up to the first whose head exceeds the capacity, and the error says which of the two stopped the loop |
| ReadLoop.AllTakenIff | src/session/mod.rs:79-83 | all events that came whole are taken if and only if the head of each fits the buffer |
| ReadLoop.SmallBufferMisses | src/session/mod.rs:79-83 | with a buffer of 12 bytes a fallback frame that came whole is not taken |
| ReadLoop.WholeIsAll | src/session/mod.rs:855-931 | when everything sent has come, every event is taken |
| SocketWriter.TryWriteKeeps | src/session/mod.rs:723-744 | a direct wakeup, whole, partial or refused, keeps: socket and what is owed are whole frames |
| SocketWriter.TakeKeeps | src/session/mod.rs:946-957 | the write loop flushes the carry before its own item |
| SocketWriter.FramesNeverInterleave | src/session/mod.rs:933-985 | for every run: the socket has a prefix of whole frames, the carry completes the last while the lock is free, a carry always has somebody to flush it, and at rest every frame is complete |
| LinkedBuffer.LinkedBuffer.Alloc | src/buffer/linked.rs:179-200 | exactly the slices the free lists and the heap give for the size are put behind the others, with room for it, and the contents stay |
| LinkedBuffer.LinkedBuffer.Reserve | src/buffer/linked.rs:566-608 | adds exactly the reserved bytes, skipping slices that are too small; the length is counted without the bytes if and only if neither slice ahead has room and a slice is offered for the length cut to 32 bits that is too small for it; panics if and only if there is no slice, the cut length is nothing and none is offered |
| LinkedBuffer.LinkedBuffer.WriteBytes | src/buffer/linked.rs:610-636 | whatever slices it takes, the contents grow by exactly the data; panics if and only if, with the room ahead used up, the answers of the free lists leave a multiple of 4 GiB to place when none is offered |
| LinkedBuffer.StarvesLate | src/buffer/linked.rs:610-636 | that takes 4 GiB or more |
| LinkedBuffer.LostReservation | src/buffer/linked.rs:590-607 | a reservation of 4 GiB after which the length is 4 GiB more than the contents |
| LinkedBuffer.PanickingReservation | src/buffer/linked.rs:566-572 | a reservation of nothing that panics |
| LinkedBuffer.PanickingWrite | src/buffer/linked.rs:610-618 | a write of 4 GiB that panics |
| LinkedBuffer.LinkedBuffer.ReadChunk | src/buffer/linked.rs:410-437 | refused if and only if nothing is left; otherwise a non-empty front part of the contents |
| LinkedBuffer.LinkedBuffer.ReadExact | src/buffer/linked.rs:439-485 | succeeds if and only if that many bytes are there, returns the first of them and consumes exactly these; a refusal changes nothing |
| LinkedBuffer.LinkedBuffer.Peek | src/buffer/linked.rs:487-520 | the same bytes without consuming them |
| LinkedBuffer.LinkedBuffer.Discard | src/buffer/linked.rs:522-542 | skips exactly that many bytes or changes nothing; does not return if and only if nothing is to be skipped and there is no slice |
| LinkedBuffer.LinkedBuffer.ReadAvailable | src/buffer/linked.rs:354-406 | gets the run of non-empty slices at the front, bounded by both limits; refused if and only if nothing is left or the read meets an empty slice behind one it took, and a refusal consumed nothing only in the first case |
| LinkedBuffer.GapIsThere | src/buffer/linked.rs:378-388 | the read meets such a gap if and only if an empty slice follows slices taken whole, with more wanted and more to come |
| LinkedBuffer.RefusedAfterReading | src/buffer/linked.rs:566-608 | a run of appends and a reservation after which a read is refused and a byte is gone |
| LinkedBuffer.LinkedBuffer.Append | src/buffer/linked.rs:231-240 | a slice from the peer adds its bytes at the end |
| LinkedBuffer.LinkedBuffer.ReleasePreviousRead | src/buffer/linked.rs:544-559 | drops a spent slice and no byte |
| LinkedBuffer.LinkedBuffer.ReleaseAndReserve | src/buffer/linked.rs:242-266 | the only slice of an empty buffer is made ready for writing or let go |
| LinkedBuffer.LinkedBuffer.Recycle | src/buffer/linked.rs:268-278 | every slice is let go, in order |
| LinkedBuffer.LinkedBuffer.Finish | src/buffer/linked.rs:202-229 | exactly the slices behind the write cursor, all unused, are given back; the others are stamped and linked; the peer, following the links from the root, sees the contents if nothing has been read |
| LinkedBuffer.PeerSees | src/buffer/slice.rs:211-226 | the links of sealed slices lead through all of them in order, and the stamps show each from its start on |
| LinkedBuffer.SealedAfterReading | src/buffer/slice.rs:211-226 | a buffer sealed after a read, of which the peer sees the byte that was read instead of the one that is left |
| SlicePin.ReclaimedExactlyOnce | src/buffer/linked.rs:79-137 | for every interleaving of `retire` with lease drops: a slice is given back at most once, never while leased, and has been once everybody is done |

## Left out

- Weak memory ordering: atomics are sequentially consistent steps; the acquire and release pairing of the ring is taken for granted.
- Positions of the ring are natural numbers below 2^63; that a 64-bit counter wraps after that many pushes is not modelled. The subtraction against the cached head does wrap, as in the source.
- Ring: one cached head is shared by all producers, as they share one mapping of the send queue.
- Wakeup.NoLostWakeup: the winner of the claim completes its send; a session that dies in between is not modelled, nor is the barrier's publish timeout.
- CrossOrder.DeliveredInOrder: speaks of runs that reset no stream with a frame on its way, without which it is false (`CrossReset.ResetIsSafeIff`), and of streams the receiver has not closed itself; a server that sees data for a closed stream opens a new one, and reuse of a stream through the pool is the subject of `Batches`.
- CrossChannel: V5 only. The V4 fallback path drains no queue before it delivers, so it does not have this property.
- Region, SlabRegion: a region is smaller than 4 GiB, as every caller's is; `available` is left out. The blocks of a slab region have sixteen bytes or more, which follows from the segment's check for powers of two.
- Segment: the shared regions run the buddy allocator. For the slab allocator the same contracts are proved of one region, in `SlabRegion`, and not of a segment of them.
- Fixed.NewFromConfig: the percentages are natural numbers; a 32-bit overflow of their sum is not modelled. The three block lists are built by stepping through offsets instead of counting blocks.
- Region: a payload that forges an allocator header at a block boundary breaks the region, as `SharedRegion.WritePayload` says exactly; what happens afterwards is not modelled.
- Segment.NewWithSize: totals and caps are below 2^63.
- Segment: the arenas of the regions are separate arrays, standing for disjoint ranges of one mapping; the clock, the kernel's answer to a punch and who gets the drain lock are parameters. Locks make each operation atomic.
- Dedicated: the header of a dedicated region is a value; the peer is taken not to write it.
- Chain: headers and payload bytes of a mapping are two maps, which is what the disjointness of blocks in `Segment` allows; a header may still say anything.
- WriteBuffer.WriteBuffer.WriteBytes: the segment's answer is a parameter bound by what `Segment.LocalManager.Alloc` ensures; that they agree is `Grants.AllocBlock`. `reserve` is modelled together with the bytes the caller then writes.
- ReadBuffer: leases are counted per delivered block, as reference counts are; a chain that turns out bad midway keeps its walked blocks in the buffer, which gives them back when it closes.
- Ownership: both peers behave and the session stays open; what a corrupt peer can do to the walks is covered by `Chain` and `ReadBuffer`. The order of the queue does not matter there.
- Batches: data for a stream that does not exist is released on the spot and is not modelled.
- ReadLoop: what an event does once it is taken is left to the other modules; versions may differ between sessions, not within one.
- Grants: the headers of a message's blocks are taken to give each block the room its allocator gave it, which is what the allocator stamps and nobody changes.
- SocketWriter: failed writes end the session and are not modelled.
- LinkedBuffer: the intrusive list of slices is a sequence, the write pointer an index into it; a slice keeps one number from its allocation on, which stands for its offset; what the free lists answer is a schedule; a slice that comes from the peer is not one the buffer has; the leases of zero-copy reads are the subject of `SlicePin`; `clean`, which also frees heap memory, is left out.
- The V4 queue and buffer lists, the handshake, file descriptors and mappings, timeouts, the circuit breaker, statistics and configuration.
