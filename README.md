# MPSC queues over MPI one-sided communication, modelled in Dafny

The repository implements multiple-producer single-consumer (MPSC) queues
for distributed memory. Every process is an MPI rank. The queue state sits
in MPI windows. Ranks reach each other's windows through remote memory
access (RMA): get, put, fetch-and-add and compare-and-swap. The queue
families are:

- **SPSC building blocks.** Single-producer single-consumer rings:
  - `lib/spsc.hpp`: a ring with a `first`/`last` counter pair, a lazily
    published `last` (once every 10 items) and a dequeuer-side prefetch
    cache;
  - the hosted variant of that ring, whose rings share one window on the
    dequeuer;
  - an unbounded, linked variant;
  - the inner SPSCs of LTQueue and of the slot queues.
- **LTQueue.** Every enqueuer stamps its items with a global counter. A
  tournament tree over the enqueuers' minimum timestamps lets the dequeuer
  take the oldest front.
- **Slot queues.** Every enqueuer publishes its front timestamp in a
  "slot". The dequeuer scans the slots for the minimum:
  - the base queue and V2c scan the slots twice;
  - V2 and V2a keep priority queues of earlier scans;
  - V2b hosts the counters differently;
  - the node variant has one slot per rank.
- **BCL-style circular queues.** CCQueue, with its atomicity levels and
  backoff, and FastQueue, with per-slot ready flags.
- **Other queues.** The active-message queue (two alternating buffers) and
  SQueue (ticketed slots).
- **Distributed counters** that hand out timestamps:
  - fetch-and-add on one cell;
  - the composite 2-of-3 counter;
  - the max-stutter counter.
- **Supporting code.** Jiffy's hazard-pointer reclamation, and the ISx
  bucket sort driven by slot queues.

## How the model works

The model is sequential: one queue call runs to completion before the next
one starts, and each RMA helper call (`aread_sync`, `fetch_and_add_sync`,
`compare_and_swap_sync`, ...) is one atomic step on the window cell it
names.

Each object that updates its windows in place is a Dafny `class`:
- its window cells and local copies are fields;
- its methods carry `modifies` clauses and state the new contents of every
  field they change;
- a ghost `Contents()` gives the items in FIFO order, and each enqueue and
  dequeue is proved against it.

Where one rank's call only touches that rank's cells, the enqueuer and
dequeuer halves of one channel are one class. The hosted SPSC keeps all
ranks' cells and proves that a call by one rank leaves every other rank's
view unchanged.

Retry loops that always succeed in one pass when calls do not overlap are
modelled as that single pass. Their second round is a branch shown to be
unreachable. Four examples:
- the CAS-until-success loops of CCQueue;
- FastQueue's wait for the slot's ready flag;
- the enqueuer-count spin of the active-message queue;
- the `reserve` loop of the hazard pointers.

Integer widths are modelled where the code depends on them:
- 64-bit timestamp counters wrap modulo 2^64;
- the LTQueue counter wraps modulo 2^32;
- CCQueue backoff values are `size_t`;
- `DUMMY_RANK` converts to `MAX_TIMESTAMP`.

Shared pieces:
- `Ring`: a window of items is read from consecutive slots modulo the
  capacity.
- `Ranks`: enqueuer order numbering.
- `Items`: timestamped items.
- `Wrappers`: `Option`.

## Model

| member | source | states |
|---|---|---|
| Ranks.EnqueuerOrder | implementations/slot-queue/slot-queue-v2.hpp:452-454 | an enqueuer's order lies in `0 .. size - 2` |
| Ranks.OrderRank | implementations/slot-queue/slot-queue-v2.hpp:413-415 | the rank computed from an order is an enqueuer and maps back to that order |
| Ranks.OrderRankRoundTrip | implementations/slot-queue/slot-queue-v2.hpp:452-454 | rank to order to rank is the identity for every rank other than the dequeuer's |
| Items.Stamped | implementations/slot-queue/slot-queue-v2.hpp:228-243 | a batch is stamped item by item with the one shared timestamp, in order |
| Ring.Offset | implementations/bcl/fastqueue.hpp:71-103 | the distance from `head` to the next ticket landing in a slot lies in `0 .. cap - 1` |
| Ring.OffsetOfTicket | implementations/bcl/fastqueue.hpp:71-103 | ticket `head + k` lands in slot `j` exactly when the offset of `j` from `head` is `k` |
| Ring.WindowAppend | implementations/lib/spsc.hpp:85-86 | storing in the slot of `last` appends to the window and keeps the older items |
| Ring.WindowAdvance | implementations/lib/spsc.hpp:262-263 | moving `first` on by one drops exactly the oldest item |
| Ring.WindowSplit | implementations/lib/spsc.hpp:252-259 | a window is its first `n` items followed by the rest |
| Ring.CacheExtends | implementations/lib/spsc.hpp:245-248 | a prefetch cache stays valid when the enqueuer appends items |
| Ring.CachePop | implementations/lib/spsc.hpp:245-248 | the cache's last entry is the oldest item; dropping it keeps the cache valid for the rest |
| Ring.WriteBatch | implementations/lib/spsc.hpp:108-113 | writing a batch slot by slot modulo the capacity appends exactly the batch to the window |
| Ring.Prefetch | implementations/lib/spsc.hpp:252-260 | the cache filled in reverse holds the next `n` items, oldest last |
| Spsc.Channel.constructor | implementations/lib/spsc.hpp:185-201 | every counter and window cell starts at 0; the channel is empty |
| Spsc.AppendOneKeepsInv | implementations/lib/spsc.hpp:84-91 | storing `x` at slot `last % capacity` and advancing `last` (publishing it every 10th item) keeps the ring invariant and appends `x` to the window |
| Spsc.AppendKeepsInv | implementations/lib/spsc.hpp:108-117 | a batch written after the window, with the new `last` published, keeps the ring invariant whatever the cached counters held |
| Spsc.AdvanceKeepsInv | implementations/lib/spsc.hpp:245-265 | moving `first` on by one and publishing it keeps the ring invariant and drops exactly the oldest item |
| Spsc.Channel.Enqueue | implementations/lib/spsc.hpp:74-95 | succeeds exactly when the ring has room (after re-reading `first`); then appends `x`, writes slot `last % capacity` and publishes `last` every 10th item |
| Spsc.Channel.EnqueueBatch | implementations/lib/spsc.hpp:97-119 | all or nothing: succeeds exactly when the whole batch fits; then appends the batch and publishes the new `last` |
| Spsc.Channel.EnqueuerReadFront | implementations/lib/spsc.hpp:121-138 | returns the oldest item exactly when the channel is non-empty; the contents are unchanged |
| Spsc.Channel.RefreshLast | implementations/lib/spsc.hpp:232-243 | after the two re-reads, the dequeuer's `last` covers `need` exactly when the enqueuer's does |
| Spsc.Channel.FillCache | implementations/lib/spsc.hpp:252-259 | the cache holds the next `n` items from `from`, in reverse |
| Spsc.Channel.Refill | implementations/lib/spsc.hpp:281-292 | refilling an empty cache of a non-empty channel leaves a non-empty cache and the contents unchanged |
| Spsc.Channel.TakeFront | implementations/lib/spsc.hpp:245-261 | returns the oldest item from the cache or the ring, and the cache stays valid for the rest |
| Spsc.Channel.Dequeue | implementations/lib/spsc.hpp:231-266 | returns the oldest item exactly when the channel is non-empty, removes it and publishes the new `first`; otherwise nothing changes |
| Spsc.Channel.DequeuerReadFront | implementations/lib/spsc.hpp:268-296 | returns the oldest item exactly when the channel is non-empty, served from the cache's last entry |
| HostedSpsc.StartOffsetIsProduct | implementations/lib/spsc/hosted_bounded_spsc.hpp:159 | rank `r`'s region starts at `capacity * r` |
| HostedSpsc.RegionsDisjoint | implementations/lib/spsc/hosted_bounded_spsc.hpp:49-51 | regions of different ranks do not overlap |
| HostedSpsc.RegionBounds | implementations/lib/spsc/hosted_bounded_spsc.hpp:49-51 | every rank's region fits in a buffer of `capacity * comm_size` slots |
| HostedSpsc.SlotInRegion | implementations/lib/spsc/hosted_bounded_spsc.hpp:159-184 | slot `start_offset + i % capacity` lies inside rank `r`'s region |
| HostedSpsc.RegionWrite | implementations/lib/spsc/hosted_bounded_spsc.hpp:161-184 | a write into one rank's region changes that region at one slot and no other rank's region |
| HostedSpsc.LexLess | implementations/lib/spsc/hosted_bounded_spsc.hpp:219 | the `std::vector` comparison: the empty vector is below any non-empty one, and nothing is below the empty one |
| HostedSpsc.LexLessIrreflexive | implementations/lib/spsc/hosted_bounded_spsc.hpp:219 | no vector is below itself |
| HostedSpsc.LexOneEntry | implementations/lib/spsc/hosted_bounded_spsc.hpp:212-231 | for vectors differing in one entry, "not below" is that entry's `>=`, so the `first_buf >= last_buf` guard tests the own rank's counters |
| HostedSpsc.EnqueueStep | implementations/lib/spsc/hosted_bounded_spsc.hpp:161-184 | one stored item and the advanced counters keep the ring invariant and append the item |
| HostedSpsc.BatchStep | implementations/lib/spsc/hosted_bounded_spsc.hpp:186-210 | a written batch and the new `last` keep the invariant and append the batch |
| HostedSpsc.DequeueStep | implementations/lib/spsc/hosted_bounded_spsc.hpp:233-271 | advancing `first` with a valid cache keeps the invariant and drops the oldest item |
| HostedSpsc.RefillStep | implementations/lib/spsc/hosted_bounded_spsc.hpp:273-302 | a refilled valid cache keeps the invariant and the contents |
| HostedSpsc.FirstStep | implementations/lib/spsc/hosted_bounded_spsc.hpp:164-165 | copying the published `first` into the enqueuer's own entry keeps the invariant and the contents |
| HostedSpsc.Hosted.constructor | implementations/lib/spsc/hosted_bounded_spsc.hpp:59-76 | all counters and cache sizes start at 0; every enqueuer's channel is empty |
| HostedSpsc.Hosted.Enqueue | implementations/lib/spsc/hosted_bounded_spsc.hpp:161-184 | succeeds exactly when the rank's ring has room; appends `x`; no other rank's view changes |
| HostedSpsc.Hosted.Append | implementations/lib/spsc/hosted_bounded_spsc.hpp:172-183 | the store and the counter updates append `x` and publish `last` every 10th item |
| HostedSpsc.Hosted.EnqueueBatch | implementations/lib/spsc/hosted_bounded_spsc.hpp:186-210 | all or nothing: succeeds exactly when the batch fits; appends it; other ranks are unchanged |
| HostedSpsc.Hosted.RefreshOwnFirst | implementations/lib/spsc/hosted_bounded_spsc.hpp:189-190 | the re-read of `first` changes only the caller's own `_first_buf` entry, and no rank's contents |
| HostedSpsc.Hosted.AppendBatch | implementations/lib/spsc/hosted_bounded_spsc.hpp:197-209 | the slot-by-slot writes and the published `last` append exactly the batch |
| HostedSpsc.Hosted.EReadFront | implementations/lib/spsc/hosted_bounded_spsc.hpp:212-231 | returns the oldest item exactly when the rank's channel is non-empty |
| HostedSpsc.Hosted.RefreshLast | implementations/lib/spsc/hosted_bounded_spsc.hpp:234-245 | the re-read `last` covers `need` exactly when the enqueuer's does |
| HostedSpsc.Hosted.Refill | implementations/lib/spsc/hosted_bounded_spsc.hpp:286-298 | an empty cache is refilled, non-empty, with the contents unchanged |
| HostedSpsc.Hosted.TakeFront | implementations/lib/spsc/hosted_bounded_spsc.hpp:247-266 | returns the oldest item and keeps the cache valid for the rest |
| HostedSpsc.Hosted.ReadAndPrefetch | implementations/lib/spsc/hosted_bounded_spsc.hpp:251-266 | reads the oldest item from the ring and caches the next ones |
| HostedSpsc.Hosted.Dequeue | implementations/lib/spsc/hosted_bounded_spsc.hpp:233-271 | returns and removes the oldest item exactly when the rank's channel is non-empty; other ranks unchanged |
| HostedSpsc.Hosted.DReadFront | implementations/lib/spsc/hosted_bounded_spsc.hpp:273-302 | returns the oldest item exactly when the channel is non-empty, from the cache |
| UnboundedSpsc.Channel.constructor | implementations/lib/spsc/unbounded_spsc.hpp:112-126 | an empty list whose `first` and `last` are one dummy node; no announce; a separate free-later node |
| UnboundedSpsc.Channel.Enqueue | implementations/lib/spsc/unbounded_spsc.hpp:62-73 | always succeeds, appends `x` in the old `last` node and links a fresh `last` |
| UnboundedSpsc.Channel.EnqueuerReadFront | implementations/lib/spsc/unbounded_spsc.hpp:75-87 | returns the oldest item exactly when non-empty, announcing the node read |
| UnboundedSpsc.Channel.Dequeue | implementations/lib/spsc/unbounded_spsc.hpp:142-161 | returns and removes the oldest item exactly when non-empty; an announced node becomes `free_later` |
| UnboundedSpsc.Channel.DequeuerReadFront | implementations/lib/spsc/unbounded_spsc.hpp:163-171 | returns the oldest item exactly when non-empty |
| ModularSpsc.FullIff | code/ltqueue/ltqueue.hpp:128-129 | `(last + 1) % size == first` exactly when the ring holds `size - 1` items |
| ModularSpsc.EmptyIff | code/ltqueue/ltqueue.hpp:270-278 | `first == last` exactly when the ring is empty |
| ModularSpsc.TakeStep | code/ltqueue/ltqueue.hpp:280-288 | slot `first` holds the oldest item, and stepping `first` modulo `size` drops it |
| ModularSpsc.PutStep | code/ltqueue/ltqueue.hpp:137-141 | storing at `last` and stepping it modulo `size` appends the item |
| ModularSpsc.Channel.constructor | code/ltqueue/ltqueue.hpp:80-83 | `first = last = 0`, announce and free-later are `NULL_INDEX`, the ring is empty |
| ModularSpsc.Channel.Enqueue | code/ltqueue/ltqueue.hpp:100-150 | refuses exactly when the ring is full or `last` is the announced or deferred index; otherwise appends `x` |
| ModularSpsc.Channel.Dequeue | code/ltqueue/ltqueue.hpp:253-303 | returns and removes the oldest item exactly when non-empty, copies it to `help`, and defers an announced index |
| LtSpsc.Channel.constructor | implementations/ltqueue/ltqueue.hpp:463-505 | every counter starts at 0 and the channel is empty |
| LtSpsc.Channel.Enqueue | implementations/ltqueue/ltqueue.hpp:100-118 | succeeds exactly when the ring has room; then appends `x` at slot `last % capacity` |
| LtSpsc.Channel.EnqueueBatch | implementations/ltqueue/ltqueue.hpp:120-143 | all or nothing: succeeds exactly when the batch fits; then appends it |
| LtSpsc.Channel.EnqueuerReadFront | implementations/ltqueue/ltqueue.hpp:145-161 | returns the oldest item exactly when non-empty |
| LtSpsc.Channel.RefreshLast | implementations/ltqueue/ltqueue.hpp:523-530 | the re-read `last` covers `need` exactly when the enqueuer's does |
| LtSpsc.Channel.FillCache | implementations/ltqueue/ltqueue.hpp:539-547 | the cache holds the next `n` items, in reverse |
| LtSpsc.Channel.TakeFront | implementations/ltqueue/ltqueue.hpp:532-548 | returns the oldest item and keeps the cache valid for the rest |
| LtSpsc.Channel.Dequeue | implementations/ltqueue/ltqueue.hpp:522-554 | returns and removes the oldest item exactly when non-empty; otherwise nothing changes |
| LtSpsc.Channel.DequeuerReadFront | implementations/ltqueue/ltqueue.hpp:556-582 | returns the oldest item exactly when non-empty, from the cache |
| LtTree.Parent | implementations/ltqueue/ltqueue.hpp:173-178 | the root has parent -1; every other node is a child `2p + 1` or `2p + 2` of its parent |
| LtTree.Children | implementations/ltqueue/ltqueue.hpp:184-197 | exactly the nodes `2i + 1` and `2i + 2` that exist, in order, each with parent `i` |
| LtTree.LeafIndex | implementations/ltqueue/ltqueue.hpp:180-182 | an enqueuer's leaf lies in the leaf range of the tree |
| LtTree.LeafRank | implementations/ltqueue/ltqueue.hpp:601-604 | every leaf belongs to the enqueuer whose leaf index it is |
| LtTree.Pick | implementations/ltqueue/ltqueue.hpp:696-709 | the first child rank with the smallest timestamp, or the dummy rank when all children are empty |
| LtTree.BelowOrder | implementations/ltqueue/ltqueue.hpp:173-178 | a node's ancestors have smaller indices |
| LtTree.BelowRoot | implementations/ltqueue/ltqueue.hpp:173-178 | every node lies below the root |
| LtTree.SubtreeMin | implementations/ltqueue/ltqueue.hpp:687-716 | in a consistent tree a node's timestamp is at most every leaf's below it, and its rank's leaf is below it |
| LtTree.RootIsMinimum | implementations/ltqueue/ltqueue.hpp:781-802 | the root is the dummy rank exactly when every enqueuer's front timestamp is `MAX_TIMESTAMP` (its SPSC is empty or its front was stamped `MAX_TIMESTAMP`); otherwise it names an enqueuer with the smallest front timestamp |
| LtTree.SelfNodeStep | implementations/ltqueue/ltqueue.hpp:657-685 | refreshing an enqueuer's leaf leaves the tree consistent except on the path above it |
| LtTree.RefreshStep | implementations/ltqueue/ltqueue.hpp:687-716 | refreshing the parent moves the one inconsistent spot one level up |
| LtTree.PickFrame | implementations/ltqueue/ltqueue.hpp:687-716 | the pick depends only on the children examined |
| LtTree.TreeUpdateFrame | implementations/ltqueue/ltqueue.hpp:687-716 | updating one node only affects the consistency of that node and its parent |
| LtTree.StampFrame | implementations/ltqueue/ltqueue.hpp:621-655 | a new timestamp for one enqueuer only affects nodes on its path to the root |
| LtQueue.Queue.constructor | implementations/ltqueue/ltqueue.hpp:755-759 | counter 0, every tree node `{DUMMY_RANK, 0}`, every minimum timestamp `MAX_TIMESTAMP`, every SPSC empty |
| LtQueue.Queue.CasNode | implementations/ltqueue/ltqueue.hpp:710-715 | compare-and-swap on a tree node: stores only on equality and returns the prior node |
| LtQueue.Queue.CasStamp | implementations/ltqueue/ltqueue.hpp:635-653 | compare-and-swap on a minimum-timestamp cell |
| LtQueue.Queue.ReadFront | implementations/ltqueue/ltqueue.hpp:556-582 | the front timestamp exactly when the SPSC is non-empty |
| LtQueue.Queue.RefreshTimestamp | implementations/ltqueue/ltqueue.hpp:621-655 | the enqueuer's cell becomes its front timestamp (or `MAX_TIMESTAMP`) with its tag incremented |
| LtQueue.Queue.RefreshSelfNode | implementations/ltqueue/ltqueue.hpp:657-685 | the leaf is set to the enqueuer or the dummy rank, according to its timestamp |
| LtQueue.Queue.Refresh | implementations/ltqueue/ltqueue.hpp:687-716 | the node takes the child rank with the smallest timestamp, with its tag incremented |
| LtQueue.Queue.Propagate | implementations/ltqueue/ltqueue.hpp:718-734 | after propagation from a leaf, the whole tree is consistent and nodes off the path are unchanged |
| LtQueue.Queue.Climb | implementations/ltqueue/ltqueue.hpp:718-734 | one loop step refreshes the parent (twice on failure) and moves the inconsistency up |
| LtQueue.Queue.DrawTimestamp | implementations/ltqueue/ltqueue.hpp:363-379 | the old counter value is returned and the 32-bit counter wraps on |
| LtQueue.Queue.Republish | implementations/ltqueue/ltqueue.hpp:374-377 | refreshing the timestamp and propagating restore the queue invariant |
| LtQueue.Queue.Enqueue | implementations/ltqueue/ltqueue.hpp:363-379 | draws a timestamp; succeeds exactly when the enqueuer's SPSC has room, appending the stamped item |
| LtQueue.Queue.EnqueueBatch | implementations/ltqueue/ltqueue.hpp:381-404 | an empty batch is a no-op; otherwise one timestamp for the batch, all or nothing |
| LtQueue.Queue.SpscDequeue | implementations/ltqueue/ltqueue.hpp:522-554 | returns and removes the front item exactly when the SPSC is non-empty |
| LtQueue.Queue.Dequeue | implementations/ltqueue/ltqueue.hpp:781-802 | fails exactly when every enqueuer's front timestamp reads as `MAX_TIMESTAMP`; otherwise removes the front item of an enqueuer whose front timestamp is smallest |
| SlotScan.Scan | implementations/slot-queue/slot-queue.hpp:178-184 | finds the first slot with a strictly smaller timestamp than the running minimum, or keeps the choice |
| SlotScan.ReadMinimumOrder | implementations/slot-queue/slot-queue.hpp:165-201 | dummy exactly when every slot is empty; otherwise the first smallest slot, or a later pick with a smaller second-read timestamp; equal reads give the first smallest |
| SlotSpsc.WriteChunk | implementations/slot-queue/slot-queue-v2.hpp:115-129 | a contiguous chunk write changes exactly the chunk's slots |
| SlotSpsc.ChunkedWriteWindow | implementations/slot-queue/slot-queue-v2.hpp:115-129 | writing the batch in one or two chunks around the end of the ring appends the batch to the window |
| SlotSpsc.ChunkedWriteSlot | implementations/slot-queue/slot-queue-v2.hpp:115-129 | each window slot after the two-chunk write holds the old item or the right batch item |
| SlotSpsc.WriteWrapped | implementations/slot-queue/slot-queue-v2.hpp:115-129 | the one or two contiguous writes from `last % capacity` append exactly the batch to the window, wherever the ring wraps |
| SlotSpsc.SlotAt | implementations/slot-queue/slot-queue-v2.hpp:115-129 | the slot of counter `last + i` from `last`'s own slot |
| SlotSpsc.Channel.constructor | implementations/slot-queue/slot-queue-v2.hpp:50-76 | every counter is 0 and the channel is empty |
| SlotSpsc.Channel.Enqueue | implementations/slot-queue/slot-queue-v2.hpp:87-103 | succeeds exactly when the ring has room; appends `x` and publishes `last` |
| SlotSpsc.Channel.EnqueueChunks | implementations/slot-queue/slot-queue-v2.hpp:105-135 | all or nothing: succeeds exactly when the batch fits; then the chunked write appends the batch |
| SlotSpsc.Channel.EnqueueBatch | implementations/slot-queue/slot-queue-v2b.hpp:109-133 | all or nothing: succeeds exactly when the batch fits; then the slot-by-slot write appends the batch |
| SlotSpsc.Channel.EnqueuerReadFront | implementations/slot-queue/slot-queue-v2.hpp:137-152 | returns the oldest item exactly when non-empty |
| SlotSpsc.Channel.Dequeue | implementations/slot-queue/slot-queue-v2.hpp:339-355 | returns and removes the oldest item exactly when non-empty, publishing `first` |
| SlotSpsc.Channel.DequeuerReadFront | implementations/slot-queue/slot-queue-v2.hpp:357-371 | returns the oldest item exactly when non-empty |
| SlotQueue.AsTimestamp | implementations/slot-queue/slot-queue-v2.hpp:380 | converting a rank to `uint64_t` gives a 64-bit value |
| SlotQueue.DummyRankIsMaxTimestamp | implementations/slot-queue/slot-queue-v2.hpp:379-381 | a rank converts to `MAX_TIMESTAMP` exactly when it is `DUMMY_RANK`, so the comparison with `MAX_TIMESTAMP` tests for "no rank" |
| SlotQueue.Top | implementations/slot-queue/slot-queue-v2.hpp:277-285 | the top of a non-empty priority queue is an entry that no other entry goes above |
| SlotQueue.Pop | implementations/slot-queue/slot-queue-v2.hpp:411-424 | `pop()` removes exactly one copy of the top |
| SlotQueue.PopBothWithin | implementations/slot-queue/slot-queue-v2.hpp:411-416 | popping both tops for the same slot keeps the first scan within the second |
| SlotQueue.PopSecondWithin | implementations/slot-queue/slot-queue-v2.hpp:417-421 | popping a second top with a smaller timestamp keeps the first scan within the second |
| SlotQueue.PopFirstWithin | implementations/slot-queue/slot-queue-v2.hpp:422-424 | popping the first scan's top keeps it within the second |
| SlotQueue.ServeFromScans | implementations/slot-queue/slot-queue-v2.hpp:403-428 | dummy exactly when the first scan is empty; otherwise the first scan's top, or the second's when it is strictly smaller; the scans shrink; equal scans serve their top |
| SlotQueue.Entries | implementations/slot-queue/slot-queue-v2.hpp:383-389 | one entry for each slot not holding `MAX_TIMESTAMP`, with that slot's timestamp |
| SlotQueue.FreshTop | implementations/slot-queue/slot-queue-v2.hpp:390-400 | two equal fresh scans serve their top, which names a non-empty slot |
| SlotQueue.NoEntries | implementations/slot-queue/slot-queue-v2.hpp:390-392 | a scan that pushes nothing saw every slot empty |
| SlotQueue.FreshTopSlot | implementations/slot-queue/slot-queue-v2.hpp:383-389 | the top of a fresh scan is the entry of the slot it names |
| SlotQueue.MaxHeapServesLargest | implementations/slot-queue/slot-queue-v2.hpp:277-285 | with the source's `operator<`, slots holding 1 and 2 serve 2 first, though an older timestamp is waiting |
| SlotQueue.MinHeapServesSmallest | implementations/slot-queue/slot-queue-v2.hpp:277-285 | with the reversed comparison, the served slot has the smallest timestamp of all non-empty slots |
| SlotQueue.Queue.SlotOwners | implementations/slot-queue/slot-queue-v2.hpp:452-454 | every slot belongs to an enqueuer (or is the node variant's dequeuer slot) |
| SlotQueue.Queue.SlotsDistinct | implementations/slot-queue/slot-queue-v2.hpp:452-454 | distinct enqueuers own distinct slots |
| SlotQueue.Queue.constructor | implementations/slot-queue/slot-queue-v2.hpp:457-486 | counter 0, every slot `MAX_TIMESTAMP`, all SPSCs and both scans empty |
| SlotQueue.Queue.CasSlot | implementations/slot-queue/slot-queue-v2.hpp:170-174 | compare-and-swap on a slot: stores only on equality and returns the prior value |
| SlotQueue.Queue.ReadFront | implementations/slot-queue/slot-queue-v2.hpp:357-371 | the front timestamp exactly when the SPSC is non-empty |
| SlotQueue.Queue.RefreshEnqueue | implementations/slot-queue/slot-queue-v2.hpp:155-175 | the slot takes `ts` exactly when `ts` is the SPSC's front timestamp; otherwise the slot is unchanged |
| SlotQueue.Queue.RefreshDequeue | implementations/slot-queue/slot-queue-v2.hpp:430-450 | the slot takes the front timestamp (or `MAX_TIMESTAMP`); V2 and V2a also push a non-empty front into the second scan |
| SlotQueue.Queue.DrawTimestamp | implementations/slot-queue/slot-queue-v2.hpp:214-216 | returns the old counter; the 64-bit counter wraps on |
| SlotQueue.Queue.Publish | implementations/slot-queue/slot-queue-v2.hpp:222-224 | one or two refreshes make the enqueuer's slot its front timestamp and restore the invariant |
| SlotQueue.Queue.Enqueue | implementations/slot-queue/slot-queue-v2.hpp:209-226 | draws a timestamp; succeeds exactly when the SPSC has room, appending the stamped item |
| SlotQueue.Queue.EnqueueBatch | implementations/slot-queue/slot-queue-v2.hpp:228-252 | an empty batch is a no-op; otherwise one timestamp for the batch, all or nothing |
| SlotQueue.Queue.SpscAppend | implementations/slot-queue/slot-queue-v2.hpp:244 | appending items stamped `ts` leaves the front unchanged unless the SPSC was empty, and then its front is stamped `ts` |
| SlotQueue.Queue.SpscDequeue | implementations/slot-queue/slot-queue-v2.hpp:339-355 | returns and removes the front item exactly when the SPSC is non-empty |
| SlotQueue.Queue.ScanMinimumRank | implementations/slot-queue/slot-queue.hpp:165-201 | dummy exactly when every slot is empty; otherwise the enqueuer owning the first smallest slot |
| SlotQueue.Queue.RankFromScans | implementations/slot-queue/slot-queue-v2.hpp:403-428 | the scans pop what `ServeFromScans` decides and the served slot is mapped to its enqueuer's rank |
| SlotQueue.Queue.ServedKeepsScans | implementations/slot-queue/slot-queue-v2.hpp:403-428 | serving keeps every scan entry naming a slot and the first scan within the second, and a served order names a slot |
| SlotQueue.Queue.ScanSlots | implementations/slot-queue/slot-queue-v2.hpp:383-389 | pushes one entry per non-empty slot |
| SlotQueue.Queue.HeapMinimumRank | implementations/slot-queue/slot-queue-v2.hpp:374-401 | dummy only when every slot is empty; from empty scans, the top of a fresh scan |
| SlotQueue.Queue.Rescan | implementations/slot-queue/slot-queue-v2.hpp:383-400 | refills both scans from the slots and serves the top of the slots, or dummy when they are all empty |
| SlotQueue.Queue.Dequeue | implementations/slot-queue/slot-queue-v2.hpp:498-517 | removes the front item of one enqueuer; an all-empty queue fails; without scan heaps, fails exactly when all are empty and takes the oldest front, first by slot among equals |
| SlotQueue.Queue.Take | implementations/slot-queue/slot-queue-v2.hpp:507-516 | dequeues from the chosen SPSC exactly when non-empty and refreshes its slot |
| SlotQueue.Queue.OthersKeepFronts | implementations/slot-queue/slot-queue-v2.hpp:507-516 | updating one enqueuer's slot and SPSC leaves every other enqueuer's slot holding its front timestamp |
| SlotQueue.Queue.FirstMinIsOldest | implementations/slot-queue/slot-queue.hpp:165-201 | the enqueuer of the first smallest slot has the oldest front; enqueuers with lower slots have strictly younger fronts |
| SlotQueue.Queue.TopIsExtreme | implementations/slot-queue/slot-queue-v2.hpp:277-285 | the enqueuer named by a fresh scan's top has the largest front timestamp under the source's comparison, and the smallest under the reversed one |
| CcQueue.DequeueDispatch | implementations/bcl/ccqueue.hpp:336-343 | the atomic path exactly when the level has the enqueue bit; non-atomic with only the dequeue bit; local for `none`; refused otherwise |
| CcQueue.DispatchOfNamedLevels | implementations/bcl/ccqueue.hpp:33-37 | the four named levels select the enqueue and dequeue paths as the dispatch code says |
| CcQueue.Increased | implementations/bcl/ccqueue.hpp:20-23 | doubling the `size_t` sleep time, then capping at the maximum |
| CcQueue.SleepAfter | implementations/bcl/ccqueue.hpp:15-23 | after `k` backoffs, the sleep time is a `size_t` |
| CcQueue.SleepAfterDoubles | implementations/bcl/ccqueue.hpp:15-23 | after `k` backoffs, the sleep time is `min(init * 2^k, max)` |
| CcQueue.DequeueSeesItemIffNonEmpty | implementations/bcl/ccqueue.hpp:347-360 | with a cached tail no larger than the tail, the dequeue guard passes exactly when the queue is non-empty |
| CcQueue.UninitialisedTailBufServesEmpty | implementations/bcl/ccqueue.hpp:257-313 | a cached tail above the tail lets a dequeue of an empty queue through |
| CcQueue.Backoff.constructor | implementations/bcl/ccqueue.hpp:11-13 | the sleep time starts at the initial sleep |
| CcQueue.Backoff.Backoff | implementations/bcl/ccqueue.hpp:15-18 | sleeps the current time, then doubles it, capped at the maximum |
| CcQueue.Backoff.Reset | implementations/bcl/ccqueue.hpp:25 | the sleep time returns to the initial sleep |
| CcQueue.Queue.constructor | implementations/bcl/ccqueue.hpp:103-107 | head, tail and both reserved counters are 0; cached heads and the cached tail are 0 |
| CcQueue.Queue.TakeTailTicket | implementations/bcl/ccqueue.hpp:168-191 | takes a ticket exactly when it is within capacity of the reserved head (re-reading it once); a failure gives the ticket back |
| CcQueue.Queue.Enqueue | implementations/bcl/ccqueue.hpp:152-164 | succeeds exactly when the ticket is within capacity of the reserved head, appending `x` |
| CcQueue.Queue.EnqueueAtomic | implementations/bcl/ccqueue.hpp:167-203 | on success stores `x` at `tail % capacity` and the reserved tail catches up with the tail |
| CcQueue.Queue.EnqueueNonAtomic | implementations/bcl/ccqueue.hpp:205-225 | on success stores `x` at `tail % capacity` and increments the reserved tail |
| CcQueue.Queue.Write | implementations/bcl/ccqueue.hpp:192 | writing slot `old_tail % capacity` appends `x` to the window |
| CcQueue.Queue.Dequeue | implementations/bcl/ccqueue.hpp:329-344 | returns and removes the oldest item; the atomic, non-atomic and host-local paths succeed exactly when non-empty; a refused level and a non-host local call return nothing; the atomic path leaves `reserved_head` level with `head`, the non-atomic path keeps their distance, and the other two leave `reserved_head` alone |
| CcQueue.Queue.TakeHeadTicket | implementations/bcl/ccqueue.hpp:349-360 | takes a head ticket exactly when the queue is non-empty (re-reading the tail once) |
| CcQueue.Queue.ReadSlot | implementations/bcl/ccqueue.hpp:362-363 | slot `old_head % capacity` holds the oldest item |
| CcQueue.Queue.DequeueAtomic | implementations/bcl/ccqueue.hpp:347-381 | returns and removes the oldest item exactly when non-empty; the reserved head follows the head |
| CcQueue.Queue.DequeueNonAtomic | implementations/bcl/ccqueue.hpp:383-402 | returns and removes the oldest item exactly when non-empty; the reserved head is incremented |
| CcQueue.Queue.LocalDequeue | implementations/bcl/ccqueue.hpp:404-414 | succeeds exactly on the host with a non-empty queue, removing the oldest item |
| FastQueue.OffsetAdvance | implementations/bcl/fastqueue.hpp:170-209 | moving the head on by one decreases every slot's offset by one, and the old head's slot moves to the back |
| FastQueue.FlagsAppend | implementations/bcl/fastqueue.hpp:93-96 | setting the flag at `tail % capacity` marks exactly the slots holding items |
| FastQueue.FlagsAdvance | implementations/bcl/fastqueue.hpp:192-202 | clearing the flag at `head % capacity` keeps the flags marking exactly the slots holding items |
| FastQueue.AppendStep | implementations/bcl/fastqueue.hpp:92-96 | storing `x` at `tail % capacity` and raising its flag appends `x` to the window and marks one more item |
| FastQueue.AdvanceStep | implementations/bcl/fastqueue.hpp:192-202 | the oldest ticket's flag is raised and its slot holds the oldest item; lowering the flag and moving `head` on removes exactly that item |
| FastQueue.Queue.constructor | implementations/bcl/fastqueue.hpp:50-53 | head and tail are 0, every flag is clear, the queue is empty |
| FastQueue.Queue.Enqueue | implementations/bcl/fastqueue.hpp:71-103 | succeeds exactly when the queue has room; stores `x` and sets its flag |
| FastQueue.Queue.TakeTailTicket | implementations/bcl/fastqueue.hpp:76-90 | the ticket is the old `tail`; `tail` stays incremented exactly when the queue has room, and is otherwise given back; the head cache is only ever refreshed to `head` |
| FastQueue.Queue.Dequeue | implementations/bcl/fastqueue.hpp:170-209 | returns and removes the oldest item exactly when non-empty, clearing its flag |
| AmQueue.OffsetAtCapacityAccepted | implementations/active-message-queue/active-message-queue.hpp:138 | the guard `offset > capacity` accepts `offset == capacity`, one past the buffer |
| AmQueue.OffsetAccepted | implementations/active-message-queue/active-message-queue.hpp:138-145 | the corrected guard accepts exactly the offsets inside the buffer |
| AmQueue.Queue.constructor | implementations/active-message-queue/active-message-queue.hpp:215-220 | both offsets and writer counts are 0, `queue_num` is false, the queue is empty |
| AmQueue.Queue.Enqueue | implementations/active-message-queue/active-message-queue.hpp:110-153 | with the corrected bound `OffsetAccepted` (see Findings): succeeds exactly when the current buffer has room, appending `x` |
| AmQueue.Queue.Dequeue | implementations/active-message-queue/active-message-queue.hpp:259-298 | appends every buffered item to the output, in order, empties the buffer and flips `queue_num` |
| SQueue.ExhaustedBudgetGranted | implementations/squeue/squeue.hpp:136-143 | the guard `slot_count < 0` lets an enqueue through when the fetched budget is already 0 |
| SQueue.SlotGranted | implementations/squeue/squeue.hpp:136-143 | the corrected guard grants a slot exactly when the fetched budget is positive |
| SQueue.SubsetCount | implementations/squeue/squeue.hpp:144-165 | a subset has no more elements than its superset |
| SQueue.Skip | implementations/squeue/squeue.hpp:144-165 | the tickets skipped so far landed on distinct busy slots, so a free slot is found within `capacity` tickets |
| SQueue.Queue.constructor | implementations/squeue/squeue.hpp:40-51 | counter 0, budget `capacity`, every timestamp -1 |
| SQueue.Queue.Enqueue | implementations/squeue/squeue.hpp:135-166 | with the corrected guard `SlotGranted` (see Findings): succeeds exactly when budget remains; then the first ticket from the old counter whose slot is free claims that slot, with the marked entry, and the budget drops by one |
| SQueue.Queue.DrawTicket | implementations/squeue/squeue.hpp:144-153 | draws tickets until one lands on a free slot, within `capacity` draws; every earlier ticket landed on a taken slot |
| SQueue.Queue.Fill | implementations/squeue/squeue.hpp:154-164 | the slot takes the ticket and the marked entry, and leaves the free set |
| FaaCounters.DrawsConsecutive | implementations/lib/distributed-counters/faa.hpp:60-64 | `k` draws from `c` are `c, c + 1, ..., c + k - 1` |
| FaaCounters.DrawsAppend | implementations/lib/distributed-counters/faa.hpp:60-64 | one more draw appends the next value |
| FaaCounters.DrawsIncreasing | implementations/lib/distributed-counters/faa.hpp:60-64 | draws strictly increase |
| FaaCounters.Host | implementations/lib/distributed-counters/faa.hpp:17-19 | the host is the rank after the dequeuer's, wrapping, and is the dequeuer only in a one-rank communicator |
| FaaCounters.Counter.constructor | implementations/lib/distributed-counters/faa.hpp:13-36 | the cell starts at 0 on the chosen host |
| FaaCounters.Counter.Move | implementations/lib/distributed-counters/faa.hpp:41-48 | the new counter takes over the host and cell; the moved-from one is no longer live |
| FaaCounters.Counter.Destroy | implementations/lib/distributed-counters/faa.hpp:50-58 | frees the window exactly when the counter is live |
| FaaCounters.Counter.GetAndIncrement | implementations/lib/distributed-counters/faa.hpp:60-64 | returns the number of earlier calls and increments the cell |
| FaaCounters.HostedCounter.constructor | implementations/utils/distributed-counters/faa.hpp:17-40 | the cell on the given host starts at 0 |
| FaaCounters.HostedCounter.Destroy | implementations/utils/distributed-counters/faa.hpp:44-48 | always frees the window |
| FaaCounters.HostedCounter.GetAndIncrement | implementations/utils/distributed-counters/faa.hpp:50-54 | returns the number of earlier calls and increments the cell |
| CompositeCounter.Hosts | implementations/lib/distributed-counters/composite-2-3-faa.hpp:23-25 | the three host ranks lie in the communicator; the second and third coincide; the first equals them only for one rank |
| CompositeCounter.FetchTwo | implementations/lib/distributed-counters/composite-2-3-faa.hpp:66-92 | both chosen cells are incremented (one cell twice when they coincide) and the smaller old value is returned |
| CompositeCounter.Stride | implementations/lib/distributed-counters/composite-2-3-faa.hpp:66-92 | the step between values is 1 or 2 |
| CompositeCounter.UnsetCurCDuplicates | implementations/lib/distributed-counters/composite-2-3-faa.hpp:47-54 | with `_cur_c` left unset by the move, three calls return 0, 1, 1: a value is handed out twice |
| CompositeCounter.Counter.constructor | implementations/lib/distributed-counters/composite-2-3-faa.hpp:17-42 | the hosts are chosen from the dequeuer's rank; every cell and `_cur_c` is 0 |
| CompositeCounter.Counter.GetAndIncrement | implementations/lib/distributed-counters/composite-2-3-faa.hpp:66-92 | fetches on the two chosen cells; on a consistent counter the result is `stride * calls` |
| CompositeCounter.Counter.MoveHandle | implementations/lib/distributed-counters/composite-2-3-faa.hpp:47-54 | the moved handle keeps its `_cur_c`, so the counter stays consistent |
| MaxStutter.MaxFrom | implementations/utils/distributed-counters/max-stutter.hpp:70-73 | the maximum of the cells, or -1 when there are none |
| MaxStutter.MaxAfterRaise | implementations/utils/distributed-counters/max-stutter.hpp:74-77 | writing maximum + 1 into one cell raises the maximum by exactly one |
| MaxStutter.WindowCells | implementations/utils/distributed-counters/max-stutter.hpp:33-40 | only the host allocates cells |
| MaxStutter.NonHostZeroingOverruns | implementations/utils/distributed-counters/max-stutter.hpp:33-44 | a non-host rank writes `size - 1` zeros into its zero-cell window |
| MaxStutter.ZeroWindow | implementations/utils/distributed-counters/max-stutter.hpp:41-44 | zeroing over the window's own length sets every cell to 0 |
| MaxStutter.Maximum | implementations/utils/distributed-counters/max-stutter.hpp:70-73 | the loop computes the maximum of the buffer, or -1 |
| MaxStutter.Counter.constructor | implementations/utils/distributed-counters/max-stutter.hpp:20-54 | the host's `size - 1` cells start at 0 |
| MaxStutter.Counter.GetAndIncrement | implementations/utils/distributed-counters/max-stutter.hpp:65-78 | returns the maximum of the cells, which equals the number of earlier calls, and writes it + 1 into the caller's cell |
| MaxStutter.Counter.ReadWindow | implementations/utils/distributed-counters/max-stutter.hpp:66-69 | the buffer becomes a copy of the window |
| HazardPointers.NonNull | implementations/jiffy/hp.hpp:16-23 | the non-null reservations, and no others |
| HazardPointers.ScanSeparates | implementations/jiffy/hp.hpp:24-34 | released pointers are retired and unreserved; kept pointers are retired and reserved |
| HazardPointers.ScanSplits | implementations/jiffy/hp.hpp:24-34 | released and kept pointers together are exactly the retired ones, counting copies |
| HazardPointers.ScanSplitsStep | implementations/jiffy/hp.hpp:25-33 | one loop step preserves that split |
| HazardPointers.ScanStep | implementations/jiffy/hp.hpp:25-33 | the last retired pointer is released or kept according to whether it is reserved |
| HazardPointers.ScanAsWrittenDropsReserved | implementations/jiffy/hp.hpp:15-35 | a reserved retired pointer is neither freed nor back in the reclaimed list, so it is lost |
| HazardPointers.ReservedNotReleased | implementations/jiffy/hp.hpp:15-35 | a reserved pointer is never released |
| HazardPointers.Hp.constructor | implementations/jiffy/hp.hpp:38-46 | every reservation is null and both lists are empty |
| HazardPointers.Hp.Malloc | implementations/jiffy/hp.hpp:54-61 | reuses the last freed segment when there is one, otherwise a new one |
| HazardPointers.Hp.Free | implementations/jiffy/hp.hpp:63-68 | retires the pointer; past `2 * nprocs` retired pointers it runs the corrected scan `Hp.Scan` (see Findings), so no pointer is lost and no reserved pointer is freed |
| HazardPointers.Hp.Scan | implementations/jiffy/hp.hpp:15-35 | frees the unreserved retired pointers and keeps the reserved ones |
| HazardPointers.Hp.Drain | implementations/jiffy/hp.hpp:25-34 | the loop empties the reclaimed list into freed and kept pointers |
| HazardPointers.Hp.Reserved | implementations/jiffy/hp.hpp:16-23 | collects the non-null reservations |
| HazardPointers.Hp.Reserve | implementations/jiffy/hp.hpp:70-79 | publishes the read pointer in the caller's reservation, which then protects it |
| Isx.SliceSize | implementations/lib/benches/apps/isx/mpsc-isx.hpp:41 | `1 + MAX_NUM / nprocs` slices cover every key |
| Isx.SliceIndex | implementations/lib/benches/apps/isx/mpsc-isx.hpp:52 | every key's slice is a rank |
| Isx.SliceIndexMonotone | implementations/lib/benches/apps/isx/mpsc-isx.hpp:52 | larger keys go to the same or a higher rank |
| Isx.ElementsPerPe | implementations/lib/benches/apps/isx/mpsc-isx.hpp:48 | weak scaling: `n` keys per rank; strong scaling: `n / nprocs`, rounded down |
| Isx.Insert | implementations/lib/benches/apps/isx/mpsc-isx.hpp:62 | inserting adds exactly one copy of the key |
| Isx.InsertSorted | implementations/lib/benches/apps/isx/mpsc-isx.hpp:62 | inserting into a sorted sequence keeps it sorted |
| Isx.Sort | implementations/lib/benches/apps/isx/mpsc-isx.hpp:62 | `std::sort`: sorted and a permutation |
| Isx.ConcatMembers | implementations/lib/benches/apps/isx/mpsc-isx.hpp:57-62 | every key of the concatenated buckets comes from some bucket |
| Isx.ConcatAppend | implementations/lib/benches/apps/isx/mpsc-isx.hpp:53 | enqueuing a key into one queue adds it once to all the keys |
| Isx.BucketedAppend | implementations/lib/benches/apps/isx/mpsc-isx.hpp:50-54 | every queue holds only keys of its own slice, also after the next enqueue |
| Isx.BucketsSorted | implementations/lib/benches/apps/isx/mpsc-isx.hpp:57-62 | sorted per-rank buckets, concatenated in rank order, are sorted |
| Isx.SortedJoin | implementations/lib/benches/apps/isx/mpsc-isx.hpp:57-62 | two sorted runs whose keys are ordered join into a sorted run |
| Isx.Scatter | implementations/lib/benches/apps/isx/mpsc-isx.hpp:50-54 | one rank's keys are added to the queues of their slices and no key is lost |
| Isx.Drain | implementations/lib/benches/apps/isx/mpsc-isx.hpp:58-61 | draining a queue collects exactly its keys |
| Isx.Round | implementations/lib/benches/apps/isx/mpsc-isx.hpp:44-63 | after one iteration, every rank's keys are sorted, the ranks' keys in rank order are sorted, and together they are the keys drawn |
| Isx.ScatterAll | implementations/lib/benches/apps/isx/mpsc-isx.hpp:50-56 | all ranks' keys end up bucketed by slice, none lost |
| Isx.DrainAll | implementations/lib/benches/apps/isx/mpsc-isx.hpp:57-62 | every rank ends with its own queue's keys, sorted |
| Isx.EmptyConcat | implementations/lib/benches/apps/isx/mpsc-isx.hpp:33-36 | freshly built empty queues hold no keys |
| Isx.SortedBuckets | implementations/lib/benches/apps/isx/mpsc-isx.hpp:57-62 | sorting each bucketed queue sorts the whole key set and keeps its keys |
| Isx.SameKeysConcat | implementations/lib/benches/apps/isx/mpsc-isx.hpp:57-62 | buckets with the same keys concatenate to the same keys |

## Left out

- MPI window creation, locking, flushing, barriers and `MPI_Win_free` in destructors are not modelled. Only the window cells and what the calls do to them are.
- Concurrency is not modelled: calls never overlap, and each RMA call is one atomic step. The properties hold for runs where calls do not overlap. Linearizability under concurrent enqueuers is not claimed.
- `usleep` in `Backoff::backoff` is not modelled. The model records the time slept.
- The `synchronized` parameter of CCQueue's atomic enqueue and its spin loop are not modelled. The default (`false`) path is modelled.
- The retry loops that cannot run a second time when calls do not overlap are modelled as their single pass. These are CAS until success, FastQueue's flag wait, the active-message queue's enqueuer-count spin, and `reserve`.
- `SQueue::dequeue` has an empty body in the source and is not modelled.
- The move constructor of `SQueue` is not modelled. It only hands window ownership over. The FAA counter's move constructor is `FaaCounters.Counter.Move`.
- `uint64_t` and `MPI_Aint` overflow of the SPSC counters (`first`, `last`, `head`, `tail`) is not modelled. Those counters are unbounded integers. Timestamp counters wrap where the code compares them with `MAX_TIMESTAMP`.
- ISx randomness and timing are not modelled. The keys drawn are a parameter, `std::sort` is a function, and the slot queues are the sequences of their keys.
- Isx.Scatter: assumes every enqueue succeeds. The queue class ISx uses, `slotqueue/slotqueue.hpp`, is not part of this model, so its capacity is not modelled.
- The max-stutter counter's per-rank `_buffer` arrays are modelled as one buffer. Each call reads into its caller's buffer, and calls do not overlap.
- The composite 2-of-3 counter is modelled as one cell per rank, of which only the hosts' cells are used, plus one `_cur_c` per rank. The two fetch-and-adds of a call are one step.
- Jiffy (`jiffy.hpp`, `naive-jiffy.hpp`) and `cs_faa.hpp` are context, not part of this model.
- `code/ltqueue/ltqueue.hpp`: the outer `enqueue` and `dequeue` have empty bodies and are not modelled. Its inner SPSC is `ModularSpsc`.
- Each SPSC and queue class models one channel. Channels of different enqueuers live in disjoint cells, except in the hosted SPSC, which keeps all ranks.
- Slot-queue SPSCs are abstract FIFO sequences of timestamped items inside the MPSC model. `SlotSpsc` proves the ring behind them separately.
- `SlotQueue.Top`: ties between entries with equal timestamps are broken by push order, whereas `std::priority_queue` leaves them unspecified. The proofs do not depend on which tied entry is on top.
- Spsc.Channel.DequeuerReadFront: requires `batch_size > 0`. With a zero batch size the source reads `_cached_data[-1]`.
- LtSpsc.Channel.DequeuerReadFront: requires `batch_size > 0`, for the same reason.
- HostedSpsc.Hosted.DReadFront: requires `batch_size > 0`, for the same reason.
- HostedSpsc.Hosted.Refill: requires `batch_size > 0`, for the same reason.
- Spsc.Channel.Refill: requires `batch_size > 0`, for the same reason.
- SlotSpsc.Channel.EnqueueChunks: requires `capacity > 0`. The source computes `_last_buf % _capacity` even for an empty batch.
- CcQueue.Queue.Dequeue: on the atomic path, requires the reserved head to equal the head. Otherwise the source's CAS loop on the reserved head never succeeds and the call spins forever.
- MaxStutter.Counter.constructor: requires `0 <= host < size`. The source indexes the host's window without checking.
- AmQueue.Queue.Enqueue: uses the corrected bound `OffsetAccepted`. The source also accepts an offset equal to `capacity` and writes one slot past the buffer (Findings, `AmQueue.OffsetAtCapacityAccepted`).
- SQueue.Queue.Enqueue: uses the corrected guard `SlotGranted`. Once the budget is exhausted, the source lets the next enqueue through and it never leaves the claim loop (Findings, `SQueue.ExhaustedBudgetGranted`).
- HazardPointers.Hp.Free: runs the corrected scan `Hp.Scan`. The source's scan discards reserved retired pointers, so in the source a `free` that scans can lose them (Findings, `HazardPointers.ScanAsWrittenDropsReserved`).
- SQueue.Queue.Enqueue and SQueue.Queue.Fill: each slot holds a whole entry, a payload plus its `marked` flag. The source's data window has only `sizeof(T)` bytes per slot (squeue.hpp:44-45), yet it writes a whole `data_t` at displacement `timestamp % capacity` (squeue.hpp:161-163). So each write overlaps the start of the next slot, and a write to the last slot runs past the window. The constructor likewise sets `.marked` through a `T` pointer (squeue.hpp:50). The model does not capture this byte layout.
- LtQueue.Queue.Dequeue: the 32-bit timestamp counter wraps, so an item can be stamped `MAX_TIMESTAMP` (0xFFFFFFFF). While that item is at the front, its enqueuer reads as empty and a dequeue can fail with the item still queued. The contracts state this exactly, by front timestamps, and do not promise that a dequeue finds every queued item.
- SlotQueue.Queue.Dequeue: with the V2/V2a scan heaps, the oldest-front guarantee is stated only when the first scan starts empty. Leftover scan entries can be stale.

## Findings

| source | as written | input that shows it | evidently intended | confidence | as-written member | corrected member |
|---|---|---|---|---|---|---|
| implementations/slot-queue/slot-queue-v2.hpp:277-285 | `slot_t::operator<` compares timestamps and `std::priority_queue` is a max-heap, so the scans serve the LARGEST timestamp first | two enqueuers whose slots hold 1 and 2: the dequeue takes the item stamped 2 | a min-heap (`std::greater`), serving the oldest timestamp | high (not executed) | SlotQueue.MaxHeapServesLargest | SlotQueue.MinHeapServesSmallest |
| implementations/bcl/ccqueue.hpp:257-313 | the dequeuer constructor never initialises `_tail_buf`, which the dequeue guard trusts | `_tail_buf` holding 1 while head = tail = 0: the guard passes on an empty queue | `_tail_buf` initialised to 0 | medium (not executed) | CcQueue.UninitialisedTailBufServesEmpty | CcQueue.Queue.constructor |
| implementations/active-message-queue/active-message-queue.hpp:136-145 | the guard `offset > capacity` accepts `offset == capacity` | a full buffer: the next enqueue writes slot `capacity`, past the end | `offset >= capacity` | high (not executed) | AmQueue.OffsetAtCapacityAccepted | AmQueue.OffsetAccepted |
| implementations/squeue/squeue.hpp:136-143 | the guard `slot_count < 0` accepts a fetched budget of 0 | `capacity` successful enqueues, then one more: it passes and searches for a free slot that does not exist | `slot_count <= 0` | high (not executed) | SQueue.ExhaustedBudgetGranted | SQueue.SlotGranted |
| implementations/utils/distributed-counters/max-stutter.hpp:33-44 | every rank zeroes `size - 1` cells, but only the host allocated any | a non-host rank with `size >= 2`: writes into a zero-cell window | zero only the host's cells | high (not executed) | MaxStutter.NonHostZeroingOverruns | MaxStutter.ZeroWindow |
| implementations/jiffy/hp.hpp:15-35 | `_scan` moves reserved pointers into `reclaimed_list_temp` and then drops that list | a retired pointer that is also reserved: it is neither freed nor retired again | keep reserved pointers in `_reclaimed_list` | high (not executed) | HazardPointers.ScanAsWrittenDropsReserved | HazardPointers.Hp.Scan |
| implementations/lib/distributed-counters/composite-2-3-faa.hpp:47-54 | the move constructor does not copy `_cur_c` | three ranks, dequeuer 0: a handle with `_cur_c` 0 and a moved-to handle whose `_cur_c` holds 1 draw 0, then 1, then 1 again | copy `_cur_c` from the source | medium (not executed) | CompositeCounter.UnsetCurCDuplicates | CompositeCounter.Counter.MoveHandle |
