/**
 * The BCL circular queue `CCEnqueuer`/`CCDequeuer`: one ring of `capacity`
 * slots and four counters (`head`, `tail`, `reserved_head`, `reserved_tail`),
 * all hosted on rank `host`.  A caller first takes a ticket by fetch-and-add
 * on `head` or `tail`, rolls it back when the ring turns out to be full or
 * empty, and otherwise moves the matching reserved counter once its slot is
 * written or read.  Enqueuers keep a private copy of `reserved_head`, the
 * dequeuer one of the tail.  `CircularQueueAL` tells each call which other
 * operations may run concurrently, and so which path it takes.
 */
module CcQueue {
  import opened Wrappers
  import Ring

  /** The `CircularQueueAL` levels: bit 0 for concurrent enqueues, bit 1 for concurrent dequeues. */
  const AlNone: bv32 := 0
  const AlEnqueue: bv32 := 1
  const AlDequeue: bv32 := 2
  const AlEnqueueDequeue: bv32 := 3

  /** Which of its implementations `CCDequeuer::dequeue` runs. */
  datatype DequeuePath = Atomic | NonAtomic | Local | Refused

  /**
   * `CCEnqueuer::enqueue` takes the atomic path exactly when dequeues may run
   * concurrently.
   */
  function EnqueueIsAtomic(level: bv32): (atomic: bool)
  {
    level & AlDequeue != 0
  }

  /**
   * `CCDequeuer::dequeue`: the atomic path when enqueues may run
   * concurrently, the non-atomic one when only dequeues may, the host-local
   * one at level `none`; any other level is refused.
   */
  function DequeueDispatch(level: bv32): (p: DequeuePath)
    ensures p == Atomic <==> level & AlEnqueue != 0
    ensures p == NonAtomic <==> level & AlEnqueue == 0 && level & AlDequeue != 0
    ensures p == Local <==> level == AlNone
    ensures p == Refused <==> level & AlEnqueueDequeue == 0 && level != AlNone
  {
    if level & AlEnqueue != 0 then Atomic
    else if level & AlDequeue != 0 then NonAtomic
    else if level == AlNone then Local
    else Refused
  }

  /** The four named levels, and the default `enqueue | dequeue`, select the paths their names promise. */
  lemma DispatchOfNamedLevels()
    ensures AlEnqueueDequeue == AlEnqueue | AlDequeue
    ensures !EnqueueIsAtomic(AlNone) && !EnqueueIsAtomic(AlEnqueue)
    ensures EnqueueIsAtomic(AlDequeue) && EnqueueIsAtomic(AlEnqueueDequeue)
    ensures DequeueDispatch(AlNone) == Local && DequeueDispatch(AlEnqueue) == Atomic
    ensures DequeueDispatch(AlDequeue) == NonAtomic && DequeueDispatch(AlEnqueueDequeue) == Atomic
  {
  }

  /** `size_t` arithmetic of the sleep times. */
  const SizeLimit: int := 0x1_0000_0000_0000_0000

  /** `increase_backoff_impl_`: double (modulo 2^64, as `size_t` does), then cap at `max`. */
  function Increased(sleep: int, max: int): (s: int)
    requires 0 <= sleep < SizeLimit && 0 <= max < SizeLimit
    ensures 0 <= s <= max
    ensures 2 * sleep < SizeLimit ==> s == Ring.Min(2 * sleep, max)
  {
    Ring.Min((2 * sleep) % SizeLimit, max)
  }

  /** `x * 2^k`. */
  function Doubled(x: int, k: nat): (d: int)
    ensures x >= 0 ==> d >= x
  {
    if k == 0 then x else 2 * Doubled(x, k - 1)
  }

  /** The sleep time after `k` backoffs from a fresh or reset `Backoff`. */
  function SleepAfter(init: int, max: int, k: nat): (s: int)
    requires 0 <= init < SizeLimit && 0 <= max < SizeLimit
    ensures 0 <= s < SizeLimit
  {
    if k == 0 then init else Increased(SleepAfter(init, max, k - 1), max)
  }

  /**
   * Without overflow, the `k`-th backoff sleeps `min(init * 2^k, max)`: the
   * delay doubles from its initial value until it reaches the cap and then
   * stays there.
   */
  lemma {:induction false} SleepAfterDoubles(init: int, max: int, k: nat)
    requires 0 <= init <= max && 2 * max < SizeLimit
    ensures SleepAfter(init, max, k) == Ring.Min(Doubled(init, k), max)
  {
    if k > 0 {
      SleepAfterDoubles(init, max, k - 1);
      var prev, d := SleepAfter(init, max, k - 1), Doubled(init, k - 1);
      assert prev == Ring.Min(d, max) && Doubled(init, k) == 2 * d;
      assert 0 <= prev <= max && (2 * prev) % SizeLimit == 2 * prev;
      assert SleepAfter(init, max, k) == Ring.Min(2 * prev, max);
      if d <= max {
        assert prev == d;
      } else {
        assert prev == max && Ring.Min(2 * prev, max) == max == Ring.Min(2 * d, max);
      }
    }
  }

  /** `Backoff`: a sleep time that doubles on every backoff, up to `max_sleep`. */
  class Backoff {
    var sleepTime: int
    const maxSleep: int
    const initSleep: int

    ghost predicate Valid()
      reads this
    {
      0 <= sleepTime < SizeLimit && 0 <= maxSleep < SizeLimit && 0 <= initSleep < SizeLimit
    }

    /** `Backoff(init_sleep = 1, max_sleep = 1)`. */
    constructor (initSleep: int, maxSleep: int)
      requires 0 <= initSleep < SizeLimit && 0 <= maxSleep < SizeLimit
      ensures Valid() && sleepTime == initSleep
      ensures this.initSleep == initSleep && this.maxSleep == maxSleep
    {
      this.initSleep := initSleep;
      this.maxSleep := maxSleep;
      sleepTime := initSleep;
    }

    /**
     * `backoff`: sleeps for the current time, returned here in place of the
     * `usleep`, then increases it.  From the first call on, the time never
     * exceeds `max_sleep`.
     */
    method Backoff() returns (slept: int)
      requires Valid()
      modifies this
      ensures Valid() && slept == old(sleepTime)
      ensures sleepTime == Increased(old(sleepTime), maxSleep) <= maxSleep
    {
      slept := sleepTime;
      sleepTime := Ring.Min((2 * sleepTime) % SizeLimit, maxSleep);
    }

    /** `reset`: back to the initial sleep time. */
    method Reset()
      requires Valid()
      modifies this
      ensures Valid() && sleepTime == initSleep
    {
      sleepTime := initSleep;
    }
  }

  /**
   * Whether a dequeue finds an item, given its ticket `head`, its private
   * copy `tailBuf` of the tail and the tail it re-reads when the copy shows
   * the ring empty.
   */
  function DequeueSeesItem(head: int, tailBuf: int, tail: int): (b: bool)
  {
    head + 1 <= tailBuf || head + 1 <= tail
  }

  /** With a private tail that never runs ahead of the real one, a dequeue finds an item exactly when the ring holds one. */
  lemma DequeueSeesItemIffNonEmpty(head: int, tailBuf: int, tail: int)
    requires tailBuf <= tail
    ensures DequeueSeesItem(head, tailBuf, tail) <==> head < tail
  {
  }

  /**
   * The `CCDequeuer` constructor never sets `_tail_buf`: a stale value above
   * the tail makes the first dequeue on an empty ring skip the refresh and
   * return a slot nobody wrote.
   */
  lemma UninitialisedTailBufServesEmpty()
    ensures var head, tail, tailBuf := 0, 0, 1;
            head == tail && DequeueSeesItem(head, tailBuf, tail)
  {
  }

  class Queue<T> {
    const capacity: int
    const host: int
    /** The communicator size: one private `_head_buf` per enqueuer rank. */
    const size: int
    /** The rank running the `CCDequeuer`. */
    const dequeuer: int

    /** The host's windows. */
    var head: int
    var tail: int
    var reservedHead: int
    var reservedTail: int
    var data: seq<T>
    /** Each enqueuer's `_head_buf` and the dequeuer's `_tail_buf`. */
    var headBufs: seq<int>
    var tailBuf: int

    /**
     * Between calls: no ticket is outstanding, so `reserved_tail` equals
     * `tail`; `reserved_head` trails `head` by the items taken by host-local
     * dequeues; the ring holds at most `capacity` items counted from
     * `reserved_head`; every private copy trails the counter it copies.
     */
    ghost predicate Valid()
      reads this
    {
      |data| == capacity && |headBufs| == size &&
      0 <= reservedHead <= head <= tail && reservedTail == tail && tail - reservedHead <= capacity &&
      (forall r :: 0 <= r < size ==> headBufs[r] <= reservedHead) &&
      tailBuf <= tail
    }

    /** The items enqueued and not yet dequeued, oldest first. */
    ghost function Contents(): (s: seq<T>)
      reads this
      requires Valid()
      ensures |s| == tail - head
    {
      Ring.Window(data, head, tail - head)
    }

    /**
     * Both constructors: the host zeroes the four counters and the slots,
     * each enqueuer starts with `_head_buf = 0`.  The dequeuer's `_tail_buf`
     * starts at 0 here; the source leaves it unset.
     */
    constructor (capacity: nat, host: int, size: nat, dequeuer: int, zero: T)
      ensures Valid() && Contents() == []
      ensures this.capacity == capacity && this.host == host && this.size == size && this.dequeuer == dequeuer
      ensures head == tail == reservedHead == reservedTail == 0 && data == seq(capacity, _ => zero)
      ensures headBufs == seq(size, _ => 0) && tailBuf == 0
    {
      this.capacity := capacity;
      this.host := host;
      this.size := size;
      this.dequeuer := dequeuer;
      head, tail, reservedHead, reservedTail := 0, 0, 0, 0;
      data := seq(capacity, _ => zero);
      headBufs := seq(size, _ => 0);
      tailBuf := 0;
    }

    /**
     * The ticket part shared by both enqueue paths: fetch-and-add on `tail`,
     * then, when the private `_head_buf` shows no room, re-read
     * `reserved_head`; with still no room the ticket is handed back.
     */
    method TakeTailTicket(rank: int) returns (oldTail: int, ok: bool)
      requires Valid() && 0 <= rank < size
      modifies this`tail, this`headBufs
      ensures |headBufs| == size && oldTail == old(tail) && headBufs[rank] <= reservedHead
      ensures ok <==> old(tail) - reservedHead < capacity
      ensures ok ==> tail == old(tail) + 1 && oldTail - headBufs[rank] < capacity
      ensures !ok ==> tail == old(tail)
      ensures headBufs == old(headBufs)[rank := headBufs[rank]]
      ensures headBufs[rank] == old(headBufs[rank]) || headBufs[rank] == reservedHead
    {
      oldTail := tail;
      tail := tail + 1;
      var newTail := oldTail + 1;
      if newTail - headBufs[rank] > capacity {
        headBufs := headBufs[rank := reservedHead];
        if newTail - headBufs[rank] > capacity {
          tail := tail - 1;
          return oldTail, false;
        }
      }
      ok := true;
    }

    /**
     * `enqueue` by enqueuer `rank`: the atomic path when dequeues may run
     * concurrently, the non-atomic one otherwise.  Either way the item is
     * refused exactly when the ring, counted from `reserved_head`, is full.
     */
    method Enqueue(rank: int, x: T, level: bv32) returns (ok: bool)
      requires Valid() && 0 <= rank < size
      modifies this`tail, this`reservedTail, this`data, this`headBufs
      ensures Valid()
      ensures ok <==> old(tail) - reservedHead < capacity
      ensures old(head) == reservedHead ==> (ok <==> |old(Contents())| < capacity)
      ensures Contents() == if ok then old(Contents()) + [x] else old(Contents())
      ensures !ok ==> tail == old(tail) && data == old(data)
    {
      if EnqueueIsAtomic(level) {
        ok := EnqueueAtomic(rank, x);
      } else {
        ok := EnqueueNonAtomic(rank, x);
      }
    }

    /**
     * `_enqueue_atomic_impl`: after the ticket, write slot `old_tail %
     * capacity` and compare-and-swap `reserved_tail` from `old_tail` to
     * `old_tail + 1`, which succeeds on the first attempt when the calls do
     * not overlap.
     */
    method EnqueueAtomic(rank: int, x: T) returns (ok: bool)
      requires Valid() && 0 <= rank < size
      modifies this`tail, this`reservedTail, this`data, this`headBufs
      ensures Valid()
      ensures ok <==> old(tail) - reservedHead < capacity
      ensures Contents() == if ok then old(Contents()) + [x] else old(Contents())
      ensures ok ==> data == old(data)[old(tail) % capacity := x] && tail == reservedTail == old(tail) + 1
      ensures !ok ==> tail == old(tail) && data == old(data)
    {
      var oldTail;
      oldTail, ok := TakeTailTicket(rank);
      if !ok {
        return;
      }
      Write(oldTail, x);
      var rv := reservedTail;
      if rv == oldTail {
        reservedTail := oldTail + 1;
      }
      if rv != oldTail {
        assert false;
      }
    }

    /**
     * `_enqueue_nonatomic_impl`: after the ticket, write slot `old_tail %
     * capacity` and add one to `reserved_tail`.
     */
    method EnqueueNonAtomic(rank: int, x: T) returns (ok: bool)
      requires Valid() && 0 <= rank < size
      modifies this`tail, this`reservedTail, this`data, this`headBufs
      ensures Valid()
      ensures ok <==> old(tail) - reservedHead < capacity
      ensures Contents() == if ok then old(Contents()) + [x] else old(Contents())
      ensures ok ==> data == old(data)[old(tail) % capacity := x] && tail == reservedTail == old(tail) + 1
      ensures !ok ==> tail == old(tail) && data == old(data)
    {
      var oldTail;
      oldTail, ok := TakeTailTicket(rank);
      if !ok {
        return;
      }
      Write(oldTail, x);
      reservedTail := reservedTail + 1;
    }

    /**
     * Storing the item of ticket `oldTail`, taken while the ring had room:
     * the contents, counted up to the new `tail`, grow by the item.
     */
    method Write(oldTail: int, x: T)
      requires |data| == capacity && 0 <= reservedHead <= head <= oldTail && tail == oldTail + 1
      requires oldTail + 1 - reservedHead <= capacity
      modifies this`data
      ensures capacity > 0 && data == old(data)[oldTail % capacity := x]
      ensures Ring.Window(data, head, tail - head) == Ring.Window(old(data), head, oldTail - head) + [x]
    {
      Ring.WindowAppend(data, head, oldTail - head, x);
      assert head + (oldTail - head) == oldTail;
      data := data[oldTail % capacity := x];
    }

    /**
     * `dequeue` at a given atomicity level.  The atomic path needs
     * `reserved_head` level with `head`: after a host-local dequeue its
     * compare-and-swap never succeeds and the source spins for ever.
     */
    method Dequeue(level: bv32) returns (r: Option<T>)
      requires Valid()
      requires DequeueDispatch(level) == Atomic ==> reservedHead == head
      modifies this`head, this`reservedHead, this`tailBuf
      ensures Valid()
      ensures DequeueDispatch(level) == Refused ==> r.None?
      ensures DequeueDispatch(level) == Local && dequeuer != host ==> r.None?
      ensures r.Some? ==> old(Contents()) != [] && r.value == old(Contents())[0] && Contents() == old(Contents())[1..]
      ensures r.None? ==> Contents() == old(Contents()) && head == old(head)
      ensures DequeueDispatch(level) in {Atomic, NonAtomic} || (level == AlNone && dequeuer == host) ==>
                (r.Some? <==> old(Contents()) != [])
      ensures DequeueDispatch(level) == Atomic ==> reservedHead == head
      ensures DequeueDispatch(level) == NonAtomic ==> head - reservedHead == old(head - reservedHead)
      ensures DequeueDispatch(level) in {Local, Refused} ==> reservedHead == old(reservedHead)
    {
      match DequeueDispatch(level)
      case Atomic => r := DequeueAtomic();
      case NonAtomic => r := DequeueNonAtomic();
      case Local => r := LocalDequeue();
      case Refused => r := None;
    }

    /**
     * The ticket part shared by both remote dequeue paths: fetch-and-add on
     * `head`; when the private tail shows the ring empty, re-read the tail
     * (`reserved_tail` on the atomic path, `tail` on the other, which agree
     * between calls), and with the ring still empty hand the ticket back.
     */
    method TakeHeadTicket() returns (oldHead: int, ok: bool)
      requires Valid()
      modifies this`head, this`tailBuf
      ensures Valid() && oldHead == old(head)
      ensures ok <==> DequeueSeesItem(old(head), old(tailBuf), tail)
      ensures ok <==> old(Contents()) != []
      ensures ok ==> head == old(head) + 1
      ensures !ok ==> head == old(head)
    {
      DequeueSeesItemIffNonEmpty(head, tailBuf, tail);
      oldHead := head;
      head := head + 1;
      var newHead := oldHead + 1;
      if newHead > tailBuf {
        tailBuf := reservedTail;
        if newHead > tailBuf {
          head := head - 1;
          return oldHead, false;
        }
      }
      ok := true;
    }

    /** Reading the item of ticket `oldHead`: the oldest item, and the contents lose it. */
    method ReadSlot(oldHead: int) returns (x: T)
      requires |data| == capacity && 0 <= oldHead < tail && tail - oldHead <= capacity
      ensures capacity > 0 && x == data[oldHead % capacity]
      ensures x == Ring.Window(data, oldHead, tail - oldHead)[0]
      ensures Ring.Window(data, oldHead + 1, tail - (oldHead + 1)) == Ring.Window(data, oldHead, tail - oldHead)[1..]
    {
      Ring.WindowAdvance(data, oldHead, tail - oldHead);
      x := data[oldHead % capacity];
    }

    /**
     * `_dequeue_atomic_impl`: after the ticket, read slot `old_head %
     * capacity` and compare-and-swap `reserved_head` from `old_head` to
     * `old_head + 1`, which succeeds on the first attempt.
     */
    method DequeueAtomic() returns (r: Option<T>)
      requires Valid() && reservedHead == head
      modifies this`head, this`reservedHead, this`tailBuf
      ensures Valid() && reservedHead == head
      ensures r.Some? <==> old(Contents()) != []
      ensures r.Some? ==> r.value == old(Contents())[0] && Contents() == old(Contents())[1..] && head == old(head) + 1
      ensures r.None? ==> Contents() == old(Contents()) && head == old(head)
    {
      var oldHead, ok := TakeHeadTicket();
      if !ok {
        return None;
      }
      var x := ReadSlot(oldHead);
      var rv := reservedHead;
      if rv == oldHead {
        reservedHead := oldHead + 1;
      }
      if rv != oldHead {
        assert false;
      }
      r := Some(x);
    }

    /**
     * `_dequeue_nonatomic_impl`: after the ticket, read slot `old_head %
     * capacity` and add one to `reserved_head`.
     */
    method DequeueNonAtomic() returns (r: Option<T>)
      requires Valid()
      modifies this`head, this`reservedHead, this`tailBuf
      ensures Valid() && head - reservedHead == old(head - reservedHead)
      ensures r.Some? <==> old(Contents()) != []
      ensures r.Some? ==> r.value == old(Contents())[0] && Contents() == old(Contents())[1..] && head == old(head) + 1
      ensures r.None? ==> Contents() == old(Contents()) && head == old(head) && reservedHead == old(reservedHead)
    {
      var oldHead, ok := TakeHeadTicket();
      if !ok {
        return None;
      }
      var x := ReadSlot(oldHead);
      reservedHead := reservedHead + 1;
      r := Some(x);
    }

    /**
     * `_local_nonatomic_dequeue`: only on the host, straight from its own
     * windows.  It moves `head` but not `reserved_head`, so the slot it frees
     * stays unavailable to enqueuers.
     */
    method LocalDequeue() returns (r: Option<T>)
      requires Valid()
      modifies this`head
      ensures Valid() && reservedHead == old(reservedHead)
      ensures r.Some? <==> dequeuer == host && old(Contents()) != []
      ensures r.Some? ==> r.value == old(Contents())[0] && Contents() == old(Contents())[1..] && head == old(head) + 1
      ensures r.None? ==> Contents() == old(Contents()) && head == old(head)
    {
      if dequeuer != host {
        return None;
      }
      if head + 1 > tail {
        return None;
      }
      var x := ReadSlot(head);
      head := head + 1;
      r := Some(x);
    }
  }
}
