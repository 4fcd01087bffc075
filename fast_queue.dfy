/**
 * The BCL fast queue `FqEnqueuer`/`FqDequeuer`: a ring of `capacity` slots,
 * a `head` and a `tail` counter and one ready flag per slot, all hosted on
 * rank `host`.  Callers take tickets by fetch-and-add and hand them back when
 * the ring is full or empty; an enqueuer raises the flag of its slot after
 * writing it, and the dequeuer waits for the flag, reads the slot and lowers
 * the flag again.
 */
module FastQueue {
  import opened Wrappers
  import Ring

  /**
   * The flag of slot `j` is raised exactly when `j` is the slot of one of
   * the `len` tickets `head .. head + len - 1` that hold an item.
   */
  ghost predicate FlagsMark(flags: seq<bool>, head: int, len: int)
    requires |flags| > 0
  {
    forall j :: 0 <= j < |flags| ==> (flags[j] <==> Ring.Offset(head, j, |flags|) < len)
  }

  /** Moving `head` on by one brings every other slot one ticket closer, and puts `head`'s own slot last. */
  lemma OffsetAdvance(head: int, j: int, cap: int)
    requires cap > 0 && 0 <= j < cap
    ensures Ring.Offset(head + 1, j, cap) == if j == head % cap then cap - 1 else Ring.Offset(head, j, cap) - 1
  {
    var d, q := (j - head) % cap, (j - head) / cap;
    assert j - head == q * cap + d;
    Ring.OffsetOfTicket(head, 0, j, cap);
    if d == 0 {
      assert (q - 1) * cap == q * cap - cap;
      Ring.ModOfDecomposition(j - (head + 1), q - 1, cap - 1, cap);
    } else {
      Ring.ModOfDecomposition(j - (head + 1), q, d - 1, cap);
    }
  }

  /** Raising the flag of the next ticket's slot marks one more item. */
  lemma FlagsAppend(flags: seq<bool>, head: int, len: int)
    requires |flags| > 0 && 0 <= len < |flags| && FlagsMark(flags, head, len)
    ensures FlagsMark(flags[(head + len) % |flags| := true], head, len + 1)
  {
    var cap := |flags|;
    var f' := flags[(head + len) % cap := true];
    forall j | 0 <= j < cap
      ensures f'[j] <==> Ring.Offset(head, j, cap) < len + 1
    {
      Ring.OffsetOfTicket(head, len, j, cap);
    }
  }

  /** Lowering the flag of the oldest ticket's slot and moving `head` past it marks one item fewer. */
  lemma FlagsAdvance(flags: seq<bool>, head: int, len: int)
    requires |flags| > 0 && 0 < len <= |flags| && FlagsMark(flags, head, len)
    ensures FlagsMark(flags[head % |flags| := false], head + 1, len - 1)
  {
    var cap := |flags|;
    var f' := flags[head % cap := false];
    forall j | 0 <= j < cap
      ensures f'[j] <==> Ring.Offset(head + 1, j, cap) < len - 1
    {
      OffsetAdvance(head, j, cap);
    }
  }

  /**
   * An enqueue that holds ticket `tail` of a ring with room: writing its
   * slot appends the item, and raising its flag marks one more item.
   */
  lemma AppendStep<T>(data: seq<T>, flags: seq<bool>, head: int, tail: int, x: T)
    requires |data| == |flags| > 0 && head <= tail < head + |data| && FlagsMark(flags, head, tail - head)
    ensures Ring.Window(data[tail % |data| := x], head, tail + 1 - head) == Ring.Window(data, head, tail - head) + [x]
    ensures FlagsMark(flags[tail % |flags| := true], head, tail + 1 - head)
  {
    Ring.WindowAppend(data, head, tail - head, x);
    FlagsAppend(flags, head, tail - head);
    assert head + (tail - head) == tail;
  }

  /**
   * A dequeue that holds ticket `head` of a non-empty ring: its flag is
   * raised and its slot holds the oldest item; lowering the flag and moving
   * `head` on removes that item.
   */
  lemma AdvanceStep<T>(data: seq<T>, flags: seq<bool>, head: int, tail: int)
    requires |data| == |flags| > 0 && head < tail <= head + |data| && FlagsMark(flags, head, tail - head)
    ensures flags[head % |flags|]
    ensures data[head % |data|] == Ring.Window(data, head, tail - head)[0]
    ensures Ring.Window(data, head + 1, tail - (head + 1)) == Ring.Window(data, head, tail - head)[1..]
    ensures FlagsMark(flags[head % |flags| := false], head + 1, tail - (head + 1))
  {
    Ring.OffsetOfTicket(head, 0, head % |flags|, |flags|);
    Ring.WindowAdvance(data, head, tail - head);
    FlagsAdvance(flags, head, tail - head);
  }

  class Queue<T> {
    const capacity: int
    const host: int
    /** The communicator size: one private `_head_buf` per enqueuer rank. */
    const size: int

    /** The host's windows. */
    var head: int
    var tail: int
    var data: seq<T>
    var flags: seq<bool>
    /** Each enqueuer's `_head_buf` and the dequeuer's `_tail_buf`. */
    var headBufs: seq<int>
    var tailBuf: int

    /**
     * Between calls no ticket is outstanding: the ring holds the items of
     * tickets `head .. tail - 1`, at most `capacity` of them, exactly their
     * slots have their flag raised, and every private copy trails the counter
     * it copies.
     */
    ghost predicate Valid()
      reads this
    {
      |data| == capacity && |flags| == capacity && |headBufs| == size &&
      0 <= head <= tail <= head + capacity &&
      (forall r :: 0 <= r < size ==> headBufs[r] <= head) &&
      tailBuf <= tail &&
      (capacity > 0 ==> FlagsMark(flags, head, tail - head))
    }

    /** The items enqueued and not yet dequeued, in ticket order. */
    ghost function Contents(): (s: seq<T>)
      reads this
      requires Valid()
      ensures |s| == tail - head
    {
      Ring.Window(data, head, tail - head)
    }

    /**
     * Both constructors: the host zeroes `head`, `tail`, the slots and every
     * flag; every `_head_buf` and the `_tail_buf` start at 0.
     */
    constructor (capacity: nat, host: int, size: nat, zero: T)
      ensures Valid() && Contents() == []
      ensures this.capacity == capacity && this.host == host && this.size == size
      ensures head == tail == 0 && data == seq(capacity, _ => zero) && flags == seq(capacity, _ => false)
      ensures headBufs == seq(size, _ => 0) && tailBuf == 0
    {
      this.capacity := capacity;
      this.host := host;
      this.size := size;
      head, tail := 0, 0;
      data := seq(capacity, _ => zero);
      flags := seq(capacity, _ => false);
      headBufs := seq(size, _ => 0);
      tailBuf := 0;
    }

    /**
     * `enqueue` by enqueuer `rank`: take ticket `old_tail`; when the private
     * `_head_buf` shows no room, re-read `head`, and with still no room hand
     * the ticket back and refuse.  Otherwise write slot `old_tail % capacity`,
     * then raise its flag.
     */
    method Enqueue(rank: int, x: T) returns (ok: bool)
      requires Valid() && 0 <= rank < size
      modifies this`tail, this`data, this`flags, this`headBufs
      ensures Valid()
      ensures ok <==> |old(Contents())| < capacity
      ensures Contents() == if ok then old(Contents()) + [x] else old(Contents())
      ensures ok ==> data == old(data)[old(tail) % capacity := x] && flags == old(flags)[old(tail) % capacity := true]
      ensures !ok ==> tail == old(tail) && data == old(data) && flags == old(flags)
      ensures headBufs == old(headBufs)[rank := headBufs[rank]]
      ensures headBufs[rank] == old(headBufs[rank]) || headBufs[rank] == head
    {
      var oldTail;
      oldTail, ok := TakeTailTicket(rank);
      if !ok {
        return false;
      }
      AppendStep(data, flags, head, oldTail, x);
      data := data[oldTail % capacity := x];
      flags := flags[oldTail % capacity := true];
      ok := true;
    }

    /**
     * The ticket part of `enqueue`: fetch-and-add on `tail`; when the private
     * `_head_buf` shows no room, re-read `head`, and with still no room hand
     * the ticket back.  The ticket is kept exactly when the ring has room.
     */
    method TakeTailTicket(rank: int) returns (oldTail: int, ok: bool)
      requires Valid() && 0 <= rank < size
      modifies this`tail, this`headBufs
      ensures oldTail == old(tail)
      ensures ok <==> old(tail) - head < capacity
      ensures tail == if ok then old(tail) + 1 else old(tail)
      ensures |headBufs| == size && headBufs == old(headBufs)[rank := headBufs[rank]]
      ensures headBufs[rank] == old(headBufs[rank]) || headBufs[rank] == head
      ensures forall r :: 0 <= r < size ==> headBufs[r] <= head
    {
      oldTail := tail;
      tail := tail + 1;
      var newTail := oldTail + 1;
      if newTail - headBufs[rank] > capacity {
        headBufs := headBufs[rank := head];
        if newTail - headBufs[rank] > capacity {
          tail := tail - 1;
          return oldTail, false;
        }
      }
      ok := true;
    }

    /**
     * `dequeue`: take ticket `old_head`; when the private `_tail_buf` shows
     * the ring empty, re-read `tail`, and with the ring still empty hand the
     * ticket back and refuse.  Otherwise wait for the slot's flag, which is
     * already raised when the calls do not overlap, read the slot and lower
     * its flag.  Items come out in ticket order.
     */
    method Dequeue() returns (r: Option<T>)
      requires Valid()
      modifies this`head, this`flags, this`tailBuf
      ensures Valid()
      ensures r.Some? <==> old(Contents()) != []
      ensures r.Some? ==> r.value == old(Contents())[0] && Contents() == old(Contents())[1..]
      ensures r.Some? ==> head == old(head) + 1 && flags == old(flags)[old(head) % capacity := false]
      ensures r.None? ==> Contents() == old(Contents()) && head == old(head) && flags == old(flags)
    {
      var oldHead := head;
      head := head + 1;
      var newHead := oldHead + 1;
      if newHead > tailBuf {
        tailBuf := tail;
        if newHead > tailBuf {
          head := head - 1;
          assert head == oldHead;
          return None;
        }
      }
      AdvanceStep(data, flags, oldHead, tail);
      var flag := flags[oldHead % capacity];
      if !flag {
        assert false;
      }
      r := Some(data[oldHead % capacity]);
      flags := flags[oldHead % capacity := false];
    }
  }
}
