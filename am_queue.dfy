/**
 * The active-message queue `AMEnqueuer`/`AMDequeuer`: two buffers of
 * `capacity` slots on the dequeuer, each with an `offset` (the next free
 * slot) and a `writer_count` (enqueuers inside it), and a `queue_num` cell
 * saying which buffer enqueuers fill.  The dequeuer drains the buffer being
 * filled by flipping `queue_num`, waiting for that buffer's writers to leave
 * and copying out its slots in index order.
 */
module AmQueue {
  /** Which buffer `queue_num` selects: `_data_1` when set, `_data_0` otherwise. */
  function Buf(queueNum: bool): (b: int)
    ensures 0 <= b < 2 && (b == 1 <==> queueNum)
  {
    if queueNum then 1 else 0
  }

  /** The enqueuer's bound check as written: a fetched offset is refused only above `capacity`. */
  function OffsetAcceptedAsWritten(offset: int, capacity: int): (b: bool)
  {
    !(offset > capacity)
  }

  /**
   * With the check as written, the offset `capacity` itself is accepted,
   * although a buffer of `capacity` slots has no slot `capacity`: the item
   * is written past its end and the drain copies `capacity + 1` slots.
   */
  lemma OffsetAtCapacityAccepted(capacity: int)
    requires capacity >= 0
    ensures OffsetAcceptedAsWritten(capacity, capacity) && !(0 <= capacity < capacity)
  {
  }

  /** The check the buffer size calls for: an offset is a slot exactly when it is below `capacity`. */
  function OffsetAccepted(offset: int, capacity: int): (b: bool)
    requires offset >= 0
    ensures b <==> 0 <= offset < capacity
    ensures b ==> OffsetAcceptedAsWritten(offset, capacity)
  {
    offset < capacity
  }

  class Queue<T> {
    const capacity: int

    /** The dequeuer's windows: both buffers, their writer counts and offsets, and `queue_num`. */
    var data: seq<seq<T>>
    var writerCount: seq<int>
    var offset: seq<int>
    var queueNum: bool
    /** The dequeuer's `_prev_queue_num`. */
    var prevQueueNum: bool

    /**
     * Between calls no enqueuer is inside a buffer, the dequeuer's copy of
     * `queue_num` is current, the buffer being filled holds at most
     * `capacity` items and the other one is empty.
     */
    ghost predicate Valid()
      reads this
    {
      capacity >= 0 &&
      |data| == 2 && |data[0]| == capacity && |data[1]| == capacity &&
      |writerCount| == 2 && writerCount[0] == 0 && writerCount[1] == 0 &&
      |offset| == 2 && 0 <= offset[Buf(queueNum)] <= capacity && offset[Buf(!queueNum)] == 0 &&
      queueNum == prevQueueNum
    }

    /** The items enqueued and not yet drained, in slot order. */
    ghost function Contents(): (s: seq<T>)
      reads this
      requires Valid()
      ensures |s| <= capacity
    {
      data[Buf(queueNum)][..offset[Buf(queueNum)]]
    }

    /**
     * The `AMDequeuer` constructor: offsets and writer counts 0, both copies
     * of `queue_num` false; the slots hold whatever the allocation left.
     */
    constructor (capacity: nat, garbage: T)
      ensures Valid() && Contents() == [] && this.capacity == capacity
      ensures offset == [0, 0] && writerCount == [0, 0] && !queueNum && !prevQueueNum
    {
      this.capacity := capacity;
      data := [seq(capacity, _ => garbage), seq(capacity, _ => garbage)];
      writerCount := [0, 0];
      offset := [0, 0];
      queueNum := false;
      prevQueueNum := false;
    }

    /**
     * `enqueue`: read `queue_num`, enter the selected buffer by adding one to
     * its writer count (retrying when a drain has made the count negative,
     * which cannot happen when the calls do not overlap), then take a slot by
     * fetch-and-add on its offset.  A slot past the end gives everything
     * back and refuses; otherwise the item is written and the writer leaves.
     */
    method Enqueue(x: T) returns (ok: bool)
      requires Valid()
      modifies this`data, this`writerCount, this`offset
      ensures Valid() && queueNum == old(queueNum)
      ensures ok <==> |old(Contents())| < capacity
      ensures Contents() == if ok then old(Contents()) + [x] else old(Contents())
      ensures !ok ==> data == old(data) && offset == old(offset)
    {
      var b := Buf(queueNum);
      var count := writerCount[b];
      writerCount := writerCount[b := count + 1];
      if count < 0 {
        assert false;
      }
      var off := offset[b];
      offset := offset[b := off + 1];
      if !OffsetAccepted(off, capacity) {
        offset := offset[b := offset[b] - 1];
        writerCount := writerCount[b := writerCount[b] - 1];
        return false;
      }
      ghost var before := data[b][..off];
      data := data[b := data[b][off := x]];
      assert data[b][..off + 1] == before + [x];
      writerCount := writerCount[b := writerCount[b] - 1];
      ok := true;
    }

    /**
     * `dequeue`: flip both copies of `queue_num` so that enqueuers move to
     * the other buffer, subtract `capacity` from the drained buffer's writer
     * count and poll it until no writer is left, then append its slots
     * `0 .. offset - 1` to `output` (which is not cleared) and reset its
     * offset and writer count.  It always succeeds; the buffer now being
     * filled starts empty.
     */
    method Dequeue(output: seq<T>) returns (output': seq<T>, ok: bool)
      requires Valid()
      modifies this`writerCount, this`offset, this`queueNum, this`prevQueueNum
      ensures Valid() && ok
      ensures output' == output + old(Contents())
      ensures Contents() == [] && queueNum == !old(queueNum)
    {
      var prev := prevQueueNum;
      prevQueueNum := !prevQueueNum;
      queueNum := prevQueueNum;
      var b := Buf(prev);
      var count := writerCount[b];
      writerCount := writerCount[b := count - capacity];
      while count > -capacity
        invariant writerCount[b] == -capacity
        decreases if count > -capacity then 1 else 0
      {
        count := writerCount[b];
      }
      var n := offset[b];
      offset := offset[b := 0];
      writerCount := writerCount[b := 0];
      output' := output;
      var i := 0;
      while i < n
        invariant 0 <= i <= n && output' == output + data[b][..i]
      {
        output' := output' + [data[b][i]];
        assert data[b][..i + 1] == data[b][..i] + [data[b][i]];
        i := i + 1;
      }
      ok := true;
    }
  }
}
