/**
 * The SPSC rings that `SlotEnqueuerV2`/`SlotDequeuerV2` and
 * `SlotEnqueuerV2b`/`SlotDequeuerV2b` embed.  The enqueuer owns the data
 * slots and a private copy of both counters; `first` and `last` are each one
 * window cell per enqueuer, and the dequeuer keeps its own copies of them
 * (one vector entry per enqueuer rank).  Unlike the shared SPSC, `last` is
 * published on every enqueue and the dequeuer has no prefetch cache.  V2 and
 * V2b host the counter cells on different ranks, which does not change what
 * one enqueuer and the dequeuer see, so one `Channel` serves both.
 */
module SlotSpsc {
  import opened Wrappers
  import Ring

  /**
   * `batch_awrite_sync`/`batch_awrite_async` of a contiguous chunk: slots
   * `offset .. offset + |chunk| - 1` take the chunk, every other slot keeps
   * its value.
   */
  function WriteChunk<T>(data: seq<T>, offset: int, chunk: seq<T>): (d: seq<T>)
    requires 0 <= offset && offset + |chunk| <= |data|
    ensures |d| == |data|
    ensures forall i :: 0 <= i < |d| ==> d[i] == if offset <= i < offset + |chunk| then chunk[i - offset] else data[i]
  {
    data[..offset] + chunk + data[offset + |chunk|..]
  }

  /**
   * The V2 batch write: when the batch fits before the end of the ring it is
   * one chunk at `last % capacity`; otherwise the first `capacity - last %
   * capacity` items go there and the rest to slot 0.  Either way item `i`
   * lands in the slot of counter `last + i`, and the window of a ring with
   * room for the batch grows by exactly the batch.
   */
  lemma ChunkedWriteWindow<T>(data: seq<T>, first: int, len: nat, xs: seq<T>, d: seq<T>)
    requires len + |xs| <= |data| && |data| > 0
    requires var o := (first + len) % |data|;
             d == if |data| - o >= |xs| then WriteChunk(data, o, xs)
                  else WriteChunk(WriteChunk(data, o, xs[..|data| - o]), 0, xs[|data| - o..])
    ensures Ring.Window(d, first, len + |xs|) == Ring.Window(data, first, len) + xs
  {
    forall k | 0 <= k < len + |xs|
      ensures Ring.Window(d, first, len + |xs|)[k] == (Ring.Window(data, first, len) + xs)[k]
    {
      ChunkedWriteSlot(data, first, len, xs, d, k);
      GrownWindowAt(data, first, len, xs, d, k);
    }
  }

  /** Item `k` of the grown window read off the slot of counter `first + k`. */
  lemma GrownWindowAt<T>(data: seq<T>, first: int, len: nat, xs: seq<T>, d: seq<T>, k: int)
    requires len + |xs| <= |data| && |d| == |data| > 0 && 0 <= k < len + |xs|
    requires d[(first + k) % |data|] == if k < len then data[(first + k) % |data|] else xs[k - len]
    ensures Ring.Window(d, first, len + |xs|)[k] == (Ring.Window(data, first, len) + xs)[k]
  {
  }

  /** Item `k` of the grown window: an old item for `k < len`, batch item `k - len` after. */
  lemma ChunkedWriteSlot<T>(data: seq<T>, first: int, len: nat, xs: seq<T>, d: seq<T>, k: int)
    requires len + |xs| <= |data| && |data| > 0 && 0 <= k < len + |xs|
    requires var o := (first + len) % |data|;
             d == if |data| - o >= |xs| then WriteChunk(data, o, xs)
                  else WriteChunk(WriteChunk(data, o, xs[..|data| - o]), 0, xs[|data| - o..])
    ensures d[(first + k) % |data|] == if k < len then data[(first + k) % |data|] else xs[k - len]
  {
    var cap := |data|;
    var last := first + len;
    var o := last % cap;
    var q := last / cap;
    assert last == q * cap + o;
    SlotAt(last, k - len, cap, o, q);
    assert first + k == last + (k - len);
  }

  /**
   * The batch write at the slot of counter `first + len`, as one chunk or,
   * past the end of the ring, as two: the window grows by exactly the batch.
   */
  method WriteWrapped<T>(data: seq<T>, first: int, len: nat, xs: seq<T>) returns (d: seq<T>)
    requires len + |xs| <= |data| && |data| > 0
    ensures |d| == |data|
    ensures Ring.Window(d, first, len + |xs|) == Ring.Window(data, first, len) + xs
  {
    var capacity := |data|;
    var offset := (first + len) % capacity;
    if capacity - offset >= |xs| {
      d := WriteChunk(data, offset, xs);
    } else {
      d := WriteChunk(data, offset, xs[..capacity - offset]);
      d := WriteChunk(d, 0, xs[capacity - offset..]);
    }
    ChunkedWriteWindow(data, first, len, xs, d);
  }

  /** The slot of counter `last + i`, for `-cap <= i < cap`, from `last`'s own slot `o`. */
  lemma SlotAt(last: int, i: int, cap: int, o: int, q: int)
    requires cap > 0 && last == q * cap + o && 0 <= o < cap && -cap <= i < cap
    ensures (last + i) % cap == if o + i < 0 then o + i + cap else if o + i < cap then o + i else o + i - cap
  {
    if o + i < 0 {
      Ring.ModOfDecomposition(last + i, q - 1, o + i + cap, cap);
    } else if o + i < cap {
      Ring.ModOfDecomposition(last + i, q, o + i, cap);
    } else {
      Ring.ModOfDecomposition(last + i, q + 1, o + i - cap, cap);
    }
  }

  class Channel<T> {
    const capacity: nat

    /** The enqueuer's data slots and its private `_first_buf`, `_last_buf`. */
    var data: seq<T>
    var eFirst: int
    var eLast: int
    /** The `first` and `last` window cells of this enqueuer. */
    var firstWin: int
    var lastWin: int
    /** The dequeuer's `_first_buf[rank]`, `_last_buf[rank]`. */
    var dFirst: int
    var dLast: int

    /**
     * The enqueuer's `first` trails the published one, the dequeuer's `last`
     * trails the published one, which is always the enqueuer's own, and the
     * ring never holds more than `capacity` items.
     */
    ghost predicate Valid()
      reads this
    {
      |data| == capacity &&
      0 <= eFirst <= firstWin && firstWin == dFirst && dFirst <= dLast <= lastWin &&
      lastWin == eLast && eLast <= dFirst + capacity
    }

    /** The items enqueued and not yet dequeued, oldest first. */
    ghost function Contents(): (s: seq<T>)
      reads this
      requires Valid()
      ensures |s| == eLast - dFirst <= capacity
    {
      Ring.Window(data, dFirst, eLast - dFirst)
    }

    /** The constructors: every counter and window cell starts at 0. */
    constructor (capacity: nat, garbage: T)
      ensures Valid() && Contents() == [] && this.capacity == capacity
      ensures eFirst == eLast == firstWin == lastWin == dFirst == dLast == 0
    {
      this.capacity := capacity;
      data := seq(capacity, _ => garbage);
      eFirst, eLast, firstWin, lastWin, dFirst, dLast := 0, 0, 0, 0, 0, 0;
    }

    /**
     * `enqueue` of one item: refused, with nothing written, exactly when the
     * ring is full even after re-reading `first`; otherwise the item goes to
     * slot `last % capacity` and the new `last` is published.
     */
    method Enqueue(x: T) returns (ok: bool)
      requires Valid()
      modifies this
      ensures Valid()
      ensures ok <==> |old(Contents())| < capacity
      ensures Contents() == if ok then old(Contents()) + [x] else old(Contents())
      ensures ok ==> data == old(data)[old(eLast) % capacity := x] && eLast == old(eLast) + 1
      ensures !ok ==> data == old(data) && eLast == old(eLast)
      ensures lastWin == eLast && (eFirst == old(eFirst) || eFirst == firstWin)
      ensures firstWin == old(firstWin) && dFirst == old(dFirst) && dLast == old(dLast)
    {
      var newLast := eLast + 1;
      if newLast - eFirst > capacity {
        eFirst := firstWin;
        if newLast - eFirst > capacity {
          return false;
        }
      }
      ghost var w, len := Contents(), eLast - dFirst;
      Ring.WindowAppend(data, dFirst, len, x);
      assert dFirst + len == eLast;
      data := data[eLast % capacity := x];
      lastWin := newLast;
      eLast := newLast;
      ok := true;
    }

    /**
     * The V2 `enqueue` of a batch: all or nothing, written as one chunk or,
     * when it wraps past the end of the ring, as two; the new `last` is
     * published.  The slot arithmetic divides by `capacity`, even for an
     * empty batch, so the ring has at least one slot.
     */
    method EnqueueChunks(xs: seq<T>) returns (ok: bool)
      requires Valid() && capacity > 0
      modifies this
      ensures Valid()
      ensures ok <==> |old(Contents())| + |xs| <= capacity
      ensures Contents() == if ok then old(Contents()) + xs else old(Contents())
      ensures ok ==> eLast == old(eLast) + |xs|
      ensures !ok ==> data == old(data) && eLast == old(eLast)
      ensures lastWin == eLast && (eFirst == old(eFirst) || eFirst == firstWin)
      ensures firstWin == old(firstWin) && dFirst == old(dFirst) && dLast == old(dLast)
    {
      var newLast := eLast + |xs|;
      if newLast - eFirst > capacity {
        eFirst := firstWin;
        if newLast - eFirst > capacity {
          return false;
        }
      }
      data := WriteWrapped(data, dFirst, eLast - dFirst, xs);
      lastWin := newLast;
      eLast := newLast;
      ok := true;
    }

    /**
     * The V2b `enqueue` of a batch: all or nothing, item `i` written to slot
     * `(last + i) % capacity` one at a time; the new `last` is published.
     */
    method EnqueueBatch(xs: seq<T>) returns (ok: bool)
      requires Valid()
      modifies this
      ensures Valid()
      ensures ok <==> |old(Contents())| + |xs| <= capacity
      ensures Contents() == if ok then old(Contents()) + xs else old(Contents())
      ensures ok ==> eLast == old(eLast) + |xs|
      ensures !ok ==> data == old(data) && eLast == old(eLast)
      ensures lastWin == eLast && (eFirst == old(eFirst) || eFirst == firstWin)
      ensures firstWin == old(firstWin) && dFirst == old(dFirst) && dLast == old(dLast)
    {
      var newLast := eLast + |xs|;
      if newLast - eFirst > capacity {
        eFirst := firstWin;
        if newLast - eFirst > capacity {
          return false;
        }
      }
      data := Ring.WriteBatch(data, dFirst, eLast - dFirst, xs);
      lastWin := newLast;
      eLast := newLast;
      ok := true;
    }

    /**
     * The enqueuer's `read_front`: the oldest item, after re-reading `first`
     * when the private copy does not already show the ring empty.
     */
    method EnqueuerReadFront() returns (r: Option<T>)
      requires Valid()
      modifies this`eFirst
      ensures Valid() && Contents() == old(Contents())
      ensures r.Some? <==> Contents() != []
      ensures r.Some? ==> r.value == Contents()[0]
      ensures eFirst == old(eFirst) || eFirst == firstWin
    {
      if eFirst >= eLast {
        return None;
      }
      eFirst := firstWin;
      if eFirst >= eLast {
        return None;
      }
      r := Some(data[eFirst % capacity]);
    }

    /**
     * The dequeuer's `dequeue`: refused exactly when the ring is empty after
     * re-reading `last`; otherwise slot `first % capacity` is returned and
     * the new `first` is published.
     */
    method Dequeue() returns (r: Option<T>)
      requires Valid()
      modifies this`dLast, this`dFirst, this`firstWin
      ensures Valid()
      ensures r.Some? <==> old(Contents()) != []
      ensures r.Some? ==> r.value == old(Contents())[0] && Contents() == old(Contents())[1..]
      ensures r.Some? ==> dFirst == old(dFirst) + 1 && firstWin == dFirst
      ensures r.None? ==> Contents() == old(Contents()) && dFirst == old(dFirst) && firstWin == old(firstWin)
      ensures dLast == old(dLast) || dLast == lastWin
    {
      var newFirst := dFirst + 1;
      if newFirst > dLast {
        dLast := lastWin;
        if newFirst > dLast {
          return None;
        }
      }
      Ring.WindowAdvance(data, dFirst, eLast - dFirst);
      r := Some(data[dFirst % capacity]);
      firstWin := newFirst;
      dFirst := newFirst;
    }

    /**
     * The dequeuer's `read_front`: the oldest item without consuming it,
     * after re-reading `last` when the private copy shows the ring empty.
     */
    method DequeuerReadFront() returns (r: Option<T>)
      requires Valid()
      modifies this`dLast
      ensures Valid() && Contents() == old(Contents())
      ensures r.Some? <==> Contents() != []
      ensures r.Some? ==> r.value == Contents()[0]
      ensures dLast == old(dLast) || dLast == lastWin
    {
      if dFirst >= dLast {
        dLast := lastWin;
        if dFirst >= dLast {
          return None;
        }
      }
      r := Some(data[dFirst % capacity]);
    }
  }
}
