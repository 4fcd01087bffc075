/**
 * The bounded SPSC inside `LTEnqueuer` and `LTDequeuer`.  It is the ring of
 * the plain SPSC without the enqueuer-local `last` window: every enqueue
 * publishes the new `last` to the dequeuer straight away, and the dequeuer
 * refreshes its copy of `last` from that one window.  The enqueuer's read of
 * the front feeds its minimum timestamp; the dequeuer's goes through the
 * prefetch cache.
 */
module LtSpsc {
  import opened Wrappers
  import Ring

  /**
   * What holds between one enqueuer's counters and the dequeuer's entries for
   * it after every call: the enqueuer's copy of `first` trails the published
   * one, the ring holds at most `capacity` items, the published `last` is the
   * enqueuer's, the dequeuer's copy trails it, and the cache mirrors the front.
   */
  ghost predicate ChannelInv<T>(capacity: nat, data: seq<T>, eFirst: int, eLast: int,
                                firstWin: int, lastWin: int, dFirst: int, dLast: int,
                                cached: seq<T>, cachedSize: int)
  {
    |data| == capacity &&
    0 <= eFirst <= firstWin && firstWin == dFirst && dFirst <= eLast <= dFirst + capacity &&
    lastWin == eLast && dFirst <= dLast <= eLast &&
    Ring.CacheCoherent(cached, cachedSize, Ring.Window(data, dFirst, eLast - dFirst))
  }

  class Channel<T> {
    const capacity: nat
    const batchSize: nat

    /** The enqueuer's data window. */
    var data: seq<T>
    /** The dequeuer's `first` and `last` windows (this enqueuer's entries). */
    var firstWin: int
    var lastWin: int
    /** The enqueuer's `_first_buf` and `_last_buf`. */
    var eFirst: int
    var eLast: int
    /** The dequeuer's `_first_buf`, `_last_buf` entries and reversed cache. */
    var dFirst: int
    var dLast: int
    var cached: seq<T>
    var cachedSize: int

    ghost predicate Valid()
      reads this
    {
      |cached| == batchSize &&
      ChannelInv(capacity, data, eFirst, eLast, firstWin, lastWin, dFirst, dLast, cached, cachedSize)
    }

    /** The items enqueued and not yet dequeued, oldest first. */
    ghost function Contents(): seq<T>
      reads this
      requires Valid()
    {
      Ring.Window(data, dFirst, eLast - dFirst)
    }

    /** Both constructors: every counter starts at 0 and every cache is empty. */
    constructor (capacity: nat, batchSize: nat, garbage: T)
      ensures Valid() && Contents() == []
      ensures this.capacity == capacity && this.batchSize == batchSize
      ensures eFirst == eLast == firstWin == lastWin == dFirst == dLast == 0 && cachedSize == 0
    {
      this.capacity := capacity;
      this.batchSize := batchSize;
      data := seq(capacity, _ => garbage);
      cached := seq(batchSize, _ => garbage);
      firstWin, lastWin := 0, 0;
      eFirst, eLast, dFirst, dLast, cachedSize := 0, 0, 0, 0, 0;
    }

    /**
     * The enqueuer's single `enqueue`: refused, with nothing written, exactly
     * when the ring is full even after re-reading `first`; otherwise the item
     * goes to the slot of `last` and the new `last` is published.
     */
    method Enqueue(x: T) returns (ok: bool)
      requires Valid()
      modifies this
      ensures Valid()
      ensures ok <==> |old(Contents())| < capacity
      ensures Contents() == if ok then old(Contents()) + [x] else old(Contents())
      ensures ok ==> data == old(data)[old(eLast) % capacity := x] && eLast == old(eLast) + 1
      ensures !ok ==> data == old(data) && eLast == old(eLast)
      ensures eFirst == old(eFirst) || eFirst == firstWin
      ensures firstWin == old(firstWin) && dFirst == old(dFirst) && dLast == old(dLast)
      ensures cached == old(cached) && cachedSize == old(cachedSize)
    {
      var newLast := eLast + 1;
      if newLast - eFirst > capacity {
        eFirst := firstWin;
        if newLast - eFirst > capacity {
          return false;
        }
      }
      ghost var w, len := Contents(), eLast - dFirst;
      Ring.WindowAppend(data, dFirst, len, x);
      assert dFirst + len == eLast;
      Ring.CacheExtends(cached, cachedSize, w, [x]);
      data := data[eLast % capacity := x];
      lastWin := newLast;
      eLast := newLast;
      ok := true;
    }

    /**
     * The enqueuer's batch `enqueue`: all or nothing; item `i` goes to the
     * slot of counter `last + i` and the new `last` is published.
     */
    method EnqueueBatch(xs: seq<T>) returns (ok: bool)
      requires Valid()
      modifies this
      ensures Valid()
      ensures ok <==> |old(Contents())| + |xs| <= capacity
      ensures Contents() == if ok then old(Contents()) + xs else old(Contents())
      ensures ok ==> eLast == old(eLast) + |xs|
      ensures !ok ==> data == old(data) && eLast == old(eLast)
      ensures eFirst == old(eFirst) || eFirst == firstWin
      ensures firstWin == old(firstWin) && dFirst == old(dFirst) && dLast == old(dLast)
      ensures cached == old(cached) && cachedSize == old(cachedSize)
    {
      var newLast := eLast + |xs|;
      if newLast - eFirst > capacity {
        eFirst := firstWin;
        if newLast - eFirst > capacity {
          return false;
        }
      }
      ghost var before := Contents();
      data := Ring.WriteBatch(data, dFirst, eLast - dFirst, xs);
      assert dFirst + (eLast - dFirst) == eLast;
      Ring.CacheExtends(cached, cachedSize, before, xs);
      lastWin := newLast;
      eLast := newLast;
      ok := true;
    }

    /**
     * The enqueuer's `read_front`: nothing when its own counters already say
     * empty or still do after re-reading `first`; otherwise the front item.
     */
    method EnqueuerReadFront() returns (r: Option<T>)
      requires Valid()
      modifies this`eFirst
      ensures Valid() && Contents() == old(Contents())
      ensures r.Some? <==> Contents() != []
      ensures r.Some? ==> r.value == Contents()[0]
      ensures eFirst == old(eFirst) || eFirst == firstWin
    {
      if eFirst >= eLast {
        return None;
      }
      eFirst := firstWin;
      if eFirst >= eLast {
        return None;
      }
      r := Some(data[eFirst % capacity]);
    }

    /** The dequeuer re-reads the published `last` when its copy is below `need`. */
    method RefreshLast(need: int)
      requires Valid()
      modifies this`dLast
      ensures Valid()
      ensures need <= dLast <==> need <= eLast
      ensures dLast == old(dLast) || dLast == lastWin
    {
      if need > dLast {
        dLast := lastWin;
      }
    }

    /** Refill the cache with the `n` items from counter `from` on, newest at the bottom. */
    method FillCache(from: int, n: int)
      requires Valid() && 0 <= n <= batchSize && dFirst <= from && from + n <= eLast
      modifies this`cached, this`cachedSize
      ensures |cached| == batchSize && cachedSize == n
      ensures Ring.CacheCoherent(cached, n, Ring.Window(data, from, eLast - from))
    {
      cached := Ring.Prefetch(data, from, n, cached);
      cachedSize := n;
      Ring.WindowSplit(data, from, n, eLast - from);
      Ring.CacheExtends(cached, n, Ring.Window(data, from, n), Ring.Window(data, from + n, eLast - from - n));
    }

    /** Serve the cache top, or read the front slot and prefetch the items after it. */
    method TakeFront(newFirst: int) returns (out: T)
      requires Valid() && newFirst == dFirst + 1 && newFirst <= dLast
      modifies this`cached, this`cachedSize
      ensures |cached| == batchSize && out == old(Contents())[0]
      ensures Ring.CacheCoherent(cached, cachedSize, old(Contents())[1..])
    {
      ghost var w := Contents();
      Ring.WindowAdvance(data, dFirst, eLast - dFirst);
      if cachedSize > 0 {
        Ring.CachePop(cached, cachedSize, w);
        out := cached[cachedSize - 1];
        cachedSize := cachedSize - 1;
      } else {
        out := data[dFirst % capacity];
        FillCache(newFirst, Ring.Min(batchSize, dLast - newFirst));
      }
    }

    /**
     * The dequeuer's `dequeue`: nothing when `first + 1` passes `last` even
     * after re-reading it; otherwise the oldest item, from the cache or from
     * its slot with a prefetch of the next `min(batch, last - new_first)`
     * items, and `first` advances by one and is published.
     */
    method Dequeue() returns (r: Option<T>)
      requires Valid()
      modifies this`dLast, this`cached, this`cachedSize, this`dFirst, this`firstWin
      ensures Valid()
      ensures r.Some? <==> old(Contents()) != []
      ensures r.Some? ==> r.value == old(Contents())[0] && Contents() == old(Contents())[1..]
      ensures r.Some? ==> dFirst == old(dFirst) + 1 && firstWin == dFirst
      ensures r.None? ==> Contents() == old(Contents()) && dFirst == old(dFirst) && firstWin == old(firstWin)
      ensures r.None? ==> cached == old(cached) && cachedSize == old(cachedSize)
    {
      var newFirst := dFirst + 1;
      RefreshLast(newFirst);
      if newFirst > dLast {
        return None;
      }
      ghost var w := Contents();
      Ring.WindowAdvance(data, dFirst, eLast - dFirst);
      var out := TakeFront(newFirst);
      firstWin := newFirst;
      dFirst := newFirst;
      assert Contents() == w[1..];
      r := Some(out);
    }

    /**
     * The dequeuer's `read_front`: the front item without consuming it, read
     * from the cache top after refilling an empty cache.  A zero batch size
     * would read below the cache, so it is excluded.
     */
    method DequeuerReadFront() returns (r: Option<T>)
      requires Valid() && batchSize > 0
      modifies this`dLast, this`cached, this`cachedSize
      ensures Valid() && Contents() == old(Contents())
      ensures r.Some? <==> Contents() != []
      ensures r.Some? ==> r.value == Contents()[0] && cachedSize > 0 && r.value == cached[cachedSize - 1]
    {
      if dFirst >= dLast {
        RefreshLast(dFirst + 1);
        if dFirst >= dLast {
          return None;
        }
      }
      if cachedSize <= 0 {
        FillCache(dFirst, Ring.Min(batchSize, dLast - dFirst));
      }
      Ring.CachePop(cached, cachedSize, Contents());
      r := Some(cached[cachedSize - 1]);
    }
  }
}
