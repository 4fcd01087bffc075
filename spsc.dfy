/**
 * The bounded single-producer single-consumer ring of `SpscEnqueuer` and
 * `SpscDequeuer`.  The enqueuer owns the data window and a local copy of its
 * `last` counter; the dequeuer owns the `first` and `last` windows (one entry
 * per enqueuer rank), its private copies of both counters and a prefetch cache.
 * An enqueuer only ever touches the entries of its own rank, so one `Channel`
 * holds exactly the cells that one enqueuer and the dequeuer share.
 */
module Spsc {
  import opened Wrappers
  import Ring

  /** A single enqueue publishes `last` to the dequeuer only on multiples of this. */
  const PublishPeriod: nat := 10

  /**
   * What holds between one enqueuer's counters and the dequeuer's entries for
   * it after every call: both private copies of `first` trail the published
   * one, the ring never holds more than `capacity` items, the published `last`
   * trails by less than `PublishPeriod` and, together with the local `last`,
   * always lets the dequeuer see the true `last`; the cache mirrors the front.
   */
  ghost predicate ChannelInv<T>(capacity: nat, data: seq<T>, eFirst: int, eLast: int, localLast: int,
                                firstWin: int, lastWin: int, dFirst: int, dLast: int,
                                cached: seq<T>, cachedSize: int)
  {
    |data| == capacity &&
    0 <= eFirst <= firstWin && firstWin == dFirst && dFirst <= eLast <= dFirst + capacity &&
    localLast <= eLast && lastWin <= eLast && (lastWin == eLast || localLast == eLast) &&
    lastWin >= eLast - eLast % PublishPeriod &&
    dLast <= eLast &&
    Ring.CacheCoherent(cached, cachedSize, Ring.Window(data, dFirst, eLast - dFirst))
  }

  /**
   * An enqueue that appends `xs` to the window keeps the invariant, whatever
   * it did with the enqueuer's copy of `first` and the two `last` windows
   * within their bounds.
   */
  lemma AppendKeepsInv<T>(capacity: nat, data: seq<T>, eFirst: int, eLast: int, localLast: int,
                          firstWin: int, lastWin: int, dFirst: int, dLast: int,
                          cached: seq<T>, cachedSize: int,
                          xs: seq<T>, d: seq<T>, eFirst': int, localLast': int, lastWin': int)
    requires ChannelInv(capacity, data, eFirst, eLast, localLast, firstWin, lastWin, dFirst, dLast, cached, cachedSize)
    requires 0 <= eFirst' <= firstWin && eLast + |xs| <= dFirst + capacity && |d| == capacity
    requires Ring.Window(d, dFirst, eLast + |xs| - dFirst) == Ring.Window(data, dFirst, eLast - dFirst) + xs
    requires localLast' <= eLast + |xs| && lastWin' <= eLast + |xs|
    requires lastWin' == eLast + |xs| || localLast' == eLast + |xs|
    requires lastWin' >= (eLast + |xs|) - (eLast + |xs|) % PublishPeriod
    ensures ChannelInv(capacity, d, eFirst', eLast + |xs|, localLast', firstWin, lastWin', dFirst, dLast, cached, cachedSize)
  {
    Ring.CacheExtends(cached, cachedSize, Ring.Window(data, dFirst, eLast - dFirst), xs);
  }

  /**
   * A single enqueue that stores `x` in the slot of counter `last`, when the
   * ring has room: the window gains `x` and the invariant holds with the new
   * local `last`, published when it is a multiple of `PublishPeriod`.
   */
  lemma AppendOneKeepsInv<T>(capacity: nat, data: seq<T>, eFirst: int, eLast: int, localLast: int,
                             firstWin: int, lastWin: int, dFirst: int, dLast: int,
                             cached: seq<T>, cachedSize: int, x: T, eFirst': int)
    requires ChannelInv(capacity, data, eFirst, eLast, localLast, firstWin, lastWin, dFirst, dLast, cached, cachedSize)
    requires 0 <= eFirst' <= firstWin && eLast + 1 <= dFirst + capacity
    ensures capacity > 0
    ensures var d := data[eLast % capacity := x];
            Ring.Window(d, dFirst, eLast + 1 - dFirst) == Ring.Window(data, dFirst, eLast - dFirst) + [x] &&
            ChannelInv(capacity, d, eFirst', eLast + 1, eLast + 1, firstWin,
                       if (eLast + 1) % PublishPeriod == 0 then eLast + 1 else lastWin, dFirst, dLast, cached, cachedSize)
  {
    var len := eLast - dFirst;
    Ring.WindowAppend(data, dFirst, len, x);
    assert dFirst + len == eLast;
    if (eLast + 1) % PublishPeriod != 0 {
      Ring.SameFloor(eLast, PublishPeriod);
    }
    var d := data[eLast % capacity := x];
    assert Ring.Window(d, dFirst, len + 1) == Ring.Window(data, dFirst, len) + [x];
    AppendKeepsInv(capacity, data, eFirst, eLast, localLast, firstWin, lastWin, dFirst, dLast, cached, cachedSize,
                   [x], d, eFirst', eLast + 1, if (eLast + 1) % PublishPeriod == 0 then eLast + 1 else lastWin);
  }

  /**
   * A dequeue that moves `first` past the front item, with a refreshed
   * `last` copy and a cache coherent with the rest of the window, keeps the
   * invariant, and the window loses exactly its front item.
   */
  lemma AdvanceKeepsInv<T>(capacity: nat, data: seq<T>, eFirst: int, eLast: int, localLast: int,
                           firstWin: int, lastWin: int, dFirst: int, dLast: int,
                           cached: seq<T>, cachedSize: int,
                           dLast': int, cached': seq<T>, cachedSize': int)
    requires ChannelInv(capacity, data, eFirst, eLast, localLast, firstWin, lastWin, dFirst, dLast, cached, cachedSize)
    requires dFirst + 1 <= dLast' <= eLast
    requires Ring.CacheCoherent(cached', cachedSize', Ring.Window(data, dFirst, eLast - dFirst)[1..])
    ensures ChannelInv(capacity, data, eFirst, eLast, localLast, dFirst + 1, lastWin, dFirst + 1, dLast', cached', cachedSize')
    ensures Ring.Window(data, dFirst + 1, eLast - (dFirst + 1)) == Ring.Window(data, dFirst, eLast - dFirst)[1..]
  {
    Ring.WindowAdvance(data, dFirst, eLast - dFirst);
  }

  class Channel<T> {
    const capacity: nat
    const batchSize: nat

    /** Enqueuer-hosted windows: the ring slots and the always-current local `last`. */
    var data: seq<T>
    var localLast: int
    /** Dequeuer-hosted windows (this enqueuer's entries). */
    var firstWin: int
    var lastWin: int
    /** Enqueuer-private copies of the counters. */
    var eFirst: int
    var eLast: int
    /** Dequeuer-private copies of the counters and the reversed prefetch cache. */
    var dFirst: int
    var dLast: int
    var cached: seq<T>
    var cachedSize: int

    ghost predicate Valid()
      reads this
    {
      |cached| == batchSize &&
      ChannelInv(capacity, data, eFirst, eLast, localLast, firstWin, lastWin, dFirst, dLast, cached, cachedSize)
    }

    /** The items enqueued and not yet dequeued, oldest first. */
    ghost function Contents(): seq<T>
      reads this
      requires Valid()
    {
      Ring.Window(data, dFirst, eLast - dFirst)
    }

    /**
     * Both constructors together: every counter window starts at 0 and every
     * cache is empty; the data slots hold whatever the allocation left there.
     */
    constructor (capacity: nat, batchSize: nat, garbage: T)
      ensures Valid() && Contents() == []
      ensures this.capacity == capacity && this.batchSize == batchSize
      ensures eFirst == eLast == localLast == 0
      ensures firstWin == lastWin == dFirst == dLast == 0 && cachedSize == 0
    {
      this.capacity := capacity;
      this.batchSize := batchSize;
      data := seq(capacity, _ => garbage);
      cached := seq(batchSize, _ => garbage);
      localLast, firstWin, lastWin := 0, 0, 0;
      eFirst, eLast, dFirst, dLast, cachedSize := 0, 0, 0, 0, 0;
    }

    /**
     * `SpscEnqueuer::enqueue` of one item: it is refused exactly when the ring
     * is full even after re-reading the dequeuer's `first`.
     */
    method Enqueue(x: T) returns (ok: bool)
      requires Valid()
      modifies this
      ensures Valid()
      ensures ok <==> |old(Contents())| < capacity
      ensures Contents() == if ok then old(Contents()) + [x] else old(Contents())
      ensures ok ==> data == old(data)[old(eLast) % capacity := x] && eLast == old(eLast) + 1
      ensures ok ==> localLast == eLast && lastWin == (if eLast % PublishPeriod == 0 then eLast else old(lastWin))
      ensures !ok ==> data == old(data) && eLast == old(eLast) && localLast == old(localLast) && lastWin == old(lastWin)
      ensures eFirst == old(eFirst) || eFirst == firstWin
      ensures firstWin == old(firstWin) && dFirst == old(dFirst) && dLast == old(dLast)
      ensures cached == old(cached) && cachedSize == old(cachedSize)
    {
      var newLast := eLast + 1;
      if newLast - eFirst > capacity {
        eFirst := firstWin;
        if newLast - eFirst > capacity {
          return false;
        }
      }
      AppendOneKeepsInv(capacity, data, old(eFirst), eLast, localLast, firstWin, lastWin, dFirst, dLast, cached, cachedSize,
                        x, eFirst);
      data := data[eLast % capacity := x];
      localLast := newLast;
      if newLast % PublishPeriod == 0 {
        lastWin := newLast;
      }
      eLast := newLast;
      ok := true;
    }

    /**
     * `SpscEnqueuer::enqueue` of a batch: all or nothing; item `i` goes to the
     * slot of counter `last + i`, and the new `last` is always published.
     */
    method EnqueueBatch(xs: seq<T>) returns (ok: bool)
      requires Valid()
      modifies this
      ensures Valid()
      ensures ok <==> |old(Contents())| + |xs| <= capacity
      ensures Contents() == if ok then old(Contents()) + xs else old(Contents())
      ensures ok ==> eLast == old(eLast) + |xs| && lastWin == eLast && localLast == old(localLast)
      ensures !ok ==> data == old(data) && eLast == old(eLast) && lastWin == old(lastWin) && localLast == old(localLast)
      ensures eFirst == old(eFirst) || eFirst == firstWin
      ensures firstWin == old(firstWin) && dFirst == old(dFirst) && dLast == old(dLast)
      ensures cached == old(cached) && cachedSize == old(cachedSize)
    {
      var newLast := eLast + |xs|;
      if newLast - eFirst > capacity {
        eFirst := firstWin;
        if newLast - eFirst > capacity {
          return false;
        }
      }
      var d := Ring.WriteBatch(data, dFirst, eLast - dFirst, xs);
      assert (eLast - dFirst) + |xs| == eLast + |xs| - dFirst;
      AppendKeepsInv(capacity, data, old(eFirst), eLast, localLast, firstWin, lastWin, dFirst, dLast, cached, cachedSize,
                     xs, d, eFirst, localLast, newLast);
      data := d;
      lastWin := newLast;
      eLast := newLast;
      ok := true;
    }

    /**
     * `SpscEnqueuer::read_front`: the oldest item, re-reading the dequeuer's
     * `first` once before reporting the ring empty.
     */
    method EnqueuerReadFront() returns (r: Option<T>)
      requires Valid()
      modifies this`eFirst
      ensures Valid() && Contents() == old(Contents())
      ensures r.Some? <==> Contents() != []
      ensures r.Some? ==> r.value == Contents()[0]
      ensures eFirst == old(eFirst) || eFirst == firstWin
    {
      if eFirst >= eLast {
        return None;
      }
      eFirst := firstWin;
      if eFirst >= eLast {
        return None;
      }
      r := Some(data[eFirst % capacity]);
    }

    /**
     * The dequeuer's two-stage refresh of `last` before it gives up: first the
     * published window, then the enqueuer's local window.  Afterwards `dLast`
     * reaches `need` exactly when the enqueuer's `last` does.
     */
    method RefreshLast(need: int)
      requires Valid()
      modifies this`dLast
      ensures Valid()
      ensures need <= dLast <==> need <= eLast
      ensures dLast == old(dLast) || dLast == lastWin || dLast == localLast
    {
      if need > dLast {
        dLast := lastWin;
        if need > dLast {
          dLast := localLast;
        }
      }
    }

    /** Refill the cache with the `n` items from counter `from` on, newest at the bottom. */
    method FillCache(from: int, n: int)
      requires Valid() && 0 <= n <= batchSize && dFirst <= from && from + n <= eLast
      modifies this`cached, this`cachedSize
      ensures |cached| == batchSize && cachedSize == n
      ensures Ring.CacheCoherent(cached, n, Ring.Window(data, from, eLast - from))
    {
      cached := Ring.Prefetch(data, from, n, cached);
      cachedSize := n;
      Ring.WindowSplit(data, from, n, eLast - from);
      Ring.CacheExtends(cached, n, Ring.Window(data, from, n), Ring.Window(data, from + n, eLast - from - n));
    }

    /** An empty cache refilled with up to `batchSize` items from the front. */
    method Refill()
      requires Valid() && dFirst < dLast && batchSize > 0
      modifies this`cached, this`cachedSize
      ensures Valid() && Contents() == old(Contents()) && cachedSize > 0
    {
      FillCache(dFirst, Ring.Min(batchSize, dLast - dFirst));
    }

    /**
     * The body of a successful dequeue before `first` is published: serve the
     * cache top, or read the front slot and prefetch the items after it.
     */
    method TakeFront(newFirst: int) returns (out: T)
      requires Valid() && newFirst == dFirst + 1 && newFirst <= dLast
      modifies this`cached, this`cachedSize
      ensures |cached| == batchSize && out == old(Contents())[0]
      ensures Ring.CacheCoherent(cached, cachedSize, old(Contents())[1..])
    {
      ghost var w := Contents();
      Ring.WindowAdvance(data, dFirst, eLast - dFirst);
      if cachedSize > 0 {
        Ring.CachePop(cached, cachedSize, w);
        out := cached[cachedSize - 1];
        cachedSize := cachedSize - 1;
      } else {
        out := data[dFirst % capacity];
        FillCache(newFirst, Ring.Min(batchSize, dLast - newFirst));
      }
    }

    /**
     * `SpscDequeuer::dequeue`: the oldest item, served from the cache when it
     * holds any, otherwise read from its slot while the following
     * `min(batch, last - new_first)` items are prefetched; `first` advances by one
     * and is published.
     */
    method Dequeue() returns (r: Option<T>)
      requires Valid()
      modifies this`dLast, this`cached, this`cachedSize, this`dFirst, this`firstWin
      ensures Valid()
      ensures r.Some? <==> old(Contents()) != []
      ensures r.Some? ==> r.value == old(Contents())[0] && Contents() == old(Contents())[1..]
      ensures r.Some? ==> dFirst == old(dFirst) + 1 && firstWin == dFirst
      ensures r.None? ==> Contents() == old(Contents()) && dFirst == old(dFirst) && firstWin == old(firstWin)
      ensures r.None? ==> cached == old(cached) && cachedSize == old(cachedSize)
    {
      var newFirst := dFirst + 1;
      RefreshLast(newFirst);
      if newFirst > dLast {
        return None;
      }
      ghost var cached0, cachedSize0 := cached, cachedSize;
      var out := TakeFront(newFirst);
      AdvanceKeepsInv(capacity, data, eFirst, eLast, localLast, firstWin, lastWin, dFirst, dLast, cached0, cachedSize0,
                      dLast, cached, cachedSize);
      firstWin := newFirst;
      dFirst := newFirst;
      r := Some(out);
    }

    /**
     * `SpscDequeuer::read_front`: the oldest item without consuming it; an
     * empty cache is refilled first, so the answer is always the cache top.
     * A zero batch size would read below the cache, so it is excluded.
     */
    method DequeuerReadFront() returns (r: Option<T>)
      requires Valid() && batchSize > 0
      modifies this`dLast, this`cached, this`cachedSize
      ensures Valid() && Contents() == old(Contents())
      ensures r.Some? <==> Contents() != []
      ensures r.Some? ==> r.value == Contents()[0] && cachedSize > 0 && r.value == cached[cachedSize - 1]
    {
      RefreshLast(dFirst + 1);
      if dFirst >= dLast {
        return None;
      }
      if cachedSize <= 0 {
        Refill();
      }
      Ring.CachePop(cached, cachedSize, Contents());
      r := Some(cached[cachedSize - 1]);
    }
  }
}
