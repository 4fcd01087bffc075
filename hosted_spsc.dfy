/**
 * `HostedBoundedSpsc`: the bounded SPSC rings of all enqueuers kept in ONE
 * buffer on the dequeuer, enqueuer `r` owning the region of `capacity` slots
 * that starts at `start_offset(r) = capacity * r`.  Every process keeps two
 * vectors `_first_buf`/`_last_buf` with one entry per rank: an enqueuer only
 * ever writes its own entry, the dequeuer uses its vectors as the private
 * copies of every enqueuer's counters.
 */
module HostedSpsc {
  import opened Wrappers
  import Ring
  import Spsc

  /**
   * `start_offset`: the first slot of `rank`'s region.  It is defined by
   * stepping over the regions before it; `StartOffsetIsProduct` shows this is
   * the source's `capacity * rank`.
   */
  function StartOffset(capacity: nat, rank: nat): (o: nat)
  {
    if rank == 0 then 0 else StartOffset(capacity, rank - 1) + capacity
  }

  lemma {:induction false} StartOffsetIsProduct(capacity: nat, rank: nat)
    ensures StartOffset(capacity, rank) == capacity * rank
  {
    if rank > 0 {
      StartOffsetIsProduct(capacity, rank - 1);
      assert capacity * rank == capacity * (rank - 1) + capacity;
    }
  }

  /**
   * Regions of different ranks never overlap: the region of `r` ends at or
   * before the start of any later rank's region.
   */
  lemma {:induction false} RegionsDisjoint(capacity: nat, r: nat, q: nat)
    requires r < q
    ensures StartOffset(capacity, r) + capacity <= StartOffset(capacity, q)
    decreases q - r
  {
    if q > r + 1 {
      RegionsDisjoint(capacity, r + 1, q);
    }
  }

  /** With `n` ranks, every region lies inside the buffer of `start_offset(n)` slots. */
  lemma RegionBounds(capacity: nat, n: nat, rank: nat)
    requires rank < n
    ensures StartOffset(capacity, rank) + capacity <= StartOffset(capacity, n)
  {
    RegionsDisjoint(capacity, rank, n);
  }

  /** The slot of counter `i` of `rank` lies in `rank`'s region. */
  lemma SlotInRegion(capacity: nat, n: nat, rank: nat, i: int)
    requires capacity > 0 && rank < n
    ensures StartOffset(capacity, rank) <= StartOffset(capacity, rank) + i % capacity < StartOffset(capacity, rank) + capacity <= StartOffset(capacity, n)
  {
    RegionBounds(capacity, n, rank);
  }

  /** The `capacity` slots of `rank`'s region, as that rank's ring sees them. */
  ghost function Region<T>(data: seq<T>, capacity: nat, n: nat, rank: nat): (s: seq<T>)
    requires |data| == StartOffset(capacity, n) && rank < n
    ensures |s| == capacity
  {
    RegionBounds(capacity, n, rank);
    data[StartOffset(capacity, rank)..StartOffset(capacity, rank) + capacity]
  }

  /**
   * Writing slot `k` of `rank`'s region changes that region in place and
   * no other region.
   */
  lemma RegionWrite<T>(data: seq<T>, capacity: nat, n: nat, rank: nat, k: nat, x: T)
    requires |data| == StartOffset(capacity, n) && rank < n && k < capacity
    ensures StartOffset(capacity, rank) + k < |data|
    ensures Region(data[StartOffset(capacity, rank) + k := x], capacity, n, rank) == Region(data, capacity, n, rank)[k := x]
    ensures forall q :: 0 <= q < n && q != rank ==>
              Region(data[StartOffset(capacity, rank) + k := x], capacity, n, q) == Region(data, capacity, n, q)
  {
    RegionBounds(capacity, n, rank);
    var i := StartOffset(capacity, rank) + k;
    var d := data[i := x];
    forall q | 0 <= q < n && q != rank
      ensures Region(d, capacity, n, q) == Region(data, capacity, n, q)
    {
      if q < rank {
        RegionsDisjoint(capacity, q, rank);
      } else {
        RegionsDisjoint(capacity, rank, q);
      }
      RegionBounds(capacity, n, q);
    }
  }

  /** `std::vector` `operator<`: the first differing entry decides, a proper prefix is smaller. */
  function LexLess(a: seq<int>, b: seq<int>): (lt: bool)
    ensures |a| == 0 && |b| > 0 ==> lt
    ensures |b| == 0 ==> !lt
  {
    if |b| == 0 then false
    else if |a| == 0 then true
    else if a[0] != b[0] then a[0] < b[0]
    else LexLess(a[1..], b[1..])
  }

  /** No vector is smaller than itself. */
  lemma {:induction false} LexLessIrreflexive(a: seq<int>)
    ensures !LexLess(a, a)
  {
    if |a| > 0 {
      LexLessIrreflexive(a[1..]);
    }
  }

  /**
   * Two vectors of the same length that agree everywhere except at entry `p`
   * compare like that entry: `u >= v` on the vectors is `u[p] >= v[p]`.
   */
  lemma {:induction false} LexOneEntry(u: seq<int>, v: seq<int>, p: nat)
    requires |u| == |v| && p < |u|
    requires forall q :: 0 <= q < |u| && q != p ==> u[q] == v[q]
    ensures !LexLess(u, v) <==> u[p] >= v[p]
  {
    if p == 0 {
      if u[0] == v[0] {
        assert u[1..] == v[1..];
        LexLessIrreflexive(u[1..]);
      }
    } else {
      assert u[0] == v[0];
      LexOneEntry(u[1..], v[1..], p - 1);
    }
  }

  /** The cells and private copies that make up one enqueuer's channel. */
  datatype View<T> = View(region: seq<T>, eFirst: int, eLast: int, localLast: int,
                          firstWin: int, lastWin: int, dFirst: int, dLast: int,
                          cached: seq<T>, cachedSize: int)

  /** The single-channel invariant, applied to one region of the shared buffer. */
  ghost predicate ViewInv<T>(capacity: nat, batchSize: nat, v: View<T>)
  {
    |v.cached| == batchSize &&
    Spsc.ChannelInv(capacity, v.region, v.eFirst, v.eLast, v.localLast, v.firstWin,
                    v.lastWin, v.dFirst, v.dLast, v.cached, v.cachedSize)
  }

  /** The items of one channel, oldest first. */
  ghost function Items<T>(capacity: nat, batchSize: nat, v: View<T>): seq<T>
    requires ViewInv(capacity, batchSize, v)
  {
    Ring.Window(v.region, v.dFirst, v.eLast - v.dFirst)
  }

  /**
   * A successful single enqueue on a channel: the item goes to the slot of
   * `last`, both copies of `last` step, and the channel gains the item.
   */
  lemma EnqueueStep<T>(capacity: nat, batchSize: nat, v: View<T>, x: T, lastWin': int)
    requires ViewInv(capacity, batchSize, v) && v.eLast + 1 - v.eFirst <= capacity
    requires lastWin' == if (v.eLast + 1) % Spsc.PublishPeriod == 0 then v.eLast + 1 else v.lastWin
    ensures capacity > 0
    ensures var v' := v.(region := v.region[v.eLast % capacity := x], eLast := v.eLast + 1,
                         localLast := v.eLast + 1, lastWin := lastWin');
            ViewInv(capacity, batchSize, v') && Items(capacity, batchSize, v') == Items(capacity, batchSize, v) + [x]
  {
    var len := v.eLast - v.dFirst;
    Ring.WindowAppend(v.region, v.dFirst, len, x);
    assert v.dFirst + len == v.eLast;
    Ring.CacheExtends(v.cached, v.cachedSize, Items(capacity, batchSize, v), [x]);
    if (v.eLast + 1) % Spsc.PublishPeriod != 0 {
      Ring.SameFloor(v.eLast, Spsc.PublishPeriod);
    }
  }

  /**
   * A successful batch enqueue on a channel, given the region after the
   * batch is written: `last` is advanced and published, the channel gains `xs`.
   */
  lemma BatchStep<T>(capacity: nat, batchSize: nat, v: View<T>, xs: seq<T>, region': seq<T>)
    requires ViewInv(capacity, batchSize, v) && v.eLast + |xs| - v.eFirst <= capacity
    requires |region'| == capacity
    requires Ring.Window(region', v.dFirst, v.eLast - v.dFirst + |xs|) == Items(capacity, batchSize, v) + xs
    ensures var v' := v.(region := region', eLast := v.eLast + |xs|, lastWin := v.eLast + |xs|);
            ViewInv(capacity, batchSize, v') && Items(capacity, batchSize, v') == Items(capacity, batchSize, v) + xs
  {
    Ring.CacheExtends(v.cached, v.cachedSize, Items(capacity, batchSize, v), xs);
  }

  /**
   * A successful dequeue on a channel, given the cache it leaves behind:
   * `first` steps and is published, and the channel loses its oldest item.
   */
  lemma DequeueStep<T>(capacity: nat, batchSize: nat, v: View<T>, c: seq<T>, size: int)
    requires ViewInv(capacity, batchSize, v) && v.dFirst < v.eLast && |c| == batchSize
    requires Ring.CacheCoherent(c, size, Items(capacity, batchSize, v)[1..])
    ensures var v' := v.(dFirst := v.dFirst + 1, firstWin := v.dFirst + 1, cached := c, cachedSize := size);
            ViewInv(capacity, batchSize, v') && Items(capacity, batchSize, v') == Items(capacity, batchSize, v)[1..]
  {
    Ring.WindowAdvance(v.region, v.dFirst, v.eLast - v.dFirst);
  }

  /** The enqueuer's re-read of the published `first` keeps the channel intact. */
  lemma FirstStep<T>(capacity: nat, batchSize: nat, v: View<T>)
    requires ViewInv(capacity, batchSize, v)
    ensures ViewInv(capacity, batchSize, v.(eFirst := v.firstWin))
    ensures Items(capacity, batchSize, v.(eFirst := v.firstWin)) == Items(capacity, batchSize, v)
  {
  }

  /** Replacing a channel's cache by one coherent with its items keeps the channel intact. */
  lemma RefillStep<T>(capacity: nat, batchSize: nat, v: View<T>, c: seq<T>, size: int)
    requires ViewInv(capacity, batchSize, v) && |c| == batchSize
    requires Ring.CacheCoherent(c, size, Items(capacity, batchSize, v))
    ensures var v' := v.(cached := c, cachedSize := size);
            ViewInv(capacity, batchSize, v') && Items(capacity, batchSize, v') == Items(capacity, batchSize, v)
  {
  }

  class Hosted<T> {
    const capacity: nat
    const batchSize: nat
    const commSize: nat
    const dequeuer: nat

    /** Dequeuer-hosted windows: all regions, and `first`/`last` per rank. */
    var data: seq<T>
    var firstWin: seq<int>
    var lastWin: seq<int>
    /** Entry `r`: the one-cell `_enqueuer_local_last` window hosted on rank `r`. */
    var localLast: seq<int>
    /** Entry `p`: process `p`'s `_first_buf` and `_last_buf` vectors. */
    var firstBuf: seq<seq<int>>
    var lastBuf: seq<seq<int>>
    /** Dequeuer-private prefetch caches and their sizes, per rank. */
    var cached: seq<seq<T>>
    var cachedSize: seq<int>

    ghost predicate Shape()
      reads this
    {
      dequeuer < commSize &&
      |data| == StartOffset(capacity, commSize) &&
      |firstWin| == commSize && |lastWin| == commSize && |localLast| == commSize &&
      |firstBuf| == commSize && |lastBuf| == commSize &&
      |cached| == commSize && |cachedSize| == commSize &&
      forall p :: 0 <= p < commSize ==> |firstBuf[p]| == commSize && |lastBuf[p]| == commSize
    }

    /** Enqueuer `r`'s channel: its own vector entries and the dequeuer's entries for it. */
    ghost function ViewOf(r: nat): View<T>
      reads this
      requires Shape() && r < commSize
    {
      View(Region(data, capacity, commSize, r), firstBuf[r][r], lastBuf[r][r], localLast[r],
           firstWin[r], lastWin[r], firstBuf[dequeuer][r], lastBuf[dequeuer][r],
           cached[r], cachedSize[r])
    }

    /** An enqueuer's vectors are zero outside its own entry. */
    ghost predicate OwnEntriesOnly()
      reads this
      requires Shape()
    {
      forall p, q :: 0 <= p < commSize && 0 <= q < commSize && p != dequeuer && q != p ==>
        firstBuf[p][q] == 0 && lastBuf[p][q] == 0
    }

    ghost predicate Valid()
      reads this
    {
      Shape() && OwnEntriesOnly() &&
      forall r :: 0 <= r < commSize && r != dequeuer ==> ViewInv(capacity, batchSize, ViewOf(r))
    }

    /** The items enqueuer `r` has enqueued and the dequeuer has not yet taken. */
    ghost function Contents(r: nat): seq<T>
      reads this
      requires Valid() && r < commSize && r != dequeuer
    {
      Items(capacity, batchSize, ViewOf(r))
    }

    /** Every channel other than `r`'s is as it was in the previous state. */
    twostate predicate OthersUnchanged(r: nat)
      reads this
      requires old(Shape()) && Shape() && r < commSize
    {
      forall q :: 0 <= q < commSize && q != r ==> ViewOf(q) == old(ViewOf(q))
    }

    /**
     * The constructor on all ranks together: every vector entry, every
     * `first`/`last` window cell, every local `last` and every cache size is 0.
     */
    constructor (capacity: nat, batchSize: nat, commSize: nat, dequeuer: nat, garbage: T)
      requires dequeuer < commSize
      ensures Valid()
      ensures this.capacity == capacity && this.batchSize == batchSize
      ensures this.commSize == commSize && this.dequeuer == dequeuer
      ensures forall r :: 0 <= r < commSize && r != dequeuer ==> Contents(r) == []
      ensures firstWin == lastWin == localLast == cachedSize == seq(commSize, _ => 0)
      ensures forall p :: 0 <= p < commSize ==> firstBuf[p] == lastBuf[p] == seq(commSize, _ => 0)
    {
      this.capacity, this.batchSize, this.commSize, this.dequeuer := capacity, batchSize, commSize, dequeuer;
      data := seq(StartOffset(capacity, commSize), _ => garbage);
      firstWin, lastWin, localLast := seq(commSize, _ => 0), seq(commSize, _ => 0), seq(commSize, _ => 0);
      firstBuf, lastBuf := seq(commSize, _ => seq(commSize, _ => 0)), seq(commSize, _ => seq(commSize, _ => 0));
      cached, cachedSize := seq(commSize, _ => seq(batchSize, _ => garbage)), seq(commSize, _ => 0);
    }

    // The single accesses every operation is built from.  Each changes one
    // cell of one channel and leaves every other channel alone.

    /** Write slot `k` of `rank`'s region of the data window. */
    method WriteSlot(rank: nat, k: nat, x: T)
      requires Shape() && OwnEntriesOnly() && rank < commSize && k < capacity
      modifies this`data
      ensures Shape() && OwnEntriesOnly() && OthersUnchanged(rank)
      ensures ViewOf(rank) == old(ViewOf(rank)).(region := old(ViewOf(rank)).region[k := x])
    {
      RegionWrite(data, capacity, commSize, rank, k, x);
      data := data[StartOffset(capacity, rank) + k := x];
    }

    /** Write `rank`'s cell of the dequeuer's `last` window. */
    method WriteLastWin(rank: nat, v: int)
      requires Shape() && OwnEntriesOnly() && rank < commSize
      modifies this`lastWin
      ensures Shape() && OwnEntriesOnly() && OthersUnchanged(rank)
      ensures ViewOf(rank) == old(ViewOf(rank)).(lastWin := v)
    {
      lastWin := lastWin[rank := v];
    }

    /** Write `rank`'s cell of the dequeuer's `first` window. */
    method WriteFirstWin(rank: nat, v: int)
      requires Shape() && OwnEntriesOnly() && rank < commSize
      modifies this`firstWin
      ensures Shape() && OwnEntriesOnly() && OthersUnchanged(rank)
      ensures ViewOf(rank) == old(ViewOf(rank)).(firstWin := v)
    {
      firstWin := firstWin[rank := v];
    }

    /** Write the `_enqueuer_local_last` window hosted on `rank`. */
    method WriteLocalLast(rank: nat, v: int)
      requires Shape() && OwnEntriesOnly() && rank < commSize
      modifies this`localLast
      ensures Shape() && OwnEntriesOnly() && OthersUnchanged(rank)
      ensures ViewOf(rank) == old(ViewOf(rank)).(localLast := v)
    {
      localLast := localLast[rank := v];
    }

    /** Enqueuer `self` stores `v` in its own `_first_buf` entry. */
    method SetOwnFirst(self: nat, v: int)
      requires Shape() && OwnEntriesOnly() && self < commSize && self != dequeuer
      modifies this`firstBuf
      ensures Shape() && OwnEntriesOnly() && OthersUnchanged(self)
      ensures ViewOf(self) == old(ViewOf(self)).(eFirst := v)
    {
      firstBuf := firstBuf[self := firstBuf[self][self := v]];
    }

    /** Enqueuer `self` stores `v` in its own `_last_buf` entry. */
    method SetOwnLast(self: nat, v: int)
      requires Shape() && OwnEntriesOnly() && self < commSize && self != dequeuer
      modifies this`lastBuf
      ensures Shape() && OwnEntriesOnly() && OthersUnchanged(self)
      ensures ViewOf(self) == old(ViewOf(self)).(eLast := v)
    {
      lastBuf := lastBuf[self := lastBuf[self][self := v]];
    }

    /** The dequeuer stores `v` in its `_first_buf` entry for rank `r`. */
    method SetDequeuerFirst(r: nat, v: int)
      requires Shape() && OwnEntriesOnly() && r < commSize && r != dequeuer
      modifies this`firstBuf
      ensures Shape() && OwnEntriesOnly() && OthersUnchanged(r)
      ensures ViewOf(r) == old(ViewOf(r)).(dFirst := v)
    {
      firstBuf := firstBuf[dequeuer := firstBuf[dequeuer][r := v]];
    }

    /** The dequeuer stores `v` in its `_last_buf` entry for rank `r`. */
    method SetDequeuerLast(r: nat, v: int)
      requires Shape() && OwnEntriesOnly() && r < commSize && r != dequeuer
      modifies this`lastBuf
      ensures Shape() && OwnEntriesOnly() && OthersUnchanged(r)
      ensures ViewOf(r) == old(ViewOf(r)).(dLast := v)
    {
      lastBuf := lastBuf[dequeuer := lastBuf[dequeuer][r := v]];
    }

    /** The dequeuer replaces rank `r`'s cache and its size. */
    method SetCache(r: nat, c: seq<T>, size: int)
      requires Shape() && OwnEntriesOnly() && r < commSize
      modifies this`cached, this`cachedSize
      ensures Shape() && OwnEntriesOnly() && OthersUnchanged(r)
      ensures ViewOf(r) == old(ViewOf(r)).(cached := c, cachedSize := size)
    {
      cached := cached[r := c];
      cachedSize := cachedSize[r := size];
    }

    /** Enqueuer `self` re-reads the published `first` into its own `_first_buf` entry. */
    method RefreshOwnFirst(self: nat)
      requires Valid() && self < commSize && self != dequeuer
      modifies this`firstBuf
      ensures Valid() && OthersUnchanged(self) && Contents(self) == old(Contents(self))
      ensures ViewOf(self) == old(ViewOf(self)).(eFirst := old(ViewOf(self)).firstWin)
    {
      ghost var v := ViewOf(self);
      FirstStep(capacity, batchSize, v);
      SetOwnFirst(self, firstWin[self]);
    }

    /**
     * `enqueue` of one item by rank `self`: refused exactly when its ring is
     * full after re-reading `first`; otherwise the item is written into
     * `self`'s region at `last % capacity`, the local `last` is updated and
     * `last` is published on multiples of ten.  No other channel changes.
     */
    method Enqueue(self: nat, x: T) returns (ok: bool)
      requires Valid() && self < commSize && self != dequeuer
      modifies this
      ensures Valid() && OthersUnchanged(self)
      ensures ok <==> |old(Contents(self))| < capacity
      ensures Contents(self) == if ok then old(Contents(self)) + [x] else old(Contents(self))
      ensures ok ==> ViewOf(self).eLast == old(ViewOf(self)).eLast + 1 == ViewOf(self).localLast
      ensures ok ==> ViewOf(self).lastWin == if ViewOf(self).eLast % Spsc.PublishPeriod == 0 then ViewOf(self).eLast else old(ViewOf(self)).lastWin
      ensures !ok ==> ViewOf(self) == old(ViewOf(self)).(eFirst := ViewOf(self).eFirst)
    {
      var newLast := lastBuf[self][self] + 1;
      if newLast - firstBuf[self][self] > capacity {
        RefreshOwnFirst(self);
        if newLast - firstBuf[self][self] > capacity {
          return false;
        }
      }
      ok := true;
      Append(self, x);
    }

    /** The writes of a single enqueue that has passed the capacity check. */
    method Append(self: nat, x: T)
      requires Valid() && self < commSize && self != dequeuer
      requires ViewOf(self).eLast + 1 - ViewOf(self).eFirst <= capacity
      modifies this`data, this`localLast, this`lastWin, this`lastBuf
      ensures Valid() && OthersUnchanged(self)
      ensures Contents(self) == old(Contents(self)) + [x]
      ensures ViewOf(self).eLast == old(ViewOf(self)).eLast + 1 == ViewOf(self).localLast
      ensures ViewOf(self).lastWin == if ViewOf(self).eLast % Spsc.PublishPeriod == 0 then ViewOf(self).eLast else old(ViewOf(self)).lastWin
    {
      var newLast := lastBuf[self][self] + 1;
      ghost var v := ViewOf(self);
      ghost var published := if newLast % Spsc.PublishPeriod == 0 then newLast else v.lastWin;
      EnqueueStep(capacity, batchSize, v, x, published);
      WriteSlot(self, lastBuf[self][self] % capacity, x);
      WriteLocalLast(self, newLast);
      if newLast % Spsc.PublishPeriod == 0 {
        WriteLastWin(self, newLast);
      }
      SetOwnLast(self, newLast);
    }

    /**
     * `enqueue` of a batch by rank `self`: all or nothing; item `i` goes to
     * `start_offset(self) + (last + i) % capacity` and `last` is published.
     */
    method EnqueueBatch(self: nat, xs: seq<T>) returns (ok: bool)
      requires Valid() && self < commSize && self != dequeuer
      modifies this
      ensures Valid() && OthersUnchanged(self)
      ensures ok <==> |old(Contents(self))| + |xs| <= capacity
      ensures Contents(self) == if ok then old(Contents(self)) + xs else old(Contents(self))
      ensures ok ==> ViewOf(self).eLast == old(ViewOf(self)).eLast + |xs| == ViewOf(self).lastWin
      ensures ViewOf(self).localLast == old(ViewOf(self)).localLast
      ensures !ok ==> ViewOf(self) == old(ViewOf(self)).(eFirst := ViewOf(self).eFirst)
    {
      var newLast := lastBuf[self][self] + |xs|;
      if newLast - firstBuf[self][self] > capacity {
        RefreshOwnFirst(self);
        if newLast - firstBuf[self][self] > capacity {
          return false;
        }
      }
      ok := true;
      AppendBatch(self, xs);
    }

    /** The writes of a batch enqueue that has passed the capacity check. */
    method AppendBatch(self: nat, xs: seq<T>)
      requires Valid() && self < commSize && self != dequeuer
      requires ViewOf(self).eLast + |xs| - ViewOf(self).eFirst <= capacity
      modifies this`data, this`lastWin, this`lastBuf
      ensures Valid() && OthersUnchanged(self)
      ensures Contents(self) == old(Contents(self)) + xs
      ensures ViewOf(self).eLast == old(ViewOf(self)).eLast + |xs| == ViewOf(self).lastWin
      ensures ViewOf(self).localLast == old(ViewOf(self)).localLast
    {
      var newLast := lastBuf[self][self] + |xs|;
      ghost var v := ViewOf(self);
      WriteRegion(self, xs);
      BatchStep(capacity, batchSize, v, xs, ViewOf(self).region);
      WriteLastWin(self, newLast);
      SetOwnLast(self, newLast);
    }

    /**
     * The batch write loop of rank `self`: item `i` of `xs` is stored at
     * `start_offset(self) + (last + i) % capacity`.
     */
    method WriteRegion(self: nat, xs: seq<T>)
      requires Valid() && self < commSize && self != dequeuer
      requires ViewOf(self).eLast + |xs| - ViewOf(self).dFirst <= capacity
      modifies this`data
      ensures Shape() && OwnEntriesOnly() && OthersUnchanged(self)
      ensures ViewOf(self) == old(ViewOf(self)).(region := ViewOf(self).region)
      ensures Ring.Window(ViewOf(self).region, ViewOf(self).dFirst, ViewOf(self).eLast - ViewOf(self).dFirst + |xs|)
              == old(Contents(self)) + xs
    {
      var last := lastBuf[self][self];
      ghost var first := ViewOf(self).dFirst;
      ghost var len := last - first;
      var i := 0;
      while i < |xs|
        invariant 0 <= i <= |xs|
        invariant Shape() && OwnEntriesOnly() && OthersUnchanged(self)
        invariant ViewOf(self) == old(ViewOf(self)).(region := ViewOf(self).region)
        invariant Ring.Window(ViewOf(self).region, first, len + i) == old(Contents(self)) + xs[..i]
      {
        Ring.WindowAppend(ViewOf(self).region, first, len + i, xs[i]);
        assert first + (len + i) == last + i;
        assert xs[..i + 1] == xs[..i] + [xs[i]];
        WriteSlot(self, (last + i) % capacity, xs[i]);
        i := i + 1;
      }
      assert xs[..i] == xs;
    }

    /**
     * `e_read_front` by rank `self`.  After re-reading `first`, the second
     * emptiness test compares the WHOLE vectors `_first_buf >= _last_buf`;
     * since both are zero outside `self`'s entry this is the per-rank test,
     * so the answer is the oldest item exactly when there is one.
     */
    method EReadFront(self: nat) returns (r: Option<T>)
      requires Valid() && self < commSize && self != dequeuer
      modifies this`firstBuf
      ensures Valid() && OthersUnchanged(self) && Contents(self) == old(Contents(self))
      ensures r.Some? <==> Contents(self) != []
      ensures r.Some? ==> r.value == Contents(self)[0]
      ensures ViewOf(self) == old(ViewOf(self)).(eFirst := ViewOf(self).eFirst)
    {
      if firstBuf[self][self] >= lastBuf[self][self] {
        return None;
      }
      RefreshOwnFirst(self);
      LexOneEntry(firstBuf[self], lastBuf[self], self);
      if !LexLess(firstBuf[self], lastBuf[self]) {
        return None;
      }
      var k := firstBuf[self][self] % capacity;
      SlotInRegion(capacity, commSize, self, firstBuf[self][self]);
      r := Some(data[StartOffset(capacity, self) + k]);
      assert r.value == ViewOf(self).region[k];
    }

    /**
     * The dequeuer's two-stage refresh of its copy of rank `r`'s `last`: the
     * published window, then `r`'s local window.  Afterwards the copy reaches
     * `need` exactly when `r`'s true `last` does.
     */
    method RefreshLast(r: nat, need: int)
      requires Valid() && r < commSize && r != dequeuer
      modifies this`lastBuf
      ensures Valid() && OthersUnchanged(r)
      ensures need <= ViewOf(r).dLast <==> need <= ViewOf(r).eLast
      ensures ViewOf(r) == old(ViewOf(r)).(dLast := ViewOf(r).dLast)
    {
      if need > lastBuf[dequeuer][r] {
        SetDequeuerLast(r, lastWin[r]);
        if need > lastBuf[dequeuer][r] {
          SetDequeuerLast(r, localLast[r]);
        }
      }
    }

    /**
     * Refill rank `r`'s cache with the `n` items from counter `from` on, read
     * from `r`'s region at `start_offset(r) + (from + i) % capacity` and stored
     * newest at the bottom.
     */
    method FillCache(r: nat, from: int, n: nat)
      requires Valid() && r < commSize && r != dequeuer
      requires n <= batchSize && ViewOf(r).dFirst <= from && from + n <= ViewOf(r).eLast
      modifies this`cached, this`cachedSize
      ensures Shape() && OwnEntriesOnly() && OthersUnchanged(r)
      ensures ViewOf(r) == old(ViewOf(r)).(cached := cached[r], cachedSize := n)
      ensures |cached[r]| == batchSize
      ensures Ring.CacheCoherent(cached[r], n, Ring.Window(ViewOf(r).region, from, ViewOf(r).eLast - from))
    {
      ghost var v := ViewOf(r);
      RegionBounds(capacity, commSize, r);
      var c := Ring.Prefetch(data[StartOffset(capacity, r)..StartOffset(capacity, r) + capacity], from, n, cached[r]);
      Ring.WindowSplit(v.region, from, n, v.eLast - from);
      Ring.CacheExtends(c, n, Ring.Window(v.region, from, n), Ring.Window(v.region, from + n, v.eLast - from - n));
      SetCache(r, c, n);
    }

    /** An empty cache for rank `r` refilled with up to `batchSize` items from its front. */
    method Refill(r: nat)
      requires Valid() && r < commSize && r != dequeuer && batchSize > 0
      requires ViewOf(r).dFirst < ViewOf(r).dLast
      modifies this`cached, this`cachedSize
      ensures Valid() && OthersUnchanged(r) && Contents(r) == old(Contents(r)) && cachedSize[r] > 0
      ensures ViewOf(r) == old(ViewOf(r)).(cached := cached[r], cachedSize := cachedSize[r])
    {
      ghost var v := ViewOf(r);
      FillCache(r, firstBuf[dequeuer][r], Ring.Min(batchSize, lastBuf[dequeuer][r] - firstBuf[dequeuer][r]));
      RefillStep(capacity, batchSize, v, cached[r], cachedSize[r]);
    }

    /**
     * The body of a successful dequeue from rank `r` before `first` is
     * published: serve the cache top, or read the front slot of `r`'s region
     * and prefetch the items after it.
     */
    method TakeFront(r: nat, newFirst: int) returns (x: T)
      requires Valid() && r < commSize && r != dequeuer
      requires newFirst == ViewOf(r).dFirst + 1 <= ViewOf(r).dLast
      modifies this`cached, this`cachedSize
      ensures Shape() && OwnEntriesOnly() && OthersUnchanged(r)
      ensures ViewOf(r) == old(ViewOf(r)).(cached := cached[r], cachedSize := cachedSize[r])
      ensures |cached[r]| == batchSize && x == old(Contents(r))[0]
      ensures Ring.CacheCoherent(cached[r], cachedSize[r], old(Contents(r))[1..])
    {
      ghost var v := ViewOf(r);
      if cachedSize[r] > 0 {
        Ring.CachePop(v.cached, v.cachedSize, Contents(r));
        x := cached[r][cachedSize[r] - 1];
        SetCache(r, cached[r], cachedSize[r] - 1);
      } else {
        x := ReadAndPrefetch(r, newFirst);
      }
    }

    /** An empty cache: read the front slot of `r`'s region and prefetch the items after it. */
    method ReadAndPrefetch(r: nat, newFirst: int) returns (x: T)
      requires Valid() && r < commSize && r != dequeuer
      requires newFirst == ViewOf(r).dFirst + 1 <= ViewOf(r).dLast
      modifies this`cached, this`cachedSize
      ensures Shape() && OwnEntriesOnly() && OthersUnchanged(r)
      ensures ViewOf(r) == old(ViewOf(r)).(cached := cached[r], cachedSize := cachedSize[r])
      ensures |cached[r]| == batchSize && x == old(Contents(r))[0]
      ensures Ring.CacheCoherent(cached[r], cachedSize[r], old(Contents(r))[1..])
    {
      ghost var v := ViewOf(r);
      Ring.WindowAdvance(v.region, v.dFirst, v.eLast - v.dFirst);
      SlotInRegion(capacity, commSize, r, v.dFirst);
      x := data[StartOffset(capacity, r) + firstBuf[dequeuer][r] % capacity];
      assert x == v.region[v.dFirst % capacity];
      FillCache(r, newFirst, Ring.Min(batchSize, lastBuf[dequeuer][r] - newFirst));
    }

    /**
     * `dequeue` from rank `r`: after the two-stage refresh of `last`, the
     * oldest item is served from the cache top, or read from `r`'s region
     * while the following `min(batch, last - new_first)` items are prefetched;
     * `first` advances by one and is published.
     */
    method Dequeue(r: nat) returns (out: Option<T>)
      requires Valid() && r < commSize && r != dequeuer
      modifies this`lastBuf, this`firstBuf, this`firstWin, this`cached, this`cachedSize
      ensures Valid() && OthersUnchanged(r)
      ensures out.Some? <==> old(Contents(r)) != []
      ensures out.Some? ==> out.value == old(Contents(r))[0] && Contents(r) == old(Contents(r))[1..]
      ensures out.Some? ==> ViewOf(r).firstWin == ViewOf(r).dFirst == old(ViewOf(r)).dFirst + 1
      ensures out.None? ==> Contents(r) == old(Contents(r)) && ViewOf(r).firstWin == old(ViewOf(r)).firstWin
    {
      var newFirst := firstBuf[dequeuer][r] + 1;
      RefreshLast(r, newFirst);
      if newFirst > lastBuf[dequeuer][r] {
        return None;
      }
      ghost var v := ViewOf(r);
      var x := TakeFront(r, newFirst);
      DequeueStep(capacity, batchSize, v, cached[r], cachedSize[r]);
      WriteFirstWin(r, newFirst);
      SetDequeuerFirst(r, newFirst);
      out := Some(x);
    }

    /**
     * `d_read_front` for rank `r`: the oldest item without consuming it; an
     * empty cache is refilled first and the cache top is returned.
     */
    method DReadFront(r: nat) returns (out: Option<T>)
      requires Valid() && r < commSize && r != dequeuer && batchSize > 0
      modifies this`lastBuf, this`cached, this`cachedSize
      ensures Valid() && OthersUnchanged(r) && Contents(r) == old(Contents(r))
      ensures out.Some? <==> Contents(r) != []
      ensures out.Some? ==> out.value == Contents(r)[0] && cachedSize[r] > 0 && out.value == cached[r][cachedSize[r] - 1]
    {
      RefreshLast(r, firstBuf[dequeuer][r] + 1);
      if firstBuf[dequeuer][r] >= lastBuf[dequeuer][r] {
        return None;
      }
      if cachedSize[r] <= 0 {
        Refill(r);
      }
      Ring.CachePop(cached[r], cachedSize[r], Contents(r));
      out := Some(cached[r][cachedSize[r] - 1]);
    }
  }
}
