/**
 * The slot queues: `SlotEnqueuer`/`SlotDequeuer` and their V2, V2a, V2b and
 * V2c rewrites, and the node variant.  Each enqueuer owns one bounded SPSC
 * (represented by its contents) and one slot on the dequeuer holding the
 * timestamp of its front item, or `MAX_TIMESTAMP` when it has none; the
 * timestamps come from a 64-bit fetch-and-add counter.  The dequeuer picks
 * the enqueuer to serve by scanning the slots twice (the base queue, V2b,
 * V2c and the node variant) or from two priority queues of slot snapshots
 * that it refills by scanning when they run dry (V2 and V2a).  The enqueuer
 * and dequeuer halves act on the same windows and are one class here.
 */
module SlotQueue {
  import opened Wrappers
  import opened Items
  import Ranks
  import opened SlotScan

  /** Which of the six files. */
  datatype Variant = Base | V2 | V2a | V2b | V2c | Node

  /** V2b and V2c scan every slot the second time; the base and node queues only the slots before the first choice. */
  predicate FullSecondScan(v: Variant)
  {
    v == V2b || v == V2c
  }

  /** The node variant has one slot per rank, the dequeuer's included; the others one per enqueuer order. */
  predicate RankIndexed(v: Variant)
  {
    v == Node
  }

  /** V2 and V2a keep the `_first_scan` and `_second_scan` priority queues. */
  predicate ScanHeaps(v: Variant)
  {
    v == V2 || v == V2a
  }

  /** 2^64: the timestamp counter is a 64-bit cell. */
  const Word: int := MaxTimestamp + 1

  /** The conversion of an `MPI_Aint` rank to `timestamp_t` (`uint64_t`) in a comparison. */
  function AsTimestamp(rank: int): (t: int)
    ensures 0 <= t <= MaxTimestamp
  {
    rank % Word
  }

  /**
   * `_readMinimumRank`'s test `rank != MAX_TIMESTAMP` tells `DUMMY_RANK`
   * apart from every real rank because `DUMMY_RANK` converts to
   * `MAX_TIMESTAMP` and no rank does.
   */
  lemma DummyRankIsMaxTimestamp(rank: int)
    requires rank == DummyRank || 0 <= rank < MaxTimestamp
    ensures AsTimestamp(rank) == MaxTimestamp <==> rank == DummyRank
  {
    if rank == DummyRank {
      assert DummyRank == -1 * Word + MaxTimestamp;
    }
  }

  /** Communicator sizes are C `int`s. */
  const MaxRanks: int := 0x7FFF_FFFF

  /** `slot_t`: an enqueuer order and the timestamp its slot held. */
  datatype Slot = Slot(index: int, timestamp: int)

  /**
   * Whether `a` goes above `b` in a priority queue of slots: `minHeap`
   * orders by smallest timestamp; without it, larger timestamps come first,
   * which is what `std::priority_queue` does with `slot_t`'s `operator<`.
   */
  predicate Above(a: Slot, b: Slot, minHeap: bool)
  {
    if minHeap then a.timestamp < b.timestamp else b.timestamp < a.timestamp
  }

  /**
   * `top()` of a priority queue holding the entries `h` (in the order they
   * were pushed): an entry that no other entry goes above, the earliest
   * pushed among equals.
   */
  function Top(h: seq<Slot>, minHeap: bool): (s: Slot)
    requires h != []
    ensures s in h && forall t :: t in h ==> !Above(t, s, minHeap)
  {
    if |h| == 1 then h[0]
    else
      var rest := Top(h[..|h| - 1], minHeap);
      assert forall t :: t in h ==> t in h[..|h| - 1] || t == h[|h| - 1];
      if Above(h[|h| - 1], rest, minHeap) then h[|h| - 1] else rest
  }

  /** `pop()`: the queue without (one copy of) its top entry. */
  function Pop(h: seq<Slot>, s: Slot): (r: seq<Slot>)
    requires s in h
    ensures multiset(r) == multiset(h) - multiset{s}
    ensures forall e :: e in r ==> e in h
  {
    assert h == [h[0]] + h[1..];
    if h[0] == s then h[1..]
    else [h[0]] + Pop(h[1..], s)
  }

  /** Every entry of `f` is also in `s`, counting copies. */
  predicate Within(f: seq<Slot>, s: seq<Slot>)
  {
    multiset(f) <= multiset(s)
  }

  /** When the first scan lies within the second, the second has a top whenever the first does. */
  lemma WithinNonEmpty(f: seq<Slot>, s: seq<Slot>)
    requires Within(f, s) && f != []
    ensures s != []
  {
    assert f[0] in multiset(f);
  }

  /**
   * Popping both tops when they name the same slot keeps the first scan
   * within the second: if the second's top were also in the first, neither
   * top would go above the other, so they would be the same entry.
   */
  lemma PopBothWithin(f: seq<Slot>, s: seq<Slot>, minHeap: bool)
    requires Within(f, s) && f != [] && s != []
    requires Top(f, minHeap).index == Top(s, minHeap).index
    ensures Within(Pop(f, Top(f, minHeap)), Pop(s, Top(s, minHeap)))
  {
    var ft, st := Top(f, minHeap), Top(s, minHeap);
    if st in f {
      assert !Above(st, ft, minHeap);
      assert ft in multiset(f);
      assert ft in s;
      assert !Above(ft, st, minHeap);
      assert ft == st;
    }
  }

  /**
   * Popping the second scan's top alone, when its timestamp is strictly
   * smaller than the first's top, keeps the first scan within the second:
   * such an entry cannot be in the first scan.
   */
  lemma PopSecondWithin(f: seq<Slot>, s: seq<Slot>, minHeap: bool)
    requires Within(f, s) && f != [] && s != []
    requires Top(s, minHeap).timestamp < Top(f, minHeap).timestamp
    ensures Within(f, Pop(s, Top(s, minHeap)))
  {
    var ft, st := Top(f, minHeap), Top(s, minHeap);
    assert ft in multiset(f);
    assert ft in s;
    if !minHeap {
      // The largest timestamp is on top of `s`, and `ft` is in `s`.
      assert false;
    }
    assert Above(st, ft, minHeap);
  }

  /** Popping the first scan's top alone keeps it within the second. */
  lemma PopFirstWithin(f: seq<Slot>, s: seq<Slot>, minHeap: bool)
    requires Within(f, s) && f != []
    ensures Within(Pop(f, Top(f, minHeap)), s)
  {
  }

  /** What `_readMinimumRankFromScans` serves: an enqueuer order (or `DUMMY_RANK`) and the two scans left. */
  datatype Served = Served(order: int, first: seq<Slot>, second: seq<Slot>)

  /**
   * The decision of `_readMinimumRankFromScans`.  With no first scan there
   * is nothing to serve and both scans end empty.  Otherwise the slot served
   * is the first scan's top, or the second scan's top when that is for
   * another slot with a strictly smaller timestamp; each call pops at least
   * one entry, only entries of the scans are kept, and the first scan stays
   * within the second.  From two equal scans the top is served.
   */
  function ServeFromScans(f: seq<Slot>, s: seq<Slot>, minHeap: bool): (r: Served)
    requires Within(f, s) && (forall e :: e in f ==> 0 <= e.index) && (forall e :: e in s ==> 0 <= e.index)
    ensures Within(r.first, r.second)
    ensures r.order == DummyRank <==> f == []
    ensures f == [] ==> r.first == [] && r.second == []
    ensures f != [] ==> r.order == Top(f, minHeap).index ||
                        (r.order == Top(s, minHeap).index && Top(s, minHeap).timestamp < Top(f, minHeap).timestamp)
    ensures f != [] ==> |r.first| + |r.second| < |f| + |s|
    ensures f != [] && f == s ==> r.order == Top(f, minHeap).index
    ensures forall e :: (e in r.first ==> e in f) && (e in r.second ==> e in s)
  {
    if f == [] then Served(DummyRank, [], [])
    else
      WithinNonEmpty(f, s);
      var ft, st := Top(f, minHeap), Top(s, minHeap);
      assert |Pop(f, ft)| == |f| - 1 by { assert |multiset(Pop(f, ft))| == |multiset(f)| - 1; }
      assert |Pop(s, st)| == |s| - 1 by { assert |multiset(Pop(s, st))| == |multiset(s)| - 1; }
      if ft.index == st.index then
        PopBothWithin(f, s, minHeap);
        Served(ft.index, Pop(f, ft), Pop(s, st))
      else if st.timestamp < ft.timestamp then
        PopSecondWithin(f, s, minHeap);
        Served(st.index, f, Pop(s, st))
      else
        PopFirstWithin(f, s, minHeap);
        Served(ft.index, Pop(f, ft), s)
  }

  /** The entries one scan pushes: every slot below `k` not holding `MAX_TIMESTAMP`, in order. */
  function Entries(buf: seq<int>, k: nat): (h: seq<Slot>)
    requires k <= |buf|
    ensures forall s :: s in h <==> 0 <= s.index < k && s.timestamp == buf[s.index] && s.timestamp != MaxTimestamp
  {
    if k == 0 then []
    else Entries(buf, k - 1) + (if buf[k - 1] != MaxTimestamp then [Slot(k - 1, buf[k - 1])] else [])
  }

  /** From two scans of the same slots, the top of the scan is served, and it names a non-empty slot. */
  lemma FreshTop(buf: seq<int>, minHeap: bool)
    requires Entries(buf, |buf|) != []
    ensures var h := Entries(buf, |buf|);
            var top := Top(h, minHeap);
            0 <= top.index < |buf| && top.timestamp == buf[top.index] &&
            ServeFromScans(h, h, minHeap).order == top.index
  {
    var h := Entries(buf, |buf|);
    assert Top(h, minHeap) in h;
  }

  /** A scan that pushes nothing saw every slot holding `MAX_TIMESTAMP`. */
  lemma NoEntries(buf: seq<int>)
    requires Entries(buf, |buf|) == []
    ensures forall i :: 0 <= i < |buf| ==> buf[i] == MaxTimestamp
  {
    forall i | 0 <= i < |buf|
      ensures buf[i] == MaxTimestamp
    {
      assert Slot(i, buf[i]) !in Entries(buf, |buf|);
    }
  }

  /** The top of a fresh scan is the entry of the slot it names. */
  lemma FreshTopSlot(buf: seq<int>, minHeap: bool, i: int)
    requires Entries(buf, |buf|) != [] && Top(Entries(buf, |buf|), minHeap).index == i
    ensures 0 <= i < |buf| && Top(Entries(buf, |buf|), minHeap) == Slot(i, buf[i])
  {
    FreshTop(buf, minHeap);
  }

  /**
   * `std::priority_queue<slot_t>` is a max-heap, so a fresh pair of scans
   * serves the slot with the LARGEST timestamp first: with two enqueuers
   * whose slots hold 1 and 2, `_readMinimumRankFromScans` returns the second.
   */
  lemma MaxHeapServesLargest()
    ensures Top(Entries([1, 2], 2), false) == Slot(1, 2)
    ensures exists s :: s in Entries([1, 2], 2) && s.timestamp < Top(Entries([1, 2], 2), false).timestamp
  {
    assert Entries([1, 2], 1) == [Slot(0, 1)];
    assert Entries([1, 2], 2) == [Slot(0, 1), Slot(1, 2)];
    assert Slot(0, 1) in Entries([1, 2], 2);
  }

  /**
   * With the smallest timestamp on top, a fresh pair of scans serves a
   * non-empty slot whose timestamp no other non-empty slot beats.
   */
  lemma MinHeapServesSmallest(buf: seq<int>)
    requires Entries(buf, |buf|) != []
    ensures var s := Top(Entries(buf, |buf|), true);
            0 <= s.index < |buf| && s.timestamp == buf[s.index] != MaxTimestamp &&
            forall i :: 0 <= i < |buf| && buf[i] != MaxTimestamp ==> s.timestamp <= buf[i]
  {
    var s := Top(Entries(buf, |buf|), true);
    forall i | 0 <= i < |buf| && buf[i] != MaxTimestamp
      ensures s.timestamp <= buf[i]
    {
      assert Slot(i, buf[i]) in Entries(buf, |buf|);
    }
  }

  class Queue<T> {
    const variant: Variant
    /** The communicator size, the dequeuer's rank and the SPSC capacity. */
    const size: nat
    const dequeuer: int
    const capacity: nat
    /**
     * The order of V2's and V2a's priority queues: `false` is the source's
     * `std::priority_queue<slot_t>` (largest timestamp on top), `true` the
     * smallest-on-top order that `_readMinimumRank` needs.
     */
    const minHeap: bool

    /** The timestamp counter's cell. */
    var counter: int
    /** The dequeuer's `_min_timestamp_ptr`. */
    var slots: seq<int>
    /** The contents of every rank's SPSC (the dequeuer's stays empty). */
    var spscs: seq<seq<Item<T>>>
    /** V2's and V2a's `_first_scan` and `_second_scan`, as the entries pushed and not popped. */
    var firstScan: seq<Slot>
    var secondScan: seq<Slot>

    /** `_number_of_enqueuers`, or `_size` in the node variant. */
    function SlotCount(): int
    {
      if RankIndexed(variant) then size else size - 1
    }

    /** The slot of enqueuer `r`: `_enqueuer_order`, or `r` itself in the node variant. */
    function SlotOf(r: int): int
    {
      if RankIndexed(variant) then r else Ranks.EnqueuerOrder(dequeuer, r)
    }

    /** The rank owning slot `i`: `order >= self ? order + 1 : order`, or `i` itself in the node variant. */
    function RankOf(i: int): int
    {
      if RankIndexed(variant) then i else Ranks.OrderRank(dequeuer, i)
    }

    /** A scan entry names a slot and holds a 64-bit timestamp. */
    ghost predicate EntriesOk(h: seq<Slot>)
    {
      forall e :: e in h ==> 0 <= e.index < SlotCount() && 0 <= e.timestamp <= MaxTimestamp
    }

    ghost predicate Shape()
      reads this`slots, this`spscs, this`counter
    {
      0 <= dequeuer < size <= MaxRanks && |slots| == SlotCount() && Timestamps(slots) &&
      |spscs| == size && 0 <= counter < Word &&
      (forall r, k :: 0 <= r < |spscs| && 0 <= k < |spscs[r]| ==> 0 <= spscs[r][k].timestamp < Word)
    }

    /** Both scans hold entries for slots, and the first lies within the second. */
    ghost predicate ScansOk(f: seq<Slot>, s: seq<Slot>)
    {
      EntriesOk(f) && EntriesOk(s) && Within(f, s)
    }

    /**
     * Between calls every enqueuer's slot holds the timestamp of its front
     * item, no SPSC holds more than `capacity` items, the slot and SPSC of
     * the dequeuer's own rank stay empty, and every entry of the first scan
     * is also in the second, so `_second_scan` is never empty when
     * `_first_scan` is not.
     */
    ghost predicate Valid()
      reads this
    {
      Fronts() && ScansOk(firstScan, secondScan)
    }

    /** The part of `Valid` about the slots and the SPSCs. */
    ghost predicate Fronts()
      reads this`slots, this`spscs, this`counter
    {
      Shape() && spscs[dequeuer] == [] &&
      (RankIndexed(variant) ==> slots[dequeuer] == MaxTimestamp) &&
      (forall r :: Ranks.IsEnqueuer(size, dequeuer, r) ==>
         slots[SlotOf(r)] == FrontTs(spscs[r], MaxTimestamp) && |spscs[r]| <= capacity)
    }

    /** Every slot belongs to an enqueuer, except the dequeuer's own in the node variant. */
    lemma SlotOwners(i: int)
      requires Shape() && 0 <= i < SlotCount()
      ensures (RankIndexed(variant) && i == dequeuer) || (Ranks.IsEnqueuer(size, dequeuer, RankOf(i)) && SlotOf(RankOf(i)) == i)
    {
    }

    /** Every enqueuer has a slot, and distinct enqueuers have distinct slots. */
    lemma SlotsDistinct(r: int, q: int)
      requires Shape() && Ranks.IsEnqueuer(size, dequeuer, r) && Ranks.IsEnqueuer(size, dequeuer, q)
      ensures 0 <= SlotOf(r) < SlotCount() && (SlotOf(r) == SlotOf(q) <==> r == q)
    {
    }

    /**
     * Writing one enqueuer's slot and SPSC leaves every other enqueuer's
     * slot holding its front timestamp, since distinct enqueuers have
     * distinct slots.
     */
    lemma OthersKeepFronts(s0: seq<int>, p0: seq<seq<Item<T>>>, rank: int, v: int, w: seq<Item<T>>)
      requires 0 <= dequeuer < size && |s0| == SlotCount() && |p0| == size && Ranks.IsEnqueuer(size, dequeuer, rank)
      requires forall q :: Ranks.IsEnqueuer(size, dequeuer, q) ==> s0[SlotOf(q)] == FrontTs(p0[q], MaxTimestamp)
      ensures forall q :: Ranks.IsEnqueuer(size, dequeuer, q) && q != rank ==>
                s0[SlotOf(rank) := v][SlotOf(q)] == FrontTs(p0[rank := w][q], MaxTimestamp)
    {
      forall q | Ranks.IsEnqueuer(size, dequeuer, q) && q != rank
        ensures s0[SlotOf(rank) := v][SlotOf(q)] == FrontTs(p0[rank := w][q], MaxTimestamp)
      {
        assert SlotOf(q) != SlotOf(rank);
      }
    }

    /**
     * The constructors together: the counter is 0, all slots hold
     * `MAX_TIMESTAMP` and both scans are empty.
     */
    constructor (variant: Variant, size: nat, dequeuer: int, capacity: nat, minHeap: bool)
      requires 0 <= dequeuer < size <= MaxRanks
      ensures Valid() && this.variant == variant && this.size == size && this.dequeuer == dequeuer
      ensures this.capacity == capacity && this.minHeap == minHeap
      ensures counter == 0 && slots == seq(SlotCount(), _ => MaxTimestamp)
      ensures (forall r :: 0 <= r < |spscs| ==> spscs[r] == []) && firstScan == [] && secondScan == []
    {
      this.variant, this.size, this.dequeuer, this.capacity, this.minHeap := variant, size, dequeuer, capacity, minHeap;
      counter := 0;
      slots := seq(if RankIndexed(variant) then size else size - 1, _ => MaxTimestamp);
      spscs := seq(size, _ => []);
      firstScan, secondScan := [], [];
    }

    /** `compare_and_swap_sync` on a slot: store only on equality, return the prior value. */
    method CasSlot(i: int, expected: int, desired: int) returns (prior: int)
      requires Shape() && 0 <= i < |slots| && 0 <= desired <= MaxTimestamp
      modifies this`slots
      ensures Shape() && prior == old(slots[i])
      ensures slots == if prior == expected then old(slots)[i := desired] else old(slots)
    {
      prior := slots[i];
      if prior == expected {
        slots := slots[i := desired];
      }
    }

    /** `read_front` of enqueuer `r`'s SPSC, on either side: the front timestamp if there is one. */
    method ReadFront(r: int) returns (ts: Option<int>)
      requires Shape() && 0 <= r < |spscs|
      ensures ts.Some? <==> spscs[r] != []
      ensures ts.Some? ==> ts.value == spscs[r][0].timestamp
    {
      if spscs[r] == [] {
        return None;
      }
      ts := Some(spscs[r][0].timestamp);
    }

    /**
     * `_refreshEnqueue(ts)` of enqueuer `r`: when its front timestamp
     * (`MAX_TIMESTAMP` if empty) is not `ts` nothing is written; otherwise
     * the slot is set to `ts` by a CAS from the value read, which succeeds.
     * V2 reads the slot and then the front once; the others look at the
     * front, read the slot, and look at the front again.
     */
    method RefreshEnqueue(r: int, ts: int) returns (ok: bool)
      requires Shape() && Ranks.IsEnqueuer(size, dequeuer, r) && 0 <= ts < Word
      modifies this`slots
      ensures Shape() && ok
      ensures slots == if FrontTs(spscs[r], MaxTimestamp) == ts then old(slots)[SlotOf(r) := ts] else old(slots)
    {
      var front, newTimestamp;
      if variant != V2 {
        front := ReadFront(r);
        newTimestamp := if front.None? then MaxTimestamp else front.value;
        if newTimestamp != ts {
          return true;
        }
      }
      var oldTimestamp := slots[SlotOf(r)];
      front := ReadFront(r);
      newTimestamp := if front.None? then MaxTimestamp else front.value;
      if newTimestamp != ts {
        return true;
      }
      var result := CasSlot(SlotOf(r), oldTimestamp, newTimestamp);
      ok := result == oldTimestamp;
    }

    /**
     * `_refreshDequeue(r)`: enqueuer `r`'s slot is set by a CAS from the
     * value read to its front timestamp, or `MAX_TIMESTAMP` when its SPSC is
     * empty; the CAS succeeds.  V2 and V2a also push a non-empty front into
     * `_second_scan`.
     */
    method RefreshDequeue(r: int) returns (ok: bool)
      requires Shape() && Ranks.IsEnqueuer(size, dequeuer, r)
      modifies this`slots, this`secondScan
      ensures Shape() && ok
      ensures slots == old(slots)[SlotOf(r) := FrontTs(spscs[r], MaxTimestamp)]
      ensures secondScan == if ScanHeaps(variant) && spscs[r] != [] then old(secondScan) + [Slot(SlotOf(r), spscs[r][0].timestamp)]
                            else old(secondScan)
    {
      var enqueuerSlot := SlotOf(r);
      var oldTimestamp := slots[enqueuerSlot];
      var front := ReadFront(r);
      var newTimestamp := if front.None? then MaxTimestamp else front.value;
      if front.Some? && ScanHeaps(variant) {
        secondScan := secondScan + [Slot(enqueuerSlot, front.value)];
      }
      var result := CasSlot(enqueuerSlot, oldTimestamp, newTimestamp);
      ok := result == oldTimestamp;
    }

    /** `get_and_increment` (or `fetch_and_add_sync` of 1) on the 64-bit counter: the old value, then the cell wraps on. */
    method DrawTimestamp() returns (ts: int)
      requires Shape()
      modifies this`counter
      ensures Shape() && ts == old(counter) && counter == (old(counter) + 1) % Word
    {
      ts := counter;
      counter := (counter + 1) % Word;
    }

    /**
     * After items stamped `ts` were appended to `r`'s SPSC, the retried
     * `_refreshEnqueue` restores the slot invariant: either the SPSC was
     * empty and its front is now stamped `ts`, or its front did not change.
     */
    method Publish(r: int, ts: int, ghost before: seq<Item<T>>)
      requires Shape() && Ranks.IsEnqueuer(size, dequeuer, r) && 0 <= ts < Word && |spscs[r]| <= capacity
      requires spscs[dequeuer] == [] && (RankIndexed(variant) ==> slots[dequeuer] == MaxTimestamp)
      requires ScansOk(firstScan, secondScan)
      requires (before != [] && |before| <= |spscs[r]| && spscs[r] == before + spscs[r][|before|..]) ||
               (before == [] && spscs[r] != [] && spscs[r][0].timestamp == ts)
      requires slots[SlotOf(r)] == FrontTs(before, MaxTimestamp)
      requires forall q :: Ranks.IsEnqueuer(size, dequeuer, q) && q != r ==>
                 slots[SlotOf(q)] == FrontTs(spscs[q], MaxTimestamp) && |spscs[q]| <= capacity
      modifies this`slots
      ensures Valid() && slots[SlotOf(r)] == FrontTs(spscs[r], MaxTimestamp)
      ensures forall i :: 0 <= i < |slots| && i != SlotOf(r) ==> slots[i] == old(slots[i])
    {
      if before != [] {
        assert spscs[r][0] == before[0];
      }
      var ok := RefreshEnqueue(r, ts);
      if !ok {
        assert false;
      }
      forall q | Ranks.IsEnqueuer(size, dequeuer, q) && q != r
        ensures slots[SlotOf(q)] == FrontTs(spscs[q], MaxTimestamp)
      {
        SlotsDistinct(q, r);
      }
    }

    /**
     * `enqueue` of one item by enqueuer `r`: a timestamp is always drawn;
     * the item is refused exactly when `r`'s SPSC is full, and otherwise
     * appended with that timestamp and published in `r`'s slot when it is
     * the new front.
     */
    method Enqueue(r: int, x: T) returns (ok: bool)
      requires Valid() && Ranks.IsEnqueuer(size, dequeuer, r)
      modifies this`counter, this`spscs, this`slots
      ensures Valid()
      ensures counter == (old(counter) + 1) % Word
      ensures ok <==> |old(spscs[r])| < capacity
      ensures spscs == if ok then old(spscs)[r := old(spscs[r]) + [Item(x, old(counter))]] else old(spscs)
      ensures !ok ==> slots == old(slots)
      ensures firstScan == old(firstScan) && secondScan == old(secondScan)
    {
      var ts := DrawTimestamp();
      if |spscs[r]| + 1 > capacity {
        return false;
      }
      ghost var before := spscs[r];
      SpscAppend(r, [Item(x, ts)], ts);
      Publish(r, ts, before);
      ok := true;
    }

    /**
     * `enqueue` of a batch: an empty batch succeeds without a timestamp;
     * otherwise one timestamp is drawn for the whole batch, which is refused
     * exactly when it does not fit in `r`'s SPSC.
     */
    method EnqueueBatch(r: int, xs: seq<T>) returns (ok: bool)
      requires Valid() && Ranks.IsEnqueuer(size, dequeuer, r)
      modifies this`counter, this`spscs, this`slots
      ensures Valid()
      ensures counter == if xs == [] then old(counter) else (old(counter) + 1) % Word
      ensures ok <==> |old(spscs[r])| + |xs| <= capacity
      ensures spscs == if ok && xs != [] then old(spscs)[r := old(spscs[r]) + Stamp(xs, old(counter))] else old(spscs)
      ensures firstScan == old(firstScan) && secondScan == old(secondScan)
    {
      if |xs| == 0 {
        return true;
      }
      var ts := DrawTimestamp();
      var items := Stamped(xs, ts);
      if |spscs[r]| + |items| > capacity {
        return false;
      }
      ghost var before := spscs[r];
      SpscAppend(r, items, ts);
      assert items == Stamp(xs, old(counter));
      Publish(r, ts, before);
      ok := true;
    }

    /**
     * The enqueuer's SPSC `enqueue` of items stamped `ts`, once they fit:
     * they go to the back, so the front is unchanged unless the SPSC was
     * empty, and then it is stamped `ts`.
     */
    method SpscAppend(r: int, items: seq<Item<T>>, ts: int)
      requires Shape() && 0 <= r < |spscs| && 0 <= ts < Word && items != []
      requires forall k :: 0 <= k < |items| ==> items[k].timestamp == ts
      modifies this`spscs
      ensures Shape() && spscs == old(spscs)[r := old(spscs[r]) + items]
      ensures (old(spscs[r]) != [] && spscs[r] == old(spscs[r]) + spscs[r][|old(spscs[r])|..]) ||
              (old(spscs[r]) == [] && spscs[r][0].timestamp == ts)
    {
      ghost var before := spscs[r];
      spscs := spscs[r := spscs[r] + items];
      assert spscs[r][|before|..] == items;
    }

    /** The dequeuer's SPSC `dequeue` from enqueuer `r`: the front item if there is one. */
    method SpscDequeue(r: int) returns (out: Option<Item<T>>)
      requires Shape() && 0 <= r < |spscs|
      modifies this`spscs
      ensures Shape()
      ensures out.Some? <==> old(spscs[r]) != []
      ensures out.Some? ==> out.value == old(spscs[r])[0] && spscs == old(spscs)[r := old(spscs[r])[1..]]
      ensures out.None? ==> spscs == old(spscs)
    {
      if spscs[r] == [] {
        return None;
      }
      out := Some(spscs[r][0]);
      spscs := spscs[r := spscs[r][1..]];
    }

    /**
     * `_readMinimumRank` of the base queue, V2b, V2c and the node variant:
     * the slots are read twice; `DUMMY_RANK` exactly when every slot is
     * empty, otherwise the rank owning the first slot with the strictly
     * smallest timestamp.
     */
    method ScanMinimumRank() returns (rank: int)
      requires Valid() && !ScanHeaps(variant)
      ensures rank == DummyRank <==> forall i :: 0 <= i < |slots| ==> slots[i] == MaxTimestamp
      ensures rank != DummyRank ==> Ranks.IsEnqueuer(size, dequeuer, rank) && IsFirstMin(slots, |slots|, SlotOf(rank)) &&
                                    slots[SlotOf(rank)] < MaxTimestamp
    {
      var order, firstOrder := ReadMinimumOrder(slots, slots, FullSecondScan(variant));
      if order == DummyRank {
        return DummyRank;
      }
      SlotOwners(order);
      rank := RankOf(order);
    }

    /**
     * `_readMinimumRankFromScans`: the scans pop what `ServeFromScans`
     * decides and the order served is mapped to its enqueuer's rank.
     */
    method RankFromScans() returns (rank: int)
      requires Valid() && ScanHeaps(variant)
      modifies this`firstScan, this`secondScan
      ensures Valid()
      ensures var r := ServeFromScans(old(firstScan), old(secondScan), minHeap);
              firstScan == r.first && secondScan == r.second &&
              rank == if r.order == DummyRank then DummyRank else RankOf(r.order)
      ensures rank != DummyRank ==> Ranks.IsEnqueuer(size, dequeuer, rank)
      ensures old(firstScan) != [] && old(firstScan) == old(secondScan) ==>
                rank != DummyRank && SlotOf(rank) == Top(old(firstScan), minHeap).index
    {
      var r := ServeFromScans(firstScan, secondScan, minHeap);
      ServedKeepsScans(firstScan, secondScan);
      firstScan, secondScan := r.first, r.second;
      if r.order == DummyRank {
        return DummyRank;
      }
      SlotOwners(r.order);
      rank := RankOf(r.order);
    }

    /** Serving from the scans keeps them scans of slots, and the order served names a slot. */
    lemma ServedKeepsScans(f: seq<Slot>, s: seq<Slot>)
      requires ScansOk(f, s)
      ensures var r := ServeFromScans(f, s, minHeap);
              ScansOk(r.first, r.second) && (r.order != DummyRank ==> 0 <= r.order < SlotCount())
    {
    }

    /**
     * One read of the slots in `_readMinimumRank` of V2 and V2a and the
     * pushes that follow it: an entry for every slot not holding
     * `MAX_TIMESTAMP`, in slot order.
     */
    method ScanSlots() returns (h: seq<Slot>)
      requires Shape()
      ensures h == Entries(slots, |slots|)
      ensures forall e :: e in h ==> 0 <= e.index < SlotCount() && 0 <= e.timestamp < MaxTimestamp
    {
      h := [];
      var i := 0;
      while i < |slots|
        invariant 0 <= i <= |slots|
        invariant h == Entries(slots, i)
      {
        if slots[i] != MaxTimestamp {
          h := h + [Slot(i, slots[i])];
        }
        i := i + 1;
      }
    }

    /**
     * `_readMinimumRank` of V2 and V2a: the scans' answer when it is not
     * `DUMMY_RANK`; otherwise both scans are refilled from two reads of the
     * slots with every slot not holding `MAX_TIMESTAMP`, and `DUMMY_RANK`
     * is returned when there is none.  From empty scans the slot served is
     * the top of a scan of all non-empty slots: the largest timestamp with
     * the source's comparison, the smallest with `minHeap`.
     */
    method HeapMinimumRank() returns (rank: int)
      requires Valid() && ScanHeaps(variant)
      modifies this`firstScan, this`secondScan
      ensures Valid()
      ensures rank == DummyRank ==> forall i :: 0 <= i < |slots| ==> slots[i] == MaxTimestamp
      ensures rank != DummyRank ==> Ranks.IsEnqueuer(size, dequeuer, rank)
      ensures old(firstScan) == [] && rank != DummyRank ==>
                Entries(slots, |slots|) != [] &&
                Top(Entries(slots, |slots|), minHeap) == Slot(SlotOf(rank), slots[SlotOf(rank)])
    {
      rank := RankFromScans();
      DummyRankIsMaxTimestamp(rank);
      if AsTimestamp(rank) != MaxTimestamp {
        return rank;
      }
      rank := Rescan();
    }

    /**
     * The rest of `_readMinimumRank` of V2 and V2a once the scans are empty:
     * refill the first scan from the slots, give up when it stays empty,
     * refill the second and serve from both.
     */
    method Rescan() returns (rank: int)
      requires Valid() && ScanHeaps(variant) && firstScan == [] && secondScan == []
      modifies this`firstScan, this`secondScan
      ensures Valid()
      ensures rank == DummyRank ==> forall i :: 0 <= i < |slots| ==> slots[i] == MaxTimestamp
      ensures rank != DummyRank ==>
                Ranks.IsEnqueuer(size, dequeuer, rank) && Entries(slots, |slots|) != [] &&
                Top(Entries(slots, |slots|), minHeap) == Slot(SlotOf(rank), slots[SlotOf(rank)])
    {
      ghost var buf := slots;
      var first := ScanSlots();
      if |first| == 0 {
        NoEntries(buf);
        return DummyRank;
      }
      var second := ScanSlots();
      firstScan, secondScan := first, second;
      assert slots == buf;
      rank := RankFromScans();
      FreshTopSlot(buf, minHeap, SlotOf(rank));
    }

    /**
     * `dequeue`: the scans pick an enqueuer (`_readMinimumRank`); nothing
     * when they pick none or its SPSC is empty, otherwise its front item,
     * which is removed, and its slot is refreshed.  In the base queue, V2b,
     * V2c and the node variant the result is nothing exactly when every
     * enqueuer's front timestamp is `MAX_TIMESTAMP`, and otherwise the front
     * with the smallest timestamp, the one with the lowest slot among equals.
     * In V2 and V2a a dequeue from empty scans serves the front whose
     * timestamp is the largest with the source's comparison, the smallest
     * with `minHeap`.
     */
    method Dequeue() returns (res: Option<T>, ghost from: int)
      requires Valid()
      modifies this
      ensures Valid() && counter == old(counter)
      ensures res.None? ==> spscs == old(spscs) && slots == old(slots)
      ensures res.Some? ==> Ranks.IsEnqueuer(size, dequeuer, from) && old(spscs[from]) != [] &&
                            res.value == old(spscs[from])[0].data &&
                            spscs == old(spscs)[from := old(spscs[from])[1..]]
      ensures (forall r :: 0 <= r < |old(spscs)| ==> old(spscs[r]) == []) ==> res.None?
      ensures !ScanHeaps(variant) ==>
                (res.None? <==> forall r :: Ranks.IsEnqueuer(size, dequeuer, r) ==> FrontTs(old(spscs[r]), MaxTimestamp) == MaxTimestamp)
      ensures !ScanHeaps(variant) && res.Some? ==>
                forall r :: Ranks.IsEnqueuer(size, dequeuer, r) ==>
                  old(spscs[from])[0].timestamp <= FrontTs(old(spscs[r]), MaxTimestamp) &&
                  (SlotOf(r) < SlotOf(from) ==> old(spscs[from])[0].timestamp < FrontTs(old(spscs[r]), MaxTimestamp))
      ensures ScanHeaps(variant) && old(firstScan) == [] && res.Some? ==>
                forall r :: Ranks.IsEnqueuer(size, dequeuer, r) && FrontTs(old(spscs[r]), MaxTimestamp) != MaxTimestamp ==>
                  if minHeap then old(spscs[from])[0].timestamp <= old(spscs[r])[0].timestamp
                  else old(spscs[r])[0].timestamp <= old(spscs[from])[0].timestamp
    {
      var rank;
      if ScanHeaps(variant) {
        rank := HeapMinimumRank();
      } else {
        rank := ScanMinimumRank();
      }
      if rank == DummyRank {
        forall r | Ranks.IsEnqueuer(size, dequeuer, r)
          ensures FrontTs(spscs[r], MaxTimestamp) == MaxTimestamp
        {
          SlotsDistinct(r, r);
        }
        return None, DummyRank;
      }
      if !ScanHeaps(variant) {
        FirstMinIsOldest(rank);
      } else if old(firstScan) == [] {
        TopIsExtreme(rank);
      }
      from := rank;
      res := Take(rank);
    }

    /**
     * The end of `dequeue` once an enqueuer is picked: nothing when its SPSC
     * is empty; otherwise its front item, which is removed, and its slot
     * refreshed to the new front.
     */
    method Take(rank: int) returns (res: Option<T>)
      requires Valid() && Ranks.IsEnqueuer(size, dequeuer, rank)
      modifies this`spscs, this`slots, this`secondScan
      ensures Valid()
      ensures res.Some? <==> old(spscs[rank]) != []
      ensures res.None? ==> spscs == old(spscs) && slots == old(slots)
      ensures res.Some? ==> res.value == old(spscs[rank])[0].data && spscs == old(spscs)[rank := old(spscs[rank])[1..]]
    {
      var out := SpscDequeue(rank);
      if out.None? {
        return None;
      }
      var ok := RefreshDequeue(rank);
      if !ok {
        assert false;
      }
      OthersKeepFronts(old(slots), old(spscs), rank, FrontTs(spscs[rank], MaxTimestamp), old(spscs[rank])[1..]);
      assert ScansOk(firstScan, secondScan) by {
        assert multiset(old(secondScan)) <= multiset(secondScan);
      }
      res := Some(out.value.data);
    }

    /**
     * The enqueuer owning the first smallest slot holds the oldest front:
     * no enqueuer's front timestamp is smaller, and those with lower slots
     * have larger ones.
     */
    lemma FirstMinIsOldest(rank: int)
      requires Valid() && Ranks.IsEnqueuer(size, dequeuer, rank)
      requires IsFirstMin(slots, |slots|, SlotOf(rank)) && slots[SlotOf(rank)] < MaxTimestamp
      ensures spscs[rank] != []
      ensures forall q :: Ranks.IsEnqueuer(size, dequeuer, q) ==>
                spscs[rank][0].timestamp <= FrontTs(spscs[q], MaxTimestamp) &&
                (SlotOf(q) < SlotOf(rank) ==> spscs[rank][0].timestamp < FrontTs(spscs[q], MaxTimestamp))
    {
      forall q | Ranks.IsEnqueuer(size, dequeuer, q)
        ensures 0 <= SlotOf(q) < |slots|
      {
        SlotsDistinct(q, rank);
      }
    }

    /**
     * The enqueuer owning the top of a fresh scan holds a front whose
     * timestamp is the extreme one among all non-empty SPSCs: the largest
     * with the source's comparison, the smallest with `minHeap`.
     */
    lemma TopIsExtreme(rank: int)
      requires Valid() && Ranks.IsEnqueuer(size, dequeuer, rank)
      requires Entries(slots, |slots|) != [] && Top(Entries(slots, |slots|), minHeap) == Slot(SlotOf(rank), slots[SlotOf(rank)])
      ensures spscs[rank] != []
      ensures forall q :: Ranks.IsEnqueuer(size, dequeuer, q) && FrontTs(spscs[q], MaxTimestamp) != MaxTimestamp ==>
                if minHeap then spscs[rank][0].timestamp <= spscs[q][0].timestamp
                else spscs[q][0].timestamp <= spscs[rank][0].timestamp
    {
      SlotsDistinct(rank, rank);
      forall q | Ranks.IsEnqueuer(size, dequeuer, q) && FrontTs(spscs[q], MaxTimestamp) != MaxTimestamp
        ensures if minHeap then spscs[rank][0].timestamp <= spscs[q][0].timestamp
                else spscs[q][0].timestamp <= spscs[rank][0].timestamp
      {
        SlotsDistinct(q, rank);
        assert Slot(SlotOf(q), slots[SlotOf(q)]) in Entries(slots, |slots|);
      }
    }
  }
}
