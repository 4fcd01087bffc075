/**
 * The dequeuer side of the slot queues: an array of per-enqueuer minimum
 * timestamps (`_min_timestamp_ptr`), read into `_min_timestamp_buf` and
 * scanned for the first slot with the strictly smallest timestamp, then read
 * and scanned once more.  A slot holding `MAX_TIMESTAMP` is empty.
 */
module SlotScan {
  /** `MAX_TIMESTAMP = ~((uint64_t)0)`. */
  const MaxTimestamp: int := 0xFFFF_FFFF_FFFF_FFFF
  /** `DUMMY_RANK = ~((MPI_Aint)0)`. */
  const DummyRank: int := -1

  /** Every slot holds a 64-bit timestamp. */
  predicate Timestamps(buf: seq<int>)
  {
    forall i :: 0 <= i < |buf| ==> 0 <= buf[i] <= MaxTimestamp
  }

  /**
   * Among the first `bound` slots, slot `i` has the smallest timestamp and
   * every slot before it a strictly larger one.
   */
  predicate IsFirstMin(buf: seq<int>, bound: int, i: int)
  {
    0 <= i < bound <= |buf| &&
    (forall j :: 0 <= j < bound ==> buf[i] <= buf[j]) &&
    (forall j :: 0 <= j < i ==> buf[i] < buf[j])
  }

  /**
   * One scan loop of `_readMinimumRank` over slots `0 .. bound - 1`: the
   * choice `(order, min)` is replaced by a slot only when its timestamp is
   * strictly smaller.  When some slot beats `min` the result is the first
   * smallest slot; otherwise the choice is kept.
   */
  method Scan(buf: seq<int>, bound: int, order: int, min: int) returns (order': int, min': int)
    requires 0 <= bound <= |buf|
    ensures min' <= min && forall j :: 0 <= j < bound ==> min' <= buf[j]
    ensures (forall j :: 0 <= j < bound ==> min <= buf[j]) ==> order' == order && min' == min
    ensures (exists j :: 0 <= j < bound && buf[j] < min) ==> IsFirstMin(buf, bound, order') && min' == buf[order']
  {
    order', min' := order, min;
    var i := 0;
    while i < bound
      invariant 0 <= i <= bound
      invariant min' <= min && forall j :: 0 <= j < i ==> min' <= buf[j]
      invariant (forall j :: 0 <= j < i ==> min <= buf[j]) ==> order' == order && min' == min
      invariant (exists j :: 0 <= j < i && buf[j] < min) ==> IsFirstMin(buf, i, order') && min' == buf[order']
    {
      var timestamp := buf[i];
      if timestamp < min' {
        order', min' := i, timestamp;
      }
      i := i + 1;
    }
  }

  /**
   * `_readMinimumRank` before the order is mapped to a rank, given what the
   * two reads of the slots returned.  `DUMMY_RANK` exactly when the first
   * read sees only `MAX_TIMESTAMP`; otherwise the first read's first
   * smallest slot, which the second scan (over the slots before it, or over
   * all slots when `fullSecondScan`) replaces only by a slot with a strictly
   * smaller timestamp in the second read.  When both reads agree, as they do
   * one call at a time, the result is the first smallest slot.
   */
  method ReadMinimumOrder(first: seq<int>, second: seq<int>, fullSecondScan: bool) returns (order: int, ghost firstOrder: int)
    requires |first| == |second| && Timestamps(first)
    ensures order == DummyRank <==> forall j :: 0 <= j < |first| ==> first[j] == MaxTimestamp
    ensures order != DummyRank ==> IsFirstMin(first, |first|, firstOrder) && first[firstOrder] < MaxTimestamp
    ensures order != DummyRank ==>
              (order == firstOrder ||
               (0 <= order < |second| && second[order] < first[firstOrder] && (fullSecondScan || order < firstOrder)))
    ensures order != DummyRank && first == second ==> order == firstOrder
  {
    var min;
    order, min := Scan(first, |first|, DummyRank, MaxTimestamp);
    if order == DummyRank {
      return DummyRank, DummyRank;
    }
    firstOrder := order;
    var bound := if fullSecondScan then |second| else order;
    order, min := Scan(second, bound, order, min);
  }
}
