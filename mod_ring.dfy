/**
 * The inner `Spsc` of the early LTQueue draft: a ring of `size` slots whose
 * `first` and `last` cells hold indices already reduced modulo `size`, so one
 * slot always stays free.  `announce` and `free_later` are indices too, with
 * `NULL_INDEX` (all bits set, that is -1) for "none"; the enqueuer refuses to
 * overwrite the slot they name.  The enqueuer's and the dequeuer's halves act
 * on the same windows and are one class here.
 */
module ModularSpsc {
  import opened Wrappers
  import Ring

  /** `NULL_INDEX = ~((MPI_Aint)0)`. */
  const NullIndex: int := -1

  /**
   * For a ring of `size` slots holding `count` items from index `first`, the
   * slot after the last one is `first` again exactly when the ring is full.
   */
  lemma {:induction false} FullIff(first: int, count: int, size: int)
    requires 0 <= first < size && 0 <= count < size
    ensures ((first + count) % size + 1) % size == first <==> count == size - 1
  {
    Ring.ModAdd(first + count, 1, size);
    assert first + count + 1 == first + (count + 1);
    if count == size - 1 {
      Ring.ModOfDecomposition(first + size, 1, first, size);
    } else {
      Ring.SlotsDistinct(first, count + 1, size);
      Ring.ModOfDecomposition(first, 0, first, size);
    }
  }

  /** `first == last` exactly when the ring is empty. */
  lemma EmptyIff(first: int, count: int, size: int)
    requires 0 <= first < size && 0 <= count < size
    ensures (first + count) % size == first <==> count == 0
  {
    Ring.ModOfDecomposition(first, 0, first, size);
    if count > 0 {
      Ring.SlotsDistinct(first, count, size);
    }
  }

  /** Taking the oldest item of a non-empty ring and stepping `first` modulo `size`. */
  lemma TakeStep<T>(data: seq<T>, first: int, count: int)
    requires 0 <= first < |data| && 0 < count < |data|
    ensures Ring.Window(data, first, count)[0] == data[first]
    ensures Ring.Window(data, (first + 1) % |data|, count - 1) == Ring.Window(data, first, count)[1..]
    ensures ((first + 1) % |data| + (count - 1)) % |data| == (first + count) % |data|
  {
    var size := |data|;
    Ring.ModOfDecomposition(first, 0, first, size);
    Ring.WindowAdvance(data, first, count);
    Ring.WindowRebase(data, first + 1, count - 1);
    Ring.ModAdd(first + 1, count - 1, size);
    assert first + 1 + (count - 1) == first + count;
  }

  /** Storing into slot `last` of a ring that is not full and stepping `last` modulo `size`. */
  lemma PutStep<T>(data: seq<T>, first: int, count: int, x: T)
    requires 0 <= first < |data| && 0 <= count < |data| - 1
    ensures Ring.Window(data[(first + count) % |data| := x], first, count + 1) == Ring.Window(data, first, count) + [x]
    ensures ((first + count) % |data| + 1) % |data| == (first + (count + 1)) % |data|
  {
    var cap := |data|;
    Ring.ModAdd(first + count, 1, cap);
    assert ((first + count) % cap + 1) % cap == (first + (count + 1)) % cap;
    Ring.WindowAppend(data, first, count, x);
  }

  class Channel<T(0)> {
    const size: int
    /** `_data_ptr`, `_first_ptr`, `_last_ptr`, `_announce_ptr`, `_free_later_ptr`, `_help_ptr`. */
    var data: seq<T>
    var first: int
    var last: int
    var announce: int
    var freeLater: int
    var help: T
    /** The number of items between `first` and `last`. */
    ghost var count: int

    ghost predicate Valid()
      reads this
    {
      size > 0 && |data| == size &&
      0 <= first < size && 0 <= count < size &&
      last == (first + count) % size
    }

    /** The items from `first` up to `last`, oldest first. */
    ghost function Contents(): (s: seq<T>)
      requires Valid()
      reads this
      ensures |s| == count < size
    {
      Ring.Window(data, first, count)
    }

    /** The constructor: `first = last = 0`, `announce = free_later = NULL_INDEX`. */
    constructor (size: int)
      requires size > 0
      ensures Valid() && this.size == size
      ensures first == 0 && last == 0 && Contents() == []
      ensures announce == NullIndex && freeLater == NullIndex
    {
      var unset: T := *;
      this.size := size;
      data := seq(size, _ => unset);
      first, last, count := 0, 0, 0;
      announce, freeLater := NullIndex, NullIndex;
      Ring.ModOfDecomposition(0, 0, 0, size);
    }

    /**
     * `enqueue`: refused, with nothing written, when the slot after `last` is
     * `first` (the ring holds `size - 1` items) or `last` is the announced or
     * the deferred index; otherwise the value goes to slot `last` and `last`
     * moves on modulo `size`.
     */
    method Enqueue(x: T) returns (ok: bool)
      requires Valid()
      modifies this
      ensures Valid()
      ensures ok <==> old(count) < size - 1 && old(last) != announce && old(last) != freeLater
      ensures ok ==> data == old(data)[old(last) := x] && last == (old(last) + 1) % size
      ensures ok ==> Contents() == old(Contents()) + [x]
      ensures !ok ==> data == old(data) && last == old(last) && Contents() == old(Contents())
      ensures first == old(first) && announce == old(announce) && freeLater == old(freeLater) && help == old(help)
    {
      var newLast := (last + 1) % size;
      FullIff(first, count, size);
      assert newLast == first <==> count == size - 1;
      if newLast == first || last == announce || last == freeLater {
        return false;
      }
      PutStep(data, first, count, x);
      ghost var w := Contents();
      var d := data[last := x];
      assert Ring.Window(d, first, count + 1) == w + [x];
      data := d;
      last, count := newLast, count + 1;
      ok := true;
    }

    /**
     * `dequeue`: nothing when `first == last`; otherwise slot `first` is
     * returned and copied to `help`, `first` moves on modulo `size`, and a
     * dequeued index equal to `announce` becomes `free_later`.
     */
    method Dequeue() returns (r: Option<T>)
      requires Valid()
      modifies this
      ensures Valid()
      ensures r.Some? <==> old(Contents()) != []
      ensures r.Some? ==> r.value == old(Contents())[0] && Contents() == old(Contents())[1..]
      ensures r.Some? ==> help == r.value && first == (old(first) + 1) % size
      ensures r.Some? ==> freeLater == if old(first) == announce then announce else old(freeLater)
      ensures r.None? ==> first == old(first) && help == old(help) && freeLater == old(freeLater)
      ensures data == old(data) && last == old(last) && announce == old(announce)
    {
      EmptyIff(first, count, size);
      if first == last {
        return None;
      }
      var out := data[first];
      help := out;
      var old_first := first;
      TakeStep(data, first, count);
      first, count := (first + 1) % size, count - 1;
      if old_first == announce {
        freeLater := announce;
      }
      r := Some(out);
    }
  }
}
