/**
 * The fetch-and-add counters that hand out timestamps: one cell on a host
 * rank, starting at 0, and `get_and_increment` as one fetch-and-add of 1 on
 * it.  `Counter` is the library counter, which picks its host next to the
 * dequeuer and can be moved; `HostedCounter` is the one under `utils`, whose
 * host is given by the caller.
 */
module FaaCounters {
  /** The values that `k` successive `get_and_increment` calls return from a cell holding `c`. */
  ghost function Draws(c: int, k: nat): (s: seq<int>)
    decreases k
  {
    if k == 0 then [] else [c] + Draws(c + 1, k - 1)
  }

  /** Successive calls return `c, c + 1, c + 2, ...`: one value each, one more than the last. */
  lemma {:induction false} DrawsConsecutive(c: int, k: nat)
    ensures |Draws(c, k)| == k
    ensures forall i :: 0 <= i < k ==> Draws(c, k)[i] == c + i
    decreases k
  {
    if k > 0 {
      DrawsConsecutive(c + 1, k - 1);
    }
  }

  /** One more call appends the cell's value after `k` calls. */
  lemma {:induction false} DrawsAppend(c: int, k: nat)
    ensures Draws(c, k + 1) == Draws(c, k) + [c + k]
    decreases k
  {
    if k > 0 {
      DrawsAppend(c + 1, k - 1);
    }
  }

  /** No two calls return the same value, and later calls return larger ones. */
  lemma DrawsIncreasing(c: int, k: nat)
    ensures forall i, j :: 0 <= i < j < |Draws(c, k)| ==> Draws(c, k)[i] < Draws(c, k)[j]
  {
    DrawsConsecutive(c, k);
  }

  /**
   * The library counter's host, the rank after the dequeuer's: never the
   * dequeuer itself unless the dequeuer is alone.
   */
  function Host(dequeuerRank: int, size: int): (h: int)
    requires 0 <= dequeuerRank < size
    ensures 0 <= h < size
    ensures h == dequeuerRank <==> size == 1
    ensures dequeuerRank < size - 1 ==> h == dequeuerRank + 1
  {
    (dequeuerRank + 1) % size
  }

  /** `FaaCounter` of the library: its cell on the host, and whether this handle still owns the window. */
  class Counter {
    var host: int
    /** The host's one window cell. */
    var cell: int
    /** Whether the window handle is still set (a moved-from handle has it nulled). */
    var live: bool
    /** The values returned so far. */
    ghost var issued: seq<int>

    /** A live handle whose cell has counted exactly the calls made, from 0. */
    ghost predicate Valid()
      reads this
    {
      live && cell >= 0 && issued == Draws(0, cell)
    }

    /** The constructor: the host is the rank after the dequeuer's, and only it holds the cell, set to 0. */
    constructor (dequeuerRank: int, size: int)
      requires 0 <= dequeuerRank < size
      ensures Valid() && host == Host(dequeuerRank, size) && cell == 0 && issued == []
    {
      host := Host(dequeuerRank, size);
      cell := 0;
      live := true;
      issued := [];
    }

    /**
     * The move constructor: the new handle takes over the window, the cell
     * and the host; the source is left with a null window and host 0.
     */
    constructor Move(other: Counter)
      modifies other
      ensures host == old(other.host) && cell == old(other.cell) && live == old(other.live)
      ensures issued == old(other.issued)
      ensures !other.live && other.host == 0 && other.cell == old(other.cell)
    {
      host := other.host;
      cell := other.cell;
      live := other.live;
      issued := other.issued;
      new;
      other.live := false;
      other.host := 0;
    }

    /** The destructor: frees the window only when this handle still owns it. */
    method Destroy() returns (freed: bool)
      modifies this`live
      ensures freed == old(live) && !live
    {
      freed := live;
      live := false;
    }

    /**
     * `get_and_increment`: fetch-and-add 1 on the host's cell, returning the
     * value before the addition, so the calls return 0, 1, 2, ...
     */
    method GetAndIncrement() returns (v: int)
      requires Valid()
      modifies this`cell, this`issued
      ensures Valid()
      ensures v == old(cell) == |old(issued)| && cell == old(cell) + 1
      ensures issued == old(issued) + [v]
    {
      v := cell;
      cell := cell + 1;
      DrawsConsecutive(0, v);
      DrawsAppend(0, v);
      issued := issued + [v];
    }
  }

  /** `FaaCounter` under `utils`: the host is taken as given, and the skipped rank is ignored. */
  class HostedCounter {
    const host: int
    var cell: int
    var live: bool
    ghost var issued: seq<int>

    ghost predicate Valid()
      reads this
    {
      live && cell >= 0 && issued == Draws(0, cell)
    }

    /** The constructor: only `host` holds the cell, set to 0. */
    constructor (skippedRank: int, host: int)
      ensures Valid() && this.host == host && cell == 0 && issued == []
    {
      this.host := host;
      cell := 0;
      live := true;
      issued := [];
    }

    /** The destructor frees the window unconditionally. */
    method Destroy() returns (freed: bool)
      modifies this`live
      ensures freed && !live
    {
      freed := true;
      live := false;
    }

    /** `get_and_increment`: the value before a fetch-and-add of 1 on the host's cell. */
    method GetAndIncrement() returns (v: int)
      requires Valid()
      modifies this`cell, this`issued
      ensures Valid()
      ensures v == old(cell) == |old(issued)| && cell == old(cell) + 1
      ensures issued == old(issued) + [v]
    {
      v := cell;
      cell := cell + 1;
      DrawsConsecutive(0, v);
      DrawsAppend(0, v);
      issued := issued + [v];
    }
  }
}
