/**
 * `MaxStutterCounter`: one cell per enqueuer in a window of `size - 1`
 * cells on the host.  `get_and_increment` reads every cell, takes their
 * maximum (from -1), writes one more than that into the caller's own cell
 * (indexed by its enqueuer order) and returns the maximum.
 */
module MaxStutter {
  import Ranks

  /** The largest of `s`, starting from -1: what the maximum loop of `get_and_increment` computes. */
  function MaxFrom(s: seq<int>): (m: int)
    ensures m >= -1
    ensures forall i :: 0 <= i < |s| ==> s[i] <= m
    ensures m == -1 || exists i :: 0 <= i < |s| && s[i] == m
  {
    if |s| == 0 then -1
    else
      var p := MaxFrom(s[..|s| - 1]);
      if p < s[|s| - 1] then s[|s| - 1] else p
  }

  /** Raising one cell to one above the maximum makes that the new maximum. */
  lemma MaxAfterRaise(s: seq<int>, k: int)
    requires 0 <= k < |s|
    ensures MaxFrom(s[k := MaxFrom(s) + 1]) == MaxFrom(s) + 1
  {
    var s' := s[k := MaxFrom(s) + 1];
    assert s'[k] == MaxFrom(s) + 1;
    forall i | 0 <= i < |s'|
      ensures s'[i] <= MaxFrom(s) + 1
    {
    }
  }

  /** The window cells rank `rank` allocates: `size - 1` on the host, none elsewhere. */
  function WindowCells(rank: int, host: int, size: int): (n: int)
    requires size >= 1
    ensures n >= 0 && (n > 0 ==> rank == host)
  {
    if rank == host then size - 1 else 0
  }

  /** The cells the constructor's zeroing loop writes as written: `size - 1`, on every rank. */
  function ZeroingWritesAsWritten(size: int): (n: int)
  {
    if size >= 1 then size - 1 else 0
  }

  /**
   * With two or more ranks, every rank but the host runs the zeroing loop
   * over a window of no cells, writing past its end.
   */
  lemma NonHostZeroingOverruns(rank: int, host: int, size: int)
    requires size >= 2 && rank != host
    ensures ZeroingWritesAsWritten(size) > WindowCells(rank, host, size) == 0
  {
  }

  /** Zeroing a window: every one of its cells, and no more. */
  method ZeroWindow(a: array<int>)
    modifies a
    ensures forall i :: 0 <= i < a.Length ==> a[i] == 0
  {
    var i := 0;
    while i < a.Length
      invariant 0 <= i <= a.Length
      invariant forall j :: 0 <= j < i ==> a[j] == 0
    {
      a[i] := 0;
      i := i + 1;
    }
  }

  class Counter {
    const size: int
    const skipped: int
    const host: int
    /** The host's window: one cell per enqueuer order. */
    const window: array<int>
    /** The calling rank's read buffer of `size - 1` cells. */
    const buffer: array<int>
    /** The calls made so far, by any rank. */
    ghost var calls: nat

    /**
     * The window and buffer have one cell per enqueuer, and the window's
     * maximum is the number of calls made (with no enqueuer there is no
     * cell, and no call).
     */
    ghost predicate Valid()
      reads this, window
    {
      size >= 1 && 0 <= skipped < size && 0 <= host < size &&
      window.Length == size - 1 && buffer.Length == size - 1 && window != buffer &&
      MaxFrom(window[..]) == (if size == 1 then -1 else calls)
    }

    /**
     * The constructor: the host allocates and zeroes its `size - 1` cells,
     * and every rank but the skipped one gets a read buffer of `size - 1`
     * cells.
     */
    constructor (skipped: int, host: int, size: int)
      requires 0 <= skipped < size && 0 <= host < size
      ensures Valid() && calls == 0
      ensures this.skipped == skipped && this.host == host && this.size == size
      ensures fresh(window) && fresh(buffer) && window[..] == seq(size - 1, _ => 0)
    {
      this.size := size;
      this.skipped := skipped;
      this.host := host;
      var w := new int[WindowCells(host, host, size)];
      window := w;
      buffer := new int[size - 1];
      calls := 0;
      new;
      ZeroWindow(w);
      assert window[..] == seq(size - 1, _ => 0);
      if size >= 2 {
        assert window[..][0] == 0;
      }
    }

    /**
     * `get_and_increment` on enqueuer `rank` (never the skipped rank, which
     * has no buffer): read every window cell into the buffer, take their
     * maximum, write one more into the caller's cell and return the maximum.
     * The maximum then grows by exactly one, so the calls return 0, 1, 2, ...
     */
    method GetAndIncrement(rank: int) returns (v: int)
      requires Valid() && Ranks.IsEnqueuer(size, skipped, rank)
      modifies window, buffer, this`calls
      ensures Valid() && calls == old(calls) + 1
      ensures v == MaxFrom(old(window[..])) == old(calls)
      ensures window[..] == old(window[..])[Ranks.EnqueuerOrder(skipped, rank) := v + 1]
      ensures MaxFrom(window[..]) == v + 1
    {
      ReadWindow();
      var maximum := Maximum(buffer);
      maximum := maximum + 1;
      var order := Ranks.EnqueuerOrder(skipped, rank);
      MaxAfterRaise(window[..], order);
      window[order] := maximum;
      v := maximum - 1;
      calls := calls + 1;
    }

    /** The reading loop: every window cell into the buffer, the window unchanged. */
    method ReadWindow()
      requires window.Length == size - 1 && buffer.Length == size - 1 && window != buffer
      modifies buffer
      ensures buffer[..] == window[..]
    {
      var i := 0;
      while i < size - 1
        invariant 0 <= i <= size - 1
        invariant buffer[..i] == window[..i]
      {
        buffer[i] := window[i];
        assert buffer[..i + 1] == buffer[..i] + [buffer[i]];
        assert window[..i + 1] == window[..i] + [window[i]];
        i := i + 1;
      }
      assert buffer[..] == buffer[..size - 1] && window[..] == window[..size - 1];
    }
  }

  /** The maximum loop: the largest cell of the buffer, from -1. */
  method Maximum(buffer: array<int>) returns (maximum: int)
    ensures maximum == MaxFrom(buffer[..])
  {
    maximum := -1;
    var i := 0;
    while i < buffer.Length
      invariant 0 <= i <= buffer.Length
      invariant maximum == MaxFrom(buffer[..i])
    {
      assert buffer[..i + 1][..i] == buffer[..i];
      maximum := if maximum < buffer[i] then buffer[i] else maximum;
      i := i + 1;
    }
    assert buffer[..] == buffer[..buffer.Length];
  }
}
