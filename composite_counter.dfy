/**
 * `Faa2C3Counter`: a counter made of one cell on each of three hosts, the
 * ranks one and two after the dequeuer (the second and third host are the
 * same rank).  `get_and_increment` adds 1 to two of the cells, chosen by the
 * handle's `_cur_c`, and returns the smaller of the two fetched values.
 * `_cur_c` starts at 0 and is never changed, so every call uses the first
 * two hosts.
 */
module CompositeCounter {
  /** The three hosts: `(d + 1) % size`, then `(d + 2) % size` twice. */
  function Hosts(d: int, size: int): (h: (int, int, int))
    requires 0 <= d < size
    ensures 0 <= h.0 < size && 0 <= h.1 < size && h.2 == h.1
    ensures h.0 == h.1 <==> size == 1
  {
    ((d + 1) % size, (d + 2) % size, (d + 2) % size)
  }

  /** The pair of hosts a handle with `_cur_c == c` adds to: the first two, the last two, or the third and the first. */
  function Chosen(h: (int, int, int), c: int): (p: (int, int))
  {
    if c == 0 then (h.0, h.1) else if c == 1 then (h.1, h.2) else (h.2, h.0)
  }

  /**
   * Fetch-and-add 1 on cell `a`, then on cell `b`, and keep the smaller
   * fetched value.  When `a` and `b` are the same cell it gains 2 and the
   * call returns its value before both.
   */
  function FetchTwo(cells: seq<int>, a: int, b: int): (r: (seq<int>, int))
    requires 0 <= a < |cells| && 0 <= b < |cells|
    ensures |r.0| == |cells|
    ensures a != b ==> r.0 == cells[a := cells[a] + 1][b := cells[b] + 1] && r.1 == if cells[a] < cells[b] then cells[a] else cells[b]
    ensures a == b ==> r.0 == cells[a := cells[a] + 2] && r.1 == cells[a]
  {
    var first := cells[a];
    var added := cells[a := first + 1];
    var second := added[b];
    (added[b := second + 1], if first < second then first else second)
  }

  /** How much the hosts' cells grow per call when every handle uses the first two hosts. */
  function Stride(size: int): (s: int)
    ensures s == 1 || s == 2
  {
    if size == 1 then 2 else 1
  }

  /** The moved-to handle's `_cur_c` as written: the move constructor leaves it with whatever was in memory. */
  function MovedCurCAsWritten(source: int, garbage: int): (c: int)
  {
    garbage
  }

  /** The moved-to handle's `_cur_c` the move calls for: the source's. */
  function MovedCurC(source: int): (c: int)
    ensures c == source
  {
    source
  }

  /**
   * With three ranks and the dequeuer 0, a handle on rank 1 with `_cur_c`
   * 0 and a moved-to handle on rank 2 left with `_cur_c` 1: rank 1 draws 0,
   * rank 2 adds 2 to the third host's cell and draws 1, and rank 1 then
   * draws 1 again.  The same timestamp is handed out twice.
   */
  lemma UnsetCurCDuplicates()
    ensures var h := Hosts(0, 3);
            var cur1, cur2 := 0, MovedCurCAsWritten(0, 1);
            var p, q := Chosen(h, cur1), Chosen(h, cur2);
            var r1 := FetchTwo([0, 0, 0], p.0, p.1);
            var r2 := FetchTwo(r1.0, q.0, q.1);
            var r3 := FetchTwo(r2.0, p.0, p.1);
            r1.1 == 0 && r2.1 == 1 && r3.1 == 1
  {
    var h := Hosts(0, 3);
    assert h == (1, 2, 2);
    var r1 := FetchTwo([0, 0, 0], 1, 2);
    assert r1.0 == [0, 0, 0][1 := 1][2 := 1] == [0, 1, 1];
    var r2 := FetchTwo(r1.0, 2, 2);
    assert r2.0 == [0, 1, 1][2 := 3] == [0, 1, 3];
  }

  /**
   * The counter as all ranks see it: the one cell of each rank's window
   * (only the hosts' cells are allocated) and each rank's handle `_cur_c`.
   */
  class Counter {
    const size: int
    const hosts: (int, int, int)
    var cells: seq<int>
    var curC: seq<int>
    /** The calls made so far, by any rank. */
    ghost var calls: nat

    /** The windows and handles of `size` ranks, around hosts chosen as the constructor chooses them. */
    ghost predicate Shape()
      reads this
    {
      0 < size && |cells| == size && |curC| == size &&
      0 <= hosts.0 < size && 0 <= hosts.1 < size && hosts.2 == hosts.1 &&
      (hosts.0 == hosts.1 <==> size == 1)
    }

    /**
     * Every handle uses the first two hosts, and both their cells have grown
     * by `Stride(size)` per call, so they hold the same value.
     */
    ghost predicate Valid()
      reads this
    {
      Shape() &&
      (forall r :: 0 <= r < size ==> curC[r] == 0) &&
      cells[hosts.0] == Stride(size) * calls && cells[hosts.1] == Stride(size) * calls
    }

    /** The constructor: the hosts' cells start at 0 and every handle's `_cur_c` at 0. */
    constructor (dequeuerRank: int, size: int)
      requires 0 <= dequeuerRank < size
      ensures Valid() && this.size == size && hosts == Hosts(dequeuerRank, size) && calls == 0
      ensures cells == seq(size, _ => 0) && curC == seq(size, _ => 0)
    {
      this.size := size;
      hosts := Hosts(dequeuerRank, size);
      cells := seq(size, _ => 0);
      curC := seq(size, _ => 0);
      calls := 0;
    }

    /**
     * `get_and_increment` on rank `rank`: fetch-and-add 1 on the two cells
     * its `_cur_c` chooses and return the smaller fetched value.  `_cur_c`
     * itself is left as it is.  While every handle uses the first two hosts,
     * the calls return `Stride(size)` times the number of earlier calls:
     * 0, 1, 2, ... or, with a single rank, 0, 2, 4, ...
     */
    method GetAndIncrement(rank: int) returns (v: int)
      requires Shape() && 0 <= rank < size
      modifies this`cells, this`calls
      ensures Shape() && calls == old(calls) + 1
      ensures var p := Chosen(hosts, curC[rank]); (cells, v) == FetchTwo(old(cells), p.0, p.1)
      ensures old(Valid()) ==> Valid() && v == Stride(size) * old(calls)
    {
      var c := curC[rank];
      var a, b;
      if c == 0 {
        a, b := hosts.0, hosts.1;
      } else if c == 1 {
        a, b := hosts.1, hosts.2;
      } else {
        a, b := hosts.2, hosts.0;
      }
      var first := cells[a];
      cells := cells[a := first + 1];
      var second := cells[b];
      cells := cells[b := second + 1];
      v := if first < second then first else second;
      calls := calls + 1;
    }

    /**
     * Replacing rank `rank`'s handle by one move-constructed from it: the
     * window and hosts move over, and `_cur_c` is copied, so the counter
     * stays valid.
     */
    method MoveHandle(rank: int)
      requires Shape() && 0 <= rank < size
      modifies this`curC
      ensures Shape() && curC == old(curC)[rank := MovedCurC(old(curC[rank]))]
      ensures old(Valid()) ==> Valid()
    {
      curC := curC[rank := MovedCurC(curC[rank])];
    }
  }
}
