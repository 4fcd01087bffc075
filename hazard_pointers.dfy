/**
 * The hazard pointers `hp` of the Jiffy queue: a window of one reservation
 * per rank on the host, and on each rank a list of retired segments
 * (`_reclaimed_list`) and a list of segments ready for reuse
 * (`_freed_list`).  A scan moves every retired segment that no rank has
 * reserved to the reuse list.
 */
module HazardPointers {
  /** `bclx::gptr`: a rank and an offset in its memory. */
  datatype Ptr = Ptr(rank: int, offset: int)

  /** The null global pointer `{0, 0}`. */
  const Null: Ptr := Ptr(0, 0)

  /** The non-null reservations, in rank order: the `list_temp` of a scan. */
  function NonNull(rs: seq<Ptr>): (l: seq<Ptr>)
    ensures forall p :: p in l <==> p in rs && p != Null
    ensures |l| <= |rs|
  {
    if |rs| == 0 then []
    else NonNull(rs[..|rs| - 1]) + (if rs[|rs| - 1] == Null then [] else [rs[|rs| - 1]])
  }

  /**
   * The retired segments a scan frees: those not among `reserved`, taken
   * from the back of `retired`.
   */
  function Released(retired: seq<Ptr>, reserved: seq<Ptr>): (l: seq<Ptr>)
  {
    if |retired| == 0 then []
    else
      var p := retired[|retired| - 1];
      (if p in reserved then [] else [p]) + Released(retired[..|retired| - 1], reserved)
  }

  /** The retired segments a scan must hold back because some rank has reserved them, taken from the back. */
  function Kept(retired: seq<Ptr>, reserved: seq<Ptr>): (l: seq<Ptr>)
  {
    if |retired| == 0 then []
    else
      var p := retired[|retired| - 1];
      (if p in reserved then [p] else []) + Kept(retired[..|retired| - 1], reserved)
  }

  /** A scan releases only retired segments that are not reserved, and keeps only retired segments that are. */
  lemma {:induction false} ScanSeparates(retired: seq<Ptr>, reserved: seq<Ptr>)
    ensures forall p :: p in Released(retired, reserved) ==> p in retired && p !in reserved
    ensures forall p :: p in Kept(retired, reserved) ==> p in retired && p in reserved
    decreases |retired|
  {
    if |retired| > 0 {
      ScanSeparates(retired[..|retired| - 1], reserved);
    }
  }

  /** A scan splits the retired segments: each goes to exactly one of the freed and the kept ones. */
  lemma {:induction false} ScanSplits(retired: seq<Ptr>, reserved: seq<Ptr>)
    ensures multiset(Released(retired, reserved)) + multiset(Kept(retired, reserved)) == multiset(retired)
    decreases |retired|
  {
    if |retired| > 0 {
      ScanSplits(retired[..|retired| - 1], reserved);
      ScanSplitsStep(retired, reserved);
    }
  }

  /** The step of `ScanSplits`: popping one more segment keeps the split exact. */
  lemma ScanSplitsStep(retired: seq<Ptr>, reserved: seq<Ptr>)
    requires |retired| > 0
    requires var rest := retired[..|retired| - 1];
             multiset(Released(rest, reserved)) + multiset(Kept(rest, reserved)) == multiset(rest)
    ensures multiset(Released(retired, reserved)) + multiset(Kept(retired, reserved)) == multiset(retired)
  {
    var n := |retired| - 1;
    var p, rest := retired[n], retired[..n];
    assert multiset(retired) == multiset(rest) + multiset{p} by {
      assert retired == rest + [p];
    }
    if p in reserved {
      assert multiset(Released(retired, reserved)) == multiset(Released(rest, reserved)) by {
        assert Released(retired, reserved) == Released(rest, reserved);
      }
      assert multiset(Kept(retired, reserved)) == multiset{p} + multiset(Kept(rest, reserved)) by {
        assert Kept(retired, reserved) == [p] + Kept(rest, reserved);
      }
    } else {
      assert multiset(Released(retired, reserved)) == multiset{p} + multiset(Released(rest, reserved)) by {
        assert Released(retired, reserved) == [p] + Released(rest, reserved);
      }
      assert multiset(Kept(retired, reserved)) == multiset(Kept(rest, reserved)) by {
        assert Kept(retired, reserved) == Kept(rest, reserved);
      }
    }
  }

  /** Popping the last retired segment: it goes to the freed or the kept ones, ahead of the rest. */
  lemma ScanStep(retired: seq<Ptr>, reserved: seq<Ptr>)
    requires |retired| > 0
    ensures var p, rest := retired[|retired| - 1], retired[..|retired| - 1];
            Released(retired, reserved) == (if p in reserved then [] else [p]) + Released(rest, reserved) &&
            Kept(retired, reserved) == (if p in reserved then [p] else []) + Kept(rest, reserved)
  {
  }

  /**
   * `_scan` as written: the reserved segments go to a local vector that is
   * dropped at the end, so the retired list ends empty and those segments
   * are neither reused nor retired any more.
   */
  function ScanAsWritten(retired: seq<Ptr>, freed: seq<Ptr>, reservations: seq<Ptr>): (r: (seq<Ptr>, seq<Ptr>))
  {
    ([], freed + Released(retired, NonNull(reservations)))
  }

  /**
   * A segment retired while rank 0 has it reserved disappears from both
   * lists after the scan as written.
   */
  lemma ScanAsWrittenDropsReserved(p: Ptr)
    requires p != Null
    ensures var r := ScanAsWritten([p], [], [p]);
            p !in r.0 && p !in r.1 && multiset(r.0) + multiset(r.1) != multiset([p])
  {
    assert NonNull([p]) == [p] by {
      assert [p][..0] == [];
    }
    assert Released([p], [p]) == [] by {
      assert [p][..0] == [];
    }
  }

  /** The `hp` of one rank, with the host's reservation window. */
  class Hp {
    const nprocs: int
    const host: int
    /** The host's window: one reservation per rank. */
    var reservations: seq<Ptr>
    /** This rank's `_reclaimed_list` and `_freed_list`. */
    var reclaimed: seq<Ptr>
    var freed: seq<Ptr>

    ghost predicate Valid()
      reads this
    {
      |reservations| == nprocs
    }

    /** The constructor: the host's window holds a null reservation for every rank; both lists start empty. */
    constructor (host: int, nprocs: nat)
      ensures Valid() && this.host == host && this.nprocs == nprocs
      ensures reservations == seq(nprocs, _ => Null) && reclaimed == [] && freed == []
    {
      this.host := host;
      this.nprocs := nprocs;
      reservations := seq(nprocs, _ => Null);
      reclaimed := [];
      freed := [];
    }

    /**
     * `malloc`: the segment at the back of the reuse list, popped, or a
     * fresh allocation when the list is empty.
     */
    method Malloc(newSegment: Ptr) returns (r: Ptr)
      modifies this`freed
      ensures old(freed) == [] ==> r == newSegment && freed == []
      ensures old(freed) != [] ==> old(freed) == freed + [r]
    {
      if |freed| > 0 {
        r := freed[|freed| - 1];
        freed := freed[..|freed| - 1];
        return;
      }
      r := newSegment;
    }

    /**
     * `free`: retire `ptr`, and scan once more than twice as many segments
     * as ranks are retired.  No segment is lost, and none that a rank has
     * reserved is made reusable.
     */
    method Free(ptr: Ptr)
      requires Valid()
      modifies this`reclaimed, this`freed
      ensures Valid()
      ensures multiset(reclaimed) + multiset(freed) == multiset(old(reclaimed)) + multiset(old(freed)) + multiset{ptr}
      ensures |old(reclaimed)| + 1 > 2 * nprocs ==> freed == old(freed) + Released(old(reclaimed) + [ptr], NonNull(reservations))
      ensures |old(reclaimed)| + 1 > 2 * nprocs ==> reclaimed == Kept(old(reclaimed) + [ptr], NonNull(reservations))
      ensures |old(reclaimed)| + 1 <= 2 * nprocs ==> reclaimed == old(reclaimed) + [ptr] && freed == old(freed)
      ensures forall p :: p in freed && p !in old(freed) ==> p !in NonNull(reservations)
    {
      reclaimed := reclaimed + [ptr];
      if |reclaimed| > 2 * nprocs {
        Scan();
        ScanSeparates(old(reclaimed) + [ptr], NonNull(reservations));
      }
    }

    /**
     * `_scan`: collect the non-null reservations, then pop the retired list
     * from the back, moving each segment nobody reserved to the reuse list
     * and keeping the others retired.
     */
    method Scan()
      requires Valid()
      modifies this`reclaimed, this`freed
      ensures Valid()
      ensures freed == old(freed) + Released(old(reclaimed), NonNull(reservations))
      ensures reclaimed == Kept(old(reclaimed), NonNull(reservations))
      ensures multiset(reclaimed) + multiset(freed) == multiset(old(reclaimed)) + multiset(old(freed))
    {
      var listTemp := Reserved();
      var keptTemp := Drain(listTemp);
      reclaimed := keptTemp;
      ScanSplits(old(reclaimed), listTemp);
    }

    /**
     * The second loop of `_scan`: pop the retired list from the back until
     * it is empty, pushing each segment not in `listTemp` onto the reuse
     * list and collecting the others.
     */
    method Drain(listTemp: seq<Ptr>) returns (keptTemp: seq<Ptr>)
      modifies this`reclaimed, this`freed
      ensures reclaimed == [] && keptTemp == Kept(old(reclaimed), listTemp)
      ensures freed == old(freed) + Released(old(reclaimed), listTemp)
    {
      keptTemp := [];
      while reclaimed != []
        invariant freed + Released(reclaimed, listTemp) == old(freed) + Released(old(reclaimed), listTemp)
        invariant keptTemp + Kept(reclaimed, listTemp) == Kept(old(reclaimed), listTemp)
        decreases |reclaimed|
      {
        var p := reclaimed[|reclaimed| - 1];
        ScanStep(reclaimed, listTemp);
        reclaimed := reclaimed[..|reclaimed| - 1];
        ghost var released, kept := Released(reclaimed, listTemp), Kept(reclaimed, listTemp);
        if p in listTemp {
          assert keptTemp + ([p] + kept) == (keptTemp + [p]) + kept;
          keptTemp := keptTemp + [p];
        } else {
          assert freed + ([p] + released) == (freed + [p]) + released;
          freed := freed + [p];
        }
      }
    }

    /** The first loop of `_scan`: every reservation in the host's window that is not null, in rank order. */
    method Reserved() returns (l: seq<Ptr>)
      requires Valid()
      ensures l == NonNull(reservations)
    {
      l := [];
      var i := 0;
      while i < nprocs
        invariant 0 <= i <= nprocs && l == NonNull(reservations[..i])
      {
        assert reservations[..i + 1][..i] == reservations[..i];
        var v := reservations[i];
        i := i + 1;
        if v == Null {
          continue;
        }
        l := l + [v];
      }
      assert reservations[..nprocs] == reservations;
    }

    /**
     * `reserve` on rank `rank` of the pointer held in `cell`: read it,
     * publish it as the rank's reservation, and read it again, until both
     * reads agree, which they do at once when the calls do not overlap.
     * From then on a scan does not release it.
     */
    method Reserve(rank: int, cell: Ptr) returns (r: Ptr)
      requires Valid() && 0 <= rank < nprocs
      modifies this`reservations
      ensures Valid() && r == cell && reservations == old(reservations)[rank := cell]
      ensures r != Null ==> r in NonNull(reservations)
    {
      var oldVal := cell;
      reservations := reservations[rank := oldVal];
      var newVal := cell;
      if oldVal != newVal {
        assert false;
      }
      r := oldVal;
      assert reservations[rank] == r;
    }
  }

  /** A segment that some rank has reserved is never among those a scan releases. */
  lemma ReservedNotReleased(p: Ptr, retired: seq<Ptr>, reservations: seq<Ptr>)
    requires p != Null && p in reservations
    ensures p !in Released(retired, NonNull(reservations))
  {
    ScanSeparates(retired, NonNull(reservations));
  }
}
