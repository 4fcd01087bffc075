/**
 * `SQueue`: `capacity` slots on the dequeuer, each with a data entry and a
 * timestamp (`-1` when free), a `slot_count` budget of free slots and a
 * ticket `counter`.  An enqueuer first takes one unit of the budget, then
 * draws tickets until one lands on a free slot, claims that slot by
 * compare-and-swap of its timestamp from `-1` to the ticket, and writes its
 * entry there.
 */
module SQueue {
  import Ring

  /** `data_t`: the payload and whether the slot has been filled. */
  datatype Entry<T> = Entry(data: T, marked: bool)

  /** The timestamp of a free slot. */
  const Free: int := -1

  /** The budget check as written: a fetched `slot_count` is refused only when negative. */
  function SlotGrantedAsWritten(fetched: int): (b: bool)
  {
    !(fetched < 0)
  }

  /**
   * With the check as written, the fetched count 0, which an enqueuer sees
   * once `capacity` slots are taken, is granted: the `capacity + 1`-th
   * enqueue enters the claim loop with no free slot and never leaves it.
   * With `capacity == 0` the first enqueue gets that far and takes a ticket
   * modulo zero.
   */
  lemma ExhaustedBudgetGranted(capacity: nat)
    ensures var fetched := capacity - capacity;
            SlotGrantedAsWritten(fetched) && !SlotGranted(fetched)
  {
  }

  /** The check the budget calls for: a unit is taken exactly while one is left. */
  function SlotGranted(fetched: int): (b: bool)
    ensures b <==> fetched >= 1
    ensures b ==> SlotGrantedAsWritten(fetched)
  {
    fetched > 0
  }

  /** The slots whose timestamp says they are free. */
  ghost function FreeSlots(timestamps: seq<int>): (s: set<int>)
    ensures forall i :: i in s <==> 0 <= i < |timestamps| && timestamps[i] == Free
  {
    set i | 0 <= i < |timestamps| && timestamps[i] == Free
  }

  /** A set inside another is no larger. */
  lemma SubsetCount(a: set<int>, b: set<int>)
    requires a <= b
    ensures |a| <= |b|
  {
    assert b == a + (b - a) && a * (b - a) == {};
  }

  /**
   * A ticket of the claim loop whose slot is taken: that slot is new among
   * the `skipped` ones (the slots of the earlier tickets since `start`), and
   * with it the skipped slots still leave at least one free slot aside, so
   * fewer than `cap` tickets have been drawn.
   */
  lemma Skip(start: int, skipped: set<int>, ticket: int, cap: int, free: set<int>)
    requires cap > 0 && 0 <= start <= ticket && ticket - start < cap
    requires |skipped| == ticket - start
    requires forall s :: s in skipped ==> 0 <= s < cap && s !in free && Ring.Offset(start, s, cap) < ticket - start
    requires ticket % cap !in free && |free| >= 1 && free <= Ring.Slots(cap)
    ensures |skipped + {ticket % cap}| == ticket + 1 - start < cap
    ensures Ring.Offset(start, ticket % cap, cap) == ticket - start
  {
    var slot := ticket % cap;
    assert start + (ticket - start) == ticket;
    Ring.OffsetOfTicket(start, ticket - start, slot, cap);
    assert slot !in skipped;
    var all := skipped + {slot};
    assert |all| == ticket + 1 - start;
    SubsetCount(all + free, Ring.Slots(cap));
    assert all !! free;
  }

  /** Ticket `t` lands on a slot that is taken. */
  ghost predicate LandsTaken(timestamps: seq<int>, cap: int, t: int)
  {
    cap > 0 && |timestamps| == cap && timestamps[t % cap] != Free
  }

  /**
   * Inside the ticket loop, before ticket `next` is drawn: some slot is free,
   * and the `skipped` slots are those of the tickets `start .. next - 1`,
   * all taken.
   */
  ghost predicate Scanning(timestamps: seq<int>, cap: int, start: int, skipped: set<int>, next: int)
  {
    |timestamps| == cap && 0 <= start <= next && next - start < cap &&
    |FreeSlots(timestamps)| >= 1 && FreeSlots(timestamps) <= Ring.Slots(cap) &&
    |skipped| == next - start &&
    forall s :: s in skipped ==> 0 <= s < cap && timestamps[s] != Free && Ring.Offset(start, s, cap) < next - start
  }

  class Queue<T> {
    const capacity: int

    /** The dequeuer's windows. */
    var counter: int
    var slotCount: int
    var entries: seq<Entry<T>>
    var timestamps: seq<int>

    /**
     * Between calls: the budget counts exactly the free slots; a taken slot
     * holds a marked entry and the ticket that claimed it, which was drawn
     * already and lands on that slot; a free slot holds an unmarked entry.
     */
    ghost predicate Valid()
      reads this
    {
      |entries| == capacity && |timestamps| == capacity && counter >= 0 &&
      0 <= slotCount == |FreeSlots(timestamps)| && SlotsOk(counter)
    }

    /** Every taken slot holds a marked entry and a ticket below `bound` that lands on it; every free slot an unmarked entry. */
    ghost predicate SlotsOk(bound: int)
      reads this
      requires |entries| == capacity && |timestamps| == capacity
    {
      forall i :: 0 <= i < capacity ==>
        (timestamps[i] == Free <==> !entries[i].marked) &&
        (timestamps[i] != Free ==> 0 <= timestamps[i] < bound && timestamps[i] % capacity == i)
    }

    /**
     * The dequeuer's constructor: `counter` 0, `slot_count` `capacity`, every
     * timestamp `-1` and every entry unmarked; the payloads hold whatever the
     * allocation left.
     */
    constructor (capacity: nat, garbage: T)
      ensures Valid() && this.capacity == capacity
      ensures counter == 0 && slotCount == capacity
      ensures timestamps == seq(capacity, _ => Free) && entries == seq(capacity, _ => Entry(garbage, false))
    {
      this.capacity := capacity;
      counter := 0;
      slotCount := capacity;
      timestamps := seq(capacity, _ => Free);
      entries := seq(capacity, _ => Entry(garbage, false));
      new;
      assert FreeSlots(timestamps) == Ring.Slots(capacity);
    }

    /**
     * `enqueue`: take one unit of the budget, giving it back and refusing
     * when none is left.  Otherwise draw tickets, skipping those whose slot
     * is taken, until one lands on a free slot (the budget guarantees there
     * is one, so the loop ends within `capacity` tickets), claim that slot
     * with the ticket and write the marked entry there.
     */
    method Enqueue(x: T) returns (ok: bool)
      requires Valid()
      modifies this`counter, this`slotCount, this`entries, this`timestamps
      ensures Valid()
      ensures ok <==> old(slotCount) > 0
      ensures !ok ==> counter == old(counter) && slotCount == old(slotCount) &&
                      entries == old(entries) && timestamps == old(timestamps)
      ensures ok ==> slotCount == old(slotCount) - 1 && old(counter) < counter <= old(counter) + capacity
      ensures ok ==> exists s :: 0 <= s < capacity && old(timestamps)[s] == Free && s == (counter - 1) % capacity &&
                       timestamps == old(timestamps)[s := counter - 1] &&
                       entries == old(entries)[s := Entry(x, true)]
      ensures ok ==> forall t :: old(counter) <= t < counter - 1 ==> LandsTaken(old(timestamps), capacity, t)
    {
      var fetched := slotCount;
      slotCount := slotCount - 1;
      if !SlotGranted(fetched) {
        slotCount := slotCount + 1;
        return false;
      }
      ghost var start := counter;
      var ticket, slot := DrawTicket();
      Fill(slot, ticket, x, start);
      ok := true;
    }

    /**
     * The ticket loop of `enqueue`, entered with one unit of the budget taken:
     * draw tickets, skipping those whose slot is taken, until one lands on a
     * free slot.  The taken unit guarantees a free slot, so the loop ends
     * within `capacity` tickets.
     */
    method DrawTicket() returns (ticket: int, slot: int)
      requires |timestamps| == capacity && 0 <= counter && |FreeSlots(timestamps)| >= 1
      modifies this`counter
      ensures old(counter) <= ticket < old(counter) + capacity && counter == ticket + 1
      ensures 0 <= slot < capacity && slot == ticket % capacity && timestamps[slot] == Free
      ensures forall t :: old(counter) <= t < ticket ==> LandsTaken(timestamps, capacity, t)
    {
      ghost var start := counter;
      ghost var skipped: set<int> := {};
      SubsetCount(FreeSlots(timestamps), Ring.Slots(capacity));
      while true
        invariant Scanning(timestamps, capacity, start, skipped, counter)
        invariant forall t :: start <= t < counter ==> LandsTaken(timestamps, capacity, t)
        decreases capacity - (counter - start)
      {
        ticket := counter;
        counter := counter + 1;
        slot := ticket % capacity;
        var seen := timestamps[slot];
        if seen != Free {
          Skip(start, skipped, ticket, capacity, FreeSlots(timestamps));
          skipped := skipped + {slot};
          continue;
        }
        return;
      }
    }

    /**
     * Claiming free slot `slot` with ticket `ticket`: the compare-and-swap of
     * its timestamp from `-1` succeeds on the first attempt when the calls do
     * not overlap; then the marked entry is written.
     */
    method Fill(slot: int, ticket: int, x: T, ghost bound: int)
      requires |entries| == capacity && |timestamps| == capacity && 0 <= bound <= ticket && SlotsOk(bound)
      requires 0 <= slot < capacity && ticket % capacity == slot && timestamps[slot] == Free
      modifies this`entries, this`timestamps
      ensures |entries| == capacity && |timestamps| == capacity && SlotsOk(ticket + 1)
      ensures timestamps == old(timestamps)[slot := ticket] && entries == old(entries)[slot := Entry(x, true)]
      ensures FreeSlots(timestamps) == FreeSlots(old(timestamps)) - {slot}
    {
      var seen := timestamps[slot];
      if seen == Free {
        timestamps := timestamps[slot := ticket];
      }
      if seen != Free {
        assert false;
      }
      entries := entries[slot := Entry(x, true)];
    }
  }
}
