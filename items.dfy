/**
 * What every MPSC queue stores in its per-enqueuer SPSCs: the payload and
 * the timestamp drawn for it.
 */
module Items {
  /** `data_t`: the payload and the timestamp it was enqueued with. */
  datatype Item<T> = Item(data: T, timestamp: int)

  /** The timestamp an SPSC's `read_front` reports, or `none` (the queue's `MAX_TIMESTAMP`) when it fails. */
  ghost function FrontTs<T>(q: seq<Item<T>>, none: int): int
  {
    if q == [] then none else q[0].timestamp
  }

  /** A batch with every value paired, in order, with the one timestamp `ts`. */
  ghost function Stamp<T>(xs: seq<T>, ts: int): (items: seq<Item<T>>)
    ensures |items| == |xs|
    ensures forall k :: 0 <= k < |xs| ==> items[k] == Item(xs[k], ts)
  {
    if xs == [] then [] else [Item(xs[0], ts)] + Stamp(xs[1..], ts)
  }

  /** The loop building `timestamped_data`: every value of a batch paired with the one timestamp the batch shares. */
  method Stamped<T>(xs: seq<T>, ts: int) returns (items: seq<Item<T>>)
    ensures |items| == |xs|
    ensures forall k :: 0 <= k < |xs| ==> items[k] == Item(xs[k], ts)
    ensures items == Stamp(xs, ts)
  {
    items := [];
    var k := 0;
    while k < |xs|
      invariant 0 <= k <= |xs| && |items| == k
      invariant forall j :: 0 <= j < k ==> items[j] == Item(xs[j], ts)
    {
      items := items + [Item(xs[k], ts)];
      k := k + 1;
    }
  }
}
