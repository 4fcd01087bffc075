/**
 * Every MPSC queue numbers its enqueuers `0 .. size - 2` by skipping the
 * dequeuer's rank: an enqueuer's order is its rank, less one when it lies
 * above the dequeuer's.
 */
module Ranks {
  /** A rank of the communicator other than the dequeuer's. */
  predicate IsEnqueuer(size: int, dequeuer: int, rank: int)
  {
    0 <= rank < size && rank != dequeuer
  }

  /** `_get_enqueuer_order(rank)`, and the enqueuers' `_enqueuer_order`. */
  function EnqueuerOrder(dequeuer: int, rank: int): (o: int)
    ensures forall size :: 0 <= dequeuer < size && IsEnqueuer(size, dequeuer, rank) ==> 0 <= o < size - 1
  {
    if rank > dequeuer then rank - 1 else rank
  }

  /** The rank of the enqueuer with a given order: `order >= self ? order + 1 : order`. */
  function OrderRank(dequeuer: int, order: int): (r: int)
    ensures r != dequeuer && EnqueuerOrder(dequeuer, r) == order
    ensures forall size :: 0 <= dequeuer < size && 0 <= order < size - 1 ==> IsEnqueuer(size, dequeuer, r)
  {
    if order >= dequeuer then order + 1 else order
  }

  /** Mapping a rank other than the dequeuer's to its order and back is the identity. */
  lemma OrderRankRoundTrip(dequeuer: int, rank: int)
    requires rank != dequeuer
    ensures OrderRank(dequeuer, EnqueuerOrder(dequeuer, rank)) == rank
  {
  }
}
