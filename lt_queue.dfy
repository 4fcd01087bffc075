/**
 * The LTQueue: one bounded SPSC per enqueuer, each enqueuer's published
 * minimum timestamp, a global timestamp counter on the dequeuer and the tree
 * of `LtTree` on the dequeuer.  An enqueue draws a timestamp, appends to its
 * SPSC, republishes its minimum timestamp and propagates it up the tree; a
 * dequeue takes the enqueuer named at the root, pops its SPSC and propagates
 * that enqueuer's new minimum.  `LTEnqueuer` and `LTDequeuer` run the same
 * refresh code on the same windows, so they are one class here, and each
 * SPSC is represented by its contents (as `LtSpsc.Channel.Contents` states
 * them).
 */
module LtQueue {
  import opened Wrappers
  import Ranks
  import opened LtTree
  import opened Items

  class Queue<T> {
    /** The number of enqueuers (communicator size less one), the dequeuer's rank and the SPSC capacity. */
    const n: nat
    const dequeuer: int
    const capacity: nat

    /** The dequeuer's `_counter_ptr`, a 32-bit cell as every timestamp drawn from it. */
    var counter: int
    /** `_min_timestamp_ptr` of every rank (the dequeuer's entry is never read). */
    var minTs: seq<Stamp>
    /** The dequeuer's `_tree_ptr`. */
    var tree: seq<TreeNode>
    /** The contents of every enqueuer's SPSC. */
    var spscs: seq<seq<Item<T>>>

    ghost predicate Shape()
      reads this
    {
      LtTree.Shape(n, dequeuer, tree, minTs) && |spscs| == n + 1 && 0 <= counter < Word &&
      forall r, k :: 0 <= r < |spscs| && 0 <= k < |spscs[r]| ==> 0 <= spscs[r][k].timestamp < Word
    }

    /**
     * Between calls every enqueuer publishes the timestamp of its front item,
     * every tree node is right, and no SPSC holds more than `capacity` items.
     */
    ghost predicate Valid()
      reads this
    {
      Shape() && AllOk(n, dequeuer, tree, minTs) &&
      forall r :: Ranks.IsEnqueuer(n + 1, dequeuer, r) ==>
        minTs[r].timestamp == FrontTs(spscs[r], MaxTimestamp) && |spscs[r]| <= capacity
    }

    /**
     * The constructors together: the counter is 0, every tree node is
     * `{DUMMY_RANK, 0}` and every enqueuer publishes `{MAX_TIMESTAMP, 0}`.
     * The root is read unconditionally, so there is at least one enqueuer.
     */
    constructor (n: nat, dequeuer: int, capacity: nat)
      requires n >= 1 && 0 <= dequeuer <= n
      ensures Valid() && this.n == n && this.dequeuer == dequeuer && this.capacity == capacity
      ensures counter == 0 && tree == seq(TreeSize(n), _ => TreeNode(DummyRank, 0))
      ensures minTs == seq(n + 1, _ => Stamp(MaxTimestamp, 0))
      ensures forall r :: 0 <= r < |spscs| ==> spscs[r] == []
    {
      this.n, this.dequeuer, this.capacity := n, dequeuer, capacity;
      counter := 0;
      tree := seq(TreeSize(n), _ => TreeNode(DummyRank, 0));
      minTs := seq(n + 1, _ => Stamp(MaxTimestamp, 0));
      spscs := seq(n + 1, _ => []);
      new;
      forall k | 0 <= k < TreeSize(n)
        ensures NodeOk(n, dequeuer, tree, minTs, k)
      {
        if k < n {
          var b := Pick(n, dequeuer, tree, minTs, Children(k, n));
        }
      }
    }

    /** `compare_and_swap_sync` on a tree node: store only on equality, return the prior value. */
    method CasNode(i: int, expected: TreeNode, desired: TreeNode) returns (prior: TreeNode)
      requires Shape() && 0 <= i < |tree|
      requires desired.rank == DummyRank || Ranks.IsEnqueuer(n + 1, dequeuer, desired.rank)
      modifies this`tree
      ensures Shape() && prior == old(tree[i])
      ensures tree == if prior == expected then old(tree)[i := desired] else old(tree)
    {
      prior := tree[i];
      if prior == expected {
        tree := tree[i := desired];
      }
    }

    /** `compare_and_swap_sync` on a published timestamp. */
    method CasStamp(r: int, expected: Stamp, desired: Stamp) returns (prior: Stamp)
      requires Shape() && 0 <= r < |minTs| && 0 <= desired.timestamp <= MaxTimestamp
      modifies this`minTs
      ensures Shape() && prior == old(minTs[r])
      ensures minTs == if prior == expected then old(minTs)[r := desired] else old(minTs)
    {
      prior := minTs[r];
      if prior == expected {
        minTs := minTs[r := desired];
      }
    }

    /** `read_front` of enqueuer `r`'s SPSC, on either side: the front timestamp if there is one. */
    method ReadFront(r: int) returns (ts: Option<int>)
      requires Shape() && 0 <= r < |spscs|
      ensures ts.Some? <==> spscs[r] != []
      ensures ts.Some? ==> ts.value == spscs[r][0].timestamp
    {
      if spscs[r] == [] {
        return None;
      }
      ts := Some(spscs[r][0].timestamp);
    }

    /**
     * `_refresh_timestamp`: republish enqueuer `r`'s front timestamp, or
     * `MAX_TIMESTAMP` when its SPSC is empty, with the tag stepped; the CAS
     * sees the value it just read, so it succeeds.
     */
    method RefreshTimestamp(r: int) returns (ok: bool)
      requires Shape() && Ranks.IsEnqueuer(n + 1, dequeuer, r)
      modifies this`minTs
      ensures Shape() && ok
      ensures minTs == old(minTs)[r := Stamp(FrontTs(spscs[r], MaxTimestamp), (old(minTs[r]).tag + 1) % Word)]
    {
      var front := ReadFront(r);
      var current := minTs[r];
      var desired := if front.None? then Stamp(MaxTimestamp, (current.tag + 1) % Word)
                     else Stamp(front.value, (current.tag + 1) % Word);
      var result := CasStamp(r, current, desired);
      ok := result.tag == current.tag && result.timestamp == current.timestamp;
    }

    /**
     * `_refresh_self_node`: the leaf of `r` names `r`, or `DUMMY_RANK` when
     * `r` publishes `MAX_TIMESTAMP`, with the tag stepped.
     */
    method RefreshSelfNode(r: int) returns (ok: bool)
      requires Shape() && Ranks.IsEnqueuer(n + 1, dequeuer, r)
      modifies this`tree
      ensures Shape() && ok
      ensures tree == SelfRefreshed(n, dequeuer, old(tree), minTs, r)
    {
      var selfIndex := LeafIndex(n, dequeuer, r);
      var stamp := minTs[r];
      var selfNode := tree[selfIndex];
      var desired := if stamp.timestamp == MaxTimestamp then TreeNode(DummyRank, (selfNode.tag + 1) % Word)
                     else TreeNode(r, (selfNode.tag + 1) % Word);
      var result := CasNode(selfIndex, selfNode, desired);
      ok := result.tag == selfNode.tag && result.rank == selfNode.rank;
    }

    /**
     * `_refresh`: node `i` gets the first of its children's enqueuers with
     * the strictly smallest timestamp, or `DUMMY_RANK`, with the tag stepped.
     */
    method Refresh(i: nat) returns (ok: bool)
      requires Shape() && i < |tree|
      modifies this`tree
      ensures Shape() && ok
      ensures tree == Refreshed(n, dequeuer, old(tree), minTs, i)
    {
      var current := tree[i];
      var minTimestamp, minRank := MaxTimestamp, DummyRank;
      var cs := Children(i, n);
      var k := 0;
      while k < |cs|
        invariant 0 <= k <= |cs|
        invariant Best(minTimestamp, minRank) == Pick(n, dequeuer, tree, minTs, cs[..k])
      {
        assert cs[..k + 1][..k] == cs[..k];
        var child := tree[cs[k]];
        if child.rank != DummyRank {
          var childStamp := minTs[child.rank];
          if childStamp.timestamp < minTimestamp {
            minTimestamp, minRank := childStamp.timestamp, child.rank;
          }
        }
        k := k + 1;
      }
      assert cs[..k] == cs;
      var result := CasNode(i, current, TreeNode(minRank, (current.tag + 1) % Word));
      ok := result.tag == current.tag && result.rank == current.rank;
    }

    /**
     * `_propagate` for enqueuer `r`: refresh its leaf, then every ancestor
     * up to the root.  Given that only the path from `r`'s leaf to the root
     * may be wrong, the whole tree is right afterwards, and no node off that
     * path changes.  Each refresh is retried once on a failed CAS, which one
     * call at a time never happens.
     */
    method Propagate(r: int)
      requires Shape() && Ranks.IsEnqueuer(n + 1, dequeuer, r)
      requires forall k :: 0 <= k < TreeSize(n) && !Below(k, LeafIndex(n, dequeuer, r)) ==> NodeOk(n, dequeuer, tree, minTs, k)
      modifies this`tree
      ensures Shape() && AllOk(n, dequeuer, tree, minTs)
      ensures forall k :: 0 <= k < TreeSize(n) && !Below(k, LeafIndex(n, dequeuer, r)) ==> tree[k] == old(tree)[k]
    {
      var leaf := LeafIndex(n, dequeuer, r);
      ghost var before := tree;
      SelfNodeStep(n, dequeuer, tree, minTs, r);
      var ok := RefreshSelfNode(r);
      if !ok {
        assert false;
      }
      var current: nat := leaf;
      assert Below(current, leaf);
      while true
        invariant Shape() && 0 < current < TreeSize(n) && Below(current, leaf)
        invariant OkExceptAbove(n, dequeuer, tree, minTs, current)
        invariant forall k :: 0 <= k < TreeSize(n) && !Below(k, leaf) ==> tree[k] == before[k]
        decreases current
      {
        current := Climb(current, leaf);
        if current == 0 {
          break;
        }
      }
    }

    /** One round of `_propagate`'s loop: step to the parent and refresh it. */
    method Climb(current: nat, ghost leaf: nat) returns (parent: nat)
      requires Shape() && 0 < current < TreeSize(n) && Below(current, leaf)
      requires OkExceptAbove(n, dequeuer, tree, minTs, current)
      modifies this`tree
      ensures Shape() && parent == Parent(current) && Below(parent, leaf)
      ensures OkExceptAbove(n, dequeuer, tree, minTs, parent)
      ensures forall k :: 0 <= k < TreeSize(n) && !Below(k, leaf) ==> tree[k] == old(tree)[k]
    {
      parent := Parent(current);
      RefreshStep(n, dequeuer, tree, minTs, current);
      BelowStep(current, leaf);
      var ok := Refresh(parent);
      if !ok {
        assert false;
      }
    }

    /** `fetch_and_add_sync` of 1 on the 32-bit counter: the old value, then the cell wraps on. */
    method DrawTimestamp() returns (ts: int)
      requires Shape()
      modifies this`counter
      ensures Shape() && ts == old(counter) && counter == (old(counter) + 1) % Word
    {
      ts := counter;
      counter := (counter + 1) % Word;
    }

    /** After `r`'s SPSC changed, republish its timestamp and propagate it to the root. */
    method Republish(r: int)
      requires Shape() && Ranks.IsEnqueuer(n + 1, dequeuer, r) && |spscs[r]| <= capacity
      requires AllOk(n, dequeuer, tree, minTs)
      requires forall q :: Ranks.IsEnqueuer(n + 1, dequeuer, q) && q != r ==>
                 minTs[q].timestamp == FrontTs(spscs[q], MaxTimestamp) && |spscs[q]| <= capacity
      modifies this`minTs, this`tree
      ensures Valid()
    {
      ghost var ts0, tree0 := minTs, tree;
      var ok := RefreshTimestamp(r);
      if !ok {
        assert false;
      }
      forall k | 0 <= k < TreeSize(n) && !Below(k, LeafIndex(n, dequeuer, r))
        ensures NodeOk(n, dequeuer, tree, minTs, k)
      {
        StampFrame(n, dequeuer, tree0, ts0, r, minTs[r], k);
      }
      Propagate(r);
    }

    /**
     * `LTEnqueuer::enqueue` of one item by enqueuer `r`: a timestamp is
     * always drawn; the item is refused exactly when `r`'s SPSC is full, and
     * otherwise appended with that timestamp and propagated.
     */
    method Enqueue(r: int, x: T) returns (ok: bool)
      requires Valid() && Ranks.IsEnqueuer(n + 1, dequeuer, r)
      modifies this
      ensures Valid()
      ensures counter == (old(counter) + 1) % Word
      ensures ok <==> |old(spscs[r])| < capacity
      ensures spscs == if ok then old(spscs)[r := old(spscs[r]) + [Item(x, old(counter))]] else old(spscs)
      ensures !ok ==> tree == old(tree) && minTs == old(minTs)
    {
      var ts := DrawTimestamp();
      if |spscs[r]| + 1 > capacity {
        return false;
      }
      spscs := spscs[r := spscs[r] + [Item(x, ts)]];
      Republish(r);
      ok := true;
    }

    /**
     * `LTEnqueuer::enqueue` of a batch: an empty batch succeeds without a
     * timestamp; otherwise one timestamp is drawn for the whole batch, which
     * is refused exactly when it does not fit in `r`'s SPSC.
     */
    method EnqueueBatch(r: int, xs: seq<T>) returns (ok: bool)
      requires Valid() && Ranks.IsEnqueuer(n + 1, dequeuer, r)
      modifies this
      ensures Valid()
      ensures counter == if xs == [] then old(counter) else (old(counter) + 1) % Word
      ensures ok <==> |old(spscs[r])| + |xs| <= capacity
      ensures |spscs| == |old(spscs)| && forall q :: 0 <= q < |spscs| && q != r ==> spscs[q] == old(spscs[q])
      ensures spscs[r] == if ok then old(spscs[r]) + Items.Stamp(xs, old(counter)) else old(spscs[r])
    {
      if |xs| == 0 {
        assert spscs[r] + [] == spscs[r];
        return true;
      }
      var ts := DrawTimestamp();
      var items := Stamped(xs, ts);
      if |spscs[r]| + |items| > capacity {
        return false;
      }
      spscs := spscs[r := spscs[r] + items];
      Republish(r);
      ok := true;
    }

    /** The dequeuer's `Spsc::dequeue` from enqueuer `r`: the front item if there is one. */
    method SpscDequeue(r: int) returns (out: Option<Item<T>>)
      requires Shape() && 0 <= r < |spscs|
      modifies this`spscs
      ensures Shape()
      ensures out.Some? <==> old(spscs[r]) != []
      ensures out.Some? ==> out.value == old(spscs[r])[0] && spscs == old(spscs)[r := old(spscs[r])[1..]]
      ensures out.None? ==> spscs == old(spscs)
    {
      if spscs[r] == [] {
        return None;
      }
      out := Some(spscs[r][0]);
      spscs := spscs[r := spscs[r][1..]];
    }

    /**
     * `LTDequeuer::dequeue`: nothing exactly when every enqueuer publishes
     * `MAX_TIMESTAMP`; otherwise the front item of an enqueuer whose front
     * timestamp is the smallest of all, which is then removed and propagated.
     */
    method Dequeue() returns (res: Option<T>, ghost from: int)
      requires Valid()
      modifies this
      ensures Valid() && counter == old(counter)
      ensures res.None? <==> forall r :: Ranks.IsEnqueuer(n + 1, dequeuer, r) ==> FrontTs(old(spscs[r]), MaxTimestamp) == MaxTimestamp
      ensures res.None? ==> spscs == old(spscs) && tree == old(tree) && minTs == old(minTs)
      ensures res.Some? ==> Ranks.IsEnqueuer(n + 1, dequeuer, from) && old(spscs[from]) != [] &&
                            res.value == old(spscs[from])[0].data &&
                            spscs == old(spscs)[from := old(spscs[from])[1..]]
      ensures res.Some? ==> forall r :: Ranks.IsEnqueuer(n + 1, dequeuer, r) ==>
                              old(spscs[from])[0].timestamp <= FrontTs(old(spscs[r]), MaxTimestamp)
    {
      RootIsMinimum(n, dequeuer, tree, minTs);
      var root := tree[0];
      if root.rank == DummyRank {
        return None, DummyRank;
      }
      from := root.rank;
      var out := SpscDequeue(root.rank);
      if out.None? {
        assert false;
      }
      Republish(root.rank);
      res := Some(out.value.data);
    }
  }
}
