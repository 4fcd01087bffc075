/**
 * The tree of the LTQueue.  With `n` enqueuers it has `2n` nodes stored
 * heap-style: node `i` has children `2i + 1` and `2i + 2` when they exist,
 * nodes `0 .. n - 1` are inner nodes and nodes `n .. 2n - 1` are the leaves,
 * one per enqueuer in order.  Every node names an enqueuer rank, or
 * `DUMMY_RANK`; each enqueuer publishes the timestamp of its front item, or
 * `MAX_TIMESTAMP` when it has none.  A leaf names its enqueuer when that
 * timestamp is not `MAX_TIMESTAMP`, and an inner node names the first of its
 * children's enqueuers with the strictly smallest timestamp.  This module
 * proves that such a tree has at its root an enqueuer with a globally
 * smallest timestamp, and that refreshing the path from one leaf to the root
 * restores the tree after that leaf's enqueuer changed its timestamp.
 */
module LtTree {
  import Ranks

  /** `DUMMY_RANK = ~((uint32_t)0)` stored in an `int32_t`. */
  const DummyRank: int := -1
  /** `MAX_TIMESTAMP = ~((uint32_t)0)`. */
  const MaxTimestamp: int := 0xFFFF_FFFF
  /** Timestamps and tags are `uint32_t`: arithmetic on them wraps modulo this. */
  const Word: int := 0x1_0000_0000

  /** `tree_node_t`: an enqueuer rank (or `DUMMY_RANK`) and an ABA tag. */
  datatype TreeNode = TreeNode(rank: int, tag: int)
  /** `timestamp_t`: an enqueuer's minimum timestamp and an ABA tag. */
  datatype Stamp = Stamp(timestamp: int, tag: int)
  /** The running minimum of `_refresh`: a timestamp and the rank it came from. */
  datatype Best = Best(timestamp: int, rank: int)

  /** `_get_tree_size`. */
  function TreeSize(n: nat): nat
  {
    2 * n
  }

  /** `_get_parent_index`: the root has none, node `i` hangs below `(i - 1) / 2`. */
  function Parent(i: nat): (p: int)
    ensures i == 0 ==> p == -1
    ensures i > 0 ==> 0 <= p < i && (i == 2 * p + 1 || i == 2 * p + 2)
  {
    if i == 0 then -1 else (i - 1) / 2
  }

  /** `_get_children_indexes`: the left child, then the right one, each only if inside the tree. */
  function Children(i: nat, n: nat): (cs: seq<nat>)
    ensures forall c :: c in cs <==> c < TreeSize(n) && (c == 2 * i + 1 || c == 2 * i + 2)
    ensures forall k :: 0 <= k < |cs| ==> Parent(cs[k]) == i && cs[k] < TreeSize(n)
    ensures |cs| <= 2 && (|cs| == 2 ==> cs[0] < cs[1])
  {
    var left, right := i * 2 + 1, i * 2 + 2;
    if left >= TreeSize(n) then []
    else if right >= TreeSize(n) then [left]
    else [left, right]
  }

  /** `_get_self_index` and `_get_enqueuer_index(rank)`: the leaf of an enqueuer. */
  function LeafIndex(n: nat, dequeuer: int, rank: int): (j: int)
    ensures 0 <= dequeuer <= n && Ranks.IsEnqueuer(n + 1, dequeuer, rank) ==> n <= j < TreeSize(n)
  {
    n + Ranks.EnqueuerOrder(dequeuer, rank)
  }

  /** The enqueuer whose leaf is `j`. */
  function LeafRank(n: nat, dequeuer: int, j: int): (r: int)
    ensures 0 <= dequeuer <= n && n <= j < TreeSize(n) ==>
              Ranks.IsEnqueuer(n + 1, dequeuer, r) && LeafIndex(n, dequeuer, r) == j
  {
    Ranks.OrderRank(dequeuer, j - n)
  }

  /** What `_refresh_self_node` installs for enqueuer `r`. */
  function SelfRank(ts: seq<Stamp>, r: int): int
    requires 0 <= r < |ts|
  {
    if ts[r].timestamp == MaxTimestamp then DummyRank else r
  }

  /** Every node names `DUMMY_RANK` or an enqueuer. */
  ghost predicate RanksIn(n: nat, d: int, tree: seq<TreeNode>)
  {
    forall i :: 0 <= i < |tree| ==> tree[i].rank == DummyRank || Ranks.IsEnqueuer(n + 1, d, tree[i].rank)
  }

  /** Every published timestamp is a `uint32_t`. */
  ghost predicate StampsIn(ts: seq<Stamp>)
  {
    forall r :: 0 <= r < |ts| ==> 0 <= ts[r].timestamp <= MaxTimestamp
  }

  ghost predicate Shape(n: nat, d: int, tree: seq<TreeNode>, ts: seq<Stamp>)
  {
    n >= 1 && 0 <= d <= n && |tree| == TreeSize(n) && |ts| == n + 1 &&
    RanksIn(n, d, tree) && StampsIn(ts)
  }

  /**
   * The running minimum of `_refresh` after visiting the children `cs`: it
   * starts at `MAX_TIMESTAMP` and `DUMMY_RANK`, skips dummy children, and
   * switches only on a strictly smaller timestamp, so the first child with
   * the smallest timestamp wins.
   */
  ghost function Pick(n: nat, d: int, tree: seq<TreeNode>, ts: seq<Stamp>, cs: seq<nat>): (b: Best)
    requires Shape(n, d, tree, ts) && forall k :: 0 <= k < |cs| ==> cs[k] < |tree|
    ensures 0 <= b.timestamp <= MaxTimestamp
    ensures b.rank == DummyRank <==> b.timestamp == MaxTimestamp
    ensures b.rank != DummyRank ==> Ranks.IsEnqueuer(n + 1, d, b.rank) && b.timestamp == ts[b.rank].timestamp
    ensures b.rank != DummyRank ==>
              exists k :: 0 <= k < |cs| && tree[cs[k]].rank == b.rank &&
                forall k' :: 0 <= k' < k && tree[cs[k']].rank != DummyRank ==> ts[tree[cs[k']].rank].timestamp > b.timestamp
    ensures forall k :: 0 <= k < |cs| && tree[cs[k]].rank != DummyRank ==> b.timestamp <= ts[tree[cs[k]].rank].timestamp
    decreases |cs|
  {
    if cs == [] then Best(MaxTimestamp, DummyRank)
    else
      var b := Pick(n, d, tree, ts, cs[..|cs| - 1]);
      var node := tree[cs[|cs| - 1]];
      assert forall k :: 0 <= k < |cs| - 1 ==> cs[..|cs| - 1][k] == cs[k];
      if node.rank == DummyRank then b
      else if ts[node.rank].timestamp < b.timestamp then
        var last := |cs| - 1;
        assert tree[cs[last]].rank == node.rank &&
               forall k' :: 0 <= k' < last && tree[cs[k']].rank != DummyRank ==> ts[tree[cs[k']].rank].timestamp > ts[node.rank].timestamp;
        Best(ts[node.rank].timestamp, node.rank)
      else b
  }

  /** Node `i` holds what a refresh would install there. */
  ghost predicate NodeOk(n: nat, d: int, tree: seq<TreeNode>, ts: seq<Stamp>, i: nat)
    requires Shape(n, d, tree, ts) && i < TreeSize(n)
  {
    if i < n then tree[i].rank == Pick(n, d, tree, ts, Children(i, n)).rank
    else tree[i].rank == SelfRank(ts, LeafRank(n, d, i))
  }

  ghost predicate AllOk(n: nat, d: int, tree: seq<TreeNode>, ts: seq<Stamp>)
    requires Shape(n, d, tree, ts)
  {
    forall k :: 0 <= k < TreeSize(n) ==> NodeOk(n, d, tree, ts, k)
  }

  /** One step towards the root. */
  function Up(j: nat): nat
    requires j > 0
  {
    (j - 1) / 2
  }

  /** `i` is `j` itself or one of its ancestors. */
  ghost predicate Below(i: nat, j: nat)
    decreases j
  {
    j == i || (j > 0 && Below(i, Up(j)))
  }

  /**
   * Every node is right except possibly the proper ancestors of `cur`: the
   * state of `_propagate` just after it refreshed `cur`.
   */
  ghost predicate OkExceptAbove(n: nat, d: int, tree: seq<TreeNode>, ts: seq<Stamp>, cur: nat)
    requires Shape(n, d, tree, ts)
  {
    forall k :: 0 <= k < TreeSize(n) && !(cur > 0 && Below(k, Up(cur))) ==> NodeOk(n, d, tree, ts, k)
  }

  /** The timestamp a node stands for: its enqueuer's, or `MAX_TIMESTAMP` for a dummy. */
  ghost function Val(tree: seq<TreeNode>, ts: seq<Stamp>, i: nat): int
    requires i < |tree| && (tree[i].rank == DummyRank || 0 <= tree[i].rank < |ts|)
  {
    if tree[i].rank == DummyRank then MaxTimestamp else ts[tree[i].rank].timestamp
  }

  lemma {:induction false} BelowOrder(i: nat, j: nat)
    requires Below(i, j)
    ensures i <= j
    decreases j
  {
    if j != i {
      BelowOrder(i, Up(j));
    }
  }

  /** Every node lies below the root. */
  lemma {:induction false} BelowRoot(j: nat)
    ensures Below(0, j)
    decreases j
  {
    if j > 0 {
      BelowRoot(Up(j));
    }
  }

  /** Being below a node means being below its parent too. */
  lemma {:induction false} BelowStep(c: nat, x: nat)
    requires c > 0 && Below(c, x)
    ensures Below(Up(c), x)
    decreases x
  {
    if x != c {
      BelowStep(c, Up(x));
    }
  }

  /** A node strictly below `i` is below one of `i`'s children. */
  lemma {:induction false} BelowChild(n: nat, i: nat, j: nat) returns (c: nat)
    requires Below(i, j) && i != j && j < TreeSize(n)
    ensures c in Children(i, n) && Below(c, j)
    decreases j
  {
    if Up(j) == i {
      c := j;
    } else {
      c := BelowChild(n, i, Up(j));
    }
  }

  /** Nothing but a leaf itself is below a leaf. */
  lemma LeafAlone(n: nat, i: nat, j: nat)
    requires n <= i && Below(i, j) && j < TreeSize(n)
    ensures j == i
  {
    if j != i {
      var c := BelowChild(n, i, j);
    }
  }

  /**
   * In a tree whose nodes are all right, a node's timestamp is at most that of
   * every leaf below it, and a node that names an enqueuer names one whose
   * leaf lies below it and whose timestamp is not `MAX_TIMESTAMP`.
   */
  lemma {:induction false} SubtreeMin(n: nat, d: int, tree: seq<TreeNode>, ts: seq<Stamp>, i: nat)
    requires Shape(n, d, tree, ts) && AllOk(n, d, tree, ts) && i < TreeSize(n)
    ensures forall j :: n <= j < TreeSize(n) && Below(i, j) ==> Val(tree, ts, i) <= ts[LeafRank(n, d, j)].timestamp
    ensures tree[i].rank != DummyRank ==> Val(tree, ts, i) < MaxTimestamp && Below(i, LeafIndex(n, d, tree[i].rank))
    decreases TreeSize(n) - i
  {
    assert NodeOk(n, d, tree, ts, i);
    if i >= n {
      forall j | n <= j < TreeSize(n) && Below(i, j)
        ensures Val(tree, ts, i) <= ts[LeafRank(n, d, j)].timestamp
      {
        LeafAlone(n, i, j);
      }
    } else {
      var cs := Children(i, n);
      var b := Pick(n, d, tree, ts, cs);
      forall j | n <= j < TreeSize(n) && Below(i, j)
        ensures Val(tree, ts, i) <= ts[LeafRank(n, d, j)].timestamp
      {
        var c := BelowChild(n, i, j);
        SubtreeMin(n, d, tree, ts, c);
        var k :| 0 <= k < |cs| && cs[k] == c;
      }
      if tree[i].rank != DummyRank {
        var k :| 0 <= k < |cs| && tree[cs[k]].rank == b.rank &&
          forall k' :: 0 <= k' < k && tree[cs[k']].rank != DummyRank ==> ts[tree[cs[k']].rank].timestamp > b.timestamp;
        SubtreeMin(n, d, tree, ts, cs[k]);
        BelowStep(cs[k], LeafIndex(n, d, tree[i].rank));
      }
    }
  }

  /**
   * The dequeuer's view of a right tree: the root is `DUMMY_RANK` exactly when
   * every enqueuer publishes `MAX_TIMESTAMP`, and otherwise it names an
   * enqueuer whose timestamp is the smallest of all.
   */
  lemma RootIsMinimum(n: nat, d: int, tree: seq<TreeNode>, ts: seq<Stamp>)
    requires Shape(n, d, tree, ts) && AllOk(n, d, tree, ts)
    ensures tree[0].rank == DummyRank <==>
              forall r :: Ranks.IsEnqueuer(n + 1, d, r) ==> ts[r].timestamp == MaxTimestamp
    ensures tree[0].rank != DummyRank ==>
              Ranks.IsEnqueuer(n + 1, d, tree[0].rank) && ts[tree[0].rank].timestamp < MaxTimestamp &&
              forall r :: Ranks.IsEnqueuer(n + 1, d, r) ==> ts[tree[0].rank].timestamp <= ts[r].timestamp
  {
    SubtreeMin(n, d, tree, ts, 0);
    forall r | Ranks.IsEnqueuer(n + 1, d, r)
      ensures Val(tree, ts, 0) <= ts[r].timestamp
    {
      var j := LeafIndex(n, d, r);
      BelowRoot(j);
      assert LeafRank(n, d, j) == r;
    }
  }

  /** `Pick` only reads the children it visits. */
  lemma {:induction false} PickFrame(n: nat, d: int, tree: seq<TreeNode>, tree': seq<TreeNode>, ts: seq<Stamp>, cs: seq<nat>)
    requires Shape(n, d, tree, ts) && Shape(n, d, tree', ts)
    requires forall k :: 0 <= k < |cs| ==> cs[k] < |tree| && tree'[cs[k]] == tree[cs[k]]
    ensures Pick(n, d, tree', ts, cs) == Pick(n, d, tree, ts, cs)
    decreases |cs|
  {
    if cs != [] {
      PickFrame(n, d, tree, tree', ts, cs[..|cs| - 1]);
    }
  }

  /** `Pick` only reads the timestamps of the enqueuers its children name. */
  lemma {:induction false} PickStampFrame(n: nat, d: int, tree: seq<TreeNode>, ts: seq<Stamp>, ts': seq<Stamp>, cs: seq<nat>)
    requires Shape(n, d, tree, ts) && Shape(n, d, tree, ts')
    requires forall k :: 0 <= k < |cs| ==> cs[k] < |tree|
    requires forall k :: 0 <= k < |cs| && tree[cs[k]].rank != DummyRank ==> ts'[tree[cs[k]].rank] == ts[tree[cs[k]].rank]
    ensures Pick(n, d, tree, ts', cs) == Pick(n, d, tree, ts, cs)
    decreases |cs|
  {
    if cs != [] {
      PickStampFrame(n, d, tree, ts, ts', cs[..|cs| - 1]);
    }
  }

  /** Rewriting node `p` leaves right every node other than `p` and its parent. */
  lemma TreeUpdateFrame(n: nat, d: int, tree: seq<TreeNode>, ts: seq<Stamp>, p: nat, node: TreeNode, k: nat)
    requires Shape(n, d, tree, ts) && p < TreeSize(n) && Shape(n, d, tree[p := node], ts)
    requires k < TreeSize(n) && k != p && k != Parent(p)
    ensures NodeOk(n, d, tree[p := node], ts, k) <==> NodeOk(n, d, tree, ts, k)
  {
    if k < n {
      PickFrame(n, d, tree, tree[p := node], ts, Children(k, n));
    }
  }

  /**
   * After enqueuer `r` publishes a new timestamp in a right tree, every node
   * that is not on the path from `r`'s leaf to the root is still right.
   */
  lemma StampFrame(n: nat, d: int, tree: seq<TreeNode>, ts: seq<Stamp>, r: int, s: Stamp, k: nat)
    requires Shape(n, d, tree, ts) && AllOk(n, d, tree, ts) && Ranks.IsEnqueuer(n + 1, d, r)
    requires 0 <= s.timestamp <= MaxTimestamp
    requires k < TreeSize(n) && !Below(k, LeafIndex(n, d, r))
    ensures Shape(n, d, tree, ts[r := s]) && NodeOk(n, d, tree, ts[r := s], k)
  {
    var ts' := ts[r := s];
    assert NodeOk(n, d, tree, ts, k);
    if k < n {
      var cs := Children(k, n);
      forall i | 0 <= i < |cs| && tree[cs[i]].rank != DummyRank
        ensures ts'[tree[cs[i]].rank] == ts[tree[cs[i]].rank]
      {
        SubtreeMin(n, d, tree, ts, cs[i]);
        if tree[cs[i]].rank == r {
          BelowStep(cs[i], LeafIndex(n, d, r));
        }
      }
      PickStampFrame(n, d, tree, ts, ts', cs);
    } else {
      assert LeafIndex(n, d, LeafRank(n, d, k)) == k;
    }
  }

  /** The tree after `_refresh_self_node` for `r`: its leaf gets `SelfRank` and a stepped tag. */
  ghost function SelfRefreshed(n: nat, d: int, tree: seq<TreeNode>, ts: seq<Stamp>, r: int): seq<TreeNode>
    requires Shape(n, d, tree, ts) && Ranks.IsEnqueuer(n + 1, d, r)
  {
    var leaf := LeafIndex(n, d, r);
    tree[leaf := TreeNode(SelfRank(ts, r), (tree[leaf].tag + 1) % Word)]
  }

  /**
   * `_refresh_self_node` on the leaf of `r`, when everything off the path from
   * that leaf to the root was right, leaves only the leaf's proper ancestors
   * to be refreshed.
   */
  lemma SelfNodeStep(n: nat, d: int, tree: seq<TreeNode>, ts: seq<Stamp>, r: int)
    requires Shape(n, d, tree, ts) && Ranks.IsEnqueuer(n + 1, d, r)
    requires forall k :: 0 <= k < TreeSize(n) && !Below(k, LeafIndex(n, d, r)) ==> NodeOk(n, d, tree, ts, k)
    ensures Shape(n, d, SelfRefreshed(n, d, tree, ts, r), ts)
    ensures OkExceptAbove(n, d, SelfRefreshed(n, d, tree, ts, r), ts, LeafIndex(n, d, r))
  {
    var leaf := LeafIndex(n, d, r);
    var node := TreeNode(SelfRank(ts, r), (tree[leaf].tag + 1) % Word);
    var tree' := tree[leaf := node];
    assert tree' == SelfRefreshed(n, d, tree, ts, r);
    assert LeafRank(n, d, leaf) == r;
    assert Shape(n, d, tree', ts);
    forall k | 0 <= k < TreeSize(n) && !Below(k, Up(leaf))
      ensures NodeOk(n, d, tree', ts, k)
    {
      if k != leaf {
        assert !Below(k, leaf);
        SelfNodeStepAt(n, d, tree, ts, leaf, node, k);
      }
    }
  }

  /** Rewriting leaf `leaf` leaves right a node `k` that was right and is neither the leaf nor above it. */
  lemma SelfNodeStepAt(n: nat, d: int, tree: seq<TreeNode>, ts: seq<Stamp>, leaf: nat, node: TreeNode, k: nat)
    requires Shape(n, d, tree, ts) && n <= leaf < TreeSize(n) && Shape(n, d, tree[leaf := node], ts)
    requires k < TreeSize(n) && k != leaf && !Below(k, Up(leaf)) && NodeOk(n, d, tree, ts, k)
    ensures NodeOk(n, d, tree[leaf := node], ts, k)
  {
    assert Below(Up(leaf), Up(leaf));
    TreeUpdateFrame(n, d, tree, ts, leaf, node, k);
  }

  /** The tree after `_refresh(i)`: node `i` gets its children's pick and a stepped tag. */
  ghost function Refreshed(n: nat, d: int, tree: seq<TreeNode>, ts: seq<Stamp>, i: nat): seq<TreeNode>
    requires Shape(n, d, tree, ts) && i < TreeSize(n)
  {
    tree[i := TreeNode(Pick(n, d, tree, ts, Children(i, n)).rank, (tree[i].tag + 1) % Word)]
  }

  /**
   * One round of `_propagate`'s loop: refreshing the parent of `cur` makes it
   * right, and then only its own proper ancestors remain.
   */
  lemma RefreshStep(n: nat, d: int, tree: seq<TreeNode>, ts: seq<Stamp>, cur: nat)
    requires Shape(n, d, tree, ts) && 0 < cur < TreeSize(n) && OkExceptAbove(n, d, tree, ts, cur)
    ensures Shape(n, d, Refreshed(n, d, tree, ts, Up(cur)), ts)
    ensures OkExceptAbove(n, d, Refreshed(n, d, tree, ts, Up(cur)), ts, Up(cur))
  {
    var p := Up(cur);
    var node := TreeNode(Pick(n, d, tree, ts, Children(p, n)).rank, (tree[p].tag + 1) % Word);
    assert Shape(n, d, tree[p := node], ts);
    forall k | 0 <= k < TreeSize(n) && !(p > 0 && Below(k, Up(p)))
      ensures NodeOk(n, d, Refreshed(n, d, tree, ts, p), ts, k)
    {
      RefreshStepAt(n, d, tree, ts, cur, node, k);
    }
  }

  /** Node `k` after the refresh of `cur`'s parent `p`, when `k` is not above `p`. */
  lemma RefreshStepAt(n: nat, d: int, tree: seq<TreeNode>, ts: seq<Stamp>, cur: nat, node: TreeNode, k: nat)
    requires Shape(n, d, tree, ts) && 0 < cur < TreeSize(n) && OkExceptAbove(n, d, tree, ts, cur)
    requires node == TreeNode(Pick(n, d, tree, ts, Children(Up(cur), n)).rank, (tree[Up(cur)].tag + 1) % Word)
    requires Shape(n, d, tree[Up(cur) := node], ts)
    requires k < TreeSize(n) && !(Up(cur) > 0 && Below(k, Up(Up(cur))))
    ensures NodeOk(n, d, tree[Up(cur) := node], ts, k)
  {
    var p := Up(cur);
    if k == p {
      PickFrame(n, d, tree, tree[p := node], ts, Children(p, n));
    } else {
      if p > 0 {
        assert Below(Up(p), Up(p));
      }
      if Below(k, p) {
        BelowOrder(k, p);
      }
      TreeUpdateFrame(n, d, tree, ts, p, node, k);
    }
  }
}
