/**
 * The ISx bucket sort over slot queues: one queue per rank, each rank
 * sends every key it draws to the queue of the rank owning the key's
 * slice of `[0, MAX_NUM]`, then drains its own queue and sorts what it got.
 * Ranks own slices in rank order, so the ranks' sorted keys, taken in rank
 * order, are all the keys drawn, sorted.
 */
module Isx {
  /** `MAX_NUM`: keys are drawn from `[0, MAX_NUM]`. */
  const MaxNum: int := 10000000

  /** `slice_size`: the width of each rank's slice of keys. */
  function SliceSize(nprocs: int): (s: int)
    requires nprocs >= 1
    ensures s >= 1 && nprocs * s > MaxNum
  {
    var q := MaxNum / nprocs;
    assert MaxNum == q * nprocs + MaxNum % nprocs;
    assert nprocs * (1 + q) == nprocs + nprocs * q;
    1 + q
  }

  /** `slice_index`: the rank whose queue receives key `num`. */
  function SliceIndex(num: int, nprocs: int): (i: int)
    requires nprocs >= 1 && 0 <= num <= MaxNum
    ensures 0 <= i < nprocs
  {
    var s := SliceSize(nprocs);
    QuotientBelow(num, s, nprocs);
    num / s
  }

  /** A quotient by `s` of a number below `n * s` is below `n`. */
  lemma QuotientBelow(num: int, s: int, n: int)
    requires 0 <= num && s >= 1 && n * s > num
    ensures 0 <= num / s < n
  {
    var k := num / s;
    assert num == k * s + num % s;
    if k >= n {
      MulMono(n, k, s);
    }
  }

  /** Multiplying by a positive factor keeps the order. */
  lemma MulMono(a: int, b: int, c: int)
    requires a <= b && c > 0
    ensures a * c <= b * c
  {
    assert b * c - a * c == (b - a) * c;
  }

  /** A smaller key never goes to a later rank: slices are laid out in rank order. */
  lemma SliceIndexMonotone(a: int, b: int, nprocs: int)
    requires nprocs >= 1 && 0 <= a <= b <= MaxNum
    ensures SliceIndex(a, nprocs) <= SliceIndex(b, nprocs)
  {
    var s := SliceSize(nprocs);
    var i, j := a / s, b / s;
    assert a >= i * s && b < j * s + s;
    assert (j + 1) * s == j * s + s;
    if i > j {
      MulMono(j + 1, i, s);
    }
  }

  /** `elements_per_pe`: every rank draws `n` keys under weak scaling, else its share of `n`. */
  function ElementsPerPe(n: nat, nprocs: int, weakScaling: bool): (e: nat)
    requires nprocs >= 1
    ensures weakScaling ==> e == n
    ensures !weakScaling ==> e * nprocs <= n < (e + 1) * nprocs
  {
    if weakScaling then n
    else
      var e := n / nprocs;
      assert n == e * nprocs + n % nprocs;
      e
  }

  ghost predicate Sorted(s: seq<int>)
  {
    forall i, j :: 0 <= i < j < |s| ==> s[i] <= s[j]
  }

  /** Inserting `x` into a sorted sequence at its place. */
  function Insert(x: int, s: seq<int>): (r: seq<int>)
    ensures multiset(r) == multiset(s) + multiset{x}
  {
    if |s| == 0 then [x]
    else if x <= s[0] then [x] + s
    else
      assert s == [s[0]] + s[1..];
      [s[0]] + Insert(x, s[1..])
  }

  /** Inserting into a sorted sequence keeps it sorted. */
  lemma {:induction false} InsertSorted(x: int, s: seq<int>)
    requires Sorted(s)
    ensures Sorted(Insert(x, s))
    decreases |s|
  {
    if |s| > 0 && x > s[0] {
      var t := Insert(x, s[1..]);
      InsertSorted(x, s[1..]);
      forall k | 0 <= k < |t|
        ensures s[0] <= t[k]
      {
        assert t[k] in multiset(s[1..]) + multiset{x};
        if t[k] != x {
          assert t[k] in s[1..];
        }
      }
      SortedCons(s[0], t);
    }
  }

  /** A key no larger than any of a sorted sequence's, put in front, keeps it sorted. */
  lemma SortedCons(x: int, t: seq<int>)
    requires Sorted(t) && forall k :: 0 <= k < |t| ==> x <= t[k]
    ensures Sorted([x] + t)
  {
    forall i, j | 0 <= i < j < |[x] + t|
      ensures ([x] + t)[i] <= ([x] + t)[j]
    {
      if i > 0 {
        assert ([x] + t)[i] == t[i - 1];
      }
    }
  }

  /** What `std::sort` leaves in `my_keys`: the same keys, in non-decreasing order. */
  function Sort(s: seq<int>): (r: seq<int>)
    ensures Sorted(r) && multiset(r) == multiset(s)
  {
    if |s| == 0 then []
    else
      assert s == [s[0]] + s[1..];
      InsertSorted(s[0], Sort(s[1..]));
      Insert(s[0], Sort(s[1..]))
  }

  /** The ranks' sequences one after another, in rank order. */
  function Concat(bs: seq<seq<int>>): (r: seq<int>)
  {
    if |bs| == 0 then [] else Concat(bs[..|bs| - 1]) + bs[|bs| - 1]
  }

  /** Every key of the concatenation comes from one of the sequences. */
  lemma {:induction false} ConcatMembers(bs: seq<seq<int>>, x: int)
    requires x in Concat(bs)
    ensures exists i :: 0 <= i < |bs| && x in bs[i]
    decreases |bs|
  {
    var n := |bs| - 1;
    if x !in bs[n] {
      ConcatMembers(bs[..n], x);
      var i :| 0 <= i < n && x in bs[..n][i];
      assert x in bs[i];
    }
  }

  /** Appending key `x` to sequence `r` adds exactly `x` to the concatenation's keys. */
  lemma {:induction false} ConcatAppend(bs: seq<seq<int>>, r: int, x: int)
    requires 0 <= r < |bs|
    ensures multiset(Concat(bs[r := bs[r] + [x]])) == multiset(Concat(bs)) + multiset{x}
    decreases |bs|
  {
    var n := |bs| - 1;
    var bs' := bs[r := bs[r] + [x]];
    assert Concat(bs') == Concat(bs'[..n]) + bs'[n];
    assert Concat(bs) == Concat(bs[..n]) + bs[n];
    if r < n {
      assert bs'[..n] == bs[..n][r := bs[..n][r] + [x]];
      ConcatAppend(bs[..n], r, x);
      assert bs'[n] == bs[n];
    } else {
      assert bs'[..n] == bs[..n];
      assert multiset(bs'[n]) == multiset(bs[n]) + multiset{x} by {
        assert bs'[n] == bs[n] + [x];
      }
    }
  }

  /** Every key in bucket `i` is a valid key owned by rank `i`. */
  ghost predicate Bucketed(bs: seq<seq<int>>, nprocs: int)
    requires nprocs >= 1
  {
    forall i, k :: 0 <= i < |bs| && 0 <= k < |bs[i]| ==> 0 <= bs[i][k] <= MaxNum && SliceIndex(bs[i][k], nprocs) == i
  }

  /** Sending a key to the queue of the rank owning it keeps every queue's keys that rank's. */
  lemma BucketedAppend(bs: seq<seq<int>>, nprocs: int, r: int, x: int)
    requires nprocs >= 1 && Bucketed(bs, nprocs) && 0 <= x <= MaxNum && 0 <= r < |bs| && SliceIndex(x, nprocs) == r
    ensures Bucketed(bs[r := bs[r] + [x]], nprocs)
  {
    var bs' := bs[r := bs[r] + [x]];
    forall i, k | 0 <= i < |bs'| && 0 <= k < |bs'[i]|
      ensures 0 <= bs'[i][k] <= MaxNum && SliceIndex(bs'[i][k], nprocs) == i
    {
      if i != r || k < |bs[r]| {
        assert bs'[i][k] == bs[i][k];
      }
    }
  }

  /** Sorted buckets of keys split by slice, concatenated in rank order, are sorted. */
  lemma {:induction false} BucketsSorted(bs: seq<seq<int>>, nprocs: int)
    requires nprocs >= 1 && Bucketed(bs, nprocs)
    requires forall i :: 0 <= i < |bs| ==> Sorted(bs[i])
    ensures Sorted(Concat(bs))
    decreases |bs|
  {
    if |bs| > 0 {
      var n := |bs| - 1;
      assert forall i :: 0 <= i < n ==> bs[..n][i] == bs[i];
      BucketsSorted(bs[..n], nprocs);
      var front, last := Concat(bs[..n]), bs[n];
      forall x, y | x in front && y in last
        ensures x < y
      {
        ConcatMembers(bs[..n], x);
        var i :| 0 <= i < n && x in bs[..n][i];
        var k :| 0 <= k < |bs[i]| && bs[i][k] == x;
        var l :| 0 <= l < |bs[n]| && bs[n][l] == y;
        assert SliceIndex(x, nprocs) == i && SliceIndex(y, nprocs) == n;
        if x >= y {
          SliceIndexMonotone(y, x, nprocs);
        }
      }
      SortedJoin(front, last);
    }
  }

  /** Two sorted sequences, every key of the first below every key of the second, join sorted. */
  lemma SortedJoin(a: seq<int>, b: seq<int>)
    requires Sorted(a) && Sorted(b)
    requires forall x, y :: x in a && y in b ==> x < y
    ensures Sorted(a + b)
  {
    forall i, j | 0 <= i < j < |a + b|
      ensures (a + b)[i] <= (a + b)[j]
    {
      if i < |a| && j >= |a| {
        assert a[i] in a && b[j - |a|] in b;
      }
    }
  }

  /**
   * One rank's enqueue loop: every key it drew is sent to the queue of the
   * rank owning its slice.  The queues stand for their contents; the slot
   * queues have room for every key a rank sends in one round.
   */
  method Scatter(queues: seq<seq<int>>, nums: seq<int>, nprocs: int) returns (queues': seq<seq<int>>)
    requires nprocs >= 1 && |queues| == nprocs && Bucketed(queues, nprocs)
    requires forall k :: 0 <= k < |nums| ==> 0 <= nums[k] <= MaxNum
    ensures |queues'| == nprocs && Bucketed(queues', nprocs)
    ensures multiset(Concat(queues')) == multiset(Concat(queues)) + multiset(nums)
  {
    queues' := queues;
    var k := 0;
    while k < |nums|
      invariant 0 <= k <= |nums| && |queues'| == nprocs && Bucketed(queues', nprocs)
      invariant multiset(Concat(queues')) == multiset(Concat(queues)) + multiset(nums[..k])
    {
      var num := nums[k];
      var sliceIndex := SliceIndex(num, nprocs);
      ScatterStep(queues, queues', nums, k, nprocs);
      queues' := queues'[sliceIndex := queues'[sliceIndex] + [num]];
      k := k + 1;
    }
    assert nums[..k] == nums;
  }

  /** One iteration of the enqueue loop keeps the queues bucketed and adds key `k` to them. */
  lemma ScatterStep(queues: seq<seq<int>>, current: seq<seq<int>>, nums: seq<int>, k: int, nprocs: int)
    requires nprocs >= 1 && |current| == nprocs && Bucketed(current, nprocs)
    requires 0 <= k < |nums| && 0 <= nums[k] <= MaxNum
    requires multiset(Concat(current)) == multiset(Concat(queues)) + multiset(nums[..k])
    ensures var r := SliceIndex(nums[k], nprocs);
            var next := current[r := current[r] + [nums[k]]];
            |next| == nprocs && Bucketed(next, nprocs) &&
            multiset(Concat(next)) == multiset(Concat(queues)) + multiset(nums[..k + 1])
  {
    var r := SliceIndex(nums[k], nprocs);
    ConcatAppend(current, r, nums[k]);
    BucketedAppend(current, nprocs, r, nums[k]);
    assert nums[..k + 1] == nums[..k] + [nums[k]];
  }

  /**
   * The drain loop of rank `rank`: dequeue from its own queue, appending to
   * `my_keys`, until the dequeue fails on the empty queue.
   */
  method Drain(queue: seq<int>) returns (myKeys: seq<int>)
    ensures multiset(myKeys) == multiset(queue)
  {
    myKeys := [];
    var rest := queue;
    while rest != []
      invariant multiset(myKeys) + multiset(rest) == multiset(queue)
      decreases |rest|
    {
      var output := rest[0];
      assert rest == [output] + rest[1..];
      rest := rest[1..];
      myKeys := myKeys + [output];
    }
  }

  /**
   * One round of `slotqueue_isx_sort` over all ranks: every rank scatters
   * the keys it drew (`draws[r]` for rank `r`), then every rank drains its
   * own queue and sorts what it got.  Taken in rank order, the ranks' keys
   * are all the keys drawn, sorted.
   */
  method Round(draws: seq<seq<int>>, nprocs: int) returns (myKeys: seq<seq<int>>)
    requires nprocs >= 1 && |draws| == nprocs
    requires forall r, k :: 0 <= r < nprocs && 0 <= k < |draws[r]| ==> 0 <= draws[r][k] <= MaxNum
    ensures |myKeys| == nprocs
    ensures forall r :: 0 <= r < nprocs ==> Sorted(myKeys[r])
    ensures Sorted(Concat(myKeys))
    ensures multiset(Concat(myKeys)) == multiset(Concat(draws))
  {
    var queues := ScatterAll(draws, nprocs);
    myKeys := DrainAll(queues);
    SortedBuckets(queues, myKeys, nprocs);
  }

  /** The enqueue phase of a round: every rank's keys, sent to the queues of their slices' ranks. */
  method ScatterAll(draws: seq<seq<int>>, nprocs: int) returns (queues: seq<seq<int>>)
    requires nprocs >= 1 && |draws| == nprocs
    requires forall r, k :: 0 <= r < nprocs && 0 <= k < |draws[r]| ==> 0 <= draws[r][k] <= MaxNum
    ensures |queues| == nprocs && Bucketed(queues, nprocs)
    ensures multiset(Concat(queues)) == multiset(Concat(draws))
  {
    queues := seq(nprocs, _ => []);
    EmptyConcat(queues);
    var r := 0;
    while r < nprocs
      invariant 0 <= r <= nprocs && |queues| == nprocs && Bucketed(queues, nprocs)
      invariant multiset(Concat(queues)) == multiset(Concat(draws[..r]))
    {
      queues := Scatter(queues, draws[r], nprocs);
      assert draws[..r + 1][..r] == draws[..r];
      r := r + 1;
    }
    assert draws[..r] == draws;
  }

  /** The drain phase of a round: every rank drains its own queue and sorts what it got. */
  method DrainAll(queues: seq<seq<int>>) returns (myKeys: seq<seq<int>>)
    ensures |myKeys| == |queues|
    ensures forall i :: 0 <= i < |queues| ==> Sorted(myKeys[i]) && multiset(myKeys[i]) == multiset(queues[i])
  {
    myKeys := [];
    var r := 0;
    while r < |queues|
      invariant 0 <= r <= |queues| && |myKeys| == r
      invariant forall i :: 0 <= i < r ==> Sorted(myKeys[i]) && multiset(myKeys[i]) == multiset(queues[i])
    {
      var drained := Drain(queues[r]);
      myKeys := myKeys + [Sort(drained)];
      r := r + 1;
    }
  }

  /** Buckets of no keys concatenate to no keys. */
  lemma {:induction false} EmptyConcat(bs: seq<seq<int>>)
    requires forall i :: 0 <= i < |bs| ==> bs[i] == []
    ensures Concat(bs) == []
    decreases |bs|
  {
    if |bs| > 0 {
      EmptyConcat(bs[..|bs| - 1]);
    }
  }

  /** Sorting each bucket in place of its keys keeps the buckets split by slice, and the keys. */
  lemma SortedBuckets(queues: seq<seq<int>>, myKeys: seq<seq<int>>, nprocs: int)
    requires nprocs >= 1 && |queues| == |myKeys| == nprocs && Bucketed(queues, nprocs)
    requires forall i :: 0 <= i < nprocs ==> Sorted(myKeys[i]) && multiset(myKeys[i]) == multiset(queues[i])
    ensures Sorted(Concat(myKeys))
    ensures multiset(Concat(myKeys)) == multiset(Concat(queues))
  {
    forall i, k | 0 <= i < nprocs && 0 <= k < |myKeys[i]|
      ensures 0 <= myKeys[i][k] <= MaxNum && SliceIndex(myKeys[i][k], nprocs) == i
    {
      var x := myKeys[i][k];
      assert x in multiset(myKeys[i]);
      assert x in queues[i];
      var l :| 0 <= l < |queues[i]| && queues[i][l] == x;
    }
    BucketsSorted(myKeys, nprocs);
    SameKeysConcat(queues, myKeys);
  }

  /** Sequences with the same keys, one by one, concatenate to the same keys. */
  lemma {:induction false} SameKeysConcat(xs: seq<seq<int>>, bs: seq<seq<int>>)
    requires |xs| == |bs| && forall i :: 0 <= i < |xs| ==> multiset(xs[i]) == multiset(bs[i])
    ensures multiset(Concat(xs)) == multiset(Concat(bs))
    decreases |xs|
  {
    if |xs| > 0 {
      var n := |xs| - 1;
      SameKeysConcat(xs[..n], bs[..n]);
    }
  }
}
