/**
 * Index arithmetic shared by the bounded ring buffers: a monotone counter `i`
 * lives in slot `i % capacity`, and the items between two counters are read
 * from consecutive slots modulo the capacity.
 */
module Ring {
  /** `std::min` on window counters. */
  function Min(a: int, b: int): (m: int)
    ensures m <= a && m <= b && (m == a || m == b)
  {
    if a < b then a else b
  }

  lemma MulSign(x: int, c: int)
    requires c > 0
    ensures x * c < 0 <==> x < 0
    ensures x * c > 0 <==> x > 0
  {
  }

  /** Euclidean division is unique: `q * cap + s` with `0 <= s < cap` has remainder `s`. */
  lemma ModOfDecomposition(j: int, q: int, s: int, cap: int)
    requires cap > 0 && 0 <= s < cap && j == q * cap + s
    ensures j % cap == s && j / cap == q
  {
    var m := q - j / cap;
    assert m * cap == j % cap - s;
    MulSign(m - 1, cap);
    MulSign(m + 1, cap);
    assert (m - 1) * cap == m * cap - cap;
    assert (m + 1) * cap == m * cap + cap;
  }

  /** Two counters less than `cap` apart never share a slot. */
  lemma SlotsDistinct(i: int, d: int, cap: int)
    requires cap > 0 && 0 < d < cap
    ensures (i + d) % cap != i % cap
  {
    var q, r := i / cap, i % cap;
    if r + d < cap {
      ModOfDecomposition(i + d, q, r + d, cap);
    } else {
      ModOfDecomposition(i + d, q + 1, r + d - cap, cap);
    }
  }

  /**
   * Stepping a counter that does not reach a multiple of `p` keeps the
   * multiple of `p` at or below it.
   */
  lemma SameFloor(e: int, p: int)
    requires p > 0 && (e + 1) % p != 0
    ensures (e + 1) - (e + 1) % p == e - e % p
  {
    var q, r := e / p, e % p;
    if r + 1 < p {
      ModOfDecomposition(e + 1, q, r + 1, p);
    } else {
      ModOfDecomposition(e + 1, q + 1, 0, p);
    }
  }

  /** Reducing a counter modulo `cap` before adding to it does not change the slot. */
  lemma ModAdd(a: int, k: int, cap: int)
    requires cap > 0
    ensures ((a % cap) + k) % cap == (a + k) % cap
  {
    var b := a % cap + k;
    var q1, q2 := a / cap, b / cap;
    assert a == q1 * cap + a % cap;
    assert b == q2 * cap + b % cap;
    assert (q1 + q2) * cap == q1 * cap + q2 * cap;
    ModOfDecomposition(a + k, q1 + q2, b % cap, cap);
  }

  /** How many tickets after `head` the next ticket landing in slot `j` comes. */
  function Offset(head: int, j: int, cap: int): (d: int)
    requires cap > 0
    ensures 0 <= d < cap
  {
    (j - head) % cap
  }

  /** The slot of ticket `head + k`, for `0 <= k < cap`, is the one slot that lies `k` tickets after `head`. */
  lemma OffsetOfTicket(head: int, k: int, j: int, cap: int)
    requires cap > 0 && 0 <= k < cap && 0 <= j < cap
    ensures Offset(head, j, cap) == k <==> j == (head + k) % cap
  {
    var q := (j - head) / cap;
    assert j - head == q * cap + (j - head) % cap;
    if Offset(head, j, cap) == k {
      ModOfDecomposition(head + k, -q, j, cap);
    }
    if j == (head + k) % cap {
      var p := (head + k) / cap;
      assert head + k == p * cap + j;
      ModOfDecomposition(j - head, -p, k, cap);
    }
  }

  /** The slots `0 .. n - 1`; there are `n` of them. */
  ghost function Slots(n: nat): (s: set<int>)
    ensures |s| == n && forall i :: i in s <==> 0 <= i < n
  {
    if n == 0 then {} else Slots(n - 1) + {n - 1}
  }

  /** The `len` items stored from counter `first` on, oldest first. */
  ghost function Window<T>(data: seq<T>, first: int, len: nat): seq<T>
    requires len == 0 || |data| > 0
  {
    seq(len, k requires 0 <= k < len => data[(first + k) % |data|])
  }

  /**
   * Storing `x` in the slot of counter `first + len` appends `x` to the window
   * and leaves every item already in it in place, as long as the window is not full.
   */
  lemma WindowAppend<T>(data: seq<T>, first: int, len: nat, x: T)
    requires len < |data|
    ensures Window(data[(first + len) % |data| := x], first, len + 1) == Window(data, first, len) + [x]
  {
    var cap := |data|;
    var d' := data[(first + len) % cap := x];
    var lhs, rhs := Window(d', first, len + 1), Window(data, first, len) + [x];
    forall k | 0 <= k < len + 1
      ensures lhs[k] == rhs[k]
    {
      if k < len {
        SlotsDistinct(first + k, len - k, cap);
        assert first + len == (first + k) + (len - k);
      }
    }
    assert lhs == rhs;
  }

  /** Advancing `first` by one drops the oldest item of the window. */
  lemma WindowAdvance<T>(data: seq<T>, first: int, len: nat)
    requires 0 < len && |data| > 0
    ensures Window(data, first + 1, len - 1) == Window(data, first, len)[1..]
  {
    forall k | 0 <= k < len - 1
      ensures Window(data, first + 1, len - 1)[k] == Window(data, first, len)[1..][k]
    {
      assert first + 1 + k == first + (k + 1);
    }
  }

  /** A window only depends on `first` modulo the capacity. */
  lemma WindowRebase<T>(data: seq<T>, first: int, len: nat)
    requires |data| > 0
    ensures Window(data, first % |data|, len) == Window(data, first, len)
  {
    forall k | 0 <= k < len
      ensures Window(data, first % |data|, len)[k] == Window(data, first, len)[k]
    {
      ModAdd(first, k, |data|);
    }
  }

  /** A window splits into its first `n` items and the rest. */
  lemma WindowSplit<T>(data: seq<T>, first: int, n: nat, m: nat)
    requires n <= m && (m == 0 || |data| > 0)
    ensures Window(data, first, m) == Window(data, first, n) + Window(data, first + n, m - n)
  {
    var lhs, rhs := Window(data, first, m), Window(data, first, n) + Window(data, first + n, m - n);
    forall k | 0 <= k < m
      ensures lhs[k] == rhs[k]
    {
      if k >= n {
        assert first + n + (k - n) == first + k;
      }
    }
    assert lhs == rhs;
  }

  /**
   * A prefetch cache keeps the first `size` items of window `w` in reverse order,
   * so that its top `cached[size - 1]` is the oldest item.
   */
  ghost predicate CacheCoherent<T>(cached: seq<T>, size: int, w: seq<T>)
  {
    0 <= size <= |cached| && size <= |w| &&
    forall k :: 0 <= k < size ==> cached[size - 1 - k] == w[k]
  }

  /** A coherent cache stays coherent when the window grows at its end. */
  lemma CacheExtends<T>(cached: seq<T>, size: int, w: seq<T>, tail: seq<T>)
    requires CacheCoherent(cached, size, w)
    ensures CacheCoherent(cached, size, w + tail)
  {
    forall k | 0 <= k < size
      ensures cached[size - 1 - k] == (w + tail)[k]
    {
    }
  }

  /** Serving the top of a coherent cache leaves a coherent cache of the remaining window. */
  lemma CachePop<T>(cached: seq<T>, size: int, w: seq<T>)
    requires CacheCoherent(cached, size, w) && size > 0
    ensures cached[size - 1] == w[0]
    ensures CacheCoherent(cached, size - 1, w[1..])
  {
    assert cached[size - 1 - 0] == w[0];
    forall k | 0 <= k < size - 1
      ensures cached[size - 1 - 1 - k] == w[1..][k]
    {
      assert cached[size - 1 - (k + 1)] == w[k + 1];
    }
  }

  /**
   * The batch write loop: item `i` of `xs` is stored in the slot of counter
   * `first + len + i`.  When the batch fits, the window grows by exactly `xs`.
   */
  method WriteBatch<T>(data: seq<T>, first: int, len: nat, xs: seq<T>) returns (d: seq<T>)
    requires len + |xs| <= |data|
    ensures |d| == |data|
    ensures Window(d, first, len + |xs|) == Window(data, first, len) + xs
  {
    d := data;
    var i := 0;
    while i < |xs|
      invariant 0 <= i <= |xs| && |d| == |data|
      invariant Window(d, first, len + i) == Window(data, first, len) + xs[..i]
    {
      var grown := len + i;
      WindowAppend(d, first, grown, xs[i]);
      assert xs[..i + 1] == xs[..i] + [xs[i]];
      d := d[(first + grown) % |d| := xs[i]];
      assert grown + 1 == len + (i + 1);
      i := i + 1;
    }
    assert xs[..i] == xs;
  }

  /**
   * The prefetch loop: the `n` items from counter `from` on are copied into the
   * cache in reverse, item `i` landing at position `n - 1 - i`.
   */
  method Prefetch<T>(data: seq<T>, from: int, n: nat, cached: seq<T>) returns (c: seq<T>)
    requires n <= |cached| && (n == 0 || |data| > 0)
    ensures |c| == |cached|
    ensures CacheCoherent(c, n, Window(data, from, n))
  {
    c := cached;
    var i := 0;
    while i < n
      invariant 0 <= i <= n && |c| == |cached|
      invariant forall k :: 0 <= k < i ==> c[n - 1 - k] == Window(data, from, n)[k]
    {
      c := c[n - i - 1 := data[(from + i) % |data|]];
      i := i + 1;
    }
  }
}
