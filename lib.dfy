/**
 * A fixed-capacity queue that overwrites its oldest element once full.
 *
 * The storage `data` grows by appending until it holds `capacity` elements; from then on
 * each push overwrites the slot `insertionIndex`, which is the physically oldest element.
 * Every view of the queue splits `data` at `insertionIndex` into a lower part
 * `data[..insertionIndex]` and an upper part `data[insertionIndex..]`.
 */
module Lib {
  import opened Sequences

  /** The value evicted by a push, if any. */
  datatype Option<T> = None | Some(value: T)

  function Min(a: nat, b: nat): nat { if a <= b then a else b }

  // ---------------------------------------------------------------------------
  // Views of the storage, as functions of the raw fields
  // ---------------------------------------------------------------------------

  /**
   * Oldest to newest: the upper part, then the lower part. This is the storage read as a
   * ring starting at `idx`.
   */
  function Ascending<T>(data: seq<T>, idx: nat): (r: seq<T>)
    requires idx <= |data|
    ensures |r| == |data|
  {
    data[idx..] + data[..idx]
  }

  /** The ascending view only reorders the storage. */
  lemma AscendingPermutes<T>(data: seq<T>, idx: nat)
    requires idx <= |data|
    ensures multiset(Ascending(data, idx)) == multiset(data)
  {
    assert data[..idx] + data[idx..] == data;
  }

  /** A successor position on a ring of `n` slots. */
  lemma NextSlot(i: nat, n: nat)
    requires i < n
    ensures (i + 1) % n == if i + 1 < n then i + 1 else 0
  {
  }

  /** Reducing a position below `2 * n` modulo `n` subtracts `n` at most once. */
  lemma WrapOnce(a: nat, n: nat)
    requires 0 < n && a < 2 * n
    ensures a % n == if a < n then a else a - n
  {
    if a >= n {
      assert a == (a - n) + n;
    }
  }

  /** The ascending view reads the storage as a ring starting at slot `idx`. */
  lemma AscendingIsRotation<T>(data: seq<T>, idx: nat, k: nat)
    requires idx <= |data| && k < |data|
    ensures Ascending(data, idx)[k] == data[(idx + k) % |data|]
  {
    WrapOnce(idx + k, |data|);
  }

  /** Newest to oldest: the lower part reversed, then the upper part reversed. */
  function Descending<T>(data: seq<T>, idx: nat): (r: seq<T>)
    requires idx <= |data|
    ensures |r| == |data|
  {
    Reverse(data[..idx]) + Reverse(data[idx..])
  }

  /** The two views are each other's reversal, whatever the split point. */
  lemma DescendingReversesAscending<T>(data: seq<T>, idx: nat)
    requires idx <= |data|
    ensures Descending(data, idx) == Reverse(Ascending(data, idx))
    ensures Ascending(data, idx) == Reverse(Descending(data, idx))
  {
    ReverseConcat(data[idx..], data[..idx]);
    ReverseReverse(Ascending(data, idx));
  }

  /** The position in `data` of the `k`-th element of the newest-to-oldest view. */
  function DescendingPosition(n: nat, idx: nat, k: nat): (p: nat)
    requires idx <= n && k < n
    ensures p < n
  {
    if k < idx then idx - 1 - k else n - 1 - (k - idx)
  }

  /** Element `k` of the newest-to-oldest view, located in the storage. */
  lemma DescendingAt<T>(data: seq<T>, idx: nat, k: nat)
    requires idx <= |data| && k < |data|
    ensures Descending(data, idx)[k] == data[DescendingPosition(|data|, idx, k)]
  {
    if k < idx {
      ReverseAt(data[..idx], k);
    } else {
      ReverseAt(data[idx..], k - idx);
    }
  }

  /** Without a wrap-around (split at either end) the ascending view is the storage itself. */
  lemma AscendingUnsplit<T>(data: seq<T>)
    ensures Ascending(data, 0) == data
    ensures Ascending(data, |data|) == data
    ensures Descending(data, 0) == Reverse(data)
    ensures Descending(data, |data|) == Reverse(data)
  {
    assert data[..0] == [] && data[0..] == data;
    assert data[..|data|] == data && data[|data|..] == [];
  }

  /** Element-wise application of `f`, where `f` also receives the index of the element. */
  function Apply<T>(f: (nat, T) -> T, s: seq<T>): (r: seq<T>)
    ensures |r| == |s|
    ensures forall k :: 0 <= k < |s| ==> r[k] == f(k, s[k])
  {
    seq(|s|, k requires 0 <= k < |s| => f(k, s[k]))
  }

  // ---------------------------------------------------------------------------
  // Reference specification: the logical contents, oldest to newest
  // ---------------------------------------------------------------------------

  /** Logical contents after pushing `x` onto contents `s` in a queue of capacity `cap`. */
  function PushContents<T>(s: seq<T>, cap: nat, x: T): (r: seq<T>)
    requires |s| <= cap
    ensures |r| == if cap == 0 then 0 else Min(|s| + 1, cap)
  {
    if cap == 0 then s else if |s| < cap then s + [x] else s[1..] + [x]
  }

  /** Logical contents after pushing the elements of `xs`, in order, into an empty queue. */
  function Pushed<T>(cap: nat, xs: seq<T>): (r: seq<T>)
    ensures |r| == Min(|xs|, cap)
    decreases |xs|
  {
    if xs == [] then [] else PushContents(Pushed(cap, xs[..|xs| - 1]), cap, xs[|xs| - 1])
  }

  /** A queue of capacity `cap` holds exactly the `cap` most recently pushed values. */
  lemma {:induction false} PushedKeepsNewest<T>(cap: nat, xs: seq<T>)
    ensures Pushed(cap, xs) == xs[|xs| - Min(|xs|, cap)..]
    decreases |xs|
  {
    if xs != [] {
      var init, x := xs[..|xs| - 1], xs[|xs| - 1];
      PushedKeepsNewest(cap, init);
      assert xs == init + [x];
      if cap == 0 {
      } else if |init| < cap {
        assert init[|init| - Min(|init|, cap)..] == init;
      } else {
        assert init[|init| - cap..][1..] + [x] == xs[|xs| - cap..];
      }
    }
  }

  /** After a push into a queue of positive capacity, the pushed value is the newest. */
  lemma PushedIsNewest<T>(s: seq<T>, cap: nat, x: T)
    requires |s| <= cap && cap > 0
    ensures |Reverse(PushContents(s, cap, x))| > 0
    ensures Reverse(PushContents(s, cap, x))[0] == x
  {
    ReverseAt(PushContents(s, cap, x), 0);
  }

  /** Pushing one more value is one more step of `PushContents`. */
  lemma PushedSnoc<T>(cap: nat, xs: seq<T>, x: T)
    ensures Pushed(cap, xs + [x]) == PushContents(Pushed(cap, xs), cap, x)
  {
    assert (xs + [x])[..|xs|] == xs;
  }

  /** Pushing at most `cap` values loses nothing. */
  lemma PushedBelowCapacity<T>(cap: nat, xs: seq<T>)
    requires |xs| <= cap
    ensures Pushed(cap, xs) == xs
  {
    PushedKeepsNewest(cap, xs);
  }

  /** Appending at the end of a storage split at its end stays in order. */
  lemma AppendKeepsOrder<T>(data: seq<T>, cap: nat, x: T)
    requires |data| < cap
    ensures Ascending(data + [x], (|data| + 1) % cap) == data + [x]
  {
    AscendingUnsplit(data + [x]);
    NextSlot(|data|, cap);
  }

  /** Overwriting the oldest slot of a full storage drops the oldest and adds `x` as newest. */
  lemma OverwriteKeepsOrder<T>(data: seq<T>, idx: nat, x: T)
    requires idx < |data|
    ensures Ascending(data[idx := x], (idx + 1) % |data|) == Ascending(data, idx)[1..] + [x]
  {
    NextSlot(idx, |data|);
    var d := data[idx := x];
    if idx + 1 < |data| {
      assert d[idx + 1..] == data[idx + 1..];
      assert d[..idx + 1] == data[..idx] + [x];
      assert Ascending(data, idx)[1..] == data[idx + 1..] + data[..idx];
    } else {
      assert d == data[..idx] + [x];
      assert d[0..] == d && d[..0] == [];
      assert Ascending(data, idx)[1..] == data[..idx];
    }
  }

  // ---------------------------------------------------------------------------
  // The queue
  // ---------------------------------------------------------------------------

  class CircularQueue<T> {
    /** The storage; it only grows, up to `capacity` elements. */
    var data: seq<T>
    /** The fixed capacity, kept separately from the storage. */
    var capacity: nat
    /** The next slot to write; once the queue is full, also the oldest element. */
    var insertionIndex: nat

    /**
     * The object invariant. It admits any split point up to the storage length, which is
     * what a decoded queue has (split point 0 with a storage shorter than the capacity).
     */
    ghost predicate Valid()
      reads this
    {
      && |data| <= capacity
      && insertionIndex <= |data|
      && (capacity > 0 ==> insertionIndex < capacity)
    }

    /**
     * The stronger invariant of every queue built from `WithCapacity`, `Push` and `Clear`:
     * while it is filling, the next slot to write is the end of the storage.
     */
    ghost predicate Canonical()
      reads this
    {
      Valid() && (|data| < capacity ==> insertionIndex == |data|)
    }

    /** An empty queue with the given capacity (`with_capacity`). */
    constructor WithCapacity(capacity: nat)
      ensures Canonical()
      ensures data == [] && this.capacity == capacity && insertionIndex == 0
    {
      data := [];
      this.capacity := capacity;
      insertionIndex := 0;
    }

    /** A queue assembled from its three fields, as the decoder builds it. */
    constructor Assemble(data: seq<T>, capacity: nat, insertionIndex: nat)
      requires |data| <= capacity && insertionIndex <= |data|
      requires capacity > 0 ==> insertionIndex < capacity
      ensures Valid()
      ensures this.data == data && this.capacity == capacity && this.insertionIndex == insertionIndex
    {
      this.data := data;
      this.capacity := capacity;
      this.insertionIndex := insertionIndex;
    }

    /** The number of elements. */
    function Len(): (n: nat)
      reads this
      requires Valid()
      ensures n <= capacity
      ensures n == |AscIter()|
    {
      |data|
    }

    /** Whether the queue holds no element. */
    function IsEmpty(): (r: bool)
      reads this
      requires Valid()
      ensures r <==> Iter() == []
      ensures r <==> AscIter() == []
    {
      |data| == 0
    }

    /** Whether the queue holds `capacity` elements, so that a push would evict one. */
    function IsFull(): (r: bool)
      reads this
      requires Valid()
      ensures r <==> |Iter()| == capacity
    {
      capacity == Len()
    }

    /** The capacity fixed at construction. */
    function Capacity(): (c: nat)
      reads this
      requires Valid()
      ensures c >= |Iter()|
    {
      capacity
    }

    /** The elements from the most recently pushed to the oldest (`iter`). */
    function Iter(): (r: seq<T>)
      reads this
      requires Valid()
      ensures |r| == |data|
      ensures r == Reverse(AscIter())
    {
      DescendingReversesAscending(data, insertionIndex);
      Descending(data, insertionIndex)
    }

    /** The elements from the oldest to the most recently pushed (`asc_iter`). */
    function AscIter(): (r: seq<T>)
      reads this
      requires Valid()
      ensures |r| == |data|
    {
      Ascending(data, insertionIndex)
    }

    /** Drops every element; the capacity stays (`clear`). */
    method Clear()
      requires Valid()
      modifies this
      ensures Canonical()
      ensures data == [] && insertionIndex == 0 && capacity == old(capacity)
    {
      data := [];
      insertionIndex := 0;
    }

    /**
     * Pushes `x`: a no-op on capacity 0, an append while not full, otherwise an overwrite
     * of the oldest slot whose old value is returned (`push`).
     */
    method Push(x: T) returns (popped: Option<T>)
      requires Valid()
      modifies this
      ensures Valid() && capacity == old(capacity)
      ensures old(capacity) == 0 ==>
        popped == None && data == old(data) && insertionIndex == old(insertionIndex)
      ensures old(capacity) > 0 && old(|data|) < old(capacity) ==>
        popped == None && data == old(data) + [x]
      ensures old(capacity) > 0 && old(|data|) == old(capacity) ==>
        popped == Some(old(data[insertionIndex])) && data == old(data[insertionIndex := x])
      ensures old(capacity) > 0 ==> insertionIndex == if old(insertionIndex) + 1 < capacity then old(insertionIndex) + 1 else 0
      ensures old(Canonical()) ==> Canonical()
      ensures old(Canonical()) ==> AscIter() == PushContents(old(AscIter()), capacity, x)
      ensures old(Canonical()) && old(|data|) == capacity > 0 ==> popped == Some(old(AscIter())[0])
      ensures old(Canonical()) && capacity > 0 ==> |Iter()| > 0 && Iter()[0] == x
    {
      popped := None;
      if capacity == 0 {
        return;
      }
      ghost var d0, i0, asc0 := data, insertionIndex, AscIter();
      if |data| < capacity {
        data := data + [x];
      } else {
        popped := Some(data[insertionIndex]);
        data := data[insertionIndex := x];
      }
      NextSlot(insertionIndex, capacity);
      insertionIndex := (insertionIndex + 1) % capacity;
      assert Valid();

      if |d0| < capacity && i0 == |d0| {
        AscendingUnsplit(d0);
        AppendKeepsOrder(d0, capacity, x);
        assert AscIter() == PushContents(asc0, capacity, x);
      } else if |d0| == capacity {
        OverwriteKeepsOrder(d0, i0, x);
        assert AscIter() == PushContents(asc0, capacity, x);
      }
      PushedIsNewest(asc0, capacity, x);
    }

    /**
     * Updates every element through a mutable iterator in newest-to-oldest order
     * (`iter_mut`): the `k`-th element yielded becomes `f(k, element)`.
     */
    method IterMut(f: (nat, T) -> T)
      requires Valid()
      modifies this
      ensures Valid()
      ensures capacity == old(capacity) && insertionIndex == old(insertionIndex)
      ensures |data| == old(|data|)
      ensures Iter() == Apply(f, old(Iter()))
    {
      var d, n, idx := data, |data|, insertionIndex;
      // The reversed lower part: positions idx - 1 down to 0.
      var k := 0;
      while k < idx
        invariant 0 <= k <= idx && |d| == n
        invariant forall p :: 0 <= p < n ==>
          d[p] == if idx - k <= p < idx then f(idx - 1 - p, data[p]) else data[p]
      {
        var p := idx - 1 - k;
        d := d[p := f(k, d[p])];
        k := k + 1;
      }
      // The reversed upper part: positions n - 1 down to idx.
      while k < n
        invariant idx <= k <= n && |d| == n
        invariant forall p :: 0 <= p < n ==>
          d[p] == if p < idx then f(idx - 1 - p, data[p])
                  else if n - (k - idx) <= p then f(idx + (n - 1 - p), data[p])
                  else data[p]
      {
        var p := n - 1 - (k - idx);
        d := d[p := f(k, d[p])];
        k := k + 1;
      }
      forall j | 0 <= j < n
        ensures Descending(d, idx)[j] == Apply(f, Descending(data, idx))[j]
      {
        DescendingAt(d, idx, j);
        DescendingAt(data, idx, j);
      }
      data := d;
    }

    /**
     * Updates every element through a mutable iterator in oldest-to-newest order
     * (`asc_iter_mut`): the `k`-th element yielded becomes `f(k, element)`.
     */
    method AscIterMut(f: (nat, T) -> T)
      requires Valid()
      modifies this
      ensures Valid()
      ensures capacity == old(capacity) && insertionIndex == old(insertionIndex)
      ensures |data| == old(|data|)
      ensures AscIter() == Apply(f, old(AscIter()))
    {
      var d, n, idx := data, |data|, insertionIndex;
      // The upper part: positions idx up to n - 1.
      var k := 0;
      while k < n - idx
        invariant 0 <= k <= n - idx && |d| == n
        invariant forall p :: 0 <= p < n ==>
          d[p] == if idx <= p < idx + k then f(p - idx, data[p]) else data[p]
      {
        var p := idx + k;
        d := d[p := f(k, d[p])];
        k := k + 1;
      }
      // The lower part: positions 0 up to idx - 1.
      while k < n
        invariant n - idx <= k <= n && |d| == n
        invariant forall p :: 0 <= p < n ==>
          d[p] == if idx <= p then f(p - idx, data[p])
                  else if p < k - (n - idx) then f(p + (n - idx), data[p])
                  else data[p]
      {
        var p := k - (n - idx);
        d := d[p := f(k, d[p])];
        k := k + 1;
      }
      assert Ascending(d, idx) == Apply(f, Ascending(data, idx));
      data := d;
    }

    /**
     * The elements from the most recently pushed to the oldest, obtained by reversing the
     * upper and then the lower part of the storage in place (`into_vec`).
     */
    method IntoVec() returns (v: seq<T>)
      requires Valid()
      ensures v == Iter()
      ensures multiset(v) == multiset(data)
    {
      var d, idx := data, insertionIndex;
      var a := new T[|d|](i requires 0 <= i < |d| => d[i]);
      ghost var a0 := a[..];
      ReverseRange(a, idx, a.Length);
      ghost var a1 := a[..];
      ReverseRange(a, 0, idx);
      v := a[..];
      TwoReversalsRotate(d, idx, a0, a1, v);
      DescendingPermutes(d, idx);
    }
  }

  /** Reversing the upper and then the lower part of a storage gives its descending view. */
  lemma TwoReversalsRotate<T>(d: seq<T>, idx: nat, a0: seq<T>, a1: seq<T>, a2: seq<T>)
    requires idx <= |d| && a0 == d
    requires a1 == a0[..idx] + Reverse(a0[idx..|a0|]) + a0[|a0|..]
    requires a2 == a1[..0] + Reverse(a1[0..idx]) + a1[idx..]
    ensures a2 == Descending(d, idx)
  {
    assert a0[idx..|a0|] == d[idx..] && a0[|a0|..] == [];
    assert a1 == d[..idx] + Reverse(d[idx..]);
    assert a1[..0] == [] && a1[0..idx] == d[..idx] && a1[idx..] == Reverse(d[idx..]);
  }

  /** The descending view only reorders the storage. */
  lemma DescendingPermutes<T>(d: seq<T>, idx: nat)
    requires idx <= |d|
    ensures multiset(Descending(d, idx)) == multiset(d)
  {
    DescendingReversesAscending(d, idx);
    ReverseMultiset(Ascending(d, idx));
    AscendingPermutes(d, idx);
  }

  /** Reverses `a[lo..hi]` in place and leaves the rest of `a` alone (`<[T]>::reverse`). */
  method ReverseRange<T>(a: array<T>, lo: nat, hi: nat)
    requires lo <= hi <= a.Length
    modifies a
    ensures a[..] == old(a[..lo]) + Reverse(old(a[lo..hi])) + old(a[hi..])
  {
    ghost var before := a[..];
    var i, j := lo, hi;
    while i + 1 < j
      invariant lo <= i <= j <= hi && i - lo == hi - j
      invariant forall p :: 0 <= p < a.Length && (lo <= p < i || j <= p < hi) ==>
        a[p] == before[lo + hi - 1 - p]
      invariant forall p :: 0 <= p < a.Length && !(lo <= p < i || j <= p < hi) ==>
        a[p] == before[p]
    {
      a[i], a[j - 1] := a[j - 1], a[i];
      i, j := i + 1, j - 1;
    }
    assert i < j ==> lo + hi - 1 - i == i;
    ReversedSegment(before, a[..], lo, hi);
  }

  /** A sequence that mirrors `before` on `[lo, hi)` and agrees with it elsewhere. */
  lemma ReversedSegment<T>(before: seq<T>, after: seq<T>, lo: nat, hi: nat)
    requires lo <= hi <= |before| == |after|
    requires forall p :: lo <= p < hi ==> after[p] == before[lo + hi - 1 - p]
    requires forall p :: 0 <= p < |after| && !(lo <= p < hi) ==> after[p] == before[p]
    ensures after == before[..lo] + Reverse(before[lo..hi]) + before[hi..]
  {
    var expected := before[..lo] + Reverse(before[lo..hi]) + before[hi..];
    forall p | 0 <= p < |after|
      ensures after[p] == expected[p]
    {
      if lo <= p < hi {
        ReverseAt(before[lo..hi], p - lo);
      }
    }
  }

  /** Moves a queue into a plain sequence, newest first (`From<CircularQueue<T>> for Vec<T>`). */
  method VecFrom<T>(q: CircularQueue<T>) returns (v: seq<T>)
    requires q.Valid()
    ensures v == q.Iter()
    ensures |v| == q.Len()
  {
    v := q.IntoVec();
  }

  /**
   * Queue equality (`PartialEq::eq`): equal lengths and pairwise equal elements of the two
   * newest-to-oldest views. The capacities take no part.
   */
  function Equal<T(==)>(p: CircularQueue<T>, q: CircularQueue<T>): (r: bool)
    reads p, q
    requires p.Valid() && q.Valid()
    ensures r <==> p.Iter() == q.Iter()
    ensures r <==> p.AscIter() == q.AscIter()
  {
    var a, b := p.Iter(), q.Iter();
    ReverseReverse(p.AscIter());
    ReverseReverse(q.AscIter());
    p.Len() == q.Len() && forall k :: 0 <= k < |a| && k < |b| ==> a[k] == b[k]
  }

  lemma EqualReflexive<T>(p: CircularQueue<T>)
    requires p.Valid()
    ensures Equal(p, p)
  {
  }

  lemma EqualSymmetric<T>(p: CircularQueue<T>, q: CircularQueue<T>)
    requires p.Valid() && q.Valid()
    ensures Equal(p, q) <==> Equal(q, p)
  {
  }

  lemma EqualTransitive<T>(p: CircularQueue<T>, q: CircularQueue<T>, s: CircularQueue<T>)
    requires p.Valid() && q.Valid() && s.Valid()
    requires Equal(p, q) && Equal(q, s)
    ensures Equal(p, s)
  {
  }

  /** A zero-capacity queue is empty and full at once, and its views yield nothing. */
  lemma ZeroCapacity<T>(q: CircularQueue<T>)
    requires q.Valid() && q.capacity == 0
    ensures q.Len() == 0 && q.IsEmpty() && q.IsFull()
    ensures q.Iter() == [] && q.AscIter() == []
  {
  }

  /**
   * Pushes the elements of `xs` in order. A queue built from an empty one this way holds
   * `Pushed(capacity, xs)`.
   */
  method PushAll<T>(q: CircularQueue<T>, xs: seq<T>)
    requires q.Canonical()
    modifies q
    ensures q.Canonical() && q.capacity == old(q.capacity)
    ensures q.AscIter() == Pushed(q.capacity, old(q.AscIter()) + xs)
  {
    ghost var start := q.AscIter();
    PushedBelowCapacity(q.capacity, start);
    assert start + xs[..0] == start;
    var i := 0;
    while i < |xs|
      invariant 0 <= i <= |xs|
      invariant q.Canonical() && q.capacity == old(q.capacity)
      invariant q.AscIter() == Pushed(q.capacity, start + xs[..i])
    {
      var _ := q.Push(xs[i]);
      PushedSnoc(q.capacity, start + xs[..i], xs[i]);
      assert start + xs[..i + 1] == (start + xs[..i]) + [xs[i]];
      i := i + 1;
    }
    assert xs[..i] == xs;
  }
}
