/** Heap sort and binary search (lib/stdlib.c).  Indices of the heap are 1-based, as in the source. */
module Sorting {
  import opened Options
  import opened Bytes

  /** A strcmp()-type comparison that orders the values, with ties allowed. */
  ghost predicate Orders<T(!new)>(cmp: (T, T) -> int) {
    && (forall x, y :: cmp(x, y) < 0 <==> cmp(y, x) > 0)
    && (forall x, y, z :: cmp(x, y) <= 0 && cmp(y, z) <= 0 ==> cmp(x, z) <= 0)
  }

  lemma Transitive<T(!new)>(cmp: (T, T) -> int, x: T, y: T, z: T)
    requires Orders(cmp)
    ensures cmp(x, y) <= 0 && cmp(y, z) <= 0 ==> cmp(x, z) <= 0
  {
  }

  lemma Opposite<T(!new)>(cmp: (T, T) -> int, x: T, y: T)
    requires Orders(cmp)
    ensures cmp(x, y) < 0 <==> cmp(y, x) > 0
    ensures cmp(x, y) == 0 <==> cmp(y, x) == 0
    ensures cmp(x, x) == 0
  {
  }

  /** No element from parent `lo` on is below one of its children; the heap has cnt elements. */
  ghost predicate HeapFrom<T(!new)>(cmp: (T, T) -> int, s: seq<T>, lo: nat, cnt: nat) {
    1 <= lo && cnt <= |s| && forall c | 2 * lo <= c <= cnt :: cmp(s[c - 1], s[c / 2 - 1]) <= 0
  }

  ghost predicate Sorted<T(!new)>(cmp: (T, T) -> int, s: seq<T>) {
    forall i, j | 0 <= i < j < |s| :: cmp(s[i], s[j]) <= 0
  }

  /** t is s with its first n elements rearranged. */
  ghost predicate Rearranged<T>(s: seq<T>, t: seq<T>, n: nat) {
    |s| == |t| && n <= |s| && multiset(s[..n]) == multiset(t[..n]) && s[n..] == t[n..]
  }

  function Swapped<T>(s: seq<T>, a: nat, b: nat): (r: seq<T>)
    requires a < |s| && b < |s|
    ensures |r| == |s|
    ensures forall k | 0 <= k < |s| :: r[k] == if k == a then s[b] else if k == b then s[a] else s[k]
  {
    s[a := s[b]][b := s[a]]
  }

  lemma SwapRearranges<T>(s: seq<T>, a: nat, b: nat, n: nat)
    requires a < n && b < n && n <= |s|
    ensures Rearranged(s, Swapped(s, a, b), n)
  {
    var t, p := Swapped(s, a, b), s[..n];
    assert t[..n] == p[a := p[b]][b := p[a]];
    assert t[n..] == s[n..];
  }

  lemma RearrangedTwice<T>(s: seq<T>, t: seq<T>, u: seq<T>, n: nat)
    requires Rearranged(s, t, n) && Rearranged(t, u, n)
    ensures Rearranged(s, u, n)
  {
  }

  lemma RearrangedMore<T>(s: seq<T>, t: seq<T>, n: nat, m: nat)
    requires Rearranged(s, t, n) && n <= m <= |s|
    ensures Rearranged(s, t, m)
  {
    assert s[..m] == s[..n] + s[n..][..m - n] && t[..m] == t[..n] + t[n..][..m - n];
    assert s[m..] == s[n..][m - n..] && t[m..] == t[n..][m - n..];
  }

  // ---- heapify ----

  /** The children of element i, as far as there are any, are not above element p. */
  ghost predicate ChildrenBelow<T(!new)>(cmp: (T, T) -> int, s: seq<T>, i: nat, p: nat, cnt: nat)
    requires 1 <= p <= |s| && 1 <= i && cnt <= |s|
  {
    && (2 * i <= cnt ==> cmp(s[2 * i - 1], s[p - 1]) <= 0)
    && (2 * i + 1 <= cnt ==> cmp(s[2 * i], s[p - 1]) <= 0)
  }

  /** While element i floats down from lo: the heap is in order but for i and its children, and those are not
      above i's parent. */
  ghost predicate Floating<T(!new)>(cmp: (T, T) -> int, s: seq<T>, lo: nat, i: nat, cnt: nat) {
    && 1 <= lo <= i && cnt <= |s|
    && (forall c | 2 * lo <= c <= cnt && c / 2 != i :: cmp(s[c - 1], s[c / 2 - 1]) <= 0)
    && (i / 2 >= lo ==> i <= cnt && ChildrenBelow(cmp, s, i, i / 2, cnt))
  }

  /** One step down: i and its larger child change places. */
  lemma FloatStep<T(!new)>(cmp: (T, T) -> int, s: seq<T>, lo: nat, i: nat, max: nat, cnt: nat)
    requires Orders(cmp) && Floating(cmp, s, lo, i, cnt) && 2 * i <= max <= 2 * i + 1 && max <= cnt
    requires cmp(s[max - 1], s[i - 1]) > 0
    requires ChildrenBelow(cmp, s, i, max, cnt)
    ensures Floating(cmp, Swapped(s, i - 1, max - 1), lo, max, cnt)
  {
    hide Orders;
    var t := Swapped(s, i - 1, max - 1);
    forall c | 2 * lo <= c <= cnt && c / 2 != max ensures cmp(t[c - 1], t[c / 2 - 1]) <= 0 {
      StepAt(cmp, s, lo, i, max, cnt, c);
    }
    assert max / 2 == i;
    if 2 * max <= cnt { ChildOf(cmp, s, lo, i, max, cnt, 2 * max); }
    if 2 * max + 1 <= cnt { ChildOf(cmp, s, lo, i, max, cnt, 2 * max + 1); }
  }

  lemma ChildOf<T(!new)>(cmp: (T, T) -> int, s: seq<T>, lo: nat, i: nat, max: nat, cnt: nat, c: nat)
    requires Floating(cmp, s, lo, i, cnt) && 2 * i <= max <= 2 * i + 1 && 2 * max <= c <= 2 * max + 1 && c <= cnt
    ensures cmp(s[c - 1], s[max - 1]) <= 0
  {
    assert c / 2 == max;
    assert cmp(s[c - 1], s[c / 2 - 1]) <= 0;
  }

  lemma StepAt<T(!new)>(cmp: (T, T) -> int, s: seq<T>, lo: nat, i: nat, max: nat, cnt: nat, c: nat)
    requires Orders(cmp) && Floating(cmp, s, lo, i, cnt) && 2 * i <= max <= 2 * i + 1 && max <= cnt
    requires cmp(s[max - 1], s[i - 1]) > 0
    requires ChildrenBelow(cmp, s, i, max, cnt)
    requires 2 * lo <= c <= cnt && c / 2 != max
    ensures var t := Swapped(s, i - 1, max - 1); cmp(t[c - 1], t[c / 2 - 1]) <= 0
  {
    Opposite(cmp, s[max - 1], s[i - 1]);
    hide Orders;
    if c == max {
    } else if c / 2 == i {
      assert c == 2 * i || c == 2 * i + 1;
    } else if c == i {
      assert i / 2 >= lo;
    } else {
      assert cmp(s[c - 1], s[c / 2 - 1]) <= 0;
    }
  }

  /** Element i is in place: the heap is in order. */
  lemma FloatDone<T(!new)>(cmp: (T, T) -> int, s: seq<T>, lo: nat, i: nat, cnt: nat)
    requires Floating(cmp, s, lo, i, cnt) && i <= cnt && ChildrenBelow(cmp, s, i, i, cnt)
    ensures HeapFrom(cmp, s, lo, cnt)
  {
    forall c | 2 * lo <= c <= cnt ensures cmp(s[c - 1], s[c / 2 - 1]) <= 0 {
      if c / 2 == i { assert 2 * i <= c <= 2 * i + 1; }
    }
  }

  method DoSwap<T>(a: array<T>, aIdx: nat, bIdx: nat)
    requires 1 <= aIdx <= a.Length && 1 <= bIdx <= a.Length
    modifies a
    ensures a[..] == Swapped(old(a[..]), aIdx - 1, bIdx - 1)
  {
    a[aIdx - 1], a[bIdx - 1] := a[bIdx - 1], a[aIdx - 1];
  }

  /** The largest of element i and its children. */
  method Largest<T(!new)>(cmp: (T, T) -> int, a: array<T>, i: nat, cnt: nat) returns (max: nat)
    requires Orders(cmp) && 1 <= i <= cnt <= a.Length
    ensures max == i || (2 * i <= max <= 2 * i + 1 && max <= cnt && cmp(a[max - 1], a[i - 1]) > 0)
    ensures 1 <= max <= cnt && ChildrenBelow(cmp, a[..], i, max, cnt)
  {
    var left, right := 2 * i, 2 * i + 1;
    max := i;
    if left <= cnt && cmp(a[left - 1], a[max - 1]) > 0 { max := left; }
    if right <= cnt && cmp(a[right - 1], a[max - 1]) > 0 { max := right; }
  }

  /** heapify: makes a heap of a subtree whose children are heaps, by rearranging the first cnt elements. */
  method Heapify<T(!new)>(cmp: (T, T) -> int, a: array<T>, i0: nat, cnt: nat)
    requires Orders(cmp) && 1 <= i0 <= cnt <= a.Length && HeapFrom(cmp, a[..], i0 + 1, cnt)
    modifies a
    ensures HeapFrom(cmp, a[..], i0, cnt) && Rearranged(old(a[..]), a[..], cnt)
  {
    var i := i0;
    hide Orders, Rearranged, Floating, HeapFrom, ChildrenBelow, Swapped;
    StartFloat(cmp, a[..], i0, cnt);
    while true
      invariant i0 <= i <= cnt && Floating(cmp, a[..], i0, i, cnt) && Rearranged(old(a[..]), a[..], cnt)
      decreases cnt - i
    {
      var max := Largest(cmp, a, i, cnt);
      if max == i { break; }
      FloatStep(cmp, a[..], i0, i, max, cnt);
      SwapRearranges(a[..], i - 1, max - 1, cnt);
      RearrangedTwice(old(a[..]), a[..], Swapped(a[..], i - 1, max - 1), cnt);
      DoSwap(a, i, max);
      i := max;
    }
    FloatDone(cmp, a[..], i0, i, cnt);
  }

  lemma StartFloat<T(!new)>(cmp: (T, T) -> int, s: seq<T>, i0: nat, cnt: nat)
    requires 1 <= i0 <= cnt <= |s| && HeapFrom(cmp, s, i0 + 1, cnt)
    ensures Floating(cmp, s, i0, i0, cnt) && Rearranged(s, s, cnt)
  {
    forall c | 2 * i0 <= c <= cnt && c / 2 != i0 ensures cmp(s[c - 1], s[c / 2 - 1]) <= 0 {
      assert 2 * (i0 + 1) <= c;
    }
  }

  // ---- sort ----

  /** The root of a heap is not below any of its elements. */
  lemma {:induction false} RootIsLargest<T(!new)>(cmp: (T, T) -> int, s: seq<T>, cnt: nat, k: nat)
    requires Orders(cmp) && HeapFrom(cmp, s, 1, cnt) && 1 <= k <= cnt
    ensures cmp(s[k - 1], s[0]) <= 0
    decreases k
  {
    if k > 1 {
      RootIsLargest(cmp, s, cnt, k / 2);
      assert cmp(s[k - 1], s[k / 2 - 1]) <= 0;
    }
  }

  /** Sorted from n on, and nothing before n is above anything from n on. */
  ghost predicate Tail<T(!new)>(cmp: (T, T) -> int, s: seq<T>, n: nat) {
    n <= |s| && Sorted(cmp, s[n..]) && forall i, j | 0 <= i < n <= j < |s| :: cmp(s[i], s[j]) <= 0
  }

  /** The root of the heap goes to the front of the tail. */
  lemma TailGrows<T(!new)>(cmp: (T, T) -> int, s: seq<T>, n: nat)
    requires Orders(cmp) && 1 < n <= |s| && HeapFrom(cmp, s, 1, n) && Tail(cmp, s, n)
    ensures Tail(cmp, Swapped(s, 0, n - 1), n - 1)
  {
    hide Orders;
    var t := Swapped(s, 0, n - 1);
    forall i, j | 0 <= i < n - 1 <= j < |t| ensures cmp(t[i], t[j]) <= 0 { BelowTail(cmp, s, n, i, j); }
    forall i, j | n - 1 <= i < j < |t| ensures cmp(t[i], t[j]) <= 0 { InTail(cmp, s, n, i, j); }
    var u := t[n - 1..];
    forall i, j | 0 <= i < j < |u| ensures cmp(u[i], u[j]) <= 0 { assert u[i] == t[n - 1 + i] && u[j] == t[n - 1 + j]; }
  }

  lemma BelowTail<T(!new)>(cmp: (T, T) -> int, s: seq<T>, n: nat, i: nat, j: nat)
    requires Orders(cmp) && 1 < n <= |s| && HeapFrom(cmp, s, 1, n) && Tail(cmp, s, n) && i < n - 1 <= j < |s|
    ensures var t := Swapped(s, 0, n - 1); cmp(t[i], t[j]) <= 0
  {
    RootIsLargest(cmp, s, n, n);
    RootIsLargest(cmp, s, n, i + 1);
    hide Orders, HeapFrom;
    if j >= n { assert cmp(s[n - 1], s[j]) <= 0 && cmp(s[i], s[j]) <= 0; }
  }

  lemma InTail<T(!new)>(cmp: (T, T) -> int, s: seq<T>, n: nat, i: nat, j: nat)
    requires 1 < n <= |s| && Tail(cmp, s, n) && n - 1 <= i < j < |s|
    ensures var t := Swapped(s, 0, n - 1); cmp(t[i], t[j]) <= 0
  {
    if i == n - 1 { assert cmp(s[0], s[j]) <= 0; } else { assert cmp(s[n..][i - n], s[n..][j - n]) <= 0; }
  }

  /** Rearranging the front keeps the tail. */
  lemma TailKept<T(!new)>(cmp: (T, T) -> int, s: seq<T>, t: seq<T>, n: nat)
    requires Tail(cmp, s, n) && Rearranged(s, t, n)
    ensures Tail(cmp, t, n)
  {
    forall i, j | 0 <= i < n <= j < |t| ensures cmp(t[i], t[j]) <= 0 {
      assert t[..n][i] in multiset(t[..n]);
      assert t[i] in multiset(s[..n]);
      var k :| 0 <= k < n && s[..n][k] == t[i];
      assert s[n..][j - n] == t[n..][j - n];
      assert cmp(s[k], s[j]) <= 0;
    }
  }

  /** What was a heap but for its last element is one below the root, after the root was replaced. */
  lemma HeapBelowRoot<T(!new)>(cmp: (T, T) -> int, s: seq<T>, n: nat)
    requires 1 < n <= |s| && HeapFrom(cmp, s, 1, n)
    ensures HeapFrom(cmp, Swapped(s, 0, n - 1), 2, n - 1)
  {
    var t := Swapped(s, 0, n - 1);
    forall c | 4 <= c <= n - 1 ensures cmp(t[c - 1], t[c / 2 - 1]) <= 0 {
      assert cmp(s[c - 1], s[c / 2 - 1]) <= 0;
    }
  }

  lemma SortedWhenTail<T(!new)>(cmp: (T, T) -> int, s: seq<T>, n: nat)
    requires Tail(cmp, s, n) && n <= 1
    ensures Sorted(cmp, s)
  {
    forall i, j | 0 <= i < j < |s| ensures cmp(s[i], s[j]) <= 0 {
      if i >= n { assert cmp(s[n..][i - n], s[n..][j - n]) <= 0; }
    }
  }

  /** sort: leaves the array in order, and a permutation of what it was, for every comparison that orders the
      values. */
  method Sort<T(!new)>(cmp: (T, T) -> int, a: array<T>)
    requires Orders(cmp)
    modifies a
    ensures Sorted(cmp, a[..]) && multiset(a[..]) == multiset(old(a[..]))
  {
    var n := a.Length;
    BuildHeap(cmp, a);
    var i := n;
    hide Orders, Rearranged, Tail, HeapFrom;
    StartTail(cmp, a[..]);
    while i > 1
      invariant 0 <= i <= n && HeapFrom(cmp, a[..], 1, i) && Tail(cmp, a[..], i) && Rearranged(old(a[..]), a[..], n)
      invariant n > 0 ==> i > 0
    {
      SortStep(cmp, a, i, old(a[..]));
      i := i - 1;
    }
    SortedWhenTail(cmp, a[..], i);
    AllRearranged(old(a[..]), a[..]);
  }

  lemma StartTail<T(!new)>(cmp: (T, T) -> int, s: seq<T>)
    ensures Tail(cmp, s, |s|)
  {
  }

  lemma AllRearranged<T>(s: seq<T>, t: seq<T>)
    requires Rearranged(s, t, |s|)
    ensures multiset(s) == multiset(t)
  {
    assert s[..|s|] == s && t[..|s|] == t;
  }

  /** The first loop of sort. */
  method BuildHeap<T(!new)>(cmp: (T, T) -> int, a: array<T>)
    requires Orders(cmp)
    modifies a
    ensures HeapFrom(cmp, a[..], 1, a.Length) && Rearranged(old(a[..]), a[..], a.Length)
  {
    var n := a.Length;
    var i := n / 2;
    while i > 0
      invariant 0 <= i <= n / 2 && HeapFrom(cmp, a[..], i + 1, n) && Rearranged(old(a[..]), a[..], n)
    {
      hide Orders, HeapFrom, Rearranged;
      ghost var before := a[..];
      Heapify(cmp, a, i, n);
      RearrangedTwice(old(a[..]), before, a[..], n);
      i := i - 1;
    }
  }

  /** One turn of the second loop. */
  method SortStep<T(!new)>(cmp: (T, T) -> int, a: array<T>, i: nat, ghost start: seq<T>)
    requires Orders(cmp) && 1 < i <= a.Length && HeapFrom(cmp, a[..], 1, i) && Tail(cmp, a[..], i)
    requires Rearranged(start, a[..], a.Length)
    modifies a
    ensures HeapFrom(cmp, a[..], 1, i - 1) && Tail(cmp, a[..], i - 1) && Rearranged(start, a[..], a.Length)
  {
    hide Orders, HeapFrom, Rearranged, Tail;
    ghost var s := a[..];
    TailGrows(cmp, s, i);
    HeapBelowRoot(cmp, s, i);
    SwapRearranges(s, 0, i - 1, |s|);
    DoSwap(a, 1, i);
    ghost var t := a[..];
    Heapify(cmp, a, 1, i - 1);
    TailKept(cmp, t, a[..], i - 1);
    RearrangedMore(t, a[..], i - 1, |s|);
    RearrangedTwice(start, s, t, |s|);
    RearrangedTwice(start, t, a[..], |s|);
  }

  // ---- binary_search ----

  /** The place of an element equal to the key, exactly if there is one in the sorted array. */
  method BinarySearch<T(!new)>(cmp: (T, T) -> int, key: T, a: array<T>) returns (r: Option<nat>)
    requires Orders(cmp) && Sorted(cmp, a[..])
    ensures r.Some? ==> r.value < a.Length && cmp(key, a[r.value]) == 0
    ensures r.None? ==> forall k | 0 <= k < a.Length :: cmp(key, a[k]) != 0
  {
    var first, last := 0, a.Length;
    while first < last
      invariant 0 <= first <= last <= a.Length
      invariant forall k | 0 <= k < first :: cmp(key, a[k]) > 0
      invariant forall k | last <= k < a.Length :: cmp(key, a[k]) < 0
    {
      var range := last - first;
      var middle := first + range / 2;
      var c := cmp(key, a[middle]);
      if c < 0 {
        forall k | middle <= k < last ensures cmp(key, a[k]) < 0 { Beyond(cmp, key, a[..], middle, k); }
        last := middle;
      } else if c > 0 {
        forall k | first <= k <= middle ensures cmp(key, a[k]) > 0 { Before(cmp, key, a[..], k, middle); }
        first := middle + 1;
      } else {
        return Some(middle);
      }
    }
    r := None;
  }

  lemma Beyond<T(!new)>(cmp: (T, T) -> int, key: T, s: seq<T>, m: nat, k: nat)
    requires Orders(cmp) && Sorted(cmp, s) && m <= k < |s| && cmp(key, s[m]) < 0
    ensures cmp(key, s[k]) < 0
  {
    Opposite(cmp, key, s[k]);
    Opposite(cmp, key, s[m]);
    Transitive(cmp, s[m], s[k], key);
    assert m < k ==> cmp(s[m], s[k]) <= 0;
  }

  lemma Before<T(!new)>(cmp: (T, T) -> int, key: T, s: seq<T>, k: nat, m: nat)
    requires Orders(cmp) && Sorted(cmp, s) && k <= m < |s| && cmp(key, s[m]) > 0
    ensures cmp(key, s[k]) > 0
  {
    Transitive(cmp, key, s[k], s[m]);
    assert k < m ==> cmp(s[k], s[m]) <= 0;
  }

  // ---- elements in bytes ----

  /** do_swap on the bytes, for elements of `size` bytes at a and b: the two change places, and no other byte
      changes. */
  method SwapBytes(bytes: array<Byte>, a: nat, b: nat, size: nat)
    requires a + size <= bytes.Length && b + size <= bytes.Length && (a == b || a + size <= b || b + size <= a)
    modifies bytes
    ensures forall k | 0 <= k < bytes.Length ::
      bytes[k] == if a <= k < a + size then old(bytes[b + (k - a)])
                  else if b <= k < b + size then old(bytes[a + (k - b)]) else old(bytes[k])
  {
    var i := 0;
    while i < size
      invariant 0 <= i <= size
      invariant forall k | 0 <= k < bytes.Length ::
        bytes[k] == if a <= k < a + i then old(bytes[b + (k - a)])
                    else if b <= k < b + i then old(bytes[a + (k - b)]) else old(bytes[k])
    {
      var t := bytes[a + i];
      bytes[a + i] := bytes[b + i];
      bytes[b + i] := t;
      i := i + 1;
    }
  }
}
