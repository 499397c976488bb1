/** list_sort (lib/kernel/list.c), which merges natural runs of the list, pass by pass: it sorts, and is stable. */
module MergeSort {
  import opened OrderedList

  type Key = map<Tid, int>

  /** is_sorted: the elements from lo up to hi are in order. */
  ghost predicate Run(o: Order, s: seq<Tid>, key: Key, lo: int, hi: int)
    requires 0 <= lo <= hi <= |s|
  {
    forall i, j | lo <= i < j < hi :: !Before(o, key, s[j], s[i])
  }

  // ---- what does not change the sorted list ----

  lemma {:induction false} InsertsCommute(o: Order, s: seq<Tid>, x: Tid, y: Tid, key: Key)
    requires Before(o, key, y, x)
    ensures InsertOrdered(o, InsertOrdered(o, s, x, key), y, key)
      == InsertOrdered(o, InsertOrdered(o, s, y, key), x, key)
  {
    if s != [] {
      InsertsCommute(o, s[1..], x, y, key);
    }
  }

  lemma {:induction false} SameAfter(o: Order, s: seq<Tid>, s': seq<Tid>, more: seq<Tid>, key: Key)
    requires StableSort(o, s, key) == StableSort(o, s', key)
    ensures StableSort(o, s + more, key) == StableSort(o, s' + more, key)
  {
    if more == [] {
      assert s + more == s && s' + more == s';
    } else {
      var n := |more| - 1;
      SameAfter(o, s, s', more[..n], key);
      assert (s + more)[..|s| + n] == s + more[..n] && (s' + more)[..|s'| + n] == s' + more[..n];
    }
  }

  lemma MoveOne(o: Order, front: seq<Tid>, y: Tid, x: Tid, back: seq<Tid>, key: Key)
    requires Before(o, key, x, y)
    ensures StableSort(o, front + [y] + [x] + back, key) == StableSort(o, front + [x] + [y] + back, key)
  {
    hide StableSort, InsertOrdered, Before;
    AddTwo(o, front, y, x, key);
    InsertsCommute(o, StableSort(o, front, key), y, x, key);
    AddTwo(o, front, x, y, key);
    SameAfter(o, front + [y] + [x], front + [x] + [y], back, key);
  }

  /** An element may change places with those in front of it that it belongs before. */
  lemma {:induction false} MoveForward(o: Order, front: seq<Tid>, block: seq<Tid>, x: Tid, back: seq<Tid>, key: Key)
    requires forall i | 0 <= i < |block| :: Before(o, key, x, block[i])
    ensures StableSort(o, front + block + [x] + back, key) == StableSort(o, front + [x] + block + back, key)
  {
    if block == [] {
      assert front + block + [x] == front + [x] + block;
    } else {
      var n := |block| - 1;
      var (rest, y) := (block[..n], block[n]);
      assert block == rest + [y];
      hide StableSort, Before;
      MoveOne(o, front + rest, y, x, back, key);
      assert front + block + [x] + back == front + rest + [y] + [x] + back;
      MoveForward(o, front, rest, x, [y] + back, key);
      assert front + rest + [x] + [y] + back == front + rest + [x] + ([y] + back);
      assert front + [x] + block + back == front + [x] + rest + ([y] + back);
    }
  }

  lemma AddTwo(o: Order, s: seq<Tid>, x: Tid, y: Tid, key: Key)
    ensures StableSort(o, s + [x] + [y], key)
      == InsertOrdered(o, InsertOrdered(o, StableSort(o, s, key), x, key), y, key)
  {
    var t := s + [x];
    assert t[..|t| - 1] == s && (t + [y])[..|t|] == t;
  }

  lemma {:induction false} InsertLast(o: Order, s: seq<Tid>, x: Tid, key: Key)
    requires forall i | 0 <= i < |s| :: !Before(o, key, x, s[i])
    ensures InsertOrdered(o, s, x, key) == s + [x]
  {
    if s != [] {
      InsertLast(o, s[1..], x, key);
    }
  }

  /** A list that is in order is its own sorted list. */
  lemma {:induction false} SortedStays(o: Order, s: seq<Tid>, key: Key)
    requires Run(o, s, key, 0, |s|)
    ensures StableSort(o, s, key) == s
  {
    if s != [] {
      var n := |s| - 1;
      SortedStays(o, s[..n], key);
      InsertLast(o, s[..n], s[n], key);
      assert s == s[..n] + [s[n]];
    }
  }

  // ---- how many runs are left ----

  /** How many elements belong before the one in front of them. */
  function Descents(o: Order, s: seq<Tid>, key: Key): (n: nat)
  {
    if |s| < 2 then 0
    else Descents(o, s[..|s| - 1], key) + if Before(o, key, s[|s| - 1], s[|s| - 2]) then 1 else 0
  }

  /** A run adds a descent at its start, if there is one, and no other. */
  lemma {:induction false} DescentsOver(o: Order, s: seq<Tid>, key: Key, lo: int, hi: int)
    requires 0 <= lo < hi <= |s| && Run(o, s, key, lo, hi)
    ensures Descents(o, s[..hi], key)
      == Descents(o, s[..lo], key) + if lo > 0 && Before(o, key, s[lo], s[lo - 1]) then 1 else 0
  {
    assert s[..hi][..hi - 1] == s[..hi - 1];
    if lo < hi - 1 {
      DescentsOver(o, s, key, lo, hi - 1);
    }
  }

  lemma {:induction false} NoDescents(o: Order, s: seq<Tid>, key: Key)
    requires Descents(o, s, key) == 0
    ensures Run(o, s, key, 0, |s|)
  {
    if |s| > 1 {
      var n := |s| - 1;
      NoDescents(o, s[..n], key);
      forall i | 0 <= i < n ensures !Before(o, key, s[n], s[i]) {
        assert i < n - 1 ==> !Before(o, key, s[..n][n - 1], s[..n][i]);
      }
      forall i, j | 0 <= i < j < |s| ensures !Before(o, key, s[j], s[i]) {
        assert j < n ==> s[j] == s[..n][j] && s[i] == s[..n][i];
      }
    }
  }

  // ---- the loops ----

  /** find_end_of_run. */
  method FindEndOfRun(o: Order, s: seq<Tid>, key: Key, a: int, b: int) returns (e: int)
    requires 0 <= a < b <= |s|
    ensures a < e <= b && Run(o, s, key, a, e) && (e < b ==> Before(o, key, s[e], s[e - 1]))
  {
    e := a + 1;
    while e != b && !Before(o, key, s[e], s[e - 1])
      invariant a < e <= b && Run(o, s, key, a, e)
    {
      e := e + 1;
    }
  }

  /** inplace_merge: an element of the second run that belongs before one of the first is spliced in there. */
  method InplaceMerge(o: Order, s0: seq<Tid>, key: Key, lo: int, mid: int, b1: int) returns (s: seq<Tid>)
    requires 0 <= lo < mid < b1 <= |s0| && Run(o, s0, key, lo, mid) && Run(o, s0, key, mid, b1)
    ensures |s| == |s0| && s[..lo] == s0[..lo] && s[b1..] == s0[b1..] && Run(o, s, key, lo, b1)
    ensures StableSort(o, s, key) == StableSort(o, s0, key)
  {
    hide StableSort;
    s := s0;
    var a0, a1b0 := lo, mid;
    while a0 != a1b0 && a1b0 != b1
      invariant lo <= a0 <= a1b0 <= b1 && |s| == |s0| && s[..lo] == s0[..lo] && s[b1..] == s0[b1..]
      invariant Run(o, s, key, lo, a1b0) && Run(o, s, key, a1b0, b1)
      invariant forall i, j | lo <= i < a0 && a1b0 <= j < b1 :: !Before(o, key, s[j], s[i])
      invariant StableSort(o, s, key) == StableSort(o, s0, key)
      decreases b1 - a0
    {
      if Before(o, key, s[a1b0], s[a0]) {
        Splice(o, s, key, a0, a1b0);
        s := s[..a0] + [s[a1b0]] + s[a0..a1b0] + s[a1b0 + 1..];
        a1b0 := a1b0 + 1;
      }
      a0 := a0 + 1;
    }
  }

  lemma Splice(o: Order, s: seq<Tid>, key: Key, a: int, m: int)
    requires 0 <= a < m < |s| && Run(o, s, key, a, m) && Before(o, key, s[m], s[a])
    ensures StableSort(o, s[..a] + [s[m]] + s[a..m] + s[m + 1..], key) == StableSort(o, s, key)
  {
    hide StableSort;
    forall i | 0 <= i < m - a ensures Before(o, key, s[m], s[a..m][i]) {
      assert i > 0 ==> !Before(o, key, s[a + i], s[a]);
    }
    MoveForward(o, s[..a], s[a..m], s[m], s[m + 1..], key);
    assert s == s[..a] + s[a..m] + [s[m]] + s[m + 1..];
  }

  /** One pass of the outer loop: adjacent runs are merged in pairs. */
  method MergePass(o: Order, s0: seq<Tid>, key: Key) returns (s: seq<Tid>, runs: nat)
    ensures StableSort(o, s, key) == StableSort(o, s0, key)
    ensures if runs > 1 then Descents(o, s, key) < Descents(o, s0, key) else Descents(o, s, key) == 0
  {
    hide StableSort, Descents, Run, Before;
    s, runs := s0, 0;
    var a0 := 0;
    NoneYet(o, s0, key);
    while a0 != |s|
      invariant 0 <= a0 <= |s| == |s0| && s[a0..] == s0[a0..] && (runs == 0 <==> a0 == 0)
      invariant StableSort(o, s, key) == StableSort(o, s0, key)
      invariant 0 < a0 < |s| ==> Before(o, key, s0[a0], s0[a0 - 1])
      invariant if runs == 0 then Descents(o, s[..a0], key) == 0 else Descents(o, s[..a0], key) < runs
      invariant Descents(o, s0[..a0], key) >= 2 * runs - 1
      decreases |s| - a0
    {
      runs := runs + 1;
      var a1b0 := FindEndOfRun(o, s, key, a0, |s|);
      DescentsOver(o, s, key, a0, a1b0);
      SameRun(o, s, s0, key, a0, a1b0);
      DescentsOver(o, s0, key, a0, a1b0);
      if a1b0 == |s| { break; }
      var b1 := FindEndOfRun(o, s, key, a1b0, |s|);
      SameRun(o, s, s0, key, a1b0, b1);
      DescentsOver(o, s0, key, a1b0, b1);
      s := InplaceMerge(o, s, key, a0, a1b0, b1);
      DescentsOver(o, s, key, a0, b1);
      a0 := b1;
    }
    assert s[..|s|] == s && s0[..|s|] == s0;
  }

  lemma NoneYet(o: Order, s: seq<Tid>, key: Key)
    ensures Descents(o, s[..0], key) == 0
  {
  }

  lemma SameRun(o: Order, s: seq<Tid>, s': seq<Tid>, key: Key, lo: int, hi: int)
    requires 0 <= lo <= hi <= |s| == |s'| && s[lo..] == s'[lo..] && Run(o, s, key, lo, hi)
    ensures Run(o, s', key, lo, hi)
    ensures forall i | lo <= i < |s| :: s'[i] == s[i]
  {
    forall i | lo <= i < |s| ensures s'[i] == s[i] { assert s[lo..][i - lo] == s'[lo..][i - lo]; }
  }

  /** list_sort: passes until one run is left. */
  method ListSort(o: Order, s0: seq<Tid>, key: Key) returns (s: seq<Tid>)
    ensures s == StableSort(o, s0, key)
  {
    hide StableSort, Descents, Run;
    var runs;
    s, runs := MergePass(o, s0, key);
    while runs > 1
      invariant StableSort(o, s, key) == StableSort(o, s0, key) && (runs <= 1 ==> Descents(o, s, key) == 0)
      decreases Descents(o, s, key), runs
    {
      s, runs := MergePass(o, s, key);
    }
    NoDescents(o, s, key);
    SortedStays(o, s, key);
  }
}
