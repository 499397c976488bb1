/** The kernel's ordered lists (lib/kernel/list.c), as sequences of thread numbers ordered by
    a key: ready and waiter lists by descending priority, the sleep list by ascending wake-up
    time. */
module OrderedList {
  type Tid = int

  datatype Order = HighestFirst | EarliestFirst

  /** The comparison passed to the list functions: does key `a` belong before key `b`? */
  predicate Less(o: Order, a: int, b: int) {
    match o
    case HighestFirst => a > b
    case EarliestFirst => a < b
  }

  function KeyOf(key: map<Tid, int>, t: Tid): int {
    if t in key then key[t] else 0
  }

  predicate Before(o: Order, key: map<Tid, int>, a: Tid, b: Tid) {
    Less(o, KeyOf(key, a), KeyOf(key, b))
  }

  ghost predicate Sorted(o: Order, s: seq<Tid>, key: map<Tid, int>) {
    forall i, j | 0 <= i < j < |s| :: !Before(o, key, s[j], s[i])
  }

  /** How often `t` stands on the list. */
  function Count(s: seq<Tid>, t: Tid): nat {
    multiset(s)[t]
  }

  function InsertOrdered(o: Order, s: seq<Tid>, x: Tid, key: map<Tid, int>): (r: seq<Tid>)
    ensures |r| == |s| + 1
  {
    if s == [] || Before(o, key, x, s[0]) then [x] + s
    else [s[0]] + InsertOrdered(o, s[1..], x, key)
  }

  /** What list_sort gives: module MergeSort has its loops. */
  function StableSort(o: Order, s: seq<Tid>, key: map<Tid, int>): (r: seq<Tid>)
    ensures |r| == |s|
  {
    if s == [] then [] else
      InsertOrdered(o, StableSort(o, s[..|s| - 1], key), s[|s| - 1], key)
  }

  lemma {:induction false} InsertCounts(o: Order, s: seq<Tid>, x: Tid, key: map<Tid, int>)
    ensures multiset(InsertOrdered(o, s, x, key)) == multiset(s) + multiset{x}
  {
    if s == [] || Before(o, key, x, s[0]) {
    } else {
      InsertCounts(o, s[1..], x, key);
      assert s == [s[0]] + s[1..];
    }
  }

  lemma InsertCount(o: Order, s: seq<Tid>, x: Tid, key: map<Tid, int>, t: Tid)
    ensures Count(InsertOrdered(o, s, x, key), t) == Count(s, t) + (if t == x then 1 else 0)
  {
    InsertCounts(o, s, x, key);
  }

  /** Inserting keeps a list sorted and puts the new element behind every equal one. */
  lemma {:induction false} InsertSorts(o: Order, s: seq<Tid>, x: Tid, key: map<Tid, int>)
    requires Sorted(o, s, key)
    ensures Sorted(o, InsertOrdered(o, s, x, key), key)
  {
    if s == [] {
    } else if Before(o, key, x, s[0]) {
    } else {
      var r := InsertOrdered(o, s[1..], x, key);
      InsertSorts(o, s[1..], x, key);
      InsertCounts(o, s[1..], x, key);
      forall j | 0 <= j < |r| ensures !Before(o, key, r[j], s[0]) {
        assert r[j] in multiset(r);
        assert r[j] == x || r[j] in s[1..];
      }
    }
  }

  lemma {:induction false} SortCounts(o: Order, s: seq<Tid>, key: map<Tid, int>)
    ensures multiset(StableSort(o, s, key)) == multiset(s)
  {
    if s != [] {
      SortCounts(o, s[..|s| - 1], key);
      InsertCounts(o, StableSort(o, s[..|s| - 1], key), s[|s| - 1], key);
      assert s == s[..|s| - 1] + [s[|s| - 1]];
    }
  }

  /** The first element of a sorted list is in front of all; taking it off leaves the others. */
  lemma HeadOfSorted(o: Order, s: seq<Tid>, key: map<Tid, int>)
    requires s != []
    ensures var r := StableSort(o, s, key);
      && (forall t :: Count(r[1..], t) == Count(s, t) - (if t == r[0] then 1 else 0))
      && Count(s, r[0]) > 0
      && (forall t | Count(s, t) > 0 :: !Before(o, key, t, r[0]))
  {
    var r := StableSort(o, s, key);
    SortCounts(o, s, key);
    SortSorts(o, s, key);
    assert r == [r[0]] + r[1..];
    forall t | Count(s, t) > 0 ensures !Before(o, key, t, r[0]) {
      assert t in multiset(r);
    }
  }

  lemma {:induction false} SortSorts(o: Order, s: seq<Tid>, key: map<Tid, int>)
    ensures Sorted(o, StableSort(o, s, key), key)
  {
    if s != [] {
      SortSorts(o, s[..|s| - 1], key);
      InsertSorts(o, StableSort(o, s[..|s| - 1], key), s[|s| - 1], key);
    }
  }

  /** list_insert_ordered: walk to the first element the new one belongs before. */
  method ListInsertOrdered(o: Order, s: seq<Tid>, x: Tid, key: map<Tid, int>) returns (r: seq<Tid>)
    ensures r == InsertOrdered(o, s, x, key)
  {
    hide InsertOrdered;
    var e := 0;
    assert s[0..] == s;
    while e < |s| && !Before(o, key, x, s[e])
      invariant 0 <= e <= |s|
      invariant InsertOrdered(o, s, x, key) == s[..e] + InsertOrdered(o, s[e..], x, key)
    {
      InsertStep(o, s, x, key, e);
      assert s[..e + 1] == s[..e] + [s[e]];
      e := e + 1;
    }
    r := s[..e] + [x] + s[e..];
    InsertStep(o, s, x, key, e);
  }

  lemma InsertStep(o: Order, s: seq<Tid>, x: Tid, key: map<Tid, int>, e: nat)
    requires e <= |s|
    ensures InsertOrdered(o, s[e..], x, key) ==
      if e == |s| || Before(o, key, x, s[e]) then [x] + s[e..] else [s[e]] + InsertOrdered(o, s[e + 1..], x, key)
  {
    hide Before;
    if e < |s| {
      assert s[e..][0] == s[e];
      assert s[e..][1..] == s[e + 1..];
    }
  }
}
