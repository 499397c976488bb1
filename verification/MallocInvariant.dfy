/** What every sequence of allocator operations keeps. */
module MallocInvariant {
  import opened Options
  import opened Palloc
  import opened Malloc

  // ---- lists and memory ----

  function Count(s: seq<Addr>, a: Addr): nat { multiset(s)[a] }

  lemma {:induction false} RemoveOneCount(s: seq<Addr>, a: Addr, x: Addr)
    ensures Count(RemoveOne(s, a), x) == if x == a && Count(s, x) > 0 then Count(s, x) - 1 else Count(s, x)
  {
    if s != [] {
      RemoveOneCount(s[1..], a, x);
      assert s == [s[0]] + s[1..];
    }
  }

  lemma {:induction false} RemoveAllCount(s: seq<Addr>, bs: seq<Addr>, x: Addr)
    ensures Count(RemoveAll(s, bs), x) == if Count(s, x) >= Count(bs, x) then Count(s, x) - Count(bs, x) else 0
    decreases |bs|
  {
    hide RemoveOne;
    if bs != [] {
      RemoveOneCount(s, bs[0], x);
      RemoveAllCount(RemoveOne(s, bs[0]), bs[1..], x);
      assert bs == [bs[0]] + bs[1..];
    }
  }

  lemma BlockIs(p: int, d: int, i: int, a: Addr)
    requires 0 <= d < DESC_CNT && 0 <= i < PerArena(d)
    ensures a == BlockAt(p, d, i) <==> PageOf(a) == p && Aligned(a, d) && IndexOf(a, d) == i
  {
    BlockAddresses(p, d, i);
    if PageOf(a) == p && Aligned(a, d) { AlignedAddress(a, d); }
  }

  lemma {:induction false} BlocksCount(p: int, d: int, i: int, a: Addr)
    requires 0 <= d < DESC_CNT && 0 <= i <= PerArena(d)
    ensures Count(BlocksFrom(p, d, i), a) == if PageOf(a) == p && Aligned(a, d) && IndexOf(a, d) >= i then 1 else 0
    decreases PerArena(d) - i
  {
    if i < PerArena(d) {
      BlocksCount(p, d, i + 1, a);
      BlockIs(p, d, i, a);
      hide PageOf, IndexOf, Aligned, BlockAt, PerArena;
    } else if PageOf(a) == p && Aligned(a, d) {
      AlignedAddress(a, d);
    }
  }

  lemma {:induction false} FillBytes(mem: map<int, int>, a: Addr, n: int, v: int, x: Addr)
    ensures ByteAt(Fill(mem, a, n, v), x) == if a <= x < a + n then v else ByteAt(mem, x)
    decreases n
  {
    if n > 0 {
      FillBytes(mem[a := v], a + 1, n - 1, v, x);
    }
  }

  lemma {:induction false} CopyBytes(mem: map<int, int>, dst: Addr, src: Addr, n: int, x: Addr)
    requires src + n <= dst || dst + n <= src
    ensures ByteAt(Copy(mem, dst, src, n), x)
      == if dst <= x < dst + n then ByteAt(mem, src + (x - dst)) else ByteAt(mem, x)
    decreases n
  {
    if n > 0 {
      CopyBytes(mem[dst := ByteAt(mem, src)], dst + 1, src + 1, n - 1, x);
    }
  }

  // ---- pages ----

  type Arenas = map<int, Arena>

  ghost predicate InArena(arenas: Arenas, p: int, n: int) {
    p in arenas && p <= n < p + PagesOf(arenas[p])
  }

  /** Every arena has a page; no two arenas share one; no other user of the pool has one; and the pages in
      use are those of the arenas and of the other users. */
  ghost predicate PagesOk(arenas: Arenas, kernel: Pool, foreign: set<int>) {
    && (forall p | p in arenas :: InArena(arenas, p, p))
    && (forall p, q, n :: InArena(arenas, p, n) && InArena(arenas, q, n) ==> p == q)
    && (forall p, n :: InArena(arenas, p, n) ==> n !in foreign && Used(kernel, n))
    && (forall n | Used(kernel, n) :: n in foreign || exists p :: InArena(arenas, p, n))
  }

  lemma PagesTake(arenas: Arenas, kernel: Pool, foreign: set<int>, cnt: nat, a: Arena)
    requires PagesOk(arenas, kernel, foreign) && Get(kernel, cnt).1.Some? && PagesOf(a) == cnt
    requires forall n | n in foreign :: Used(kernel, n)
    ensures var p := Get(kernel, cnt).1.value;
      p !in arenas && PagesOk(arenas[p := a], Get(kernel, cnt).0, foreign)
      && (forall n | n in foreign :: Used(Get(kernel, cnt).0, n))
  {
    hide Get;
    GetTakesFreePages(kernel, cnt);
    var kernel', p := Get(kernel, cnt).0, Get(kernel, cnt).1.value;
    var arenas' := arenas[p := a];
    assert !Used(kernel, p);
    assert p in arenas ==> InArena(arenas, p, p);
    assert forall q, n | q != p :: InArena(arenas', q, n) == InArena(arenas, q, n);
    assert forall n :: InArena(arenas', p, n) == (p <= n < p + cnt);
    forall n | Used(kernel', n) ensures n in foreign || exists q :: InArena(arenas', q, n) {
      if p <= n < p + cnt {
        assert InArena(arenas', p, n);
      } else if n !in foreign {
        var q :| InArena(arenas, q, n);
        assert InArena(arenas', q, n);
      }
    }
  }

  lemma PagesGive(arenas: Arenas, ps: Pools, foreign: set<int>, p: nat)
    requires PagesOk(arenas, ps.kernel, foreign) && p in arenas && Separate(ps)
    requires forall n | n in foreign :: Used(ps.kernel, n)
    ensures PagesOf(arenas[p]) > 0
    ensures var r := FreeMultiple(ps, p, PagesOf(arenas[p]));
      && r.Some? && r.value.user == ps.user && Separate(r.value)
      && PagesOk(arenas - {p}, r.value.kernel, foreign) && (forall n | n in foreign :: Used(r.value.kernel, n))
  {
    assert InArena(arenas, p, p);
    var cnt := PagesOf(arenas[p]);
    forall n | p <= n < p + cnt ensures Used(ps.kernel, n) { assert InArena(arenas, p, n); }
    assert Used(ps.kernel, p + cnt - 1);
    assert Owned(ps.kernel, p, cnt);
    var kernel' := Put(ps.kernel, p, cnt);
    assert forall n :: Used(kernel', n) == (Used(ps.kernel, n) && !(p <= n < p + cnt));
    var arenas' := arenas - {p};
    assert forall q, n :: InArena(arenas', q, n) == (q != p && InArena(arenas, q, n));
    forall n | Used(kernel', n) ensures n in foreign || exists q :: InArena(arenas', q, n) {
      if n !in foreign {
        var q :| InArena(arenas, q, n);
        assert InArena(arenas', q, n);
      }
    }
    forall q, n | InArena(arenas', q, n) ensures n !in foreign && Used(kernel', n) {
      assert InArena(arenas, q, n) && InArena(arenas, p, n) == (p <= n < p + cnt);
    }
    forall n | n in foreign ensures Used(kernel', n) {
      assert InArena(arenas, p, n) == (p <= n < p + cnt);
    }
  }

  // ---- blocks ----

  type Live = map<Addr, int>

  predicate DescOk(d: int) { 0 <= d < DESC_CNT }

  /** Address a is a block of an arena of descriptor d. */
  predicate IsBlock(arenas: Arenas, a: Addr, d: int)
    requires DescOk(d)
  {
    PageOf(a) in arenas && arenas[PageOf(a)].desc == Some(d) && Aligned(a, d)
  }

  /** Each free list holds exactly the blocks of its descriptor's arenas that are not given out, once each. */
  ghost predicate ListsOk(frees: seq<seq<Addr>>, arenas: Arenas, live: Live) {
    && |frees| == DESC_CNT
    && (forall d, a | 0 <= d < DESC_CNT :: Count(frees[d], a) == if IsBlock(arenas, a, d) && a !in live then 1 else 0)
  }

  /** A block that is given out lies in an arena, at a proper place, and is as large as was asked for, or
      the request was too large for 32-bit arithmetic. */
  ghost predicate LiveAt(arenas: Arenas, live: Live, a: Addr) {
    && PageOf(a) in arenas && a in live && 0 < live[a] < WORD
    && match arenas[PageOf(a)].desc
       case Some(d) => DescOk(d) && Aligned(a, d) && live[a] <= Size(d)
       case None =>
         OfsOf(a) == ARENA && (live[a] <= PGSIZE * arenas[PageOf(a)].freeCnt - ARENA <==> live[a] < WORD - 11)
  }

  ghost predicate LiveOk(arenas: Arenas, live: Live) {
    forall a | a in live :: LiveAt(arenas, live, a)
  }

  /** The numbers of the blocks of arena p that are given out. */
  ghost function LiveIn(live: Live, p: int, d: int): set<int>
    requires DescOk(d)
  {
    set i | 0 <= i < PerArena(d) && BlockAt(p, d, i) in live
  }

  /** Arena p counts its free blocks right, and but for those in `full` some block is given out. */
  ghost predicate ArenaAt(arenas: Arenas, live: Live, full: set<int>, p: int) {
    && p in arenas
    && match arenas[p].desc
       case Some(d) => DescOk(d) && arenas[p].freeCnt == PerArena(d) - |LiveIn(live, p,
           d)| && (p !in full ==> LiveIn(live, p, d) != {})
       case None => arenas[p].freeCnt >= 1 && p * PGSIZE + ARENA in live
  }

  ghost predicate ArenasOk(arenas: Arenas, live: Live, full: set<int>) {
    forall p | p in arenas :: ArenaAt(arenas, live, full, p)
  }

  lemma LiveInOther(live: Live, a: Addr, n: int, q: int, d: int)
    requires DescOk(d) && PageOf(a) != q
    ensures LiveIn(live[a := n], q, d) == LiveIn(live, q, d) && LiveIn(live - {a}, q, d) == LiveIn(live, q, d)
  {
    forall i | 0 <= i < PerArena(d) ensures BlockAt(q, d, i) != a { BlockAddresses(q, d, i); }
  }

  lemma LiveInAdd(live: Live, a: Addr, n: int, d: int)
    requires DescOk(d) && Aligned(a, d)
    ensures LiveIn(live[a := n], PageOf(a), d) == LiveIn(live, PageOf(a), d) + {IndexOf(a, d)}
    ensures LiveIn(live - {a}, PageOf(a), d) == LiveIn(live, PageOf(a), d) - {IndexOf(a, d)}
    ensures IndexOf(a, d) in LiveIn(live, PageOf(a), d) <==> a in live
  {
    AlignedAddress(a, d);
    forall i | 0 <= i < PerArena(d) && i != IndexOf(a, d) ensures BlockAt(PageOf(a), d, i) != a {
      BlockAddresses(PageOf(a), d, i);
    }
  }

  /** A change of an arena's count changes no block. */
  lemma ListsRecount(frees: seq<seq<Addr>>, arenas: Arenas, live: Live, p: int, cnt: int)
    requires ListsOk(frees, arenas, live) && p in arenas
    ensures ListsOk(frees, arenas[p := arenas[p].(freeCnt := cnt)], live)
  {
    var arenas' := arenas[p := arenas[p].(freeCnt := cnt)];
    forall d, a | 0 <= d < DESC_CNT ensures IsBlock(arenas', a, d) == IsBlock(arenas, a, d) {}
  }

  lemma PopLists(frees: seq<seq<Addr>>, arenas: Arenas, live: Live, d: int, n: int)
    requires ListsOk(frees, arenas, live) && DescOk(d) && frees[d] != []
    ensures IsBlock(arenas, frees[d][0], d) && frees[d][0] !in live
    ensures ListsOk(frees[d := frees[d][1..]], arenas, live[frees[d][0] := n])
  {
    var b := frees[d][0];
    assert frees[d] == [b] + frees[d][1..];
    assert Count(frees[d], b) > 0;
    var frees', live' := frees[d := frees[d][1..]], live[b := n];
    forall e, a | 0 <= e < DESC_CNT
      ensures Count(frees'[e], a) == if IsBlock(arenas, a, e) && a !in live' then 1 else 0
    {
      assert Count(frees[e], a) == if IsBlock(arenas, a, e) && a !in live then 1 else 0;
    }
  }

  lemma PushLists(frees: seq<seq<Addr>>, arenas: Arenas, live: Live, d: int, b: Addr)
    requires ListsOk(frees, arenas, live) && DescOk(d) && IsBlock(arenas, b, d) && b in live
    ensures ListsOk(frees[d := [b] + frees[d]], arenas, live - {b})
  {
    var frees', live' := frees[d := [b] + frees[d]], live - {b};
    forall e, a | 0 <= e < DESC_CNT
      ensures Count(frees'[e], a) == if IsBlock(arenas, a, e) && a !in live' then 1 else 0
    {
      assert Count(frees[e], a) == if IsBlock(arenas, a, e) && a !in live then 1 else 0;
    }
  }

  lemma NewArenaLists(frees: seq<seq<Addr>>, arenas: Arenas, live: Live, d: int, p: int)
    requires ListsOk(frees, arenas, live) && LiveOk(arenas, live) && DescOk(d) && p !in arenas
    ensures ListsOk(frees[d := frees[d] + BlocksFrom(p, d, 0)], arenas[p := Arena(Some(d), PerArena(d))], live)
  {
    hide BlocksFrom;
    var frees', arenas' := frees[d := frees[d] + BlocksFrom(p, d, 0)], arenas[p := Arena(Some(d), PerArena(d))];
    forall e, a | 0 <= e < DESC_CNT
      ensures Count(frees'[e], a) == if IsBlock(arenas', a, e) && a !in live then 1 else 0
    {
      assert Count(frees[e], a) == if IsBlock(arenas, a, e) && a !in live then 1 else 0;
      assert a in live ==> LiveAt(arenas, live, a);
      BlocksCount(p, d, 0, a);
      if Aligned(a, d) { AlignedAddress(a, d); }
    }
  }

  /** A big block's page is no place of a block. */
  lemma BigLists(frees: seq<seq<Addr>>, arenas: Arenas, live: Live, p: int, cnt: int, n: int)
    requires ListsOk(frees, arenas, live) && p !in arenas
    ensures ListsOk(frees, arenas[p := Arena(None, cnt)], live[p * PGSIZE + ARENA := n])
  {
    var arenas', live' := arenas[p := Arena(None, cnt)], live[p * PGSIZE + ARENA := n];
    forall d, a | 0 <= d < DESC_CNT
      ensures Count(frees[d], a) == if IsBlock(arenas', a, d) && a !in live' then 1 else 0
    {
      assert Count(frees[d], a) == if IsBlock(arenas, a, d) && a !in live then 1 else 0;
      assert PageOf(p * PGSIZE + ARENA) == p;
    }
  }

  lemma DropLists(frees: seq<seq<Addr>>, arenas: Arenas, live: Live, d: int, p: int)
    requires ListsOk(frees, arenas, live) && DescOk(d) && p in arenas && arenas[p].desc == Some(d)
    requires LiveIn(live, p, d) == {}
    ensures ListsOk(frees[d := RemoveAll(frees[d], BlocksFrom(p, d, 0))], arenas - {p}, live)
  {
    hide BlocksFrom, RemoveAll;
    var frees', arenas' := frees[d := RemoveAll(frees[d], BlocksFrom(p, d, 0))], arenas - {p};
    forall e, a | 0 <= e < DESC_CNT
      ensures Count(frees'[e], a) == if IsBlock(arenas', a, e) && a !in live then 1 else 0
    {
      assert Count(frees[e], a) == if IsBlock(arenas, a, e) && a !in live then 1 else 0;
      BlocksCount(p, d, 0, a);
      RemoveAllCount(frees[d], BlocksFrom(p, d, 0), a);
      if PageOf(a) == p && Aligned(a, d) {
        AlignedAddress(a, d);
        assert IndexOf(a, d) !in LiveIn(live, p, d);
      }
    }
  }

  lemma DropBigLists(frees: seq<seq<Addr>>, arenas: Arenas, live: Live, p: int)
    requires ListsOk(frees, arenas, live) && p in arenas && arenas[p].desc == None
    ensures ListsOk(frees, arenas - {p}, live - {p * PGSIZE + ARENA})
  {
    var arenas', live' := arenas - {p}, live - {p * PGSIZE + ARENA};
    forall d, a | 0 <= d < DESC_CNT
      ensures Count(frees[d], a) == if IsBlock(arenas', a, d) && a !in live' then 1 else 0
    {
      assert Count(frees[d], a) == if IsBlock(arenas, a, d) && a !in live then 1 else 0;
      assert PageOf(p * PGSIZE + ARENA) == p;
    }
  }

  /** Giving block b out. */
  lemma PopArenas(arenas: Arenas, live: Live, full: set<int>, b: Addr, d: int, n: int)
    requires ArenasOk(arenas, live, full) && LiveOk(arenas, live) && DescOk(d) && IsBlock(arenas, b, d) && b !in live
    requires 0 < n <= Size(d) && full <= {PageOf(b)}
    ensures var p := PageOf(b); var arenas' := arenas[p := arenas[p].(freeCnt := arenas[p].freeCnt - 1)];
      ArenasOk(arenas', live[b := n], {}) && LiveOk(arenas', live[b := n])
  {
    var p := PageOf(b);
    hide ArenaAt, Aligned, PageOf, LiveOk, IsBlock;
    PopLive(arenas, live, b, d, n);
    var arenas' := arenas[p := arenas[p].(freeCnt := arenas[p].freeCnt - 1)];
    forall q | q in arenas'
      ensures ArenaAt(arenas', live[b := n], {}, q)
    {
      PopArenaAt(arenas, live, full, b, d, n, q);
    }
  }

  lemma PopLive(arenas: Arenas, live: Live, b: Addr, d: int, n: int)
    requires LiveOk(arenas, live) && DescOk(d) && IsBlock(arenas, b, d) && 0 < n <= Size(d)
    ensures PageOf(b) in arenas
    ensures var p := PageOf(b); LiveOk(arenas[p := arenas[p].(freeCnt := arenas[p].freeCnt - 1)], live[b := n])
  {
    var p := PageOf(b);
    var arenas', live' := arenas[p := arenas[p].(freeCnt := arenas[p].freeCnt - 1)], live[b := n];
    hide Aligned, PageOf, OfsOf;
    forall a | a in live' ensures LiveAt(arenas', live', a) {
      assert a != b ==> LiveAt(arenas, live, a);
    }
  }

  lemma PopArenaAt(arenas: Arenas, live: Live, full: set<int>, b: Addr, d: int, n: int, q: int)
    requires ArenasOk(arenas, live, full) && DescOk(d) && IsBlock(arenas, b, d) && b !in live
    requires 0 < n <= Size(d) && full <= {PageOf(b)} && q in arenas
    ensures var p := PageOf(b); ArenaAt(arenas[p := arenas[p].(freeCnt := arenas[p].freeCnt - 1)], live[b := n], {}, q)
  {
    assert ArenaAt(arenas, live, full, q);
    if q == PageOf(b) {
      LiveInAdd(live, b, n, d);
    } else if arenas[q].desc.Some? {
      LiveInOther(live, b, n, q, arenas[q].desc.value);
    }
    hide Aligned, PageOf, LiveIn;
  }

  /** Taking block b back. */
  lemma PushArenas(arenas: Arenas, live: Live, b: Addr, d: int)
    requires ArenasOk(arenas, live, {}) && LiveOk(arenas, live) && DescOk(d) && IsBlock(arenas, b, d) && b in live
    ensures var p := PageOf(b); var arenas' := arenas[p := arenas[p].(freeCnt := arenas[p].freeCnt + 1)];
      ArenasOk(arenas', live - {b}, {p}) && LiveOk(arenas', live - {b})
  {
    var p := PageOf(b);
    var arenas', live' := arenas[p := arenas[p].(freeCnt := arenas[p].freeCnt + 1)], live - {b};
    forall q | q in arenas' ensures ArenaAt(arenas', live', {p}, q) {
      assert ArenaAt(arenas, live, {}, q);
      if q == p {
        LiveInAdd(live, b, 0, d);
      } else if arenas[q].desc.Some? {
        LiveInOther(live, b, 0, q, arenas[q].desc.value);
      } else {
        assert PageOf(q * PGSIZE + ARENA) == q;
      }
    }
    forall a | a in live' ensures LiveAt(arenas', live', a) {
      assert LiveAt(arenas, live, a);
    }
  }

  lemma NewArena(arenas: Arenas, live: Live, d: int, p: int)
    requires ArenasOk(arenas, live, {}) && LiveOk(arenas, live) && DescOk(d) && p !in arenas
    ensures var arenas' := arenas[p := Arena(Some(d), PerArena(d))];
      ArenasOk(arenas', live, {p}) && LiveOk(arenas', live)
  {
    var arenas' := arenas[p := Arena(Some(d), PerArena(d))];
    forall q | q in arenas' ensures ArenaAt(arenas', live, {p}, q) {
      assert q != p ==> ArenaAt(arenas, live, {}, q);
      if q == p {
        forall i | 0 <= i < PerArena(d) ensures BlockAt(p, d, i) !in live {
          BlockAddresses(p, d, i);
          assert BlockAt(p, d, i) in live ==> LiveAt(arenas, live, BlockAt(p, d, i));
        }
        assert LiveIn(live, p, d) == {};
      }
    }
    forall a | a in live ensures LiveAt(arenas', live, a) { assert LiveAt(arenas, live, a); }
  }

  lemma NewBig(arenas: Arenas, live: Live, p: int, cnt: int, n: int)
    requires ArenasOk(arenas, live, {}) && LiveOk(arenas, live) && p !in arenas && cnt >= 1
    requires 0 < n < WORD && (n <= PGSIZE * cnt - ARENA <==> n < WORD - 11)
    ensures var arenas', live' := arenas[p := Arena(None, cnt)], live[p * PGSIZE + ARENA := n];
      p * PGSIZE + ARENA !in live && ArenasOk(arenas', live', {}) && LiveOk(arenas', live')
  {
    var b := p * PGSIZE + ARENA;
    var arenas', live' := arenas[p := Arena(None, cnt)], live[b := n];
    assert PageOf(b) == p && OfsOf(b) == ARENA;
    assert b in live ==> LiveAt(arenas, live, b);
    forall q | q in arenas' ensures ArenaAt(arenas', live', {}, q) {
      assert q != p ==> ArenaAt(arenas, live, {}, q);
      if q != p && arenas[q].desc.Some? {
        LiveInOther(live, b, n, q, arenas[q].desc.value);
      }
    }
    forall a | a in live' ensures LiveAt(arenas', live', a) {
      assert a != b ==> LiveAt(arenas, live, a);
    }
  }

  /** Giving an arena back of which no block is given out. */
  lemma DropSmall(arenas: Arenas, live: Live, d: int, p: int)
    requires ArenasOk(arenas, live, {p}) && LiveOk(arenas, live) && DescOk(d)
    requires p in arenas && arenas[p].desc == Some(d) && LiveIn(live, p, d) == {}
    ensures ArenasOk(arenas - {p}, live, {}) && LiveOk(arenas - {p}, live)
  {
    forall q | q in arenas - {p} ensures ArenaAt(arenas - {p}, live, {}, q) { assert ArenaAt(arenas, live, {p}, q); }
    forall a | a in live ensures LiveAt(arenas - {p}, live, a) {
      assert LiveAt(arenas, live, a);
      if PageOf(a) == p {
        LiveInAdd(live, a, live[a], d);
      }
    }
  }

  lemma SplitAddress(a: Addr, q: int)
    ensures a == PageOf(a) * PGSIZE + OfsOf(a) && PageOf(q * PGSIZE + ARENA) == q && OfsOf(q * PGSIZE + ARENA) == ARENA
  {
  }

  lemma DropBig(arenas: Arenas, live: Live, b: Addr)
    requires ArenasOk(arenas, live, {}) && LiveOk(arenas, live)
    requires PageOf(b) in arenas && arenas[PageOf(b)].desc == None && OfsOf(b) == ARENA
    ensures ArenasOk(arenas - {PageOf(b)}, live - {b}, {}) && LiveOk(arenas - {PageOf(b)}, live - {b})
  {
    hide PageOf, OfsOf, LiveIn, Aligned;
    var arenas', live' := arenas - {PageOf(b)}, live - {b};
    forall q | q in arenas' ensures ArenaAt(arenas', live', {}, q) {
      assert ArenaAt(arenas, live, {}, q);
      SplitAddress(b, q);
      if arenas[q].desc.Some? {
        LiveInOther(live, b, 0, q, arenas[q].desc.value);
      }
    }
    forall a | a in live' ensures LiveAt(arenas', live', a) {
      assert LiveAt(arenas, live, a);
      SplitAddress(a, PageOf(a));
      SplitAddress(b, PageOf(a));
    }
  }
}
