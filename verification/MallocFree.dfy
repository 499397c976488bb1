/** Where the blocks of an orderly heap lie, and what free does to them. */
module MallocFree {
  import opened Options
  import opened Bitmap
  import opened Palloc
  import opened Malloc
  import opened MallocInvariant
  import opened MallocSteps

  // ---- blocks do not overlap ----

  lemma ArenasApart(arenas: Arenas, kernel: Pool, foreign: set<int>, p: int, q: int)
    requires PagesOk(arenas, kernel, foreign) && p in arenas && q in arenas
    ensures PagesOf(arenas[p]) >= 1 && p >= 0
    ensures p < q ==> p + PagesOf(arenas[p]) <= q
  {
    assert InArena(arenas, p, p) && InArena(arenas, q, q);
    assert p < q && p + PagesOf(arenas[p]) > q ==> InArena(arenas, p, q);
  }

  /** A block that is given out lies inside its arena, after the arena's header. */
  lemma BlockInArena(h: Heap, a: Addr)
    requires HeapOk(h) && a in h.live
    ensures BlockSize(h, a) > 0 && PageOf(a) in h.arenas && PageOf(a) * PGSIZE + ARENA <= a
    ensures a + BlockSize(h, a) <= (PageOf(a) + PagesOf(h.arenas[PageOf(a)])) * PGSIZE
  {
    var p := PageOf(a);
    assert LiveAt(h.arenas, h.live, a);
    ArenasApart(h.arenas, h.pages.kernel, h.foreign, p, p);
    SplitAddress(a, p);
    match h.arenas[p].desc
    case Some(d) =>
      AlignedAddress(a, d);
      BlockAddresses(p, d, IndexOf(a, d));
    case None =>
  }

  /** Two blocks that are given out have no byte in common. */
  lemma BlocksDisjoint(h: Heap, a: Addr, b: Addr)
    requires HeapOk(h) && a in h.live && b in h.live && a < b
    ensures a + BlockSize(h, a) <= b
  {
    hide ListsOk, ArenasOk, PagesOk, ForeignUsed, Separate;
    var p, q := PageOf(a), PageOf(b);
    BlockInArena(h, a);
    BlockInArena(h, b);
    if p != q {
      PagesApart(h, a, b);
    } else {
      SamePage(h, a, b);
    }
  }

  lemma PagesApart(h: Heap, a: Addr, b: Addr)
    requires HeapOk(h) && a in h.live && b in h.live && a < b && PageOf(a) != PageOf(b)
    ensures a + BlockSize(h, a) <= b
  {
    hide ListsOk, ArenasOk, LiveOk, PagesOk, ForeignUsed, Separate, BlockSize;
    var p, q := PageOf(a), PageOf(b);
    BlockInArena(h, a);
    BlockInArena(h, b);
    ArenasApart(h.arenas, h.pages.kernel, h.foreign, p, q);
    SplitAddress(a, p);
    SplitAddress(b, q);
    assert p < q;
    assert (p + PagesOf(h.arenas[p])) * PGSIZE <= q * PGSIZE;
  }

  lemma SamePage(h: Heap, a: Addr, b: Addr)
    requires HeapOk(h) && a in h.live && b in h.live && a < b && PageOf(a) == PageOf(b)
    ensures a + BlockSize(h, a) <= b
  {
    hide ListsOk, ArenasOk, PagesOk, ForeignUsed, Separate;
    var p := PageOf(a);
    assert LiveAt(h.arenas, h.live, a) && LiveAt(h.arenas, h.live, b);
    SplitAddress(a, p);
    SplitAddress(b, p);
    match h.arenas[p].desc {
      case Some(d) =>
        AlignedAddress(a, d);
        AlignedAddress(b, d);
        InOrder(p, d, IndexOf(a, d), IndexOf(b, d));
      case None =>
    }
  }

  lemma InOrder(p: int, d: int, i: int, j: int)
    requires DescOk(d) && BlockAt(p, d, i) < BlockAt(p, d, j)
    ensures BlockAt(p, d, i) + Size(d) <= BlockAt(p, d, j)
  {
    assert i * Size(d) < j * Size(d);
    assert i < j;
    assert (i + 1) * Size(d) <= j * Size(d);
  }

  // ---- free ----

  ghost predicate SameBytes(h: Heap, h': Heap, a: Addr) {
    forall x | a <= x < a + BlockSize(h, a) :: ByteAt(h'.mem, x) == ByteAt(h.mem, x)
  }

  /** What a call of free for block a does: the other blocks keep their sizes and their bytes. */
  ghost predicate Freed(h: Heap, h': Heap, a: Addr) {
    && h'.live == h.live - {a} && h'.foreign == h.foreign && h'.pages.user == h.pages.user
    && (forall b | b in h'.live :: BlockSize(h', b) == BlockSize(h, b) && SameBytes(h, h', b))
  }

  lemma PushOk(h: Heap, a: Addr, d: int)
    requires HeapOk(h) && DescOk(d) && IsBlock(h.arenas, a, d) && a in h.live
    ensures var h' := Push(h, a, d); var p := PageOf(a);
      && |h'.frees| == DESC_CNT && AlmostOk(h', {p}) && h'.arenas[p].freeCnt <= PerArena(d)
      && (h'.arenas[p].freeCnt == PerArena(d) <==> LiveIn(h'.live, p, d) == {})
      && (h'.arenas[p].freeCnt < PerArena(d) ==> HeapOk(h'))
  {
    hide ListsOk, LiveOk, PagesOk, ForeignUsed, Separate, Aligned, PageOf, OfsOf, LiveIn;
    var p := PageOf(a);
    PushLists(h.frees, h.arenas, h.live, d, a);
    PushArenas(h.arenas, h.live, a, d);
    ListsRecount(h.frees[d := [a] + h.frees[d]], h.arenas, h.live - {a}, p, h.arenas[p].freeCnt + 1);
    PagesRecount(h.arenas, h.pages.kernel, h.foreign, p, h.arenas[p].freeCnt + 1);
    var h' := Push(h, a, d);
    assert ArenaAt(h'.arenas, h'.live, {p}, p);
    forall q | q in h'.arenas && (q == p ==> h'.arenas[p].freeCnt < PerArena(d))
      ensures ArenaAt(h'.arenas, h'.live, {}, q)
    {
      assert ArenaAt(h'.arenas, h'.live, {p}, q);
    }
  }

  lemma DropArenaOk(h: Heap, p: int, d: int)
    requires |h.frees| == DESC_CNT && AlmostOk(h, {p}) && DescOk(d)
    requires p in h.arenas && h.arenas[p].desc == Some(d) && LiveIn(h.live, p, d) == {}
    ensures DropArena(h, p, d).Some? && HeapOk(DropArena(h, p, d).value)
  {
    hide ListsOk, LiveOk, ArenasOk, PagesOk, Aligned, PageOf, OfsOf, LiveIn, FreeMultiple, Used, Owned;
    ArenasApart(h.arenas, h.pages.kernel, h.foreign, p, p);
    PagesGive(h.arenas, h.pages, h.foreign, p);
    DropLists(h.frees, h.arenas, h.live, d, p);
    DropSmall(h.arenas, h.live, d, p);
  }

  lemma BigAt(h: Heap, a: Addr)
    requires HeapOk(h) && a in h.live && PageOf(a) in h.arenas && h.arenas[PageOf(a)].desc == None
    ensures PageOf(a) >= 0 && OfsOf(a) == ARENA && a == PageOf(a) * PGSIZE + ARENA
  {
    assert LiveAt(h.arenas, h.live, a);
    SplitAddress(a, PageOf(a));
    ArenasApart(h.arenas, h.pages.kernel, h.foreign, PageOf(a), PageOf(a));
  }

  /** What free does with a big block. */
  function WithoutBig(h: Heap, p: int, pages: Pools): Heap
    requires p in h.arenas
  {
    h.(pages := pages, arenas := h.arenas - {p}, live := h.live - {p * PGSIZE + ARENA},
       mem := Fill(h.mem, p * PGSIZE, PGSIZE * h.arenas[p].freeCnt, 0xcc))
  }

  lemma FreeBigIs(h: Heap, a: Addr, p: int)
    requires |h.frees| == DESC_CNT && PageOf(a) == p && p >= 0 && OfsOf(a) == ARENA && a == p * PGSIZE + ARENA
    requires p in h.arenas && h.arenas[p].desc == None && h.arenas[p].freeCnt >= 0
    ensures var r := FreeMultiple(h.pages, p, h.arenas[p].freeCnt);
      Free(h, a) == if r.None? then None else Some(WithoutBig(h, p, r.value))
  {
    hide PageOf, OfsOf, FreeMultiple, Fill, Push, DropArena;
  }

  lemma WithoutBigOk(h: Heap, p: int, pages: Pools)
    requires HeapOk(h) && p in h.arenas
    requires var (arenas, live) := (h.arenas - {p}, h.live - {p * PGSIZE + ARENA});
      && ListsOk(h.frees, arenas, live) && LiveOk(arenas, live) && ArenasOk(arenas, live, {})
      && PagesOk(arenas, pages.kernel, h.foreign) && ForeignUsed(h.foreign, pages.kernel) && Separate(pages)
    ensures HeapOk(WithoutBig(h, p, pages))
  {
    hide ListsOk, LiveOk, ArenasOk, PagesOk, ForeignUsed, Separate, Fill;
  }

  lemma FreeBigOk(h: Heap, a: Addr)
    requires HeapOk(h) && a in h.live && PageOf(a) in h.arenas && h.arenas[PageOf(a)].desc == None
    ensures Free(h, a).Some? && HeapOk(Free(h, a).value)
  {
    BigAt(h, a);
    hide ListsOk, LiveOk, ArenasOk, PagesOk, PageOf, OfsOf, FreeMultiple, Used, Separate, Free;
    var p := PageOf(a);
    PagesGive(h.arenas, h.pages, h.foreign, p);
    DropBigLists(h.frees, h.arenas, h.live, p);
    DropBig(h.arenas, h.live, a);
    FreeBigIs(h, a, p);
    WithoutBigOk(h, p, FreeMultiple(h.pages, p, PagesOf(h.arenas[p])).value);
  }

  lemma FreeSmallOk(h: Heap, a: Addr, d: int)
    requires HeapOk(h) && a in h.live && DescOk(d) && IsBlock(h.arenas, a, d)
    ensures Free(h, a).Some? && HeapOk(Free(h, a).value)
  {
    hide ListsOk, LiveOk, ArenasOk, PagesOk, Aligned, PageOf, OfsOf, LiveIn, DropArena;
    var p := PageOf(a);
    ArenasApart(h.arenas, h.pages.kernel, h.foreign, p, p);
    var h0 := h.(mem := Fill(h.mem, a, Size(d), 0xcc));
    PushOk(h0, a, d);
    if Push(h0, a, d).arenas[p].freeCnt == PerArena(d) {
      DropArenaOk(Push(h0, a, d), p, d);
    }
  }

  /** free of a block that is given out meets every assertion, and keeps the heap in order. */
  lemma FreeOk(h: Heap, a: Addr)
    requires HeapOk(h) && a in h.live
    ensures Free(h, a).Some? && HeapOk(Free(h, a).value)
  {
    assert LiveAt(h.arenas, h.live, a);
    hide LiveOk, ListsOk, ArenasOk, PagesOk, Free;
    match h.arenas[PageOf(a)].desc {
      case Some(d) => FreeSmallOk(h, a, d);
      case None => FreeBigOk(h, a);
    }
  }

  lemma OutsideArena(h: Heap, p: int, b: Addr, x: Addr)
    requires HeapOk(h) && p in h.arenas && b in h.live && PageOf(b) != p && b <= x < b + BlockSize(h, b)
    ensures !(p * PGSIZE <= x < (p + PagesOf(h.arenas[p])) * PGSIZE)
  {
    hide ListsOk, ArenasOk, LiveOk, PagesOk, ForeignUsed, Separate, BlockSize, PageOf;
    var q := PageOf(b);
    BlockInArena(h, b);
    ArenasApart(h.arenas, h.pages.kernel, h.foreign, p, q);
    ArenasApart(h.arenas, h.pages.kernel, h.foreign, q, p);
    var e, f := p + PagesOf(h.arenas[p]), q + PagesOf(h.arenas[q]);
    assert p < q ==> e * PGSIZE <= q * PGSIZE;
    assert q < p ==> f * PGSIZE <= p * PGSIZE;
  }

  /** A big block is alone in its arena. */
  lemma AloneInArena(h: Heap, a: Addr, b: Addr)
    requires HeapOk(h) && a in h.live && b in h.live && a != b && PageOf(a) in h.arenas
    requires h.arenas[PageOf(a)].desc == None
    ensures PageOf(b) != PageOf(a)
  {
    assert LiveAt(h.arenas, h.live, a) && LiveAt(h.arenas, h.live, b);
    SplitAddress(a, 0);
    SplitAddress(b, 0);
  }

  lemma FreeBigKeeps(h: Heap, a: Addr)
    requires HeapOk(h) && a in h.live && PageOf(a) in h.arenas && h.arenas[PageOf(a)].desc == None
    ensures Free(h, a).Some? && Freed(h, Free(h, a).value, a)
  {
    FreeBigOk(h, a);
    hide HeapOk, PageOf, OfsOf;
    var p := PageOf(a);
    var h' := Free(h, a).value;
    forall b | b in h'.live ensures BlockSize(h', b) == BlockSize(h, b) && SameBytes(h, h', b) {
      AloneInArena(h, a, b);
      forall x | b <= x < b + BlockSize(h, b) ensures ByteAt(h'.mem, x) == ByteAt(h.mem, x) {
        OutsideArena(h, p, b, x);
        FillBytes(h.mem, p * PGSIZE, PGSIZE * h.arenas[p].freeCnt, 0xcc, x);
      }
    }
    assert h'.pages.user == h.pages.user;
  }

  lemma DropArenaKeeps(h: Heap, p: int, d: int)
    requires |h.frees| == DESC_CNT && DescOk(d) && DropArena(h, p, d).Some?
    ensures var h' := DropArena(h, p, d).value;
      && h'.live == h.live && h'.foreign == h.foreign && h'.arenas == h.arenas - {p}
      && h'.mem == Fill(h.mem, p * PGSIZE, PGSIZE, 0xcc)
  {
  }

  /** What becomes of the arenas and the bytes when small block a is freed. */
  lemma FreeSmallState(h: Heap, a: Addr, d: int)
    requires HeapOk(h) && a in h.live && DescOk(d) && IsBlock(h.arenas, a, d) && Free(h, a).Some?
    ensures var p := PageOf(a); var h' := Free(h, a).value; var mem := Fill(h.mem, a, Size(d), 0xcc);
      || (LiveIn(h.live - {a}, p, d) != {} &&
           h'.mem == mem && h'.arenas == h.arenas[p := h.arenas[p].(freeCnt := h.arenas[p].freeCnt + 1)])
      || (LiveIn(h.live - {a}, p, d) == {} &&
           h'.mem == Fill(mem, p * PGSIZE, PGSIZE, 0xcc) && h'.arenas == h.arenas - {p})
  {
    hide HeapOk, AlmostOk, PageOf, OfsOf, DropArena, LiveIn, Aligned, Fill;
    var p := PageOf(a);
    var h0 := h.(mem := Fill(h.mem, a, Size(d), 0xcc));
    SameHeapOk(h, h0);
    PushOk(h0, a, d);
    if Push(h0, a, d).arenas[p].freeCnt == PerArena(d) {
      DropArenaKeeps(Push(h0, a, d), p, d);
    }
  }

  lemma FreeSmallKeeps(h: Heap, a: Addr, d: int, b: Addr)
    requires HeapOk(h) && a in h.live && DescOk(d) && IsBlock(h.arenas, a, d) && b in h.live && b != a
    requires Free(h, a).Some?
    ensures BlockSize(Free(h, a).value, b) == BlockSize(h, b) && SameBytes(h, Free(h, a).value, b)
  {
    LiveInArena(h.arenas, h.live, b);
    FreeSmallState(h, a, d);
    if LiveIn(h.live - {a}, PageOf(a), d) == {} { NotInEmptied(h, a, b, d); }
    hide HeapOk, PageOf, OfsOf, LiveIn, Aligned, Free, Fill;
    var p := PageOf(a);
    forall x | b <= x < b + BlockSize(h, b) ensures ByteAt(Free(h, a).value.mem, x) == ByteAt(h.mem, x) {
      OutsideBlock(h, a, b, x);
      FillBytes(h.mem, a, Size(d), 0xcc, x);
      if PageOf(b) != p { OutsideArena(h, p, b, x); }
      FillBytes(Fill(h.mem, a, Size(d), 0xcc), p * PGSIZE, PGSIZE, 0xcc, x);
    }
  }

  lemma OutsideBlock(h: Heap, a: Addr, b: Addr, x: Addr)
    requires HeapOk(h) && a in h.live && b in h.live && b != a && b <= x < b + BlockSize(h, b)
    ensures !(a <= x < a + BlockSize(h, a))
  {
    hide HeapOk, BlockSize;
    if a < b { BlocksDisjoint(h, a, b); } else { BlocksDisjoint(h, b, a); }
  }

  /** Whether a heap is in order does not depend on the bytes in it. */
  lemma SameHeapOk(h: Heap, h0: Heap)
    requires HeapOk(h) && h0 == h.(mem := h0.mem)
    ensures HeapOk(h0)
  {
  }

  lemma NotInEmptied(h: Heap, a: Addr, b: Addr, d: int)
    requires HeapOk(h) && a in h.live && DescOk(d) && IsBlock(h.arenas, a, d) && b in h.live && b != a
    requires LiveIn(h.live - {a}, PageOf(a), d) == {}
    ensures PageOf(b) != PageOf(a)
  {
    assert LiveAt(h.arenas, h.live, b);
    if PageOf(b) == PageOf(a) {
      LiveInAdd(h.live - {a}, b, 0, d);
    }
  }

  /** free of a block that is given out takes back just that block: every other block keeps its size and
      its bytes, and other users keep their pages. */
  lemma FreeKeeps(h: Heap, a: Addr)
    requires HeapOk(h) && a in h.live
    ensures Free(h, a).Some? && Freed(h, Free(h, a).value, a)
  {
    assert LiveAt(h.arenas, h.live, a);
    match h.arenas[PageOf(a)].desc {
      case Some(d) =>
        FreeSmallOk(h, a, d);
        FreeSmallLive(h, a, d);
        forall b | b in h.live - {a} { FreeSmallKeeps(h, a, d, b); }
      case None => FreeBigKeeps(h, a);
    }
  }

  lemma FreeSmallLive(h: Heap, a: Addr, d: int)
    requires HeapOk(h) && a in h.live && DescOk(d) && IsBlock(h.arenas, a, d)
    ensures Free(h, a).Some? && Free(h, a).value.live == h.live - {a}
    ensures Free(h, a).value.foreign == h.foreign && Free(h, a).value.pages.user == h.pages.user
  {
    FreeSmallOk(h, a, d);
    var p := PageOf(a);
    var h1 := Push(h.(mem := Fill(h.mem, a, Size(d), 0xcc)), a, d);
    if h1.arenas[p].freeCnt == PerArena(d) {
      ArenasApart(h.arenas, h.pages.kernel, h.foreign, p, p);
      PagesGive(h.arenas, h.pages, h.foreign, p);
    }
  }
}
