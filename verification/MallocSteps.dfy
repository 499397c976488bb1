/** The effect of malloc, free and realloc on a heap that is in order. */
module MallocSteps {
  import opened Options
  import opened Bitmap
  import opened Palloc
  import opened Malloc
  import opened MallocInvariant

  ghost predicate ForeignUsed(foreign: set<int>, kernel: Pool) {
    forall n | n in foreign :: Used(kernel, n)
  }

  /** The heap is in order, but that the arenas in `full` may have no block that is given out. */
  ghost predicate AlmostOk(h: Heap, full: set<int>) {
    && ListsOk(h.frees, h.arenas, h.live) && LiveOk(h.arenas, h.live) && ArenasOk(h.arenas, h.live, full)
    && PagesOk(h.arenas, h.pages.kernel, h.foreign) && ForeignUsed(h.foreign, h.pages.kernel) && Separate(h.pages)
  }

  ghost predicate HeapOk(h: Heap) {
    |h.frees| == DESC_CNT && AlmostOk(h, {})
  }

  // ---- block sizes ----

  lemma {:induction false} FindDescIsLeast(size: int, d: int)
    requires 0 <= d <= DESC_CNT
    ensures d <= FindDesc(size, d) <= DESC_CNT
    ensures FindDesc(size, d) < DESC_CNT ==> Size(FindDesc(size, d)) >= size
    ensures forall e | d <= e < FindDesc(size, d) :: Size(e) < size
    decreases DESC_CNT - d
  {
    if d < DESC_CNT && Size(d) < size {
      FindDescIsLeast(size, d + 1);
    }
  }

  /** The pages of a big block hold the request and the header, unless the size is too near 2^32. */
  lemma PageCountFits(size: int)
    requires 0 < size < WORD && PageCount(size) > 0
    ensures size <= PGSIZE * PageCount(size) - ARENA <==> size < WORD - 11
  {
    if size + ARENA + PGSIZE - 1 >= WORD {
      assert (size + ARENA + PGSIZE - 1) % WORD == size + ARENA + PGSIZE - 1 - WORD;
    }
  }

  // ---- malloc ----

  /** What a call of malloc for `size` bytes that returns r does. */
  ghost predicate Allocated(h: Heap, h': Heap, r: Option<Addr>, size: int) {
    match r
    case None => h' == h
    case Some(a) =>
      && a !in h.live && h'.live == h.live[a := size] && h'.mem == h.mem
      && h'.foreign == h.foreign && h'.pages.user == h.pages.user
      && (size <= BlockSize(h', a) <==> size < WORD - 11)
      && (forall b | b in h.live :: BlockSize(h', b) == BlockSize(h, b))
  }

  lemma PagesRecount(arenas: Arenas, kernel: Pool, foreign: set<int>, p: int, cnt: int)
    requires PagesOk(arenas, kernel, foreign) && p in arenas && arenas[p].desc.Some?
    ensures PagesOk(arenas[p := arenas[p].(freeCnt := cnt)], kernel, foreign)
  {
    var arenas' := arenas[p := arenas[p].(freeCnt := cnt)];
    assert forall q, n :: InArena(arenas', q, n) == InArena(arenas, q, n);
    forall n | Used(kernel, n) ensures n in foreign || exists q :: InArena(arenas', q, n) {
      if n !in foreign {
        var q :| InArena(arenas, q, n);
        assert InArena(arenas', q, n);
      }
    }
  }

  lemma LiveInArena(arenas: Arenas, live: Live, b: Addr)
    requires LiveOk(arenas, live) && b in live
    ensures PageOf(b) in arenas
  {
    assert LiveAt(arenas, live, b);
  }

  lemma PopOk(h: Heap, d: int, size: int, full: set<int>)
    requires DescOk(d) && |h.frees| == DESC_CNT && h.frees[d] != [] && AlmostOk(h, full)
    requires full <= {PageOf(h.frees[d][0])} && 0 < size <= Size(d)
    ensures var (h', r) := Pop(h, d, size); r == Some(h.frees[d][0]) && HeapOk(h')
  {
    hide LiveOk, ArenasOk, PagesOk, ForeignUsed, Separate, Aligned, PageOf, OfsOf, ListsOk;
    var b := h.frees[d][0];
    var p := PageOf(b);
    PopLists(h.frees, h.arenas, h.live, d, size);
    PopArenas(h.arenas, h.live, full, b, d, size);
    ListsRecount(h.frees[d := h.frees[d][1..]], h.arenas, h.live[b := size], p, h.arenas[p].freeCnt - 1);
    PagesRecount(h.arenas, h.pages.kernel, h.foreign, p, h.arenas[p].freeCnt - 1);
  }

  lemma PopAllocates(h: Heap, d: int, size: int, full: set<int>)
    requires DescOk(d) && |h.frees| == DESC_CNT && h.frees[d] != [] && AlmostOk(h, full) && 0 < size <= Size(d)
    ensures var (h', r) := Pop(h, d, size); r.Some? && Allocated(h, h', r, size)
  {
    var b := h.frees[d][0];
    PopLists(h.frees, h.arenas, h.live, d, size);
    forall a | a in h.live ensures PageOf(a) in h.arenas { LiveInArena(h.arenas, h.live, a); }
  }

  lemma AddArenaOk(h: Heap, d: int)
    requires HeapOk(h) && DescOk(d) && h.frees[d] == [] && Get(h.pages.kernel, 1).1.Some?
    ensures var p := Get(h.pages.kernel, 1).1.value; var h' := AddArena(h, d, p, Get(h.pages.kernel, 1).0);
      p !in h.arenas && AlmostOk(h', {p}) && h'.frees[d] != [] && PageOf(h'.frees[d][0]) == p
  {
    hide ListsOk, LiveOk, ArenasOk, PagesOk, Get, Aligned, PageOf, OfsOf, BlockAt;
    var p := Get(h.pages.kernel, 1).1.value;
    GetTakesFreePages(h.pages.kernel, 1);
    PagesTake(h.arenas, h.pages.kernel, h.foreign, 1, Arena(Some(d), PerArena(d)));
    NewArenaLists(h.frees, h.arenas, h.live, d, p);
    NewArena(h.arenas, h.live, d, p);
    BlockAddresses(p, d, 0);
    assert h.frees[d] + BlocksFrom(p, d, 0) == BlocksFrom(p, d, 0);
  }

  lemma AddArenaKeeps(h: Heap, d: int)
    requires HeapOk(h) && DescOk(d) && h.frees[d] == [] && Get(h.pages.kernel, 1).1.Some?
    ensures var p := Get(h.pages.kernel, 1).1.value; var h' := AddArena(h, d, p, Get(h.pages.kernel, 1).0);
      && h'.live == h.live && h'.mem == h.mem && h'.foreign == h.foreign && h'.pages.user == h.pages.user
      && (forall b | b in h.live :: BlockSize(h', b) == BlockSize(h, b))
  {
    AddArenaOk(h, d);
    hide ListsOk, LiveOk, ArenasOk, PagesOk, Get, Aligned, BlockAt, PageOf, OfsOf;
    forall b | b in h.live ensures PageOf(b) in h.arenas { LiveInArena(h.arenas, h.live, b); }
  }

  lemma MallocBigOk(h: Heap, size: int)
    requires HeapOk(h) && 0 < size < WORD && Get(h.pages.kernel, PageCount(size)).1.Some?
    ensures HeapOk(MallocBig(h, size).0)
    ensures PageCount(size) > 0 && Get(h.pages.kernel, PageCount(size)).1.value !in h.arenas
  {
    hide ListsOk, LiveOk, ArenasOk, PagesOk, Get, Aligned, BlockAt, PageCount, Used, Owned, AllAre;
    var cnt := PageCount(size);
    var p := Get(h.pages.kernel, cnt).1.value;
    GetTakesFreePages(h.pages.kernel, cnt);
    PageCountFits(size);
    PagesTake(h.arenas, h.pages.kernel, h.foreign, cnt, Arena(None, cnt));
    BigLists(h.frees, h.arenas, h.live, p, cnt, size);
    NewBig(h.arenas, h.live, p, cnt, size);
  }

  lemma MallocBigAllocates(h: Heap, size: int)
    requires HeapOk(h) && 0 < size < WORD
    ensures Allocated(h, MallocBig(h, size).0, MallocBig(h, size).1, size)
  {
    hide ListsOk, LiveOk, ArenasOk, PagesOk, Get, PageCount, PageOf, OfsOf;
    var cnt := PageCount(size);
    if Get(h.pages.kernel, cnt).1.Some? {
      var p := Get(h.pages.kernel, cnt).1.value;
      MallocBigOk(h, size);
      PageCountFits(size);
      SplitAddress(0, p);
      forall b | b in h.live ensures PageOf(b) in h.arenas { LiveInArena(h.arenas, h.live, b); }
    }
  }

  /** malloc gives out a block that is not given out already, of the size asked for (or, just below 2^32,
      a smaller one), and changes no other block; when it gives out none it changes nothing. */
  lemma AllocOk(h: Heap, size: int)
    requires HeapOk(h) && 0 <= size < WORD
    ensures HeapOk(Alloc(h, size).0) && Allocated(h, Alloc(h, size).0, Alloc(h, size).1, size)
  {
    hide AlmostOk, Get, Pop, AddArena, FindDesc, BlockSize;
    if size > 0 {
      var d := FindDesc(size, 0);
      FindDescIsLeast(size, 0);
      if d == DESC_CNT {
        MallocBigAllocates(h, size);
        if Get(h.pages.kernel, PageCount(size)).1.Some? { MallocBigOk(h, size); }
      } else if h.frees[d] != [] {
        PopOk(h, d, size, {});
        PopAllocates(h, d, size, {});
      } else if Get(h.pages.kernel, 1).1.Some? {
        AllocNewArena(h, d, size);
      }
    }
  }

  lemma AllocNewArena(h: Heap, d: int, size: int)
    requires HeapOk(h) && DescOk(d) && h.frees[d] == [] && Get(h.pages.kernel, 1).1.Some? && 0 < size <= Size(d)
    ensures var p := Get(h.pages.kernel, 1).1.value;
      var (h', r) := Pop(AddArena(h, d, p, Get(h.pages.kernel, 1).0), d, size);
      HeapOk(h') && Allocated(h, h', r, size)
  {
    AddArenaOk(h, d);
    AddArenaKeeps(h, d);
    var p := Get(h.pages.kernel, 1).1.value;
    var h1 := AddArena(h, d, p, Get(h.pages.kernel, 1).0);
    hide AlmostOk, Get, Pop, BlockSize, PageOf, AddArena;
    PopOk(h1, d, size, {p});
    PopAllocates(h1, d, size, {p});
  }
}
