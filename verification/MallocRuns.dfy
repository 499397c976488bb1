/** realloc, and what holds of the allocator over every sequence of calls. */
module MallocRuns {
  import opened Options
  import opened Bitmap
  import opened Palloc
  import opened Malloc
  import opened MallocInvariant
  import opened MallocSteps
  import opened MallocFree

  // ---- free undoes malloc ----

  lemma {:induction false} RemoveAllOwn(p: int, d: int)
    requires DescOk(d)
    ensures RemoveAll(BlocksFrom(p, d, 0), BlocksFrom(p, d, 0)) == []
  {
    var s := RemoveAll(BlocksFrom(p, d, 0), BlocksFrom(p, d, 0));
    if s != [] {
      assert s[0] in multiset(s);
      RemoveAllCount(BlocksFrom(p, d, 0), BlocksFrom(p, d, 0), s[0]);
    }
  }

  lemma PushUndoesPop(h: Heap, d: int, size: int)
    requires |h.frees| == DESC_CNT && DescOk(d) && h.frees[d] != [] && h.frees[d][0] !in h.live
    requires PageOf(h.frees[d][0]) in h.arenas
    ensures var (h1, r) := Pop(h, d, size); r == Some(h.frees[d][0]) && Push(h1, r.value, d) == h
    ensures forall mem :: Push(Pop(h, d, size).0.(mem := mem), h.frees[d][0], d) == h.(mem := mem)
  {
    var a := h.frees[d][0];
    var p := PageOf(a);
    hide PageOf;
    var h1 := Pop(h, d, size).0;
    assert h1.live - {a} == h.live;
    assert [a] + h1.frees[d] == h.frees[d];
    assert h1.frees[d := [a] + h1.frees[d]] == h.frees;
    assert h1.arenas[p := h1.arenas[p].(freeCnt := h1.arenas[p].freeCnt + 1)] == h.arenas;
  }

  lemma PopUndone(h: Heap, d: int, size: int)
    requires HeapOk(h) && DescOk(d) && h.frees[d] != [] && 0 < size <= Size(d)
    ensures var (h1, r) := Pop(h, d, size);
      r.Some? && Free(h1, r.value) == Some(h.(mem := Fill(h.mem, r.value, Size(d), 0xcc)))
  {
    PopLists(h.frees, h.arenas, h.live, d, size);
    var a := h.frees[d][0];
    var p := PageOf(a);
    ArenasApart(h.arenas, h.pages.kernel, h.foreign, p, p);
    PushUndoesPop(h, d, size);
    assert ArenaAt(h.arenas, h.live, {}, p);
    hide HeapOk, AlmostOk, ListsOk, LiveIn, PageOf, OfsOf, Aligned, Fill, Push;
    assert Pop(h, d, size).0.mem == h.mem;
  }

  lemma FirstBlock(p: int, d: int)
    requires DescOk(d)
    ensures BlocksFrom(p, d, 0) != [] && BlocksFrom(p, d, 0)[0] == BlockAt(p, d, 0) && PerArena(d) > 0
    ensures PageOf(BlockAt(p, d, 0)) == p && Aligned(BlockAt(p, d, 0), d)
  {
    BlockAddresses(p, d, 0);
  }

  lemma NewArenaUndone(h: Heap, d: int, size: int)
    requires HeapOk(h) && DescOk(d) && h.frees[d] == [] && Get(h.pages.kernel, 1).1.Some? && 0 < size <= Size(d)
    ensures var p := Get(h.pages.kernel, 1).1.value;
      var (h1, r) := Pop(AddArena(h, d, p, Get(h.pages.kernel, 1).0), d, size);
      && r.Some?
      && Free(h1, r.value) == Some(h.(mem := Fill(Fill(h.mem, r.value, Size(d), 0xcc), p * PGSIZE, PGSIZE, 0xcc)))
  {
    AddArenaOk(h, d);
    var (kernel, p) := (Get(h.pages.kernel, 1).0, Get(h.pages.kernel, 1).1.value);
    FirstBlock(p, d);
    hide HeapOk, AlmostOk, Get, BlocksFrom, DropArena, Fill, PageOf, OfsOf, Aligned, BlockAt, PerArena;
    var a := BlockAt(p, d, 0);
    var h0 := AddArena(h, d, p, kernel);
    assert h0.frees[d] == BlocksFrom(p, d, 0);
    NewIsNotLive(h, p, a);
    PushUndoesPop(h0, d, size);
    DropUndoesAdd(h, d, p, kernel, Fill(h.mem, a, Size(d), 0xcc));
    hide Push;
    assert Pop(h0, d, size).0.mem == h.mem;
  }

  lemma DropUndoesAdd(h: Heap, d: int, p: int, kernel: Pool, mem: map<int, int>)
    requires HeapOk(h) && DescOk(d) && h.frees[d] == [] && Get(h.pages.kernel, 1) == (kernel, Some(p)) && p !in h.arenas
    ensures DropArena(AddArena(h, d, p, kernel).(mem := mem), p, d)
      == Some(h.(mem := Fill(mem, p * PGSIZE, PGSIZE, 0xcc)))
  {
    ListCount(h);
    hide HeapOk, Get, Separate, BlocksFrom, RemoveAll, FreeMultiple, Fill, PerArena, DropArena;
    GroupInPool(h, kernel, p);
    FreeReturnsToPool(h.pages, false, 1);
    RemoveAllOwn(p, d);
    var bs := BlocksFrom(p, d, 0);
    var h0 := AddArena(h, d, p, kernel);
    assert h.frees[d] + bs == bs;
    AddThenDrop(h.arenas, p, h0.arenas[p]);
    assert h0.frees[d := []] == h.frees;
    assert h.pages.(kernel := kernel) == h0.pages;
    DropIs(h0.(mem := mem), p, d, h.(mem := mem));
  }

  lemma DropIs(h0: Heap, p: int, d: int, h: Heap)
    requires DescOk(d) && |h0.frees| == DESC_CNT && p >= 0 && FreeMultiple(h0.pages, p, 1) == Some(h.pages)
    requires h0.frees[d := RemoveAll(h0.frees[d], BlocksFrom(p, d, 0))] == h.frees && h0.arenas - {p} == h.arenas
    requires h0.mem == h.mem && h0.live == h.live && h0.foreign == h.foreign
    ensures DropArena(h0, p, d) == Some(h.(mem := Fill(h.mem, p * PGSIZE, PGSIZE, 0xcc)))
  {
    hide FreeMultiple, RemoveAll, BlocksFrom, Fill;
  }

  lemma ListCount(h: Heap)
    requires HeapOk(h)
    ensures |h.frees| == DESC_CNT
  {
  }

  lemma GroupInPool(h: Heap, kernel: Pool, p: int)
    requires HeapOk(h) && Get(h.pages.kernel, 1) == (kernel, Some(p))
    ensures p >= 0 && Separate(h.pages)
  {
    GetTakesFreePages(h.pages.kernel, 1);
  }

  lemma NewIsNotLive(h: Heap, p: int, a: Addr)
    requires HeapOk(h)
    ensures a in h.live ==> PageOf(a) in h.arenas
  {
    if a in h.live { LiveInArena(h.arenas, h.live, a); }
  }

  lemma BigUndone(h: Heap, size: int)
    requires HeapOk(h) && 0 < size < WORD && MallocBig(h, size).1.Some?
    ensures var (h1, r) := MallocBig(h, size);
      Free(h1, r.value) == Some(h.(mem := Fill(h.mem, PageOf(r.value) * PGSIZE, PGSIZE * PageCount(size), 0xcc)))
  {
    var cnt := PageCount(size);
    var (kernel, p) := (Get(h.pages.kernel, cnt).0, Get(h.pages.kernel, cnt).1.value);
    MallocBigOk(h, size);
    FreeReturnsToPool(h.pages, false, cnt);
    var a := p * PGSIZE + ARENA;
    SplitAddress(a, p);
    NewIsNotLive(h, p, a);
    hide HeapOk, AlmostOk, Get, FreeMultiple, Fill, PageOf, OfsOf, PageCount, Aligned;
    var h1 := MallocBig(h, size).0;
    assert h1.arenas == h.arenas[p := h1.arenas[p]] && h1.live == h.live[a := h1.live[a]];
    AddThenDrop(h.arenas, p, h1.arenas[p]);
    AddThenDrop(h.live, a, h1.live[a]);
    assert h.pages.(kernel := kernel) == h1.pages;
  }

  lemma AddThenDrop<K, V>(m: map<K, V>, k: K, v: V)
    requires k !in m
    ensures m[k := v] - {k} == m
  {
  }

  /** Freeing a block right after it was given out brings back the whole state of the allocator (free
      lists in order, arenas, page pools), but for the bytes that were overwritten. */
  lemma FreeUndoesAlloc(h: Heap, size: int)
    requires HeapOk(h) && 0 <= size < WORD && Alloc(h, size).1.Some?
    ensures var (h1, r) := Alloc(h, size);
      Free(h1, r.value).Some? && Free(h1, r.value).value == h.(mem := Free(h1, r.value).value.mem)
  {
    hide AlmostOk, Get, Pop, AddArena, FindDesc, MallocBig, Free;
    var d := FindDesc(size, 0);
    FindDescIsLeast(size, 0);
    if d == DESC_CNT {
      BigUndone(h, size);
    } else if h.frees[d] != [] {
      PopUndone(h, d, size);
    } else {
      NewArenaUndone(h, d, size);
    }
  }

  // ---- realloc ----

  /** The condition under which realloc's copy stays inside the new block. */
  predicate CopyFits(h: Heap, a: Addr, size: int) {
    size < WORD - 11 || BlockSize(h, a) <= PGSIZE - ARENA
  }

  /** Near 2^32 a big block is one page. */
  lemma NearWrap(h: Heap, size: int)
    requires HeapOk(h) && WORD - 11 <= size < WORD && Alloc(h, size).1.Some?
    ensures BlockSize(Alloc(h, size).0, Alloc(h, size).1.value) == PGSIZE - ARENA
  {
    FindDescIsLeast(size, 0);
    OnePage(size);
    assert Alloc(h, size) == MallocBig(h, size) by { hide HeapOk, Get, PageCount, Pop, AddArena, MallocBig; }
    hide HeapOk, FindDesc, PageCount, Get, PageOf, OfsOf, Alloc;
    SplitAddress(0, Get(h.pages.kernel, 1).1.value);
  }

  lemma OnePage(size: int)
    requires WORD - 11 <= size < WORD
    ensures PageCount(size) == 1
  {
    assert (size + ARENA + PGSIZE - 1) % WORD == size + ARENA + PGSIZE - 1 - WORD;
  }

  /** realloc copies no byte past the end of the new block exactly if the size is far enough from 2^32, or
      the old block is no larger than a page with an arena header can hold. */
  lemma CopyFitsExactly(h: Heap, a: Addr, size: int)
    requires HeapOk(h) && a in h.live && 0 < size < WORD && Alloc(h, size).1.Some?
    ensures var (h1, r) := Alloc(h, size);
      Min(size, BlockSize(h1, a)) <= BlockSize(h1, r.value) <==> CopyFits(h, a, size)
  {
    AllocOk(h, size);
    BlockInArena(h, a);
    hide Alloc, BlockSize, HeapOk;
    if size >= WORD - 11 {
      NearWrap(h, size);
    }
  }

  /** What realloc of block a to `size` bytes does when it returns block b: b is new, begins with the bytes of
      a, and a is freed; the other blocks do not change. */
  ghost predicate Moved(h: Heap, h': Heap, a: Addr, b: Addr, size: int) {
    && b !in h.live && h'.live == (h.live - {a})[b := size]
    && (size < WORD - 11 ==> size <= BlockSize(h', b))
    && (forall x | b <= x < b + Min(size, BlockSize(h, a)) :: ByteAt(h'.mem, x) == ByteAt(h.mem, a + (x - b)))
    && (forall c | c in h.live && c != a :: BlockSize(h', c) == BlockSize(h, c) && SameBytes(h, h', c))
    && h'.foreign == h.foreign && h'.pages.user == h.pages.user
  }

  /** The bytes after realloc's copy, before the old block is freed. */
  lemma CopiedBytes(h: Heap, h1: Heap, a: Addr, b: Addr, size: int, x: Addr)
    requires HeapOk(h1) && a in h1.live && b in h1.live && a != b && h1.mem == h.mem && 0 < size
    requires Min(size, BlockSize(h1, a)) <= BlockSize(h1, b)
    ensures ByteAt(Copied(h1, b, a, size), x)
      == if b <= x < b + Min(size, BlockSize(h1, a)) then ByteAt(h.mem, a + (x - b)) else ByteAt(h.mem, x)
  {
    BlockInArena(h1, a);
    if a < b { BlocksDisjoint(h1, a, b); } else { BlocksDisjoint(h1, b, a); }
    hide HeapOk, BlockSize;
    CopyBytes(h1.mem, b, a, Min(size, BlockSize(h1, a)), x);
  }

  lemma MovedBytes(h: Heap, h1: Heap, h2: Heap, a: Addr, b: Addr, size: int)
    requires HeapOk(h) && a in h.live && 0 < size < WORD && HeapOk(h1) && Allocated(h, h1, Some(b), size)
    requires Min(size, BlockSize(h1, a)) <= BlockSize(h1, b)
    requires Freed(h1.(mem := Copied(h1, b, a, size)), h2, a)
    ensures Moved(h, h2, a, b, size)
  {
    hide HeapOk, BlockSize, Copied;
    var m := h1.(mem := Copied(h1, b, a, size));
    assert h2.live == (h.live - {a})[b := size];
    SameSize(h1, m);
    assert b in h2.live && SameBytes(m, h2, b);
    forall x | b <= x < b + Min(size, BlockSize(h, a)) ensures ByteAt(h2.mem, x) == ByteAt(h.mem, a + (x - b)) {
      CopiedBytes(h, h1, a, b, size, x);
      assert ByteAt(h2.mem, x) == ByteAt(m.mem, x);
    }
    forall c | c in h.live && c != a ensures BlockSize(h2, c) == BlockSize(h, c) && SameBytes(h, h2, c) {
      assert c in h2.live && SameBytes(m, h2, c);
      forall x | c <= x < c + BlockSize(h, c) ensures ByteAt(h2.mem, x) == ByteAt(h.mem, x) {
        OutsideBlock(h1, b, c, x);
        CopiedBytes(h, h1, a, b, size, x);
      }
    }
  }

  lemma SameSize(h: Heap, m: Heap)
    requires m == h.(mem := m.mem)
    ensures forall a :: BlockSize(m, a) == BlockSize(h, a)
  {
  }

  /** realloc of a block that is given out, when its copy fits: with no memory it changes nothing and
      returns none, and otherwise the bytes move to a new block. */
  lemma ReallocOk(h: Heap, a: Addr, size: int)
    requires HeapOk(h) && a in h.live && 0 < size < WORD && CopyFits(h, a, size)
    ensures Realloc(h, Some(a), size).Some?
    ensures var (h', r) := Realloc(h, Some(a), size).value;
      HeapOk(h') && (r == Alloc(h, size).1) && (if r.None? then h' == h else Moved(h, h', a, r.value, size))
  {
    hide AlmostOk, Alloc, Free, BlockSize, Copied, Moved, Freed;
    AllocOk(h, size);
    var (h1, r) := Alloc(h, size);
    if r.Some? {
      CopyFitsExactly(h, a, size);
      var m := h1.(mem := Copied(h1, r.value, a, size));
      SameHeapOk(h1, m);
      FreeOk(m, a);
      FreeKeeps(m, a);
      MovedBytes(h, h1, Free(m, a).value, a, r.value, size);
    }
  }
}
