/** What holds of the block allocator over every sequence of calls by its callers and by the other users of
    the kernel page pool. */
module MallocGuarantees {
  import opened Options
  import opened Bitmap
  import opened Palloc
  import opened Malloc
  import opened MallocInvariant
  import opened MallocSteps
  import opened MallocFree
  import opened MallocRuns

  datatype Call =
    | DoMalloc(size: int)
    | DoFree(block: Option<Addr>)
    | DoRealloc(block: Option<Addr>, size: int)
    | Write(owned: Addr, addr: Addr, value: int)     // the owner of a block writes a byte of it
    | TakePages(cnt: nat)                            // palloc_get_multiple by another user of the pool
    | GivePages(page: nat, cnt: nat)                 // and palloc_free_multiple

  /** The pages of a group. */
  function Group(page: nat, cnt: nat): (s: set<int>)
    ensures forall n :: n in s <==> page <= n < page + cnt
    ensures |s| == cnt
  {
    if cnt == 0 then {} else Group(page, cnt - 1) + {page + cnt - 1}
  }

  /** What the callers must keep to: free and realloc take blocks that are given out, a block is written
      inside its bounds, and others give back pages that they hold. */
  predicate Allowed(h: Heap, c: Call) {
    match c
    case DoMalloc(size) => 0 <= size < WORD
    case DoFree(block) => block.Some? ==> block.value in h.live
    case DoRealloc(block, size) => 0 <= size < WORD && (block.Some? ==> block.value in h.live && CopyFits(h,
        block.value, size))
    case Write(a, x, _) => a in h.live && a <= x < a + BlockSize(h, a)
    case TakePages(_) => true
    case GivePages(page, cnt) => Group(page, cnt) <= h.foreign
  }

  /** The state after a call; None where an assertion fails. */
  function Do(h: Heap, c: Call): Option<Heap>
    requires |h.frees| == DESC_CNT && Allowed(h, c)
  {
    match c
    case DoMalloc(size) => Some(Alloc(h, size).0)
    case DoFree(block) => if block.None? then Some(h) else Free(h, block.value)
    case DoRealloc(block, size) => (match Realloc(h, block, size) case None => None case Some(hr) => Some(hr.0))
    case Write(_, x, v) => Some(h.(mem := h.mem[x := v]))
    case TakePages(cnt) =>
      var (kernel, page) := Get(h.pages.kernel, cnt);
      (match page
       case None => Some(h)
       case Some(p) => Some(h.(pages := h.pages.(kernel := kernel), foreign := h.foreign + Group(p, cnt))))
    case GivePages(page, cnt) =>
      (match FreeMultiple(h.pages, page, cnt)
       case None => None
       case Some(pages) => Some(h.(pages := pages, foreign := h.foreign - Group(page, cnt))))
  }

  lemma TakePagesOk(h: Heap, cnt: nat)
    requires HeapOk(h)
    ensures HeapOk(Do(h, TakePages(cnt)).value)
  {
    hide ListsOk, LiveOk, ArenasOk, PagesOk, Get, Owned, AllAre, Used, Alloc, Realloc, Free, FreeMultiple, ForeignUsed,
      Group;
    if Get(h.pages.kernel, cnt).1.Some? {
      GetTakesFreePages(h.pages.kernel, cnt);
      PagesTaken(h.arenas, h.pages.kernel, Get(h.pages.kernel, cnt).0, h.foreign, Get(h.pages.kernel, cnt).1.value,
                 cnt);
    }
  }

  lemma PagesTaken(arenas: Arenas, kernel: Pool, kernel': Pool, foreign: set<int>, page: nat, cnt: nat)
    requires PagesOk(arenas, kernel, foreign) && ForeignUsed(foreign, kernel)
    requires forall n | page <= n < page + cnt :: !Used(kernel, n)
    requires forall n :: Used(kernel', n) == (Used(kernel, n) || page <= n < page + cnt)
    ensures PagesOk(arenas, kernel', foreign + Group(page, cnt)) && ForeignUsed(foreign + Group(page, cnt), kernel')
  {
    hide Used, Group;
    forall p, n | InArena(arenas, p, n) ensures n !in foreign + Group(page, cnt) && Used(kernel', n) {
      assert Used(kernel, n);
    }
    forall n | Used(kernel', n) ensures n in foreign + Group(page, cnt) || exists p :: InArena(arenas, p, n) {
      assert page <= n < page + cnt ==> n in Group(page, cnt);
    }
  }

  lemma GivePagesOk(h: Heap, page: nat, cnt: nat)
    requires HeapOk(h) && Group(page, cnt) <= h.foreign
    ensures Do(h, GivePages(page, cnt)).Some? && HeapOk(Do(h, GivePages(page, cnt)).value)
  {
    hide ListsOk, LiveOk, ArenasOk, PagesOk, ForeignUsed, Group, Alloc, Realloc, Free;
    if cnt > 0 {
      GroupOwned(h.foreign, h.pages.kernel, page, cnt);
      PutUses(h.pages.kernel, page, cnt);
      PagesGiven(h.arenas, h.pages.kernel, Put(h.pages.kernel, page, cnt), h.foreign, page, cnt);
    } else {
      assert h.foreign - Group(page, cnt) == h.foreign;
    }
  }

  lemma GroupOwned(foreign: set<int>, kernel: Pool, page: nat, cnt: nat)
    requires ForeignUsed(foreign, kernel) && Group(page, cnt) <= foreign && cnt > 0
    ensures Owned(kernel, page, cnt) && FromPool(kernel, page)
  {
    forall n | page <= n < page + cnt ensures Used(kernel, n) { assert n in Group(page, cnt); }
    assert Used(kernel, page) && Used(kernel, page + cnt - 1);
  }

  lemma PutUses(kernel: Pool, page: nat, cnt: nat)
    requires Owned(kernel, page, cnt)
    ensures forall n :: Used(Put(kernel, page, cnt), n) == (Used(kernel, n) && !(page <= n < page + cnt))
    ensures Put(kernel, page, cnt).base == kernel.base && |Put(kernel, page, cnt).used| == |kernel.used|
  {
  }

  lemma PagesGiven(arenas: Arenas, kernel: Pool, kernel': Pool, foreign: set<int>, page: nat, cnt: nat)
    requires PagesOk(arenas, kernel, foreign) && ForeignUsed(foreign, kernel) && Group(page, cnt) <= foreign
    requires forall n :: Used(kernel', n) == (Used(kernel, n) && !(page <= n < page + cnt))
    ensures PagesOk(arenas, kernel', foreign - Group(page, cnt)) && ForeignUsed(foreign - Group(page, cnt), kernel')
  {
    hide Used;
    forall p, n | InArena(arenas, p, n) ensures Used(kernel', n) {
      assert n !in foreign;
      assert page <= n < page + cnt ==> n in Group(page, cnt);
    }
    forall n | Used(kernel', n) ensures n in foreign - Group(page, cnt) || exists p :: InArena(arenas, p, n) {
      assert Used(kernel, n);
    }
  }

  /** Every permitted call meets the source's assertions and keeps the heap in order. */
  lemma DoOk(h: Heap, c: Call)
    requires HeapOk(h) && Allowed(h, c)
    ensures Do(h, c).Some? && HeapOk(Do(h, c).value)
  {
    hide AlmostOk, Alloc, Free, CopyFits, BlockSize;
    match c
    case DoMalloc(size) => AllocOk(h, size);
    case DoFree(block) => if block.Some? { FreeOk(h, block.value); }
    case DoRealloc(block, size) =>
      if block.None? { AllocOk(h, size); }
      else if size == 0 { FreeOk(h, block.value); }
      else { ReallocOk(h, block.value, size); }
    case Write(_, x, v) => SameHeapOk(h, h.(mem := h.mem[x := v]));
    case TakePages(cnt) => TakePagesOk(h, cnt);
    case GivePages(page, cnt) => GivePagesOk(h, page, cnt);
  }

  // ---- runs ----

  /** The allocator after malloc_init, over pools of which no page is in use. */
  function Start(ps: Pools): Heap {
    Heap([[], [], [], [], [], [], []], map[], ps, map[], map[], {})
  }

  /** Each call of the run is permitted when it is made. */
  predicate Permitted(h: Heap, cs: seq<Call>)
    decreases |cs|
  {
    cs == [] || (|h.frees| == DESC_CNT &&
         Allowed(h, cs[0]) && (Do(h, cs[0]).Some? ==> Permitted(Do(h, cs[0]).value, cs[1..])))
  }

  function Run(h: Heap, cs: seq<Call>): Option<Heap>
    requires Permitted(h, cs)
    decreases |cs|
  {
    if cs == [] then Some(h)
    else
      match Do(h, cs[0])
      case None => None
      case Some(h') => Run(h', cs[1..])
  }

  lemma {:induction false} RunOk(h: Heap, cs: seq<Call>)
    requires HeapOk(h) && Permitted(h, cs)
    ensures Run(h, cs).Some? && HeapOk(Run(h, cs).value)
    decreases |cs|
  {
    if cs != [] {
      DoOk(h, cs[0]);
      hide HeapOk, Do;
      RunOk(Do(h, cs[0]).value, cs[1..]);
    }
  }

  /** A heap that some run reaches from the start of the kernel. */
  ghost predicate Reachable(h: Heap) {
    exists start: nat, end: nat, limit: nat, cs: seq<Call> :: ReachedBy(h, start, end, limit, cs)
  }

  ghost predicate ReachedBy(h: Heap, start: nat, end: nat, limit: nat, cs: seq<Call>) {
    && start <= end && Init(start, end, limit).Some?
    && Permitted(Start(Init(start, end, limit).value), cs) && Run(Start(Init(start, end, limit).value), cs) == Some(h)
  }

  lemma StartOk(start: nat, end: nat, limit: nat)
    requires start <= end && Init(start, end, limit).Some?
    ensures HeapOk(Start(Init(start, end, limit).value))
  {
    InitSeparates(start, end, limit);
    hide Init;
    var h := Start(Init(start, end, limit).value);
    forall d, a | 0 <= d < DESC_CNT
      ensures Count(h.frees[d], a) == if IsBlock(h.arenas, a, d) && a !in h.live then 1 else 0
    {
      assert h.frees[d] == [];
    }
  }

  /** Every run keeps the heap in order. */
  lemma ReachableOk(h: Heap)
    requires Reachable(h)
    ensures HeapOk(h)
  {
    var start: nat, end: nat, limit: nat, cs: seq<Call> :| ReachedBy(h, start, end, limit, cs);
    StartOk(start, end, limit);
    RunOk(Start(Init(start, end, limit).value), cs);
  }

  /** No run makes an assertion of the allocator fail. */
  lemma NoAssertionFails(h: Heap, c: Call)
    requires Reachable(h) && |h.frees| == DESC_CNT && Allowed(h, c)
    ensures Do(h, c).Some? && HeapOk(Do(h, c).value)
  {
    ReachableOk(h);
    DoOk(h, c);
  }

  // ---- what that means ----

  /** The blocks that are given out are apart from each other, from the arena headers, and from the pages of
      others; and each is as large as was asked for, unless the request was within 11 of 2^32. */
  lemma BlocksApart(h: Heap, a: Addr, x: Addr)
    requires Reachable(h) && a in h.live && a <= x < a + BlockSize(h, a)
    ensures forall b | b in h.live && b != a :: !(b <= x < b + BlockSize(h, b))
    ensures forall p | p in h.arenas :: !(p * PGSIZE <= x < p * PGSIZE + ARENA)
    ensures PageOf(x) !in h.foreign && Used(h.pages.kernel, PageOf(x))
    ensures h.live[a] <= BlockSize(h, a) <==> h.live[a] < WORD - 11
  {
    ReachableOk(h);
    forall b | b in h.live && b != a ensures !(b <= x < b + BlockSize(h, b)) { OutsideBlock(h, b, a, x); }
    forall p | p in h.arenas ensures !(p * PGSIZE <= x < p * PGSIZE + ARENA) { OutsideHeader(h, a, x, p); }
    InsidePages(h, a, x);
    AsLargeAsAsked(h, a);
  }

  lemma OutsideHeader(h: Heap, a: Addr, x: Addr, p: int)
    requires HeapOk(h) && a in h.live && a <= x < a + BlockSize(h, a) && p in h.arenas
    ensures !(p * PGSIZE <= x < p * PGSIZE + ARENA)
  {
    BlockInArena(h, a);
    ArenasApart(h.arenas, h.pages.kernel, h.foreign, p, p);
    if PageOf(a) != p { OutsideArena(h, p, a, x); }
  }

  lemma InsidePages(h: Heap, a: Addr, x: Addr)
    requires HeapOk(h) && a in h.live && a <= x < a + BlockSize(h, a)
    ensures PageOf(x) !in h.foreign && Used(h.pages.kernel, PageOf(x))
  {
    BlockInArena(h, a);
    hide ListsOk, LiveOk, ArenasOk, BlockSize;
    assert InArena(h.arenas, PageOf(a), PageOf(x));
  }

  lemma AsLargeAsAsked(h: Heap, a: Addr)
    requires HeapOk(h) && a in h.live
    ensures h.live[a] <= BlockSize(h, a) <==> h.live[a] < WORD - 11
  {
    assert LiveAt(h.arenas, h.live, a) by { hide AlmostOk, LiveAt; LiveInHeap(h, a); }
    hide HeapOk, AlmostOk;
  }

  lemma LiveInHeap(h: Heap, a: Addr)
    requires HeapOk(h) && a in h.live
    ensures LiveAt(h.arenas, h.live, a)
  {
    hide LiveAt;
  }

  /** Each free list holds exactly the blocks of its descriptor's arenas that are not given out, once each;
      and each arena's count of free blocks is the number of its blocks on the list. */
  lemma FreeListsExact(h: Heap, d: int, p: int)
    requires Reachable(h) && 0 <= d < DESC_CNT
    ensures |h.frees| == DESC_CNT
    ensures forall a :: a in h.frees[d] <==> IsBlock(h.arenas, a, d) && a !in h.live
    ensures forall i, j | 0 <= i < j < |h.frees[d]| :: h.frees[d][i] != h.frees[d][j]
    ensures p in h.arenas && h.arenas[p].desc == Some(d) ==>
      h.arenas[p].freeCnt == |set i | 0 <= i < PerArena(d) && BlockAt(p, d, i) in h.frees[d]| < PerArena(d)
  {
    ReachableOk(h);
    forall a ensures a in h.frees[d] <==> IsBlock(h.arenas, a, d) && a !in h.live { ListMember(h, d, a); }
    NoneTwice(h, d);
    if p in h.arenas && h.arenas[p].desc == Some(d) { FreeCountExact(h, d, p); }
  }

  lemma ListMember(h: Heap, d: int, a: Addr)
    requires HeapOk(h) && DescOk(d)
    ensures a in h.frees[d] <==> IsBlock(h.arenas, a, d) && a !in h.live
  {
    assert Count(h.frees[d], a) == if IsBlock(h.arenas, a, d) && a !in h.live then 1 else 0;
  }

  lemma NoneTwice(h: Heap, d: int)
    requires HeapOk(h) && DescOk(d)
    ensures forall i, j | 0 <= i < j < |h.frees[d]| :: h.frees[d][i] != h.frees[d][j]
  {
    var s := h.frees[d];
    forall i, j | 0 <= i < j < |s| ensures s[i] != s[j] {
      CountsOne(h, d, s[i]);
      hide HeapOk;
      assert s == s[..j] + s[j..] && s[i] in s[..j] && s[j] in s[j..];
      assert Count(s, s[i]) == Count(s[..j], s[i]) + Count(s[j..], s[i]);
    }
  }

  lemma CountsOne(h: Heap, d: int, a: Addr)
    requires HeapOk(h) && DescOk(d)
    ensures Count(h.frees[d], a) <= 1
  {
    assert Count(h.frees[d], a) == if IsBlock(h.arenas, a, d) && a !in h.live then 1 else 0;
  }

  lemma FreeCountExact(h: Heap, d: int, p: int)
    requires HeapOk(h) && DescOk(d) && p in h.arenas && h.arenas[p].desc == Some(d)
    ensures h.arenas[p].freeCnt == |set i | 0 <= i < PerArena(d) && BlockAt(p, d, i) in h.frees[d]| < PerArena(d)
  {
    assert ArenaAt(h.arenas, h.live, {}, p);
    var free := set i | 0 <= i < PerArena(d) && BlockAt(p, d, i) in h.frees[d];
    var taken := LiveIn(h.live, p, d);
    forall i | 0 <= i < PerArena(d) ensures i in free <==> i !in taken {
      BlockAddresses(p, d, i);
      ListMember(h, d, BlockAt(p, d, i));
    }
    hide HeapOk, BlockAt, Aligned;
    var all := Group(0, PerArena(d));
    assert free + taken == all && free !! taken;
  }

  /** When no block is given out, no arena is left, the free lists are empty, and exactly the pages of other
      users are in use: everything went back to the page allocator. */
  lemma AllFreed(h: Heap)
    requires Reachable(h) && h.live == map[]
    ensures h.arenas == map[] && h.frees == [[], [], [], [], [], [], []]
    ensures forall n :: Used(h.pages.kernel, n) <==> n in h.foreign
  {
    ReachableOk(h);
    forall p ensures p !in h.arenas {
      if p in h.arenas { NoEmptyArena(h, p); }
    }
    forall d | 0 <= d < DESC_CNT ensures h.frees[d] == [] {
      if h.frees[d] != [] { ListMember(h, d, h.frees[d][0]); }
    }
    forall n ensures Used(h.pages.kernel, n) <==> n in h.foreign {
      assert Used(h.pages.kernel, n) && n !in h.foreign ==> exists p :: InArena(h.arenas, p, n);
    }
  }

  /** Some block of every arena is given out. */
  lemma NoEmptyArena(h: Heap, p: int)
    requires HeapOk(h) && p in h.arenas
    ensures exists a :: a in h.live && PageOf(a) == p
  {
    assert ArenaAt(h.arenas, h.live, {}, p);
    match h.arenas[p].desc
    case Some(d) =>
      var i :| i in LiveIn(h.live, p, d);
      BlockAddresses(p, d, i);
      assert BlockAt(p, d, i) in h.live;
    case None =>
      SplitAddress(0, p);
      assert p * PGSIZE + ARENA in h.live;
  }

  ghost predicate NoRoom(h: Heap, d: int, size: int)
    requires 0 <= size < WORD
  {
    if DescOk(d) then
      && (forall a | IsBlock(h.arenas, a, d) :: a in h.live)
      && (forall j: nat :: !AllAre(h.pages.kernel.used, j, 1, false))
    else
      PageCount(size) == 0 || forall j: nat :: !AllAre(h.pages.kernel.used, j, PageCount(size), false)
  }

  /** malloc returns null only for a request of 0 bytes, or when every block that would do is given out and
      the page pool has no group of free pages long enough. */
  lemma NullOnlyWhenFull(h: Heap, size: int)
    requires Reachable(h) && 0 <= size < WORD && |h.frees| == DESC_CNT
    ensures Alloc(h, size).1.None? <==> size == 0 || NoRoom(h, FindDesc(size, 0), size)
  {
    ReachableOk(h);
    hide Get, AllAre, PageCount, Pop, FindDesc, AddArena;
    FindDescIsLeast(size, 0);
    var d := FindDesc(size, 0);
    GetFailsWhenFull(h.pages.kernel, 1);
    GetFailsWhenFull(h.pages.kernel, PageCount(size));
    if 0 < size && d < DESC_CNT {
      PopGives(h, d, size);
      ListEmpty(h, d);
    }
  }

  lemma ListEmpty(h: Heap, d: int)
    requires HeapOk(h) && DescOk(d)
    ensures h.frees[d] == [] <==> forall a | IsBlock(h.arenas, a, d) :: a in h.live
  {
    forall a ensures a in h.frees[d] <==> IsBlock(h.arenas, a, d) && a !in h.live { ListMember(h, d, a); }
    if h.frees[d] != [] {
      var a := h.frees[d][0];
      assert a in h.frees[d];
      assert IsBlock(h.arenas, a, d) && a !in h.live;
    }
  }

  lemma PopGives(h: Heap, d: int, size: int)
    requires HeapOk(h) && DescOk(d) && 0 < size <= Size(d)
    ensures h.frees[d] != [] ==> Pop(h, d, size).1.Some?
    ensures h.frees[d] == [] && Get(h.pages.kernel, 1).1.Some? ==>
      Pop(AddArena(h, d, Get(h.pages.kernel, 1).1.value, Get(h.pages.kernel, 1).0), d, size).1.Some?
  {
    if h.frees[d] != [] { PopOk(h, d, size, {}); }
    else if Get(h.pages.kernel, 1).1.Some? { NewArenaUndone(h, d, size); }
  }

  // ---- a copy that overruns ----

  /** A request of more than a page, on a heap without blocks. */
  lemma BigBlock(ps: Pools)
    requires 3 <= |ps.kernel.used| && forall n | 0 <= n < |ps.kernel.used| :: !ps.kernel.used[n]
    ensures var (h, a) := Alloc(Start(ps), 5000);
      && a.Some? && a.value in h.live && BlockSize(h, a.value) == 2 * PGSIZE - ARENA
      && |h.pages.kernel.used| == |ps.kernel.used| && !h.pages.kernel.used[2]
  {
    var h0 := Start(ps);
    BigRequest(h0, 5000);
    assert PageCount(5000) == 2 && Scan(ps.kernel.used, 0, 2) == Some(0);
    hide Scan, Alloc, PageOf, OfsOf;
    SplitAddress(0, ps.kernel.base);
  }

  lemma BigRequest(h: Heap, size: int)
    requires |h.frees| == DESC_CNT && 1024 < size < WORD
    ensures Alloc(h, size) == MallocBig(h, size)
  {
    hide MallocBig;
    FindDescIsLeast(size, 0);
  }

  /** realloc can copy past the end of the new block: that of a block of 5000 bytes to 2^32 - 1 does, when it is the
      first block of all and a third page is free. */
  lemma CopyOverruns(start: nat, end: nat, limit: nat)
    requires start <= end && Init(start, end, limit).Some? && 3 <= |Init(start, end, limit).value.kernel.used|
    ensures var (h, a) := Alloc(Start(Init(start, end, limit).value), 5000);
      && Reachable(h) && a.Some? && a.value in h.live && !CopyFits(h, a.value, WORD - 1)
      && var (h1, r) := Alloc(h, WORD - 1);
      && r.Some? && Min(WORD - 1, BlockSize(h1, a.value)) > BlockSize(h1, r.value)
  {
    InitSeparates(start, end, limit);
    hide Init, Alloc, BlockSize, HeapOk;
    var h0 := Start(Init(start, end, limit).value);
    BigBlock(h0.pages);
    var (h, a) := Alloc(h0, 5000);
    AfterFirst(start, end, limit, 5000);
    ReachableOk(h);
    BigRequest(h, WORD - 1);
    OnePage(WORD - 1);
    assert AllAre(h.pages.kernel.used, 2, 1, false);
    CopyFitsExactly(h, a.value, WORD - 1);
  }

  /** The first call. */
  lemma AfterFirst(start: nat, end: nat, limit: nat, size: int)
    requires start <= end && Init(start, end, limit).Some? && 0 <= size < WORD
    ensures Reachable(Alloc(Start(Init(start, end, limit).value), size).0)
  {
    hide Init, Alloc;
    var h := Start(Init(start, end, limit).value);
    var cs := [DoMalloc(size)];
    assert cs[1..] == [] && Allowed(h, cs[0]) && Do(h, cs[0]) == Some(Alloc(h, size).0);
    assert Permitted(Alloc(h, size).0, []) && Permitted(h, cs);
    assert Run(Alloc(h, size).0, []) == Some(Alloc(h, size).0) && Run(h, cs) == Run(Alloc(h, size).0, []);
    assert ReachedBy(Alloc(h, size).0, start, end, limit, cs);
  }
}
