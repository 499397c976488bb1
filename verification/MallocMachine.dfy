/** The allocator as threads/malloc.c has it: descriptors, free lists and arenas changed in place, over the
    page pools.  Each method is proved to do what the operation of module Malloc says. */
module MallocMachine {
  import opened Options
  import opened Palloc
  import opened Malloc
  import opened MallocInvariant
  import opened MallocSteps
  import opened MallocFree
  import opened MallocRuns

  /** The loop of malloc_init. */
  method MallocInit() returns (descs: seq<Desc>)
    ensures descs == DESCS
  {
    descs := [];
    var blockSize := 16;
    while blockSize < PGSIZE / 2
      invariant |descs| <= DESC_CNT && descs == DESCS[..|descs|]
      invariant blockSize == if |descs| < DESC_CNT then DESCS[|descs|].blockSize else 2048
      decreases PGSIZE - blockSize
    {
      descs := descs + [Desc(blockSize, (PGSIZE - ARENA) / blockSize)];
      blockSize := blockSize * 2;
    }
  }

  class Allocator {
    const descs: seq<Desc>
    const kernel: PagePool
    const user: PagePool
    var frees: seq<seq<Addr>>
    var arenas: map<int, Arena>
    var mem: map<int, int>
    ghost var live: map<Addr, int>
    ghost var foreign: set<int>

    constructor (kernel: PagePool, user: PagePool)
      requires kernel.used != user.used && kernel.base + kernel.used.Length <= user.base
      requires forall i | 0 <= i < kernel.used.Length :: !kernel.used[i]
      ensures this.kernel == kernel && this.user == user && Valid()
      ensures View() == Heap([[], [], [], [], [], [], []], map[], Pools(kernel.View(), user.View()), map[], map[], {})
    {
      var ds := MallocInit();
      this.descs := ds;
      this.kernel := kernel;
      this.user := user;
      frees := [[], [], [], [], [], [], []];
      arenas := map[];
      mem := map[];
      live := map[];
      foreign := {};
      new;
      EmptyOk(View());
    }

    ghost function View(): Heap
      reads this, kernel.used, user.used
    {
      Heap(frees, arenas, Pools(kernel.View(), user.View()), live, mem, foreign)
    }

    ghost predicate Valid()
      reads this, kernel.used, user.used
    {
      descs == DESCS && kernel.used != user.used && HeapOk(View())
    }

    /** The loop over the descriptors in malloc. */
    method FindDescriptor(size: int) returns (d: int)
      requires descs == DESCS
      ensures d == FindDesc(size, 0) && 0 <= d <= DESC_CNT
    {
      d := 0;
      while d < |descs|
        invariant 0 <= d <= DESC_CNT && FindDesc(size, 0) == FindDesc(size, d)
      {
        if descs[d].blockSize >= size { return; }
        d := d + 1;
      }
    }

    /** The loop that puts the blocks of a new arena at the end of the free list. */
    method AddBlocks(p: int, d: int)
      requires descs == DESCS && DescOk(d) && |frees| == DESC_CNT
      modifies this`frees
      ensures frees == old(frees)[d := old(frees)[d] + BlocksFrom(p, d, 0)]
    {
      var i := 0;
      while i < descs[d].perArena
        invariant 0 <= i <= PerArena(d) && |frees| == DESC_CNT
        invariant frees == old(frees)[d := frees[d]]
        invariant frees[d] + BlocksFrom(p, d, i) == old(frees)[d] + BlocksFrom(p, d, 0)
      {
        frees := frees[d := frees[d] + [BlockAt(p, d, i)]];
        i := i + 1;
      }
      assert frees[d] + BlocksFrom(p, d, i) == frees[d];
    }

    /** The loop that takes the blocks of an arena off the free list. */
    method RemoveBlocks(p: int, d: int)
      requires descs == DESCS && DescOk(d) && |frees| == DESC_CNT
      modifies this`frees
      ensures frees == old(frees)[d := RemoveAll(old(frees)[d], BlocksFrom(p, d, 0))]
    {
      var i := 0;
      while i < descs[d].perArena
        invariant 0 <= i <= PerArena(d) && |frees| == DESC_CNT
        invariant frees == old(frees)[d := frees[d]]
        invariant RemoveAll(frees[d], BlocksFrom(p, d, i)) == RemoveAll(old(frees)[d], BlocksFrom(p, d, 0))
      {
        frees := frees[d := RemoveOne(frees[d], BlockAt(p, d, i))];
        i := i + 1;
      }
    }

    /** memset. */
    method SetBytes(a: Addr, n: int, v: int)
      modifies this`mem
      ensures mem == Fill(old(mem), a, n, v)
    {
      var i := 0;
      while i < n
        invariant 0 <= i && Fill(mem, a + i, n - i, v) == Fill(old(mem), a, n, v)
      {
        mem := mem[a + i := v];
        i := i + 1;
      }
    }

    /** memcpy. */
    method CopyMem(dst: Addr, src: Addr, n: int)
      modifies this`mem
      ensures mem == Copy(old(mem), dst, src, n)
    {
      var i := 0;
      while i < n
        invariant 0 <= i && Copy(mem, dst + i, src + i, n - i) == Copy(old(mem), dst, src, n)
      {
        mem := mem[dst + i := ByteAt(mem, src + i)];
        i := i + 1;
      }
    }

    /** palloc_free_multiple. */
    method FreePages(page: nat, cnt: nat)
      requires kernel.used != user.used && cnt > 0 && FreeMultiple(Pools(kernel.View(), user.View()), page, cnt).Some?
      modifies kernel.used, user.used
      ensures Some(Pools(kernel.View(), user.View())) == FreeMultiple(old(Pools(kernel.View(), user.View())), page, cnt)
    {
      if FromPool(kernel.View(), page) {
        kernel.FreeMultiple(page, cnt);
      } else {
        user.FreeMultiple(page, cnt);
      }
    }

    method Malloc(size: int) returns (r: Option<Addr>)
      requires Valid() && 0 <= size < WORD
      modifies this, kernel.used
      ensures Valid() && (View(), r) == Alloc(old(View()), size)
    {
      ghost var h := View();
      AllocOk(h, size);
      if size == 0 { return None; }
      var d := FindDescriptor(size);
      if d == |descs| {
        r := MallocPages(size);
      } else {
        r := MallocBlock(d, size);
      }
    }

    method MallocPages(size: int) returns (r: Option<Addr>)
      requires 0 < size < WORD && kernel.used != user.used
      modifies this, kernel.used
      ensures (View(), r) == MallocBig(old(View()), size)
    {
      var cnt := PageCount(size);
      var a := kernel.GetMultiple(cnt);
      if a.None? { return None; }
      arenas := arenas[a.value := Arena(None, cnt)];
      live := live[a.value * PGSIZE + ARENA := size];
      return Some(a.value * PGSIZE + ARENA);
    }

    method MallocBlock(d: int, size: int) returns (r: Option<Addr>)
      requires Valid() && DescOk(d) && 0 < size < WORD && d == FindDesc(size, 0)
      modifies this, kernel.used
      ensures (View(), r) == Alloc(old(View()), size)
    {
      ghost var h := View();
      FindDescIsLeast(size, 0);
      if frees[d] == [] {
        var a := kernel.GetMultiple(1);
        if a.None? { return None; }
        AddArenaOk(h, d);
        arenas := arenas[a.value := Arena(Some(d), descs[d].perArena)];
        AddBlocks(a.value, d);
        assert View() == AddArena(h, d, a.value, Get(h.pages.kernel, 1).0);
        PopOk(View(), d, size, {a.value as int});
      } else {
        PopOk(h, d, size, {});
      }
      r := TakeBlock(d, size);
    }

    /** list_pop_front of the free list. */
    method TakeBlock(d: int, size: int) returns (r: Option<Addr>)
      requires |frees| == DESC_CNT && DescOk(d) && frees[d] != [] && Pop(View(), d, size).1.Some?
      modifies this
      ensures (View(), r) == Pop(old(View()), d, size)
    {
      var b := frees[d][0];
      frees := frees[d := frees[d][1..]];
      live := live[b := size];
      var p := PageOf(b);
      arenas := arenas[p := arenas[p].(freeCnt := arenas[p].freeCnt - 1)];
      return Some(b);
    }

    method Release(a: Option<Addr>)
      requires Valid() && (a.Some? ==> a.value in live)
      modifies this, kernel.used, user.used
      ensures Valid()
      ensures a.None? ==> View() == old(View())
      ensures a.Some? ==> Some(View()) == Free(old(View()), a.value)
    {
      if a.None? { return; }
      ghost var h := View();
      FreeOk(h, a.value);
      var p := PageOf(a.value);
      assert LiveAt(h.arenas, h.live, a.value);
      ArenasApart(h.arenas, h.pages.kernel, h.foreign, p, p);
      match arenas[p].desc
      case Some(d) => ReleaseBlock(a.value, d);
      case None => ReleasePages(a.value);
    }

    method ReleasePages(a: Addr)
      requires kernel.used != user.used && |frees| == DESC_CNT && Free(View(), a).Some?
      requires PageOf(a) in arenas && arenas[PageOf(a)].desc == None && arenas[PageOf(a)].freeCnt > 0
      modifies this, kernel.used, user.used
      ensures Some(View()) == Free(old(View()), a)
    {
      var p := PageOf(a);
      var cnt := arenas[p].freeCnt;
      SetBytes(p * PGSIZE, PGSIZE * cnt, 0xcc);
      FreePages(p, cnt);
      arenas := arenas - {p};
      live := live - {a};
    }

    method ReleaseBlock(a: Addr, d: int)
      requires descs == DESCS && kernel.used != user.used && |frees| == DESC_CNT && Free(View(), a).Some? && DescOk(d)
      requires PageOf(a) in arenas && arenas[PageOf(a)].desc == Some(d)
      modifies this, kernel.used, user.used
      ensures Some(View()) == Free(old(View()), a)
    {
      var p := PageOf(a);
      SetBytes(a, descs[d].blockSize, 0xcc);
      frees := frees[d := [a] + frees[d]];
      live := live - {a};
      arenas := arenas[p := arenas[p].(freeCnt := arenas[p].freeCnt + 1)];
      if arenas[p].freeCnt >= descs[d].perArena {
        RemoveBlocks(p, d);
        SetBytes(p * PGSIZE, PGSIZE, 0xcc);
        FreePages(p, 1);
        arenas := arenas - {p};
      }
    }

    method Resize(block: Option<Addr>, size: int) returns (r: Option<Addr>)
      requires Valid() && 0 <= size < WORD
      requires (block.Some? ==> block.value in live && CopyFits(View(), block.value, size))
      modifies this, kernel.used, user.used
      ensures Valid() && Some((View(), r)) == Realloc(old(View()), block, size)
    {
      ghost var h := View();
      if size == 0 {
        Release(block);
        return None;
      }
      AllocOk(h, size);
      r := Malloc(size);
      if block.Some? && r.Some? {
        ReallocOk(h, block.value, size);
        var oldSize := SizeOf(block.value);
        var minSize := if size < oldSize then size else oldSize;
        ghost var h1 := View();
        CopyMem(r.value, block.value, minSize);
        SameHeapOk(h1, View());
        Release(block);
      }
    }

    /** block_size. */
    method SizeOf(a: Addr) returns (n: int)
      requires Valid() && a in live
      ensures n == BlockSize(View(), a)
    {
      assert LiveAt(arenas, live, a);
      match arenas[PageOf(a)].desc
      case Some(d) => n := descs[d].blockSize;
      case None => n := PGSIZE * arenas[PageOf(a)].freeCnt - OfsOf(a);
    }
  }

  lemma EmptyOk(h: Heap)
    requires h == Heap([[], [], [], [], [], [], []], map[], h.pages, map[], map[], {}) && Separate(h.pages)
    requires forall n :: !Used(h.pages.kernel, n)
    ensures HeapOk(h)
  {
    forall d, a | 0 <= d < DESC_CNT
      ensures Count(h.frees[d], a) == if IsBlock(h.arenas, a, d) && a !in h.live then 1 else 0
    {
      assert h.frees[d] == [];
    }
  }
}
