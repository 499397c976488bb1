/** The block allocator (threads/malloc.c) over the kernel page pool: its state and its operations. */
module Malloc {
  import opened Options
  import opened Palloc

  type Addr = int

  /** Descriptor d manages blocks of 16 * 2^d bytes. */
  datatype Desc = Desc(blockSize: int, perArena: int)

  datatype Arena = Arena(desc: Option<int>, freeCnt: int)

  /** `frees[d]` is the free list of descriptor d; `live` maps each block given out to the size that was
      asked for; `foreign` are the pages of the kernel pool that others hold; `mem` are the bytes of the
      blocks that are given out. */
  datatype Heap = Heap(
    frees: seq<seq<Addr>>,
    arenas: map<int, Arena>,
    pages: Pools,
    live: map<Addr, int>,
    mem: map<int, int>,
    foreign: set<int>)

  const ARENA := 12              // sizeof (struct arena)
  const DESC_CNT := 7
  const WORD := 0x1_0000_0000    // size_t has 32 bits

  /** The descriptors as malloc_init computes them. */
  const DESCS := [Desc(16, 255), Desc(32, 127), Desc(64, 63), Desc(128, 31), Desc(256, 15), Desc(512, 7), Desc(1024, 3)]

  function Size(d: int): int
    requires 0 <= d < DESC_CNT
  {
    DESCS[d].blockSize
  }

  function PerArena(d: int): int
    requires 0 <= d < DESC_CNT
  {
    DESCS[d].perArena
  }

  /** The first descriptor with blocks of at least `size` bytes, or DESC_CNT. */
  function FindDesc(size: int, d: int): int
    requires 0 <= d <= DESC_CNT
    decreases DESC_CNT - d
  {
    if d == DESC_CNT || Size(d) >= size then d else FindDesc(size, d + 1)
  }

  /** DIV_ROUND_UP (size + sizeof *a, PGSIZE) in 32-bit arithmetic. */
  function PageCount(size: int): nat
    requires 0 <= size < WORD
  {
    (size + ARENA + PGSIZE - 1) % WORD / PGSIZE
  }

  // ---- addresses ----

  /** arena_to_block. */
  function BlockAt(p: int, d: int, i: int): Addr
    requires 0 <= d < DESC_CNT
  {
    p * PGSIZE + ARENA + i * Size(d)
  }

  /** pg_no: the page that an address is in. */
  function PageOf(a: Addr): int { a / PGSIZE }

  /** pg_ofs. */
  function OfsOf(a: Addr): int { a % PGSIZE }

  /** The number of the block at address a, and whether there is one: what block_to_arena asserts. */
  function IndexOf(a: Addr, d: int): int
    requires 0 <= d < DESC_CNT
  {
    (OfsOf(a) - ARENA) / Size(d)
  }

  predicate Aligned(a: Addr, d: int)
    requires 0 <= d < DESC_CNT
  {
    OfsOf(a) >= ARENA && (OfsOf(a) - ARENA) % Size(d) == 0 && IndexOf(a, d) < PerArena(d)
  }

  lemma {:induction false} BlockAddresses(p: int, d: int, i: int)
    requires 0 <= d < DESC_CNT && 0 <= i < PerArena(d)
    ensures PageOf(BlockAt(p, d, i)) == p && Aligned(BlockAt(p, d, i), d) && IndexOf(BlockAt(p, d, i), d) == i
    ensures p * PGSIZE + ARENA <= BlockAt(p, d, i) && BlockAt(p, d, i) + Size(d) <= (p + 1) * PGSIZE
  {
    var ofs := ARENA + i * Size(d);
    assert i * Size(d) + Size(d) == (i + 1) * Size(d) <= PerArena(d) * Size(d);
    assert 0 <= ofs < PGSIZE;
    assert BlockAt(p, d, i) == p * PGSIZE + ofs;
    assert (i * Size(d)) / Size(d) == i && (i * Size(d)) % Size(d) == 0;
  }

  lemma AlignedAddress(a: Addr, d: int)
    requires 0 <= d < DESC_CNT && Aligned(a, d)
    ensures 0 <= IndexOf(a, d) < PerArena(d) && BlockAt(PageOf(a), d, IndexOf(a, d)) == a
  {
  }

  // ---- operations ----

  function PagesOf(a: Arena): int {
    match a.desc
    case Some(_) => 1
    case None => a.freeCnt
  }

  /** block_size. */
  function BlockSize(h: Heap, a: Addr): int {
    if PageOf(a) !in h.arenas then 0
    else
      match h.arenas[PageOf(a)].desc
      case Some(d) => if 0 <= d < DESC_CNT then Size(d) else 0
      case None => PGSIZE * h.arenas[PageOf(a)].freeCnt - OfsOf(a)
  }

  /** The blocks of arena p from number i on, in order. */
  function BlocksFrom(p: int, d: int, i: int): seq<Addr>
    requires 0 <= d < DESC_CNT && 0 <= i <= PerArena(d)
    decreases PerArena(d) - i
  {
    if i == PerArena(d) then [] else [BlockAt(p, d, i)] + BlocksFrom(p, d, i + 1)
  }

  /** Taking the first block off free list d. */
  function Pop(h: Heap, d: int, size: int): (Heap, Option<Addr>)
    requires 0 <= d < DESC_CNT == |h.frees|
  {
    if h.frees[d] == [] then (h, None)
    else
      var b := h.frees[d][0];
      var p := PageOf(b);
      if p !in h.arenas then (h, None)
      else
        (h.(frees := h.frees[d := h.frees[d][1..]], live := h.live[b := size],
            arenas := h.arenas[p := h.arenas[p].(freeCnt := h.arenas[p].freeCnt - 1)]), Some(b))
  }

  /** A new arena of descriptor d in page p, with its blocks at the end of the free list. */
  function AddArena(h: Heap, d: int, p: int, kernel: Pool): Heap
    requires 0 <= d < DESC_CNT == |h.frees|
  {
    h.(pages := h.pages.(kernel := kernel), arenas := h.arenas[p := Arena(Some(d), PerArena(d))],
       frees := h.frees[d := h.frees[d] + BlocksFrom(p, d, 0)])
  }

  function MallocBig(h: Heap, size: int): (Heap, Option<Addr>)
    requires 0 <= size < WORD
  {
    var cnt := PageCount(size);
    var (kernel, page) := Get(h.pages.kernel, cnt);
    match page
    case None => (h, None)
    case Some(p) =>
      (h.(pages := h.pages.(kernel := kernel), arenas := h.arenas[p := Arena(None, cnt)],
          live := h.live[p * PGSIZE + ARENA := size]), Some(p * PGSIZE + ARENA))
  }

  /** malloc. */
  function Alloc(h: Heap, size: int): (r: (Heap, Option<Addr>))
    requires |h.frees| == DESC_CNT && 0 <= size < WORD
    ensures |r.0.frees| == DESC_CNT
  {
    if size == 0 then (h, None)
    else
      var d := FindDesc(size, 0);
      if d == DESC_CNT then MallocBig(h, size)
      else if h.frees[d] == [] then
        var (kernel, page) := Get(h.pages.kernel, 1);
        match page
        case None => (h, None)
        case Some(p) => Pop(AddArena(h, d, p, kernel), d, size)
      else Pop(h, d, size)
  }

  /** list_remove of each of the blocks bs. */
  function RemoveAll(s: seq<Addr>, bs: seq<Addr>): seq<Addr>
    decreases |bs|
  {
    if bs == [] then s else RemoveAll(RemoveOne(s, bs[0]), bs[1..])
  }

  function RemoveOne(s: seq<Addr>, a: Addr): seq<Addr> {
    if s == [] then [] else if s[0] == a then s[1..] else [s[0]] + RemoveOne(s[1..], a)
  }

  /** memset. */
  function Fill(mem: map<int, int>, a: Addr, n: int, v: int): map<int, int>
    decreases n
  {
    if n <= 0 then mem else Fill(mem[a := v], a + 1, n - 1, v)
  }

  /** memcpy. */
  function Copy(mem: map<int, int>, dst: Addr, src: Addr, n: int): map<int, int>
    decreases n
  {
    if n <= 0 then mem else Copy(mem[dst := ByteAt(mem, src)], dst + 1, src + 1, n - 1)
  }

  function ByteAt(mem: map<int, int>, a: Addr): int { if a in mem then mem[a] else 0 }

  /** Pushing block a onto the free list of its descriptor. */
  function Push(h: Heap, a: Addr, d: int): Heap
    requires 0 <= d < DESC_CNT == |h.frees| && PageOf(a) in h.arenas
  {
    var p := PageOf(a);
    h.(frees := h.frees[d := [a] + h.frees[d]], live := h.live - {a},
       arenas := h.arenas[p := h.arenas[p].(freeCnt := h.arenas[p].freeCnt + 1)])
  }

  /** Giving an arena with no block in use back. */
  function DropArena(h: Heap, p: int, d: int): Option<Heap>
    requires 0 <= d < DESC_CNT == |h.frees|
  {
    if p < 0 then None
    else
      match FreeMultiple(h.pages, p, 1)
      case None => None
      case Some(pages) =>
        Some(h.(frees := h.frees[d := RemoveAll(h.frees[d], BlocksFrom(p, d, 0))], arenas := h.arenas - {p},
                pages := pages,
                mem := Fill(h.mem, p * PGSIZE, PGSIZE, 0xcc)))
  }

  /** free of a block that is given out; None where an assertion fails. */
  function Free(h: Heap, a: Addr): Option<Heap>
    requires |h.frees| == DESC_CNT
  {
    var p := PageOf(a);
    if p < 0 || p !in h.arenas then None
    else
      match h.arenas[p].desc
      case Some(d) =>
        if !(0 <= d < DESC_CNT) || !Aligned(a, d) then None
        else
          var h1 := Push(h.(mem := Fill(h.mem, a, Size(d), 0xcc)), a, d);
          if h1.arenas[p].freeCnt >= PerArena(d) then
            if h1.arenas[p].freeCnt == PerArena(d) then DropArena(h1, p, d) else None
          else Some(h1)
      case None =>
        if OfsOf(a) != ARENA || h.arenas[p].freeCnt < 0 then None
        else
          match FreeMultiple(h.pages, p, h.arenas[p].freeCnt)
          case None => None
          case Some(pages) =>
            Some(h.(pages := pages, arenas := h.arenas - {p}, live := h.live - {a},
                    mem := Fill(h.mem, p * PGSIZE, PGSIZE * h.arenas[p].freeCnt, 0xcc)))
  }

  function Min(x: int, y: int): int { if x < y then x else y }

  /** realloc. */
  function Realloc(h: Heap, block: Option<Addr>, size: int): Option<(Heap, Option<Addr>)>
    requires |h.frees| == DESC_CNT && 0 <= size < WORD
  {
    if size == 0 then
      match block
      case None => Some((h, None))
      case Some(a) => (match Free(h, a) case None => None case Some(h') => Some((h', None)))
    else
      var (h1, r) := Alloc(h, size);
      if block.None? || r.None? then Some((h1, r))
      else
        match Free(h1.(mem := Copied(h1, r.value, block.value, size)), block.value)
        case None => None
        case Some(h2) => Some((h2, r))
  }

  /** The memory after realloc's copy of the smaller of the new and the old size. */
  function Copied(h: Heap, dst: Addr, src: Addr, size: int): map<int, int> {
    Copy(h.mem, dst, src, Min(size, BlockSize(h, src)))
  }
}
