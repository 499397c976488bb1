/** Loading the segments of an executable (validate_segment, the PT_LOAD case of load, and load_segment in
    userprog/process.c of project 2). */
module Segments {
  import opened Options
  import opened Bytes
  import Palloc

  const PGSIZE := 4096
  const PHYS_BASE := 0xC000_0000
  const WORD := 0x1_0000_0000

  type Word32 = x: int | 0 <= x < 0x1_0000_0000

  /** The fields of struct Elf32_Phdr that loading looks at. */
  datatype Phdr = Phdr(offset: Word32, vaddr: Word32, filesz: Word32, memsz: Word32, writable: bool)

  function Add(x: int, y: int): int { (x + y) % WORD }

  function Sub(x: int, y: int): int { (x - y) % WORD }

  /** validate_segment, for a file of `length` bytes; the sums are of 32 bits. */
  predicate Validate(p: Phdr, length: int) {
    && p.offset % PGSIZE == p.vaddr % PGSIZE
    && p.offset <= length
    && p.memsz >= p.filesz
    && p.memsz != 0
    && p.vaddr < PHYS_BASE
    && Add(p.vaddr, p.memsz) < PHYS_BASE
    && Add(p.vaddr, p.memsz) >= p.vaddr
    && p.vaddr >= PGSIZE
  }

  /** A segment is accepted exactly if it is not empty, lies wholly between page 1 and PHYS_BASE, holds its
      part of the file, and starts in the file at the same place in a page. */
  lemma ValidateMeans(p: Phdr, length: int)
    ensures Validate(p, length) <==>
      (p.offset - p.vaddr) % PGSIZE == 0 && p.offset <= length && p.filesz <= p.memsz && 0 < p.memsz
      && PGSIZE <= p.vaddr && p.vaddr + p.memsz < PHYS_BASE
  {
    if p.vaddr + p.memsz >= WORD { assert Add(p.vaddr, p.memsz) == p.vaddr + p.memsz - WORD; }
  }

  /** ROUND_UP (x, PGSIZE), in 32 bits. */
  function RoundUp(x: int): int { Add(x, PGSIZE - 1) / PGSIZE * PGSIZE % WORD }

  /** What load hands to load_segment. */
  datatype Plan = Plan(filePage: int, memPage: int, readBytes: int, zeroBytes: int)

  function PlanOf(p: Phdr): Plan {
    var pageOffset := p.vaddr % PGSIZE;
    if p.filesz > 0 then
      var readBytes := Add(pageOffset, p.filesz);
      Plan(p.offset - p.offset % PGSIZE, p.vaddr - pageOffset, readBytes,
           Sub(RoundUp(Add(pageOffset, p.memsz)), readBytes))
    else
      Plan(p.offset - p.offset % PGSIZE, p.vaddr - pageOffset, 0, RoundUp(Add(pageOffset, p.memsz)))
  }

  lemma RoundUpIs(x: int)
    requires 0 <= x <= PHYS_BASE
    ensures RoundUp(x) % PGSIZE == 0 && x <= RoundUp(x) < x + PGSIZE
  {
  }

  /** For an accepted segment nothing wraps around: load_segment's assertions hold, and the pages that it is to
      map lie between page 1 and PHYS_BASE and cover the segment. */
  lemma PlanFits(p: Phdr, length: int)
    requires Validate(p, length)
    ensures var l := PlanOf(p);
      && 0 <= l.readBytes && 0 <= l.zeroBytes && l.readBytes + l.zeroBytes < WORD
      && (l.readBytes + l.zeroBytes) % PGSIZE == 0
      && l.filePage % PGSIZE == 0 && l.memPage % PGSIZE == 0 && 0 <= l.filePage <= length
      && PGSIZE <= l.memPage <= p.vaddr && p.vaddr + p.memsz <= l.memPage + l.readBytes + l.zeroBytes <= PHYS_BASE
      && l.readBytes == (if p.filesz > 0 then p.vaddr % PGSIZE + p.filesz else 0)
      && p.vaddr - l.memPage == p.offset - l.filePage
  {
    ValidateMeans(p, length);
    PlanIs(p, length);
    RoundUpIs(p.vaddr % PGSIZE + p.memsz);
    BelowBase(p.vaddr, p.memsz);
    hide RoundUp, PlanOf, Validate;
    SamePlace(p.offset, p.vaddr);
  }

  /** The plan without the wrapping. */
  lemma PlanIs(p: Phdr, length: int)
    requires Validate(p, length)
    ensures var pageOffset := p.vaddr % PGSIZE; var readBytes := if p.filesz > 0 then pageOffset + p.filesz else 0;
      PlanOf(p) == Plan(p.offset - p.offset % PGSIZE, p.vaddr - pageOffset, readBytes,
                        RoundUp(pageOffset + p.memsz) - readBytes)
  {
    ValidateMeans(p, length);
    RoundUpIs(p.vaddr % PGSIZE + p.memsz);
    PageOffset(p.vaddr);
    NoWrap(p.vaddr % PGSIZE + p.memsz);
    NoWrap(p.vaddr % PGSIZE + p.filesz);
    hide RoundUp, Validate, Add;
  }

  lemma PageOffset(v: int)
    requires 0 <= v
    ensures 0 <= v % PGSIZE < PGSIZE && v % PGSIZE <= v
  {
  }

  lemma NoWrap(x: int)
    requires 0 <= x < WORD
    ensures forall a, b | a + b == x :: Add(a, b) == x && Sub(x, 0) == x
  {
  }

  lemma SamePlace(o: int, v: int)
    requires (o - v) % PGSIZE == 0 && 0 <= o && PGSIZE <= v
    ensures o % PGSIZE == v % PGSIZE && 0 <= o - o % PGSIZE && (o - o % PGSIZE) % PGSIZE == 0
    ensures (v - v % PGSIZE) % PGSIZE == 0
    ensures PGSIZE <= v - v % PGSIZE <= v
  {
  }

  lemma BelowBase(v: int, m: int)
    requires 0 <= v && 0 < m && v + m < PHYS_BASE
    ensures v - v % PGSIZE + RoundUp(v % PGSIZE + m) <= PHYS_BASE
  {
    RoundUpIs(v % PGSIZE + m);
    var r := v - v % PGSIZE + RoundUp(v % PGSIZE + m);
    assert r % PGSIZE == 0;
    assert r < PHYS_BASE + PGSIZE;
  }

  // ---- load_segment ----

  /** What is mapped at a user page, and the page of memory that holds it. */
  datatype Page = Page(bytes: seq<Byte>, writable: bool, frame: int)

  type Pages = map<int, Page>

  function FileByte(file: seq<Byte>, i: int): Byte {
    if 0 <= i < |file| then file[i] else 0
  }

  function SegmentByte(file: seq<Byte>, ofs: int, readBytes: int, i: int): Byte {
    if i < readBytes then FileByte(file, ofs + i) else 0
  }

  /** The bytes of page k of a segment: of the file as far as `readBytes` goes, and then zeros. */
  function PageBytes(file: seq<Byte>, ofs: int, readBytes: int, k: int): (bs: seq<Byte>)
    ensures |bs| == PGSIZE
    ensures forall j | 0 <= j < PGSIZE :: bs[j] == SegmentByte(file, ofs, readBytes, k * PGSIZE + j)
  {
    seq<Byte>(PGSIZE, j => SegmentByte(file, ofs, readBytes, k * PGSIZE + j))
  }

  /** The user pool after n pages were taken from it, one by one. */
  function Taken(pool: Palloc.Pool, n: nat): Palloc.Pool {
    if n == 0 then pool else Palloc.Get(Taken(pool, n - 1), 1).0
  }

  /** The page that palloc_get_page gives next. */
  function Frame(pool: Palloc.Pool, n: nat): Option<nat> {
    Palloc.Get(Taken(pool, n), 1).1
  }

  function FrameNo(pool: Palloc.Pool, n: nat): int {
    match Frame(pool, n)
    case Some(x) => x
    case None => -1
  }

  /** As long as there is memory, the pages taken were free, they are distinct, and no others are taken. */
  lemma {:induction false} FramesApart(pool: Palloc.Pool, n: nat)
    requires forall k: nat | k < n :: Frame(pool, k).Some?
    ensures forall k: nat | k < n :: !Palloc.Used(pool, FrameNo(pool, k))
    ensures forall k: nat, l: nat | k < l < n :: FrameNo(pool, k) != FrameNo(pool, l)
    ensures forall x ::
      Palloc.Used(Taken(pool, n), x) <==> Palloc.Used(pool, x) || exists k: nat :: k < n && x == FrameNo(pool, k)
  {
    hide Palloc.Get, Palloc.Used;
    if n > 0 {
      FramesApart(pool, n - 1);
      assert Frame(pool, n - 1).Some?;
      Palloc.GetTakesFreePages(Taken(pool, n - 1), 1);
      OneFrame(pool, n - 1);
      forall x ensures Palloc.Used(Taken(pool, n), x)
        <==> Palloc.Used(pool, x) || exists k: nat :: k < n && x == FrameNo(pool, k)
      {
        if x == FrameNo(pool, n - 1) { assert n - 1 < n; }
      }
    }
  }

  lemma OneFrame(pool: Palloc.Pool, n: nat)
    requires Frame(pool, n).Some?
    ensures !Palloc.Used(Taken(pool, n), FrameNo(pool, n))
    ensures forall x: nat ::
      Palloc.Used(Taken(pool, n + 1), x) <==> Palloc.Used(Taken(pool, n), x) || x == FrameNo(pool, n)
    ensures forall x | x < 0 :: !Palloc.Used(Taken(pool, n + 1), x) && !Palloc.Used(Taken(pool, n), x)
  {
    Palloc.GetTakesFreePages(Taken(pool, n), 1);
    hide Palloc.Get;
  }

  /** The first n pages of the segment added to the pages that are mapped. */
  function WithPages(pages: Pages, pool: Palloc.Pool, file: seq<Byte>, ofs: int, upage: int, readBytes: int,
                     writable: bool, n: nat): Pages {
    if n == 0 then pages
    else
      WithPages(pages, pool, file, ofs, upage, readBytes, writable, n - 1)[
        upage + (n - 1) * PGSIZE := Page(PageBytes(file, ofs, readBytes, n - 1), writable, FrameNo(pool, n - 1))]
  }

  lemma {:induction false} WithPagesAt(pages: Pages, pool: Palloc.Pool, file: seq<Byte>, ofs: int, upage: int,
                                       readBytes: int, writable: bool, n: nat, a: int)
    ensures var r := WithPages(pages, pool, file, ofs, upage, readBytes, writable, n);
      if upage <= a < upage + n * PGSIZE && (a - upage) % PGSIZE == 0 then
        var k := (a - upage) / PGSIZE;
        a in r && r[a] == Page(PageBytes(file, ofs, readBytes, k), writable, FrameNo(pool, k))
      else (a in r <==> a in pages) && (a in r ==> r[a] == pages[a])
  {
    hide PageBytes;
    if n > 0 {
      WithPagesAt(pages, pool, file, ofs, upage, readBytes, writable, n - 1, a);
      assert ((upage + (n - 1) * PGSIZE) - upage) / PGSIZE == n - 1;
    }
  }

  /** file_read at position pos. */
  function FileRead(file: seq<Byte>, pos: int, size: int): (bs: seq<Byte>)
    requires 0 <= pos && 0 <= size
    ensures |bs| == size <==> size == 0 || pos + size <= |file|
    ensures |bs| == size ==> forall j | 0 <= j < size :: bs[j] == FileByte(file, pos + j)
  {
    if size == 0 || pos >= |file| then [] else if pos + size <= |file| then file[pos..pos + size] else file[pos..]
  }

  /** A page that begins with the bytes, and is cleared behind them. */
  function Padded(bytes: seq<Byte>): seq<Byte> {
    if |bytes| <= PGSIZE then bytes + seq(PGSIZE - |bytes|, j => 0) else bytes
  }

  /** Why load_segment stops at page n. */
  ghost predicate Stopped(pages: Pages, pool: Palloc.Pool, file: seq<Byte>, ofs: int, upage: int, readBytes: int,
                          tables: seq<bool>, n: int)
    requires 0 <= n
  {
    || Frame(pool, n).None?
    || !(n < |tables| && tables[n])
    || upage + n * PGSIZE in pages
    || TooShort(file, ofs, readBytes, n)
  }

  /** The file ends before the part of it that page n holds. */
  predicate TooShort(file: seq<Byte>, ofs: int, readBytes: int, n: int) {
    n * PGSIZE < readBytes && ofs + (if readBytes < (n + 1) * PGSIZE then readBytes else (n + 1) * PGSIZE) > |file|
  }

  /** The address space of a process that is being loaded, and the user pool. */
  class Process {
    var pages: Pages
    var pool: Palloc.Pool

    constructor (pool: Palloc.Pool)
      ensures pages == map[] && this.pool == pool
    {
      pages, this.pool := map[], pool;
    }

    /** palloc_get_page from the user pool. */
    method GetPage() returns (kpage: Option<nat>)
      modifies this`pool
      ensures (pool, kpage) == Palloc.Get(old(pool), 1) && (kpage.None? ==> pool == old(pool))
    {
      var r := Palloc.Get(pool, 1);
      pool := r.0;
      kpage := r.1;
    }

    /** palloc_free_page of the page that was taken last. */
    method FreePage(kpage: nat, ghost was: Palloc.Pool)
      requires (pool, Some(kpage)) == Palloc.Get(was, 1)
      modifies this`pool
      ensures pool == was
    {
      Palloc.PutUndoesGet(was, 1);
      pool := Palloc.Put(pool, kpage, 1);
    }

    /** What load_segment does for one page; when it fails nothing has changed. */
    method LoadPage(file: seq<Byte>, pos: int, upage: int, size: int, writable: bool, table: bool) returns (ok: bool)
      requires 0 <= pos && 0 <= size <= PGSIZE
      modifies this
      ensures ok <==>
        Palloc.Get(old(pool), 1).1.Some? && |FileRead(file, pos, size)| == size && upage !in old(pages) && table
      ensures !ok ==> pages == old(pages) && pool == old(pool)
      ensures ok ==> pool == Palloc.Get(old(pool), 1).0 && pages == old(pages)[upage :=
        Page(Padded(FileRead(file, pos, size)), writable, Palloc.Get(old(pool), 1).1.value)]
    {
      hide Palloc.Get, FileRead;
      ghost var was := pool;
      var kpage := GetPage();
      if kpage.None? { return false; }
      var bytes := FileRead(file, pos, size);
      if |bytes| != size || upage in pages || !table {
        FreePage(kpage.value, was);
        return false;
      }
      pages := pages[upage := Page(Padded(bytes), writable, kpage.value)];
      ok := true;
    }

    /** load_segment; `tables` says for each page whether there is memory for mapping it.  It maps the pages of the
        segment in order, and stops only for want of memory, or at a page that is mapped already, or where the
        file is too short; and it keeps no memory but that of the pages it has mapped. */
    method LoadSegment(file: seq<Byte>, ofs: int, upage0: int, readBytes0: int, zeroBytes0: int, writable: bool,
                       tables: seq<bool>)
      returns (ok: bool, n: nat)
      requires 0 <= ofs && 0 <= readBytes0 && 0 <= zeroBytes0
      requires (readBytes0 + zeroBytes0) % PGSIZE == 0 && upage0 % PGSIZE == 0 && ofs % PGSIZE == 0
      modifies this
      ensures pages == WithPages(old(pages), old(pool), file, ofs, upage0, readBytes0, writable, n)
      ensures pool == Taken(old(pool), n)
      ensures forall k: nat | k < n :: !Stopped(old(pages), old(pool), file, ofs, upage0, readBytes0, tables, k)
      ensures ok <==> n * PGSIZE == readBytes0 + zeroBytes0
      ensures !ok ==>
        n * PGSIZE < readBytes0 + zeroBytes0 && Stopped(old(pages), old(pool), file, ofs, upage0, readBytes0, tables, n)
    {
      var readBytes, zeroBytes, upage, pos := readBytes0, zeroBytes0, upage0, ofs;
      n := 0;
      ghost var start := Loading(pages, pool, upage, pos, readBytes, zeroBytes);
      NoneLoaded(start, file, writable, tables);
      hide *;
      while readBytes > 0 || zeroBytes > 0
        invariant Loaded(start, Loading(pages, pool, upage, pos, readBytes, zeroBytes), file, writable, tables, n)
        invariant 0 <= readBytes && 0 <= zeroBytes && 0 <= pos
        decreases readBytes + zeroBytes
      {
        NextLoaded(start, Loading(pages, pool, upage, pos, readBytes, zeroBytes), file, writable, tables, n);
        var pageReadBytes := if readBytes < PGSIZE then readBytes else PGSIZE;
        var pageZeroBytes := PGSIZE - pageReadBytes;
        var loaded := LoadPage(file, pos, upage, pageReadBytes, writable, n < |tables| && tables[n]);
        if !loaded { break; }
        readBytes := readBytes - pageReadBytes;
        zeroBytes := zeroBytes - pageZeroBytes;
        upage := upage + PGSIZE;
        pos := pos + pageReadBytes;
        n := n + 1;
      }
      ok := !(readBytes > 0 || zeroBytes > 0);
      LoadedMeans(start, Loading(pages, pool, upage, pos, readBytes, zeroBytes), file, writable, tables, n);
    }
  }

  /** The variables of load_segment, with the state. */
  datatype Loading = Loading(pages: Pages, pool: Palloc.Pool, upage: int, pos: int, readBytes: int, zeroBytes: int)

  /** From `start`, n pages have been loaded. */
  ghost predicate Loaded(start: Loading, now: Loading, file: seq<Byte>, writable: bool, tables: seq<bool>, n: nat) {
    && (start.readBytes + start.zeroBytes) % PGSIZE == 0 && 0 <= start.readBytes
    && now.upage == start.upage + n * PGSIZE && 0 <= now.readBytes && 0 <= now.zeroBytes && 0 <= start.pos
    && n * PGSIZE + now.readBytes + now.zeroBytes == start.readBytes + start.zeroBytes
    && now.readBytes == (if n * PGSIZE < start.readBytes then start.readBytes - n * PGSIZE else 0)
    && now.pos == start.pos + (start.readBytes - now.readBytes)
    && now.pages == WithPages(start.pages, start.pool, file, start.pos, start.upage, start.readBytes, writable, n)
    && now.pool == Taken(start.pool, n)
    && forall k: nat | k < n ::
         !Stopped(start.pages, start.pool, file, start.pos, start.upage, start.readBytes, tables, k)
  }

  lemma NoneLoaded(start: Loading, file: seq<Byte>, writable: bool, tables: seq<bool>)
    requires 0 <= start.readBytes && 0 <= start.zeroBytes && 0 <= start.pos
    requires (start.readBytes + start.zeroBytes) % PGSIZE == 0
    ensures Loaded(start, start, file, writable, tables, 0)
  {
  }

  lemma LoadedMeans(start: Loading, now: Loading, file: seq<Byte>, writable: bool, tables: seq<bool>, n: nat)
    requires Loaded(start, now, file, writable, tables, n)
    ensures now.pages == WithPages(start.pages, start.pool, file, start.pos, start.upage, start.readBytes, writable, n)
    ensures now.pool == Taken(start.pool, n)
    ensures forall k: nat | k < n ::
      !Stopped(start.pages, start.pool, file, start.pos, start.upage, start.readBytes, tables, k)
    ensures 0 <= now.readBytes && 0 <= now.zeroBytes
    ensures n * PGSIZE + now.readBytes + now.zeroBytes == start.readBytes + start.zeroBytes
  {
    hide WithPages, Taken, Stopped;
  }

  function PageRead(now: Loading): int { if now.readBytes < PGSIZE then now.readBytes else PGSIZE }

  /** The next page can be loaded. */
  predicate Loads(now: Loading, file: seq<Byte>, table: bool)
    requires 0 <= now.pos && 0 <= now.readBytes
  {
    Palloc.Get(now.pool, 1).1.Some? && |FileRead(file, now.pos, PageRead(now))| == PageRead(now)
    && now.upage !in now.pages && table
  }

  /** What a turn of the loop does then. */
  function Advanced(now: Loading, file: seq<Byte>, writable: bool): Loading
    requires 0 <= now.pos && 0 <= now.readBytes && Palloc.Get(now.pool, 1).1.Some?
  {
    var size := PageRead(now);
    var page := Page(Padded(FileRead(file, now.pos, size)), writable,
                     Palloc.Get(now.pool, 1).1.value);
    Loading(now.pages[now.upage := page], Palloc.Get(now.pool, 1).0, now.upage + PGSIZE, now.pos + size,
            now.readBytes - size, now.zeroBytes - (PGSIZE - size))
  }

  /** One more turn: when the next page can be loaded, and what is then loaded. */
  lemma NextLoaded(start: Loading, now: Loading, file: seq<Byte>, writable: bool, tables: seq<bool>, n: nat)
    requires Loaded(start, now, file, writable, tables, n) && 0 < now.readBytes + now.zeroBytes
    ensures var size := PageRead(now);
      0 <= now.pos && 0 <= size <= PGSIZE && size <= now.readBytes && PGSIZE - size <= now.zeroBytes
    ensures !Stopped(start.pages, start.pool, file, start.pos, start.upage, start.readBytes, tables, n)
      <==> Loads(now, file, n < |tables| && tables[n])
    ensures Loads(now, file, n < |tables| && tables[n]) ==>
      Loaded(start, Advanced(now, file, writable), file, writable, tables, n + 1)
  {
    hide PageBytes, Padded, Stopped, Taken, Frame, FrameNo, WithPages, FileByte, TooShort, FileRead, Palloc.Get;
    var size := PageRead(now);
    NextPage(start.readBytes, start.zeroBytes, n, now.readBytes, now.zeroBytes, size);
    NextPlaced(start.pages, start.pool, file, start.pos, start.upage, start.readBytes, writable, n);
    StoppedMeans(start.pages, start.pool, file, start.pos, start.upage, start.readBytes, tables, n);
    ShortRead(file, start.pos, start.readBytes, n, now.pos, size);
    if |FileRead(file, now.pos, size)| == size {
      PageIs(file, start.pos, start.readBytes, n, FileRead(file, now.pos, size), now.pos, size);
    }
  }

  lemma NonePlaced(pages: Pages, pool: Palloc.Pool, file: seq<Byte>, ofs: int, upage: int, readBytes: int,
                   writable: bool)
    ensures Taken(pool, 0) == pool && WithPages(pages, pool, file, ofs, upage, readBytes, writable, 0) == pages
  {
  }

  /** The page number n of the segment is not mapped by the ones before it. */
  lemma NextPlaced(pages: Pages, pool: Palloc.Pool, file: seq<Byte>, ofs: int, upage: int, readBytes: int,
                   writable: bool, n: nat)
    ensures (Taken(pool, n + 1), Frame(pool, n)) == Palloc.Get(Taken(pool, n), 1)
    ensures Frame(pool, n).Some? ==> FrameNo(pool, n) == Frame(pool, n).value
    ensures var r := WithPages(pages, pool, file, ofs, upage, readBytes, writable, n);
      && WithPages(pages, pool, file, ofs, upage, readBytes, writable, n + 1)
           == r[upage + n * PGSIZE := Page(PageBytes(file, ofs, readBytes, n), writable, FrameNo(pool, n))]
      && (upage + n * PGSIZE in r <==> upage + n * PGSIZE in pages)
  {
    WithPagesAt(pages, pool, file, ofs, upage, readBytes, writable, n, upage + n * PGSIZE);
  }

  /** There is room for a whole page. */
  lemma NextPage(readBytes0: int, zeroBytes0: int, n: nat, readBytes: int, zeroBytes: int, size: int)
    requires (readBytes0 + zeroBytes0) % PGSIZE == 0 && n * PGSIZE + readBytes + zeroBytes == readBytes0 + zeroBytes0
    requires 0 <= readBytes && 0 <= zeroBytes && 0 < readBytes + zeroBytes
    requires readBytes == (if n * PGSIZE < readBytes0 then readBytes0 - n * PGSIZE else 0)
    requires size == if readBytes < PGSIZE then readBytes else PGSIZE
    ensures PGSIZE <= readBytes + zeroBytes && 0 <= size <= readBytes && PGSIZE - size <= zeroBytes
    ensures readBytes - size == if (n + 1) * PGSIZE < readBytes0 then readBytes0 - (n + 1) * PGSIZE else 0
    ensures (n + 1) * PGSIZE + (readBytes - size) + (zeroBytes - (PGSIZE - size)) == readBytes0 + zeroBytes0
  {
  }

  lemma ShortRead(file: seq<Byte>, ofs: int, readBytes: int, n: nat, pos: int, size: int)
    requires 0 <= pos && 0 <= size <= PGSIZE && (size > 0 ==> pos == ofs + n * PGSIZE)
    requires size == (if readBytes - n * PGSIZE >= PGSIZE then PGSIZE
                      else if n * PGSIZE < readBytes then readBytes - n * PGSIZE else 0)
    ensures |FileRead(file, pos, size)| == size <==> !TooShort(file, ofs, readBytes, n)
  {
  }

  lemma StoppedMeans(pages: Pages, pool: Palloc.Pool, file: seq<Byte>, ofs: int, upage: int, readBytes: int,
                     tables: seq<bool>, n: nat)
    ensures Stopped(pages, pool, file, ofs, upage, readBytes, tables, n)
      <==> Frame(pool, n).None? || !(n < |tables| && tables[n]) || upage + n * PGSIZE in pages
           || TooShort(file, ofs, readBytes, n)
  {
  }

  lemma PageIs(file: seq<Byte>, ofs: int, readBytes0: int, n: nat, bytes: seq<Byte>, pos: int, size: int)
    requires 0 <= size <= PGSIZE && |bytes| == size && (forall j | 0 <= j < size :: bytes[j] == FileByte(file, pos + j))
    requires size == (if readBytes0 - n * PGSIZE >= PGSIZE then PGSIZE
                      else if n * PGSIZE < readBytes0 then readBytes0 - n * PGSIZE else 0)
    requires size > 0 ==> pos == ofs + n * PGSIZE
    ensures Padded(bytes) == PageBytes(file, ofs, readBytes0, n)
  {
    hide FileByte;
    var page := PageBytes(file, ofs, readBytes0, n);
    forall j | 0 <= j < PGSIZE ensures Padded(bytes)[j] == page[j] {
      assert j < size ==> bytes[j] == FileByte(file, pos + j);
    }
  }

  // ---- the segment as the program sees it ----

  /** The byte at address a of the pages. */
  function ByteAt(pages: Pages, a: int): Option<Byte> {
    var page := a - a % PGSIZE;
    if page in pages && a % PGSIZE < |pages[page].bytes| then Some(pages[page].bytes[a % PGSIZE]) else None
  }

  /** When load_segment has mapped the whole plan of an accepted segment, the program sees the segment's bytes of
      the file, followed by zeros, at the addresses that the header asks for. */
  lemma SegmentLoaded(p: Phdr, pages: Pages, pool: Palloc.Pool, file: seq<Byte>, n: nat, a: int)
    requires Validate(p, |file|) && n * PGSIZE == PlanOf(p).readBytes + PlanOf(p).zeroBytes
    requires p.vaddr <= a < p.vaddr + p.memsz
    ensures var l := PlanOf(p);
      var r := WithPages(pages, pool, file, l.filePage, l.memPage, l.readBytes, p.writable, n);
      && ByteAt(r, a) == Some(if a - p.vaddr < p.filesz then FileByte(file, p.offset + (a - p.vaddr)) else 0)
      && r[a - a % PGSIZE].writable == p.writable
  {
    PlanFits(p, |file|);
    hide PlanOf, Validate, PageBytes, SegmentByte, FileByte, WithPages, ByteAt;
    SegmentAt(p, PlanOf(p), pages, pool, file, n, a);
  }

  /** The n pages that load_segment got through are mapped, all of them user pages from page 1 on, and whatever
      was mapped before is as it was. */
  lemma OnlyUserPages(p: Phdr, pages: Pages, pool: Palloc.Pool, file: seq<Byte>, tables: seq<bool>, n: nat, a: int)
    requires Validate(p, |file|) && n * PGSIZE <= PlanOf(p).readBytes + PlanOf(p).zeroBytes
    requires var l := PlanOf(p);
      forall k: nat | k < n :: !Stopped(pages, pool, file, l.filePage, l.memPage, l.readBytes, tables, k)
    ensures var l := PlanOf(p);
      var r := WithPages(pages, pool, file, l.filePage, l.memPage, l.readBytes, p.writable, n);
      && (a in r <==> a in pages || (a % PGSIZE == 0 && l.memPage <= a < l.memPage + n * PGSIZE))
      && (a !in pages && a in r ==> PGSIZE <= a < PHYS_BASE && a % PGSIZE == 0)
      && (a in pages ==> r[a] == pages[a])
  {
    PlanFits(p, |file|);
    hide PlanOf, Validate, PageBytes, SegmentByte, FileByte, WithPages, ByteAt, Stopped;
    var l := PlanOf(p);
    WithPagesAt(pages, pool, file, l.filePage, l.memPage, l.readBytes, p.writable, n, a);
    PageNumber(a, l.memPage, n);
    if l.memPage <= a < l.memPage + n * PGSIZE && a % PGSIZE == 0 {
      StoppedMeans(pages, pool, file, l.filePage, l.memPage, l.readBytes, tables, (a - l.memPage) / PGSIZE);
    }
  }

  lemma PageNumber(a: int, memPage: int, n: nat)
    requires memPage % PGSIZE == 0
    ensures (a - memPage) % PGSIZE == 0 <==> a % PGSIZE == 0
    ensures memPage <= a < memPage + n * PGSIZE && a % PGSIZE == 0 ==>
      memPage + (a - memPage) / PGSIZE * PGSIZE == a && 0 <= (a - memPage) / PGSIZE < n
  {
  }

  lemma SegmentAt(p: Phdr, l: Plan, pages: Pages, pool: Palloc.Pool, file: seq<Byte>, n: nat, a: int)
    requires l.memPage % PGSIZE == 0 && l.memPage <= p.vaddr <= a < l.memPage + n * PGSIZE
    requires p.vaddr - l.memPage == p.offset - l.filePage
    requires l.readBytes == if p.filesz > 0 then p.vaddr - l.memPage + p.filesz else 0
    ensures var r := WithPages(pages, pool, file, l.filePage, l.memPage, l.readBytes, p.writable, n);
      && ByteAt(r, a) == Some(if a - p.vaddr < p.filesz then FileByte(file, p.offset + (a - p.vaddr)) else 0)
      && r[a - a % PGSIZE].writable == p.writable
  {
    hide FileByte, PageBytes;
    var page := a - a % PGSIZE;
    InPage(a, l.memPage);
    WithPagesAt(pages, pool, file, l.filePage, l.memPage, l.readBytes, p.writable, n, page);
  }

  /** Address a is so far into its page, and that page so far into the segment. */
  lemma InPage(a: int, memPage: int)
    requires memPage % PGSIZE == 0 && memPage <= a
    ensures var page := a - a % PGSIZE;
      && memPage <= page && (page - memPage) % PGSIZE == 0 && page % PGSIZE == 0
      && (page - memPage) / PGSIZE * PGSIZE + a % PGSIZE == a - memPage && 0 <= a % PGSIZE < PGSIZE
  {
  }

  /** When no page was cut short the file holds all that the segment takes of it. */
  lemma WholeFile(file: seq<Byte>, ofs: int, readBytes: int, n: nat)
    requires 0 < readBytes <= n * PGSIZE && forall k: nat | k < n :: !TooShort(file, ofs, readBytes, k)
    ensures ofs + readBytes <= |file|
  {
    assert !TooShort(file, ofs, readBytes, (readBytes - 1) / PGSIZE);
  }
}
