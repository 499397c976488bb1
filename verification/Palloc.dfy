/** The page allocator (threads/palloc.c): two pools of pages, each a bitmap and the number of its
    first page. */
module Palloc {
  import opened Options
  import opened Bitmap

  datatype Pool = Pool(base: nat, used: seq<bool>)

  datatype Pools = Pools(kernel: Pool, user: Pool)

  const PGSIZE := 4096

  predicate FromPool(p: Pool, page: nat) {
    p.base <= page < p.base + |p.used|
  }

  /** palloc_get_multiple on one pool: the new pool and the first page of the group. */
  function Get(p: Pool, cnt: nat): (Pool, Option<nat>) {
    if cnt == 0 then (p, None)
    else
      match Scan(p.used, 0, cnt)
      case None => (p, None)
      case Some(i) => (p.(used := Set(p.used, i, cnt, true)), Some(p.base + i))
  }

  predicate Used(p: Pool, page: int) {
    p.base <= page < p.base + |p.used| && p.used[page - p.base]
  }

  /** What the bitmap asserts of a group of pages that is given back. */
  predicate Owned(p: Pool, page: nat, cnt: nat) {
    p.base <= page && page + cnt <= p.base + |p.used| && forall n | page <= n < page + cnt :: Used(p, n)
  }

  function Put(p: Pool, page: nat, cnt: nat): Pool
    requires Owned(p, page, cnt)
  {
    p.(used := Set(p.used, page - p.base, cnt, false))
  }

  /** A page group is taken from pages that were free, the lowest that would do, and only the group
      changes state. */
  lemma GetTakesFreePages(p: Pool, cnt: nat)
    requires Get(p, cnt).1.Some?
    ensures var p', page := Get(p, cnt).0, Get(p, cnt).1.value;
      && cnt > 0 && Owned(p', page, cnt) && p'.base == p.base && |p'.used| == |p.used|
      && (forall n :: Used(p', n) == (Used(p, n) || page <= n < page + cnt))
      && (forall n | page <= n < page + cnt :: !Used(p, n))
      && (forall j | 0 <= j < page - p.base :: !AllAre(p.used, j, cnt, false))
  {
  }

  /** No group is given only if none is free. */
  lemma GetFailsWhenFull(p: Pool, cnt: nat)
    ensures Get(p, cnt).1.None? <==> cnt == 0 || forall j: nat :: !AllAre(p.used, j, cnt, false)
    ensures Get(p, cnt).1.None? ==> Get(p, cnt).0 == p
  {
  }

  /** Giving a group back undoes taking it. */
  lemma PutUndoesGet(p: Pool, cnt: nat)
    requires Get(p, cnt).1.Some?
    ensures var (p', r) := Get(p, cnt); Owned(p', r.value, cnt) && Put(p', r.value, cnt) == p
  {
    GetTakesFreePages(p, cnt);
    var (p', r) := Get(p, cnt);
    assert Put(p', r.value, cnt).used == p.used;
  }

  ghost predicate Separate(ps: Pools) {
    ps.kernel.base + |ps.kernel.used| <= ps.user.base
  }

  /** palloc_free_multiple: the pool that the first page is from gets the group back. */
  function FreeMultiple(ps: Pools, page: nat, cnt: nat): Option<Pools> {
    if cnt == 0 then Some(ps)
    else if FromPool(ps.kernel, page) then
      if Owned(ps.kernel, page, cnt) then Some(ps.(kernel := Put(ps.kernel, page, cnt))) else None
    else if FromPool(ps.user, page) && Owned(ps.user, page, cnt) then Some(ps.(user := Put(ps.user, page, cnt)))
    else None
  }

  /** Pages return to the pool they came from, and the other pool does not change. */
  lemma FreeReturnsToPool(ps: Pools, user: bool, cnt: nat)
    requires Separate(ps)
    requires Get(if user then ps.user else ps.kernel, cnt).1.Some?
    ensures var (p', r) := Get(if user then ps.user else ps.kernel, cnt);
      FreeMultiple(if user then ps.(user := p') else ps.(kernel := p'), r.value, cnt) == Some(ps)
  {
    GetTakesFreePages(if user then ps.user else ps.kernel, cnt);
    PutUndoesGet(if user then ps.user else ps.kernel, cnt);
  }

  /** init_pool: `pages` pages from `start` on, the first of which hold the bitmap.  bitmap_buf_size rounds
      the bits up to whole words of 32 and adds the bitmap's header of 8 bytes. */
  function BitmapPages(pages: nat): nat {
    ((pages + 31) / 32 * 4 + 8 + PGSIZE - 1) / PGSIZE
  }

  function InitPool(start: nat, pages: nat): Option<Pool> {
    var bm := BitmapPages(pages);
    if bm > pages then None else Some(Pool(start + bm, seq(pages - bm, i => false)))
  }

  /** palloc_init, for the pages from `start` to `end`. */
  function Init(start: nat, end: nat, userLimit: nat): Option<Pools>
    requires start <= end
  {
    var free := end - start;
    var user := if free / 2 > userLimit then userLimit else free / 2;
    var kernel := free - user;
    match InitPool(start, kernel)
    case None => None
    case Some(k) =>
      match InitPool(start + kernel, user)
      case None => None
      case Some(u) => Some(Pools(k, u))
  }

  /** The pools do not overlap each other or the pages of their bitmaps, and reach to the end of memory. */
  lemma InitSeparates(start: nat, end: nat, userLimit: nat)
    requires start <= end && Init(start, end, userLimit).Some?
    ensures var ps := Init(start, end, userLimit).value;
      && Separate(ps) && start < ps.kernel.base && ps.kernel.base + |ps.kernel.used| < ps.user.base
      && ps.user.base + |ps.user.used| == end && |ps.user.used| <= userLimit
      && (forall n | 0 <= n < |ps.kernel.used| :: !ps.kernel.used[n])
      && (forall n | 0 <= n < |ps.user.used| :: !ps.user.used[n])
  {
  }

  class PagePool {
    const base: nat
    const used: array<bool>

    constructor (start: nat, cnt: nat)
      ensures base == start && fresh(used) && used[..] == seq(cnt, i => false)
    {
      base := start;
      used := new bool[cnt](i => false);
    }

    function View(): Pool
      reads used
    {
      Pool(base, used[..])
    }

    method GetMultiple(cnt: nat) returns (page: Option<nat>)
      modifies used
      ensures (View(), page) == Get(old(View()), cnt)
    {
      if cnt == 0 { return None; }
      var i := ScanAndFlip(used, cnt);
      page := match i case None => None case Some(n) => Some(base + n);
    }

    method FreeMultiple(page: nat, cnt: nat)
      requires Owned(View(), page, cnt)
      modifies used
      ensures View() == Put(old(View()), page, cnt)
    {
      SetMultiple(used, page - base, cnt, false);
    }
  }
}
