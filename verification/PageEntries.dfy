/** The words of page directories and page tables, and the parts of an address (threads/pte.h and
    threads/vaddr.h). */
module PageEntries {

  /** A machine word: an address, or an entry of a table. */
  datatype Word = Word(bits: bv32)

  const ZERO := Word(0)
  const PHYS_BASE: bv32 := 0xc000_0000
  const PTE_ADDR: bv32 := 0xffff_f000
  const PTE_P: bv32 := 0x1
  const PTE_W: bv32 := 0x2
  const PTE_U: bv32 := 0x4

  /** The flags that the hardware sets. */
  datatype Flag = Accessed | Dirty

  function Bit(f: Flag): bv32 {
    match f
    case Accessed => 0x20
    case Dirty => 0x40
  }

  const ENTRIES := 1024
  const USER := 768      // pd_no (PHYS_BASE)

  // ---- addresses ----

  predicate IsUser(va: Word) { va.bits < PHYS_BASE }

  function PgOfs(va: Word): Word { Word(va.bits & 0xfff) }

  /** pg_round_down. */
  function PageOf(va: Word): Word { Word(va.bits & 0xffff_f000) }

  /** A page of the kernel, as palloc gives it. */
  predicate IsKernelPage(page: Word) { PgOfs(page) == ZERO && page.bits >= PHYS_BASE }

  function PtBits(va: Word): bv10 { ((va.bits & 0x003f_f000) >> 12) as bv10 }

  function PdBits(va: Word): bv10 { (va.bits >> 22) as bv10 }

  function PtNo(va: Word): (i: int)
    ensures 0 <= i < ENTRIES
  {
    PtBits(va) as int
  }

  function PdNo(va: Word): (i: int)
    ensures 0 <= i < ENTRIES && (IsUser(va) ==> i < USER)
  {
    PdBits(va) as int
  }

  /** The page with the given indices. */
  function Joined(p: bv10, t: bv10): Word { Word(((p as bv32) << 22) | ((t as bv32) << 12)) }

  lemma SplitPage(a: Word)
    ensures PageOf(a) == Joined(PdBits(a), PtBits(a)) && PdBits(PageOf(a)) == PdBits(a)
    ensures PtBits(PageOf(a)) == PtBits(a)
  {
  }

  lemma Counted(x: bv10)
    ensures (x as int) as bv10 == x
  {
  }

  /** The two indices are the page's number: two addresses have the same indices exactly if they are in one page. */
  lemma IndicesArePage(a: Word, b: Word)
    ensures PdNo(a) == PdNo(b) && PtNo(a) == PtNo(b) <==> PageOf(a) == PageOf(b)
  {
    hide PdBits, PtBits, PageOf, Joined;
    SplitPage(a);
    SplitPage(b);
    Counted(PdBits(a));
    Counted(PdBits(b));
    Counted(PtBits(a));
    Counted(PtBits(b));
  }

  lemma NextIndex(x: bv10)
    requires x as int < 1023
    ensures (x + 1) as int == x as int + 1
  {
  }

  function Index(i: int): (x: bv10)
    requires 0 <= i < ENTRIES
    ensures x as int == i
  {
    if i == 0 then 0 else NextIndex(Index(i - 1)); Index(i - 1) + 1
  }

  lemma JoinedPd(p: bv10, t: bv10)
    ensures PdBits(Joined(p, t)) == p
  {
  }

  lemma JoinedPt(p: bv10, t: bv10)
    ensures PtBits(Joined(p, t)) == t
  {
  }

  lemma JoinedPage(p: bv10, t: bv10)
    ensures PageOf(Joined(p, t)) == Joined(p, t)
  {
  }

  lemma JoinedUser(p: bv10, t: bv10)
    requires p < 768
    ensures IsUser(Joined(p, t))
  {
  }

  lemma UserIndex(p: bv10)
    requires p as int < 768
    ensures p < 768
  {
  }

  /** The page with the given numbers. */
  function Address(i: int, j: int): (va: Word)
    requires 0 <= i < ENTRIES && 0 <= j < ENTRIES
  {
    Joined(Index(i), Index(j))
  }

  lemma AddressOfIndices(i: int, j: int)
    requires 0 <= i < ENTRIES && 0 <= j < ENTRIES
    ensures PdNo(Address(i, j)) == i && PtNo(Address(i, j)) == j && PageOf(Address(i, j)) == Address(i, j)
    ensures i < USER ==> IsUser(Address(i, j))
  {
    JoinedPd(Index(i), Index(j));
    JoinedPt(Index(i), Index(j));
    JoinedPage(Index(i), Index(j));
    if i < USER {
      UserIndex(Index(i));
      JoinedUser(Index(i), Index(j));
    }
    hide Joined, PdBits, PtBits, PageOf, Index, IsUser;
  }

  /** The page and the offset are the address. */
  lemma PageAndOffset(a: Word)
    ensures PageOf(a).bits | PgOfs(a).bits == a.bits && PgOfs(PageOf(a)) == ZERO
    ensures (PgOfs(a) == ZERO ==> PageOf(a) == a)
  {
  }

  // ---- entries ----

  function Vtop(va: Word): bv32 { va.bits - PHYS_BASE }

  function Ptov(pa: bv32): Word { Word(pa + PHYS_BASE) }

  function PdeCreate(pt: Word): Word { Word(Vtop(pt) | PTE_U | PTE_P | PTE_W) }

  function PdeGetPt(pde: Word): Word { Ptov(pde.bits & PTE_ADDR) }

  function PteCreateKernel(page: Word, writable: bool): Word {
    Word(Vtop(page) | PTE_P | (if writable then PTE_W else 0))
  }

  function PteCreateUser(page: Word, writable: bool): Word {
    Word(PteCreateKernel(page, writable).bits | PTE_U)
  }

  function PteGetPage(pte: Word): Word { Ptov(pte.bits & PTE_ADDR) }

  predicate Present(pte: Word) { pte.bits & PTE_P != 0 }

  predicate Writable(pte: Word) { pte.bits & PTE_W != 0 }

  predicate HasBit(pte: Word, f: Flag) { pte.bits & Bit(f) != 0 }

  function WithBit(pte: Word, f: Flag): Word { Word(pte.bits | Bit(f)) }

  function WithoutBit(pte: Word, f: Flag): Word { Word(pte.bits & !Bit(f)) }

  function NotPresent(pte: Word): Word { Word(pte.bits & !PTE_P) }

  /** A pointer into a page, at the offset of address va. */
  function PointerInto(page: Word, va: Word): Word { Word(page.bits + PgOfs(va).bits) }

  /** Packing and unpacking the entry of a page. */
  lemma EntryRoundTrip(page: Word, writable: bool)
    requires IsKernelPage(page)
    ensures var pte := PteCreateUser(page, writable);
      PteGetPage(pte) == page && Present(pte) && Writable(pte) == writable && pte.bits & PTE_U != 0
  {
    if writable { UserBits(page.bits, 7); } else { UserBits(page.bits, 5); }
  }

  lemma UserBits(page: bv32, flags: bv32)
    requires page & 0xfff == 0 && flags & 0xffff_f000 == 0
    ensures (((page - 0xc000_0000) | flags) & 0xffff_f000) + 0xc000_0000 == page
  {
  }

  lemma DirectoryEntryRoundTrip(pt: Word)
    requires IsKernelPage(pt)
    ensures PdeGetPt(PdeCreate(pt)) == pt && Present(PdeCreate(pt)) && PdeCreate(pt) != ZERO
  {
    UserBits(pt.bits, 7);
  }

  lemma NoPage()
    ensures !Present(ZERO) && !HasBit(ZERO, Accessed) && !HasBit(ZERO, Dirty)
  {
  }

  /** The flags of the hardware are apart from the rest of the entry. */
  lemma BitsApart(pte: Word, f: Flag)
    ensures Present(WithBit(pte, f)) == Present(pte) && Writable(WithBit(pte, f)) == Writable(pte)
    ensures PteGetPage(WithBit(pte, f)) == PteGetPage(pte) && HasBit(WithBit(pte, f), f)
    ensures Present(WithoutBit(pte, f)) == Present(pte) && Writable(WithoutBit(pte, f)) == Writable(pte)
    ensures PteGetPage(WithoutBit(pte, f)) == PteGetPage(pte) && !HasBit(WithoutBit(pte, f), f)
  {
    hide *;
    match f
    case Accessed =>
      SetAccessed(pte);
      ClearAccessed(pte);
    case Dirty =>
      SetDirty(pte);
      ClearDirty(pte);
  }

  lemma SetAccessed(pte: Word)
    ensures var e := WithBit(pte, Accessed);
      && Present(e) == Present(pte) && Writable(e) == Writable(pte) && PteGetPage(e) == PteGetPage(pte)
      && HasBit(e, Accessed)
  {
  }

  lemma ClearAccessed(pte: Word)
    ensures var e := WithoutBit(pte, Accessed);
      && Present(e) == Present(pte) && Writable(e) == Writable(pte) && PteGetPage(e) == PteGetPage(pte)
      && !HasBit(e, Accessed)
  {
    hide *;
    ClearPresentAccessed(pte);
    ClearWritableAccessed(pte);
    ClearPageAccessed(pte);
    ClearSelfAccessed(pte);
  }

  lemma ClearPresentAccessed(pte: Word)
    ensures Present(WithoutBit(pte, Accessed)) == Present(pte)
  {
  }

  lemma ClearWritableAccessed(pte: Word)
    ensures Writable(WithoutBit(pte, Accessed)) == Writable(pte)
  {
  }

  lemma ClearPageAccessed(pte: Word)
    ensures PteGetPage(WithoutBit(pte, Accessed)) == PteGetPage(pte)
  {
  }

  lemma ClearSelfAccessed(pte: Word)
    ensures !HasBit(WithoutBit(pte, Accessed), Accessed)
  {
  }

  lemma SetDirty(pte: Word)
    ensures var e := WithBit(pte, Dirty);
      Present(e) == Present(pte) && Writable(e) == Writable(pte) && PteGetPage(e) == PteGetPage(pte) && HasBit(e, Dirty)
  {
  }

  lemma ClearDirty(pte: Word)
    ensures var e := WithoutBit(pte, Dirty);
      && Present(e) == Present(pte) && Writable(e) == Writable(pte) && PteGetPage(e) == PteGetPage(pte)
      && !HasBit(e, Dirty)
  {
    hide *;
    ClearPresentDirty(pte);
    ClearWritableDirty(pte);
    ClearPageDirty(pte);
    ClearSelfDirty(pte);
  }

  lemma ClearPresentDirty(pte: Word)
    ensures Present(WithoutBit(pte, Dirty)) == Present(pte)
  {
  }

  lemma ClearWritableDirty(pte: Word)
    ensures Writable(WithoutBit(pte, Dirty)) == Writable(pte)
  {
  }

  lemma ClearPageDirty(pte: Word)
    ensures PteGetPage(WithoutBit(pte, Dirty)) == PteGetPage(pte)
  {
  }

  lemma ClearSelfDirty(pte: Word)
    ensures !HasBit(WithoutBit(pte, Dirty), Dirty)
  {
  }

  /** The entries differ in the present bit at most. */
  predicate SameButPresent(a: Word, b: Word) { a.bits | PTE_P == b.bits | PTE_P }

  lemma PresentApart(pte: Word)
    ensures !Present(NotPresent(pte)) && SameButPresent(NotPresent(pte), pte) && SameButPresent(pte, pte)
  {
  }
}
