/** Two-level page tables (userprog/pagedir.c), and the map from user pages to frames that they stand for. */
module Pagedir {
  import opened Options
  import opened PageEntries

  type Table = seq<Word>

  /** The pages that hold page tables and the page directory, by their kernel addresses. */
  datatype Space = Space(tables: map<Word, Table>, pd: Word)

  predicate Whole(sp: Space) {
    sp.pd in sp.tables && forall t | t in sp.tables :: |sp.tables[t]| == ENTRIES
  }

  predicate DirectoryEntryOk(sp: Space, i: int)
    requires Whole(sp) && 0 <= i < ENTRIES
  {
    var pde := sp.tables[sp.pd][i];
    pde == ZERO || (Present(pde) && PdeGetPt(pde) in sp.tables && PdeGetPt(pde) != sp.pd)
  }

  /** Each user entry of the directory is empty or names a page table, and no two name the same. */
  ghost predicate Ok(sp: Space) {
    && Whole(sp)
    && (forall i | 0 <= i < USER :: DirectoryEntryOk(sp, i))
    && (forall i, j | 0 <= i < j < USER && sp.tables[sp.pd][i] != ZERO && sp.tables[sp.pd][j] != ZERO ::
          PdeGetPt(sp.tables[sp.pd][i]) != PdeGetPt(sp.tables[sp.pd][j]))
  }

  function Pde(sp: Space, va: Word): Word
    requires Whole(sp)
  {
    sp.tables[sp.pd][PdNo(va)]
  }

  /** lookup_page without creating: the page table of va, if there is one. */
  function Find(sp: Space, va: Word): Option<Word>
    requires Whole(sp)
  {
    if Pde(sp, va) == ZERO then None else Some(PdeGetPt(Pde(sp, va)))
  }

  /** lookup_page that creates the table if it is missing, in the page `mem` if palloc gives one. */
  function FindOrCreate(sp: Space, va: Word, mem: Option<Word>): (Space, Option<Word>)
    requires Whole(sp)
  {
    if Pde(sp, va) != ZERO then (sp, Some(PdeGetPt(Pde(sp, va))))
    else
      match mem
      case None => (sp, None)
      case Some(pt) =>
        (sp.(tables := sp.tables[pt := seq(ENTRIES,
            i => ZERO)][sp.pd := sp.tables[sp.pd][PdNo(va) := PdeCreate(pt)]]), Some(PdeGetPt(PdeCreate(pt))))
  }

  /** The entry for va, or zero where there is no table. */
  function Entry(sp: Space, va: Word): Word
    requires Whole(sp)
  {
    match Find(sp, va)
    case Some(pt) => if pt in sp.tables then sp.tables[pt][PtNo(va)] else ZERO
    case None => ZERO
  }

  function Store(sp: Space, pt: Word, va: Word, pte: Word): Space
    requires Whole(sp) && pt in sp.tables
  {
    sp.(tables := sp.tables[pt := sp.tables[pt][PtNo(va) := pte]])
  }

  /** What the hardware sees at a user address: a frame, and whether it may be written. */
  function Mapped(sp: Space, va: Word): Option<(Word, bool)>
    requires Whole(sp)
  {
    Seen(Entry(sp, va))
  }

  function Seen(pte: Word): Option<(Word, bool)> {
    if Present(pte) then Some((PteGetPage(pte), Writable(pte))) else None
  }

  // ---- the operations ----

  /** pagedir_set_page; None where an assertion fails. */
  function SetPage(sp: Space, upage: Word, kpage: Word, writable: bool, mem: Option<Word>): Option<(Space, bool)>
    requires Whole(sp)
  {
    var (sp1, r) := FindOrCreate(sp, upage, mem);
    match r
    case None => Some((sp1, false))
    case Some(pt) =>
      if !Whole(sp1) || pt !in sp1.tables || Present(sp1.tables[pt][PtNo(upage)]) then None
      else Some((Store(sp1, pt, upage, PteCreateUser(kpage, writable)), true))
  }

  /** pagedir_get_page. */
  function GetPage(sp: Space, va: Word): Option<Word>
    requires Whole(sp)
  {
    var pte := Entry(sp, va);
    if Present(pte) then Some(PointerInto(PteGetPage(pte), va)) else None
  }

  /** The entry for va becomes pte, if there is a page table. */
  function ChangeEntry(sp: Space, va: Word, pte: Word): Space
    requires Whole(sp)
  {
    match Find(sp, va)
    case Some(pt) => if pt in sp.tables then Store(sp, pt, va, pte) else sp
    case None => sp
  }

  /** pagedir_clear_page. */
  function ClearPage(sp: Space, upage: Word): Space
    requires Whole(sp)
  {
    if Present(Entry(sp, upage)) then ChangeEntry(sp, upage, NotPresent(Entry(sp, upage))) else sp
  }

  /** pagedir_set_dirty and pagedir_set_accessed; the hardware sets the same bits. */
  function SetFlag(sp: Space, va: Word, f: Flag, on: bool): Space
    requires Whole(sp)
  {
    ChangeEntry(sp, va, if on then WithBit(Entry(sp, va), f) else WithoutBit(Entry(sp, va), f))
  }

  /** pagedir_is_dirty and pagedir_is_accessed. */
  predicate IsSet(sp: Space, va: Word, f: Flag)
    requires Whole(sp)
  {
    HasBit(Entry(sp, va), f)
  }

  // ---- one entry at a time ----

  lemma TableThere(sp: Space, va: Word)
    requires Ok(sp) && IsUser(va)
    ensures Find(sp, va).Some? ==> Find(sp, va).value in sp.tables && Find(sp, va).value != sp.pd
  {
    hide IsUser, PdeGetPt, Present;
    assert DirectoryEntryOk(sp, PdNo(va));
  }

  lemma SameTable(sp: Space, va: Word, vb: Word)
    requires Ok(sp) && IsUser(va) && IsUser(vb) && Find(sp, va).Some? && Find(sp, va) == Find(sp, vb)
    ensures PdNo(va) == PdNo(vb)
  {
    hide IsUser, PdeGetPt, Present, PdBits;
  }

  /** Changing the entry of one page changes no other. */
  lemma StoreOk(sp: Space, va: Word, pte: Word)
    requires Ok(sp) && IsUser(va) && Find(sp, va).Some?
    ensures Find(sp, va).value in sp.tables
    ensures var sp' := Store(sp, Find(sp, va).value, va, pte); Ok(sp') && forall vb :: Find(sp', vb) == Find(sp, vb)
  {
    TableThere(sp, va);
    hide IsUser, PdNo, PtNo, PdeGetPt, Present;
    var sp' := Store(sp, Find(sp, va).value, va, pte);
    assert sp'.tables[sp.pd] == sp.tables[sp.pd];
    forall i | 0 <= i < USER ensures DirectoryEntryOk(sp', i) { assert DirectoryEntryOk(sp, i); }
  }

  lemma StoreEntry(sp: Space, va: Word, pte: Word, vb: Word)
    requires Ok(sp) && IsUser(va) && IsUser(vb) && Find(sp, va).Some? && Find(sp, va).value in sp.tables
    ensures var sp' := Store(sp, Find(sp, va).value, va, pte);
      Whole(sp') && Entry(sp', vb) == if PageOf(va) == PageOf(vb) then pte else Entry(sp, vb)
  {
    hide IsUser, PdNo, PtNo, PageOf, PdeGetPt, Present, Find, Ok, ZERO;
    OkIsWhole(sp);
    StoreOk(sp, va, pte);
    OkIsWhole(Store(sp, Find(sp, va).value, va, pte));
    TableThere(sp, vb);
    IndicesArePage(va, vb);
    SameFind(sp, va, vb);
    if Find(sp, vb) == Find(sp, va) { SameTable(sp, va, vb); }
  }

  lemma SameFind(sp: Space, va: Word, vb: Word)
    requires Whole(sp)
    ensures PdNo(va) == PdNo(vb) ==> Find(sp, va) == Find(sp, vb)
  {
    hide PdNo, PdeGetPt;
  }

  /** A new table changes no mapping: all its entries are empty. */
  lemma CreateOk(sp: Space, va: Word, mem: Option<Word>)
    requires Ok(sp) && IsUser(va) && (mem.Some? ==> IsKernelPage(mem.value) && mem.value !in sp.tables)
    ensures var (sp1, r) := FindOrCreate(sp, va, mem);
      && Ok(sp1) && sp1.pd == sp.pd && (r.None? <==> Find(sp, va).None? && mem.None?) && (r.None? ==> sp1 == sp)
      && (r.Some? ==> r == Find(sp1, va) && r.value in sp1.tables)
  {
    hide IsUser, PdNo, PtNo, PdeGetPt, Present, IsKernelPage, PdeCreate, Ok;
    assert Whole(sp) by { OkIsWhole(sp); }
    TableThere(sp, va);
    if Find(sp, va).None? && mem.Some? { CreatedOk(sp, va, mem.value); }
  }

  lemma OkIsWhole(sp: Space)
    requires Ok(sp)
    ensures Whole(sp)
  {
  }

  lemma CreatedOk(sp: Space, va: Word, pt: Word)
    requires Ok(sp) && IsUser(va) && IsKernelPage(pt) && pt !in sp.tables && Find(sp, va).None?
    ensures var (sp1, r) := FindOrCreate(sp, va, Some(pt));
      Ok(sp1) && sp1.pd == sp.pd && Find(sp1, va) == Some(pt) == r && pt in sp1.tables
  {
    hide IsUser, PdNo, PtNo, PdeGetPt, Present, IsKernelPage, PdeCreate;
    DirectoryEntryRoundTrip(pt);
    assert Pde(sp, va) == ZERO;
    var sp1 := FindOrCreate(sp, va, Some(pt)).0;
    forall i | 0 <= i < USER ensures DirectoryEntryOk(sp1, i) { assert DirectoryEntryOk(sp, i); }
    forall i, j | 0 <= i < j < USER && sp1.tables[sp1.pd][i] != ZERO && sp1.tables[sp1.pd][j] != ZERO
      ensures PdeGetPt(sp1.tables[sp1.pd][i]) != PdeGetPt(sp1.tables[sp1.pd][j])
    {
      assert DirectoryEntryOk(sp, i) && DirectoryEntryOk(sp, j);
    }
  }

  lemma CreatedEntry(sp: Space, va: Word, mem: Option<Word>, vb: Word)
    requires Ok(sp) && IsUser(va) && IsUser(vb) && (mem.Some? ==> IsKernelPage(mem.value) && mem.value !in sp.tables)
    ensures Ok(FindOrCreate(sp, va, mem).0) && Entry(FindOrCreate(sp, va, mem).0, vb) == Entry(sp, vb)
  {
    hide IsUser, PdNo, PtNo, PdeGetPt, Present, IsKernelPage, PdeCreate;
    CreateOk(sp, va, mem);
    TableThere(sp, vb);
    if Find(sp, va).None? && mem.Some? { NewEntry(sp, va, mem.value, vb); }
  }

  lemma NewEntry(sp: Space, va: Word, pt: Word, vb: Word)
    requires Whole(sp) && pt !in sp.tables && IsKernelPage(pt) && Pde(sp, va) == ZERO
    requires Find(sp, vb).Some? ==> Find(sp, vb).value in sp.tables && Find(sp, vb).value != sp.pd
    requires Whole(FindOrCreate(sp, va, Some(pt)).0)
    ensures Entry(FindOrCreate(sp, va, Some(pt)).0, vb) == Entry(sp, vb)
  {
    hide IsUser, PdNo, PtNo, PdeGetPt, Present, IsKernelPage, PdeCreate;
    DirectoryEntryRoundTrip(pt);
    var sp1 := FindOrCreate(sp, va, Some(pt)).0;
    if PdNo(vb) == PdNo(va) {
      assert Pde(sp, vb) == ZERO && Find(sp1, vb) == Some(pt);
    } else {
      assert Pde(sp1, vb) == Pde(sp, vb);
    }
  }

  // ---- the map ----

  type Mapping = map<Word, (Word, bool)>    // from user pages

  function At(m: Mapping, va: Word): Option<(Word, bool)> {
    if PageOf(va) in m then Some(m[PageOf(va)]) else None
  }

  /** The tables stand for the map: at every user address the hardware sees what the map says of its page. */
  ghost predicate Stands(sp: Space, m: Mapping) {
    Ok(sp) && forall va | IsUser(va) :: Mapped(sp, va) == At(m, va)
  }

  /** The map after the entry for va becomes pte. */
  function Changed(m: Mapping, va: Word, pte: Word): Mapping {
    match Seen(pte)
    case Some(e) => m[PageOf(va) := e]
    case None => m - {PageOf(va)}
  }

  lemma ChangedAt(m: Mapping, va: Word, pte: Word, vb: Word)
    ensures At(Changed(m, va, pte), vb) == if PageOf(va) == PageOf(vb) then Seen(pte) else At(m, vb)
  {
    hide PageOf, Seen;
  }

  lemma StoreStands(sp: Space, m: Mapping, va: Word, pte: Word)
    requires Stands(sp, m) && IsUser(va) && Find(sp, va).Some?
    ensures Find(sp, va).value in sp.tables && Stands(Store(sp, Find(sp, va).value, va, pte), Changed(m, va, pte))
  {
    hide PageOf, IsUser, Present, PteGetPage, Writable, Changed, At, Store, Entry, Find, Ok, Seen;
    OkIsWhole(sp);
    StoreOk(sp, va, pte);
    var sp' := Store(sp, Find(sp, va).value, va, pte);
    OkIsWhole(sp');
    forall vb | IsUser(vb) ensures Mapped(sp', vb) == At(Changed(m, va, pte), vb) {
      StoreEntry(sp, va, pte, vb);
      ChangedAt(m, va, pte, vb);
      assert Mapped(sp, vb) == At(m, vb);
    }
  }

  lemma CreateStands(sp: Space, m: Mapping, va: Word, mem: Option<Word>)
    requires Stands(sp, m) && IsUser(va) && (mem.Some? ==> IsKernelPage(mem.value) && mem.value !in sp.tables)
    ensures Whole(sp) && Stands(FindOrCreate(sp, va, mem).0, m)
  {
    hide PageOf, IsUser, At, Entry, Find, Ok, FindOrCreate, Present, IsKernelPage, Seen;
    OkIsWhole(sp);
    CreateOk(sp, va, mem);
    var sp' := FindOrCreate(sp, va, mem).0;
    OkIsWhole(sp');
    forall vb | IsUser(vb) ensures Mapped(sp', vb) == At(m, vb) {
      CreatedEntry(sp, va, mem, vb);
      assert Mapped(sp, vb) == At(m, vb);
    }
  }

  lemma PresentInMap(sp: Space, m: Mapping, va: Word)
    requires Stands(sp, m) && IsUser(va)
    ensures Whole(sp) && (Present(Entry(sp, va)) <==> PageOf(va) in m)
    ensures PageOf(va) in m ==> Seen(Entry(sp, va)) == Some(m[PageOf(va)])
  {
    hide IsUser, PageOf, Present, PteGetPage, Writable, Entry;
    assert Mapped(sp, va) == At(m, va);
  }

  lemma SeenUserEntry(kpage: Word, writable: bool)
    requires IsKernelPage(kpage)
    ensures Seen(PteCreateUser(kpage, writable)) == Some((kpage, writable))
  {
    EntryRoundTrip(kpage, writable);
    hide IsKernelPage, PteCreateUser, Present, PteGetPage, Writable;
  }

  /** pagedir_set_page adds the page to the map, and changes nothing else; it fails exactly if a page table is
      missing and there is no memory for one. */
  lemma SetPageRefines(sp: Space, m: Mapping, upage: Word, kpage: Word, writable: bool, mem: Option<Word>)
    requires Stands(sp, m) && IsUser(upage) && IsKernelPage(kpage) && PageOf(upage) !in m
    requires mem.Some? ==> IsKernelPage(mem.value) && mem.value !in sp.tables
    ensures Whole(sp) && SetPage(sp, upage, kpage, writable, mem).Some?
    ensures var (sp', ok) := SetPage(sp, upage, kpage, writable, mem).value;
      && (!ok <==> Find(sp, upage).None? && mem.None?)
      && Stands(sp', if ok then m[PageOf(upage) := (kpage, writable)] else m)
  {
    OkIsWhole(sp);
    hide PageOf, IsUser, Find, Ok, FindOrCreate, Present, IsKernelPage, Seen, PteCreateUser, PtNo, Whole, Mapped, At;
    CreateOk(sp, upage, mem);
    CreateStands(sp, m, upage, mem);
    var (sp1, r) := FindOrCreate(sp, upage, mem);
    if r.Some? {
      OkIsWhole(sp1);
      StoreStands(sp1, m, upage, PteCreateUser(kpage, writable));
      SeenUserEntry(kpage, writable);
      PresentInMap(sp1, m, upage);
    }
  }

  /** pagedir_get_page finds the frame that the map gives, with the offset of the address. */
  lemma GetPageRefines(sp: Space, m: Mapping, va: Word)
    requires Stands(sp, m) && IsUser(va)
    ensures Whole(sp) && GetPage(sp, va) == if PageOf(va) in m then Some(PointerInto(m[PageOf(va)].0, va)) else None
  {
    hide PageOf, IsUser, Ok, Entry, Present, PteGetPage, Writable, PointerInto, Stands;
    PresentInMap(sp, m, va);
  }

  lemma ChangeStands(sp: Space, m: Mapping, va: Word, pte: Word)
    requires Stands(sp, m) && IsUser(va)
    ensures Whole(sp) && Whole(ChangeEntry(sp, va, pte))
    ensures Stands(ChangeEntry(sp, va, pte), if Find(sp, va).Some? then Changed(m, va, pte) else m)
    ensures Entry(ChangeEntry(sp, va, pte), va) == if Find(sp, va).Some? then pte else ZERO
  {
    WholeSpace(sp, m);
    hide PageOf, IsUser, Ok, Present, Stands, Whole, Find, ZERO, Seen, PtNo, Changed, Store;
    TableThere(sp, va);
    if Find(sp, va).Some? {
      StoreStands(sp, m, va, pte);
      StoreEntry(sp, va, pte, va);
    }
  }

  /** pagedir_clear_page takes the page out of the map, and keeps the other bits of the entry. */
  lemma ClearPageRefines(sp: Space, m: Mapping, upage: Word)
    requires Stands(sp, m) && IsUser(upage)
    ensures Whole(sp) && Stands(ClearPage(sp, upage), m - {PageOf(upage)})
    ensures Whole(ClearPage(sp, upage)) && SameButPresent(Entry(ClearPage(sp, upage), upage), Entry(sp, upage))
  {
    WholeSpace(sp, m);
    hide PageOf, IsUser, Ok, Entry, Present, NotPresent, Stands, Whole, Find, PTE_P, ZERO, PteGetPage, Writable,
      SameButPresent, ChangeEntry;
    PresentInMap(sp, m, upage);
    var e := Entry(sp, upage);
    PresentApart(e);
    if Present(e) {
      PresentHasTable(sp, upage);
      ChangeStands(sp, m, upage, NotPresent(e));
    } else {
      assert m - {PageOf(upage)} == m;
    }
  }

  lemma WholeSpace(sp: Space, m: Mapping)
    requires Stands(sp, m)
    ensures Ok(sp) && Whole(sp)
  {
  }

  lemma PresentHasTable(sp: Space, va: Word)
    requires Whole(sp) && Present(Entry(sp, va))
    ensures Find(sp, va).Some?
  {
    NoPage();
    hide Present;
  }

  /** The dirty and accessed bits come and go without a change to the map, and what is set is read back. */
  lemma SetFlagRefines(sp: Space, m: Mapping, va: Word, f: Flag, on: bool)
    requires Stands(sp, m) && IsUser(va)
    ensures Whole(sp) && Stands(SetFlag(sp, va, f, on), m) && Whole(SetFlag(sp, va, f, on))
    ensures IsSet(SetFlag(sp, va, f, on), va, f) <==> on && Find(sp, va).Some?
  {
    hide PageOf, IsUser, Ok, Entry, Present, HasBit, WithBit, WithoutBit, Stands, Whole, Find, ZERO, ChangeEntry, Seen,
      Changed;
    WholeSpace(sp, m);
    var e := Entry(sp, va);
    var pte := if on then WithBit(e, f) else WithoutBit(e, f);
    FlagSeen(e, f, on);
    NoBits(f);
    ChangeStands(sp, m, va, pte);
    PresentInMap(sp, m, va);
    SeenOrNot(e);
    SameChanged(m, va, e, pte);
  }

  lemma SeenOrNot(pte: Word)
    ensures Seen(pte).Some? <==> Present(pte)
  {
  }

  lemma FlagSeen(e: Word, f: Flag, on: bool)
    ensures var pte := if on then WithBit(e, f) else WithoutBit(e, f); Seen(pte) == Seen(e) && (HasBit(pte, f) <==> on)
  {
    BitsApart(e, f);
    hide Present, PteGetPage, Writable, HasBit, WithBit, WithoutBit;
  }

  lemma NoBits(f: Flag)
    ensures !HasBit(ZERO, f)
  {
    NoPage();
    hide HasBit;
  }

  lemma SameChanged(m: Mapping, va: Word, e: Word, pte: Word)
    requires Seen(pte) == Seen(e) && (if PageOf(va) in m then Seen(e) == Some(m[PageOf(va)]) else Seen(e) == None)
    ensures Changed(m, va, pte) == m
  {
    hide PageOf, Seen;
  }
}
