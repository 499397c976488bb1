/** The page tables as userprog/pagedir.c has them, changed in place.  Each method is proved to do what the
    operation of module Pagedir says. */
module PageTables {
  import opened Options
  import opened Sequences
  import opened PageEntries
  import opened Pagedir
  import opened AddressSpaces

  class PageDirectory {
    var tables: map<Word, Table>
    const pd: Word

    /** pagedir_create, in page `pd`. */
    constructor (pd: Word, init: Table)
      requires |init| == ENTRIES
      ensures View() == Create(pd, init)
    {
      tables := map[pd := init];
      this.pd := pd;
    }

    ghost function View(): Space
      reads this
    {
      Space(tables, pd)
    }

    /** What lookup_page finds without making a table; the entry is number PtNo(va) of the table returned. */
    method FindPage(va: Word) returns (pt: Option<Word>)
      requires Whole(View())
      ensures pt == Find(View(), va)
    {
      var pde := tables[pd][PdNo(va)];
      if pde == ZERO { return None; }
      return Some(PdeGetPt(pde));
    }

    /** lookup_page. */
    method LookupPage(va: Word, create: bool, mem: Option<Word>) returns (pt: Option<Word>)
      requires Whole(View()) && (create ==> IsUser(va))
      modifies this
      ensures create ==> (View(), pt) == FindOrCreate(old(View()), va, mem)
      ensures !create ==> View() == old(View()) && pt == Find(View(), va)
    {
      hide IsUser, PdeGetPt, PdeCreate, PdNo, ZERO;
      pt := FindPage(va);
      if pt.Some? || !create || mem.None? { return; }
      var dir := tables[pd];
      tables := tables[mem.value := seq(ENTRIES, i => ZERO)];
      var pde := PdeCreate(mem.value);
      tables := tables[pd := dir[PdNo(va) := pde]];
      return Some(PdeGetPt(pde));
    }

    method SetPageAt(upage: Word, kpage: Word, writable: bool, mem: Option<Word>) returns (success: bool)
      requires Whole(View()) && IsUser(upage) && SetPage(View(), upage, kpage, writable, mem).Some?
      modifies this
      ensures Some((View(), success)) == SetPage(old(View()), upage, kpage, writable, mem)
    {
      hide IsUser, FindOrCreate, PteCreateUser, Present, PtNo;
      var pt := LookupPage(upage, true, mem);
      if pt.None? { return false; }
      tables := tables[pt.value := tables[pt.value][PtNo(upage) := PteCreateUser(kpage, writable)]];
      success := true;
    }

    method GetPageAt(va: Word) returns (r: Option<Word>)
      requires Ok(View()) && IsUser(va)
      ensures Whole(View()) && r == GetPage(View(), va)
    {
      OkIsWhole(View());
      TableThere(View(), va);
      hide Ok, IsUser, Find, PteGetPage, Present, PtNo, PointerInto, ZERO;
      var pt := FindPage(va);
      if pt.Some? && Present(tables[pt.value][PtNo(va)]) {
        return Some(PointerInto(PteGetPage(tables[pt.value][PtNo(va)]), va));
      }
      NoPage();
      r := None;
    }

    method ClearPageAt(upage: Word)
      requires Ok(View()) && IsUser(upage)
      modifies this
      ensures Whole(old(View())) && View() == ClearPage(old(View()), upage)
    {
      OkIsWhole(View());
      TableThere(View(), upage);
      hide Ok, IsUser, Find, NotPresent, Present, PtNo, ZERO;
      NoPage();
      var pt := LookupPage(upage, false, None);
      if pt.Some? && Present(tables[pt.value][PtNo(upage)]) {
        var pte := NotPresent(tables[pt.value][PtNo(upage)]);
        tables := tables[pt.value := tables[pt.value][PtNo(upage) := pte]];
      }
    }

    /** pagedir_set_dirty and pagedir_set_accessed. */
    method SetFlagAt(va: Word, f: Flag, on: bool)
      requires Ok(View()) && IsUser(va)
      modifies this
      ensures Whole(old(View())) && View() == SetFlag(old(View()), va, f, on)
    {
      OkIsWhole(View());
      TableThere(View(), va);
      hide Ok, IsUser, Find, WithBit, WithoutBit, PtNo, ZERO;
      var pt := LookupPage(va, false, None);
      if pt.Some? {
        var pte := tables[pt.value][PtNo(va)];
        pte := if on then WithBit(pte, f) else WithoutBit(pte, f);
        tables := tables[pt.value := tables[pt.value][PtNo(va) := pte]];
      }
    }

    /** pagedir_destroy: the pages that it gives to palloc_free_page, in order. */
    method Destroy() returns (freed: seq<Word>)
      requires Ok(View())
      ensures Whole(View()) && freed == Freed(View(), 0)
    {
      hide Present, PdeGetPt, ZERO, Frames, Ok, Whole, Freed, FreedBy, DirectoryEntryOk, USER, ENTRIES;
      freed := [];
      var i := 0;
      DirectoryStart(View());
      ghost var all := Freed(View(), 0);
      while i < USER
        invariant 0 <= i <= USER && |freed| <= |all| && freed == all[..|freed|] && Freed(View(), i) == all[|freed|..]
      {
        DirectoryEntryIs(View(), i);
        var pde := tables[pd][i];
        var pages := DestroyEntry(pde);
        TakeNext(all, |freed|, pages, Freed(View(), i + 1));
        freed := freed + pages;
        i := i + 1;
      }
      freed := freed + [pd];
    }

    /** One turn of the loop of pagedir_destroy. */
    method DestroyEntry(pde: Word) returns (pages: seq<Word>)
      requires Whole(View()) && (Present(pde) ==> PdeGetPt(pde) in tables)
      ensures pages == FreedBy(View(), pde)
    {
      hide Present, PdeGetPt, Frames;
      if !Present(pde) { return []; }
      var pt := PdeGetPt(pde);
      pages := DestroyTable(tables[pt]);
      pages := pages + [pt];
    }
  }

  /** The inner loop of pagedir_destroy. */
  method DestroyTable(t: Table) returns (frames: seq<Word>)
    requires |t| == ENTRIES
    ensures frames == Frames(t, 0)
  {
    hide *;
    frames := [];
    var j := 0;
    TableStart(t);
    ghost var all := Frames(t, 0);
    while j < ENTRIES
      invariant 0 <= j <= ENTRIES && |frames| <= |all| && frames == all[..|frames|] && Frames(t, j) == all[|frames|..]
    {
      FramesStep(t, j);
      TakeNext(all, |frames|, if Present(t[j]) then [PteGetPage(t[j])] else [], Frames(t, j + 1));
      if Present(t[j]) {
        frames := frames + [PteGetPage(t[j])];
      }
      j := j + 1;
    }
  }

  lemma TableStart(t: Table)
    requires |t| == ENTRIES
    ensures 0 < ENTRIES && Frames(t, ENTRIES) == [] && Frames(t, 0)[0..] == Frames(t, 0)
  {
  }

  lemma FramesStep(t: Table, j: int)
    requires |t| == ENTRIES && 0 <= j < ENTRIES
    ensures Frames(t, j) == (if Present(t[j]) then [PteGetPage(t[j])] else []) + Frames(t, j + 1)
  {
    hide Present, PteGetPage;
  }

  lemma DirectoryStart(sp: Space)
    requires Ok(sp)
    ensures Whole(sp) && 0 < USER && Freed(sp, USER) == [sp.pd] && Freed(sp, 0)[0..] == Freed(sp, 0)
  {
  }

  lemma DirectoryEntryIs(sp: Space, i: int)
    requires Ok(sp) && 0 <= i < USER
    ensures Whole(sp) && sp.pd in sp.tables && |sp.tables[sp.pd]| == ENTRIES && USER <= ENTRIES
    ensures Freed(sp, i) == FreedBy(sp, sp.tables[sp.pd][i]) + Freed(sp, i + 1)
    ensures Present(sp.tables[sp.pd][i]) ==> PdeGetPt(sp.tables[sp.pd][i]) in sp.tables
  {
    assert DirectoryEntryOk(sp, i);
    NoPage();
    hide Present, PdeGetPt, ZERO, FreedBy;
  }
}
