/** Runs of changes to an address space, its destruction, and the page tables as the source changes them. */
module AddressSpaces {
  import opened Options
  import opened PageEntries
  import opened Pagedir

  // ---- runs ----

  datatype Change =
    | DoSet(upage: Word, kpage: Word, writable: bool, mem: Option<Word>)
    | DoClear(upage: Word)
    | DoFlag(va: Word, flag: Flag, on: bool)     // by the kernel, or by the hardware at a memory access

  /** What the callers keep to: user addresses only, frames and memory from palloc, no page mapped twice over. */
  predicate Allowed(sp: Space, m: Mapping, c: Change) {
    match c
    case DoSet(upage, kpage, _, mem) =>
      && IsUser(upage) && IsKernelPage(kpage) && PageOf(upage) !in m
      && (mem.Some? ==> IsKernelPage(mem.value) && mem.value !in sp.tables)
    case DoClear(upage) => IsUser(upage)
    case DoFlag(va, _, _) => IsUser(va)
  }

  function Do(sp: Space, c: Change): Option<Space>
    requires Whole(sp)
  {
    match c
    case DoSet(upage, kpage, writable, mem) =>
      (match SetPage(sp, upage, kpage, writable, mem) case None => None case Some(r) => Some(r.0))
    case DoClear(upage) => Some(ClearPage(sp, upage))
    case DoFlag(va, flag, on) => Some(SetFlag(sp, va, flag, on))
  }

  /** The map after a change, of which `ok` says whether it succeeds. */
  function DoMap(m: Mapping, c: Change, ok: bool): Mapping {
    match c
    case DoSet(upage, kpage, writable, _) => if ok then m[PageOf(upage) := (kpage, writable)] else m
    case DoClear(upage) => m - {PageOf(upage)}
    case DoFlag(_, _, _) => m
  }

  /** A page is set unless its page table is missing and there is no memory for one. */
  predicate Succeeds(sp: Space, c: Change)
    requires Whole(sp)
  {
    c.DoSet? ==> Find(sp, c.upage).Some? || c.mem.Some?
  }

  lemma DoStands(sp: Space, m: Mapping, c: Change)
    requires Stands(sp, m) && Allowed(sp, m, c)
    ensures Whole(sp) && Do(sp, c).Some? && Stands(Do(sp, c).value, DoMap(m, c, Succeeds(sp, c)))
  {
    WholeSpace(sp, m);
    hide Stands, Whole, SetPage, ClearPage, SetFlag, PageOf, IsUser, IsKernelPage, Find;
    match c
    case DoSet(upage, kpage, writable, mem) => SetPageRefines(sp, m, upage, kpage, writable, mem);
    case DoClear(upage) => ClearPageRefines(sp, m, upage);
    case DoFlag(va, flag, on) => SetFlagRefines(sp, m, va, flag, on);
  }

  ghost predicate Permitted(sp: Space, m: Mapping, cs: seq<Change>)
    decreases |cs|
  {
    cs == [] || (Whole(sp) && Allowed(sp, m, cs[0])
      && (Do(sp, cs[0]).Some? ==> Permitted(Do(sp, cs[0]).value, DoMap(m, cs[0], Succeeds(sp, cs[0])), cs[1..])))
  }

  /** The tables and the map after the changes cs. */
  ghost function Run(sp: Space, m: Mapping, cs: seq<Change>): Option<(Space, Mapping)>
    requires Permitted(sp, m, cs)
    decreases |cs|
  {
    if cs == [] then Some((sp, m))
    else
      match Do(sp, cs[0])
      case None => None
      case Some(sp') => Run(sp', DoMap(m, cs[0], Succeeds(sp, cs[0])), cs[1..])
  }

  /** pagedir_create: the directory is a copy of the kernel's, which maps no user page. */
  function Create(pd: Word, init: Table): Space
    requires |init| == ENTRIES
  {
    Space(map[pd := init], pd)
  }

  lemma CreateStandsEmpty(pd: Word, init: Table)
    requires |init| == ENTRIES && forall i | 0 <= i < USER :: init[i] == ZERO
    ensures Stands(Create(pd, init), map[])
  {
    hide IsUser, PdBits, PtBits, PdeGetPt;
    var sp := Create(pd, init);
    forall va | IsUser(va) ensures Mapped(sp, va) == None {
      assert Pde(sp, va) == ZERO;
      NoPage();
    }
  }

  /** Over every run of changes the page tables stand for the map, and no assertion fails. */
  lemma {:induction false} RunStands(sp: Space, m: Mapping, cs: seq<Change>)
    requires Stands(sp, m) && Permitted(sp, m, cs)
    ensures Run(sp, m, cs).Some? && Stands(Run(sp, m, cs).value.0, Run(sp, m, cs).value.1)
    decreases |cs|
  {
    if cs != [] {
      DoStands(sp, m, cs[0]);
      hide Stands, Do, DoMap, Succeeds, Allowed, Whole;
      RunStands(Do(sp, cs[0]).value, DoMap(m, cs[0], Succeeds(sp, cs[0])), cs[1..]);
    }
  }

  // ---- destruction ----

  /** The frames of the present entries of a table from entry j on. */
  function Frames(t: Table, j: int): seq<Word>
    requires |t| == ENTRIES && 0 <= j <= ENTRIES
    decreases ENTRIES - j
  {
    if j == ENTRIES then [] else (if Present(t[j]) then [PteGetPage(t[j])] else []) + Frames(t, j + 1)
  }

  /** What pagedir_destroy frees from directory entry i on, in order. */
  function Freed(sp: Space, i: int): seq<Word>
    requires Whole(sp) && 0 <= i <= USER
    decreases USER - i
  {
    if i == USER then [sp.pd]
    else FreedBy(sp, sp.tables[sp.pd][i]) + Freed(sp, i + 1)
  }

  function FreedBy(sp: Space, pde: Word): seq<Word>
    requires Whole(sp)
  {
    if Present(pde) && PdeGetPt(pde) in sp.tables then Frames(sp.tables[PdeGetPt(pde)], 0) + [PdeGetPt(pde)] else []
  }

  /** Entry j of the table of directory entry i. */
  function EntryAt(sp: Space, i: int, j: int): Word
    requires Whole(sp) && 0 <= i < USER && 0 <= j < ENTRIES
  {
    var pde := sp.tables[sp.pd][i];
    if Present(pde) && PdeGetPt(pde) in sp.tables then sp.tables[PdeGetPt(pde)][j] else ZERO
  }

  function Count(s: seq<Word>, x: Word): nat { multiset(s)[x] }

  /** Frame x is in the table from entry j on. */
  ghost predicate InTable(t: Table, j: int, x: Word)
    requires |t| == ENTRIES && 0 <= j <= ENTRIES
  {
    exists k :: j <= k < ENTRIES && Present(t[k]) && PteGetPage(t[k]) == x
  }

  /** No frame is in the table twice. */
  ghost predicate OnceInTable(t: Table)
    requires |t| == ENTRIES
  {
    forall k, l | 0 <= k < l < ENTRIES && Present(t[k]) && Present(t[l]) :: PteGetPage(t[k]) != PteGetPage(t[l])
  }

  lemma {:induction false} FramesCount(t: Table, j: int, x: Word)
    requires |t| == ENTRIES && 0 <= j <= ENTRIES && OnceInTable(t)
    ensures Count(Frames(t, j), x) == if InTable(t, j, x) then 1 else 0
    decreases ENTRIES - j
  {
    hide Present, PteGetPage;
    if j < ENTRIES {
      FramesCount(t, j + 1, x);
      assert InTable(t, j + 1, x) ==> InTable(t, j, x);
      if Present(t[j]) && PteGetPage(t[j]) == x { assert InTable(t, j, x); }
    }
  }

  /** Page x is freed on account of directory entry i: it is its table, or a frame of that. */
  ghost predicate FreedAt(sp: Space, i: int, x: Word)
    requires Whole(sp) && 0 <= i < USER
  {
    var pde := sp.tables[sp.pd][i];
    Present(pde) && PdeGetPt(pde) in sp.tables && (x == PdeGetPt(pde) || InTable(sp.tables[PdeGetPt(pde)], 0, x))
  }

  /** No frame is mapped twice, and none holds a page table. */
  ghost predicate MappedOnce(sp: Space)
    requires Whole(sp)
  {
    && (forall i | 0 <= i < USER :: NoTables(sp, i))
    && (forall i, k, x | 0 <= i < k < USER && FreedAt(sp, i, x) :: !FreedAt(sp, k, x))
  }

  ghost predicate NoTables(sp: Space, i: int)
    requires Whole(sp) && 0 <= i < USER
  {
    var pde := sp.tables[sp.pd][i];
    Present(pde) && PdeGetPt(pde) in sp.tables ==>
      OnceInTable(sp.tables[PdeGetPt(pde)]) && forall x | InTable(sp.tables[PdeGetPt(pde)], 0, x) :: x !in sp.tables
  }

  lemma FreedByCount(sp: Space, i: int, x: Word)
    requires Whole(sp) && MappedOnce(sp) && 0 <= i < USER
    ensures Count(FreedBy(sp, sp.tables[sp.pd][i]), x) == if FreedAt(sp, i, x) then 1 else 0
  {
    hide Present, PdeGetPt, InTable, OnceInTable, Frames, PteGetPage;
    assert NoTables(sp, i);
    var pde := sp.tables[sp.pd][i];
    if Present(pde) && PdeGetPt(pde) in sp.tables { FramesCount(sp.tables[PdeGetPt(pde)], 0, x); }
  }

  ghost predicate FreedFrom(sp: Space, i: int, x: Word)
    requires Whole(sp) && 0 <= i <= USER
  {
    x == sp.pd || exists k :: i <= k < USER && FreedAt(sp, k, x)
  }

  lemma {:induction false} FreedCount(sp: Space, i: int, x: Word)
    requires Ok(sp) && MappedOnce(sp) && 0 <= i <= USER
    ensures Count(Freed(sp, i), x) == if FreedFrom(sp, i, x) then 1 else 0
    decreases USER - i
  {
    hide Present, PdeGetPt, InTable, FreedBy;
    if i < USER {
      FreedCount(sp, i + 1, x);
      FreedByCount(sp, i, x);
      assert NoTables(sp, i) && DirectoryEntryOk(sp, i);
      hide Ok, FreedAt, NoTables;
      PdNotFreed(sp, i);
      if FreedAt(sp, i, x) { NotLater(sp, i, x); } else { assert FreedFrom(sp, i, x) <==> FreedFrom(sp, i + 1, x); }
    }
  }

  lemma PdNotFreed(sp: Space, i: int)
    requires Ok(sp) && MappedOnce(sp) && 0 <= i < USER
    ensures !FreedAt(sp, i, sp.pd)
  {
    NoPage();
    hide Present, PdeGetPt, InTable;
    assert NoTables(sp, i) && DirectoryEntryOk(sp, i);
  }

  lemma NotLater(sp: Space, i: int, x: Word)
    requires Ok(sp) && MappedOnce(sp) && 0 <= i < USER && FreedAt(sp, i, x)
    ensures FreedFrom(sp, i, x) && !FreedFrom(sp, i + 1, x)
  {
    PdNotFreed(sp, i);
    hide Ok, FreedAt;
  }

  // ---- in terms of the map ----

  /** The map has no frame twice, and no frame that holds a page table. */
  ghost predicate FramesOnce(sp: Space, m: Mapping) {
    && (forall p, q | p in m && q in m && m[p].0 == m[q].0 :: p == q)
    && (forall p | p in m :: m[p].0 !in sp.tables && IsUser(p) && PageOf(p) == p)
  }

  ghost predicate IsTable(sp: Space, x: Word)
    requires Whole(sp)
  {
    exists i :: 0 <= i < USER && sp.tables[sp.pd][i] != ZERO && PdeGetPt(sp.tables[sp.pd][i]) == x
  }

  ghost predicate IsFrame(m: Mapping, x: Word) {
    exists p :: p in m && m[p].0 == x
  }

  /** The map's page for entry j of the table of directory entry i. */
  lemma EntryInMap(sp: Space, m: Mapping, i: int, j: int)
    requires Stands(sp, m) && 0 <= i < USER && 0 <= j < ENTRIES
    ensures Whole(sp) && (Present(EntryAt(sp, i, j)) <==> Address(i, j) in m)
    ensures Address(i, j) in m ==> m[Address(i, j)].0 == PteGetPage(EntryAt(sp, i, j))
  {
    var va := Address(i, j);
    AddressOfIndices(i, j);
    WholeSpace(sp, m);
    assert DirectoryEntryOk(sp, i);
    NoPage();
    hide Address, PdNo, PtNo, PageOf, IsUser, Present, PdeGetPt, PteGetPage, Writable, Stands, Ok;
    assert Entry(sp, va) == EntryAt(sp, i, j);
    PresentInMap(sp, m, va);
  }

  lemma AddressesDiffer(i: int, j: int, k: int, l: int)
    requires 0 <= i < ENTRIES && 0 <= j < ENTRIES && 0 <= k < ENTRIES && 0 <= l < ENTRIES
    requires Address(i, j) == Address(k, l)
    ensures i == k && j == l
  {
    AddressOfIndices(i, j);
    AddressOfIndices(k, l);
    hide Address, PdNo, PtNo;
  }

  lemma FrameOfTable(sp: Space, m: Mapping, i: int, x: Word) returns (j: int)
    requires Stands(sp, m) && 0 <= i < USER && Whole(sp)
    requires var pde := sp.tables[sp.pd][i];
      Present(pde) && PdeGetPt(pde) in sp.tables && InTable(sp.tables[PdeGetPt(pde)], 0, x)
    ensures 0 <= j < ENTRIES && Address(i, j) in m && m[Address(i, j)].0 == x
  {
    hide Present, PdeGetPt, PteGetPage, Stands, Address;
    var t := sp.tables[PdeGetPt(sp.tables[sp.pd][i])];
    j :| 0 <= j < ENTRIES && Present(t[j]) && PteGetPage(t[j]) == x;
    EntryInMap(sp, m, i, j);
  }

  lemma NoTablesFromMap(sp: Space, m: Mapping, i: int)
    requires Stands(sp, m) && FramesOnce(sp, m) && 0 <= i < USER
    ensures Whole(sp) && NoTables(sp, i)
  {
    WholeSpace(sp, m);
    hide Present, PdeGetPt, PteGetPage, Stands, Address, IsUser, PageOf, InTable;
    var pde := sp.tables[sp.pd][i];
    if Present(pde) && PdeGetPt(pde) in sp.tables {
      var t := sp.tables[PdeGetPt(pde)];
      forall k, l | 0 <= k < l < ENTRIES && Present(t[k]) && Present(t[l])
        ensures PteGetPage(t[k]) != PteGetPage(t[l])
      {
        EntryInMap(sp, m, i, k);
        EntryInMap(sp, m, i, l);
        if Address(i, k) == Address(i, l) { AddressesDiffer(i, k, i, l); }
      }
      forall x | InTable(t, 0, x) ensures x !in sp.tables {
        var j := FrameOfTable(sp, m, i, x);
      }
    }
  }

  lemma ApartFromMap(sp: Space, m: Mapping, i: int, k: int, x: Word)
    requires Stands(sp, m) && FramesOnce(sp, m) && 0 <= i < k < USER && Whole(sp) && FreedAt(sp, i, x)
    ensures !FreedAt(sp, k, x)
  {
    WholeSpace(sp, m);
    NoTablesFromMap(sp, m, i);
    NoTablesFromMap(sp, m, k);
    NoPage();
    hide Present, PdeGetPt, PteGetPage, Stands, Address, IsUser, PageOf, InTable;
    var t, u := PdeGetPt(sp.tables[sp.pd][i]), PdeGetPt(sp.tables[sp.pd][k]);
    if FreedAt(sp, k, x) && x != t && x != u {
      var j := FrameOfTable(sp, m, i, x);
      var l := FrameOfTable(sp, m, k, x);
      AddressesDiffer(i, j, k, l);
    }
  }

  lemma MappedOnceFromMap(sp: Space, m: Mapping)
    requires Stands(sp, m) && FramesOnce(sp, m)
    ensures Whole(sp) && MappedOnce(sp)
  {
    WholeSpace(sp, m);
    hide FreedAt, NoTables, Stands, FramesOnce;
    forall i | 0 <= i < USER ensures NoTables(sp, i) { NoTablesFromMap(sp, m, i); }
    forall i, k, x | 0 <= i < k < USER && FreedAt(sp, i, x) ensures !FreedAt(sp, k, x) { ApartFromMap(sp, m, i, k, x); }
  }

  lemma FrameIsFreed(sp: Space, m: Mapping, x: Word)
    requires Stands(sp, m) && FramesOnce(sp, m) && IsFrame(m, x) && Whole(sp)
    ensures FreedFrom(sp, 0, x)
  {
    var p :| p in m && m[p].0 == x;
    var i, j := PdNo(p), PtNo(p);
    AddressOfIndices(i, j);
    IndicesArePage(p, Address(i, j));
    WholeSpace(sp, m);
    NoPage();
    hide Present, PdeGetPt, PteGetPage, Stands, Address, IsUser, PdBits, PtBits, PageOf;
    EntryInMap(sp, m, i, j);
    var pde := sp.tables[sp.pd][i];
    assert InTable(sp.tables[PdeGetPt(pde)], 0, x);
    assert FreedAt(sp, i, x);
  }

  lemma FreedMeans(sp: Space, m: Mapping, x: Word)
    requires Stands(sp, m) && FramesOnce(sp, m) && Whole(sp)
    ensures FreedFrom(sp, 0, x) <==> x == sp.pd || IsTable(sp, x) || IsFrame(m, x)
  {
    WholeSpace(sp, m);
    NoPage();
    hide Present, PdeGetPt, PteGetPage, Stands, Address, IsUser, PageOf, InTable;
    if FreedFrom(sp, 0, x) && x != sp.pd {
      var i :| 0 <= i < USER && FreedAt(sp, i, x);
      if x != PdeGetPt(sp.tables[sp.pd][i]) { var j := FrameOfTable(sp, m, i, x); }
    }
    if IsTable(sp, x) {
      var i :| 0 <= i < USER && sp.tables[sp.pd][i] != ZERO && PdeGetPt(sp.tables[sp.pd][i]) == x;
      assert DirectoryEntryOk(sp, i);
      assert FreedAt(sp, i, x);
    }
    if IsFrame(m, x) { FrameIsFreed(sp, m, x); }
  }

  /** pagedir_destroy frees each mapped frame, each page table and the directory, each once and nothing else, if
      no frame is mapped twice or holds a page table. */
  lemma DestroyFreesOnce(sp: Space, m: Mapping, x: Word)
    requires Stands(sp, m) && FramesOnce(sp, m)
    ensures Whole(sp) && Count(Freed(sp, 0), x) == if x == sp.pd || IsTable(sp, x) || IsFrame(m, x) then 1 else 0
  {
    WholeSpace(sp, m);
    MappedOnceFromMap(sp, m);
    hide Stands, Ok, MappedOnce, FramesOnce, IsTable, IsFrame, FreedFrom, Freed;
    FreedCount(sp, 0, x);
    FreedMeans(sp, m, x);
  }
}
