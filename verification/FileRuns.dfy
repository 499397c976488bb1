/** What every sequence of operations on the file system keeps. */
module FileRuns {
  import opened Options
  import opened Bitmap
  import opened Bytes
  import opened Disk
  import opened Directory
  import opened FileSys
  import opened FileSysInvariant
  import opened OpenInodes
  import opened Linking
  import opened NamedFiles
  import opened CreatingFiles

  /** The calls of the file system.  A restart is filesys_done and then filesys_init without formatting. */
  datatype Op =
    | DoCreate(name: Name, length: AnyOffset, bounces: Bounces, root: Option<int>)
    | DoRemove(name: Name, bounces: Bounces, root: Option<int>, mem: Option<int>)
    | DoOpen(name: Name, root: Option<int>, mem: Option<int>, f: int)
    | DoReopen(f: int, g: int)
    | DoClose(f: int, bounces: Bounces)
    | DoDeny(f: int)
    | DoAllow(f: int)
    | DoRead(f: int, size: int)
    | DoWrite(f: int, bytes: seq<Byte>)
    | DoSeek(f: int, pos: int)
    | DoRestart(inode: int)

  /** No open file is the root directory, and only one the free map's. */
  ghost predicate FilesApart(fs: Fs) {
    forall f | f in fs.files :: fs.files[f].inode in fs.inodes && fs.inodes[fs.files[f].inode].sector != ROOT
      && (f != FREE_MAP ==> fs.inodes[fs.files[f].inode].sector != FREE_MAP)
  }

  ghost predicate Inv(fs: Fs) {
    Ok(fs, multiset{}, {}) && FilesApart(fs) && MapOk(fs)
  }

  predicate IsUserFile(fs: Fs, f: int) {
    f in fs.files && f != FREE_MAP
  }

  /** What the callers keep to: names are C strings, lengths are not negative, memory that malloc gives is not in
      use, files are open, and free_map_file is the kernel's own.  A restart is considered only when the last
      writing of the free map was complete. */
  predicate Allowed(fs: Fs, op: Op) {
    match op
    case DoCreate(name, length, _, root) => 0 !in name && 0 <= length && Unused(fs, root)
    case DoRemove(name, _, root, mem) => Unused(fs, root) && Unused(fs, mem) && (root.Some? ==> mem != root)
    case DoOpen(name, root, mem, f) => Unused(fs, root) && Unused(fs,
                                                                  mem) && (root.Some? ==> mem != root) && f !in fs.files
    case DoReopen(f, g) => IsUserFile(fs, f) && g !in fs.files
    case DoSeek(f, pos) => IsUserFile(fs, f) && 0 <= pos
    case DoClose(f, _) => IsUserFile(fs, f)
    case DoDeny(f) => IsUserFile(fs, f)
    case DoAllow(f) => IsUserFile(fs, f)
    case DoRead(f, _) => IsUserFile(fs, f)
    case DoWrite(f, _) => IsUserFile(fs, f)
    case DoRestart(_) => fs.synced
  }

  predicate NewOnly(fs: Fs, fs1: Fs, root: Option<int>) {
    fs1.inodes.Keys <= fs.inodes.Keys + (if root.Some? then {root.value} else {})
  }

  predicate Unused(fs: Fs, mem: Option<int>) {
    mem.Some? ==> mem.value !in fs.inodes
  }

  // ---- the root directory is opened and closed around each operation on names ----

  lemma OpenRoot(fs: Fs, root: Option<int>)
    requires Inv(fs) && Unused(fs, root)
    ensures var (fs1, r) := InodeOpen(fs, ROOT, root);
      && (r.None? <==> root.None? && ROOT !in MemSectors(fs.inodes)) && (r.None? ==> fs1 == fs)
      && (r.Some? ==> var d := r.value;
           && d in fs1.inodes && fs1.inodes[d].sector == ROOT && fs1.inodes[d].denyCnt == 0
           && Ok(fs1, multiset{d}, {}) && fs1.refs == fs.refs + multiset{d} && Grown(fs.inodes, fs1.inodes)
           && fs1 == fs.(inodes := fs1.inodes, open := fs1.open, refs := fs1.refs)
           && NewOnly(fs, fs1, root)
           && Owners(fs1.disk, fs1.inodes, {}) == Owners(fs.disk, fs.inodes, {}) && MapStays(fs, fs1)
           && (forall s | s != ROOT :: s in MemSectors(fs1.inodes) <==> s in MemSectors(fs.inodes)))
  {
    LinkedSystem(fs.disk);
    RootStep(fs, root);
    hide Ok, MemSectors, InodeOpen, Linked, MapOk, MapThere;
    OpenOk(fs, ROOT, root, multiset{}, {});
    SameOwners(fs, InodeOpen(fs, ROOT, root).0, ROOT, root, multiset{});
    var (fs1, r) := InodeOpen(fs, ROOT, root);
    if r.Some? {
      var d := r.value;
      assert multiset{} + multiset{d} == multiset{d};
      MapOkThere(fs);
      OpenKeepsMap(fs, fs1);
      NoDeny(fs1, d);
    }
  }

  lemma RootStep(fs: Fs, root: Option<int>)
    ensures var (fs1, r) := InodeOpen(fs, ROOT, root);
      && NewOnly(fs, fs1, root)
      && (Unused(fs, root) ==> forall s | s != ROOT :: s in MemSectors(fs1.inodes) <==> s in MemSectors(fs.inodes))
  {
    var (fs1, r) := InodeOpen(fs, ROOT, root);
    if r.Some? {
      var p := r.value;
      if p in fs.inodes && FindOpen(fs.open, fs.inodes, ROOT).Some? { SameSectors(fs.inodes, p, fs1.inodes[p]); }
      else if p !in fs.inodes { MoreSectors(fs.inodes, p, fs1.inodes[p]); }
    }
  }

  lemma NoDeny(fs1: Fs, d: int)
    requires Ok(fs1, multiset{d}, {}) && d in fs1.inodes
    requires forall f | f in fs1.files :: fs1.files[f].inode in fs1.inodes && fs1.files[f].inode != d
    ensures fs1.inodes[d].denyCnt == 0
  {
    forall f | f in fs1.files ensures f !in Denying(fs1.files, d) { assert fs1.files[f].inode != d; }
    assert Denying(fs1.files, d) == {};
  }

  /** Closing the root directory after work that kept it open. */
  lemma CloseRoot(fs: Fs, fs1: Fs, fs2: Fs, d: int)
    requires Inv(fs) && fs1.refs == fs.refs + multiset{d} && Grown(fs.inodes, fs1.inodes)
    requires d in fs1.inodes && fs1.inodes[d].sector == ROOT
    requires Ok(fs2, multiset{d}, {}) && fs2.refs == fs1.refs && Grown(fs1.inodes, fs2.inodes) && fs2.files == fs.files
    requires MapStays(fs, fs2)
    ensures InodeClose(fs2, d, PLENTY).Some?
    ensures var fs3 := InodeClose(fs2, d, PLENTY).value;
      Inv(fs3) && Grown(fs.inodes, fs3.inodes) && fs3.inodes.Keys == fs.inodes.Keys
      && fs3 == fs2.(inodes := fs3.inodes, open := fs3.open, refs := fs.refs)
  {
    RootNotRemoved(fs2, d);
    hide SectorsOk, DirOk, MemOk, FilesOk, Linked, MemSectors, Owners, RefsOk, Grown, FilesApart, SameInode, InodeClose,
      MapOk, MapThere, OnlyMap;
    assert multiset{d} - multiset{d} == multiset{};
    StaysThere(fs, fs2);
    CloseOk(fs2, d, PLENTY, multiset{d}, {});
    var fs3 := InodeClose(fs2, d, PLENTY).value;
    CloseRest(fs2, d);
    assert fs3.refs == fs.refs;
    KeysSame(fs, fs3);
    StillGrown(fs, fs1, fs2, fs3, d);
    StillApart(fs, fs3);
  }

  lemma StillGrown(fs: Fs, fs1: Fs, fs2: Fs, fs3: Fs, d: int)
    requires Grown(fs.inodes, fs1.inodes) && Grown(fs1.inodes, fs2.inodes) && d in fs2.inodes && ClosedAs(fs2, fs3, d)
    requires fs3.inodes.Keys == fs.inodes.Keys && fs2.inodes[d].openCnt >= 1
    ensures Grown(fs.inodes, fs3.inodes)
  {
    forall q | q in fs.inodes
      ensures SameInode(fs.inodes[q], fs3.inodes[q])
    {
      assert q in fs1.inodes && q in fs2.inodes && q in fs3.inodes;
    }
  }

  lemma StillApart(fs: Fs, fs3: Fs)
    requires FilesApart(fs) && Grown(fs.inodes, fs3.inodes) && fs3.files == fs.files
    ensures FilesApart(fs3)
  {
  }

  lemma RootNotRemoved(fs2: Fs, d: int)
    requires Ok(fs2, multiset{d}, {}) && d in fs2.inodes && fs2.inodes[d].sector == ROOT
    ensures !fs2.inodes[d].removed && fs2.inodes[d].openCnt >= 1
  {
    assert MemAt(fs2.disk, Linked(fs2.disk), fs2.inodes[d]);
  }

  lemma KeysSame(fs: Fs, fs3: Fs)
    requires RefsOk(fs.inodes, fs.refs) && RefsOk(fs3.inodes, fs3.refs) && fs3.refs == fs.refs
    ensures fs3.inodes.Keys == fs.inodes.Keys
  {
    forall p
      ensures p in fs3.inodes <==> p in fs.inodes
    {
      assert fs.refs[p] > 0 <==> p in fs.inodes;
      assert fs3.refs[p] > 0 <==> p in fs3.inodes;
    }
  }

  lemma CloseRest(fs: Fs, p: int)
    requires p in fs.inodes && !fs.inodes[p].removed && InodeClose(fs, p, PLENTY).Some?
    ensures var fs3 := InodeClose(fs, p, PLENTY).value;
      fs3 == fs.(inodes := fs3.inodes, open := fs3.open, refs := fs3.refs)
  {
  }

  // ---- filesys_create ----

  predicate RootOpens(fs: Fs, root: Option<int>) {
    root.Some? || ROOT in MemSectors(fs.inodes)
  }

  /** The open files and the inodes in memory after an operation on names. */
  ghost predicate Settled(fs: Fs, fs': Fs) {
    fs'.refs == fs.refs && Grown(fs.inodes, fs'.inodes) && fs'.inodes.Keys == fs.inodes.Keys
  }

  lemma CreatedThere(fs: Fs, fs1: Fs, fs2: Fs, fs3: Fs, name: Name, length: Offset, a: int)
    requires fs1 == fs.(inodes := fs1.inodes, open := fs1.open, refs := fs1.refs)
    requires Owners(fs1.disk, fs1.inodes, {}) == Owners(fs.disk, fs.inodes, {})
    requires fs3 == fs2.(inodes := fs3.inodes, open := fs3.open, refs := fs3.refs) && |fs2.bits| == |fs1.bits|
    ensures Created(fs1, fs2, name, length, a) ==> Created(fs, fs3, name, length, a)
    ensures Leak(fs1, fs2, length) ==> Leak(fs, fs3, length)
  {
    hide Owners, DirNames, Owns, Untouched, ByteOf;
    if Leak(fs1, fs2, length) {
      var start :| LeakAt(fs1, fs2, start, Sectors(length));
      assert LeakAt(fs, fs3, start, Sectors(length));
    }
  }

  /** filesys_create succeeds exactly if the root directory opens, the inode can be made, the name is valid
      and new, and a slot is free.  When only the entry fails, the data sectors are lost; any other failure
      changes nothing but the free map's file. */
  lemma CreateOk(fs: Fs, name: Name, length: AnyOffset, bounces: Bounces, root: Option<int>)
    requires Inv(fs) && Unused(fs, root) && 0 !in name && 0 <= length
    ensures Create(fs, name, length, bounces, root).Some?
    ensures var (fs', ok) := Create(fs, name, length, bounces, root).value;
      var can := RootOpens(fs, root) && CanMake(fs, length, bounces);
      && Inv(fs') && Settled(fs, fs')
      && (ok <==> can && AddSlot(DirBytes(fs.disk), name).Some?)
      && (ok ==> Created(fs, fs', name, length, NewSector(fs.bits)))
      && (!ok && can ==> Leak(fs, fs', length))
      && (!can ==> fs'.bits == fs.bits && OnlyMap(fs.disk, fs'.disk) && fs'.owner == fs.owner && fs'.files == fs.files)
  {
    hide Ok, FilesApart, InodeOpen, CreateIn, InodeClose, AddSlot, CanMake, Created, Leak, DirBytes, MemSectors,
      NewSector, Grown,
      MapOk, MapThere, OnlyMap;
    OpenRoot(fs, root);
    var (fs1, r) := InodeOpen(fs, ROOT, root);
    MapSame(fs.disk);
    if r.Some? {
      var d := r.value;
      StaysThere(fs, fs1);
      CreateInOk(fs1, d, name, length, bounces, multiset{d});
      var (fs2, ok) := CreateIn(fs1, d, name, length, bounces).value;
      CanMakeThere(fs, fs1, length, bounces);
      CreateFiles(fs1, fs2, ok, length, bounces, name);
      SameGrown(fs1.inodes);
      CloseRoot(fs, fs1, fs2, d);
      var fs3 := InodeClose(fs2, d, PLENTY).value;
      CreatedThere(fs, fs1, fs2, fs3, name, length, NewSector(fs.bits));
    } else {
      SameGrown(fs.inodes);
    }
  }

  /** The one assertion that a caller can make fail: filesys_create with a negative length, when it comes to
      inode_create. */
  lemma CreatePanics(fs: Fs, name: Name, length: AnyOffset, bounces: Bounces, root: Option<int>)
    requires Inv(fs) && Unused(fs, root) && 0 !in name
    ensures Create(fs, name, length, bounces, root).None?
      <==> length < 0 && RootOpens(fs, root) && MapFits(|fs.bits|, bounces.first) && Scan(fs.bits, 0, 1).Some?
  {
    hide *;
    if 0 <= length {
      CreateOk(fs, name, length, bounces, root);
    } else {
      OpenRoot(fs, root);
      RootOpensWhen(fs, root);
      NegativeCreate(fs, name, length, bounces, root);
      var (fs1, r) := InodeOpen(fs, ROOT, root);
      if r.Some? {
        var d := r.value;
        StaysThere(fs, fs1);
        ReserveSteps(fs1, bounces.first, multiset{d});
        var (fs2, a) := FreeMapAllocate(fs1, 1, bounces.first);
        if a.None? {
          WithMapSame(fs1, fs2);
          SameGrown(fs1.inodes);
          MapChainOpen(fs, fs1, fs2);
          CloseRoot(fs, fs1, fs2, d);
          ClosedNone(InodeClose(fs2, d, PLENTY));
        }
      }
    }
  }

  lemma RootOpensWhen(fs: Fs, root: Option<int>)
    ensures RootOpens(fs, root) <==> root.Some? || ROOT in MemSectors(fs.inodes)
  {
  }

  lemma NegativeCreate(fs: Fs, name: Name, length: AnyOffset, bounces: Bounces, root: Option<int>)
    requires length < 0
    requires var (fs1, r) := InodeOpen(fs, ROOT, root); r.Some? ==> r.value in fs1.inodes
    ensures var (fs1, r) := InodeOpen(fs, ROOT, root); var (fs2, a) := FreeMapAllocate(fs1, 1, bounces.first);
      Create(fs, name, length, bounces, root)
      == if r.None? then Some((fs1, false)) else if a.Some? then None
         else Closed(InodeClose(fs2, r.value, PLENTY), false)
  {
    hide InodeOpen, FreeMapAllocate, InodeClose, InodeCreate, DirAdd, GiveBack, Leaked, Closed;
    var (fs1, r) := InodeOpen(fs, ROOT, root);
    if r.Some? {
      var a := FreeMapAllocate(fs1, 1, bounces.first).1;
      if a.Some? {
        assert CreateIn(fs1, r.value, name, length, bounces) == None;
      } else {
        assert CreateIn(fs1, r.value, name, length, bounces) == Some((FreeMapAllocate(fs1, 1, bounces.first).0, false));
      }
    }
  }

  lemma ClosedNone(fs: Option<Fs>)
    ensures Closed(fs, false).None? <==> fs.None?
  {
  }

  lemma MapChainOpen(fs: Fs, fs1: Fs, fs2: Fs)
    requires MapStays(fs, fs1) && MapStays(fs1, fs2)
    ensures MapStays(fs, fs2)
  {
    hide MapThere, MapOk;
  }

  lemma SameGrown(inodes: Inodes)
    ensures Grown(inodes, inodes)
  {
  }

  lemma CanMakeThere(fs: Fs, fs1: Fs, length: Offset, bounces: Bounces)
    requires fs1.bits == fs.bits
    ensures CanMake(fs1, length, bounces) == CanMake(fs, length, bounces)
  {
  }

  lemma CreateFiles(fs1: Fs, fs2: Fs, ok: bool, length: Offset, bounces: Bounces, name: Name)
    requires ok ==> Created(fs1, fs2, name, length, NewSector(fs1.bits))
    requires !ok ==> if CanMake(fs1, length, bounces) then Leak(fs1, fs2, length) else fs2 == WithMap(fs1, fs2)
    ensures fs2.files == fs1.files && |fs2.bits| == |fs1.bits|
  {
  }

  // ---- filesys_remove ----

  lemma RemovedThere(fs: Fs, fs1: Fs, fs2: Fs, fs3: Fs, name: Name)
    requires fs1 == fs.(inodes := fs1.inodes, open := fs1.open, refs := fs1.refs)
    requires Owners(fs1.disk, fs1.inodes, {}) == Owners(fs.disk, fs.inodes, {})
    requires forall s | s != ROOT :: s in MemSectors(fs1.inodes) <==> s in MemSectors(fs.inodes)
    requires fs3 == fs2.(inodes := fs3.inodes, open := fs3.open, refs := fs3.refs)
    requires Removed(fs1, fs2, name) && DirNames(fs.disk)[name] != ROOT && OthersUntouched(fs1, fs2.disk)
    requires Settled(fs, fs3)
    ensures Removed(fs, fs3, name) && OthersUntouched(fs, fs3.disk)
  {
    hide Owners, DirNames, Owns, Untouched, MemSectors, Grown;
  }

  lemma NamesNotRoot(fs: Fs, name: Name)
    requires Inv(fs) && name in DirNames(fs.disk)
    ensures DirNames(fs.disk)[name] != ROOT && DirNames(fs.disk)[name] != FREE_MAP
  {
  }

  /** filesys_remove succeeds exactly if there is a file of that name, and memory for the inodes. */
  lemma RemoveOk(fs: Fs, name: Name, bounces: Bounces, root: Option<int>, mem: Option<int>)
    requires Inv(fs) && Unused(fs, root) && Unused(fs, mem) && (root.Some? ==> mem != root)
    ensures FileSys.Remove(fs, name, bounces, root, mem).Some?
    ensures var (fs', ok) := FileSys.Remove(fs, name, bounces, root, mem).value;
      && Inv(fs') && Settled(fs, fs')
      && (ok <==> RootOpens(fs, root) && CanRemove(fs, name, mem))
      && (ok ==> Removed(fs, fs', name) && OthersUntouched(fs, fs'.disk))
      && (!ok ==> fs'.bits == fs.bits && fs'.disk == fs.disk && fs'.owner == fs.owner && fs'.files == fs.files)
  {
    hide Ok, FilesApart, InodeOpen, DirRemove, InodeClose, DirNames, MemSectors, Grown, Removed, OthersUntouched, MapOk,
      MapThere;
    OpenRoot(fs, root);
    var (fs1, r) := InodeOpen(fs, ROOT, root);
    if r.Some? {
      var d := r.value;
      assert Unused(fs1, mem);
      StaysThere(fs, fs1);
      DirRemoveOk(fs1, d, name, mem, bounces, multiset{d});
      var (fs2, ok) := DirRemove(fs1, d, name, mem, bounces).value;
      MapChainOpen(fs, fs1, fs2);
      if name in DirNames(fs.disk) { NamesNotRoot(fs, name); }
      SameGrown(fs1.inodes);
      if ok { RemovedFiles(fs1, fs2, name); }
      CloseRoot(fs, fs1, fs2, d);
      if ok { RemovedThere(fs, fs1, fs2, InodeClose(fs2, d, PLENTY).value, name); }
    } else {
      SameGrown(fs.inodes);
    }
  }

  lemma RemovedFiles(fs1: Fs, fs2: Fs, name: Name)
    requires Removed(fs1, fs2, name)
    ensures fs2.files == fs1.files && fs2.refs == fs1.refs && Grown(fs1.inodes, fs2.inodes)
  {
  }

  // ---- filesys_open ----

  /** An opening becomes an open file. */
  lemma AddFileOk(fs: Fs, p: int, f: int)
    requires Ok(fs, multiset{p}, {}) && f !in fs.files
    ensures Ok(fs.(files := fs.files[f := File(p, 0, false)]), multiset{}, {})
  {
    hide SectorsOk, DirOk, MemOk, Linked, MemSectors, RefsOk, On, Denying;
    var files' := fs.files[f := File(p, 0, false)];
    forall q
      ensures |On(files', q)| == |On(fs.files, q)| + multiset{p}[q] && Denying(files', q) == Denying(fs.files, q)
    {
      OneMore(fs.files, p, f, q);
    }
  }

  lemma OneMore(files: Files, p: int, f: int, q: int)
    requires f !in files
    ensures var files' := files[f := File(p, 0, false)];
      |On(files', q)| == |On(files, q)| + multiset{p}[q] && Denying(files', q) == Denying(files, q)
  {
    var files' := files[f := File(p, 0, false)];
    assert On(files', q) == if q == p then On(files, q) + {f} else On(files, q);
    assert Denying(files', q) == Denying(files, q);
  }

  lemma CloseGrown(fs: Fs, fs2: Fs, fs3: Fs, d: int)
    requires RefsOk(fs.inodes, fs.refs) && RefsOk(fs3.inodes, fs3.refs) && fs.refs <= fs3.refs
    requires Grown(fs.inodes, fs2.inodes) && d in fs2.inodes && ClosedAs(fs2, fs3, d) && fs2.inodes[d].openCnt >= 1
    ensures Grown(fs.inodes, fs3.inodes)
  {
    forall q | q in fs.inodes ensures q in fs3.inodes && SameInode(fs.inodes[q], fs3.inodes[q]) {
      assert fs.refs[q] > 0;
      assert fs3.refs[q] > 0;
    }
  }

  /** What filesys_open finds. */
  ghost predicate Opened(fs: Fs, fs': Fs, name: Name, f: int) {
    && name in DirNames(fs.disk) && f in fs'.files && fs'.files == fs.files[f := fs'.files[f]]
    && fs'.files[f].pos == 0 && !fs'.files[f].deny
    && var p := fs'.files[f].inode;
       p in fs'.inodes && fs'.inodes[p].sector == DirNames(fs.disk)[name] && fs'.refs == fs.refs + multiset{p}
  }

  /** filesys_open of a name in the open root directory d. */
  lemma OpenNamed(fs: Fs, fs1: Fs, d: int, name: Name, mem: Option<int>, p: int, f: int)
    requires Inv(fs) && Ok(fs1, multiset{d}, {}) && fs1 == fs.(inodes := fs1.inodes, open := fs1.open, refs := fs1.refs)
    requires fs1.refs == fs.refs + multiset{d} && Grown(fs.inodes, fs1.inodes) && d in fs1.inodes
    requires fs1.inodes[d].sector == ROOT
    requires (mem.Some? ==> mem.value !in fs1.inodes) && name in DirNames(fs.disk) && f !in fs.files
    requires MapStays(fs, fs1)
    requires InodeOpen(fs1, DirNames(fs.disk)[name], mem).1 == Some(p)
    ensures var fs2 := InodeOpen(fs1, DirNames(fs.disk)[name], mem).0;
      && InodeClose(fs2, d, PLENTY).Some? && InodeClose(fs2, d, PLENTY).value.files == fs.files
      && var fs4 := InodeClose(fs2, d, PLENTY).value.(files := fs.files[f := File(p, 0, false)]);
         && Inv(fs4) && Opened(fs, fs4, name, f) && Grown(fs.inodes, fs4.inodes)
         && fs4 == fs.(inodes := fs4.inodes, open := fs4.open, refs := fs4.refs, files := fs4.files)
  {
    hide *;
    NamesNotRoot(fs, name);
    Named(fs, name);
    OpenOk(fs1, DirNames(fs.disk)[name], mem, multiset{d}, {});
    var fs2 := InodeOpen(fs1, DirNames(fs.disk)[name], mem).0;
    StaysThere(fs, fs1);
    OpenKeepsMap(fs1, fs2);
    MapChainOpen(fs, fs1, fs2);
    assert multiset{d} + multiset{p} - multiset{d} == multiset{p};
    CloseOk(fs2, d, PLENTY, multiset{d} + multiset{p}, {});
    var fs3 := InodeClose(fs2, d, PLENTY).value;
    StaysTwice(fs, fs2, fs3);
    OpenGrown(fs, fs1, fs2, fs3, d, p);
    StillOpened(fs, fs2, fs3, d, p, name, f);
    OpenApart(fs, fs3, p, f);
    AddFileOk(fs3, p, f);
    AddFileKeepsMap(fs, fs3, p, f);
    IntroInv(fs3.(files := fs3.files[f := File(p, 0, false)]));
  }

  lemma IntroInv(fs: Fs)
    requires Ok(fs, multiset{}, {}) && FilesApart(fs) && MapOk(fs)
    ensures Inv(fs)
  {
  }

  lemma AddFileKeepsMap(fs: Fs, fs3: Fs, p: int, f: int)
    requires Inv(fs) && MapStays(fs, fs3) && fs3.files == fs.files && f !in fs.files
    ensures MapOk(fs3.(files := fs3.files[f := File(p, 0, false)]))
  {
    MapOkThere(fs);
    HasMapFile(fs);
    SameUntouched(fs3.disk, FREE_MAP);
    hide Ok, FilesApart, Untouched;
    MapKept(fs3, fs3.(files := fs3.files[f := File(p, 0, false)]));
  }

  lemma OpenApart(fs: Fs, fs3: Fs, p: int, f: int)
    requires FilesApart(fs) && Grown(fs.inodes, fs3.inodes) && p in fs3.inodes && fs3.inodes[p].sector != ROOT
    requires fs3.inodes[p].sector != FREE_MAP
    ensures FilesApart(fs3.(files := fs.files[f := File(p, 0, false)]))
  {
  }

  lemma OpenGrown(fs: Fs, fs1: Fs, fs2: Fs, fs3: Fs, d: int, p: int)
    requires Inv(fs) && Grown(fs.inodes, fs1.inodes) && fs1.refs == fs.refs + multiset{d} && Ok(fs3, multiset{p}, {})
    requires forall q | q in fs1.inodes ::
      q in fs2.inodes && fs2.inodes[q] == fs1.inodes[q].(openCnt := fs2.inodes[q].openCnt)
    requires d in fs2.inodes && fs2.refs == fs1.refs + multiset{p} && ClosedAs(fs2, fs3, d)
    requires Ok(fs2, multiset{d} + multiset{p}, {})
    ensures fs3.refs == fs.refs + multiset{p} && Grown(fs.inodes, fs3.inodes) && fs2.inodes[d].openCnt >= 1
  {
    hide SectorsOk, DirOk, MemOk, FilesOk, Linked, MemSectors, FilesApart;
    assert fs3.refs == fs.refs + multiset{p};
    assert fs2.inodes[d].openCnt > 0;
    CloseGrown(fs, fs2, fs3, d);
  }

  lemma StillOpened(fs: Fs, fs2: Fs, fs3: Fs, d: int, p: int, name: Name, f: int)
    requires Inv(fs) && Grown(fs.inodes, fs3.inodes) && fs3.refs == fs.refs + multiset{p} && name in DirNames(fs.disk)
    requires Ok(fs3, multiset{p}, {}) && d in fs2.inodes && p in fs2.inodes && ClosedAs(fs2, fs3, d)
    requires fs2.inodes[d].sector == ROOT
    requires Ok(fs2, multiset{d} + multiset{p}, {})
    requires fs2 == fs.(inodes := fs2.inodes, open := fs2.open, refs := fs2.refs)
    requires fs2.inodes[p].sector == DirNames(fs.disk)[name] && DirNames(fs.disk)[name] != ROOT
    requires DirNames(fs.disk)[name] != FREE_MAP
    requires InodeClose(fs2, d, PLENTY) == Some(fs3)
    ensures var fs4 := fs3.(files := fs.files[f := File(p, 0, false)]);
      && p in fs3.inodes && fs3.inodes[p].sector != ROOT && fs3.inodes[p].sector != FREE_MAP && FilesApart(fs)
      && (f !in fs.files ==> Opened(fs, fs4, name, f))
      && fs4 == fs.(inodes := fs4.inodes, open := fs4.open, refs := fs4.refs, files := fs4.files)
      && fs3.files == fs.files
  {
    hide SectorsOk, DirOk, FilesOk, MemSectors, DirNames, Grown, MapOk, OnlyMap, FilesApart;
    LinkedSystem(fs2.disk);
    assert MemAt(fs2.disk, Linked(fs2.disk), fs2.inodes[d]);
    hide Linked;
    CloseRest(fs2, d);
    assert fs3.refs[p] > 0;
    assert p in fs3.inodes;
    assert fs2.inodes[d].openCnt > 0;
  }

  /** filesys_open succeeds exactly if there is a file of that name, and memory for the inodes; the new open
      file is at position 0 of the one in-memory inode of the sector that the name stands for. */
  lemma OpenFileOk(fs: Fs, name: Name, root: Option<int>, mem: Option<int>, f: int)
    requires Inv(fs) && Unused(fs, root) && Unused(fs, mem) && (root.Some? ==> mem != root) && f !in fs.files
    ensures Open(fs, name, root, mem, f).Some?
    ensures var (fs', ok) := Open(fs, name, root, mem, f).value;
      && Inv(fs') && Grown(fs.inodes, fs'.inodes)
      && (ok <==> RootOpens(fs, root) && CanRemove(fs, name, mem))
      && (ok ==> Opened(fs, fs', name, f)) && (!ok ==> fs'.refs == fs.refs && fs'.files == fs.files)
      && fs'.bits == fs.bits && fs'.disk == fs.disk && fs'.owner == fs.owner && fs'.synced == fs.synced
  {
    hide Ok, FilesApart, InodeOpen, InodeClose, DirNames, DirBytes, MemSectors, Grown, Opened, Lookup, Linked, BytesOf,
      SectorIn, Slot,
      MapOk, MapThere;
    OpenRoot(fs, root);
    var (fs1, r) := InodeOpen(fs, ROOT, root);
    SameGrown(fs.inodes);
    if r.Some? {
      var d := r.value;
      LookupNames(fs1, d, name, multiset{d});
      SameGrown(fs1.inodes);
      CloseRoot(fs, fs1, fs1, d);
      if name in DirNames(fs.disk) {
        assert Unused(fs1, mem);
        NamesNotRoot(fs, name);
        Named(fs1, name);
        OpenOk(fs1, DirNames(fs.disk)[name], mem, multiset{d}, {});
        var q := InodeOpen(fs1, DirNames(fs.disk)[name], mem).1;
        if q.Some? { OpenNamed(fs, fs1, d, name, mem, q.value, f); }
      }
    }
  }
}
