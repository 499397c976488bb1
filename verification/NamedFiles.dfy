/** Creating and removing files by name (filesys/filesys.c). */
module NamedFiles {
  import opened Options
  import opened Bitmap
  import opened Bytes
  import opened Disk
  import opened Directory
  import opened FileSys
  import opened FileSysInvariant
  import opened OpenInodes
  import opened Linking

  // ---- filesys_remove ----

  /** What a successful removal does: the name goes; the inode's sectors become free at once if nobody has the
      file open, and otherwise the inode in memory is marked. */
  ghost predicate Removed(fs: Fs, fs': Fs, name: Name) {
    && name in DirNames(fs.disk) && DirNames(fs'.disk) == DirNames(fs.disk) - {name}
    && fs'.files == fs.files && |fs'.bits| == |fs.bits| && fs'.refs == fs.refs && Grown(fs.inodes, fs'.inodes)
    && var s := DirNames(fs.disk)[name];
       (forall x | 0 <= x < |fs.bits| ::
         fs'.bits[x] == (fs.bits[x] && !(s !in MemSectors(fs.inodes) && Owns(fs.disk, s, x))))
       && (s in MemSectors(fs.inodes) ==> fs'.synced == fs.synced)
  }

  /** No inode but those of the directory and of the free map is touched, and these only in their data. */
  ghost predicate OthersUntouched(fs: Fs, disk': Disk) {
    && (forall t | t in Owners(fs.disk, fs.inodes, {}) && t != ROOT && t != FREE_MAP :: Untouched(fs.disk, disk', t))
    && SystemSame(fs.disk, disk')
  }

  ghost predicate SystemSame(disk: Disk, disk': Disk) {
    && ROOT in disk && ROOT in disk' && disk'[ROOT] == disk[ROOT]
    && FREE_MAP in disk && FREE_MAP in disk' && disk'[FREE_MAP] == disk[FREE_MAP]
  }

  /** The free map's file stays, and holds the map if it did. */
  ghost predicate MapStays(fs: Fs, fs': Fs) {
    MapThere(fs') && (MapOk(fs) ==> MapOk(fs'))
  }

  lemma Named(fs: Fs, name: Name)
    requires name in DirNames(fs.disk)
    ensures DirNames(fs.disk)[name] in Linked(fs.disk)
  {
  }

  /** dir_remove, when the inode of the file could be opened at p. */
  lemma UnlinkAt(fs1: Fs, d: int, name: Name, p: int, extra: multiset<int>)
    requires Ok(fs1, extra, {}) && d in fs1.inodes && fs1.inodes[d].sector == ROOT && fs1.inodes[d].denyCnt == 0
    requires name in DirNames(fs1.disk) && p in fs1.inodes && fs1.inodes[p].sector == DirNames(fs1.disk)[name]
    ensures var c := BytesOf(fs1, fs1.inodes[d]); c == DirBytes(fs1.disk) && Lookup(c, name, 0).Some?
    ensures var c := DirBytes(fs1.disk); var i := Lookup(c, name, 0).value;
      var (fs2, n) := InodeWrite(fs1, d, Erased(Slot(c, i)), i * ENTRY);
      && n == ENTRY && fs2 == fs1.(disk := fs2.disk) && Ok(InodeRemove(fs2, p), extra, {})
      && DirNames(fs2.disk) == DirNames(fs1.disk) - {name} && OthersUntouched(fs1, fs2.disk)
      && p in fs2.inodes && (MapThere(fs1) ==> MapStays(fs1, fs2))
  {
    RemoveRefines(DirBytes(fs1.disk), name);
    hide RefsOk, FilesOk, MemOk, SectorsOk, DirOk, Linked, Untouched, MemSectors, InodeWrite, Splice, Erased, Slot,
      DirBytes, Lookup, Entries,
      MapThere, MapOk;
    var c := DirBytes(fs1.disk);
    var i := Lookup(c, name, 0).value;
    WriteEntry(fs1, d, i, Erased(Slot(c, i)), extra, {});
    var fs2 := InodeWrite(fs1, d, Erased(Slot(c, i)), i * ENTRY).0;
    NamesRemoved(fs1.disk, fs2.disk, name);
    UnlinkedOk(fs1, fs2.disk, p, extra, {});
    MapNodeStays(fs1, fs2.disk, extra);
    OthersIs(fs1, fs2.disk);
    hide OthersUntouched, Owners;
    if MapThere(fs1) { RootWriteKeepsMap(fs1, fs2.disk, {}); }
  }

  lemma OthersIs(fs: Fs, disk': Disk)
    requires forall t | t in Owners(fs.disk, fs.inodes, {}) && t != ROOT && t != FREE_MAP ::
      Untouched(fs.disk, disk', t)
    requires SystemSame(fs.disk, disk')
    ensures OthersUntouched(fs, disk')
  {
  }

  lemma SystemTwice(disk: Disk, disk2: Disk, disk3: Disk)
    requires SystemSame(disk, disk2) && SystemSame(disk2, disk3)
    ensures SystemSame(disk, disk3)
  {
  }

  lemma MapNodeStays(fs: Fs, disk': Disk, extra: multiset<int>)
    requires Ok(fs, extra, {}) && forall t | t in Owners(fs.disk, fs.inodes, {}) && t != ROOT ::
      Untouched(fs.disk, disk', t)
    requires ROOT in fs.disk && ROOT in disk' && disk'[ROOT] == fs.disk[ROOT]
    ensures SystemSame(fs.disk, disk')
  {
    LinkedSystem(fs.disk);
    RootThere(fs.disk);
    assert OwnerAt(fs.disk, fs.owner, |fs.bits|, FREE_MAP);
    hide Linked, MemSectors, Untouched, DirOk, MemOk, SectorsOk, FilesOk, RefsOk;
    NodesSame(fs.disk, disk', FREE_MAP);
  }

  /** When dir_remove succeeds. */
  ghost predicate CanRemove(fs: Fs, name: Name, mem: Option<int>) {
    name in DirNames(fs.disk) && (mem.Some? || DirNames(fs.disk)[name] in MemSectors(fs.inodes))
  }

  lemma LookupNames(fs: Fs, d: int, name: Name, extra: multiset<int>)
    requires Ok(fs, extra, {}) && d in fs.inodes && fs.inodes[d].sector == ROOT
    ensures BytesOf(fs, fs.inodes[d]) == DirBytes(fs.disk)
    ensures var c := DirBytes(fs.disk);
      && (Lookup(c, name, 0).Some? <==> name in DirNames(fs.disk))
      && (Lookup(c, name, 0).Some? ==> SectorIn(Slot(c, Lookup(c, name, 0).value)) == DirNames(fs.disk)[name])
  {
    RemoveRefines(DirBytes(fs.disk), name);
    hide RefsOk, FilesOk, MemOk, SectorsOk, DirOk, Linked, MemSectors, Lookup, Entries, DirBytes, Slot, Splice;
    WriteEntry(fs, d, 0, seq(ENTRY, i => 0), extra, {});
  }

  lemma DirRemoveOk(fs: Fs, d: int, name: Name, mem: Option<int>, bounces: Bounces, extra: multiset<int>)
    requires Ok(fs, extra, {}) && d in fs.inodes && fs.inodes[d].sector == ROOT && fs.inodes[d].denyCnt == 0
    requires (mem.Some? ==> mem.value !in fs.inodes) && MapThere(fs)
    ensures DirRemove(fs, d, name, mem, bounces).Some?
    ensures var (fs', ok) := DirRemove(fs, d, name, mem, bounces).value;
      && Ok(fs', extra, {}) && MapStays(fs, fs') && (ok <==> CanRemove(fs, name, mem)) && (!ok ==> fs' == fs)
      && (ok ==> Removed(fs, fs', name) && OthersUntouched(fs, fs'.disk))
  {
    LookupNames(fs, d, name, extra);
    if name in DirNames(fs.disk) {
      Named(fs, name);
      hide Ok, Removed, OthersUntouched, DirBytes, DirNames, Linked, Lookup, MemSectors, InodeOpen, InodeClose,
        InodeWrite, InodeRemove, Slot, Erased,
        MapThere, MapOk;
      OpenOk(fs, DirNames(fs.disk)[name], mem, extra, {});
      var (fs1, r) := InodeOpen(fs, DirNames(fs.disk)[name], mem);
      if r.Some? { RemoveAt(fs, d, name, mem, bounces, r.value, extra); }
    }
  }

  /** The state before dir_remove closes the inode of the file that it has removed. */
  ghost predicate Marked(fs: Fs, fs3: Fs, name: Name, p: int) {
    && name in DirNames(fs.disk) && DirNames(fs3.disk) == DirNames(fs.disk) - {name}
    && fs3.files == fs.files && fs3.bits == fs.bits && fs3.synced == fs.synced && OthersUntouched(fs, fs3.disk)
    && fs3.refs == fs.refs + multiset{p} && Grown(fs.inodes, fs3.inodes)
    && p in fs3.inodes && fs3.inodes[p].removed && fs3.inodes[p].sector == DirNames(fs.disk)[name]
    && (fs3.inodes[p].openCnt == 1 <==> DirNames(fs.disk)[name] !in MemSectors(fs.inodes))
  }

  lemma MarkAt(fs: Fs, d: int, name: Name, mem: Option<int>, bounces: Bounces, p: int, extra: multiset<int>)
    returns (fs3: Fs)
    requires Ok(fs, extra, {}) && d in fs.inodes && fs.inodes[d].sector == ROOT && fs.inodes[d].denyCnt == 0
    requires (mem.Some? ==> mem.value !in fs.inodes) && MapThere(fs)
    requires name in DirNames(fs.disk) && InodeOpen(fs, DirNames(fs.disk)[name], mem).1 == Some(p)
    ensures DirRemove(fs, d, name, mem, bounces) == Closed(InodeClose(fs3, p, bounces), true)
    ensures Ok(fs3, extra + multiset{p}, {}) && Marked(fs, fs3, name, p) && MapStays(fs, fs3)
  {
    hide *;
    LookupNames(fs, d, name, extra);
    Named(fs, name);
    OpenOk(fs, DirNames(fs.disk)[name], mem, extra, {});
    var fs1 := InodeOpen(fs, DirNames(fs.disk)[name], mem).0;
    OpenKeepsMap(fs, fs1);
    UnlinkAt(fs1, d, name, p, extra + multiset{p});
    var c := DirBytes(fs1.disk);
    var i := Lookup(c, name, 0).value;
    var fs2 := InodeWrite(fs1, d, Erased(Slot(c, i)), i * ENTRY).0;
    fs3 := InodeRemove(fs2, p);
    MarkKeepsMap(fs, fs1, fs2, p);
    RemoveUnfolds(fs, d, name, mem, bounces, p, i, fs2);
    SameOwners(fs, fs1, DirNames(fs.disk)[name], mem, extra);
    SameOthers(fs, fs1, fs2.disk);
    MarkedFacts(fs, fs1, fs2, name, p);
  }

  /** Opening and marking inodes leaves the map as it was. */
  lemma OpenKeepsMap(fs: Fs, fs1: Fs)
    requires MapThere(fs) && fs1 == fs.(inodes := fs1.inodes, open := fs1.open, refs := fs1.refs)
    requires forall q | q in fs.inodes ::
      q in fs1.inodes && fs1.inodes[q] == fs.inodes[q].(openCnt := fs1.inodes[q].openCnt)
    ensures MapStays(fs, fs1) && MapThere(fs1)
  {
    SameUntouched(fs.disk, FREE_MAP);
    hide Untouched;
    MapKept(fs, fs1);
  }

  lemma MarkKeepsMap(fs: Fs, fs1: Fs, fs2: Fs, p: int)
    requires MapStays(fs, fs1) && MapStays(fs1, fs2) && p in fs2.inodes
    ensures MapStays(fs, InodeRemove(fs2, p))
  {
    SameUntouched(fs2.disk, FREE_MAP);
    hide Untouched;
    MapKept(fs2, InodeRemove(fs2, p));
  }

  lemma MarkedFacts(fs: Fs, fs1: Fs, fs2: Fs, name: Name, p: int)
    requires name in DirNames(fs.disk) && p in fs1.inodes && fs1.inodes[p].sector == DirNames(fs.disk)[name]
    requires fs1 == fs.(inodes := fs1.inodes, open := fs1.open, refs := fs1.refs) && fs1.refs == fs.refs + multiset{p}
    requires forall q | q in fs.inodes ::
      q in fs1.inodes && fs1.inodes[q] == fs.inodes[q].(openCnt := fs1.inodes[q].openCnt)
    requires fs2 == fs1.(disk := fs2.disk) && DirNames(fs2.disk) == DirNames(fs.disk) - {name}
    requires OthersUntouched(fs, fs2.disk)
    requires fs1.inodes[p].openCnt == 1 <==> DirNames(fs.disk)[name] !in MemSectors(fs.inodes)
    ensures p in fs2.inodes && Marked(fs, InodeRemove(fs2, p), name, p)
  {
    hide DirNames, OthersUntouched, MemSectors;
  }

  lemma RemoveUnfolds(fs: Fs, d: int, name: Name, mem: Option<int>, bounces: Bounces, p: int, i: int, fs2: Fs)
    requires d in fs.inodes && Lookup(BytesOf(fs, fs.inodes[d]), name, 0) == Some(i)
    requires var (fs1, r) := InodeOpen(fs, SectorIn(Slot(BytesOf(fs, fs.inodes[d]), i)), mem);
      && r == Some(p) && d in fs1.inodes && p in fs1.inodes
      && InodeWrite(fs1, d, Erased(Slot(BytesOf(fs, fs.inodes[d]), i)), i * ENTRY) == (fs2, ENTRY)
    requires p in fs2.inodes
    ensures DirRemove(fs, d, name, mem, bounces) == Closed(InodeClose(InodeRemove(fs2, p), p, bounces), true)
  {
    hide BytesOf, Lookup, InodeOpen, InodeWrite, SectorIn, Erased, Slot, InodeClose, InodeRemove, Closed;
  }

  lemma SameOthers(fs: Fs, fs1: Fs, disk': Disk)
    requires Owners(fs1.disk, fs1.inodes, {}) == Owners(fs.disk, fs.inodes, {}) && fs1.disk == fs.disk
    requires OthersUntouched(fs1, disk')
    ensures OthersUntouched(fs, disk')
  {
  }

  /** Opening a linked inode does not change which inodes there are. */
  lemma SameOwners(fs: Fs, fs1: Fs, sector: int, mem: Option<int>, extra: multiset<int>)
    requires fs1 == InodeOpen(fs, sector, mem).0 && Ok(fs, extra, {}) && sector in Linked(fs.disk)
    requires (mem.Some? ==> mem.value !in fs.inodes)
    ensures Owners(fs1.disk, fs1.inodes, {}) == Owners(fs.disk, fs.inodes, {})
  {
    hide Ok, Linked;
    Found(fs.inodes, fs.open, fs.disk, Linked(fs.disk), sector) by { MemPart(fs, extra); }
    var r := FindOpen(fs.open, fs.inodes, sector);
    if r.Some? { SameSectors(fs.inodes, r.value, fs1.inodes[r.value]); }
    else if mem.Some? { MoreSectors(fs.inodes, mem.value, fs1.inodes[mem.value]); }
  }

  lemma MemPart(fs: Fs, extra: multiset<int>)
    requires Ok(fs, extra, {})
    ensures MemOk(fs.inodes, fs.open, fs.disk, Linked(fs.disk))
  {
  }

  lemma RemoveAt(fs: Fs, d: int, name: Name, mem: Option<int>, bounces: Bounces, p: int, extra: multiset<int>)
    requires Ok(fs, extra, {}) && d in fs.inodes && fs.inodes[d].sector == ROOT && fs.inodes[d].denyCnt == 0
    requires (mem.Some? ==> mem.value !in fs.inodes) && MapThere(fs)
    requires name in DirNames(fs.disk) && InodeOpen(fs, DirNames(fs.disk)[name], mem).1 == Some(p)
    ensures DirRemove(fs, d, name, mem, bounces).Some?
    ensures var (fs', ok) := DirRemove(fs, d, name, mem, bounces).value;
      ok && Ok(fs', extra, {}) && MapStays(fs, fs') && Removed(fs, fs', name) && OthersUntouched(fs, fs'.disk)
  {
    hide *;
    var fs3 := MarkAt(fs, d, name, mem, bounces, p, extra);
    MarkedSame(fs, fs3, name, p, extra);
    assert p in (extra + multiset{p}) && extra + multiset{p} - multiset{p} == extra;
    StaysThere(fs, fs3);
    CloseOk(fs3, p, bounces, extra + multiset{p}, {});
    var fs' := InodeClose(fs3, p, bounces).value;
    StaysTwice(fs, fs3, fs');
    ClosedSome(fs3, p, bounces);
    GrownBack(fs, fs3, fs', name, p, extra);
    ClosedNames(fs3, fs', p, extra + multiset{p});
    MarkedOthers(fs, fs3, fs', name, p, extra);
    MarkedRemoved(fs, fs3, fs', name, p, extra);
  }

  lemma StaysThere(fs: Fs, fs': Fs)
    requires MapStays(fs, fs')
    ensures MapThere(fs')
  {
  }

  /** Writing the map leaves the inodes of the system. */
  lemma SystemStays(fs: Fs, disk': Disk, extra: multiset<int>, pending: set<int>)
    requires Ok(fs, extra, pending) && OnlyMap(fs.disk, disk')
    ensures SystemSame(fs.disk, disk')
  {
    LinkedSystem(fs.disk);
    hide Linked, MemSectors, OnlyMap, SectorsOk, DirOk, MemOk, RefsOk, FilesOk;
    var own := Owners(fs.disk, fs.inodes, pending);
    OnlyMapNode(fs.bits, fs.disk, fs.owner, own, disk', ROOT);
    OnlyMapNode(fs.bits, fs.disk, fs.owner, own, disk', FREE_MAP);
  }

  lemma StaysTwice(fs: Fs, fs2: Fs, fs3: Fs)
    requires MapStays(fs, fs2) && MapThere(fs3) && (MapOk(fs2) ==> MapOk(fs3))
    ensures MapStays(fs, fs3)
  {
  }

  lemma ClosedNames(fs: Fs, fs': Fs, p: int, extra: multiset<int>)
    requires Ok(fs, extra, {}) && p in fs.inodes && ClosedAs(fs, fs', p)
    ensures DirNames(fs'.disk) == DirNames(fs.disk)
  {
    LinkedSystem(fs.disk);
    RootThere(fs.disk);
    hide SectorsOk, DirOk, MemOk, RefsOk, FilesOk, Linked, MemSectors, OnlyMap, DirBytes, DirNames, Owns;
    OnlyMapDir(fs.bits, fs.disk, fs.owner, Owners(fs.disk, fs.inodes, {}), fs'.disk);
  }

  lemma MarkedOthers(fs: Fs, fs3: Fs, fs': Fs, name: Name, p: int, extra: multiset<int>)
    requires Ok(fs, extra, {}) && Ok(fs3, extra + multiset{p}, {}) && Marked(fs, fs3, name, p) && p in fs3.inodes
    requires ClosedAs(fs3, fs', p)
    ensures OthersUntouched(fs, fs'.disk)
  {
    MarkedMeans(fs, fs3, name, p);
    hide *;
    SystemStays(fs3, fs'.disk, extra + multiset{p}, {}) by { ClosedDisk(fs3, fs', p); }
    SystemTwice(fs.disk, fs3.disk, fs'.disk);
    forall t | t in Owners(fs.disk, fs.inodes, {}) && t != ROOT && t != FREE_MAP
      ensures Untouched(fs.disk, fs'.disk, t)
    {
      TouchedNot(fs, fs3.disk, t);
      ThenMap(fs, fs3.disk, fs'.disk, t, extra) by { ClosedDisk(fs3, fs', p); }
    }
    OthersIs(fs, fs'.disk);
  }

  lemma MarkedMeans(fs: Fs, fs3: Fs, name: Name, p: int)
    requires Marked(fs, fs3, name, p)
    ensures OthersUntouched(fs, fs3.disk) && SystemSame(fs.disk, fs3.disk)
    ensures FREE_MAP in fs.disk && FREE_MAP in fs3.disk && fs3.disk[FREE_MAP] == fs.disk[FREE_MAP]
  {
    hide DirNames, MemSectors, Untouched, Owners;
  }

  lemma ClosedDisk(fs: Fs, fs': Fs, p: int)
    requires p in fs.inodes && ClosedAs(fs, fs', p)
    ensures OnlyMap(fs.disk, fs'.disk)
  {
  }

  /** What is untouched stays so when the map is written afterwards. */
  lemma ThenMap(fs: Fs, disk2: Disk, disk3: Disk, t: int, extra: multiset<int>)
    requires Ok(fs, extra, {}) && t in Owners(fs.disk, fs.inodes, {}) && t != FREE_MAP && Untouched(fs.disk, disk2, t)
    requires FREE_MAP in fs.disk && FREE_MAP in disk2 && disk2[FREE_MAP] == fs.disk[FREE_MAP] && OnlyMap(disk2, disk3)
    ensures Untouched(fs.disk, disk3, t)
  {
    LinkedSystem(fs.disk);
    var own := Owners(fs.disk, fs.inodes, {});
    assert OwnerAt(fs.disk, fs.owner, |fs.bits|, t);
    assert OwnerAt(fs.disk, fs.owner, |fs.bits|, FREE_MAP);
    hide DirOk, MemOk, RefsOk, FilesOk, Linked, MemSectors;
    forall x | Owns(fs.disk, t, x) ensures (x in fs.disk <==> x in disk3) && (x in fs.disk ==> disk3[x] == fs.disk[x]) {
      assert x in fs.owner && fs.owner[x] == t;
      assert !Owns(fs.disk, FREE_MAP, x);
    }
  }

  lemma GrownBack(fs: Fs, fs3: Fs, fs': Fs, name: Name, p: int, extra: multiset<int>)
    requires Ok(fs, extra, {}) && Marked(fs, fs3, name, p) && p in fs3.inodes && ClosedAs(fs3, fs', p)
    requires Ok(fs', extra, {})
    requires Ok(fs3, extra + multiset{p}, {})
    ensures fs'.refs == fs.refs && Grown(fs.inodes, fs'.inodes)
  {
    hide DirNames, SectorsOk, FilesOk, MemOk, DirOk, Linked, MemSectors, Owns, OthersUntouched;
    assert fs'.refs == fs.refs;
    assert fs3.inodes[p].openCnt > 0;
    forall q | q in fs.inodes ensures q in fs'.inodes && SameInode(fs.inodes[q], fs'.inodes[q]) {
      assert fs.refs[q] > 0;
    }
  }

  lemma ClosedSome(fs: Fs, p: int, bounces: Bounces)
    requires InodeClose(fs, p, bounces).Some?
    ensures Closed(InodeClose(fs, p, bounces), true) == Some((InodeClose(fs, p, bounces).value, true))
  {
  }

  lemma MarkedSame(fs: Fs, fs3: Fs, name: Name, p: int, extra: multiset<int>)
    requires Ok(fs, extra, {}) && Marked(fs, fs3, name, p)
    ensures name in DirNames(fs.disk) && forall x :: Owns(fs3.disk, DirNames(fs.disk)[name], x) <==>
      Owns(fs.disk, DirNames(fs.disk)[name], x)
  {
    NameIsOwner(fs, name, extra);
    hide Ok, DirNames, Linked, MemSectors, Untouched, Owns, OthersUntouched;
    TouchedNot(fs, fs3.disk, DirNames(fs.disk)[name]);
    UntouchedSame(fs.disk, fs3.disk, DirNames(fs.disk)[name]);
  }

  lemma MarkedRemoved(fs: Fs, fs3: Fs, fs': Fs, name: Name, p: int, extra: multiset<int>)
    requires Marked(fs, fs3, name, p) && p in fs3.inodes && ClosedAs(fs3, fs', p) && Ok(fs3, extra + multiset{p}, {})
    requires fs'.refs == fs.refs && Grown(fs.inodes, fs'.inodes)
    requires forall x :: Owns(fs3.disk, DirNames(fs.disk)[name], x) <==> Owns(fs.disk, DirNames(fs.disk)[name], x)
    requires DirNames(fs'.disk) == DirNames(fs3.disk)
    ensures Removed(fs, fs', name)
  {
    hide DirNames, SectorsOk, FilesOk, MemOk, DirOk, Linked, MemSectors, Owns, OthersUntouched;
    assert fs3.inodes[p].openCnt > 0;
  }

  lemma TouchedNot(fs: Fs, disk': Disk, s: int)
    requires OthersUntouched(fs, disk') && s in Owners(fs.disk, fs.inodes, {}) && s != ROOT && s != FREE_MAP
    ensures Untouched(fs.disk, disk', s)
  {
  }

  lemma NameIsOwner(fs: Fs, name: Name, extra: multiset<int>)
    requires Ok(fs, extra, {}) && name in DirNames(fs.disk)
    ensures var s := DirNames(fs.disk)[name];
      s != ROOT && s != FREE_MAP && s in Owners(fs.disk, fs.inodes, {}) && s in fs.disk && fs.disk[s].Node?
  {
    assert OwnerAt(fs.disk, fs.owner, |fs.bits|, DirNames(fs.disk)[name]);
  }
}
