/** Which sectors are lost, and when. */
module FileConserved {
  import opened Options
  import opened Bitmap
  import opened Bytes
  import opened Disk
  import opened Directory
  import opened MapFile
  import opened FileSys
  import opened FileSysInvariant
  import opened OpenInodes
  import opened Linking
  import opened NamedFiles
  import opened CreatingFiles
  import opened FileRuns
  import opened FileGuarantees
  import opened FileMount
  import opened FileSafety
  import opened FileLasting

  /** Every sector that is marked used is some inode's. */
  ghost predicate Conserved(fs: Fs) {
    forall x | 0 <= x < |fs.bits| && fs.bits[x] :: exists s :: Owner(fs, s) && Owns(fs.disk, s, x)
  }

  /** The call loses sectors: a creation whose inode can be made, with data, and whose entry cannot be added; or a
      restart while a file is open that has been removed. */
  ghost predicate Loses(fs: Fs, op: Op) {
    || (op.DoCreate? && 0 < op.length && RootOpens(fs, op.root) && CanMake(fs, op.length, op.bounces)
        && AddSlot(DirBytes(fs.disk), op.name).None?)
    || (op.DoRestart? && exists p :: p in fs.inodes && fs.inodes[p].removed)
  }

  ghost function Own(fs: Fs): set<int> {
    Owners(fs.disk, fs.inodes, {})
  }

  ghost predicate OwnedBy(fs: Fs, s: int, x: int) {
    s in Own(fs) && Owns(fs.disk, s, x)
  }

  /** Sector x is marked used and no inode's. */
  ghost predicate Lost(fs: Fs, x: int) {
    0 <= x < |fs.bits| && fs.bits[x] && forall s :: !OwnedBy(fs, s, x)
  }

  lemma ConservedIs(fs: Fs)
    ensures Conserved(fs) <==> forall x :: !Lost(fs, x)
  {
    hide Owns;
    forall s, x ensures Owner(fs, s) && Owns(fs.disk, s, x) <==> OwnedBy(fs, s, x) { OwnerIs(fs, s); }
    hide Owner, OwnedBy;
    if Conserved(fs) {
      forall x ensures !Lost(fs, x) {
        if 0 <= x < |fs.bits| && fs.bits[x] {
          var s :| Owner(fs, s) && Owns(fs.disk, s, x);
          assert OwnedBy(fs, s, x);
        }
      }
    } else {
      var x :| 0 <= x < |fs.bits| && fs.bits[x] && !exists s :: Owner(fs, s) && Owns(fs.disk, s, x);
      assert Lost(fs, x);
    }
  }

  // ---- what a step does to the owners ----

  /** The inodes that owned sectors are on the disk as they were. */
  ghost predicate NodesStay(fs: Fs, disk': Disk) {
    forall s | s in Own(fs) :: s in fs.disk && fs.disk[s].Node? && s in disk' && disk'[s] == fs.disk[s]
  }

  lemma StaysOwned(fs: Fs, disk': Disk, s: int, x: int)
    requires NodesStay(fs, disk') && s in Own(fs)
    ensures Owns(disk', s, x) <==> Owns(fs.disk, s, x)
  {
    hide Own;
  }

  lemma OthersNodes(fs: Fs, disk': Disk)
    requires Inv(fs) && OthersUntouched(fs, disk')
    ensures NodesStay(fs, disk')
  {
    forall s | s in Own(fs) ensures s in fs.disk && fs.disk[s].Node? && s in disk' && disk'[s] == fs.disk[s] {
      OwnerNode(fs, multiset{}, s);
      if s != ROOT && s != FREE_MAP { TouchedNot(fs, disk', s); NodesSame(fs.disk, disk', s); }
      else { SystemPart(fs, disk'); }
      hide Inv, OthersUntouched, Own, Untouched;
    }
  }

  lemma SystemPart(fs: Fs, disk': Disk)
    requires OthersUntouched(fs, disk')
    ensures SystemSame(fs.disk, disk')
  {
  }

  lemma OnlyMapNodes(fs: Fs, disk': Disk)
    requires Inv(fs) && OnlyMap(fs.disk, disk')
    ensures NodesStay(fs, disk')
  {
    hide *;
    SystemOwned(fs);
    SectorsOf(fs, multiset{}, {}) by { OkPart(fs); }
    OwnIs(fs);
    forall s | s in Own(fs) ensures s in fs.disk && fs.disk[s].Node? && s in disk' && disk'[s] == fs.disk[s] {
      OnlyMapNode(fs.bits, fs.disk, fs.owner, Owners(fs.disk, fs.inodes, {}), disk', s);
    }
    NodesStayIs(fs, disk');
  }

  lemma OwnIs(fs: Fs)
    ensures Own(fs) == Owners(fs.disk, fs.inodes, {})
  {
  }

  lemma NodesStayIs(fs: Fs, disk': Disk)
    requires forall s | s in Own(fs) :: s in fs.disk && fs.disk[s].Node? && s in disk' && disk'[s] == fs.disk[s]
    ensures NodesStay(fs, disk')
  {
    hide Own;
  }

  /** A step that keeps all owners and bits loses nothing. */
  lemma NothingMoves(fs: Fs, fs': Fs)
    requires NodesStay(fs, fs'.disk) && Own(fs') == Own(fs) && fs'.bits == fs.bits
    ensures forall x :: Lost(fs', x) <==> Lost(fs, x)
  {
    forall s, x ensures OwnedBy(fs', s, x) <==> OwnedBy(fs, s, x) {
      if s in Own(fs) { StaysOwned(fs, fs'.disk, s, x); }
    }
    hide OwnedBy;
  }

  // ---- creating ----

  lemma CreatedOwn(fs: Fs, fs': Fs, name: Name, length: Offset, a: int)
    requires Settled(fs, fs') && Created(fs, fs', name, length, a)
    ensures Own(fs') == Own(fs) + {a}
  {
    SameMem(fs, fs');
    var names := DirNames(fs.disk);
    assert names[name := a].Values == names.Values + {a} by {
      forall s | s in names.Values ensures s in names[name := a].Values {
        var n :| n in names && names[n] == s;
        assert names[name := a][n] == s;
      }
      assert names[name := a][name] == a;
    }
    hide DirNames, MemSectors, OthersUntouched, Owns, ByteOf, Settled;
  }

  lemma CreatedLosesNone(fs: Fs, fs': Fs, name: Name, length: Offset, a: int)
    requires Inv(fs) && Settled(fs, fs') && Created(fs, fs', name, length, a)
    ensures forall x :: Lost(fs', x) <==> Lost(fs, x)
  {
    CreatedOwn(fs, fs', name, length, a);
    OthersNodes(fs, fs'.disk);
    hide Inv, Settled, OthersUntouched, Own, DirNames, ByteOf, NodesStay;
    forall x ensures Lost(fs', x) <==> Lost(fs, x) {
      forall s ensures OwnedBy(fs', s, x) <==> OwnedBy(fs, s, x) || (s == a && Owns(fs'.disk, a, x)) {
        if s in Own(fs) { StaysOwned(fs, fs'.disk, s, x); }
      }
      CreatedBit(fs, fs', name, length, a, x);
      hide OwnedBy, Owns, Created;
      if Lost(fs', x) { assert !OwnedBy(fs', a, x); }
    }
  }

  lemma CreatedBit(fs: Fs, fs': Fs, name: Name, length: Offset, a: int, x: int)
    requires Created(fs, fs', name, length, a)
    ensures |fs'.bits| == |fs.bits|
    ensures 0 <= x < |fs.bits| ==>
      fs'.bits[x] == (fs.bits[x] || Owns(fs'.disk, a, x)) && (fs.bits[x] ==> !Owns(fs'.disk, a, x))
  {
    hide DirNames, OthersUntouched, ByteOf, Owns;
  }

  lemma SameNamesOwn(fs: Fs, fs': Fs)
    requires Settled(fs, fs') && DirNames(fs'.disk) == DirNames(fs.disk)
    ensures Own(fs') == Own(fs)
  {
    SameMem(fs, fs');
    hide DirNames, MemSectors, Settled;
  }

  /** The failure to add the entry loses the data sectors, if there are any. */
  lemma LeakLoses(fs: Fs, fs': Fs, length: Offset)
    requires Inv(fs) && Settled(fs, fs') && Leak(fs, fs', length)
    ensures forall x :: Lost(fs, x) ==> Lost(fs', x)
    ensures length == 0 ==> forall x :: Lost(fs', x) ==> Lost(fs, x)
    ensures length > 0 ==> exists x :: Lost(fs', x)
  {
    OthersNodes(fs, fs'.disk);
    SameNamesOwn(fs, fs');
    var start :| LeakAt(fs, fs', start, Sectors(length));
    OwnedAreUsed(fs);
    hide Inv, Settled, OthersUntouched, Own, DirNames, NodesStay, Leak, Owns, Sectors;
    forall s, x ensures OwnedBy(fs', s, x) <==> OwnedBy(fs, s, x) {
      if s in Own(fs) { StaysOwned(fs, fs'.disk, s, x); }
    }
    hide OwnedBy;
    LeakSectors(length);
    if length > 0 {
      assert InRange(start, Sectors(length), start);
      assert Lost(fs', start);
    }
  }

  lemma LeakSectors(length: Offset)
    ensures Sectors(length) > 0 <==> length > 0
  {
  }

  lemma OwnedAreUsed(fs: Fs)
    requires Inv(fs)
    ensures forall s, x | OwnedBy(fs, s, x) :: 0 <= x < |fs.bits| && fs.bits[x]
  {
    hide *;
    SectorsOf(fs, multiset{}, {}) by { OkPart(fs); }
    OwnIs(fs);
    forall s, x | OwnedBy(fs, s, x) ensures 0 <= x < |fs.bits| && fs.bits[x] {
      OwnedMeans(fs, s, x);
      OwnedUsed(fs.bits, fs.disk, fs.owner, Owners(fs.disk, fs.inodes, {}), s, x);
    }
  }

  lemma OwnedMeans(fs: Fs, s: int, x: int)
    requires OwnedBy(fs, s, x)
    ensures s in Own(fs) && Owns(fs.disk, s, x)
  {
  }

  lemma CreateStep(fs: Fs, name: Name, length: Offset, bounces: Bounces, root: Option<int>)
    requires Inv(fs) && Unused(fs, root) && 0 !in name
    ensures Create(fs, name, length, bounces, root).Some?
    ensures var fs' := Create(fs, name, length, bounces, root).value.0;
      var loses := 0 < length && RootOpens(fs, root) && CanMake(fs, length, bounces) && AddSlot(DirBytes(fs.disk),
                                                                                                name).None?;
      && (forall x :: Lost(fs, x) ==> Lost(fs', x)) && (!loses ==> forall x :: Lost(fs', x) ==> Lost(fs, x))
      && (loses ==> exists x :: Lost(fs', x))
  {
    hide *;
    CreateOk(fs, name, length, bounces, root);
    var (fs', ok) := Create(fs, name, length, bounces, root).value;
    var can := RootOpens(fs, root) && CanMake(fs, length, bounces);
    if ok {
      CreatedLosesNone(fs, fs', name, length, NewSector(fs.bits));
    } else if can {
      LeakLoses(fs, fs', length);
    } else {
      OnlyMapNodes(fs, fs'.disk);
      OnlyMapNames(fs, fs'.disk);
      SameNamesOwn(fs, fs');
      NothingMoves(fs, fs');
    }
  }

  lemma OnlyMapNames(fs: Fs, disk': Disk)
    requires Inv(fs) && OnlyMap(fs.disk, disk')
    ensures DirNames(disk') == DirNames(fs.disk) && Linked(disk') == Linked(fs.disk)
  {
    hide *;
    SystemOwned(fs);
    SectorsOf(fs, multiset{}, {}) by { OkPart(fs); }
    OnlyMapDir(fs.bits, fs.disk, fs.owner, Owners(fs.disk, fs.inodes, {}), disk');
  }

  // ---- removing and closing ----

  /** One inode goes, and its sectors with it. */
  ghost predicate Goes(fs: Fs, fs': Fs, s: int) {
    && s in Own(fs) && Own(fs') == Own(fs) - {s} && |fs'.bits| == |fs.bits|
    && forall x | 0 <= x < |fs.bits| :: fs'.bits[x] == (fs.bits[x] && !Owns(fs.disk, s, x))
  }

  lemma GoneLosesNone(fs: Fs, fs': Fs, s: int)
    requires NodesStay(fs, fs'.disk) && Goes(fs, fs', s)
    ensures forall x :: Lost(fs', x) <==> Lost(fs, x)
  {
    hide Owns, Own, NodesStay;
    forall t, x ensures OwnedBy(fs', t, x) <==> OwnedBy(fs, t, x) && t != s {
      if t in Own(fs) { StaysOwned(fs, fs'.disk, t, x); }
    }
    forall x ensures OwnedBy(fs, s, x) <==> Owns(fs.disk, s, x) {}
    hide OwnedBy;
    forall x ensures Lost(fs', x) <==> Lost(fs, x) {
      if Lost(fs', x) {
        forall t ensures !OwnedBy(fs, t, x) { assert !OwnedBy(fs', t, x); }
      }
    }
  }

  lemma RemovedStep(fs: Fs, fs': Fs, name: Name)
    requires Inv(fs) && Settled(fs, fs') && Removed(fs, fs', name) && OthersUntouched(fs, fs'.disk)
    ensures forall x :: Lost(fs', x) <==> Lost(fs, x)
  {
    OthersNodes(fs, fs'.disk);
    RemovedOwn(fs, fs', name);
    hide Inv, Settled, OthersUntouched, Own, DirNames, NodesStay, MemSectors, Goes, Grown;
    var s := DirNames(fs.disk)[name];
    if s in MemSectors(fs.inodes) {
      RemovedBits(fs, fs', name);
      NothingMoves(fs, fs');
    } else {
      GoneLosesNone(fs, fs', s);
    }
  }

  lemma RemovedBits(fs: Fs, fs': Fs, name: Name)
    requires Removed(fs, fs', name) && DirNames(fs.disk)[name] in MemSectors(fs.inodes)
    ensures fs'.bits == fs.bits
  {
    hide DirNames, MemSectors, Grown, Owns;
    forall x | 0 <= x < |fs.bits| ensures fs'.bits[x] == fs.bits[x] {}
  }

  lemma RemovedOwn(fs: Fs, fs': Fs, name: Name)
    requires Inv(fs) && Settled(fs, fs') && Removed(fs, fs', name)
    ensures name in DirNames(fs.disk)
    ensures var s := DirNames(fs.disk)[name];
      if s in MemSectors(fs.inodes) then Own(fs') == Own(fs) else Goes(fs, fs', s)
  {
    hide *;
    RemovedName(fs, fs', name);
    NameIsOwner(fs, name, multiset{}) by { OkPart(fs); }
    DistinctNames(fs, name);
    SameMem(fs, fs');
    var s := DirNames(fs.disk)[name];
    LessLinked(fs, fs', name);
    OwnIs(fs);
    RemovedSets(fs, fs', s);
    if s !in MemSectors(fs.inodes) { GoesIs(fs, fs', name); }
  }

  lemma RemovedName(fs: Fs, fs': Fs, name: Name)
    requires Removed(fs, fs', name)
    ensures name in DirNames(fs.disk) && DirNames(fs'.disk) == DirNames(fs.disk) - {name}
  {
    hide DirNames, MemSectors, Grown, Owns;
  }

  lemma LessLinked(fs: Fs, fs': Fs, name: Name)
    requires name in DirNames(fs.disk) && DirNames(fs'.disk) == DirNames(fs.disk) - {name}
    requires var names := DirNames(fs.disk); (names - {name}).Values == names.Values - {names[name]}
    requires DirNames(fs.disk)[name] != ROOT && DirNames(fs.disk)[name] != FREE_MAP
    ensures Linked(fs'.disk) == Linked(fs.disk) - {DirNames(fs.disk)[name]}
    ensures DirNames(fs.disk)[name] in Linked(fs.disk)
  {
    hide DirNames;
  }

  lemma RemovedSets(fs: Fs, fs': Fs, s: int)
    requires s in Linked(fs.disk) && Linked(fs'.disk) == Linked(fs.disk) - {s}
    requires MemSectors(fs'.inodes) == MemSectors(fs.inodes)
    ensures s in Own(fs) && Own(fs') == if s in MemSectors(fs.inodes) then Own(fs) else Own(fs) - {s}
  {
    hide Linked, MemSectors;
  }

  lemma GoesIs(fs: Fs, fs': Fs, name: Name)
    requires Removed(fs, fs', name) && DirNames(fs.disk)[name] !in MemSectors(fs.inodes)
    requires DirNames(fs.disk)[name] in Own(fs) && Own(fs') == Own(fs) - {DirNames(fs.disk)[name]}
    ensures Goes(fs, fs', DirNames(fs.disk)[name])
  {
    hide DirNames, MemSectors, Grown, Owns, Own;
  }

  lemma DistinctNames(fs: Fs, name: Name)
    requires Inv(fs) && name in DirNames(fs.disk)
    ensures var names := DirNames(fs.disk); (names - {name}).Values == names.Values - {names[name]}
  {
    var names := DirNames(fs.disk);
    var s := names[name];
    forall t | t in names.Values && t != s ensures t in (names - {name}).Values {
      var n :| n in names && names[n] == t;
      assert (names - {name})[n] == t;
    }
  }

  lemma ClosedStep(fs: Fs, fs': Fs, f: int)
    requires Inv(fs) && f in fs.files && fs.files[f].inode in fs.inodes && FileClosed(fs, fs', f)
    ensures forall x :: Lost(fs', x) <==> Lost(fs, x)
  {
    hide *;
    OnlyMapNodes(fs, fs'.disk) by { ClosedParts(fs, fs', f); }
    ClosedOwn(fs, fs', f);
    var m := fs.inodes[fs.files[f].inode];
    if m.openCnt == 1 && m.removed {
      GoneLosesNone(fs, fs', m.sector);
    } else {
      ClosedBits(fs, fs', f);
      NothingMoves(fs, fs');
    }
  }

  lemma ClosedParts(fs: Fs, fs': Fs, f: int)
    requires f in fs.files && fs.files[f].inode in fs.inodes && FileClosed(fs, fs', f)
    ensures OnlyMap(fs.disk, fs'.disk)
  {
  }

  lemma ClosedBits(fs: Fs, fs': Fs, f: int)
    requires f in fs.files && fs.files[f].inode in fs.inodes && FileClosed(fs, fs', f)
    requires !(fs.inodes[fs.files[f].inode].openCnt == 1 && fs.inodes[fs.files[f].inode].removed)
    ensures fs'.bits == fs.bits
  {
    hide OnlyMap, Owns;
    forall x | 0 <= x < |fs.bits| ensures fs'.bits[x] == fs.bits[x] {}
  }

  lemma ClosedOwn(fs: Fs, fs': Fs, f: int)
    requires Inv(fs) && f in fs.files && fs.files[f].inode in fs.inodes && FileClosed(fs, fs', f)
    ensures var m := fs.inodes[fs.files[f].inode];
      if m.openCnt == 1 && m.removed then Goes(fs, fs', m.sector) else Own(fs') == Own(fs)
  {
    hide *;
    var p := fs.files[f].inode;
    var m := fs.inodes[p];
    RemovedOrLinked(fs, p);
    InMem(fs.inodes, p);
    ClosedMem(fs, fs', f);
    OnlyMapNames(fs, fs'.disk) by { ClosedParts(fs, fs', f); }
    ClosedSets(fs, fs', m.sector, m.openCnt == 1);
    if m.openCnt == 1 && m.removed { ClosedGoes(fs, fs', f); }
  }

  lemma RemovedOrLinked(fs: Fs, p: int)
    requires Inv(fs) && p in fs.inodes
    ensures fs.inodes[p].removed <==> fs.inodes[p].sector !in Linked(fs.disk)
  {
    InMemoryAt(fs, p);
    hide Inv, Linked;
  }

  lemma ClosedSets(fs: Fs, fs': Fs, s: int, last: bool)
    requires Linked(fs'.disk) == Linked(fs.disk) && s in MemSectors(fs.inodes)
    requires MemSectors(fs'.inodes) == if last then MemSectors(fs.inodes) - {s} else MemSectors(fs.inodes)
    ensures s in Own(fs) && Own(fs') == if last && s !in Linked(fs.disk) then Own(fs) - {s} else Own(fs)
  {
    hide Linked, MemSectors;
  }

  lemma ClosedGoes(fs: Fs, fs': Fs, f: int)
    requires f in fs.files && fs.files[f].inode in fs.inodes && FileClosed(fs, fs', f)
    requires var m := fs.inodes[fs.files[f].inode];
      m.openCnt == 1 && m.removed && m.sector in Own(fs) && Own(fs') == Own(fs) - {m.sector}
    ensures Goes(fs, fs', fs.inodes[fs.files[f].inode].sector)
  {
    hide Owns, Own, OnlyMap;
  }

  lemma ClosedMem(fs: Fs, fs': Fs, f: int)
    requires Inv(fs) && f in fs.files && fs.files[f].inode in fs.inodes && FileClosed(fs, fs', f)
    ensures var m := fs.inodes[fs.files[f].inode];
      MemSectors(fs'.inodes) == if m.openCnt == 1 then MemSectors(fs.inodes) - {m.sector} else MemSectors(fs.inodes)
  {
    hide *;
    MemApart(fs);
    ClosedInodes(fs, fs', f);
    MemLess(fs.inodes, fs'.inodes, fs.files[f].inode, fs.inodes[fs.files[f].inode].openCnt == 1);
  }

  lemma MemLess(inodes: Inodes, inodes': Inodes, p: int, last: bool)
    requires p in inodes && forall q, r | q in inodes && r in inodes && inodes[q].sector == inodes[r].sector :: q == r
    requires forall q :: q in inodes' <==> q in inodes && !(last && q == p)
    requires forall q | q in inodes' :: inodes'[q].sector == inodes[q].sector
    ensures MemSectors(inodes') == if last then MemSectors(inodes) - {inodes[p].sector} else MemSectors(inodes)
  {
    forall s ensures s in MemSectors(inodes') <==> s in MemSectors(inodes) && !(last && s == inodes[p].sector) {
      if s in MemSectors(inodes) && !(last && s == inodes[p].sector) {
        var q :| q in inodes && inodes[q].sector == s;
        assert q in inodes' && inodes'[q].sector == s;
      }
      if s in MemSectors(inodes') {
        var q :| q in inodes' && inodes'[q].sector == s;
        assert q in inodes && inodes[q].sector == s;
      }
    }
  }

  lemma ClosedInodes(fs: Fs, fs': Fs, f: int)
    requires f in fs.files && fs.files[f].inode in fs.inodes && FileClosed(fs, fs', f)
    ensures var p := fs.files[f].inode; var last := fs.inodes[p].openCnt == 1;
      && (forall q :: q in fs'.inodes <==> q in fs.inodes && !(last && q == p))
      && (forall q | q in fs'.inodes :: fs'.inodes[q].sector == fs.inodes[q].sector)
  {
    hide OnlyMap, Owns;
  }

  lemma MemApart(fs: Fs)
    requires Inv(fs)
    ensures forall p, q | p in fs.inodes && q in fs.inodes && fs.inodes[p].sector == fs.inodes[q].sector :: p == q
  {
    hide SectorsOk, DirOk, DirNames, FilesApart, FilesOk, RefsOk, Linked, MapOk;
  }

  // ---- the other calls ----

  lemma OpenedStep(fs: Fs, fs': Fs, name: Name, f: int)
    requires Inv(fs) && Inv(fs') && Grown(fs.inodes, fs'.inodes) && fs'.bits == fs.bits && fs'.disk == fs.disk
    requires Opened(fs, fs', name, f) || fs'.refs == fs.refs
    ensures forall x :: Lost(fs', x) <==> Lost(fs, x)
  {
    MapSame(fs.disk);
    OnlyMapNodes(fs, fs'.disk);
    OpenedMem(fs, fs', name, f);
    hide Inv, MemSectors, DirNames, Grown, Opened;
    assert Own(fs') == Own(fs);
    NothingMoves(fs, fs');
  }

  lemma OpenedMem(fs: Fs, fs': Fs, name: Name, f: int)
    requires Inv(fs) && Inv(fs') && Grown(fs.inodes, fs'.inodes) && fs'.disk == fs.disk
    requires Opened(fs, fs', name, f) || fs'.refs == fs.refs
    ensures Linked(fs.disk) + MemSectors(fs'.inodes) == Linked(fs.disk) + MemSectors(fs.inodes)
  {
    CountsPart(fs);
    CountsPart(fs');
    OpenedRefs(fs, fs', name, f);
    hide Inv, FilesOk, DirNames, Opened, Linked, MemSectors;
    forall p | p in fs'.inodes && p !in fs.inodes ensures fs'.inodes[p].sector in Linked(fs.disk) {
      assert fs.refs[p] == 0 && fs'.refs[p] > 0;
    }
    MemUnion(fs.inodes, fs'.inodes, Linked(fs.disk));
  }

  lemma MemUnion(inodes: Inodes, inodes': Inodes, linked: set<int>)
    requires Grown(inodes, inodes') && forall p | p in inodes' && p !in inodes :: inodes'[p].sector in linked
    ensures linked + MemSectors(inodes') == linked + MemSectors(inodes)
  {
    forall s ensures s in linked + MemSectors(inodes') <==> s in linked + MemSectors(inodes) {
      if s in MemSectors(inodes) { var p :| p in inodes && inodes[p].sector == s; assert inodes'[p].sector == s; }
      if s in MemSectors(inodes') {
        var p :| p in inodes' && inodes'[p].sector == s;
        if p in inodes { InMem(inodes, p); }
      }
    }
  }

  lemma OpenedRefs(fs: Fs, fs': Fs, name: Name, f: int)
    requires Opened(fs, fs', name, f) || fs'.refs == fs.refs
    ensures forall p | fs'.refs[p] > 0 && fs.refs[p] == 0 :: p in fs'.inodes && fs'.inodes[p].sector in Linked(fs.disk)
  {
    if Opened(fs, fs', name, f) { Named(fs, name); }
    hide DirNames, Linked;
  }

  lemma QuietStep(fs: Fs, op: Op)
    requires Inv(fs) && Allowed(fs, op) && Sound(fs)
    requires (op.DoReopen? || op.DoDeny? || op.DoAllow? || op.DoRead? || op.DoSeek?)
    ensures Do(fs, op).Some? && forall x :: Lost(Do(fs, op).value, x) <==> Lost(fs, x)
  {
    DoOk(fs, op);
    MapSame(fs.disk);
    OnlyMapNodes(fs, fs.disk);
    QuietMem(fs, op);
    hide Inv, Do, Allowed, MemSectors, NodesStay;
    NothingMoves(fs, Do(fs, op).value);
  }

  lemma QuietMem(fs: Fs, op: Op)
    requires Allowed(fs, op) && Sound(fs) && Do(fs, op).Some?
    requires (op.DoReopen? || op.DoDeny? || op.DoAllow? || op.DoRead? || op.DoSeek?)
    ensures var fs' := Do(fs, op).value; Own(fs') == Own(fs) && fs'.bits == fs.bits && fs'.disk == fs.disk
  {
    var p := fs.files[op.f].inode;
    var m := fs.inodes[p];
    SameSectors(fs.inodes, p, m.(openCnt := m.openCnt + 1));
    SameSectors(fs.inodes, p, m.(denyCnt := m.denyCnt + 1));
    SameSectors(fs.inodes, p, m.(denyCnt := m.denyCnt - 1));
    hide MemSectors, Linked, ReadAt, Own, Unused, FreeMapOpen, InodeClose, Create, FileSys.Remove, Open, Restart, Write;
    SameOwn(fs, Do(fs, op).value);
  }

  lemma SameOwn(fs: Fs, fs': Fs)
    requires fs'.disk == fs.disk && MemSectors(fs'.inodes) == MemSectors(fs.inodes)
    ensures Own(fs') == Own(fs)
  {
  }

  lemma WriteStep(fs: Fs, f: int, bs: seq<Byte>)
    requires Inv(fs) && IsUserFile(fs, f) && Sound(fs)
    ensures forall x :: Lost(Write(fs, f, bs).0, x) <==> Lost(fs, x)
  {
    hide *;
    IsFile(fs, f);
    SoundAt(fs, f);
    WriteFileOk(fs, f, bs);
    var fs' := Write(fs, f, bs).0;
    WrittenNodes(fs, f, bs);
    WrittenFs(fs, f, bs);
    FileOwned(fs, f);
    FileInode(fs, f);
    SystemOwned(fs);
    SameDirOk(fs.disk, fs'.disk) by { UntouchedSame(fs.disk, fs'.disk, ROOT); }
    OwnSame(fs, fs');
    NothingMoves(fs, fs');
  }

  lemma SoundAt(fs: Fs, f: int)
    requires Sound(fs) && f in fs.files
    ensures fs.files[f].inode in fs.inodes && 0 <= fs.files[f].pos
  {
  }

  lemma WrittenFs(fs: Fs, f: int, bs: seq<Byte>)
    requires f in fs.files && fs.files[f].inode in fs.inodes && 0 <= fs.files[f].pos
    ensures var fs' := Write(fs, f, bs).0;
      fs'.bits == fs.bits && fs'.inodes == fs.inodes && f in fs'.files && fs'.files[f].inode == fs.files[f].inode
  {
    hide WriteAt;
  }

  lemma OwnSame(fs: Fs, fs': Fs)
    requires Linked(fs'.disk) == Linked(fs.disk) && fs'.inodes == fs.inodes
    ensures Own(fs') == Own(fs)
  {
  }

  lemma WrittenNodes(fs: Fs, f: int, bs: seq<Byte>)
    requires Inv(fs) && IsUserFile(fs, f) && Sound(fs)
    ensures NodesStay(fs, Write(fs, f, bs).0.disk)
  {
    var fs' := Write(fs, f, bs).0;
    WriteFileOk(fs, f, bs);
    WrittenFs(fs, f, bs);
    FileOwned(fs, f);
    FileOwned(fs', f);
    forall s | s in Own(fs) ensures s in fs.disk && fs.disk[s].Node? && s in fs'.disk && fs'.disk[s] == fs.disk[s] {
      hide Inv, Write, BytesOf, Splice, Untouched, Owners;
      OwnIs(fs);
      OwnerNode(fs, multiset{}, s) by { OkPart(fs); }
      if s != fs.inodes[fs.files[f].inode].sector { NodesSame(fs.disk, fs'.disk, s); }
    }
  }

  /** A restart loses the sectors of the inodes that were removed and still open. */
  lemma RestartStep(fs: Fs, mem: int)
    requires Inv(fs) && fs.synced
    ensures Restart(fs, mem).Some?
    ensures var fs' := Restart(fs, mem).value;
      && (forall x :: Lost(fs, x) ==> Lost(fs', x))
      && ((forall p | p in fs.inodes :: !fs.inodes[p].removed) ==> forall x :: Lost(fs', x) ==> Lost(fs, x))
      && ((exists p :: p in fs.inodes && fs.inodes[p].removed) ==> exists x :: Lost(fs', x))
  {
    hide *;
    RestartOk(fs, mem);
    var fs' := Restart(fs, mem).value;
    RestartOwn(fs, mem);
    forall s, x ensures OwnedBy(fs', s, x) <==> s in Linked(fs.disk) && OwnedBy(fs, s, x) { OwnedSame(fs, fs', s, x); }
    LostFewer(fs, fs');
    if forall p | p in fs.inodes :: !fs.inodes[p].removed {
      forall s, x | OwnedBy(fs, s, x) ensures OwnedBy(fs', s, x) { LiveIsLinked(fs, s, x); }
      LostFewer(fs', fs);
    }
    if p :| p in fs.inodes && fs.inodes[p].removed {
      RemovedIsLost(fs, fs', p);
    }
  }

  lemma RestartOwn(fs: Fs, mem: int)
    requires Inv(fs) && Restart(fs, mem).Some? && Mounted(Restart(fs, mem).value, fs.bits, fs.disk, Orphaned(fs), mem)
    ensures Own(Restart(fs, mem).value) == Linked(fs.disk) && Linked(fs.disk) <= Own(fs)
  {
    hide *;
    LinkedSystem(fs.disk);
    MountedOwn(Restart(fs, mem).value, fs.bits, fs.disk, Orphaned(fs), mem);
    OwnIs(fs);
    LinkedOwn(fs);
  }

  lemma MountedOwn(fs: Fs, bits: seq<bool>, disk: Disk, owner: map<int, int>, mem: int)
    requires Mounted(fs, bits, disk, owner, mem) && FREE_MAP in Linked(disk)
    ensures Own(fs) == Linked(disk)
  {
    assert fs.inodes[mem].sector == FREE_MAP && forall p | p in fs.inodes :: p == mem;
    assert MemSectors(fs.inodes) == {FREE_MAP};
    hide Linked;
  }

  lemma LinkedOwn(fs: Fs)
    ensures Linked(fs.disk) <= Own(fs)
  {
    hide Linked, MemSectors;
  }

  lemma OwnedSame(fs: Fs, fs': Fs, s: int, x: int)
    requires Own(fs') == Linked(fs.disk) <= Own(fs) && fs'.disk == fs.disk
    ensures OwnedBy(fs', s, x) <==> s in Linked(fs.disk) && OwnedBy(fs, s, x)
  {
    hide Own, Linked, Owns;
  }

  lemma LostFewer(fs: Fs, fs': Fs)
    requires fs'.bits == fs.bits && forall s, x | OwnedBy(fs', s, x) :: OwnedBy(fs, s, x)
    ensures forall x :: Lost(fs, x) ==> Lost(fs', x)
  {
    hide OwnedBy;
  }

  lemma LiveIsLinked(fs: Fs, s: int, x: int)
    requires Inv(fs) && OwnedBy(fs, s, x) && forall p | p in fs.inodes :: !fs.inodes[p].removed
    ensures s in Linked(fs.disk)
  {
    if s in MemSectors(fs.inodes) {
      var p :| p in fs.inodes && fs.inodes[p].sector == s;
      InMemoryAt(fs, p);
    }
  }

  lemma RemovedIsLost(fs: Fs, fs': Fs, p: int)
    requires Inv(fs) && p in fs.inodes && fs.inodes[p].removed && fs'.bits == fs.bits
    requires forall s, x | OwnedBy(fs', s, x) :: s in Linked(fs.disk) && OwnedBy(fs, s, x)
    ensures Lost(fs', fs.inodes[p].sector)
  {
    var x := fs.inodes[p].sector;
    InMemoryAt(fs, p);
    InMem(fs.inodes, p);
    OwnedAreUsed(fs);
    hide Inv, MemSectors, Linked;
    assert OwnedBy(fs, x, x);
    forall s ensures !OwnedBy(fs', s, x) {
      if OwnedBy(fs', s, x) { OwnedOnce(fs, s, x, x); }
    }
    hide OwnedBy;
  }

  lemma OwnedOnce(fs: Fs, s: int, t: int, x: int)
    requires Inv(fs) && OwnedBy(fs, s, x) && OwnedBy(fs, t, x)
    ensures s == t
  {
    hide *;
    SectorsOf(fs, multiset{}, {}) by { OkPart(fs); }
    OwnIs(fs);
    OwnedMeans(fs, s, x);
    OwnedMeans(fs, t, x);
    OwnedUsed(fs.bits, fs.disk, fs.owner, Owners(fs.disk, fs.inodes, {}), s, x);
    OwnedUsed(fs.bits, fs.disk, fs.owner, Owners(fs.disk, fs.inodes, {}), t, x);
  }

  // ---- every call, and every run ----

  lemma Step(fs: Fs, op: Op)
    requires Inv(fs) && Allowed(fs, op) && Sound(fs)
    ensures Do(fs, op).Some?
    ensures var fs' := Do(fs, op).value;
      && (forall x :: Lost(fs, x) ==> Lost(fs', x)) && (!Loses(fs, op) ==> forall x :: Lost(fs', x) ==> Lost(fs, x))
      && (Loses(fs, op) ==> exists x :: Lost(fs', x))
  {
    hide Inv, Create, FileSys.Remove, Open, Close, Reopen, DenyWrite, AllowWrite, Write, Restart, Lost, Removed, Opened,
      OthersUntouched, FileClosed,
      Grown, CanMake, AddSlot, RootOpens, DirBytes, Settled, CanRemove, Mounted;
    match op
    case DoCreate(name, length, bounces, root) => CreateStep(fs, name, length, bounces, root);
    case DoRemove(name, bounces, root, mem) =>
      RemoveOk(fs, name, bounces, root, mem);
      var fs' := Do(fs, op).value;
      if Removed(fs, fs', name) && OthersUntouched(fs, fs'.disk) {
        RemovedStep(fs, fs', name);
      } else {
        SettledStep(fs, fs');
      }
    case DoOpen(name, root, mem, f) =>
      OpenFileOk(fs, name, root, mem, f);
      OpenedStep(fs, Do(fs, op).value, name, f);
    case DoClose(f, bounces) =>
      CloseFileOk(fs, f, bounces);
      ClosedStep(fs, Do(fs, op).value, f);
    case DoWrite(f, bs) => WriteStep(fs, f, bs);
    case DoRestart(mem) => RestartStep(fs, mem);
    case _ => QuietStep(fs, op);
  }

  lemma SettledStep(fs: Fs, fs': Fs)
    requires Inv(fs) && Settled(fs, fs') && fs'.bits == fs.bits && fs'.disk == fs.disk
    ensures forall x :: Lost(fs', x) <==> Lost(fs, x)
  {
    hide *;
    MapSame(fs.disk);
    OnlyMapNodes(fs, fs'.disk);
    SameNamesOwn(fs, fs');
    NothingMoves(fs, fs');
  }

  /** A call loses sectors exactly if it is a creation, with data, for which all but the entry can be made, or a
      restart while a removed file is open; and what is lost stays lost. */
  lemma ConservedExactly(fs: Fs, op: Op)
    requires Reachable(fs) && Allowed(fs, op)
    ensures Sound(fs) && Do(fs, op).Some?
    ensures Conserved(Do(fs, op).value) <==> Conserved(fs) && !Loses(fs, op)
  {
    hide *;
    ReachableOk(fs);
    FilesThere(fs);
    Step(fs, op);
    ConservedIs(fs);
    ConservedIs(Do(fs, op).value);
  }

  /** No call of the run loses sectors. */
  ghost predicate LosesNone(fs: Fs, ops: seq<Op>)
    requires Permitted(fs, ops)
    decreases |ops|
  {
    ops == [] || (!Loses(fs, ops[0]) && (Do(fs, ops[0]).Some? ==> LosesNone(Do(fs, ops[0]).value, ops[1..])))
  }

  /** So it is over whole runs. */
  lemma {:induction false} RunConserves(fs: Fs, ops: seq<Op>)
    requires Inv(fs) && Permitted(fs, ops)
    ensures Run(fs, ops).Some? && (Conserved(Run(fs, ops).value) <==> Conserved(fs) && LosesNone(fs, ops))
    decreases |ops|
  {
    if ops != [] {
      DoOk(fs, ops[0]);
      Step(fs, ops[0]);
      var fs1 := Do(fs, ops[0]).value;
      ConservedIs(fs);
      ConservedIs(fs1);
      hide Inv, Do, Allowed, Conserved, Lost, Loses;
      RunConserves(fs1, ops[1..]);
    }
  }

  /** A fresh file system has lost nothing. */
  lemma FormatConserves(sectors: int, disk: Disk, bounces: Bounces, mem: int)
    requires 2 <= sectors <= 0x1_0000_0000 && (forall x | 0 <= x < sectors :: x in disk)
    requires Format(sectors, disk, bounces, mem).Some?
    ensures Conserved(Format(sectors, disk, bounces, mem).value)
  {
    var fs := Format(sectors, disk, bounces, mem).value;
    FormatOk(sectors, disk, bounces, mem);
    hide Inv, Format, SectorsOk, DirOk, DirNames, Linked, HoldsMap, Mounted, Owns;
    forall x | 0 <= x < |fs.bits| && fs.bits[x] ensures exists s :: Owner(fs, s) && Owns(fs.disk, s, x) {
      assert Owner(fs, FREE_MAP) && Owner(fs, ROOT);
    }
  }

  // ---- a small disk ----

  /** Just the first k sectors are used. */
  predicate FirstUsed(bits: seq<bool>, k: int) {
    0 <= k <= |bits| && forall x | 0 <= x < |bits| :: bits[x] <==> x < k
  }

  lemma NextFree(bits: seq<bool>, k: int)
    requires FirstUsed(bits, k) && k < |bits|
    ensures Scan(bits, 0, 1) == Some(k) && FirstUsed(bits[k := true], k + 1) && Set(bits, k, 1, true) == bits[k := true]
  {
    FirstFree(bits);
    assert !bits[k];
    var v := Scan(bits, 0, 1).value;
    assert !bits[v] && forall x | 0 <= x < v :: bits[x];
  }

  lemma OneSector(fs: Fs, own: set<int>, a: int, length: Offset, bounce: bool, k: int)
    requires SectorsOk(fs.bits, fs.disk, fs.owner, own) && a in fs.owner && fs.owner[a] == NOBODY && a !in own
    requires MapReady(fs, own)
    requires CanWriteMap(fs, bounce) && Sectors(length) == 1 && FirstUsed(fs.bits, k) && k < |fs.bits|
    ensures var (fs', made) := InodeCreate(fs, a, length, bounce); made && FirstUsed(fs'.bits, k + 1)
  {
    NextFree(fs.bits, k);
    AllocateOk(fs, own, 1, bounce);
    hide SectorsOk, MapReady, CanWriteMap, Scan, FreeMapAllocate, Set, OnlyMap, MapOk, AllAre;
  }

  /** With memory for the bounce buffers, any disk of 4 to 4096 sectors can be formatted, and then just its first four
      sectors are used. */
  lemma SmallFormat(sectors: int, disk: Disk, mem: int)
    requires 4 <= sectors <= 4096 && forall x | 0 <= x < sectors :: x in disk
    ensures Format(sectors, disk, PLENTY, mem).Some? && FirstUsed(Format(sectors, disk, PLENTY, mem).value.bits, 4)
  {
    assert PLENTY.first && PLENTY.second && FREE_MAP == 0 && ROOT == 1 && 16 * ENTRY == 320;
    hide *;
    SmallCreate(sectors, disk, mem);
    var fs1 := FreeMapCreate(Blank(sectors, disk, LOOSE), true, mem).value;
    FreeMapCreateOk(sectors, disk, true, mem);
    LooseMeans(fs1);
    ReadyMeans(fs1);
    SmallSizes();
    Fits(fs1);
    assert ROOT !in {FREE_MAP};
    OneSector(fs1, {FREE_MAP}, ROOT, 16 * ENTRY, true, 3);
    DirCreateOk(fs1, sectors, true, mem);
    var fs2 := InodeCreate(fs1, ROOT, 16 * ENTRY, true).0;
    MapFileIn(fs2, mem);
    MapFileClosed(fs2, mem);
    MountAgain(fs2.bits, fs2.disk, fs2.owner, mem);
    FormatUnfolds(sectors, disk, mem);
    MountedBits(Format(sectors, disk, PLENTY, mem).value, fs2.bits, fs2.disk, fs2.owner, mem);
  }

  lemma MountedBits(fs: Fs, bits: seq<bool>, disk: Disk, owner: map<int, int>, mem: int)
    requires Mounted(fs, bits, disk, owner, mem)
    ensures fs.bits == bits
  {
  }

  lemma SmallSizes()
    ensures Sectors(16 * ENTRY) == 1
  {
  }

  lemma Fits(fs: Fs)
    ensures CanWriteMap(fs, true) && MapFits(|fs.bits|, true)
  {
  }

  lemma MapFileIn(fs: Fs, mem: int)
    requires OnlyMapFile(fs, mem)
    ensures FREE_MAP in fs.files && fs.files[FREE_MAP].inode in fs.inodes
  {
  }

  lemma FormatUnfolds(sectors: int, disk: Disk, mem: int)
    requires 2 <= sectors <= 0x1_0000_0000 && FreeMapCreate(Blank(sectors, disk, LOOSE), true, mem).Some?
    requires var fs1 := FreeMapCreate(Blank(sectors, disk, LOOSE), true, mem).value;
      var (fs2, made) := InodeCreate(fs1, ROOT, 16 * ENTRY, true);
      made && FREE_MAP in fs2.files && fs2.files[FREE_MAP].inode in fs2.inodes && Close(fs2, FREE_MAP, PLENTY).Some?
    ensures var fs2 := InodeCreate(FreeMapCreate(Blank(sectors, disk, LOOSE), true, mem).value, ROOT, 16 * ENTRY,
                                   true).0;
      Format(sectors, disk, PLENTY, mem) == FreeMapOpen(Close(fs2, FREE_MAP, PLENTY).value, mem)
  {
    hide FreeMapCreate, InodeCreate, Close, FreeMapOpen, Blank;
  }

  lemma SmallCreate(sectors: int, disk: Disk, mem: int)
    requires 4 <= sectors <= 4096 && forall x | 0 <= x < sectors :: x in disk
    ensures var r := FreeMapCreate(Blank(sectors, disk, LOOSE), true, mem);
      r.Some? && FirstUsed(r.value.bits, 3) && 3 < |r.value.bits|
  {
    var fs0 := Blank(sectors, disk, LOOSE);
    BlankOk(sectors, disk);
    assert FirstUsed(fs0.bits, 2);
    MapSector(sectors);
    hide *;
    Fits(fs0);
    OneSector(fs0, {}, FREE_MAP, MapBytes(sectors), true, 2);
    InodeCreateOk(fs0, {}, FREE_MAP, MapBytes(sectors), true);
    var fs1 := InodeCreate(fs0, FREE_MAP, MapBytes(sectors), true).0;
    assert {} + {FREE_MAP} == {FREE_MAP};
    MapFileOpened(fs1, mem);
    var fs2 := OpenMapFile(fs1, mem).value;
    MapWriteOk(fs2.bits, fs2.owner, fs2, {FREE_MAP}, fs2.bits, true);
    Fits(fs2);
    CreateUnfolds(fs0, mem);
  }

  lemma MapSector(sectors: int)
    requires 4 <= sectors <= 4096
    ensures Sectors(MapBytes(sectors)) == 1
  {
  }

  lemma CreateUnfolds(fs0: Fs, mem: int)
    requires |fs0.bits| <= 0x1_0000_0000 && InodeCreate(fs0, FREE_MAP, MapBytes(|fs0.bits|), true).1
    requires OpenMapFile(InodeCreate(fs0, FREE_MAP, MapBytes(|fs0.bits|), true).0, mem).Some?
    ensures var fs2 := OpenMapFile(InodeCreate(fs0, FREE_MAP, MapBytes(|fs0.bits|), true).0, mem).value;
      MapWrite(fs2, fs2.bits, true).1 ==> FreeMapCreate(fs0, true, mem) == Some(MapWrite(fs2, fs2.bits, true).0)
  {
    hide InodeCreate, OpenMapFile, MapWrite;
  }

  const LONG_NAME: Name := seq(NAME_MAX + 1, i => 0x61)

  /** The smallest disk that shows the loss: a name that is too long, for a file with one sector of data. */
  lemma NameTooLong(sectors: int, disk: Disk, mem: int, root: int)
    requires 6 <= sectors <= 4096 && (forall x | 0 <= x < sectors :: x in disk) && root != mem
    ensures Format(sectors, disk, PLENTY, mem).Some?
    ensures var fs := Format(sectors, disk, PLENTY, mem).value; var op := DoCreate(LONG_NAME, 512, PLENTY, Some(root));
      && Allowed(fs, op) && Conserved(fs) && Loses(fs, op) && Sound(fs) && Do(fs, op).Some?
      && !Conserved(Do(fs, op).value)
  {
    SmallFormat(sectors, disk, mem);
    FormatOk(sectors, disk, PLENTY, mem);
    FormatConserves(sectors, disk, PLENTY, mem);
    var fs := Format(sectors, disk, PLENTY, mem).value;
    var op := DoCreate(LONG_NAME, 512, PLENTY, Some(root));
    LongNameLoses(fs, sectors, mem, root);
    hide *;
    FilesThere(fs);
    Step(fs, op);
    ConservedIs(Do(fs, op).value);
  }

  lemma LongNameLoses(fs: Fs, sectors: int, mem: int, root: int)
    requires Inv(fs) && Formatted(fs, sectors, mem) && 6 <= sectors && FirstUsed(fs.bits, 4) && root != mem
    ensures var op := DoCreate(LONG_NAME, 512, PLENTY, Some(root)); Allowed(fs, op) && Loses(fs, op)
  {
    assert AddSlot(DirBytes(fs.disk), LONG_NAME).None?;
    assert Sectors(512) == 1 && Unused(fs, Some(root)) && 0 !in LONG_NAME;
    hide Inv, Formatted, AddSlot, DirBytes, Sectors, MapFits, Scan;
    NextFree(fs.bits, 4);
    NextFree(fs.bits[4 := true], 5);
    Fits(fs);
  }
}
