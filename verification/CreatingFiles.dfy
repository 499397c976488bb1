/** filesys_create, step by step. */
module CreatingFiles {
  import opened Options
  import opened Bitmap
  import opened Bytes
  import opened Disk
  import opened Directory
  import opened FileSys
  import opened FileSysInvariant
  import opened OpenInodes
  import opened Linking
  import opened NamedFiles

  // ---- a sector for the inode ----

  /** The inode's sector is allocated, and the inode not made yet. */
  function Reserved(fs: Fs, a: int): Fs
    requires 0 <= a < |fs.bits|
  {
    fs.(bits := fs.bits[a := true], owner := fs.owner[a := NOBODY])
  }

  lemma ReserveOk(fs: Fs, extra: multiset<int>, a: int)
    requires Ok(fs, extra, {}) && 0 <= a < |fs.bits| && !fs.bits[a]
    ensures Ok(Reserved(fs, a), extra, {}) && a !in Owners(fs.disk, fs.inodes, {}) && a !in fs.owner && 2 <= a
    ensures a != ROOT
  {
    hide DirOk, MemOk, RefsOk, FilesOk, MemSectors, Linked;
    var own := Owners(fs.disk, fs.inodes, {});
    var fs' := Reserved(fs, a);
    ReservedSectors(fs.bits, fs.disk, fs.owner, own, a);
    LinkedSystem(fs.disk);
    OwnerUsed(fs, own, FREE_MAP);
    OwnerUsed(fs, own, ROOT);
  }

  /** free_map_allocate of one sector takes the first that is free. */
  lemma FirstFree(bits: seq<bool>)
    ensures Scan(bits, 0, 1).None? <==> forall x | 0 <= x < |bits| :: bits[x]
    ensures Scan(bits, 0, 1).Some? ==> var a := Scan(bits, 0, 1).value;
      0 <= a < |bits| && !bits[a] && (forall x | 0 <= x < a :: bits[x]) && Set(bits, a, 1, true) == bits[a := true]
  {
    forall x | 0 <= x < |bits| ensures AllAre(bits, x, 1, false) == !bits[x] {}
    if Scan(bits, 0, 1).Some? {
      assert AllAre(bits, Scan(bits, 0, 1).value, 1, false);
    } else {
      forall x | 0 <= x < |bits| ensures bits[x] { assert !AllAre(bits, x, 1, false); }
    }
  }

  /** fs with what it holds of the free map's file as fs1 has it. */
  function WithMap(fs: Fs, fs1: Fs): Fs {
    fs.(disk := fs1.disk, synced := fs1.synced)
  }

  lemma ReserveSteps(fs: Fs, bounce: bool, extra: multiset<int>)
    requires Ok(fs, extra, {}) && MapThere(fs)
    ensures var (fs1, r) := FreeMapAllocate(fs, 1, bounce); var w := WithMap(fs, fs1);
      && Ok(w, extra, {}) && OnlyMap(fs.disk, w.disk) && DirBytes(w.disk) == DirBytes(fs.disk)
      && Linked(w.disk) == Linked(fs.disk)
      && MapStays(fs, fs1) && (r == if MapFits(|fs.bits|, bounce) then Scan(fs.bits, 0, 1) else None)
      && (r.None? ==> fs1 == w)
      && (r.Some? ==> var a := r.value;
           && 0 <= a < |fs.bits| && !fs.bits[a] && (forall x | 0 <= x < a :: fs.bits[x])
           && fs1.(owner := fs1.owner[a := NOBODY]) == Reserved(w, a))
  {
    LinkedSystem(fs.disk);
    FirstFree(fs.bits);
    hide Ok, Linked, MemSectors, FreeMapAllocate, MapThere, MapOk, MapFits, OnlyMap, DirBytes, Scan, AllAre;
    var own := Owners(fs.disk, fs.inodes, {});
    SectorsPart(fs, extra);
    assert FREE_MAP in own;
    HasMapFile(fs);
    AllocateOk(fs, own, 1, bounce);
    var fs1 := FreeMapAllocate(fs, 1, bounce).0;
    OnlyMapOk(fs, fs1.disk, fs1.synced, extra, {});
  }

  lemma HasMapFile(fs: Fs)
    requires MapThere(fs)
    ensures FREE_MAP in fs.files
  {
  }

  lemma OwnerUsed(fs: Fs, own: set<int>, s: int)
    requires SectorsOk(fs.bits, fs.disk, fs.owner, own) && s in own
    ensures 0 <= s < |fs.bits| && fs.bits[s]
  {
    assert OwnerAt(fs.disk, fs.owner, |fs.bits|, s);
    OwnedUsed(fs.bits, fs.disk, fs.owner, own, s, s);
  }

  lemma ReservedSectors(bits: seq<bool>, disk: Disk, owner: map<int, int>, own: set<int>, a: int)
    requires SectorsOk(bits, disk, owner, own) && 0 <= a < |bits| && !bits[a]
    ensures SectorsOk(bits[a := true], disk, owner[a := NOBODY], own) && a !in own && a !in owner
  {
    var bits', owner' := bits[a := true], owner[a := NOBODY];
    forall s | s in own ensures OwnerAt(disk, owner', |bits'|, s) && s != a {
      assert OwnerAt(disk, owner, |bits|, s);
      OwnedUsed(bits, disk, owner, own, s, s);
    }
  }

  lemma UnreservedSectors(bits: seq<bool>, disk: Disk, owner: map<int, int>, own: set<int>, a: int)
    requires 0 <= a < |bits| && !bits[a] && a !in owner && SectorsOk(bits[a := true], disk, owner[a := NOBODY], own)
    ensures SectorsOk(bits, disk, owner, own)
  {
    var bits', owner' := bits[a := true], owner[a := NOBODY];
    forall s | s in own ensures OwnerAt(disk, owner, |bits|, s) { assert OwnerAt(disk, owner', |bits'|, s); }
    forall x
      ensures x in owner <==> 0 <= x < |bits| && bits[x]
    {
      assert x in owner' <==> 0 <= x < |bits'| && bits'[x];
    }
    forall x | x in owner ensures owner[x] == NOBODY || owner[x] in own { assert x in owner' && owner'[x] == owner[x]; }
  }

  /** Giving the sector back restores the state, but for the free map's file. */
  lemma GiveBackRestores(w: Fs, a: int, bounce: bool, extra: multiset<int>)
    requires Ok(w, extra, {}) && MapThere(w) && 0 < a < |w.bits| && !w.bits[a] && a !in w.owner
    ensures var r := GiveBack(Reserved(w, a), a, bounce);
      && r.Some? && !r.value.1 && r.value.0 == WithMap(w, r.value.0) && OnlyMap(w.disk, r.value.0.disk)
      && Ok(r.value.0, extra, {}) && MapOk(r.value.0)
  {
    var r := Reserved(w, a);
    assert Disown(r.owner, a, 1) == w.owner;
    GiveBackIs(w, a, bounce);
    hide *;
    SectorsPart(w, extra);
    MakeReady(w, extra);
    ReservedMap(w, a);
    var own := Owners(w.disk, w.inodes, {});
    SizeAtLeast(w, own);
    ReleaseOk(w.bits, w.owner, r, own, a, 1, bounce);
    var fs1 := FreeMapRelease(r, a, 1, bounce).value;
    OnlyMapOk(w, fs1.disk, fs1.synced, extra, {});
    MapOkOwner(fs1.(owner := w.owner), fs1);
  }

  lemma GiveBackIs(w: Fs, a: int, bounce: bool)
    requires 0 < a < |w.bits| && !w.bits[a] && a !in w.owner
    ensures var r := Reserved(w, a);
      && r.bits == w.bits[a := true] && |r.bits| == |w.bits| && r == w.(bits := r.bits, owner := r.owner)
      && AllUsed(r.bits, a, 1) && Set(r.bits, a, 1, false) == w.bits
      && (FreeMapRelease(r, a, 1, bounce).Some? ==>
           var fs1 := FreeMapRelease(r, a, 1, bounce).value;
           && GiveBack(r, a, bounce) == Some((fs1.(owner := w.owner), false))
           && (fs1 == r.(bits := w.bits, disk := fs1.disk, synced := fs1.synced) ==>
                fs1.(owner := w.owner) == WithMap(w, fs1) && WithMap(w, fs1.(owner := w.owner)) == WithMap(w, fs1)))
  {
    var r := Reserved(w, a);
    assert Disown(r.owner, a, 1) == w.owner;
    assert Set(r.bits, a, 1, false) == w.bits;
    hide FreeMapRelease;
  }

  lemma ReservedMap(w: Fs, a: int)
    requires MapThere(w) && 0 <= a < |w.bits|
    ensures MapThere(Reserved(w, a))
  {
  }

  // ---- the inode ----

  /** Only the inode of the free map may have been touched, and that only in its data. */
  ghost predicate Kept(fs: Fs, disk': Disk) {
    && (forall t | t in Owners(fs.disk, fs.inodes, {}) && t != FREE_MAP :: Untouched(fs.disk, disk', t))
    && FREE_MAP in fs.disk && FREE_MAP in disk' && disk'[FREE_MAP] == fs.disk[FREE_MAP]
  }

  /** inode_create leaves the directory and the inodes in memory as they were. */
  lemma PendingOk(fs: Fs, extra: multiset<int>, fs2: Fs, a: int)
    requires Ok(fs, extra, {}) && a !in Owners(fs.disk, fs.inodes, {})
    requires fs2 == fs.(bits := fs2.bits, disk := fs2.disk, owner := fs2.owner, synced := fs2.synced)
    requires SectorsOk(fs2.bits, fs2.disk, fs2.owner, Owners(fs.disk, fs.inodes, {}) + {a}) && Kept(fs, fs2.disk)
    ensures Ok(fs2, extra, {a}) && DirBytes(fs2.disk) == DirBytes(fs.disk)
  {
    hide SectorsOk, RefsOk, FilesOk, Linked, MemSectors, Kept, MemOk, DirOk, DirBytes, MemSame;
    SameDirectory(fs, extra, fs2.disk);
    SameMemory(fs, extra, fs2.disk);
    assert Owners(fs2.disk, fs2.inodes, {a}) == Owners(fs.disk, fs.inodes, {}) + {a};
  }

  lemma SameDirectory(fs: Fs, extra: multiset<int>, disk': Disk)
    requires Ok(fs, extra, {}) && Kept(fs, disk')
    ensures DirBytes(disk') == DirBytes(fs.disk) && DirOk(disk') && Linked(disk') == Linked(fs.disk)
  {
    LinkedSystem(fs.disk);
    RootThere(fs.disk);
    hide SectorsOk, RefsOk, FilesOk, Linked, MemSectors, Untouched, MemOk, DirOk;
    UntouchedSame(fs.disk, disk', ROOT);
    SameDirOk(fs.disk, disk');
  }

  lemma SameMemory(fs: Fs, extra: multiset<int>, disk': Disk)
    requires Ok(fs, extra, {}) && Kept(fs, disk')
    ensures MemOk(fs.inodes, fs.open, disk', Linked(fs.disk))
  {
    hide SectorsOk, RefsOk, FilesOk, DirOk, Linked, MemSectors, Untouched, DirBytes;
    forall p | p in fs.inodes ensures MemAt(disk', Linked(fs.disk), fs.inodes[p]) {
      assert MemAt(fs.disk, Linked(fs.disk), fs.inodes[p]);
      InMem(fs.inodes, p);
      OwnerNode(fs, extra, fs.inodes[p].sector);
      if fs.inodes[p].sector != FREE_MAP { NodesSame(fs.disk, disk', fs.inodes[p].sector); }
    }
  }

  lemma RootNode(fs: Fs, extra: multiset<int>)
    requires Ok(fs, extra, {})
    ensures ROOT in fs.disk && fs.disk[ROOT].Node?
  {
  }

  // ---- the failure of dir_add ----

  /** The data sectors stay used, and belong to no inode. */
  lemma LeakOk(fs2: Fs, bounce: bool, extra: multiset<int>, a: int)
    requires Ok(fs2, extra, {a}) && 0 < a && MapThere(fs2)
    ensures GiveBack(Leaked(fs2, a), a, bounce).Some?
    ensures var (fs', ok) := GiveBack(Leaked(fs2, a), a, bounce).value;
      && !ok && fs' == fs2.(bits := fs'.bits, disk := fs'.disk, owner := fs'.owner, synced := fs'.synced)
      && Ok(fs', extra, {})
      && OnlyMap(fs2.disk, fs'.disk) && MapOk(fs') && 0 <= a < |fs2.bits| && fs'.bits == fs2.bits[a := false]
      && (forall x | x in fs'.owner :: fs'.owner[x] == if Owns(fs2.disk, a, x) then NOBODY else fs2.owner[x])
  {
    LinkedSystem(fs2.disk);
    hide DirOk, MemOk, RefsOk, FilesOk, MemSectors, Linked, SectorsOk, Owns, MapThere, MapOk, OnlyMap, FreeMapRelease;
    var own, l := Owners(fs2.disk, fs2.inodes, {a}), Leaked(fs2, a);
    OwnerUsed(fs2, own, a);
    SizeAtLeast(fs2, own);
    assert AllUsed(l.bits, a, 1) && Set(l.bits, a, 1, false) == fs2.bits[a := false];
    var owner' := Disown(l.owner, a, 1);
    LeakedSectors(fs2.bits, fs2.disk, fs2.owner, own, a, owner');
    assert own - {a} == Owners(fs2.disk, fs2.inodes, {}) && FREE_MAP in own - {a};
    assert MapThere(l) by { LeakedMap(fs2, a); }
    ReleaseOk(fs2.bits[a := false], owner', l, own - {a}, a, 1, bounce);
    var fs1 := FreeMapRelease(l, a, 1, bounce).value;
    MapOkOwner(fs1.(owner := owner'), fs1);
    LeftOk(fs2, fs1.(owner := owner'), extra, a);
  }

  lemma LeakedMap(fs2: Fs, a: int)
    requires MapThere(fs2)
    ensures MapThere(Leaked(fs2, a))
  {
  }

  lemma LeftOk(fs2: Fs, fs': Fs, extra: multiset<int>, a: int)
    requires Ok(fs2, extra, {a})
    requires fs' == fs2.(bits := fs'.bits, disk := fs'.disk, owner := fs'.owner, synced := fs'.synced)
    requires SectorsOk(fs'.bits, fs'.disk, fs'.owner, Owners(fs2.disk, fs2.inodes, {})) && OnlyMap(fs2.disk, fs'.disk)
    ensures Ok(fs', extra, {})
  {
    LinkedSystem(fs2.disk);
    RootThere(fs2.disk);
    hide DirOk, MemOk, RefsOk, FilesOk, MemSectors, Linked, SectorsOk, OnlyMap, DirBytes, DirNames;
    var own := Owners(fs2.disk, fs2.inodes, {a});
    OnlyMapDir(fs2.bits, fs2.disk, fs2.owner, own, fs'.disk);
    OnlyMapMem(fs2.bits, fs2.disk, fs2.owner, own, fs'.disk, fs2.inodes, fs2.open, Linked(fs2.disk));
  }

  lemma LeakedSectors(bits: seq<bool>, disk: Disk, owner: map<int, int>, own: set<int>, a: int, owner': map<int, int>)
    requires SectorsOk(bits, disk, owner, own) && a in own && 0 <= a < |bits|
    requires owner' == Disown(map x | x in owner :: if owner[x] == a then NOBODY else owner[x], a, 1)
    ensures SectorsOk(bits[a := false], disk, owner', own - {a})
    ensures forall x | x in owner' :: owner'[x] == if Owns(disk, a, x) then NOBODY else owner[x]
  {
    assert OwnerAt(disk, owner, |bits|, a);
    forall s | s in own - {a} ensures OwnerAt(disk, owner', |bits|, s) {
      assert OwnerAt(disk, owner, |bits|, s);
    }
  }

  // ---- filesys_create in the open directory ----

  /** What a successful creation does: the name is linked to a new inode at `a`, the first free sector, of the
      length asked for and full of zeros; its sectors were all free; no other inode changes. */
  ghost predicate Created(fs: Fs, fs': Fs, name: Name, length: Offset, a: int) {
    && name !in DirNames(fs.disk) && DirNames(fs'.disk) == DirNames(fs.disk)[name := a]
    && 0 <= a < |fs.bits| && (forall x | 0 <= x < a :: fs.bits[x])
    && a in fs'.disk && fs'.disk[a].Node? && fs'.disk[a].length == length
    && (forall i | 0 <= i < length :: ByteOf(fs'.disk, fs'.disk[a].start, i) == 0)
    && OthersUntouched(fs, fs'.disk) && fs'.files == fs.files && |fs'.bits| == |fs.bits|
    && (forall x | 0 <= x < |fs.bits| :: fs'.bits[x] == (fs.bits[x] || Owns(fs'.disk, a, x)))
    && (forall x | 0 <= x < |fs.bits| && fs.bits[x] :: !Owns(fs'.disk, a, x))
  }

  /** What dir_add's failure leaves behind: a group of as many sectors as the file's data would need, which
      were free, stays used and belongs to no inode. */
  ghost predicate Leak(fs: Fs, fs': Fs, length: Offset) {
    && DirNames(fs'.disk) == DirNames(fs.disk) && OthersUntouched(fs, fs'.disk) && fs'.files == fs.files
    && |fs'.bits| == |fs.bits|
    && exists start :: LeakAt(fs, fs', start, Sectors(length))
  }

  ghost predicate LeakAt(fs: Fs, fs': Fs, start: int, n: int) {
    && |fs'.bits| == |fs.bits|
    && (forall x | InRange(start, n, x) ::
        0 <= x < |fs.bits| && !fs.bits[x] && fs'.bits[x] && x in fs'.owner && fs'.owner[x] == NOBODY)
    && (forall x | 0 <= x < |fs.bits| && !InRange(start, n, x) :: fs'.bits[x] == fs.bits[x])
  }

  /** The first free sector. */
  function NewSector(bits: seq<bool>): int {
    match Scan(bits, 0, 1)
    case Some(a) => a
    case None => -1
  }

  /** The inode can be made: a sector is free for it, and then a group of sectors for its data, and the map can be
      written both times. */
  predicate CanMake(fs: Fs, length: Offset, bounces: Bounces) {
    && MapFits(|fs.bits|, bounces.first) && MapFits(|fs.bits|, bounces.second) && Scan(fs.bits, 0, 1).Some?
    && Scan(Set(fs.bits, Scan(fs.bits, 0, 1).value, 1, true), 0, Sectors(length)).Some?
  }

  /** After inode_create. */
  ghost predicate Made(fs: Fs, fs2: Fs, length: Offset, a: int) {
    && 0 <= a < |fs.bits| && !fs.bits[a] && (forall x | 0 <= x < a :: fs.bits[x]) && |fs2.bits| == |fs.bits|
    && fs2 == fs.(bits := fs2.bits, disk := fs2.disk, owner := fs2.owner, synced := fs2.synced)
    && DirBytes(fs2.disk) == DirBytes(fs.disk) && Kept(fs, fs2.disk)
    && a in fs2.disk && fs2.disk[a].Node? && fs2.disk[a].length == length
    && (forall i | 0 <= i < length :: ByteOf(fs2.disk, fs2.disk[a].start, i) == 0)
    && (forall x | 0 <= x < |fs.bits| :: fs2.bits[x] == (fs.bits[x] || Owns(fs2.disk, a, x)))
    && (forall x | 0 <= x < |fs.bits| && fs.bits[x] :: !Owns(fs2.disk, a, x))
  }

  lemma MakeOk(w: Fs, a: int, length: Offset, bounce: bool, extra: multiset<int>)
    requires Ok(w, extra, {}) && MapThere(w) && 0 <= a < |w.bits| && !w.bits[a] && forall x | 0 <= x < a :: w.bits[x]
    ensures a !in w.owner && 2 <= a && a != ROOT
    ensures var (fs2, made) := InodeCreate(Reserved(w, a), a, length, bounce);
      && (made <==> MapFits(|w.bits|, bounce) && Scan(w.bits[a := true], 0, Sectors(length)).Some?)
      && MapStays(Reserved(w, a), fs2)
      && (!made ==> var w2 := WithMap(w, fs2);
           fs2 == Reserved(w2, a) && OnlyMap(w.disk, w2.disk) && Ok(w2, extra, {}) && MapThere(w2))
      && (made ==> Made(w, fs2, length, a) && Ok(fs2, extra, {a}))
  {
    hide *;
    ReserveOk(w, extra, a);
    var r := Reserved(w, a);
    ReservedSame(w, a);
    ReservedMap(w, a);
    MakeReady(r, extra);
    var own := Owners(r.disk, r.inodes, {});
    InodeCreateOk(r, own, a, length, bounce) by { SectorsPart(r, extra); }
    var (fs2, made) := InodeCreate(r, a, length, bounce);
    CanWriteIs(r, bounce);
    ReadyThere(r, fs2, own);
    if made {
      PutKeeps(r, fs2, own);
      PendingOk(r, extra, fs2, a);
      InodeIsOwned(r, fs2, extra, a);
      ZeroBytes(r, a, length, bounce);
      MadeFacts(w, r, fs2, a, length);
    } else {
      NotMade(w, a, fs2, extra);
    }
  }

  lemma MakeReady(r: Fs, extra: multiset<int>)
    requires Ok(r, extra, {}) && MapThere(r)
    ensures MapReady(r, Owners(r.disk, r.inodes, {})) && FREE_MAP in r.files && FREE_MAP in Owners(r.disk, r.inodes, {})
  {
    LinkedSystem(r.disk);
  }

  lemma CanWriteIs(r: Fs, bounce: bool)
    requires FREE_MAP in r.files
    ensures CanWriteMap(r, bounce) <==> MapFits(|r.bits|, bounce)
  {
  }

  lemma ReadyThere(r: Fs, fs2: Fs, own: set<int>)
    requires MapReady(fs2, own) && FREE_MAP in r.files && fs2.files == r.files && (MapOk(r) ==> MapOk(fs2))
    ensures MapStays(r, fs2) && MapThere(fs2)
  {
  }

  /** The inode of the free map stays as it is. */
  lemma PutKeeps(r: Fs, fs2: Fs, own: set<int>)
    requires MapThere(r) && MapThere(fs2) && fs2.files == r.files && fs2.inodes == r.inodes
    requires own == Owners(r.disk, r.inodes, {})
    requires forall s | s in own && s != FREE_MAP :: Untouched(r.disk, fs2.disk, s)
    ensures Kept(r, fs2.disk)
  {
    hide Owners, Untouched;
  }

  lemma NotMade(w: Fs, a: int, fs2: Fs, extra: multiset<int>)
    requires Ok(w, extra, {}) && MapThere(w) && 0 <= a < |w.bits| && !w.bits[a] && a !in w.owner
    requires var r := Reserved(w, a);
      && fs2 == r.(bits := fs2.bits, disk := fs2.disk, owner := fs2.owner, synced := fs2.synced) && fs2.bits == r.bits
      && fs2.owner == r.owner
      && OnlyMap(r.disk, fs2.disk) && SectorsOk(r.bits, fs2.disk, r.owner, Owners(r.disk, r.inodes, {}))
      && MapThere(fs2)
    ensures var w2 := WithMap(w, fs2);
      fs2 == Reserved(w2, a) && OnlyMap(w.disk, w2.disk) && Ok(w2, extra, {}) && MapThere(w2)
  {
    var own := Owners(w.disk, w.inodes, {});
    UnreservedSectors(w.bits, fs2.disk, w.owner, own, a);
    hide Ok, Linked, MemSectors, OnlyMap, SectorsOk;
    OnlyMapOk(w, fs2.disk, fs2.synced, extra, {});
  }

  lemma SectorsPart(fs: Fs, extra: multiset<int>)
    requires Ok(fs, extra, {})
    ensures SectorsOk(fs.bits, fs.disk, fs.owner, Owners(fs.disk, fs.inodes, {}))
  {
  }

  lemma ReservedSame(fs: Fs, a: int)
    requires 0 <= a < |fs.bits|
    ensures var r := Reserved(fs, a);
      a in r.owner && r.owner[a] == NOBODY && r == fs.(bits := fs.bits[a := true], owner := r.owner)
  {
  }

  lemma MadeFacts(fs: Fs, r: Fs, fs2: Fs, a: int, length: Offset)
    requires 0 < a < |fs.bits| && !fs.bits[a] && (forall x | 0 <= x < a :: fs.bits[x])
    requires r == fs.(bits := fs.bits[a := true], owner := r.owner)
    requires fs2 == r.(bits := fs2.bits, disk := fs2.disk, owner := fs2.owner, synced := fs2.synced)
    requires |fs2.bits| == |r.bits|
    requires DirBytes(fs2.disk) == DirBytes(r.disk) && Owns(fs2.disk, a, a) && Kept(r, fs2.disk)
    requires a in fs2.disk && fs2.disk[a].Node? && fs2.disk[a].length == length
    requires forall i | 0 <= i < length :: ByteOf(fs2.disk, fs2.disk[a].start, i) == 0
    requires forall x | 0 <= x < |r.bits| :: fs2.bits[x] == (r.bits[x] || (x != a && Owns(fs2.disk, a, x)))
    requires forall x | 0 <= x < |r.bits| :: r.bits[x] ==> x == a || !Owns(fs2.disk, a, x)
    ensures Made(fs, fs2, length, a)
  {
    hide DirBytes, Untouched, Owners, Owns;
  }

  lemma InodeIsOwned(fs: Fs, fs2: Fs, extra: multiset<int>, a: int)
    requires Ok(fs2, extra, {a})
    ensures 0 <= a < |fs2.bits| && Owns(fs2.disk, a, a)
  {
    assert OwnerAt(fs2.disk, fs2.owner, |fs2.bits|, a);
    OwnedUsed(fs2.bits, fs2.disk, fs2.owner, Owners(fs2.disk, fs2.inodes, {a}), a, a);
  }

  lemma ZeroBytes(fs: Fs, a: int, length: Offset, bounce: bool)
    requires InodeCreate(fs, a, length, bounce).1
    ensures var disk := InodeCreate(fs, a, length, bounce).0.disk;
      a in disk && disk[a].Node? ==> forall i | 0 <= i < length :: ByteOf(disk, disk[a].start, i) == 0
  {
    hide FreeMapAllocate;
    var start := FreeMapAllocate(fs, Sectors(length), bounce).1.value;
    var disk := InodeCreate(fs, a, length, bounce).0.disk;
    if a in disk && disk[a].Node? {
      forall i | 0 <= i < length ensures ByteOf(disk, start, i) == 0 {
        assert InRange(start, Sectors(length), SectorOf(start, i));
      }
    }
  }

  lemma UntouchedTwice(disk: Disk, disk2: Disk, disk3: Disk, s: int)
    requires Untouched(disk, disk2, s) && Untouched(disk2, disk3, s) && s in disk && disk[s].Node?
    ensures Untouched(disk, disk3, s)
  {
    UntouchedSame(disk, disk2, s);
  }

  lemma KeptSystem(fs: Fs, disk2: Disk, extra: multiset<int>)
    requires Ok(fs, extra, {}) && Kept(fs, disk2)
    ensures SystemSame(fs.disk, disk2)
  {
    LinkedSystem(fs.disk);
    RootNode(fs, extra);
    hide Ok, Linked, MemSectors, Untouched;
    UntouchedSame(fs.disk, disk2, ROOT);
  }

  /** Linking the new inode. */
  lemma LinkMade(fs: Fs, fs2: Fs, fs3: Fs, name: Name, length: Offset, a: int, extra: multiset<int>)
    requires Ok(fs, extra, {}) && Made(fs, fs2, length, a) && fs3 == fs2.(disk := fs3.disk)
    requires forall t | t in Owners(fs2.disk, fs2.inodes, {a}) && t != ROOT :: Untouched(fs2.disk, fs3.disk, t)
    requires name !in DirNames(fs.disk) && DirNames(fs3.disk) == DirNames(fs2.disk)[name := a] && a != ROOT
    requires SystemSame(fs2.disk, fs3.disk)
    ensures Created(fs, fs3, name, length, a)
  {
    hide *;
    MadeInode(fs, fs2, length, a);
    OwnAlso(fs, fs2, length, a);
    LinkedZeros(fs2, fs3, length, a);
    UntouchedSame(fs2.disk, fs3.disk, a);
    LinkedOthers(fs, fs2, fs3, length, a, extra);
    SameNames(fs2.disk, fs.disk) by { MadeDir(fs, fs2, length, a); }
    CreatedIs(fs, fs2, fs3, name, length, a);
  }

  lemma MadeDir(fs: Fs, fs2: Fs, length: Offset, a: int)
    requires Made(fs, fs2, length, a)
    ensures DirBytes(fs2.disk) == DirBytes(fs.disk) && Kept(fs, fs2.disk)
  {
    hide DirBytes, Kept, ByteOf, Owns;
  }

  lemma SameNames(disk: Disk, disk': Disk)
    requires DirBytes(disk') == DirBytes(disk)
    ensures DirNames(disk') == DirNames(disk)
  {
  }

  lemma OwnAlso(fs: Fs, fs2: Fs, length: Offset, a: int)
    requires Made(fs, fs2, length, a)
    ensures Owners(fs2.disk, fs2.inodes, {a}) == Owners(fs.disk, fs.inodes, {}) + {a}
  {
    MadeDir(fs, fs2, length, a);
    SameLinked(fs.disk, fs2.disk);
    MadeKeeps(fs, fs2, length, a);
    hide Made, Linked, MemSectors;
  }

  lemma CreatedIs(fs: Fs, fs2: Fs, fs3: Fs, name: Name, length: Offset, a: int)
    requires Made(fs, fs2, length, a) && fs3 == fs2.(disk := fs3.disk) && OthersUntouched(fs, fs3.disk)
    requires a in fs2.disk && a in fs3.disk && fs3.disk[a] == fs2.disk[a] && fs2.disk[a].Node?
    requires forall i | 0 <= i < length :: ByteOf(fs3.disk, fs3.disk[a].start, i) == 0
    requires forall x :: Owns(fs3.disk, a, x) <==> Owns(fs2.disk, a, x)
    requires name !in DirNames(fs.disk) && DirNames(fs3.disk) == DirNames(fs.disk)[name := a]
    ensures Created(fs, fs3, name, length, a)
  {
    hide OthersUntouched, DirNames, DirBytes, Kept, ByteOf, Owns;
  }

  lemma MadeInode(fs: Fs, fs2: Fs, length: Offset, a: int)
    requires Made(fs, fs2, length, a)
    ensures a in fs2.disk && fs2.disk[a].Node? && fs2.disk[a].length == length
    ensures forall i | 0 <= i < length :: ByteOf(fs2.disk, fs2.disk[a].start, i) == 0
  {
    hide DirBytes, Kept, ByteOf;
  }

  lemma LinkedZeros(fs2: Fs, fs3: Fs, length: Offset, a: int)
    requires a in fs2.disk && fs2.disk[a].Node? && fs2.disk[a].length == length && Untouched(fs2.disk, fs3.disk, a)
    requires forall i | 0 <= i < length :: ByteOf(fs2.disk, fs2.disk[a].start, i) == 0
    ensures a in fs3.disk && fs3.disk[a] == fs2.disk[a]
    ensures forall i | 0 <= i < length :: ByteOf(fs3.disk, fs3.disk[a].start, i) == 0
  {
    hide Untouched, Owns, ByteOf;
    UntouchedSame(fs2.disk, fs3.disk, a);
    forall i | 0 <= i < length ensures ByteOf(fs3.disk, fs3.disk[a].start, i) == 0 {
      assert Content(fs3.disk, fs2.disk[a].start, fs2.disk[a].length)[i]
        == Content(fs2.disk, fs2.disk[a].start, fs2.disk[a].length)[i];
    }
  }

  lemma LinkedOthers(fs: Fs, fs2: Fs, fs3: Fs, length: Offset, a: int, extra: multiset<int>)
    requires Ok(fs, extra, {}) && Made(fs, fs2, length, a) && SystemSame(fs2.disk, fs3.disk)
    requires forall t | t in Owners(fs2.disk, fs2.inodes, {a}) && t != ROOT :: Untouched(fs2.disk, fs3.disk, t)
    ensures OthersUntouched(fs, fs3.disk)
  {
    hide *;
    MadeDir(fs, fs2, length, a);
    OwnAlso(fs, fs2, length, a);
    KeptSystem(fs, fs2.disk, extra);
    SystemTwice(fs.disk, fs2.disk, fs3.disk);
    forall t | t in Owners(fs.disk, fs.inodes, {}) && t != ROOT && t != FREE_MAP
      ensures Untouched(fs.disk, fs3.disk, t)
    {
      OwnerNode(fs, extra, t);
      KeptOther(fs, fs2.disk, t);
      UntouchedTwice(fs.disk, fs2.disk, fs3.disk, t);
    }
    OthersIs(fs, fs3.disk);
  }

  lemma KeptOther(fs: Fs, disk2: Disk, t: int)
    requires Kept(fs, disk2) && t in Owners(fs.disk, fs.inodes, {}) && t != FREE_MAP
    ensures Untouched(fs.disk, disk2, t)
  {
  }

  lemma OwnerNode(fs: Fs, extra: multiset<int>, t: int)
    requires Ok(fs, extra, {}) && t in Owners(fs.disk, fs.inodes, {})
    ensures t in fs.disk && fs.disk[t].Node?
  {
    assert OwnerAt(fs.disk, fs.owner, |fs.bits|, t);
  }

  lemma LeakMade(fs: Fs, fs2: Fs, fs3: Fs, length: Offset, a: int, extra: multiset<int>)
    requires Ok(fs, extra, {}) && Ok(fs2, extra, {a}) && Made(fs, fs2, length, a) && fs3.files == fs2.files
    requires fs3.bits == fs2.bits[a := false] && OnlyMap(fs2.disk, fs3.disk)
    requires forall x :: x in fs3.owner <==> 0 <= x < |fs3.bits| && fs3.bits[x]
    requires forall x | x in fs3.owner && Owns(fs2.disk, a, x) :: fs3.owner[x] == NOBODY
    requires SelfApart(fs2, a)
    ensures Leak(fs, fs3, length)
  {
    LeakAway(fs, fs2, fs3.disk, length, a, extra);
    hide *;
    LeakBits(fs, fs2, fs3, length, a);
    LeakIs(fs, fs2, fs3, length, a);
  }

  lemma LeakIs(fs: Fs, fs2: Fs, fs3: Fs, length: Offset, a: int)
    requires Made(fs, fs2, length, a) && LeakAt(fs, fs3, fs2.disk[a].start, Sectors(length)) && fs3.files == fs2.files
    requires DirNames(fs3.disk) == DirNames(fs.disk) && OthersUntouched(fs, fs3.disk)
    ensures Leak(fs, fs3, length)
  {
    hide OthersUntouched, DirNames, Kept, DirBytes, ByteOf, Owns;
  }

  lemma LeakBits(fs: Fs, fs2: Fs, fs3: Fs, length: Offset, a: int)
    requires Made(fs, fs2, length, a) && fs3.bits == fs2.bits[a := false] && SelfApart(fs2, a)
    requires forall x :: x in fs3.owner <==> 0 <= x < |fs3.bits| && fs3.bits[x]
    requires forall x | x in fs3.owner && Owns(fs2.disk, a, x) :: fs3.owner[x] == NOBODY
    ensures LeakAt(fs, fs3, fs2.disk[a].start, Sectors(length))
  {
    hide DirBytes, Kept, ByteOf;
    var start := fs2.disk[a].start;
    forall x | InRange(start, Sectors(length), x)
      ensures 0 <= x < |fs.bits| && !fs.bits[x] && fs3.bits[x] && x in fs3.owner && fs3.owner[x] == NOBODY
    {
      assert Owns(fs2.disk, a, x);
    }
  }

  lemma LeakAway(fs: Fs, fs2: Fs, disk3: Disk, length: Offset, a: int, extra: multiset<int>)
    requires Ok(fs, extra, {}) && Ok(fs2, extra, {a}) && Made(fs, fs2, length, a) && OnlyMap(fs2.disk, disk3)
    ensures DirNames(disk3) == DirNames(fs.disk) && OthersUntouched(fs, disk3)
  {
    LinkedSystem(fs2.disk);
    RootThere(fs2.disk);
    SectorsOf(fs2, extra, {a});
    KeptSystem(fs, fs2.disk, extra);
    SystemStays(fs2, disk3, extra, {a});
    hide Ok, Untouched, Entries, MemSectors, DirBytes, OnlyMap, Linked;
    OnlyMapDir(fs2.bits, fs2.disk, fs2.owner, Owners(fs2.disk, fs2.inodes, {a}), disk3);
    forall t | t in Owners(fs.disk, fs.inodes, {}) && t != ROOT && t != FREE_MAP ensures Untouched(fs.disk, disk3, t) {
      ThenMap(fs, fs2.disk, disk3, t, extra);
    }
  }

  lemma SectorsOf(fs: Fs, extra: multiset<int>, pending: set<int>)
    requires Ok(fs, extra, pending)
    ensures SectorsOk(fs.bits, fs.disk, fs.owner, Owners(fs.disk, fs.inodes, pending))
  {
  }

  ghost predicate SelfApart(fs: Fs, a: int) {
    && a in fs.disk && fs.disk[a].Node? && !InRange(fs.disk[a].start, Sectors(fs.disk[a].length), a)
    && forall x | Owns(fs.disk, a, x) :: 0 <= x < |fs.bits|
  }

  lemma PendingApart(fs: Fs, extra: multiset<int>, a: int)
    requires Ok(fs, extra, {a})
    ensures SelfApart(fs, a)
  {
    assert OwnerAt(fs.disk, fs.owner, |fs.bits|, a);
  }

  lemma OwnerExact(fs: Fs, extra: multiset<int>)
    requires Ok(fs, extra, {})
    ensures forall x :: x in fs.owner <==> 0 <= x < |fs.bits| && fs.bits[x]
  {
  }

  ghost predicate LeftOver(fs: Fs, r: (Fs, bool), length: Offset, extra: multiset<int>) {
    !r.1 && Ok(r.0, extra, {}) && Leak(fs, r.0, length) && r.0.inodes == fs.inodes && r.0.refs == fs.refs
  }

  lemma LeftOverMeans(fs: Fs, r: (Fs, bool), length: Offset, extra: multiset<int>)
    requires LeftOver(fs, r, length, extra)
    ensures !r.1 && Ok(r.0, extra, {}) && Leak(fs, r.0, length) && r.0.inodes == fs.inodes && r.0.refs == fs.refs
  {
  }

  /** After the inode is made: the entry is added, or the data sectors are lost. */
  lemma AddMade(fs: Fs, fs2: Fs, d: int, name: Name, length: Offset, bounce: bool, a: int, extra: multiset<int>)
    requires Ok(fs, extra, {}) && Made(fs, fs2, length, a) && Ok(fs2, extra, {a}) && 0 < a && a != ROOT && 0 !in name
    requires d in fs.inodes && fs.inodes[d].sector == ROOT && fs.inodes[d].denyCnt == 0 && MapThere(fs2)
    ensures d in fs2.inodes
    ensures var (fs3, added) := DirAdd(fs2, d, name, a);
      && (added <==> AddSlot(DirBytes(fs.disk), name).Some?)
      && (added ==>
           && Ok(fs3, extra, {}) && Created(fs, fs3, name, length, a)
           && fs3.inodes == fs.inodes && fs3.refs == fs.refs && MapStays(fs2, fs3))
      && (!added ==>
           var r := GiveBack(Leaked(fs3, a), a, bounce);
           r.Some? && LeftOver(fs, r.value, length, extra) && MapStays(fs2, r.value.0))
  {
    hide Ok, Untouched, Entries, MemSectors, DirBytes, DirAdd, AddSlot, Leak, Created, Owns, GiveBack, Leaked, Kept,
      MapThere, MapOk, OnlyMap;
    DirAddOk(fs2, d, name, a, extra, {a});
    var (fs3, added) := DirAdd(fs2, d, name, a);
    if added {
      assert {a} - {a} == {};
      NewName(fs, name, extra);
      MapNodeKept(fs2, fs3.disk, extra, a);
      LinkMade(fs, fs2, fs3, name, length, a, extra);
      RootWriteKeepsMap(fs2, fs3.disk, {a});
    } else {
      LeakOk(fs2, bounce, extra, a);
      PendingApart(fs2, extra, a);
      var fs4 := GiveBack(Leaked(fs3, a), a, bounce).value.0;
      OwnerExact(fs4, extra);
      LeakMade(fs, fs2, fs4, length, a, extra);
      MapOkThere(fs4);
    }
  }

  lemma MapNodeKept(fs2: Fs, disk3: Disk, extra: multiset<int>, a: int)
    requires Ok(fs2, extra, {a}) && forall t | t in Owners(fs2.disk, fs2.inodes, {a}) && t != ROOT ::
      Untouched(fs2.disk, disk3, t)
    requires ROOT in fs2.disk && ROOT in disk3 && disk3[ROOT] == fs2.disk[ROOT]
    ensures SystemSame(fs2.disk, disk3)
  {
    LinkedSystem(fs2.disk);
    assert OwnerAt(fs2.disk, fs2.owner, |fs2.bits|, FREE_MAP);
    hide Linked, MemSectors, Untouched, DirOk, MemOk;
    NodesSame(fs2.disk, disk3, FREE_MAP);
  }

  lemma NewName(fs: Fs, name: Name, extra: multiset<int>)
    requires Ok(fs, extra, {}) && AddSlot(DirBytes(fs.disk), name).Some? && 0 !in name
    ensures name !in DirNames(fs.disk)
  {
    AddSucceeds(DirBytes(fs.disk), name);
  }

  /** filesys_create in the open directory: it succeeds exactly if the inode can be made and the entry added. */
  lemma CreateInOk(fs: Fs, d: int, name: Name, length: Offset, bounces: Bounces, extra: multiset<int>)
    requires Ok(fs, extra, {}) && d in fs.inodes && fs.inodes[d].sector == ROOT && fs.inodes[d].denyCnt == 0
    requires 0 !in name && MapThere(fs)
    ensures CreateIn(fs, d, name, length, bounces).Some?
    ensures var (fs', ok) := CreateIn(fs, d, name, length, bounces).value;
      && Ok(fs', extra, {}) && fs'.inodes == fs.inodes && fs'.refs == fs.refs && MapStays(fs, fs')
      && (ok <==> CanMake(fs, length, bounces) && AddSlot(DirBytes(fs.disk), name).Some?)
      && (ok ==> Created(fs, fs', name, length, NewSector(fs.bits)))
      && (!ok ==>
           if CanMake(fs, length, bounces) then Leak(fs, fs', length)
           else fs' == WithMap(fs, fs') && OnlyMap(fs.disk, fs'.disk))
  {
    hide *;
    ReserveSteps(fs, bounces.first, extra);
    var (fs1, r) := FreeMapAllocate(fs, 1, bounces.first);
    var w := WithMap(fs, fs1);
    WithMapSame(fs, fs1);
    if r.None? {
      NoSector(fs, d, name, length, bounces);
    } else {
      var a := r.value;
      MapWritten(fs, fs1, a);
      SectorFound(fs, length, bounces, a);
      MakeOk(w, a, length, bounces.second, extra);
      var (fs2, made) := InodeCreate(Reserved(w, a), a, length, bounces.second);
      InodesKept(Reserved(w, a), a, length, bounces.second);
      if made {
        StaysThere(Reserved(w, a), fs2);
        MadeKeeps(w, fs2, length, a);
        AddMade(w, fs2, d, name, length, bounces.third, a, extra);
        MadeIs(fs, d, name, length, bounces, fs1, a, fs2);
        var fs3 := DirAdd(fs2, d, name, a).0;
        if !DirAdd(fs2, d, name, a).1 {
          LeftOverMeans(w, GiveBack(Leaked(fs3, a), a, bounces.third).value, length, extra);
        }
        MapChain(fs, fs1, w, a, fs2, if DirAdd(fs2, d, name, a).1 then fs3 else GiveBack(Leaked(fs3, a), a,
                                                                                         bounces.third).value.0);
        CreatedBefore(fs, w, CreateIn(fs, d, name, length, bounces).value.0, name, length, a, extra);
      } else {
        var w2 := WithMap(w, fs2);
        WithMapSame(w, fs2);
        GiveBackRestores(w2, a, bounces.third, extra);
        NotMadeIs(fs, d, name, length, bounces, fs1, a, fs2);
        RestoredIs(fs, w, w2, CreateIn(fs, d, name, length, bounces).value.0, extra);
      }
    }
  }

  lemma WithMapSame(fs: Fs, fs1: Fs)
    ensures var w := WithMap(fs, fs1);
      && w.bits == fs.bits && w.owner == fs.owner && w.inodes == fs.inodes && w.refs == fs.refs && w.files == fs.files
      && w.disk == fs1.disk
      && WithMap(fs, w) == w
  {
  }

  lemma NoSector(fs: Fs, d: int, name: Name, length: Offset, bounces: Bounces)
    requires d in fs.inodes && FreeMapAllocate(fs, 1, bounces.first).1.None?
    requires WithMap(fs, FreeMapAllocate(fs, 1, bounces.first).0) == FreeMapAllocate(fs, 1, bounces.first).0
    requires !(MapFits(|fs.bits|, bounces.first) && Scan(fs.bits, 0, 1).Some?)
    ensures CreateIn(fs, d, name, length, bounces) == Some((FreeMapAllocate(fs, 1, bounces.first).0, false))
    ensures !CanMake(fs, length, bounces)
  {
    hide FreeMapAllocate, MapFits, Scan;
  }

  lemma MapWritten(fs: Fs, fs1: Fs, a: int)
    requires MapStays(fs, fs1) && 0 <= a < |fs.bits|
    requires fs1.(owner := fs1.owner[a := NOBODY]) == Reserved(WithMap(fs, fs1), a)
    ensures MapThere(WithMap(fs, fs1)) && |WithMap(fs, fs1).bits| == |fs.bits|
    ensures MapStays(fs, Reserved(WithMap(fs, fs1), a))
  {
    hide Content;
    MapOkOwner(fs1.(owner := fs1.owner[a := NOBODY]), fs1);
  }

  lemma SectorFound(fs: Fs, length: Offset, bounces: Bounces, a: int)
    requires MapFits(|fs.bits|, bounces.first) && Scan(fs.bits, 0, 1) == Some(a)
    ensures NewSector(fs.bits) == a && 0 <= a < |fs.bits|
    ensures CanMake(fs, length, bounces) <==>
      MapFits(|fs.bits|, bounces.second) && Scan(fs.bits[a := true], 0, Sectors(length)).Some?
  {
    FirstFree(fs.bits);
    hide MapFits, Scan, Sectors;
  }

  lemma InodesKept(r: Fs, a: int, length: Offset, bounce: bool)
    ensures InodeCreate(r, a, length, bounce).0.inodes == r.inodes
  {
    hide WriteAt, Set, Scan, Writable;
  }

  lemma MadeKeeps(fs: Fs, fs2: Fs, length: Offset, a: int)
    requires Made(fs, fs2, length, a)
    ensures fs2.inodes == fs.inodes && fs2.files == fs.files && fs2.refs == fs.refs
  {
  }

  lemma MadeIs(fs: Fs, d: int, name: Name, length: Offset, bounces: Bounces, fs1: Fs, a: int, fs2: Fs)
    requires d in fs.inodes && FreeMapAllocate(fs, 1, bounces.first) == (fs1, Some(a)) && d in fs2.inodes
    requires InodeCreate(fs1.(owner := fs1.owner[a := NOBODY]), a, length, bounces.second) == (fs2, true)
    ensures CreateIn(fs, d, name, length, bounces)
      == if DirAdd(fs2, d, name, a).1 then Some((DirAdd(fs2, d, name, a).0, true))
         else GiveBack(Leaked(DirAdd(fs2, d, name, a).0, a), a, bounces.third)
  {
    hide FreeMapAllocate, InodeCreate, DirAdd, GiveBack, Leaked;
  }

  lemma NotMadeIs(fs: Fs, d: int, name: Name, length: Offset, bounces: Bounces, fs1: Fs, a: int, fs2: Fs)
    requires d in fs.inodes && FreeMapAllocate(fs, 1, bounces.first) == (fs1, Some(a))
    requires InodeCreate(fs1.(owner := fs1.owner[a := NOBODY]), a, length, bounces.second) == (fs2, false)
    ensures CreateIn(fs, d, name, length, bounces) == GiveBack(fs2, a, bounces.third)
  {
    hide FreeMapAllocate, InodeCreate, DirAdd, GiveBack, Leaked;
  }

  lemma MapChain(fs: Fs, fs1: Fs, w: Fs, a: int, fs2: Fs, fs': Fs)
    requires 0 <= a < |w.bits| && MapStays(fs, Reserved(w, a)) && MapStays(Reserved(w, a), fs2) && MapStays(fs2, fs')
    ensures MapStays(fs, fs')
  {
    hide MapThere, MapOk;
  }

  /** What is created after the map was written is created. */
  lemma CreatedBefore(fs: Fs, w: Fs, fs': Fs, name: Name, length: Offset, a: int, extra: multiset<int>)
    requires Ok(fs, extra, {}) && w == WithMap(fs, w) && OnlyMap(fs.disk, w.disk)
    requires DirBytes(w.disk) == DirBytes(fs.disk) && Linked(w.disk) == Linked(fs.disk)
    ensures Created(w, fs', name, length, a) ==> Created(fs, fs', name, length, a)
    ensures Leak(w, fs', length) ==> Leak(fs, fs', length)
  {
    OthersBefore(fs, w, fs'.disk, extra);
    SameNames(w.disk, fs.disk);
    WithMapSame(fs, w);
    hide *;
    CreatedSame(fs, w, fs', name, length, a);
  }

  lemma CreatedSame(fs: Fs, w: Fs, fs': Fs, name: Name, length: Offset, a: int)
    requires DirNames(w.disk) == DirNames(fs.disk) && w.bits == fs.bits && w.files == fs.files
    requires OthersUntouched(w, fs'.disk) ==> OthersUntouched(fs, fs'.disk)
    ensures Created(w, fs', name, length, a) ==> Created(fs, fs', name, length, a)
    ensures Leak(w, fs', length) ==> Leak(fs, fs', length)
  {
    hide OthersUntouched, DirNames, Owns, ByteOf;
    if Leak(w, fs', length) {
      var start :| LeakAt(w, fs', start, Sectors(length));
      assert LeakAt(fs, fs', start, Sectors(length));
    }
  }

  lemma OthersBefore(fs: Fs, w: Fs, disk': Disk, extra: multiset<int>)
    requires Ok(fs, extra, {}) && w == WithMap(fs, w) && OnlyMap(fs.disk, w.disk) && Linked(w.disk) == Linked(fs.disk)
    ensures OthersUntouched(w, disk') ==> OthersUntouched(fs, disk')
  {
    assert Owners(w.disk, w.inodes, {}) == Owners(fs.disk, fs.inodes, {}) by { hide Ok, OnlyMap, Linked, MemSectors; }
    SystemStays(fs, w.disk, extra, {});
    if OthersUntouched(w, disk') {
      hide Ok, OnlyMap, Untouched, Owners, SystemSame;
      SystemTwice(fs.disk, w.disk, disk');
      forall t | t in Owners(fs.disk, fs.inodes, {}) && t != ROOT && t != FREE_MAP
        ensures Untouched(fs.disk, disk', t)
      {
        MapFirst(fs, w.disk, disk', t, extra);
      }
    }
  }

  lemma MapFirst(fs: Fs, disk2: Disk, disk3: Disk, t: int, extra: multiset<int>)
    requires Ok(fs, extra, {}) && t in Owners(fs.disk, fs.inodes, {}) && t != FREE_MAP && OnlyMap(fs.disk, disk2)
    requires Untouched(disk2, disk3, t)
    ensures Untouched(fs.disk, disk3, t)
  {
    LinkedSystem(fs.disk);
    SectorsPart(fs, extra);
    OwnerNode(fs, extra, t);
    hide Ok, Linked, MemSectors, OnlyMap, SectorsOk, Untouched;
    OnlyMapUntouched(fs.bits, fs.disk, fs.owner, Owners(fs.disk, fs.inodes, {}), disk2, t);
    UntouchedTwice(fs.disk, disk2, disk3, t);
  }

  lemma RestoredIs(fs: Fs, w: Fs, w2: Fs, fs': Fs, extra: multiset<int>)
    requires Ok(fs, extra, {}) && w == WithMap(fs, w) && w2 == WithMap(w, w2) && fs' == WithMap(w2, fs') && MapOk(fs')
    requires OnlyMap(fs.disk, w.disk) && OnlyMap(w.disk, w2.disk) && OnlyMap(w2.disk, fs'.disk)
    ensures fs' == WithMap(fs, fs') && OnlyMap(fs.disk, fs'.disk) && MapStays(fs, fs')
    ensures fs'.inodes == fs.inodes && fs'.refs == fs.refs
  {
    LinkedSystem(fs.disk);
    var own := Owners(fs.disk, fs.inodes, {});
    NotInOwnData(fs, own, FREE_MAP) by { SectorsPart(fs, extra); }
    OnlyMapTwice(fs.disk, w.disk, w2.disk);
    OnlyMapTwice(fs.disk, w2.disk, fs'.disk);
  }
}
