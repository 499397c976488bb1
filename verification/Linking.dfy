/** Entries of the root directory that come and go. */
module Linking {
  import opened Options
  import opened Bitmap
  import opened Bytes
  import opened Disk
  import opened Directory
  import opened FileSys
  import opened FileSysInvariant
  import opened OpenInodes

  /** The entry of slot i of the root directory is written, by way of the inode at d. */
  lemma WriteEntry(fs: Fs, d: int, i: int, e: seq<Byte>, extra: multiset<int>, pending: set<int>)
    requires Ok(fs, extra, pending) && d in fs.inodes && fs.inodes[d].sector == ROOT && |e| == ENTRY
    ensures BytesOf(fs, fs.inodes[d]) == DirBytes(fs.disk)
    ensures 0 <= i < Slots(DirBytes(fs.disk)) ==> var (fs', n) := InodeWrite(fs, d, e, i * ENTRY);
      && fs' == fs.(disk := fs'.disk) && SectorsOk(fs.bits, fs'.disk, fs.owner, Owners(fs.disk, fs.inodes, pending))
      && (forall t | t in Owners(fs.disk, fs.inodes, pending) && t != ROOT :: Untouched(fs.disk, fs'.disk, t))
      && ROOT in fs'.disk && fs'.disk[ROOT] == fs.disk[ROOT]
      && (if fs.inodes[d].denyCnt == 0 then n == ENTRY && DirBytes(fs'.disk) == Splice(DirBytes(fs.disk), i * ENTRY, e)
          else n == 0 && fs' == fs)
  {
    var m, c := fs.inodes[d], DirBytes(fs.disk);
    assert MemAt(fs.disk, Linked(fs.disk), m);
    assert OwnerAt(fs.disk, fs.owner, |fs.bits|, ROOT);
    hide Ok, Linked, MemSectors, WriteBytes, Splice, SectorsOk;
    if 0 <= i < Slots(c) {
      assert (i + 1) * ENTRY <= Slots(c) * ENTRY <= |c|;
      EntryFits(c, i);
      WriteOk(fs.bits, fs.disk, fs.owner, Owners(fs.disk, fs.inodes, pending), ROOT, m.denyCnt != 0, e, i * ENTRY);
      WriteAtSplices(fs.disk, m.start, m.length, m.denyCnt != 0, e, i * ENTRY);
      NothingWritten(fs.disk, m.start, i * ENTRY);
      assert e[..ENTRY] == e;
    }
  }

  lemma EntryFits(c: seq<Byte>, i: int)
    requires 0 <= i < Slots(c)
    ensures Movable(|c|, ENTRY, i * ENTRY) == ENTRY && i * ENTRY + ENTRY <= |c|
  {
  }

  /** The inodes in memory are in order after the directory changed, if the linked inodes are what they say. */
  lemma RelinkMemOk(inodes: Inodes, inodes': Inodes, open: seq<int>, disk: Disk, disk': Disk, linked: set<int>,
                    linked': set<int>)
    requires MemOk(inodes, open, disk, linked) && inodes'.Keys == inodes.Keys
    requires forall p | p in inodes :: inodes'[p] == inodes[p].(removed := inodes'[p].removed)
    requires forall p | p in inodes :: inodes'[p].removed <==> inodes[p].sector !in linked'
    requires forall p | p in inodes ::
      inodes[p].sector in disk ==> inodes[p].sector in disk' && disk'[inodes[p].sector] == disk[inodes[p].sector]
    ensures MemOk(inodes', open, disk', linked')
  {
    forall p | p in inodes' ensures MemAt(disk', linked', inodes'[p]) { assert MemAt(disk, linked, inodes[p]); }
  }

  lemma NodesSame(disk: Disk, disk': Disk, s: int)
    requires Untouched(disk, disk', s) && s in disk && disk[s].Node?
    ensures s in disk' && disk'[s] == disk[s]
  {
    assert Owns(disk, s, s);
  }

  lemma SectorSame(fs: Fs, disk': Disk, own: set<int>, s: int)
    requires SectorsOk(fs.bits, fs.disk, fs.owner, own) && s in own
    requires (forall t | t in own && t != ROOT :: Untouched(fs.disk, disk', t)) && ROOT in fs.disk && ROOT in disk'
    requires disk'[ROOT] == fs.disk[ROOT]
    ensures s in fs.disk && s in disk' && disk'[s] == fs.disk[s]
  {
    assert OwnerAt(fs.disk, fs.owner, |fs.bits|, s);
    if s != ROOT { NodesSame(fs.disk, disk', s); }
  }

  // ---- dir_add ----

  predicate CanAdd(fs: Fs, d: int, name: Name)
    requires d in fs.inodes
  {
    AddSlot(DirBytes(fs.disk), name).Some? && fs.inodes[d].denyCnt == 0
  }

  /** A new name, and nothing else, in the directory's map. */
  lemma NamesAdded(disk: Disk, disk': Disk, name: Name, a: int)
    requires DirOk(disk) && ROOT in disk' && disk'[ROOT] == disk[ROOT] && 0 !in name && 0 <= a < 0x1_0000_0000
    requires DirBytes(disk') == Add(DirBytes(disk), name, a) && AddSlot(DirBytes(disk), name).Some?
    requires a !in Linked(disk)
    ensures DirOk(disk') && DirNames(disk') == DirNames(disk)[name := a] && Linked(disk') == Linked(disk) + {a}
    ensures name !in DirNames(disk)
  {
    hide Entries, DirBytes, Unique, Add, AddSlot;
    AddRefines(DirBytes(disk), name, a);
    AddSucceeds(DirBytes(disk), name);
    var names := DirNames(disk);
    assert names[name := a].Values == names.Values + {a} by {
      forall s | s in names.Values ensures s in names[name := a].Values {
        var n :| n in names && names[n] == s;
        assert names[name := a][n] == s;
      }
      assert names[name := a][name] == a;
    }
    forall n | n in names ensures names[n] in names.Values {}
  }

  lemma AddedBytes(c: seq<Byte>, c': seq<Byte>, name: Name, a: int)
    requires AddSlot(c, name).Some?
    requires var i := AddSlot(c, name).value; c' == Splice(c, i * ENTRY, Filled(Slot(c, i), name, a))
    ensures c' == Add(c, name, a)
  {
  }

  /** dir_add succeeds exactly if the name is valid and absent, a slot is free and writing is not denied; it
      links the pending inode, and touches no other. */
  lemma DirAddOk(fs: Fs, d: int, name: Name, a: int, extra: multiset<int>, pending: set<int>)
    requires Ok(fs, extra, pending) && d in fs.inodes && fs.inodes[d].sector == ROOT && a in pending && 0 !in name
    ensures var (fs', ok) := DirAdd(fs, d, name, a);
      && (ok <==> CanAdd(fs, d, name)) && (!ok ==> fs' == fs)
      && fs' == fs.(disk := fs'.disk)
      && (ok ==> Ok(fs', extra, pending - {a}) && DirNames(fs'.disk) == DirNames(fs.disk)[name := a])
      && (ok ==> forall t | t in Owners(fs.disk, fs.inodes, pending) && t != ROOT :: Untouched(fs.disk, fs'.disk, t))
      && (ok ==> ROOT in fs.disk && ROOT in fs'.disk && fs'.disk[ROOT] == fs.disk[ROOT])
  {
    RootThere(fs.disk);
    hide FilesOk, RefsOk, MemOk, SectorsOk, DirOk, InodeWrite, Linked, MemSectors, Add, Untouched, Filled, DirBytes;
    var c := DirBytes(fs.disk);
    WriteEntry(fs, d, 0, seq(ENTRY, i => 0), extra, pending);
    if AddSlot(c, name).Some? {
      var i := AddSlot(c, name).value;
      WriteEntry(fs, d, i, Filled(Slot(c, i), name, a), extra, pending);
      if fs.inodes[d].denyCnt == 0 {
        var disk' := DirAdd(fs, d, name, a).0.disk;
        SectorBounds(fs, Owners(fs.disk, fs.inodes, pending), a);
        AddedBytes(c, DirBytes(disk'), name, a);
        NamesAdded(fs.disk, disk', name, a);
        AddedOk(fs, disk', a, extra, pending);
      }
    }
  }

  lemma AddedOk(fs: Fs, disk': Disk, a: int, extra: multiset<int>, pending: set<int>)
    requires Ok(fs, extra, pending) && a in pending
    requires SectorsOk(fs.bits, disk', fs.owner, Owners(fs.disk, fs.inodes, pending))
    requires forall t | t in Owners(fs.disk, fs.inodes, pending) && t != ROOT :: Untouched(fs.disk, disk', t)
    requires ROOT in disk' && disk'[ROOT] == fs.disk[ROOT] && DirOk(disk') && Linked(disk') == Linked(fs.disk) + {a}
    ensures Ok(fs.(disk := disk'), extra, pending - {a})
  {
    hide FilesOk, RefsOk, SectorsOk, DirOk, Linked, Untouched, MemSectors, MemOk;
    forall p | p in fs.inodes
      ensures MemSame(fs, disk', p) && fs.inodes[p].sector != a
    {
      MemStays(fs, disk', extra, pending, p);
    }
    RelinkMemOk(fs.inodes, fs.inodes, fs.open, fs.disk, disk', Linked(fs.disk), Linked(disk'));
    MoveOwner(Linked(fs.disk), MemSectors(fs.inodes), pending, a);
  }

  /** Writing to the directory does not touch the free map's file. */
  lemma RootWriteKeepsMap(fs: Fs, disk': Disk, pending: set<int>)
    requires MapThere(fs) && forall t | t in Owners(fs.disk, fs.inodes, pending) && t != ROOT ::
      Untouched(fs.disk, disk', t)
    ensures MapThere(fs.(disk := disk')) && (MapOk(fs) ==> MapOk(fs.(disk := disk')))
  {
    LinkedSystem(fs.disk);
    hide Linked, MemSectors, Untouched, MapThere, MapOk;
    assert Untouched(fs.disk, disk', FREE_MAP);
    assert FREE_MAP in fs.files && fs.files[FREE_MAP].inode in fs.inodes by { MapFileThere(fs); }
    MapKept(fs, fs.(disk := disk'));
  }

  lemma MapFileThere(fs: Fs)
    requires MapThere(fs)
    ensures FREE_MAP in fs.files && fs.files[FREE_MAP].inode in fs.inodes
  {
  }

  lemma MoveOwner(linked: set<int>, mem: set<int>, pending: set<int>, a: int)
    requires a in pending && pending !! linked + mem
    ensures (linked + {a}) + mem + (pending - {a}) == linked + mem + pending && pending - {a} !! (linked + {a}) + mem
  {
  }

  /** The inode on the disk of which the inode at p is a copy has not changed. */
  ghost predicate MemSame(fs: Fs, disk': Disk, p: int)
    requires p in fs.inodes
  {
    var s := fs.inodes[p].sector;
    s in fs.disk && s in disk' && disk'[s] == fs.disk[s] && (fs.inodes[p].removed <==> s !in Linked(fs.disk))
  }

  lemma MemStays(fs: Fs, disk': Disk, extra: multiset<int>, pending: set<int>, p: int)
    requires Ok(fs, extra, pending) && p in fs.inodes
    requires forall t | t in Owners(fs.disk, fs.inodes, pending) && t != ROOT :: Untouched(fs.disk, disk', t)
    requires ROOT in disk' && disk'[ROOT] == fs.disk[ROOT]
    ensures MemSame(fs, disk', p) && fs.inodes[p].sector !in pending
  {
    hide FilesOk, RefsOk, SectorsOk, Linked, Untouched;
    assert fs.inodes[p].sector in MemSectors(fs.inodes);
    assert MemAt(fs.disk, Linked(fs.disk), fs.inodes[p]);
    SectorSame(fs, disk', Owners(fs.disk, fs.inodes, pending), fs.inodes[p].sector);
  }

  lemma SectorBounds(fs: Fs, own: set<int>, s: int)
    requires SectorsOk(fs.bits, fs.disk, fs.owner, own) && s in own
    ensures 0 <= s < 0x1_0000_0000
  {
    assert OwnerAt(fs.disk, fs.owner, |fs.bits|, s);
    OwnedUsed(fs.bits, fs.disk, fs.owner, own, s, s);
  }

  // ---- dir_remove ----

  lemma NamesRemoved(disk: Disk, disk': Disk, name: Name)
    requires DirOk(disk) && ROOT in disk' && disk'[ROOT] == disk[ROOT] && name in DirNames(disk)
    requires DirBytes(disk') == Directory.Remove(DirBytes(disk), name)
    ensures DirOk(disk') && DirNames(disk') == DirNames(disk) - {name}
    ensures Linked(disk') == Linked(disk) - {DirNames(disk)[name]}
  {
    hide Entries, DirBytes, Unique, Lookup;
    RemoveRefines(DirBytes(disk), name);
    var names := DirNames(disk);
    var s := names[name];
    assert (names - {name}).Values == names.Values - {s} by {
      forall t | t in names.Values && t != s ensures t in (names - {name}).Values {
        var n :| n in names && names[n] == t;
        assert (names - {name})[n] == t;
      }
    }
  }

  /** The entry of the inode at p is erased, and the inode marked. */
  lemma UnlinkedOk(fs: Fs, disk': Disk, p: int, extra: multiset<int>, pending: set<int>)
    requires Ok(fs, extra, pending) && p in fs.inodes
    requires SectorsOk(fs.bits, disk', fs.owner, Owners(fs.disk, fs.inodes, pending))
    requires forall t | t in Owners(fs.disk, fs.inodes, pending) && t != ROOT :: Untouched(fs.disk, disk', t)
    requires ROOT in disk' && disk'[ROOT] == fs.disk[ROOT] && DirOk(disk')
    requires Linked(disk') == Linked(fs.disk) - {fs.inodes[p].sector}
    ensures Ok(InodeRemove(fs.(disk := disk'), p), extra, pending)
  {
    hide RefsOk, SectorsOk, DirOk, Linked, Untouched, MemSectors;
    var s := fs.inodes[p].sector;
    var inodes' := fs.inodes[p := fs.inodes[p].(removed := true)];
    SameSectors(fs.inodes, p, inodes'[p]);
    forall q | q in fs.inodes ensures MemSame(fs, disk', q) && (q != p ==> fs.inodes[q].sector != s) {
      MemStays(fs, disk', extra, pending, q);
    }
    InMem(fs.inodes, p);
    hide MemOk;
    RelinkMemOk(fs.inodes, inodes', fs.open, fs.disk, disk', Linked(fs.disk), Linked(disk'));
    assert Linked(disk') + MemSectors(fs.inodes) == Linked(fs.disk) + MemSectors(fs.inodes);
    UnlinkRefs(fs, p, extra);
  }

  lemma InMem(inodes: Inodes, p: int)
    requires p in inodes
    ensures inodes[p].sector in MemSectors(inodes)
  {
  }

  lemma UnlinkRefs(fs: Fs, p: int, extra: multiset<int>)
    requires RefsOk(fs.inodes, fs.refs) && FilesOk(fs.files, fs.inodes, fs.refs, extra) && p in fs.inodes
    ensures var inodes' := fs.inodes[p := fs.inodes[p].(removed := true)];
      RefsOk(inodes', fs.refs) && FilesOk(fs.files, inodes', fs.refs, extra)
  {
  }
}
