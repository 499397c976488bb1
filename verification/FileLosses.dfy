/** How a restart loses sectors. */
module FileLosses {
  import opened Options
  import opened Bitmap
  import opened Bytes
  import opened Disk
  import opened Directory
  import opened MapFile
  import opened FileSys
  import opened FileSysInvariant
  import opened OpenInodes
  import opened Linking
  import opened NamedFiles
  import opened CreatingFiles
  import opened FileRuns
  import opened FileGuarantees
  import opened FileMount
  import opened FileSafety
  import opened FileConserved

  // ---- creating and opening write the map completely, or not at all ----

  lemma CreateInSyncs(fs: Fs, d: int, name: Name, length: Offset, bounces: Bounces)
    requires d in fs.inodes && fs.synced && CreateIn(fs, d, name, length, bounces).Some?
    requires CreateIn(fs, d, name, length, bounces).value.1
    ensures var fs2 := CreateIn(fs, d, name, length, bounces).value.0; fs2.synced && fs2.inodes == fs.inodes
  {
    hide WriteAt, Scan, Set, Claim, Clear, AddSlot, Filled, Slot, Encode, Sectors, Writable, BytesOf, FreeMapRelease;
    assert forall s, b, x :: GiveBack(s, b, x).Some? ==> !GiveBack(s, b, x).value.1;
    hide GiveBack;
    AllocateSyncs(fs, 1, bounces.first);
    var (fs1, a) := FreeMapAllocate(fs, 1, bounces.first);
    if a.Some? {
      var fs1' := fs1.(owner := fs1.owner[a.value := NOBODY]);
      AllocateSyncs(fs1', Sectors(length), bounces.second);
      hide FreeMapAllocate;
    }
  }

  lemma AllocateSyncs(fs: Fs, cnt: nat, bounce: bool)
    ensures var (fs1, a) := FreeMapAllocate(fs, cnt, bounce);
      fs1.inodes == fs.inodes && (a.Some? && fs.synced ==> fs1.synced)
  {
    hide WriteAt, Scan, Set, Encode, Writable;
  }

  lemma CreateSyncs(fs: Fs, name: Name, length: Offset, bounces: Bounces, root: Option<int>)
    requires Inv(fs) && Unused(fs, root) && fs.synced
    requires Create(fs, name, length, bounces, root).Some? && Create(fs, name, length, bounces, root).value.1
    ensures Create(fs, name, length, bounces, root).value.0.synced
  {
    OpenRoot(fs, root);
    var (fs1, r) := InodeOpen(fs, ROOT, root);
    var d := r.value;
    hide Inv, Ok, CreateIn, MapStays, Grown, MemSectors, Owners, InodeOpen;
    CreateInSyncs(fs1, d, name, length, bounces);
    RootNotRemoved(fs1, d);
    CloseRest(CreateIn(fs1, d, name, length, bounces).value.0, d);
    hide InodeClose;
  }

  // ---- a file that is removed while it is open ----

  const NAME: Name := [0x61]

  lemma CanMakeOne(fs: Fs)
    requires FirstUsed(fs.bits, 4) && 6 <= |fs.bits|
    ensures CanMake(fs, 512, PLENTY)
  {
    assert Sectors(512) == 1;
    hide Sectors, MapFits, Scan;
    NextFree(fs.bits, 4);
    NextFree(fs.bits[4 := true], 5);
    Fits(fs);
  }

  lemma SlotFree(fs: Fs)
    requires DirOk(fs.disk) && DirNames(fs.disk) == map[] && |DirBytes(fs.disk)| == 16 * ENTRY
    ensures AddSlot(DirBytes(fs.disk), NAME).Some?
  {
    var c := DirBytes(fs.disk);
    AddSucceeds(c, NAME);
    hide Lookup, AddSlot;
    EntriesHold(c, 0, NameIn(Slot(c, 0)));
    assert !Holds(c, 0, NameIn(Slot(c, 0)));
  }

  lemma MountedOnly(fs: Fs, sectors: int, mem: int)
    requires Formatted(fs, sectors, mem)
    ensures DirOk(fs.disk) && DirNames(fs.disk) == map[] && |DirBytes(fs.disk)| == 16 * ENTRY && |fs.bits| == sectors
    ensures fs.inodes.Keys == {mem} && fs.files.Keys == {FREE_MAP}
  {
    hide DirOk, DirNames, DirBytes;
  }

  lemma Creates(fs: Fs, sectors: int, mem: int, root: int)
    requires Inv(fs) && fs.synced && Formatted(fs, sectors, mem) && 6 <= sectors && FirstUsed(fs.bits, 4) && root != mem
    ensures Create(fs, NAME, 512, PLENTY, Some(root)).Some? && Create(fs, NAME, 512, PLENTY, Some(root)).value.1
    ensures var fs1 := Create(fs, NAME, 512, PLENTY, Some(root)).value.0;
      Inv(fs1) && fs1.synced && fs1.inodes.Keys == {mem} && fs1.files.Keys == {FREE_MAP} && NAME in DirNames(fs1.disk)
  {
    MountedOnly(fs, sectors, mem);
    SlotFree(fs);
    CanMakeOne(fs);
    assert 0 !in NAME && Unused(fs, Some(root)) && RootOpens(fs, Some(root));
    hide Inv, Formatted, AddSlot, DirBytes, Create, DirNames, CanMake, RootOpens, Grown, OthersUntouched, Owns, ByteOf,
      DirOk;
    CreateOk(fs, NAME, 512, PLENTY, Some(root));
    CreateSyncs(fs, NAME, 512, PLENTY, Some(root));
  }

  /** The file is opened, as number 7. */
  lemma Opens(fs: Fs, mem: int, root: int, file: int)
    requires Inv(fs) && fs.synced && fs.inodes.Keys == {mem} && fs.files.Keys == {FREE_MAP} && NAME in DirNames(fs.disk)
    requires root != mem && file != mem && file != root
    ensures Allowed(fs, DoOpen(NAME, Some(root), Some(file), 7)) && Open(fs, NAME, Some(root), Some(file), 7).Some?
    ensures var fs1 := Open(fs, NAME, Some(root), Some(file), 7).value.0;
      && Inv(fs1) && fs1.synced && NAME in DirNames(fs1.disk) && 7 in fs1.files && fs1.files[7].inode in fs1.inodes
      && fs1.inodes[fs1.files[7].inode].sector == DirNames(fs1.disk)[NAME]
  {
    assert Unused(fs, Some(root)) && Unused(fs, Some(file));
    assert RootOpens(fs, Some(root)) && CanRemove(fs, NAME, Some(file));
    hide Inv, Open, Grown, CanRemove, RootOpens, DirNames;
    OpenFileOk(fs, NAME, Some(root), Some(file), 7);
  }

  /** Removing it leaves its inode in memory, and removed. */
  lemma Removes(fs: Fs, root: int)
    requires Inv(fs) && fs.synced && NAME in DirNames(fs.disk) && root !in fs.inodes
    requires 7 in fs.files && fs.files[7].inode in fs.inodes
    requires fs.inodes[fs.files[7].inode].sector == DirNames(fs.disk)[NAME]
    ensures Allowed(fs, DoRemove(NAME, PLENTY, Some(root), None))
    ensures FileSys.Remove(fs, NAME, PLENTY, Some(root), None).Some?
    ensures var fs1 := FileSys.Remove(fs, NAME, PLENTY, Some(root), None).value.0;
      && Inv(fs1) && fs1.synced && fs.files[7].inode in fs1.inodes && fs1.inodes[fs.files[7].inode].removed
  {
    RemoveAllowed(fs, root, fs.files[7].inode);
    hide Inv, FileSys.Remove, DirNames, OthersUntouched, Owns, CanRemove, RootOpens, MemSectors, Unused, Allowed;
    RemoveOk(fs, NAME, PLENTY, Some(root), None);
    Nameless(fs, FileSys.Remove(fs, NAME, PLENTY, Some(root), None).value.0, fs.files[7].inode);
  }

  lemma RemoveAllowed(fs: Fs, root: int, p: int)
    requires NAME in DirNames(fs.disk) && root !in fs.inodes
    requires p in fs.inodes && fs.inodes[p].sector == DirNames(fs.disk)[NAME]
    ensures Unused(fs, Some(root)) && Unused(fs, None) && Allowed(fs, DoRemove(NAME, PLENTY, Some(root), None))
    ensures RootOpens(fs, Some(root)) && CanRemove(fs, NAME, None)
    ensures DirNames(fs.disk)[NAME] in MemSectors(fs.inodes)
  {
    hide DirNames;
    assert fs.inodes[p].sector in MemSectors(fs.inodes);
  }

  lemma Nameless(fs: Fs, fs1: Fs, p: int)
    requires Inv(fs) && Inv(fs1) && NAME in DirNames(fs.disk) && DirNames(fs1.disk) == DirNames(fs.disk) - {NAME}
    requires p in fs1.inodes && fs1.inodes[p].sector == DirNames(fs.disk)[NAME]
    ensures fs1.inodes[p].removed
  {
    hide DirNames, SectorsOk, RefsOk, FilesOk, FilesApart, MapOk;
    assert MemAt(fs1.disk, Linked(fs1.disk), fs1.inodes[p]);
  }

  lemma {:induction false} MorePermitted(fs: Fs, ops: seq<Op>, op: Op)
    requires Permitted(fs, ops) && Run(fs, ops).Some? && Sound(Run(fs, ops).value) && Allowed(Run(fs, ops).value, op)
    ensures Permitted(fs, ops + [op]) && Run(fs, ops + [op]) == Do(Run(fs, ops).value, op)
    decreases |ops|
  {
    hide Sound, Allowed, Do;
    var all := ops + [op];
    if ops == [] {
      assert all == [op] && all[1..] == [];
      if Do(fs, op).Some? { assert Permitted(Do(fs, op).value, all[1..]); }
    } else {
      assert all[1..] == ops[1..] + [op] && all[0] == ops[0];
      MorePermitted(Do(fs, ops[0]).value, ops[1..], op);
    }
  }

  lemma ReachesOn(fs: Fs, op: Op)
    requires Reachable(fs) && Sound(fs) && Allowed(fs, op) && Do(fs, op).Some?
    ensures Reachable(Do(fs, op).value)
  {
    hide Sound, Allowed, Do, Permitted, Run, Format;
    var sectors: int, disk: Disk, bounces: Bounces, mem: int, ops: seq<Op> :|
      ReachedBy(fs, sectors, disk, bounces, mem, ops);
    MorePermitted(Format(sectors, disk, bounces, mem).value, ops, op);
    assert ReachedBy(Do(fs, op).value, sectors, disk, bounces, mem, ops + [op]);
  }

  /** A call that loses nothing. */
  lemma Keeps(fs: Fs, op: Op)
    requires Reachable(fs) && Allowed(fs, op) && Conserved(fs) && !Loses(fs, op)
    ensures Sound(fs) && Do(fs, op).Some? && Reachable(Do(fs, op).value) && Conserved(Do(fs, op).value)
  {
    hide *;
    ConservedExactly(fs, op);
    ReachesOn(fs, op);
  }

  /** The file system is in a state that a run reaches, has lost no sector, and loses one by a restart. */
  ghost predicate LosesAtRestart(fs: Fs, mem: int) {
    var op := DoRestart(mem);
    && Reachable(fs) && Conserved(fs) && Allowed(fs, op) && Loses(fs, op)
    && Sound(fs) && Do(fs, op).Some? && !Conserved(Do(fs, op).value)
  }

  lemma {:induction false} SomeUnused(s: set<int>) returns (b: int)
    ensures forall x | x in s :: x < b
    decreases s
  {
    b := 0;
    if x :| x in s {
      b := SomeUnused(s - {x});
      assert forall y | y in s :: y == x || y in s - {x};
      if b <= x { b := x + 1; }
    }
  }

  lemma StartReachable(sectors: int, disk: Disk, mem: int)
    requires 2 <= sectors <= 4096 && (forall x | 0 <= x < sectors :: x in disk)
    requires Format(sectors, disk, PLENTY, mem).Some?
    ensures Reachable(Format(sectors, disk, PLENTY, mem).value)
  {
    hide Format;
    assert ReachedBy(Format(sectors, disk, PLENTY, mem).value, sectors, disk, PLENTY, mem, []);
  }

  lemma NoLoss(fs: Fs, root: int)
    requires AddSlot(DirBytes(fs.disk), NAME).Some? && root !in fs.inodes
    ensures var op := DoCreate(NAME, 512, PLENTY, Some(root)); Allowed(fs, op) && !Loses(fs, op)
  {
    hide AddSlot, DirBytes, CanMake, RootOpens;
    assert 0 !in NAME;
  }

  lemma DoesCreate(fs: Fs, root: int)
    requires Sound(fs) && Allowed(fs, DoCreate(NAME, 512, PLENTY, Some(root)))
    requires Create(fs, NAME, 512, PLENTY, Some(root)).Some?
    ensures Do(fs, DoCreate(NAME, 512, PLENTY, Some(root))) == Some(Create(fs, NAME, 512, PLENTY, Some(root)).value.0)
  {
    hide Create, Sound;
  }

  lemma FirstCreates(fs: Fs, sectors: int, mem: int, root: int)
    requires Reachable(fs) && Conserved(fs) && Formatted(fs, sectors, mem) && 6 <= sectors && FirstUsed(fs.bits, 4)
    requires fs.synced && root != mem
    ensures var op := DoCreate(NAME, 512, PLENTY, Some(root)); Allowed(fs, op) && Sound(fs) && Do(fs, op).Some?
    ensures var fs1 := Do(fs, DoCreate(NAME, 512, PLENTY, Some(root))).value;
      && Reachable(fs1) && Conserved(fs1) && fs1.synced && fs1.inodes.Keys == {mem} && fs1.files.Keys == {FREE_MAP}
      && NAME in DirNames(fs1.disk)
  {
    hide *;
    ReachableOk(fs);
    MountedOnly(fs, sectors, mem);
    SlotFree(fs);
    Creates(fs, sectors, mem, root);
    var op := DoCreate(NAME, 512, PLENTY, Some(root));
    NoLoss(fs, root);
    Keeps(fs, op);
    DoesCreate(fs, root);
  }

  lemma ThenOpens(fs: Fs, mem: int, root: int, file: int)
    requires Reachable(fs) && Conserved(fs) && fs.synced && fs.inodes.Keys == {mem} && fs.files.Keys == {FREE_MAP}
    requires NAME in DirNames(fs.disk) && root != mem && file != mem && file != root
    ensures var op := DoOpen(NAME, Some(root), Some(file), 7); Allowed(fs, op) && Sound(fs) && Do(fs, op).Some?
    ensures var fs1 := Do(fs, DoOpen(NAME, Some(root), Some(file), 7)).value;
      && Reachable(fs1) && Conserved(fs1) && fs1.synced && NAME in DirNames(fs1.disk)
      && 7 in fs1.files && fs1.files[7].inode in fs1.inodes
      && fs1.inodes[fs1.files[7].inode].sector == DirNames(fs1.disk)[NAME]
  {
    ReachableOk(fs);
    Opens(fs, mem, root, file);
    var op := DoOpen(NAME, Some(root), Some(file), 7);
    hide Inv, Reachable, Conserved, Allowed, Open, DirNames, Sound;
    Keeps(fs, op);
    assert Do(fs, op).value == Open(fs, NAME, Some(root), Some(file), 7).value.0;
  }

  lemma ThenRemoves(fs: Fs, root: int)
    requires Reachable(fs) && Conserved(fs) && fs.synced && NAME in DirNames(fs.disk) && root !in fs.inodes
    requires 7 in fs.files && fs.files[7].inode in fs.inodes
    requires fs.inodes[fs.files[7].inode].sector == DirNames(fs.disk)[NAME]
    ensures var op := DoRemove(NAME, PLENTY, Some(root), None); Allowed(fs, op) && Sound(fs) && Do(fs, op).Some?
    ensures var fs1 := Do(fs, DoRemove(NAME, PLENTY, Some(root), None)).value;
      && Reachable(fs1) && Conserved(fs1) && fs1.synced && exists p :: p in fs1.inodes && fs1.inodes[p].removed
  {
    ReachableOk(fs);
    Removes(fs, root);
    var op := DoRemove(NAME, PLENTY, Some(root), None);
    hide Inv, Reachable, Conserved, Allowed, FileSys.Remove, DirNames, Sound;
    Keeps(fs, op);
    assert Do(fs, op).value == FileSys.Remove(fs, NAME, PLENTY, Some(root), None).value.0;
  }

  lemma RestartNow(fs: Fs, mem: int)
    requires Reachable(fs) && Conserved(fs) && fs.synced && exists p :: p in fs.inodes && fs.inodes[p].removed
    ensures LosesAtRestart(fs, mem)
  {
    hide Reachable, Conserved, Do, Sound, AddSlot, DirBytes, CanMake, RootOpens;
    assert Allowed(fs, DoRestart(mem)) && Loses(fs, DoRestart(mem));
    hide Allowed, Loses;
    ConservedExactly(fs, DoRestart(mem));
  }

  /** A file with a sector of data is created, opened and removed; then a restart loses its sectors. */
  lemma RestartLoses(sectors: int, disk: Disk, mem: int)
    requires 6 <= sectors <= 4096 && forall x | 0 <= x < sectors :: x in disk
    ensures exists fs :: LosesAtRestart(fs, mem)
  {
    hide *;
    SmallFormat(sectors, disk, mem);
    FormatOk(sectors, disk, PLENTY, mem);
    FormatConserves(sectors, disk, PLENTY, mem);
    StartReachable(sectors, disk, mem);
    var fs0 := Format(sectors, disk, PLENTY, mem).value;
    FirstCreates(fs0, sectors, mem, mem + 1);
    var fs1 := Do(fs0, DoCreate(NAME, 512, PLENTY, Some(mem + 1))).value;
    ThenOpens(fs1, mem, mem + 1, mem + 2);
    var fs2 := Do(fs1, DoOpen(NAME, Some(mem + 1), Some(mem + 2), 7)).value;
    var root := SomeUnused(fs2.inodes.Keys);
    ThenRemoves(fs2, root);
    RestartNow(Do(fs2, DoRemove(NAME, PLENTY, Some(root), None)).value, mem);
  }
}
