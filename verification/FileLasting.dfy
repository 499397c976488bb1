/** How long files last. */
module FileLasting {
  import opened Options
  import opened Bitmap
  import opened Bytes
  import opened Disk
  import opened Directory
  import opened FileSys
  import opened FileSysInvariant
  import opened OpenInodes
  import opened Linking
  import opened NamedFiles
  import opened CreatingFiles
  import opened FileRuns
  import opened FileGuarantees
  import opened FileMount
  import opened FileSafety

  // ---- open files outlive everything but their own last close ----

  /** File f has the inode it had, and the sectors of that inode are as they were. */
  ghost predicate Survives(fs: Fs, fs': Fs, f: int)
    requires f in fs.files && fs.files[f].inode in fs.inodes
  {
    var p := fs.files[f].inode;
    && f in fs'.files && fs'.files[f].inode == p && p in fs'.inodes && SameInode(fs.inodes[p], fs'.inodes[p])
    && Untouched(fs.disk, fs'.disk, fs.inodes[p].sector)
  }

  lemma SettledSurvives(fs: Fs, fs': Fs, f: int)
    requires Inv(fs) && IsUserFile(fs, f) && f in fs'.files && fs'.files[f] == fs.files[f]
    requires Grown(fs.inodes, fs'.inodes)
    requires OthersUntouched(fs, fs'.disk) || OnlyMap(fs.disk, fs'.disk)
    ensures fs.files[f].inode in fs.inodes && Survives(fs, fs', f)
  {
    FileOwned(fs, f);
    FileInode(fs, f);
    if OnlyMap(fs.disk, fs'.disk) { OnlyMapSpares(fs, fs'.disk, SectorOfFile(fs, f)); }
    hide Inv, Owners, OnlyMap;
  }

  lemma OnlyMapSpares(fs: Fs, disk': Disk, s: int)
    requires Inv(fs) && OnlyMap(fs.disk, disk') && s in Owners(fs.disk, fs.inodes, {}) && s != FREE_MAP
    ensures Untouched(fs.disk, disk', s)
  {
    hide *;
    SystemOwned(fs);
    SectorsOf(fs, multiset{}, {}) by { OkPart(fs); }
    OnlyMapUntouched(fs.bits, fs.disk, fs.owner, Owners(fs.disk, fs.inodes, {}), disk', s);
  }

  lemma NamesSurvive(fs: Fs, op: Op, f: int)
    requires Inv(fs) && Allowed(fs, op) && OnNames(op) && Sound(fs) && IsUserFile(fs, f)
    ensures Do(fs, op).Some? && Survives(fs, Do(fs, op).value, f)
  {
    hide Inv, Create, FileSys.Remove, Open, Unused, CanMake, Grown, Removed, Created, Leak, CanRemove, Opened, AddSlot,
      RootOpens,
      OthersUntouched, Survives, OnlyMap;
    MapSame(fs.disk);
    match op
    case DoCreate(name, length, bounces, root) =>
      CreateOk(fs, name, length, bounces, root);
      CreateKeeps(fs, Do(fs, op).value, name, length);
      SettledSurvives(fs, Do(fs, op).value, f);
    case DoRemove(name, bounces, root, mem) =>
      RemoveOk(fs, name, bounces, root, mem);
      if Removed(fs, Do(fs, op).value, name) { RemoveKeeps(fs, Do(fs, op).value, name); }
      SettledSurvives(fs, Do(fs, op).value, f);
    case DoOpen(name, root, mem, g) =>
      OpenFileOk(fs, name, root, mem, g);
      if Opened(fs, Do(fs, op).value, name, g) { OpenKeeps(fs, Do(fs, op).value, name, g, f); }
      SettledSurvives(fs, Do(fs, op).value, f);
  }

  lemma CreateKeeps(fs: Fs, fs': Fs, name: Name, length: Offset)
    ensures Created(fs, fs', name, length, NewSector(fs.bits)) || Leak(fs, fs', length) ==>
      fs'.files == fs.files && OthersUntouched(fs, fs'.disk)
  {
    hide DirNames, Owns, OthersUntouched, NewSector;
  }

  lemma RemoveKeeps(fs: Fs, fs': Fs, name: Name)
    requires Removed(fs, fs', name)
    ensures fs'.files == fs.files
  {
  }

  lemma OpenKeeps(fs: Fs, fs': Fs, name: Name, g: int, f: int)
    requires Opened(fs, fs', name, g) && f in fs.files && f != g
    ensures f in fs'.files && fs'.files[f] == fs.files[f]
  {
  }

  predicate WritesTo(fs: Fs, op: Op, f: int)
    requires f in fs.files
  {
    op.DoWrite? && op.f in fs.files && fs.files[op.f].inode == fs.files[f].inode
  }

  lemma ReopenSurvives(fs: Fs, g: int, h: int, f: int)
    requires Inv(fs) && Sound(fs) && f in fs.files && g in fs.files && h !in fs.files
    ensures Survives(fs, Reopen(fs, g, h), f)
  {
    hide Inv, Untouched;
    SameUntouched(fs.disk, SectorOfFile(fs, f));
  }

  lemma CloseSurvives(fs: Fs, g: int, bounces: Bounces, f: int)
    requires Inv(fs) && Sound(fs) && IsUserFile(fs, f) && IsUserFile(fs, g) && g != f
    ensures Close(fs, g, bounces).Some? && Survives(fs, Close(fs, g, bounces).value, f)
  {
    hide Inv, Untouched, Close, Owns, OnlyMap, Owners;
    FileOwned(fs, f);
    FileInode(fs, f);
    CloseFileOk(fs, g, bounces);
    OnlyMapSpares(fs, Close(fs, g, bounces).value.disk, SectorOfFile(fs, f));
    ClosedKeeps(fs, Close(fs, g, bounces).value, g, f);
  }

  lemma DenySurvives(fs: Fs, g: int, f: int)
    requires Inv(fs) && Sound(fs) && f in fs.files && IsUserFile(fs, g)
    ensures DenyWrite(fs, g).Some? && Survives(fs, DenyWrite(fs, g).value, f)
    ensures AllowWrite(fs, g).Some? && Survives(fs, AllowWrite(fs, g).value, f)
  {
    hide Inv, Untouched;
    SameUntouched(fs.disk, SectorOfFile(fs, f));
    DenyOk(fs, g);
    AllowOk(fs, g);
  }

  lemma SeekSurvives(fs: Fs, g: int, pos: int, f: int)
    requires Inv(fs) && Sound(fs) && f in fs.files && g in fs.files
    ensures Survives(fs, Seek(fs, g, pos), f)
  {
    hide Inv, Untouched;
    SameUntouched(fs.disk, SectorOfFile(fs, f));
  }

  lemma ReadSurvives(fs: Fs, g: int, size: int, f: int)
    requires Inv(fs) && Sound(fs) && f in fs.files && g in fs.files
    ensures Survives(fs, Read(fs, g, size).0, f)
  {
    hide Inv, Untouched, Survives, Content;
    ReadIs(fs, g, size);
    SeekSurvives(fs, g, fs.files[g].pos + |Read(fs, g, size).1|, f);
  }

  lemma WriteSurvives(fs: Fs, g: int, bs: seq<Byte>, f: int)
    requires Inv(fs) && Sound(fs) && f in fs.files && IsUserFile(fs, g) && fs.files[g].inode != fs.files[f].inode
    ensures Survives(fs, Write(fs, g, bs).0, f)
  {
    WriteFileOk(fs, g, bs);
    OtherSector(fs, f, g);
    hide Inv, Untouched, Write, Owners, BytesOf, Splice;
  }

  lemma FilesSurvive(fs: Fs, op: Op, f: int)
    requires Inv(fs) && Allowed(fs, op) && !OnNames(op) && Sound(fs) && IsUserFile(fs, f) && !Ends(op, f)
    requires !WritesTo(fs, op, f)
    ensures Do(fs, op).Some? && Survives(fs, Do(fs, op).value, f)
  {
    hide Inv, Close, Reopen, DenyWrite, AllowWrite, Read, Write, Seek, Survives;
    match op
    case DoReopen(g, h) => ReopenSurvives(fs, g, h, f);
    case DoClose(g, bounces) => CloseSurvives(fs, g, bounces, f);
    case DoDeny(g) => DenySurvives(fs, g, f);
    case DoAllow(g) => DenySurvives(fs, g, f);
    case DoRead(g, size) => ReadSurvives(fs, g, size, f);
    case DoWrite(g, bs) => WriteSurvives(fs, g, bs, f);
    case DoSeek(g, pos) => SeekSurvives(fs, g, pos, f);
  }

  /** What ends the life of open file f. */
  predicate Ends(op: Op, f: int) {
    op.DoRestart? || (op.DoClose? && op.f == f)
  }

  lemma ClosedKeeps(fs: Fs, fs': Fs, g: int, f: int)
    requires g in fs.files && fs.files[g].inode in fs.inodes && FileClosed(fs, fs', g) && Inv(fs') && f in fs.files
    requires f != g
    ensures f in fs'.files && fs'.files[f] == fs.files[f] && fs.files[f].inode in fs'.inodes
    ensures fs.files[f].inode in fs.inodes
    ensures SameInode(fs.inodes[fs.files[f].inode], fs'.inodes[fs.files[f].inode])
  {
    FileInode(fs', f);
  }

  lemma OtherSector(fs: Fs, f: int, g: int)
    requires Inv(fs) && f in fs.files && g in fs.files && fs.files[f].inode != fs.files[g].inode
    ensures Sound(fs) && SectorOfFile(fs, f) != SectorOfFile(fs, g)
    ensures SectorOfFile(fs, f) in Owners(fs.disk, fs.inodes, {})
  {
    FilesThere(fs);
    FileOwned(fs, f);
  }

  /** File f has the inode, the length and the bytes that it had, and its sectors are marked used. */
  ghost predicate SameFileAs(fs: Fs, fs': Fs, f: int)
    requires Sound(fs) && f in fs.files
  {
    var p := fs.files[f].inode;
    && f in fs'.files && fs'.files[f].inode == p && p in fs'.inodes && SameInode(fs.inodes[p], fs'.inodes[p])
    && FileBytes(fs', f) == FileBytes(fs, f)
    && (forall x | Owns(fs.disk, fs.inodes[p].sector, x) :: 0 <= x < |fs'.bits| && fs'.bits[x])
  }

  /** Whatever is done, be it that the file is removed by name, an open file keeps its inode, its length and its
      bytes, and its sectors stay marked used, until it is closed; only a write to the same inode changes the
      bytes. */
  lemma FileSurvives(fs: Fs, op: Op, f: int)
    requires Inv(fs) && Allowed(fs, op) && IsUserFile(fs, f) && !Ends(op, f) && Sound(fs) && !WritesTo(fs, op, f)
    ensures Do(fs, op).Some? && Inv(Do(fs, op).value) && Sound(Do(fs, op).value)
    ensures var fs' := Do(fs, op).value;
      SameFileAs(fs, fs', f) && Untouched(fs.disk, fs'.disk, fs.inodes[fs.files[f].inode].sector)
  {
    DoOk(fs, op);
    FilesThere(Do(fs, op).value);
    hide Inv, Do, Allowed, Untouched;
    if OnNames(op) { NamesSurvive(fs, op, f); } else { FilesSurvive(fs, op, f); }
    SurvivesMeans(fs, Do(fs, op).value, f);
  }

  /** No operation of the run closes file f, restarts, or writes to f's inode. */
  predicate Undisturbed(fs: Fs, ops: seq<Op>, f: int)
    requires Permitted(fs, ops)
    decreases |ops|
  {
    ops == [] || (!Ends(ops[0], f) && f in fs.files && !WritesTo(fs, ops[0], f)
                  && (Do(fs, ops[0]).Some? ==> Undisturbed(Do(fs, ops[0]).value, ops[1..], f)))
  }

  /** So it is over whole runs. */
  lemma {:induction false} FileOutlives(fs: Fs, ops: seq<Op>, f: int)
    requires Inv(fs) && IsUserFile(fs, f) && Permitted(fs, ops) && Undisturbed(fs, ops, f)
    ensures Sound(fs) && Run(fs, ops).Some? && SameFileAs(fs, Run(fs, ops).value, f)
    decreases |ops|
  {
    FilesThere(fs);
    if ops == [] {
      SurvivesItself(fs, f);
    } else {
      FileSurvives(fs, ops[0], f);
      var fs1 := Do(fs, ops[0]).value;
      hide Inv, Do, Allowed, SameInode, Owns, Untouched, FileBytes;
      FileOutlives(fs1, ops[1..], f);
      OutlivesTwice(fs, fs1, Run(fs1, ops[1..]).value, f);
    }
  }

  lemma SurvivesItself(fs: Fs, f: int)
    requires Inv(fs) && f in fs.files && Sound(fs)
    ensures SameFileAs(fs, fs, f)
  {
    SameUntouched(fs.disk, SectorOfFile(fs, f));
    hide Inv, Untouched, Owns, BytesOf;
    SurvivesMeans(fs, fs, f);
  }

  lemma OutlivesTwice(fs: Fs, fs1: Fs, fs2: Fs, f: int)
    requires Inv(fs) && f in fs.files && f in fs1.files && Sound(fs) && Sound(fs1) && SameFileAs(fs, fs1, f)
    requires SameFileAs(fs1, fs2, f)
    requires Untouched(fs.disk, fs1.disk, fs.inodes[fs.files[f].inode].sector)
    ensures SameFileAs(fs, fs2, f)
  {
    FileOwned(fs, f);
    hide Inv, Untouched, Owns, Owners, BytesOf;
    UntouchedSame(fs.disk, fs1.disk, SectorOfFile(fs, f));
  }

  lemma SurvivesMeans(fs: Fs, fs': Fs, f: int)
    requires Inv(fs) && Inv(fs') && f in fs.files && Sound(fs) && Survives(fs, fs', f)
    ensures SameFileAs(fs, fs', f)
  {
    FileOwned(fs, f);
    FileOwned(fs', f);
    var s := SectorOfFile(fs, f);
    SectorsPart(fs', multiset{});
    hide Inv, Owners, Owns, Untouched, Content, SectorsOk, DataOk;
    UntouchedSame(fs.disk, fs'.disk, s);
    forall x | Owns(fs.disk, s, x) ensures 0 <= x < |fs'.bits| && fs'.bits[x] {
      OwnedUsed(fs'.bits, fs'.disk, fs'.owner, Owners(fs'.disk, fs'.inodes, {}), s, x);
    }
  }

  // ---- files with a name ----

  /** The bytes of the file of that name. */
  ghost function NamedBytes(disk: Disk, name: Name): seq<Byte>
    requires name in DirNames(disk)
  {
    var s := DirNames(disk)[name];
    if s in disk && disk[s].Node? then Content(disk, disk[s].start, disk[s].length) else []
  }

  /** The file of that name is where it was, as long as it was, and has the bytes that it had. */
  ghost predicate SameNamed(fs: Fs, fs': Fs, name: Name)
    requires name in DirNames(fs.disk)
  {
    && name in DirNames(fs'.disk) && DirNames(fs'.disk)[name] == DirNames(fs.disk)[name]
    && NamedBytes(fs'.disk, name) == NamedBytes(fs.disk, name)
  }

  /** What may change the file of that name: its removal, and writing by way of an open file. */
  predicate Changes(fs: Fs, op: Op, name: Name) {
    || (op.DoRemove? && op.name == name)
    || (op.DoWrite? && op.f in fs.files && fs.files[op.f].inode in fs.inodes && name in DirNames(fs.disk)
        && fs.inodes[fs.files[op.f].inode].sector == DirNames(fs.disk)[name])
  }

  lemma SameNamedWhen(fs: Fs, fs': Fs, name: Name)
    requires Inv(fs) && name in DirNames(fs.disk) && name in DirNames(fs'.disk)
    requires DirNames(fs'.disk)[name] == DirNames(fs.disk)[name]
    requires Untouched(fs.disk, fs'.disk, DirNames(fs.disk)[name])
    ensures SameNamed(fs, fs', name)
  {
    NameIsOwner(fs, name, multiset{});
    hide Inv, DirNames, Untouched, Owners, Content;
    UntouchedSame(fs.disk, fs'.disk, DirNames(fs.disk)[name]);
  }

  lemma OthersKeepName(fs: Fs, fs': Fs, name: Name)
    requires Inv(fs) && name in DirNames(fs.disk) && name in DirNames(fs'.disk)
    requires DirNames(fs'.disk)[name] == DirNames(fs.disk)[name]
    requires OthersUntouched(fs, fs'.disk)
    ensures SameNamed(fs, fs', name)
  {
    NameIsOwner(fs, name, multiset{});
    TouchedNot(fs, fs'.disk, DirNames(fs.disk)[name]);
    hide Inv, DirNames, Untouched, Owners, OthersUntouched, SameNamed;
    SameNamedWhen(fs, fs', name);
  }

  lemma OnlyMapKeepsName(fs: Fs, fs': Fs, name: Name)
    requires Inv(fs) && name in DirNames(fs.disk) && OnlyMap(fs.disk, fs'.disk)
    ensures SameNamed(fs, fs', name)
  {
    hide *;
    NameIsOwner(fs, name, multiset{}) by { OkPart(fs); }
    OnlyMapSpares(fs, fs'.disk, DirNames(fs.disk)[name]);
    SystemOwned(fs);
    SectorsOf(fs, multiset{}, {}) by { OkPart(fs); }
    OnlyMapDir(fs.bits, fs.disk, fs.owner, Owners(fs.disk, fs.inodes, {}), fs'.disk);
    SameNamedWhen(fs, fs', name);
  }

  lemma CreatedKeepsName(fs: Fs, fs': Fs, created: Name, length: Offset, name: Name)
    requires Inv(fs) && name in DirNames(fs.disk)
    requires Created(fs, fs', created, length, NewSector(fs.bits)) || Leak(fs, fs', length)
    ensures SameNamed(fs, fs', name)
  {
    hide Inv, DirNames, Owns, OthersUntouched, NewSector, SameNamed, ByteOf;
    OthersKeepName(fs, fs', name);
  }

  lemma RemovedKeepsName(fs: Fs, fs': Fs, removed: Name, name: Name)
    requires Inv(fs) && name in DirNames(fs.disk) && name != removed && Removed(fs, fs', removed)
    requires OthersUntouched(fs, fs'.disk)
    ensures SameNamed(fs, fs', name)
  {
    hide Inv, DirNames, Owns, OthersUntouched, SameNamed, MemSectors, Grown;
    OthersKeepName(fs, fs', name);
  }

  lemma WrittenKeepsName(fs: Fs, f: int, bs: seq<Byte>, name: Name)
    requires Inv(fs) && IsUserFile(fs, f) && Sound(fs) && name in DirNames(fs.disk)
    requires fs.inodes[fs.files[f].inode].sector != DirNames(fs.disk)[name]
    ensures SameNamed(fs, Write(fs, f, bs).0, name)
  {
    WriteFileOk(fs, f, bs);
    FileInode(fs, f);
    NameIsOwner(fs, name, multiset{});
    SystemOwned(fs);
    hide Inv, DirNames, DirBytes, Untouched, Owners, Write, BytesOf, Splice, SameNamed;
    var fs' := Write(fs, f, bs).0;
    UntouchedSame(fs.disk, fs'.disk, ROOT);
    SameDirOk(fs.disk, fs'.disk);
    SameNamedWhen(fs, fs', name);
  }

  lemma NamesKeepName(fs: Fs, op: Op, name: Name)
    requires Inv(fs) && Allowed(fs, op) && OnNames(op) && Sound(fs) && name in DirNames(fs.disk)
    requires !Changes(fs, op, name)
    ensures Do(fs, op).Some? && SameNamed(fs, Do(fs, op).value, name)
  {
    hide Inv, Create, FileSys.Remove, Open, Unused, CanMake, Grown, Removed, Created, Leak, CanRemove, Opened, AddSlot,
      RootOpens,
      OthersUntouched, SameNamed, OnlyMap, DirNames;
    MapSame(fs.disk);
    match op
    case DoCreate(created, length, bounces, root) =>
      CreateOk(fs, created, length, bounces, root);
      var fs' := Do(fs, op).value;
      if Created(fs, fs', created, length, NewSector(fs.bits)) || Leak(fs, fs', length) {
        CreatedKeepsName(fs, fs', created, length, name);
      } else {
        OnlyMapKeepsName(fs, fs', name);
      }
    case DoRemove(removed, bounces, root, mem) =>
      RemoveOk(fs, removed, bounces, root, mem);
      var fs' := Do(fs, op).value;
      if Removed(fs, fs', removed) && OthersUntouched(fs, fs'.disk) {
        RemovedKeepsName(fs, fs', removed, name);
      } else {
        OnlyMapKeepsName(fs, fs', name);
      }
    case DoOpen(found, root, mem, g) =>
      OpenFileOk(fs, found, root, mem, g);
      OnlyMapKeepsName(fs, Do(fs, op).value, name);
  }

  lemma FilesKeepName(fs: Fs, op: Op, name: Name)
    requires Inv(fs) && Allowed(fs, op) && !OnNames(op) && Sound(fs) && name in DirNames(fs.disk)
    requires !Changes(fs, op, name)
    ensures Do(fs, op).Some? && SameNamed(fs, Do(fs, op).value, name)
  {
    if op.DoClose? {
      CloseKeepsName(fs, op.f, op.bounces, name);
    } else if op.DoWrite? {
      WrittenKeepsName(fs, op.f, op.bytes, name);
    } else {
      hide *;
      DoOk(fs, op);
      StillOnDisk(fs, op);
      OnlyMapKeepsName(fs, Do(fs, op).value, name);
    }
  }

  lemma CloseKeepsName(fs: Fs, f: int, bounces: Bounces, name: Name)
    requires Inv(fs) && Sound(fs) && IsUserFile(fs, f) && name in DirNames(fs.disk)
    ensures Close(fs, f, bounces).Some? && SameNamed(fs, Close(fs, f, bounces).value, name)
  {
    hide Inv, SameNamed, OnlyMap, DirNames, Close;
    CloseFileOk(fs, f, bounces);
    OnlyMapKeepsName(fs, Close(fs, f, bounces).value, name) by { ClosedDisk(fs, Close(fs, f, bounces).value, f); }
  }

  /** The calls on files that write no data leave all of it. */
  lemma StillOnDisk(fs: Fs, op: Op)
    requires Inv(fs) && Allowed(fs, op) && !OnNames(op) && !op.DoClose? && !op.DoWrite? && Sound(fs)
    requires Do(fs, op).Some?
    ensures OnlyMap(fs.disk, Do(fs, op).value.disk)
  {
    MapSame(fs.disk);
    hide Inv, Reopen, DenyWrite, AllowWrite, OnlyMap, Restart;
    match op
    case DoReopen(f, g) => ReopenDisk(fs, f, g);
    case DoDeny(f) => DenyDisk(fs, f);
    case DoAllow(f) => DenyDisk(fs, f);
    case DoRead(f, size) =>
    case DoSeek(f, pos) =>
    case DoRestart(mem) => RestartOk(fs, mem);
  }

  lemma ReopenDisk(fs: Fs, f: int, g: int)
    requires f in fs.files && fs.files[f].inode in fs.inodes
    ensures OnlyMap(fs.disk, Reopen(fs, f, g).disk)
  {
    MapSame(fs.disk);
  }

  lemma ClosedDisk(fs: Fs, fs': Fs, f: int)
    requires f in fs.files && fs.files[f].inode in fs.inodes && FileClosed(fs, fs', f)
    ensures OnlyMap(fs.disk, fs'.disk)
  {
  }

  lemma DenyDisk(fs: Fs, f: int)
    requires f in fs.files && fs.files[f].inode in fs.inodes
    ensures DenyWrite(fs, f).Some? ==> OnlyMap(fs.disk, DenyWrite(fs, f).value.disk)
    ensures AllowWrite(fs, f).Some? ==> OnlyMap(fs.disk, AllowWrite(fs, f).value.disk)
  {
    MapSame(fs.disk);
  }

  /** A file that has a name keeps its sector, its length and its bytes, whether anybody has it open or not, and over
      restarts too, unless it is removed by that name or written to. */
  lemma NameSurvives(fs: Fs, op: Op, name: Name)
    requires Inv(fs) && Allowed(fs, op) && name in DirNames(fs.disk) && !Changes(fs, op, name)
    ensures Sound(fs) && Do(fs, op).Some? && Inv(Do(fs, op).value) && SameNamed(fs, Do(fs, op).value, name)
  {
    DoOk(fs, op);
    hide *;
    if OnNames(op) { NamesKeepName(fs, op, name); } else { FilesKeepName(fs, op, name); }
  }

  /** No operation of the run changes the file of that name. */
  predicate Unchanged(fs: Fs, ops: seq<Op>, name: Name)
    requires Permitted(fs, ops)
    decreases |ops|
  {
    ops == [] || (!Changes(fs, ops[0], name) &&
         (Do(fs, ops[0]).Some? ==> Unchanged(Do(fs, ops[0]).value, ops[1..], name)))
  }

  /** So it is over whole runs. */
  lemma {:induction false} NameOutlives(fs: Fs, ops: seq<Op>, name: Name)
    requires Inv(fs) && Permitted(fs, ops) && name in DirNames(fs.disk) && Unchanged(fs, ops, name)
    ensures Run(fs, ops).Some? && SameNamed(fs, Run(fs, ops).value, name)
    decreases |ops|
  {
    if ops != [] {
      NameSurvives(fs, ops[0], name);
      hide Inv, Do, Allowed, Changes, DirNames, NamedBytes;
      NameOutlives(Do(fs, ops[0]).value, ops[1..], name);
    }
  }

  // ---- creating and removing ----

  /** Removing a file that was just created brings back the free map and the names, when nobody has opened it. */
  lemma CreateThenRemove(fs: Fs, name: Name, length: Offset, bounces: Bounces, root: Option<int>, bounces': Bounces,
                         root': Option<int>,
                         mem: Option<int>)
    requires Reachable(fs) && 0 !in name && Unused(fs, root) && Unused(fs, root') && Unused(fs, mem) && mem.Some?
    requires mem != root'
    requires RootOpens(fs, root') && Create(fs, name, length, bounces, root).Some?
    requires Create(fs, name, length, bounces, root).value.1
    ensures var fs1 := Create(fs, name, length, bounces, root).value.0;
      && FileSys.Remove(fs1, name, bounces', root', mem).Some?
      && FileSys.Remove(fs1, name, bounces', root', mem).value.1
      && var fs2 := FileSys.Remove(fs1, name, bounces', root', mem).value.0;
         fs2.bits == fs.bits && DirNames(fs2.disk) == DirNames(fs.disk) && fs2.files == fs.files && Inv(fs2)
  {
    hide *;
    ReachableOk(fs);
    CreateOk(fs, name, length, bounces, root);
    var fs1 := Create(fs, name, length, bounces, root).value.0;
    StillCanRemove(fs, fs1, name, length, NewSector(fs.bits), root', mem);
    RemoveOk(fs1, name, bounces', root', mem);
    RemovedAgain(fs, fs1, FileSys.Remove(fs1, name, bounces', root', mem).value.0, name, length, NewSector(fs.bits));
  }

  lemma StillCanRemove(fs: Fs, fs1: Fs, name: Name, length: Offset, a: int, root: Option<int>, mem: Option<int>)
    requires Settled(fs, fs1) && Created(fs, fs1, name, length, a) && mem.Some? && Unused(fs, root) && Unused(fs, mem)
    requires RootOpens(fs, root) && mem != root
    ensures Unused(fs1, root) && Unused(fs1, mem) && CanRemove(fs1, name, mem) && RootOpens(fs1, root)
    ensures (root.Some? ==> mem != root)
  {
    SameMem(fs, fs1);
    hide MemSectors, Grown, Owns, OthersUntouched, DirNames;
  }

  lemma RemovedAgain(fs: Fs, fs1: Fs, fs2: Fs, name: Name, length: Offset, a: int)
    requires Inv(fs) && Settled(fs, fs1) && Created(fs, fs1, name, length, a) && Removed(fs1, fs2, name)
    ensures fs2.bits == fs.bits && DirNames(fs2.disk) == DirNames(fs.disk) && fs2.files == fs.files
  {
    SameMem(fs, fs1);
    NewIsUnused(fs, fs1, name, length, a);
    NamesBack(DirNames(fs.disk), name, a);
    hide Inv, MemSectors, Grown, Owns, OthersUntouched, DirNames, Settled, ByteOf;
    BitsBack(fs, fs1, fs2, name, length, a);
  }

  lemma NamesBack(names: Names, name: Name, a: int)
    requires name !in names
    ensures names[name := a] - {name} == names
  {
  }

  lemma BitsBack(fs: Fs, fs1: Fs, fs2: Fs, name: Name, length: Offset, a: int)
    requires Created(fs, fs1, name, length, a) && Removed(fs1, fs2, name) && a !in MemSectors(fs1.inodes)
    ensures fs2.bits == fs.bits
  {
    hide MemSectors, Grown, Owns, OthersUntouched, DirNames, ByteOf;
    assert DirNames(fs1.disk)[name] == a;
    forall x | 0 <= x < |fs.bits| ensures fs2.bits[x] == fs.bits[x] {}
  }

  lemma SameMem(fs: Fs, fs1: Fs)
    requires Settled(fs, fs1)
    ensures MemSectors(fs1.inodes) == MemSectors(fs.inodes)
  {
    forall s ensures s in MemSectors(fs1.inodes) <==> s in MemSectors(fs.inodes) {
      if s in MemSectors(fs.inodes) { var p :|
        p in fs.inodes && fs.inodes[p].sector == s; assert fs1.inodes[p].sector == s; }
      if s in MemSectors(fs1.inodes) { var p :|
        p in fs1.inodes && fs1.inodes[p].sector == s; assert fs.inodes[p].sector == s; }
    }
  }

  lemma NewIsUnused(fs: Fs, fs1: Fs, name: Name, length: Offset, a: int)
    requires Inv(fs) && Created(fs, fs1, name, length, a)
    ensures a !in MemSectors(fs.inodes)
  {
    if a in MemSectors(fs.inodes) {
      OwnerUsed(fs, Owners(fs.disk, fs.inodes, {}), a);
      assert Owns(fs1.disk, a, a);
    }
  }
}
