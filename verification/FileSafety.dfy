/** The file system over whole runs, from the moment it is formatted. */
module FileSafety {
  import opened Options
  import opened Bitmap
  import opened Bytes
  import opened Disk
  import opened Directory
  import opened FileSys
  import opened FileSysInvariant
  import opened OpenInodes
  import opened Linking
  import opened NamedFiles
  import opened CreatingFiles
  import opened FileRuns
  import opened FileGuarantees
  import opened FileMount

  function First(r: Option<(Fs, bool)>): Option<Fs> {
    match r
    case None => None
    case Some((fs, _)) => Some(fs)
  }

  /** Each open file has an inode in memory. */
  predicate Sound(fs: Fs) {
    forall f | f in fs.files :: fs.files[f].inode in fs.inodes && 0 <= fs.files[f].pos
  }

  /** The state after an operation; None where an assertion fails. */
  function Do(fs: Fs, op: Op): Option<Fs>
    requires Allowed(fs, op) && Sound(fs)
  {
    match op
    case DoCreate(name, length, bounces, root) => First(Create(fs, name, length, bounces, root))
    case DoRemove(name, bounces, root, mem) => First(FileSys.Remove(fs, name, bounces, root, mem))
    case DoOpen(name, root, mem, f) => First(Open(fs, name, root, mem, f))
    case DoReopen(f, g) => Some(Reopen(fs, f, g))
    case DoClose(f, bounces) => Close(fs, f, bounces)
    case DoDeny(f) => DenyWrite(fs, f)
    case DoAllow(f) => AllowWrite(fs, f)
    case DoRead(f, size) => Some(Read(fs, f, size).0)
    case DoWrite(f, bs) => Some(Write(fs, f, bs).0)
    case DoSeek(f, pos) => Some(Seek(fs, f, pos))
    case DoRestart(mem) => Restart(fs, mem)
  }

  lemma FilesThere(fs: Fs)
    requires Inv(fs)
    ensures Sound(fs)
  {
  }

  predicate OnNames(op: Op) {
    op.DoCreate? || op.DoRemove? || op.DoOpen?
  }

  lemma DoNamesOk(fs: Fs, op: Op)
    requires Inv(fs) && Allowed(fs, op) && OnNames(op) && Sound(fs)
    ensures Do(fs, op).Some? && Inv(Do(fs, op).value)
  {
    hide Inv, Create, FileSys.Remove, Open, Settled, Unused, CanMake, Grown, Removed, Created, Leak, CanRemove, Opened,
      AddSlot, RootOpens,
      OthersUntouched, OnlyMap;
    match op
    case DoCreate(name, length, bounces, root) => CreateOk(fs, name, length, bounces, root);
    case DoRemove(name, bounces, root, mem) => RemoveOk(fs, name, bounces, root, mem);
    case DoOpen(name, root, mem, f) => OpenFileOk(fs, name, root, mem, f);
  }

  lemma DoFilesOk(fs: Fs, op: Op)
    requires Inv(fs) && Allowed(fs, op) && !OnNames(op) && !op.DoRestart? && Sound(fs)
    ensures Do(fs, op).Some? && Inv(Do(fs, op).value)
  {
    hide Inv, Reopen, Close, DenyWrite, AllowWrite, Read, Write, Seek, Grown, FileClosed, Owners, Untouched, BytesOf,
      FileBytes;
    match op
    case DoReopen(f, g) => ReopenFileOk(fs, f, g);
    case DoClose(f, bounces) => CloseFileOk(fs, f, bounces);
    case DoDeny(f) => DenyOk(fs, f);
    case DoAllow(f) => AllowOk(fs, f);
    case DoRead(f, size) => ReadOk(fs, f, size);
    case DoWrite(f, bs) => WriteFileOk(fs, f, bs);
    case DoSeek(f, pos) => SeekOk(fs, f, pos);
  }

  /** Every operation meets the source's assertions and keeps the file system in order. */
  lemma DoOk(fs: Fs, op: Op)
    requires Inv(fs) && Allowed(fs, op)
    ensures Sound(fs) && Do(fs, op).Some? && Inv(Do(fs, op).value)
  {
    FilesThere(fs);
    hide *;
    if op.DoRestart? { DoRestartOk(fs, op); } else if OnNames(op) { DoNamesOk(fs, op); } else { DoFilesOk(fs, op); }
  }

  lemma DoRestartOk(fs: Fs, op: Op)
    requires Inv(fs) && Allowed(fs, op) && op.DoRestart? && Sound(fs)
    ensures Do(fs, op).Some? && Inv(Do(fs, op).value)
  {
    hide Inv, Restart, Linked;
    RestartOk(fs, op.inode);
  }

  // ---- runs ----

  /** Each operation of the run is permitted when it is done. */
  predicate Permitted(fs: Fs, ops: seq<Op>)
    decreases |ops|
  {
    ops == [] || (Sound(fs) &&
         Allowed(fs, ops[0]) && (Do(fs, ops[0]).Some? ==> Permitted(Do(fs, ops[0]).value, ops[1..])))
  }

  function Run(fs: Fs, ops: seq<Op>): Option<Fs>
    requires Permitted(fs, ops)
    decreases |ops|
  {
    if ops == [] then Some(fs)
    else
      match Do(fs, ops[0])
      case None => None
      case Some(fs') => Run(fs', ops[1..])
  }

  lemma {:induction false} RunOk(fs: Fs, ops: seq<Op>)
    requires Inv(fs) && Permitted(fs, ops)
    ensures Run(fs, ops).Some? && Inv(Run(fs, ops).value)
    decreases |ops|
  {
    if ops != [] {
      DoOk(fs, ops[0]);
      hide Inv, Do, Allowed;
      RunOk(Do(fs, ops[0]).value, ops[1..]);
    }
  }

  // ---- the guarantees ----

  /** A state that some run reaches from a fresh file system. */
  ghost predicate Reachable(fs: Fs) {
    exists sectors: int, disk: Disk, bounces: Bounces, mem: int, ops: seq<Op> ::
      ReachedBy(fs, sectors, disk, bounces, mem, ops)
  }

  ghost predicate ReachedBy(fs: Fs, sectors: int, disk: Disk, bounces: Bounces, mem: int, ops: seq<Op>) {
    && 2 <= sectors <= 0x1_0000_0000 && (forall x | 0 <= x < sectors :: x in disk)
    && Format(sectors, disk, bounces, mem).Some?
    && Permitted(Format(sectors, disk, bounces, mem).value, ops)
    && Run(Format(sectors, disk, bounces, mem).value, ops) == Some(fs)
  }

  lemma ReachableOk(fs: Fs)
    requires Reachable(fs)
    ensures Inv(fs)
  {
    var sectors: int, disk: Disk, bounces: Bounces, mem: int, ops: seq<Op> :|
      ReachedBy(fs, sectors, disk, bounces, mem, ops);
    hide Inv, Format, Permitted, Run, Formatted;
    FormatOk(sectors, disk, bounces, mem);
    RunOk(Format(sectors, disk, bounces, mem).value, ops);
  }

  /** The free map's file holds the free map, in every reachable state in which the map was last read, or written
      completely. */
  lemma MapOnDisk(fs: Fs)
    requires Reachable(fs) && fs.synced
    ensures MapThere(fs) && MapRead(fs) == fs.bits
  {
    ReachableOk(fs);
    hide Ok, FilesApart, MapRead, MapThere;
  }

  /** So starting again without formatting finds the free map, the names and every file as they were. */
  lemma RestartFinds(fs: Fs, mem: int)
    requires Reachable(fs) && fs.synced
    ensures Restart(fs, mem).Some?
    ensures var fs' := Restart(fs, mem).value; Inv(fs') && fs'.bits == fs.bits && fs'.disk == fs.disk && fs'.synced
  {
    ReachableOk(fs);
    hide Inv, Restart, Mounted;
    RestartOk(fs, mem);
  }

  /** No run makes an assertion of the file system fail. */
  lemma NoAssertionFails(fs: Fs, op: Op)
    requires Reachable(fs) && Allowed(fs, op)
    ensures Sound(fs) && Do(fs, op).Some? && Inv(Do(fs, op).value)
  {
    ReachableOk(fs);
    DoOk(fs, op);
  }

  /** The inodes that own sectors: the two of the system, those that have a name, and those in memory, be they
      removed or not. */
  ghost predicate Owner(fs: Fs, s: int) {
    s == FREE_MAP || s == ROOT || (exists n :: n in DirNames(fs.disk) && DirNames(fs.disk)[n] == s)
    || (exists p :: p in fs.inodes && fs.inodes[p].sector == s)
  }

  lemma OwnerIs(fs: Fs, s: int)
    ensures Owner(fs, s) <==> s in Owners(fs.disk, fs.inodes, {})
  {
  }

  /** In every reachable state the sectors of distinct inodes are apart, and all of them are marked used. */
  lemma SectorsApart(fs: Fs, s: int, t: int, x: int)
    requires Reachable(fs) && Owner(fs, s) && Owner(fs, t) && Owns(fs.disk, s, x)
    ensures 0 <= x < |fs.bits| && fs.bits[x]
    ensures s != t ==> !Owns(fs.disk, t, x)
  {
    ReachableOk(fs);
    OwnerIs(fs, s);
    OwnerIs(fs, t);
    hide Owner, Owns;
    OwnedUsed(fs.bits, fs.disk, fs.owner, Owners(fs.disk, fs.inodes, {}), s, x);
    if Owns(fs.disk, t, x) { OwnedUsed(fs.bits, fs.disk, fs.owner, Owners(fs.disk, fs.inodes, {}), t, x); }
  }

  /** A sector that is marked used is an inode's, or the history says that it is nobody's. */
  lemma UsedIsOwned(fs: Fs, x: int)
    requires Reachable(fs) && 0 <= x < |fs.bits| && fs.bits[x]
    ensures x in fs.owner && (fs.owner[x] == NOBODY || (Owner(fs, fs.owner[x]) && Owns(fs.disk, fs.owner[x], x)))
  {
    ReachableOk(fs);
    OwnerIs(fs, fs.owner[x]);
    if fs.owner[x] != NOBODY { assert OwnerAt(fs.disk, fs.owner, |fs.bits|, fs.owner[x]); }
  }

  /** There is one in-memory inode for a sector at most, and it is on the list of open inodes once. */
  lemma OneInodePerSector(fs: Fs, p: int, q: int)
    requires Reachable(fs) && p in fs.inodes && q in fs.inodes
    ensures fs.inodes[p].sector == fs.inodes[q].sector ==> p == q
    ensures multiset(fs.open)[p] == 1
  {
    ReachableOk(fs);
    hide SectorsOk, DirOk, DirNames, FilesApart, FilesOk, RefsOk, Linked;
  }

  /** An inode in memory is as the disk has it, and is removed exactly if it has no name. */
  lemma RemovedIsNameless(fs: Fs, p: int)
    requires Reachable(fs) && p in fs.inodes
    ensures var m := fs.inodes[p];
      && m.sector in fs.disk && fs.disk[m.sector] == Node(m.start, m.length)
      && (m.removed <==> m.sector != FREE_MAP && m.sector != ROOT && forall n | n in DirNames(fs.disk) ::
          DirNames(fs.disk)[n] != m.sector)
  {
    hide *;
    ReachableOk(fs);
    InMemoryAt(fs, p);
    MemAtMeans(fs.disk, fs.inodes[p]);
  }

  lemma MemAtMeans(disk: Disk, m: Mem)
    requires MemAt(disk, Linked(disk), m)
    ensures m.sector in disk && disk[m.sector] == Node(m.start, m.length)
    ensures m.removed <==>
      m.sector != FREE_MAP && m.sector != ROOT && forall n | n in DirNames(disk) :: DirNames(disk)[n] != m.sector
  {
    hide DirNames;
  }

  lemma InMemoryAt(fs: Fs, p: int)
    requires Inv(fs) && p in fs.inodes
    ensures MemAt(fs.disk, Linked(fs.disk), fs.inodes[p])
  {
  }

  /** The count of an inode is the number of files that have it open, and its other count that of the files
      that deny writing to it. */
  lemma CountsExact(fs: Fs, p: int)
    requires Reachable(fs) && p in fs.inodes
    ensures var m := fs.inodes[p]; m.openCnt == |On(fs.files, p)| > 0 && m.denyCnt == |Denying(fs.files, p)|
  {
    ReachableOk(fs);
    hide SectorsOk, DirOk, FilesApart, MemOk, On, Denying;
    assert multiset{}[p] == 0;
  }

  /** As long as any file that has the inode open denies writing, no byte is written through any of them; else
      nothing is written only if there is nothing to write before the end of the file. */
  lemma WritesUnlessDenied(fs: Fs, f: int, bs: seq<Byte>)
    requires Reachable(fs) && IsUserFile(fs, f) && Sound(fs)
    ensures Write(fs, f, bs).1 == 0 <==>
      (exists g :: g in fs.files && fs.files[g].inode == fs.files[f].inode && fs.files[g].deny)
      || bs == [] || fs.files[f].pos >= fs.inodes[fs.files[f].inode].length
    ensures Write(fs, f, bs).1 == 0 ==> FileBytes(Write(fs, f, bs).0, f) == FileBytes(fs, f)
  {
    ReachableOk(fs);
    var p := fs.files[f].inode;
    CountsExact(fs, p);
    WriteFileOk(fs, f, bs);
    DenyingMeans(fs.files, p);
    hide Inv, Write, BytesOf, Denying, On;
  }

  lemma DenyingMeans(files: Files, p: int)
    ensures |Denying(files, p)| == 0 <==> forall g :: !(g in files && files[g].inode == p && files[g].deny)
  {
    if g :| g in files && files[g].inode == p && files[g].deny {
      assert g in Denying(files, p);
    } else {
      forall g ensures g !in Denying(files, p) {}
      assert Denying(files, p) == {};
    }
  }

  /** Allowing writing again undoes denying it. */
  lemma AllowUndoesDeny(fs: Fs, f: int)
    requires Reachable(fs) && IsUserFile(fs, f) && Sound(fs) && !fs.files[f].deny
    ensures var r := DenyWrite(fs, f);
      r.Some? && f in r.value.files && r.value.files[f].inode in r.value.inodes && AllowWrite(r.value, f) == Some(fs)
  {
    hide *;
    IsFile(fs, f);
    ReachableOk(fs);
    DenyBound(fs, f);
    CountsExact(fs, fs.files[f].inode);
    DeniedThenAllowed(fs, f);
  }

  lemma DeniedThenAllowed(fs: Fs, f: int)
    requires f in fs.files && fs.files[f].inode in fs.inodes && !fs.files[f].deny
    requires 0 <= fs.inodes[fs.files[f].inode].denyCnt < fs.inodes[fs.files[f].inode].openCnt
    ensures var r := DenyWrite(fs, f);
      r.Some? && f in r.value.files && r.value.files[f].inode in r.value.inodes && AllowWrite(r.value, f) == Some(fs)
  {
    var p := fs.files[f].inode;
    var fs1 := DenyWrite(fs, f).value;
    assert fs1.files[f := fs.files[f]] == fs.files;
    assert fs1.inodes[p := fs.inodes[p]] == fs.inodes;
  }
}
