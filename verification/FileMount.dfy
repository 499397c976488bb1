/** Formatting a disk, and mounting one that is formatted (filesys_init, free-map.c). */
module FileMount {
  import opened Options
  import opened Bitmap
  import opened Bytes
  import opened Disk
  import opened Directory
  import opened MapFile
  import opened FileSys
  import opened FileSysInvariant
  import opened OpenInodes
  import opened Linking
  import opened NamedFiles
  import opened CreatingFiles
  import opened FileRuns
  import opened FileGuarantees

  /** The file system as free_map_open leaves it. */
  ghost predicate Mounted(fs: Fs, bits: seq<bool>, disk: Disk, owner: map<int, int>, mem: int) {
    FREE_MAP in disk && disk[FREE_MAP].Node?
    && fs == Fs(bits, disk, map[mem := Mem(FREE_MAP, 1, false, 0, disk[FREE_MAP].start, disk[FREE_MAP].length)], [mem],
               map[FREE_MAP := File(mem, 0, false)], owner, multiset{mem}, true)
  }

  /** The disk holds the map. */
  ghost predicate HoldsMap(disk: Disk, bits: seq<bool>) {
    && FREE_MAP in disk && disk[FREE_MAP].Node? && disk[FREE_MAP].length == MapBytes(|bits|)
    && Decode(Content(disk, disk[FREE_MAP].start, disk[FREE_MAP].length), |bits|) == bits
  }

  lemma MountIs(bits: seq<bool>, disk: Disk, owner: map<int, int>, mem: int)
    requires HoldsMap(disk, bits) && |bits| > 0
    ensures var r := FreeMapOpen(Blank(|bits|, disk, owner), mem); r.Some? && Mounted(r.value, bits, disk, owner, mem)
  {
    var c := Content(disk, disk[FREE_MAP].start, disk[FREE_MAP].length);
    assert c[0..|c|] == c;
    hide Decode, Content;
  }

  /** Whatever was in memory, a disk in order that holds its map is mounted to a file system in order. */
  lemma MountOk(fs: Fs, bits: seq<bool>, disk: Disk, owner: map<int, int>, mem: int)
    requires Mounted(fs, bits, disk, owner, mem) && HoldsMap(disk, bits) && DirOk(disk)
    requires SectorsOk(bits, disk, owner, Linked(disk))
    ensures Inv(fs)
  {
    LinkedSystem(disk);
    MountMap(fs, bits, disk, owner, mem);
    MountCounts(fs, bits, disk, owner, mem);
    assert MemSectors(fs.inodes) == {FREE_MAP};
    assert Owners(disk, fs.inodes, {}) == Linked(disk);
    hide SectorsOk, DirOk, Linked, RefsOk, FilesOk, MapOk, HoldsMap;
  }

  lemma MountMap(fs: Fs, bits: seq<bool>, disk: Disk, owner: map<int, int>, mem: int)
    requires Mounted(fs, bits, disk, owner, mem) && HoldsMap(disk, bits) && |bits| <= 0x1_0000_0000
    ensures MapOk(fs)
  {
    hide Decode, Content;
  }

  lemma MountCounts(fs: Fs, bits: seq<bool>, disk: Disk, owner: map<int, int>, mem: int)
    requires Mounted(fs, bits, disk, owner, mem)
    ensures RefsOk(fs.inodes, fs.refs) && FilesOk(fs.files, fs.inodes, fs.refs, multiset{})
  {
    forall p ensures |On(fs.files, p)| == (if p == mem then 1 else 0) && Denying(fs.files, p) == {} {
      assert On(fs.files, p) == if p == mem then {FREE_MAP} else {};
    }
    hide On, Denying;
  }

  /** filesys_done, and then filesys_init without formatting: what is kept is the disk.  The sectors of inodes that
      were removed and still open belong to nobody any more. */
  function Restart(fs: Fs, mem: int): Option<Fs> {
    FreeMapOpen(Blank(|fs.bits|, fs.disk, Orphaned(fs)), mem)
  }

  function Orphaned(fs: Fs): map<int, int> {
    map x | x in fs.owner :: if fs.owner[x] in Linked(fs.disk) then fs.owner[x] else NOBODY
  }

  /** After a restart the free map, the disk and so the names and the bytes of every file are as they were. */
  lemma RestartOk(fs: Fs, mem: int)
    requires Inv(fs) && fs.synced
    ensures Restart(fs, mem).Some?
    ensures var fs' := Restart(fs, mem).value;
      && Inv(fs') && fs'.bits == fs.bits && fs'.disk == fs.disk && fs'.synced
      && Mounted(fs', fs.bits, fs.disk, Orphaned(fs), mem)
  {
    SyncedHolds(fs);
    OrphanedOk(fs);
    InvParts(fs);
    hide Inv, HoldsMap, SectorsOk, DirOk, Linked, Orphaned, Blank, FreeMapOpen;
    MountIs(fs.bits, fs.disk, Orphaned(fs), mem);
    MountOk(Restart(fs, mem).value, fs.bits, fs.disk, Orphaned(fs), mem);
  }

  lemma InvParts(fs: Fs)
    requires Inv(fs)
    ensures DirOk(fs.disk) && |fs.bits| >= 2
  {
  }

  lemma SyncedHolds(fs: Fs)
    requires MapOk(fs) && fs.synced
    ensures HoldsMap(fs.disk, fs.bits)
  {
    hide Decode, Content;
  }

  lemma OrphanedOk(fs: Fs)
    requires Inv(fs)
    ensures SectorsOk(fs.bits, fs.disk, Orphaned(fs), Linked(fs.disk))
  {
    SectorsPart(fs, multiset{});
    hide Ok, FilesApart, MapOk, Linked, MemSectors;
    OrphanSectors(fs.bits, fs.disk, fs.owner, Owners(fs.disk, fs.inodes, {}), Linked(fs.disk), Orphaned(fs));
  }

  lemma OrphanSectors(bits: seq<bool>, disk: Disk, owner: map<int, int>, own: set<int>, less: set<int>,
                      owner': map<int, int>)
    requires SectorsOk(bits, disk, owner, own) && less <= own
    requires owner' == map x | x in owner :: if owner[x] in less then owner[x] else NOBODY
    ensures SectorsOk(bits, disk, owner', less)
  {
    forall s | s in less ensures OwnerAt(disk, owner', |bits|, s) { assert OwnerAt(disk, owner, |bits|, s); }
  }

  // ---- formatting ----

  const LOOSE: map<int, int> := map[FREE_MAP := NOBODY, ROOT := NOBODY]

  /** filesys_init with do_format; None where the source panics.  The inode of the free map's file is at `mem` both
      times that it is opened. */
  function Format(sectors: int, disk: Disk, bounces: Bounces, mem: int): Option<Fs>
    requires 2 <= sectors <= 0x1_0000_0000
  {
    match FreeMapCreate(Blank(sectors, disk, LOOSE), bounces.first, mem)
    case None => None
    case Some(fs1) =>
      var (fs2, made) := InodeCreate(fs1, ROOT, 16 * ENTRY, bounces.second);
      if !made || FREE_MAP !in fs2.files || fs2.files[FREE_MAP].inode !in fs2.inodes then None
      else
        match Close(fs2, FREE_MAP, PLENTY)
        case None => None
        case Some(fs3) => FreeMapOpen(fs3, mem)
  }

  lemma BlankOk(sectors: int, disk: Disk)
    requires 2 <= sectors <= 0x1_0000_0000 && forall x | 0 <= x < sectors :: x in disk
    ensures var fs := Blank(sectors, disk, LOOSE);
      && SectorsOk(fs.bits, fs.disk, fs.owner, {}) && |fs.bits| == sectors && fs.bits[ROOT] && !fs.synced
      && fs == Fs(fs.bits, disk, map[], [], map[], LOOSE, multiset{}, false) && MapReady(fs, {})
      && (forall x | 0 <= x < sectors && fs.bits[x] :: x == FREE_MAP || x == ROOT)
      && FREE_MAP in LOOSE && LOOSE[FREE_MAP] == NOBODY && ROOT in LOOSE && LOOSE[ROOT] == NOBODY && FREE_MAP != ROOT
  {
  }

  lemma {:induction false} EmptyEntries(c: seq<Byte>, i: int)
    requires 0 <= i <= Slots(c) && forall k | 0 <= k < |c| :: c[k] == 0
    ensures Entries(c, i) == map[]
    decreases Slots(c) - i
  {
    if i < Slots(c) {
      EmptyEntries(c, i + 1);
      assert Slot(c, i)[ENTRY - 1] == c[i * ENTRY + ENTRY - 1];
    }
  }

  lemma EmptyDir(disk: Disk)
    requires ROOT in disk && disk[ROOT].Node? && disk[ROOT].length == 16 * ENTRY
    requires forall i | 0 <= i < 16 * ENTRY :: ByteOf(disk, disk[ROOT].start, i) == 0
    ensures DirOk(disk) && Linked(disk) == {FREE_MAP, ROOT} && DirNames(disk) == map[]
    ensures |DirBytes(disk)| == 16 * ENTRY
  {
    var c := DirBytes(disk);
    EmptyEntries(c, 0);
    forall i | 0 <= i < Slots(c) ensures !InUse(Slot(c, i)) {
      assert Slot(c, i)[ENTRY - 1] == c[i * ENTRY + ENTRY - 1];
    }
    assert DirNames(disk).Values == {};
  }

  /** Only the free map's file is open, of all inodes. */
  ghost predicate OnlyMapFile(fs: Fs, mem: int) {
    && fs.files == map[FREE_MAP := File(mem, 0, false)] && fs.open == [mem] && fs.refs == multiset{mem}
    && mem in fs.inodes && fs.inodes == map[mem := fs.inodes[mem]] && fs.inodes[mem].openCnt == 1
    && !fs.inodes[mem].removed
  }

  lemma MapFileOpened(fs: Fs, mem: int)
    requires fs.inodes == map[] && fs.open == [] && fs.files == map[] && fs.refs == multiset{}
    requires |fs.bits| <= 0x1_0000_0000
    requires FREE_MAP in fs.disk && fs.disk[FREE_MAP].Node? && fs.disk[FREE_MAP].length == MapBytes(|fs.bits|)
    ensures OpenMapFile(fs, mem).Some?
    ensures var fs1 := OpenMapFile(fs, mem).value;
      && OnlyMapFile(fs1, mem) && MapThere(fs1)
      && fs1 == fs.(inodes := fs1.inodes, open := fs1.open, files := fs1.files, refs := fs1.refs)
  {
  }

  /** The sector of the directory's inode is used and nobody's, as long as that inode is not made. */
  ghost predicate RootLoose(fs: Fs) {
    ROOT in fs.owner && fs.owner[ROOT] == NOBODY
  }

  lemma StillLoose(fs: Fs, a: int, length: Offset, bounce: bool)
    requires RootLoose(fs) && a != ROOT && ROOT < |fs.bits| && fs.bits[ROOT]
    ensures RootLoose(InodeCreate(fs, a, length, bounce).0)
  {
    var n := Sectors(length);
    if Scan(fs.bits, 0, n).Some? {
      var start := Scan(fs.bits, 0, n).value;
      assert AllAre(fs.bits, start, n, false);
      assert !InRange(start, n, ROOT);
      MapWriteFrame(fs, Set(fs.bits, start, n, true), bounce);
      hide MapWrite;
    }
  }

  lemma MapWriteFrame(fs: Fs, bits: seq<bool>, bounce: bool)
    ensures var fs1 := MapWrite(fs, bits, bounce).0; fs1 == fs.(disk := fs1.disk, synced := fs1.synced)
  {
    hide WriteAt;
  }

  /** free_map_create: the map's file holds the map, and its inode is the only one. */
  lemma FreeMapCreateOk(sectors: int, disk: Disk, bounce: bool, mem: int)
    requires 2 <= sectors <= 0x1_0000_0000 && forall x | 0 <= x < sectors :: x in disk
    requires FreeMapCreate(Blank(sectors, disk, LOOSE), bounce, mem).Some?
    ensures var fs := FreeMapCreate(Blank(sectors, disk, LOOSE), bounce, mem).value;
      && SectorsOk(fs.bits, fs.disk, fs.owner, {FREE_MAP}) && MapOk(fs) && OnlyMapFile(fs, mem) && RootLoose(fs)
      && |fs.bits| == sectors && fs.synced
      && (forall x | 0 <= x < sectors && fs.bits[x] :: x == ROOT || Owns(fs.disk, FREE_MAP, x))
  {
    BlankOk(sectors, disk);
    hide SectorsOk, MapOk, MapThere, MapReady, InodeCreate, OpenMapFile, MapWrite, Blank, OnlyMapFile, OnlyMap, Owns,
      Untouched;
    var fs0 := Blank(sectors, disk, LOOSE);
    InodeCreateOk(fs0, {}, FREE_MAP, MapBytes(sectors), true);
    StillLoose(fs0, FREE_MAP, MapBytes(sectors), true);
    var fs1 := InodeCreate(fs0, FREE_MAP, MapBytes(sectors), true).0;
    assert {} + {FREE_MAP} == {FREE_MAP};
    MapFileOpened(fs1, mem);
    var fs2 := OpenMapFile(fs1, mem).value;
    MapWriteOk(fs2.bits, fs2.owner, fs2, {FREE_MAP}, fs2.bits, bounce);
    var fs3 := MapWrite(fs2, fs2.bits, bounce).0;
    WrittenIsOk(fs3);
    SameMapFile(fs2, fs3, mem);
    MapNode(fs2, fs3);
  }

  /** The inode of the free map's file, and so what it owns, stays. */
  lemma MapNode(fs: Fs, fs': Fs)
    requires MapThere(fs) && MapThere(fs') && fs'.files == fs.files && fs'.inodes == fs.inodes
    ensures forall x :: Owns(fs'.disk, FREE_MAP, x) <==> Owns(fs.disk, FREE_MAP, x)
  {
  }

  lemma WrittenIsOk(fs: Fs)
    requires MapThere(fs) && MapRead(fs) == fs.bits
    ensures MapOk(fs)
  {
  }

  lemma SameMapFile(fs2: Fs, fs3: Fs, mem: int)
    requires OnlyMapFile(fs2, mem) && fs3.files == fs2.files && fs3.open == fs2.open && fs3.refs == fs2.refs
    requires fs3.inodes == fs2.inodes
    ensures OnlyMapFile(fs3, mem)
  {
  }

  ghost predicate UsedBySystem(bits: seq<bool>, disk: Disk) {
    forall x | 0 <= x < |bits| && bits[x] :: Owns(disk, FREE_MAP, x) || Owns(disk, ROOT, x)
  }

  /** What is on the disk after formatting: the two inodes of the system, an empty directory, and the map. */
  ghost predicate Formatted(fs: Fs, sectors: int, mem: int) {
    && SectorsOk(fs.bits, fs.disk, fs.owner, Linked(fs.disk)) && DirOk(fs.disk) && DirNames(fs.disk) == map[]
    && |DirBytes(fs.disk)| == 16 * ENTRY
    && Linked(fs.disk) == {FREE_MAP, ROOT} && HoldsMap(fs.disk, fs.bits) && |fs.bits| == sectors
    && UsedBySystem(fs.bits, fs.disk) && Mounted(fs, fs.bits, fs.disk, fs.owner, mem)
  }

  /** Formatting makes a file system in order, whose map is on the disk. */
  lemma FormatOk(sectors: int, disk: Disk, bounces: Bounces, mem: int)
    requires 2 <= sectors <= 0x1_0000_0000 && (forall x | 0 <= x < sectors :: x in disk)
    requires Format(sectors, disk, bounces, mem).Some?
    ensures var fs := Format(sectors, disk, bounces, mem).value; Inv(fs) && fs.synced && Formatted(fs, sectors, mem)
  {
    FormatSteps(sectors, disk, bounces, mem);
    hide *;
    var fs1 := FreeMapCreate(Blank(sectors, disk, LOOSE), bounces.first, mem).value;
    FreeMapCreateOk(sectors, disk, bounces.first, mem);
    DirCreateOk(fs1, sectors, bounces.second, mem);
    var fs2 := InodeCreate(fs1, ROOT, 16 * ENTRY, bounces.second).0;
    MapFileClosed(fs2, mem);
    MountAgain(fs2.bits, fs2.disk, fs2.owner, mem);
    FormattedIs(Format(sectors, disk, bounces, mem).value, fs2, sectors, mem);
    MountOk(Format(sectors, disk, bounces, mem).value, fs2.bits, fs2.disk, fs2.owner, mem);
  }

  /** dir_create of the root directory. */
  lemma DirCreateOk(fs1: Fs, sectors: int, bounce: bool, mem: int)
    requires SectorsOk(fs1.bits, fs1.disk, fs1.owner, {FREE_MAP}) && MapOk(fs1) && OnlyMapFile(fs1, mem)
    requires RootLoose(fs1)
    requires 2 <= |fs1.bits| == sectors && fs1.synced && InodeCreate(fs1, ROOT, 16 * ENTRY, bounce).1
    requires forall x | 0 <= x < sectors && fs1.bits[x] :: x == ROOT || Owns(fs1.disk, FREE_MAP, x)
    ensures var fs2 := InodeCreate(fs1, ROOT, 16 * ENTRY, bounce).0;
      && SectorsOk(fs2.bits, fs2.disk, fs2.owner, {FREE_MAP, ROOT}) && DirOk(fs2.disk) && DirNames(fs2.disk) == map[]
      && Linked(fs2.disk) == {FREE_MAP, ROOT} && HoldsMap(fs2.disk, fs2.bits) && |fs2.bits| == sectors && fs2.synced
      && OnlyMapFile(fs2, mem) && UsedBySystem(fs2.bits, fs2.disk) && MapThere(fs2)
      && |DirBytes(fs2.disk)| == 16 * ENTRY
  {
    assert ROOT !in {FREE_MAP} && {FREE_MAP} + {ROOT} == {FREE_MAP, ROOT};
    hide *;
    LooseMeans(fs1);
    ReadyMeans(fs1);
    InodeCreateOk(fs1, {FREE_MAP}, ROOT, 16 * ENTRY, bounce);
    var fs2 := InodeCreate(fs1, ROOT, 16 * ENTRY, bounce).0;
    ZeroBytes(fs1, ROOT, 16 * ENTRY, bounce);
    EmptyDir(fs2.disk);
    SyncedStays(fs1, ROOT, 16 * ENTRY, bounce);
    SyncedHolds(fs2);
    SameMapFile(fs1, fs2, mem);
    MapOkThere(fs1);
    MapOkThere(fs2);
    MapNode(fs1, fs2);
    OwnsItself(fs2.disk, ROOT);
    UsedIs(fs2, sectors);
  }

  lemma OwnsItself(disk: Disk, s: int)
    requires s in disk && disk[s].Node?
    ensures Owns(disk, s, s)
  {
  }

  lemma UsedIs(fs: Fs, sectors: int)
    requires |fs.bits| == sectors && forall x | 0 <= x < sectors && fs.bits[x] ::
      Owns(fs.disk, FREE_MAP, x) || Owns(fs.disk, ROOT, x)
    ensures UsedBySystem(fs.bits, fs.disk)
  {
    hide Owns;
  }

  lemma FormattedIs(fs: Fs, fs2: Fs, sectors: int, mem: int)
    requires Mounted(fs, fs2.bits, fs2.disk, fs2.owner, mem) && DirOk(fs2.disk) && DirNames(fs2.disk) == map[]
    requires HoldsMap(fs2.disk, fs2.bits) && |DirBytes(fs2.disk)| == 16 * ENTRY
    requires SectorsOk(fs2.bits, fs2.disk, fs2.owner, {FREE_MAP, ROOT}) && Linked(fs2.disk) == {FREE_MAP, ROOT}
    requires |fs2.bits| == sectors
    requires UsedBySystem(fs2.bits, fs2.disk)
    ensures Formatted(fs, sectors, mem) && fs.synced
  {
    hide SectorsOk, DirOk, DirNames, Linked, HoldsMap, UsedBySystem;
  }

  lemma LooseMeans(fs: Fs)
    requires RootLoose(fs)
    ensures ROOT in fs.owner && fs.owner[ROOT] == NOBODY
  {
  }

  lemma ReadyMeans(fs: Fs)
    requires MapOk(fs)
    ensures MapReady(fs, {FREE_MAP}) && FREE_MAP in fs.files
  {
  }

  /** When an inode is made, its allocation has written the map. */
  lemma SyncedStays(fs: Fs, a: int, length: Offset, bounce: bool)
    requires InodeCreate(fs, a, length, bounce).1 && fs.synced
    ensures InodeCreate(fs, a, length, bounce).0.synced
  {
    hide WriteAt, Scan, Set, Claim, Clear;
  }

  lemma FormatSteps(sectors: int, disk: Disk, bounces: Bounces, mem: int)
    requires 2 <= sectors <= 0x1_0000_0000 && Format(sectors, disk, bounces, mem).Some?
    ensures FreeMapCreate(Blank(sectors, disk, LOOSE), bounces.first, mem).Some?
    ensures var fs1 := FreeMapCreate(Blank(sectors, disk, LOOSE), bounces.first, mem).value;
      var (fs2, made) := InodeCreate(fs1, ROOT, 16 * ENTRY, bounces.second);
      && made && FREE_MAP in fs2.files && fs2.files[FREE_MAP].inode in fs2.inodes && Close(fs2, FREE_MAP, PLENTY).Some?
      && Format(sectors, disk, bounces, mem) == FreeMapOpen(Close(fs2, FREE_MAP, PLENTY).value, mem)
  {
    hide FreeMapCreate, InodeCreate, Close, FreeMapOpen, Blank;
  }

  lemma MapFileClosed(fs: Fs, mem: int)
    requires OnlyMapFile(fs, mem) && FREE_MAP in fs.files && fs.files[FREE_MAP].inode in fs.inodes
    ensures Close(fs, FREE_MAP, PLENTY) == Some(Fs(fs.bits, fs.disk, map[], [], map[], fs.owner, multiset{}, fs.synced))
  {
    hide FreeSectors;
    assert fs.inodes - {mem} == map[] && fs.files - {FREE_MAP} == map[];
    assert multiset{mem} - multiset{mem} == multiset{};
    assert RemoveFrom([mem], mem) == [];
  }

  lemma MountAgain(bits: seq<bool>, disk: Disk, owner: map<int, int>, mem: int)
    requires HoldsMap(disk, bits) && |bits| > 0
    ensures var r := FreeMapOpen(Fs(bits, disk, map[], [], map[], owner, multiset{}, true), mem);
      r.Some? && Mounted(r.value, bits, disk, owner, mem)
  {
    var c := Content(disk, disk[FREE_MAP].start, disk[FREE_MAP].length);
    assert c[0..|c|] == c;
    hide Decode, Content;
  }
}
