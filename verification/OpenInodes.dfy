/** The inodes in memory: what opening and closing them keeps. */
module OpenInodes {
  import opened Options
  import opened Bitmap
  import opened Bytes
  import opened Disk
  import opened Directory
  import opened FileSys
  import opened FileSysInvariant

  type Inodes = map<int, Mem>

  // ---- the root directory ----

  function DirBytes(disk: Disk): seq<Byte> {
    if ROOT in disk && disk[ROOT].Node? then Content(disk, disk[ROOT].start, disk[ROOT].length) else []
  }

  function DirNames(disk: Disk): Names {
    Entries(DirBytes(disk), 0)
  }

  /** The root directory's names are unique, and are names of distinct inodes. */
  ghost predicate DirOk(disk: Disk) {
    && ROOT in disk && disk[ROOT].Node? && IsDir(DirBytes(disk)) && Unique(DirBytes(disk))
    && (forall n | n in DirNames(disk) :: DirNames(disk)[n] != FREE_MAP && DirNames(disk)[n] != ROOT)
    && (forall n, m | n in DirNames(disk) && m in DirNames(disk) && DirNames(disk)[n] == DirNames(disk)[m] :: n == m)
  }

  /** The inodes that are not removed: the two of the system and those that have a name. */
  function Linked(disk: Disk): set<int> {
    {FREE_MAP, ROOT} + DirNames(disk).Values
  }

  lemma LinkedSystem(disk: Disk)
    ensures FREE_MAP in Linked(disk) && ROOT in Linked(disk)
  {
  }

  lemma SameLinked(disk: Disk, disk': Disk)
    requires DirBytes(disk') == DirBytes(disk)
    ensures Linked(disk') == Linked(disk) && DirNames(disk') == DirNames(disk)
  {
  }

  lemma SameDirOk(disk: Disk, disk': Disk)
    requires ROOT in disk && ROOT in disk' && disk'[ROOT] == disk[ROOT] && disk[ROOT].Node?
    requires Content(disk', disk[ROOT].start, disk[ROOT].length) == Content(disk, disk[ROOT].start, disk[ROOT].length)
    ensures DirOk(disk) ==> DirOk(disk')
    ensures DirBytes(disk') == DirBytes(disk) && Linked(disk') == Linked(disk) && DirNames(disk') == DirNames(disk)
  {
    assert DirBytes(disk') == DirBytes(disk);
    SameLinked(disk, disk');
    hide Unique, Linked, DirBytes, DirNames, IsDir;
  }

  // ---- memory ----

  function MemSectors(inodes: Inodes): set<int> {
    set p | p in inodes :: inodes[p].sector
  }

  ghost predicate MemAt(disk: Disk, linked: set<int>, m: Mem) {
    m.sector in disk && disk[m.sector] == Node(m.start, m.length) && (m.removed <==> m.sector !in linked)
  }

  /** The list holds each inode in memory once; each is a copy of what is on the disk; no two are of one sector. */
  ghost predicate MemOk(inodes: Inodes, open: seq<int>, disk: Disk, linked: set<int>) {
    && (forall p :: multiset(open)[p] == if p in inodes then 1 else 0)
    && (forall p | p in inodes :: MemAt(disk, linked, inodes[p]))
    && (forall p, q | p in inodes && q in inodes && inodes[p].sector == inodes[q].sector :: p == q)
  }

  /** The count of an inode is the number of times it was opened and not yet closed. */
  ghost predicate RefsOk(inodes: Inodes, refs: multiset<int>) {
    forall p :: if p in inodes then inodes[p].openCnt == refs[p] > 0 else refs[p] == 0
  }

  type Files = map<int, File>

  ghost function On(files: Files, p: int): set<int> {
    set f | f in files && files[f].inode == p
  }

  ghost function Denying(files: Files, p: int): set<int> {
    set f | f in files && files[f].inode == p && files[f].deny
  }

  /** Those openings are the open files and `extra`; an inode counts the files that deny writing to it. */
  ghost predicate FilesOk(files: Files, inodes: Inodes, refs: multiset<int>, extra: multiset<int>) {
    && (forall p :: refs[p] == |On(files, p)| + extra[p])
    && (forall p | p in inodes :: inodes[p].denyCnt == |Denying(files, p)|)
    && (forall f | f in files :: 0 <= files[f].pos)
  }

  ghost function Owners(disk: Disk, inodes: Inodes, pending: set<int>): set<int> {
    Linked(disk) + MemSectors(inodes) + pending
  }

  /** The file system is in order; `extra` are openings by none of the open files, and `pending` inodes that
      have no name yet. */
  ghost predicate Ok(fs: Fs, extra: multiset<int>, pending: set<int>) {
    && SectorsOk(fs.bits, fs.disk, fs.owner, Owners(fs.disk, fs.inodes, pending))
    && DirOk(fs.disk) && MemOk(fs.inodes, fs.open, fs.disk, Linked(fs.disk))
    && RefsOk(fs.inodes, fs.refs) && FilesOk(fs.files, fs.inodes, fs.refs, extra)
    && pending !! Linked(fs.disk) + MemSectors(fs.inodes)
  }

  lemma NoFiles(files: Files, p: int)
    requires |On(files, p)| == 0
    ensures Denying(files, p) == {}
  {
    assert On(files, p) == {};
    assert Denying(files, p) <= On(files, p);
  }

  lemma DenyingFew(files: Files, p: int)
    ensures |Denying(files, p)| <= |On(files, p)|
  {
    var a, b := Denying(files, p), On(files, p);
    assert a + (b - a) == b && a * (b - a) == {};
  }

  /** Every inode in memory stays, as an inode of the same file. */
  ghost predicate Grown(inodes: Inodes, inodes': Inodes) {
    forall p | p in inodes :: p in inodes' && SameInode(inodes[p], inodes'[p])
  }

  predicate SameInode(m: Mem, m': Mem) {
    m.sector == m'.sector && m.start == m'.start && m.length == m'.length
  }

  // ---- the free map's file ----

  /** Writing the map does not touch the directory. */
  lemma OnlyMapDir(bits: seq<bool>, disk: Disk, owner: map<int, int>, own: set<int>, disk': Disk)
    requires SectorsOk(bits, disk, owner, own) && FREE_MAP in own && ROOT in own && OnlyMap(disk, disk')
    requires ROOT in disk && disk[ROOT].Node?
    ensures DirOk(disk) ==> DirOk(disk')
    ensures DirBytes(disk') == DirBytes(disk) && Linked(disk') == Linked(disk) && DirNames(disk') == DirNames(disk)
  {
    hide SectorsOk, OnlyMap, Untouched, DirOk;
    OnlyMapUntouched(bits, disk, owner, own, disk', ROOT);
    UntouchedSame(disk, disk', ROOT);
    SameDirOk(disk, disk');
  }

  /** Inodes on the disk stay, whatever the map. */
  lemma OnlyMapNode(bits: seq<bool>, disk: Disk, owner: map<int, int>, own: set<int>, disk': Disk, s: int)
    requires SectorsOk(bits, disk, owner, own) && FREE_MAP in own && s in own && OnlyMap(disk, disk')
    ensures s in disk && disk[s].Node? && s in disk' && disk'[s] == disk[s]
  {
    assert OwnerAt(disk, owner, |bits|, s);
    if s == FREE_MAP {
      assert !InRange(disk[s].start, Sectors(disk[s].length), s);
    } else {
      OnlyMapUntouched(bits, disk, owner, own, disk', s);
      UntouchedSame(disk, disk', s);
    }
  }

  lemma OnlyMapMem(bits: seq<bool>, disk: Disk, owner: map<int, int>, own: set<int>, disk': Disk, inodes: Inodes,
                   open: seq<int>, linked: set<int>)
    requires SectorsOk(bits, disk, owner, own) && FREE_MAP in own && MemSectors(inodes) <= own && OnlyMap(disk, disk')
    requires MemOk(inodes, open, disk, linked)
    ensures MemOk(inodes, open, disk', linked)
  {
    hide SectorsOk, OnlyMap;
    forall p | p in inodes ensures MemAt(disk', linked, inodes[p]) {
      assert MemAt(disk, linked, inodes[p]) && inodes[p].sector in MemSectors(inodes);
      OnlyMapNode(bits, disk, owner, own, disk', inodes[p].sector);
    }
  }

  /** Writing the map keeps everything in order, whatever is written. */
  lemma OnlyMapOk(fs: Fs, disk': Disk, synced: bool, extra: multiset<int>, pending: set<int>)
    requires Ok(fs, extra, pending) && OnlyMap(fs.disk, disk')
    requires SectorsOk(fs.bits, disk', fs.owner, Owners(fs.disk, fs.inodes, pending))
    ensures Ok(fs.(disk := disk', synced := synced), extra, pending)
    ensures DirBytes(disk') == DirBytes(fs.disk) && Linked(disk') == Linked(fs.disk)
  {
    LinkedSystem(fs.disk);
    var own := Owners(fs.disk, fs.inodes, pending);
    RootThere(fs.disk);
    hide SectorsOk, DirOk, MemOk, RefsOk, FilesOk, Linked, MemSectors, OnlyMap, DirBytes, DirNames;
    OnlyMapDir(fs.bits, fs.disk, fs.owner, own, disk');
    OnlyMapMem(fs.bits, fs.disk, fs.owner, own, disk', fs.inodes, fs.open, Linked(fs.disk));
  }

  lemma RootThere(disk: Disk)
    requires DirOk(disk)
    ensures ROOT in disk && disk[ROOT].Node?
  {
  }

  // ---- opening ----

  lemma Found(inodes: Inodes, open: seq<int>, disk: Disk, linked: set<int>, sector: int)
    requires MemOk(inodes, open, disk, linked)
    ensures var r := FindOpen(open, inodes, sector); r.None? <==> sector !in MemSectors(inodes)
  {
    forall p | p in inodes ensures p in open { assert multiset(open)[p] == 1; }
    var r := FindOpen(open, inodes, sector);
    if r.Some? {
      var p := r.value;
      assert p in inodes && inodes[p].sector == sector;
    }
  }

  /** A change of an inode's counts. */
  lemma RecountMemOk(inodes: Inodes, open: seq<int>, disk: Disk, linked: set<int>, p: int, m: Mem)
    requires MemOk(inodes, open, disk, linked) && p in inodes
    requires m == inodes[p].(openCnt := m.openCnt, denyCnt := m.denyCnt)
    ensures MemOk(inodes[p := m], open, disk, linked) && MemSectors(inodes[p := m]) == MemSectors(inodes)
  {
    SameSectors(inodes, p, m);
    var inodes' := inodes[p := m];
    forall q | q in inodes' ensures MemAt(disk, linked, inodes'[q]) { assert MemAt(disk, linked, inodes[q]); }
  }

  lemma ReopenOk(fs: Fs, p: int, extra: multiset<int>, pending: set<int>)
    requires Ok(fs, extra, pending) && p in fs.inodes
    ensures Ok(InodeReopen(fs, p), extra + multiset{p}, pending)
    ensures MemSectors(InodeReopen(fs, p).inodes) == MemSectors(fs.inodes)
  {
    hide SectorsOk, DirOk, Linked, MemOk, MemSectors;
    RecountMemOk(fs.inodes, fs.open, fs.disk, Linked(fs.disk), p, InodeReopen(fs, p).inodes[p]);
  }

  lemma SameSectors(inodes: Inodes, p: int, m: Mem)
    requires p in inodes && m.sector == inodes[p].sector
    ensures MemSectors(inodes[p := m]) == MemSectors(inodes)
  {
    var inodes' := inodes[p := m];
    forall s ensures s in MemSectors(inodes') <==> s in MemSectors(inodes) {
      if s in MemSectors(inodes) { var q :| q in inodes && inodes[q].sector == s; assert inodes'[q].sector == s; }
      if s in MemSectors(inodes') { var q :| q in inodes' && inodes'[q].sector == s; assert inodes[q].sector == s; }
    }
  }

  lemma MoreSectors(inodes: Inodes, p: int, m: Mem)
    requires p !in inodes
    ensures MemSectors(inodes[p := m]) == MemSectors(inodes) + {m.sector}
  {
    var inodes' := inodes[p := m];
    forall s ensures s in MemSectors(inodes') <==> s in MemSectors(inodes) || s == m.sector {
      if s in MemSectors(inodes) { var q :| q in inodes && inodes[q].sector == s; assert inodes'[q].sector == s; }
      assert inodes'[p].sector == m.sector;
    }
  }

  lemma FirstMemOk(inodes: Inodes, open: seq<int>, disk: Disk, linked: set<int>, p: int, m: Mem)
    requires MemOk(inodes, open, disk, linked) && p !in inodes && m.sector !in MemSectors(inodes)
    requires MemAt(disk, linked, m)
    ensures MemOk(inodes[p := m], [p] + open, disk, linked)
  {
    var inodes' := inodes[p := m];
    forall q, r | q in inodes' && r in inodes' && inodes'[q].sector == inodes'[r].sector ensures q == r {
      assert q != p ==> inodes'[q].sector in MemSectors(inodes);
      assert r != p ==> inodes'[r].sector in MemSectors(inodes);
    }
    forall q | q in inodes'
      ensures MemAt(disk, linked, inodes'[q])
    {
      assert q != p ==> MemAt(disk, linked, inodes[q]);
    }
  }

  lemma FirstRefsOk(fs: Fs, extra: multiset<int>, p: int, m: Mem)
    requires RefsOk(fs.inodes, fs.refs) && FilesOk(fs.files, fs.inodes, fs.refs, extra) && p !in fs.inodes
    requires m.openCnt == 1 && m.denyCnt == 0
    ensures RefsOk(fs.inodes[p := m], fs.refs + multiset{p})
    ensures FilesOk(fs.files, fs.inodes[p := m], fs.refs + multiset{p}, extra + multiset{p})
  {
    assert fs.refs[p] == |On(fs.files, p)| + extra[p];
    NoFiles(fs.files, p);
  }

  lemma FirstOpenOk(fs: Fs, sector: int, p: int, extra: multiset<int>, pending: set<int>)
    requires Ok(fs, extra, pending) && p !in fs.inodes && sector in Linked(fs.disk) && sector !in MemSectors(fs.inodes)
    requires sector in fs.disk && fs.disk[sector].Node?
    ensures var m := Mem(sector, 1, false, 0, fs.disk[sector].start, fs.disk[sector].length);
      Ok(fs.(inodes := fs.inodes[p := m], open := [p] + fs.open, refs := fs.refs + multiset{p}), extra + multiset{p},
         pending)
  {
    hide SectorsOk, DirOk, Linked, MemOk, RefsOk, FilesOk, MemSectors;
    var m := Mem(sector, 1, false, 0, fs.disk[sector].start, fs.disk[sector].length);
    MoreSectors(fs.inodes, p, m);
    assert Owners(fs.disk, fs.inodes[p := m], pending) == Owners(fs.disk, fs.inodes, pending);
    FirstMemOk(fs.inodes, fs.open, fs.disk, Linked(fs.disk), p, m);
    FirstRefsOk(fs, extra, p, m);
  }

  /** Opening an inode that is not removed. */
  lemma OpenOk(fs: Fs, sector: int, mem: Option<int>, extra: multiset<int>, pending: set<int>)
    requires Ok(fs, extra, pending) && sector in Linked(fs.disk) && (mem.Some? ==> mem.value !in fs.inodes)
    ensures var (fs', r) := InodeOpen(fs, sector, mem);
      && (r.None? <==> mem.None? && sector !in MemSectors(fs.inodes)) && (r.None? ==> fs' == fs)
      && fs' == fs.(inodes := fs'.inodes, open := fs'.open, refs := fs'.refs)
      && (forall q | q in fs.inodes ::
          q in fs'.inodes && fs'.inodes[q] == fs.inodes[q].(openCnt := fs'.inodes[q].openCnt))
      && (r.Some? ==>
        var p := r.value;
        && fs'.refs == fs.refs + multiset{p} && p in fs'.inodes && fs'.inodes[p].sector == sector
        && !fs'.inodes[p].removed
        && (fs'.inodes[p].openCnt == 1 <==> sector !in MemSectors(fs.inodes))
        && Ok(fs', extra + multiset{p}, pending))
  {
    assert OwnerAt(fs.disk, fs.owner, |fs.bits|, sector);
    Found(fs.inodes, fs.open, fs.disk, Linked(fs.disk), sector);
    hide SectorsOk, DirOk, Linked, FilesOk, MemSectors;
    var r := FindOpen(fs.open, fs.inodes, sector);
    if r.Some? {
      ReopenOk(fs, r.value, extra, pending);
      assert MemAt(fs.disk, Linked(fs.disk), fs.inodes[r.value]);
    } else if mem.Some? {
      FirstOpenOk(fs, sector, mem.value, extra, pending);
    }
  }

  // ---- closing ----

  lemma {:induction false} RemoveFromCount(open: seq<int>, p: int, q: int)
    ensures multiset(RemoveFrom(open, p))[q] == if q == p && p in open then multiset(open)[q] - 1 else multiset(open)[q]
  {
    if open != [] {
      RemoveFromCount(open[1..], p, q);
      assert open == [open[0]] + open[1..];
    }
  }

  lemma LastMemOk(inodes: Inodes, open: seq<int>, disk: Disk, linked: set<int>, p: int)
    requires MemOk(inodes, open, disk, linked) && p in inodes
    ensures MemOk(inodes - {p}, RemoveFrom(open, p), disk, linked)
    ensures MemSectors(inodes - {p}) == MemSectors(inodes) - {inodes[p].sector}
  {
    var inodes' := inodes - {p};
    forall q ensures multiset(RemoveFrom(open, p))[q] == if q in inodes' then 1 else 0 {
      RemoveFromCount(open, p, q);
      assert multiset(open)[q] == if q in inodes then 1 else 0;
    }
    forall q | q in inodes' ensures MemAt(disk, linked, inodes'[q]) { assert MemAt(disk, linked, inodes[q]); }
    forall s ensures s in MemSectors(inodes') <==> s in MemSectors(inodes) && s != inodes[p].sector {
      if s in MemSectors(inodes) && s != inodes[p].sector {
        var q :| q in inodes && inodes[q].sector == s;
        assert inodes'[q].sector == s;
      }
    }
  }

  lemma LessRefsOk(fs: Fs, extra: multiset<int>, p: int)
    requires RefsOk(fs.inodes, fs.refs) && FilesOk(fs.files, fs.inodes, fs.refs, extra) && p in fs.inodes && p in extra
    ensures fs.inodes[p].openCnt > 1 ==> var m := fs.inodes[p].(openCnt := fs.inodes[p].openCnt - 1);
      && RefsOk(fs.inodes[p := m], fs.refs - multiset{p})
      && FilesOk(fs.files, fs.inodes[p := m], fs.refs - multiset{p}, extra - multiset{p})
    ensures fs.inodes[p].openCnt == 1 ==>
      && RefsOk(fs.inodes - {p}, fs.refs - multiset{p})
      && FilesOk(fs.files, fs.inodes - {p}, fs.refs - multiset{p}, extra - multiset{p})
    ensures fs.inodes[p].openCnt >= 1
  {
  }

  /** The in-memory inode goes at the last close, and its sectors with it if it was removed. */
  ghost predicate ClosedAs(fs: Fs, fs': Fs, p: int)
    requires p in fs.inodes
  {
    var m := fs.inodes[p];
    && OnlyMap(fs.disk, fs'.disk) && fs'.files == fs.files && fs'.refs == fs.refs - multiset{p}
    && |fs'.bits| == |fs.bits|
    && (m.openCnt > 1 ==> fs'.inodes == fs.inodes[p := m.(openCnt := m.openCnt - 1)])
    && (m.openCnt == 1 ==> fs'.inodes == fs.inodes - {p})
    && (!(m.openCnt == 1 && m.removed) ==>
         fs'.bits == fs.bits && fs'.owner == fs.owner && fs'.disk == fs.disk && fs'.synced == fs.synced)
    && (m.openCnt == 1 && m.removed ==>
         forall x | 0 <= x < |fs.bits| :: fs'.bits[x] == (fs.bits[x] && !Owns(fs.disk, m.sector, x)))
  }

  lemma NotLastCloseOk(fs: Fs, p: int, bounces: Bounces, extra: multiset<int>, pending: set<int>)
    requires Ok(fs, extra, pending) && p in extra && p in fs.inodes && fs.inodes[p].openCnt > 1 && MapThere(fs)
    ensures InodeClose(fs, p, bounces).Some? && ClosedAs(fs, InodeClose(fs, p, bounces).value, p)
    ensures var fs' := InodeClose(fs, p, bounces).value;
      Ok(fs', extra - multiset{p}, pending) && MapThere(fs') && (MapOk(fs) ==> MapOk(fs'))
  {
    NotLastCloseIs(fs, p, bounces);
    NotLastMap(fs, p, bounces);
    NotLastClosed(fs, p, bounces);
    hide SectorsOk, DirOk, Linked, MemOk, MemSectors, FilesOk, RefsOk, ClosedAs, MapThere, MapOk, InodeClose;
    RecountMemOk(fs.inodes, fs.open, fs.disk, Linked(fs.disk), p, fs.inodes[p].(openCnt := fs.inodes[p].openCnt - 1));
    LessRefsOk(fs, extra, p);
  }

  lemma NotLastCloseIs(fs: Fs, p: int, bounces: Bounces)
    requires p in fs.inodes && fs.inodes[p].openCnt > 1
    ensures InodeClose(fs, p, bounces)
      == Some(fs.(refs := fs.refs - multiset{p},
                  inodes := fs.inodes[p := fs.inodes[p].(openCnt := fs.inodes[p].openCnt - 1)]))
  {
  }

  lemma NotLastMap(fs: Fs, p: int, bounces: Bounces)
    requires p in fs.inodes && fs.inodes[p].openCnt > 1 && MapThere(fs)
    ensures InodeClose(fs, p, bounces).Some?
    ensures var fs' := InodeClose(fs, p, bounces).value; MapThere(fs') && (MapOk(fs) ==> MapOk(fs'))
  {
    NotLastCloseIs(fs, p, bounces);
    hide InodeClose, MapOk, Untouched;
    SameUntouched(fs.disk, FREE_MAP);
    MapKept(fs, InodeClose(fs, p, bounces).value);
  }

  lemma NotLastClosed(fs: Fs, p: int, bounces: Bounces)
    requires p in fs.inodes && fs.inodes[p].openCnt > 1
    ensures InodeClose(fs, p, bounces).Some? && ClosedAs(fs, InodeClose(fs, p, bounces).value, p)
  {
    NotLastCloseIs(fs, p, bounces);
    MapSame(fs.disk);
    hide InodeClose, OnlyMap, Owns;
  }

  /** The last close but for the sectors. */
  function Forgotten(fs: Fs, p: int): Fs
    requires p in fs.inodes
  {
    fs.(refs := fs.refs - multiset{p}, inodes := fs.inodes - {p}, open := RemoveFrom(fs.open, p))
  }

  lemma ForgottenOk(fs: Fs, p: int, extra: multiset<int>, pending: set<int>)
    requires Ok(fs, extra, pending) && p in extra && p in fs.inodes && fs.inodes[p].openCnt == 1
    ensures var fs2 := Forgotten(fs, p);
      && DirOk(fs2.disk) && MemOk(fs2.inodes, fs2.open, fs2.disk, Linked(fs2.disk)) && RefsOk(fs2.inodes, fs2.refs)
      && FilesOk(fs2.files, fs2.inodes, fs2.refs, extra - multiset{p})
      && pending !! Linked(fs2.disk) + MemSectors(fs2.inodes)
    ensures var m := fs.inodes[p];
      && m.sector in fs.disk && fs.disk[m.sector] == Node(m.start, m.length)
      && m.sector in Owners(fs.disk, fs.inodes, pending)
      && Owners(fs.disk, fs.inodes - {p}, pending)
        == (if m.removed then Owners(fs.disk, fs.inodes, pending) - {m.sector} else Owners(fs.disk, fs.inodes, pending))
  {
    var m := fs.inodes[p];
    assert m.sector in MemSectors(fs.inodes);
    assert MemAt(fs.disk, Linked(fs.disk), m);
    hide SectorsOk, DirOk, Linked, MemOk, MemSectors, FilesOk, RefsOk;
    LastMemOk(fs.inodes, fs.open, fs.disk, Linked(fs.disk), p);
    LessOwners(Linked(fs.disk), MemSectors(fs.inodes), pending, m.sector, m.removed);
    LessRefsOk(fs, extra, p);
  }

  lemma LessOwners(linked: set<int>, mem: set<int>, pending: set<int>, s: int, removed: bool)
    requires (removed <==> s !in linked) && s in mem && pending !! linked + mem
    ensures linked + (mem - {s}) + pending == if removed then (linked + mem + pending) - {s} else linked + mem + pending
    ensures pending !! linked + (mem - {s})
  {
  }

  /** The inode of the free map's file is open as long as that file is. */
  lemma MapNotLast(fs: Fs, p: int, extra: multiset<int>, pending: set<int>)
    requires Ok(fs, extra, pending) && p in extra && p in fs.inodes && fs.inodes[p].openCnt == 1 && MapThere(fs)
    ensures fs.files[FREE_MAP].inode != p && MapThere(Forgotten(fs, p)) && (MapOk(fs) ==> MapOk(Forgotten(fs, p)))
  {
    var q := fs.files[FREE_MAP].inode;
    assert FREE_MAP in On(fs.files, q);
    assert fs.refs[q] == |On(fs.files, q)| + extra[q];
    SameUntouched(fs.disk, FREE_MAP);
    MapKept(fs, Forgotten(fs, p));
  }

  lemma SameUntouched(disk: Disk, s: int)
    ensures Untouched(disk, disk, s)
  {
  }

  lemma LastCloseOk(fs: Fs, p: int, bounces: Bounces, extra: multiset<int>, pending: set<int>)
    requires Ok(fs, extra, pending) && p in extra && p in fs.inodes && fs.inodes[p].openCnt == 1 && MapThere(fs)
    ensures InodeClose(fs, p, bounces).Some? && ClosedAs(fs, InodeClose(fs, p, bounces).value, p)
    ensures var fs' := InodeClose(fs, p, bounces).value;
      Ok(fs', extra - multiset{p}, pending) && MapThere(fs') && (MapOk(fs) ==> MapOk(fs'))
  {
    hide *;
    ForgottenOk(fs, p, extra, pending);
    MapNotLast(fs, p, extra, pending);
    LastCloseIs(fs, p, bounces);
    if fs.inodes[p].removed {
      RemovedCloseOk(fs, p, bounces, extra, pending);
    } else {
      KeptCloseOk(fs, p, extra, pending);
    }
  }

  lemma LastCloseIs(fs: Fs, p: int, bounces: Bounces)
    requires p in fs.inodes && fs.inodes[p].openCnt == 1
    ensures InodeClose(fs, p, bounces)
      == if fs.inodes[p].removed then FreeSectors(Forgotten(fs, p), fs.inodes[p].(openCnt := 0), bounces)
         else Some(Forgotten(fs, p))
  {
    hide FreeSectors;
  }

  lemma KeptCloseOk(fs: Fs, p: int, extra: multiset<int>, pending: set<int>)
    requires Ok(fs, extra, pending) && p in fs.inodes && fs.inodes[p].openCnt == 1 && !fs.inodes[p].removed
    requires var fs2 := Forgotten(fs, p);
      && MemOk(fs2.inodes, fs2.open, fs2.disk, Linked(fs2.disk)) && RefsOk(fs2.inodes, fs2.refs)
      && FilesOk(fs2.files, fs2.inodes, fs2.refs, extra - multiset{p})
      && pending !! Linked(fs2.disk) + MemSectors(fs2.inodes)
      && Owners(fs.disk, fs.inodes - {p}, pending) == Owners(fs.disk, fs.inodes, pending)
    ensures ClosedAs(fs, Forgotten(fs, p), p) && Ok(Forgotten(fs, p), extra - multiset{p}, pending)
  {
    MapSame(fs.disk);
    hide SectorsOk, DirOk, Linked, MemOk, MemSectors, FilesOk, RefsOk, OnlyMap, Owners;
  }

  lemma RemovedCloseOk(fs: Fs, p: int, bounces: Bounces, extra: multiset<int>, pending: set<int>)
    requires Ok(fs, extra, pending) && p in extra && p in fs.inodes && fs.inodes[p].openCnt == 1 && fs.inodes[p].removed
    requires MapThere(Forgotten(fs, p))
    ensures var r := FreeSectors(Forgotten(fs, p), fs.inodes[p].(openCnt := 0), bounces);
      && r.Some? && ClosedAs(fs, r.value, p) && Ok(r.value, extra - multiset{p}, pending) && MapThere(r.value)
      && MapOk(r.value)
  {
    LinkedSystem(fs.disk);
    var m := fs.inodes[p];
    assert MemAt(fs.disk, Linked(fs.disk), m);
    hide SectorsOk, DirOk, Linked, MemOk, MemSectors, FilesOk, RefsOk, FreeSectors, Owns, OnlyMap, MapThere, MapOk;
    ForgottenOk(fs, p, extra, pending);
    FreeSectorsOk(Forgotten(fs, p), Owners(fs.disk, fs.inodes, pending), m.(openCnt := 0), bounces);
    var fs' := FreeSectors(Forgotten(fs, p), m.(openCnt := 0), bounces).value;
    MapOkThere(fs');
    FreedOk(fs, fs', p, extra, pending);
  }

  lemma FreedOk(fs: Fs, fs': Fs, p: int, extra: multiset<int>, pending: set<int>)
    requires SectorsOk(fs.bits, fs.disk, fs.owner, Owners(fs.disk, fs.inodes, pending)) && p in fs.inodes
    requires var fs2 := Forgotten(fs, p);
      && fs' == fs2.(bits := fs'.bits, disk := fs'.disk, owner := fs'.owner, synced := fs'.synced)
      && DirOk(fs2.disk) && MemOk(fs2.inodes, fs2.open, fs2.disk, Linked(fs2.disk)) && RefsOk(fs2.inodes, fs2.refs)
      && FilesOk(fs2.files, fs2.inodes, fs2.refs, extra - multiset{p})
      && pending !! Linked(fs2.disk) + MemSectors(fs2.inodes)
      && SectorsOk(fs'.bits, fs'.disk, fs'.owner, Owners(fs.disk, fs2.inodes, pending)) && OnlyMap(fs.disk, fs'.disk)
      && Owners(fs.disk, fs2.inodes, pending) <= Owners(fs.disk, fs.inodes, pending)
    ensures Ok(fs', extra - multiset{p}, pending)
  {
    LinkedSystem(fs.disk);
    RootThere(fs.disk);
    var own := Owners(fs.disk, fs.inodes, pending);
    hide SectorsOk, DirOk, Linked, MemOk, MemSectors, FilesOk, RefsOk, OnlyMap, DirBytes, DirNames;
    OnlyMapDir(fs.bits, fs.disk, fs.owner, own, fs'.disk);
    OnlyMapMem(fs.bits, fs.disk, fs.owner, own, fs'.disk, fs'.inodes, fs'.open, Linked(fs.disk));
  }

  /** Closing an inode meets the assertions of the free map and keeps everything in order. */
  lemma CloseOk(fs: Fs, p: int, bounces: Bounces, extra: multiset<int>, pending: set<int>)
    requires Ok(fs, extra, pending) && p in extra && MapThere(fs)
    ensures p in fs.inodes && InodeClose(fs, p, bounces).Some?
    ensures var fs' := InodeClose(fs, p, bounces).value;
      ClosedAs(fs, fs', p) && Ok(fs', extra - multiset{p}, pending) && MapThere(fs') && (MapOk(fs) ==> MapOk(fs'))
  {
    ExtraIsOpen(fs, p, extra);
    hide Ok, ClosedAs, InodeClose, MapThere, MapOk;
    if fs.inodes[p].openCnt > 1 { NotLastCloseOk(fs, p, bounces, extra, pending); }
    else { LastCloseOk(fs, p, bounces, extra, pending); }
  }

  lemma ExtraIsOpen(fs: Fs, p: int, extra: multiset<int>)
    requires RefsOk(fs.inodes, fs.refs) && FilesOk(fs.files, fs.inodes, fs.refs, extra) && p in extra
    ensures p in fs.inodes && fs.inodes[p].openCnt >= 1
  {
  }
}
