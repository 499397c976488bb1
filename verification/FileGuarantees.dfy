/** The run theorems of the file system. */
module FileGuarantees {
  import opened Options
  import opened Bitmap
  import opened Bytes
  import opened Disk
  import opened Directory
  import opened FileSys
  import opened FileSysInvariant
  import opened OpenInodes
  import opened Linking
  import opened NamedFiles
  import opened CreatingFiles
  import opened FileRuns

  // ---- open files ----

  lemma FileInode(fs: Fs, f: int)
    requires Inv(fs) && f in fs.files
    ensures fs.files[f].inode in fs.inodes && 0 <= fs.files[f].pos && fs.inodes[fs.files[f].inode].sector != ROOT
    ensures f != FREE_MAP ==> fs.inodes[fs.files[f].inode].sector != FREE_MAP
  {
  }

  lemma ReopenFileOk(fs: Fs, f: int, g: int)
    requires Inv(fs) && IsUserFile(fs, f) && g !in fs.files
    ensures fs.files[f].inode in fs.inodes && Inv(Reopen(fs, f, g)) && Grown(fs.inodes, Reopen(fs, f, g).inodes)
  {
    var fs' := Reopen(fs, f, g);
    hide *;
    IsFile(fs, f);
    FileInode(fs, f);
    var p := fs.files[f].inode;
    ReopenOk(fs, p, multiset{}, {}) by { OkPart(fs); }
    assert multiset{} + multiset{p} == multiset{p};
    AddFileOk(InodeReopen(fs, p), p, g);
    ReopenIs(fs, f, g);
    ReopenKeepsMap(fs, f, g);
    ReopenApart(fs, f, g);
    IntroInv(fs');
  }

  lemma OkPart(fs: Fs)
    requires Inv(fs)
    ensures Ok(fs, multiset{}, {})
  {
  }

  lemma ReopenIs(fs: Fs, f: int, g: int)
    requires f in fs.files && fs.files[f].inode in fs.inodes && g !in fs.files
    ensures var p := fs.files[f].inode; var fs1 := InodeReopen(fs, p);
      Reopen(fs, f, g) == fs1.(files := fs1.files[g := File(p, 0, false)]) && fs1.files == fs.files
  {
  }

  lemma ReopenKeepsMap(fs: Fs, f: int, g: int)
    requires Inv(fs) && IsUserFile(fs, f) && fs.files[f].inode in fs.inodes && g !in fs.files
    ensures MapOk(Reopen(fs, f, g))
  {
    MapOkThere(fs);
    HasMapFile(fs);
    MapFileThere(fs);
    SameUntouched(fs.disk, FREE_MAP);
    hide Ok, FilesApart, MapOk, MapThere, Untouched;
    MapKept(fs, Reopen(fs, f, g));
  }

  lemma ReopenApart(fs: Fs, f: int, g: int)
    requires Inv(fs) && IsUserFile(fs, f) && fs.files[f].inode in fs.inodes && g !in fs.files
    ensures FilesApart(Reopen(fs, f, g)) && Grown(fs.inodes, Reopen(fs, f, g).inodes)
  {
    hide Ok, MapOk;
  }

  /** A change of a file's position, or of whether it denies writing with the inode's count along with it. */
  lemma ChangeFileOk(fs: Fs, f: int, file: File, m: Mem)
    requires Inv(fs) && IsUserFile(fs, f) && file.inode == fs.files[f].inode && 0 <= file.pos
    requires fs.files[f].inode in fs.inodes
    requires m == fs.inodes[file.inode].(denyCnt := m.denyCnt)
    requires m.denyCnt
      == fs.inodes[file.inode].denyCnt + (if file.deny then 1 else 0) - (if fs.files[f].deny then 1 else 0)
    ensures Inv(fs.(files := fs.files[f := file], inodes := fs.inodes[file.inode := m]))
  {
    ChangeKeepsMap(fs, f, file, m);
    ChangeCounts(fs, f, file, m);
    ChangeApart(fs, f, file, m);
    hide SectorsOk, DirOk, MemOk, Linked, MemSectors, FilesOk, RefsOk, MapOk, FilesApart;
    RecountMemOk(fs.inodes, fs.open, fs.disk, Linked(fs.disk), file.inode, m);
  }

  lemma ChangeCounts(fs: Fs, f: int, file: File, m: Mem)
    requires RefsOk(fs.inodes, fs.refs) && FilesOk(fs.files, fs.inodes, fs.refs, multiset{})
    requires f in fs.files && file.inode == fs.files[f].inode && 0 <= file.pos && fs.files[f].inode in fs.inodes
    requires m == fs.inodes[file.inode].(denyCnt := m.denyCnt)
    requires m.denyCnt
      == fs.inodes[file.inode].denyCnt + (if file.deny then 1 else 0) - (if fs.files[f].deny then 1 else 0)
    ensures RefsOk(fs.inodes[file.inode := m], fs.refs)
    ensures FilesOk(fs.files[f := file], fs.inodes[file.inode := m], fs.refs, multiset{})
  {
    hide On, Denying;
    forall q ensures On(fs.files[f := file], q) == On(fs.files, q) && |Denying(fs.files[f := file], q)|
      == |Denying(fs.files, q)| + (if q == file.inode then (if file.deny then 1 else 0) - (if fs.files[f].deny then 1
         else 0) else 0) {
      ChangedCounts(fs.files, f, file, q);
    }
  }

  lemma ChangeApart(fs: Fs, f: int, file: File, m: Mem)
    requires FilesApart(fs) && f in fs.files && file.inode == fs.files[f].inode && fs.files[f].inode in fs.inodes
    requires m == fs.inodes[file.inode].(denyCnt := m.denyCnt)
    ensures FilesApart(fs.(files := fs.files[f := file], inodes := fs.inodes[file.inode := m]))
  {
  }

  lemma ChangeKeepsMap(fs: Fs, f: int, file: File, m: Mem)
    requires Inv(fs) && IsUserFile(fs, f) && file.inode == fs.files[f].inode && fs.files[f].inode in fs.inodes
    ensures MapOk(fs.(files := fs.files[f := file], inodes := fs.inodes[file.inode := m]))
  {
    FileInode(fs, f);
    MapIsOther(fs, file.inode);
    SameUntouched(fs.disk, FREE_MAP);
    hide Ok, FilesApart, Untouched;
    MapKept(fs, fs.(files := fs.files[f := file], inodes := fs.inodes[file.inode := m]));
  }

  lemma MapIsOther(fs: Fs, p: int)
    requires Inv(fs) && p in fs.inodes && fs.inodes[p].sector != FREE_MAP
    ensures MapThere(fs) && FREE_MAP in fs.files && fs.files[FREE_MAP].inode in fs.inodes
    ensures fs.files[FREE_MAP].inode != p
  {
  }

  lemma ChangedCounts(files: Files, f: int, file: File, q: int)
    requires f in files && file.inode == files[f].inode
    ensures On(files[f := file], q) == On(files, q)
    ensures |Denying(files[f := file], q)|
      == |Denying(files, q)| + (if q == file.inode then (if file.deny then 1 else 0) - (if files[f].deny then 1 else 0)
         else 0)
  {
    assert On(files[f := file], q) == On(files, q);
    ChangedDenying(files, f, file, q);
    hide On, Denying;
    var d := Denying(files, q);
    assert f !in d ==> |d + {f}| == |d| + 1;
    assert f in d ==> |d - {f}| == |d| - 1 && d + {f} == d;
    assert f !in d ==> d - {f} == d;
  }

  lemma ChangedDenying(files: Files, f: int, file: File, q: int)
    requires f in files && file.inode == files[f].inode
    ensures f in Denying(files, q) <==> q == file.inode && files[f].deny
    ensures Denying(files[f := file], q)
      == if q == file.inode && file.deny then Denying(files, q) + {f} else Denying(files, q) - {f}
  {
    var after, before := Denying(files[f := file], q), Denying(files, q);
    if q == file.inode && file.deny { assert after == before + {f}; } else { assert after == before - {f}; }
  }

  /** The counts of an inode: as many deny writing as have asked to, and no more than have it open. */
  lemma DenyBound(fs: Fs, f: int)
    requires Inv(fs) && f in fs.files
    ensures fs.files[f].inode in fs.inodes
    ensures var m := fs.inodes[fs.files[f].inode];
      (fs.files[f].deny ==> 0 < m.denyCnt <= m.openCnt) && (!fs.files[f].deny ==> m.denyCnt < m.openCnt)
  {
    FileInode(fs, f);
    CountsPart(fs);
    hide Inv;
    DenyCounts(fs, f);
  }

  lemma CountsPart(fs: Fs)
    requires Inv(fs)
    ensures RefsOk(fs.inodes, fs.refs) && FilesOk(fs.files, fs.inodes, fs.refs, multiset{})
  {
  }

  lemma DenyCounts(fs: Fs, f: int)
    requires RefsOk(fs.inodes, fs.refs) && FilesOk(fs.files, fs.inodes, fs.refs, multiset{}) && f in fs.files
    requires fs.files[f].inode in fs.inodes
    ensures var m := fs.inodes[fs.files[f].inode];
      (fs.files[f].deny ==> 0 < m.denyCnt <= m.openCnt) && (!fs.files[f].deny ==> m.denyCnt < m.openCnt)
  {
    var p := fs.files[f].inode;
    var a, b := Denying(fs.files, p), On(fs.files, p);
    assert f in b && a <= b && fs.refs[p] == |b|;
    DenyingFew(fs.files, p);
    if fs.files[f].deny { assert f in a; } else {
      assert a + {f} <= b && f !in a;
      assert (a + {f}) + (b - (a + {f})) == b;
    }
  }

  lemma DenyOk(fs: Fs, f: int)
    requires Inv(fs) && IsUserFile(fs, f)
    ensures fs.files[f].inode in fs.inodes && DenyWrite(fs, f).Some? && Inv(DenyWrite(fs, f).value)
    ensures Grown(fs.inodes, DenyWrite(fs, f).value.inodes)
  {
    hide *;
    IsFile(fs, f);
    FileInode(fs, f);
    DenyBound(fs, f);
    DenyIs(fs, f);
    var p := fs.files[f].inode;
    if !fs.files[f].deny {
      ChangeFileOk(fs, f, fs.files[f].(deny := true), fs.inodes[p].(denyCnt := fs.inodes[p].denyCnt + 1));
    }
  }

  /** What denying and allowing change. */
  lemma DenyIs(fs: Fs, f: int)
    requires f in fs.files && fs.files[f].inode in fs.inodes
    ensures var p := fs.files[f].inode; var m := fs.inodes[p]; var file := fs.files[f];
      && (file.deny ==> DenyWrite(fs, f) == Some(fs)) && (!file.deny ==> AllowWrite(fs, f) == Some(fs))
      && (!file.deny && m.denyCnt < m.openCnt ==>
           DenyWrite(fs, f) == Some(fs.(files := fs.files[f := file.(deny := true)],
                                        inodes := fs.inodes[p := m.(denyCnt := m.denyCnt + 1)])))
      && (file.deny && 0 < m.denyCnt <= m.openCnt ==>
           AllowWrite(fs, f) == Some(fs.(files := fs.files[f := file.(deny := false)],
                                         inodes := fs.inodes[p := m.(denyCnt := m.denyCnt - 1)])))
      && Grown(fs.inodes, fs.inodes) && Grown(fs.inodes, fs.inodes[p := m.(denyCnt := m.denyCnt + 1)])
  {
  }

  lemma AllowOk(fs: Fs, f: int)
    requires Inv(fs) && IsUserFile(fs, f)
    ensures fs.files[f].inode in fs.inodes && AllowWrite(fs, f).Some? && Inv(AllowWrite(fs, f).value)
  {
    hide *;
    IsFile(fs, f);
    FileInode(fs, f);
    DenyBound(fs, f);
    DenyIs(fs, f);
    var p := fs.files[f].inode;
    if fs.files[f].deny {
      ChangeFileOk(fs, f, fs.files[f].(deny := false), fs.inodes[p].(denyCnt := fs.inodes[p].denyCnt - 1));
    }
  }

  lemma AllowFrame(fs: Fs, f: int)
    requires f in fs.files && fs.files[f].inode in fs.inodes && AllowWrite(fs, f).Some?
    ensures var fs', p := AllowWrite(fs, f).value, fs.files[f].inode;
      && fs' == fs.(inodes := fs'.inodes, files := fs.files[f := fs.files[f].(deny := false)])
      && p in fs'.inodes && fs'.inodes == fs.inodes[p := fs.inodes[p].(denyCnt := fs'.inodes[p].denyCnt)]
  {
    if !fs.files[f].deny { assert fs.files[f := fs.files[f].(deny := false)] == fs.files; }
  }

  /** An open file becomes an opening by no file. */
  lemma DropFileOk(fs: Fs, f: int)
    requires Inv(fs) && f in fs.files && !fs.files[f].deny
    ensures Ok(fs.(files := fs.files - {f}), multiset{fs.files[f].inode}, {})
  {
    hide SectorsOk, DirOk, MemOk, Linked, MemSectors, On, Denying, MapOk;
    forall q ensures |On(fs.files - {f}, q)| + multiset{fs.files[f].inode}[q] == |On(fs.files,
        q)| && Denying(fs.files - {f}, q) == Denying(fs.files, q) {
      OneLess(fs.files, f, q);
    }
  }

  lemma OneLess(files: Files, f: int, q: int)
    requires f in files && !files[f].deny
    ensures |On(files - {f}, q)| + multiset{files[f].inode}[q] == |On(files, q)|
    ensures Denying(files - {f}, q) == Denying(files, q)
  {
    assert On(files - {f}, q) == if q == files[f].inode then On(files, q) - {f} else On(files, q);
    assert Denying(files - {f}, q) == Denying(files, q);
  }

  /** What file_close does: one opening less; at the last the inode leaves memory, and if its name is gone
      its sectors become free, and only then. */
  ghost predicate FileClosed(fs: Fs, fs': Fs, f: int)
    requires f in fs.files && fs.files[f].inode in fs.inodes
  {
    var p := fs.files[f].inode;
    var m := fs.inodes[p];
    var last := m.openCnt == 1;
    && OnlyMap(fs.disk, fs'.disk) && (!(last && m.removed) ==> fs'.disk == fs.disk)
    && fs'.files == fs.files - {f} && fs'.refs == fs.refs - multiset{p} && |fs'.bits| == |fs.bits|
    && (forall q :: q in fs'.inodes <==> q in fs.inodes && !(last && q == p))
    && (forall q | q in fs'.inodes :: SameInode(fs.inodes[q], fs'.inodes[q]))
    && (forall x | 0 <= x < |fs.bits| ::
        fs'.bits[x] == (fs.bits[x] && !(last && m.removed && Owns(fs.disk, m.sector, x))))
  }

  lemma CloseFileOk(fs: Fs, f: int, bounces: Bounces)
    requires Inv(fs) && IsUserFile(fs, f)
    ensures fs.files[f].inode in fs.inodes && Close(fs, f, bounces).Some?
    ensures Inv(Close(fs, f, bounces).value) && FileClosed(fs, Close(fs, f, bounces).value, f)
  {
    hide *;
    IsFile(fs, f);
    FileInode(fs, f);
    AllowOk(fs, f);
    AllowFrame(fs, f);
    var p := fs.files[f].inode;
    var fs1 := AllowWrite(fs, f).value;
    var fs2 := fs1.(files := fs1.files - {f});
    DropFileOk(fs1, f);
    DropKeepsMap(fs1, f);
    assert multiset{p} - multiset{p} == multiset{};
    assert fs2.files == fs.files - {f};
    CloseOk(fs2, p, bounces, multiset{p}, {});
    ClosedFile(fs, fs2, InodeClose(fs2, p, bounces).value, f);
    CloseIs(fs, f, bounces);
    IntroInv(InodeClose(fs2, p, bounces).value);
  }

  lemma IsFile(fs: Fs, f: int)
    requires IsUserFile(fs, f)
    ensures f in fs.files && f != FREE_MAP
  {
  }

  lemma SameFile(fs: Fs, fs1: Fs, f: int)
    requires IsUserFile(fs, f) && fs1.files == fs.files
    ensures IsUserFile(fs1, f)
  {
  }

  lemma DropKeepsMap(fs1: Fs, f: int)
    requires Inv(fs1) && f != FREE_MAP
    ensures MapThere(fs1.(files := fs1.files - {f})) && MapOk(fs1.(files := fs1.files - {f}))
  {
    SameUntouched(fs1.disk, FREE_MAP);
    hide Ok, FilesApart, Untouched;
    MapKept(fs1, fs1.(files := fs1.files - {f}));
  }

  lemma CloseIs(fs: Fs, f: int, bounces: Bounces)
    requires f in fs.files && fs.files[f].inode in fs.inodes && AllowWrite(fs, f).Some?
    ensures var fs1 := AllowWrite(fs, f).value;
      Close(fs, f, bounces) == InodeClose(fs1.(files := fs1.files - {f}), fs.files[f].inode, bounces)
  {
  }

  lemma ClosedFile(fs: Fs, fs2: Fs, fs': Fs, f: int)
    requires Inv(fs) && f in fs.files && fs.files[f].inode in fs.inodes
    requires fs2 == fs.(inodes := fs2.inodes, files := fs.files - {f})
    requires var p := fs.files[f].inode;
      p in fs2.inodes && fs2.inodes == fs.inodes[p := fs.inodes[p].(denyCnt := fs2.inodes[p].denyCnt)]
    requires ClosedAs(fs2, fs', fs.files[f].inode) && Ok(fs', multiset{}, {})
    ensures FileClosed(fs, fs', f) && FilesApart(fs')
  {
    hide SectorsOk, DirOk, MemOk, FilesOk, Linked, MemSectors, Owns, MapOk, OnlyMap;
    var p := fs.files[f].inode;
    assert fs2.inodes[p].openCnt > 0;
    forall g | g in fs'.files ensures fs'.files[g].inode in fs'.inodes { InodeThere(fs', g); }
  }

  lemma InodeThere(fs: Fs, g: int)
    requires Ok(fs, multiset{}, {}) && g in fs.files
    ensures fs.files[g].inode in fs.inodes
  {
    var p := fs.files[g].inode;
    assert g in On(fs.files, p);
    assert fs.refs[p] == |On(fs.files, p)|;
  }

  // ---- reading and writing ----

  /** The sector of the inode of an open file. */
  function SectorOfFile(fs: Fs, f: int): int
    requires f in fs.files && fs.files[f].inode in fs.inodes
  {
    fs.inodes[fs.files[f].inode].sector
  }

  function FileBytes(fs: Fs, f: int): seq<Byte>
    requires f in fs.files && fs.files[f].inode in fs.inodes
  {
    BytesOf(fs, fs.inodes[fs.files[f].inode])
  }

  lemma FileOwned(fs: Fs, f: int)
    requires Inv(fs) && f in fs.files
    ensures fs.files[f].inode in fs.inodes
    ensures var m := fs.inodes[fs.files[f].inode];
      && m.sector in Owners(fs.disk, fs.inodes, {}) && m.sector in fs.disk
      && fs.disk[m.sector] == Node(m.start, m.length)
      && DataOk(fs.disk, m.start, Sectors(m.length)) && m.sector != ROOT
  {
    FileInode(fs, f);
    var m := fs.inodes[fs.files[f].inode];
    assert MemAt(fs.disk, Linked(fs.disk), m);
    InMem(fs.inodes, fs.files[f].inode);
    assert OwnerAt(fs.disk, fs.owner, |fs.bits|, m.sector);
  }

  lemma SeekOk(fs: Fs, f: int, pos: int)
    requires Inv(fs) && IsUserFile(fs, f) && 0 <= pos
    ensures Inv(Seek(fs, f, pos))
  {
    FileInode(fs, f);
    hide Ok, FilesApart, MapOk;
    var p := fs.files[f].inode;
    assert fs.inodes[p := fs.inodes[p]] == fs.inodes;
    ChangeFileOk(fs, f, fs.files[f].(pos := pos), fs.inodes[p]);
  }

  /** file_read gives the bytes of the file from the position on, cut at its end, and moves the position. */
  lemma ReadOk(fs: Fs, f: int, size: int)
    requires Inv(fs) && IsUserFile(fs, f)
    ensures fs.files[f].inode in fs.inodes && 0 <= fs.files[f].pos && Inv(Read(fs, f, size).0)
    ensures var (fs', bs) := Read(fs, f, size); var n := Movable(|FileBytes(fs, f)|, size, fs.files[f].pos);
      && |bs| == n && (n > 0 ==> bs == FileBytes(fs, f)[fs.files[f].pos..fs.files[f].pos + n])
      && fs' == Seek(fs, f, fs.files[f].pos + n)
  {
    hide *;
    IsFile(fs, f);
    FileInode(fs, f);
    ReadIs(fs, f, size);
    SeekOk(fs, f, fs.files[f].pos + |Read(fs, f, size).1|);
  }

  lemma ReadIs(fs: Fs, f: int, size: int)
    requires f in fs.files && fs.files[f].inode in fs.inodes && 0 <= fs.files[f].pos
    ensures var (fs', bs) := Read(fs, f, size); var n := Movable(|FileBytes(fs, f)|, size, fs.files[f].pos);
      && |bs| == n && (n > 0 ==> bs == FileBytes(fs, f)[fs.files[f].pos..fs.files[f].pos + n])
      && fs' == Seek(fs, f, fs.files[f].pos + n)
  {
    hide ByteOf;
  }

  /** A write to the data of inode s keeps everything in order. */
  lemma DataWriteOk(fs: Fs, s: int, denied: bool, bs: seq<Byte>, offset: int)
    requires Inv(fs) && s in Owners(fs.disk, fs.inodes, {}) && s != ROOT && s != FREE_MAP && s in fs.disk
    requires fs.disk[s].Node? && 0 <= offset
    ensures var disk' := WriteAt(fs.disk, fs.disk[s].start, fs.disk[s].length, denied, bs, offset).0;
      && Inv(fs.(disk := disk')) && forall t | t in Owners(fs.disk, fs.inodes, {})
      && t != s :: Untouched(fs.disk, disk', t)
  {
    var own := Owners(fs.disk, fs.inodes, {});
    var disk' := WriteAt(fs.disk, fs.disk[s].start, fs.disk[s].length, denied, bs, offset).0;
    WriteOk(fs.bits, fs.disk, fs.owner, own, s, denied, bs, offset);
    hide *;
    SystemOwned(fs);
    UntouchedSame(fs.disk, disk', ROOT);
    MemWritten(fs, s, disk');
    MapNotWritten(fs, disk');
    InvWritten(fs, disk');
  }

  lemma MapNotWritten(fs: Fs, disk': Disk)
    requires Inv(fs) && Untouched(fs.disk, disk', FREE_MAP)
    ensures MapOk(fs.(disk := disk'))
  {
    hide Ok, FilesApart, Untouched;
    MapKept(fs, fs.(disk := disk'));
  }

  lemma SystemOwned(fs: Fs)
    requires Inv(fs)
    ensures ROOT in Owners(fs.disk, fs.inodes, {}) && ROOT in fs.disk && fs.disk[ROOT].Node?
    ensures FREE_MAP in Owners(fs.disk, fs.inodes, {})
  {
    LinkedSystem(fs.disk);
    RootNode(fs, multiset{});
    hide Inv, Linked;
  }

  /** What is left to show after a write to the disk that does not touch the directory. */
  lemma InvWritten(fs: Fs, disk': Disk)
    requires Inv(fs) && SectorsOk(fs.bits, disk', fs.owner, Owners(fs.disk, fs.inodes, {}))
    requires MemOk(fs.inodes, fs.open, disk', Linked(fs.disk)) && MapOk(fs.(disk := disk'))
    requires ROOT in fs.disk && ROOT in disk' && disk'[ROOT] == fs.disk[ROOT] && fs.disk[ROOT].Node?
    requires Content(disk', fs.disk[ROOT].start, fs.disk[ROOT].length)
      == Content(fs.disk, fs.disk[ROOT].start, fs.disk[ROOT].length)
    ensures Inv(fs.(disk := disk'))
  {
    SameDirOk(fs.disk, disk');
    hide SectorsOk, FilesOk, RefsOk, MemOk, DirOk, Linked, MemSectors, MapOk;
  }

  lemma MemWritten(fs: Fs, s: int, disk': Disk)
    requires Inv(fs) && s in Owners(fs.disk, fs.inodes, {}) && s in fs.disk && s in disk' && disk'[s] == fs.disk[s]
    requires forall t | t in Owners(fs.disk, fs.inodes, {}) && t != s :: Untouched(fs.disk, disk', t)
    ensures MemOk(fs.inodes, fs.open, disk', Linked(fs.disk))
  {
    hide SectorsOk, FilesOk, RefsOk, DirOk, Untouched, Linked, MapOk;
    forall p | p in fs.inodes ensures MemAt(disk', Linked(fs.disk), fs.inodes[p]) {
      assert MemAt(fs.disk, Linked(fs.disk), fs.inodes[p]);
      InMem(fs.inodes, p);
      if fs.inodes[p].sector != s { NodesSame(fs.disk, disk', fs.inodes[p].sector); }
    }
  }

  /** file_write splices the bytes into the file at the position, cut at the end of the file; none if writing
      is denied.  It touches no other inode. */
  lemma WriteFileOk(fs: Fs, f: int, bs: seq<Byte>)
    requires Inv(fs) && IsUserFile(fs, f)
    ensures fs.files[f].inode in fs.inodes && 0 <= fs.files[f].pos && Inv(Write(fs, f, bs).0)
    ensures var (fs', n) := Write(fs, f, bs); var m := fs.inodes[fs.files[f].inode];
      && n == (if m.denyCnt != 0 then 0 else Movable(m.length, |bs|, fs.files[f].pos))
      && fs' == Seek(fs.(disk := fs'.disk), f, fs.files[f].pos + n)
      && BytesOf(fs', m) == (if n == 0 then BytesOf(fs, m) else Splice(BytesOf(fs, m), fs.files[f].pos, bs[..n]))
      && (forall t | t in Owners(fs.disk, fs.inodes, {}) && t != m.sector :: Untouched(fs.disk, fs'.disk, t))
  {
    hide *;
    IsFile(fs, f);
    FileOwned(fs, f);
    FileInode(fs, f);
    WriteIs(fs, f, bs);
    var m := fs.inodes[fs.files[f].inode];
    DataWriteOk(fs, m.sector, m.denyCnt != 0, bs, fs.files[f].pos);
    WriteAtSplices(fs.disk, m.start, m.length, m.denyCnt != 0, bs, fs.files[f].pos);
    var (fs1, n) := InodeWrite(fs, fs.files[f].inode, bs, fs.files[f].pos);
    SameFile(fs, fs1, f);
    SeekOk(fs1, f, fs.files[f].pos + n);
    WrittenBytes(fs, f, bs);
  }

  lemma WriteIs(fs: Fs, f: int, bs: seq<Byte>)
    requires f in fs.files && fs.files[f].inode in fs.inodes && 0 <= fs.files[f].pos
    ensures var (fs', n) := Write(fs, f, bs); var m := fs.inodes[fs.files[f].inode]; var pos := fs.files[f].pos;
      && n == (if m.denyCnt != 0 then 0 else Movable(m.length, |bs|, pos)) && n >= 0
      && InodeWrite(fs, fs.files[f].inode, bs, pos)
           == (fs.(disk := WriteAt(fs.disk, m.start, m.length, m.denyCnt != 0, bs, pos).0), n)
      && fs' == Seek(fs.(disk := WriteAt(fs.disk, m.start, m.length, m.denyCnt != 0, bs, pos).0), f, pos + n)
      && fs'.disk == WriteAt(fs.disk, m.start, m.length, m.denyCnt != 0, bs, pos).0
  {
    hide WriteBytes;
  }

  lemma WrittenBytes(fs: Fs, f: int, bs: seq<Byte>)
    requires f in fs.files && fs.files[f].inode in fs.inodes && 0 <= fs.files[f].pos
    requires var m := fs.inodes[fs.files[f].inode]; DataOk(fs.disk, m.start, Sectors(m.length))
    ensures var (fs', n) := Write(fs, f, bs); var m := fs.inodes[fs.files[f].inode];
      0 <= n <= |bs| && (n > 0 ==> fs.files[f].pos + n <= m.length)
      && BytesOf(fs', m) == (if n == 0 then BytesOf(fs, m) else Splice(BytesOf(fs, m), fs.files[f].pos, bs[..n]))
  {
    var m := fs.inodes[fs.files[f].inode];
    WriteIs(fs, f, bs);
    WriteAtSplices(fs.disk, m.start, m.length, m.denyCnt != 0, bs, fs.files[f].pos);
    hide WriteBytes, Splice, DataOk, ByteOf, Write, WriteAt;
  }
}
