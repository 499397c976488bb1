/** What the operations of the file system keep. */
module FileSysInvariant {
  import opened Options
  import opened Bitmap
  import opened Bytes
  import opened Disk
  import opened Directory
  import opened MapFile
  import opened FileSys

  // ---- sectors ----

  /** Sector x is the inode at s, or holds its data. */
  ghost predicate Owns(disk: Disk, s: int, x: int) {
    s in disk && disk[s].Node? && (x == s || InRange(disk[s].start, Sectors(disk[s].length), x))
  }

  ghost predicate OwnerAt(disk: Disk, owner: map<int, int>, size: int, s: int) {
    && s in disk && disk[s].Node? && !InRange(disk[s].start, Sectors(disk[s].length), s) && 0 <= disk[s].start <= size
    && (forall x :: x in owner && owner[x] == s <==> Owns(disk, s, x))
    && DataOk(disk, disk[s].start, Sectors(disk[s].length))
  }

  /** The used sectors are those of the inodes in `own`, each of one of them only, and those that no inode has. */
  ghost predicate SectorsOk(bits: seq<bool>, disk: Disk, owner: map<int, int>, own: set<int>) {
    && 2 <= |bits| <= 0x1_0000_0000 && NOBODY !in own
    && (forall x :: x in owner <==> 0 <= x < |bits| && bits[x])
    && (forall s | s in own :: OwnerAt(disk, owner, |bits|, s))
    && (forall x | x in owner :: owner[x] == NOBODY || owner[x] in own)
    && (forall x | 0 <= x < |bits| :: x in disk)
  }

  lemma OwnedUsed(bits: seq<bool>, disk: Disk, owner: map<int, int>, own: set<int>, s: int, x: int)
    requires SectorsOk(bits, disk, owner, own) && s in own && Owns(disk, s, x)
    ensures 0 <= x < |bits| && bits[x] && x in owner && owner[x] == s
  {
    assert OwnerAt(disk, owner, |bits|, s);
  }

  lemma DropOwner(bits: seq<bool>, bits': seq<bool>, disk: Disk, owner: map<int, int>, owner': map<int, int>,
                  own: set<int>, s: int)
    requires SectorsOk(bits, disk, owner, own) && s in own && |bits'| == |bits|
    requires forall x | 0 <= x < |bits| :: bits'[x] == (bits[x] && !Owns(disk, s, x))
    requires forall x :: x in owner' <==> x in owner && !Owns(disk, s, x)
    requires forall x | x in owner' :: owner'[x] == owner[x]
    ensures SectorsOk(bits', disk, owner', own - {s})
  {
    assert OwnerAt(disk, owner, |bits|, s);
    forall t | t in own - {s} ensures OwnerAt(disk, owner', |bits|, t) { assert OwnerAt(disk, owner, |bits|, t); }
  }

  /** A file's data is in the free map, at proper places even if it has no sector. */
  lemma DataUsed(bits: seq<bool>, disk: Disk, owner: map<int, int>, own: set<int>, s: int)
    requires SectorsOk(bits, disk, owner, own) && s in own && s in disk && disk[s].Node?
    ensures AllUsed(bits, disk[s].start, Sectors(disk[s].length))
  {
    var start, n := disk[s].start, Sectors(disk[s].length);
    assert OwnerAt(disk, owner, |bits|, s);
    forall x | start <= x < start + n ensures 0 <= x < |bits| && bits[x] {
      assert Owns(disk, s, x);
      OwnedUsed(bits, disk, owner, own, s, x);
    }
    if n > 0 {
      assert Owns(disk, s, start + n - 1);
      OwnedUsed(bits, disk, owner, own, s, start + n - 1);
    }
  }

  /** The sectors of inode s are as they were. */
  ghost predicate Untouched(disk: Disk, disk': Disk, s: int) {
    forall x | Owns(disk, s, x) :: (x in disk <==> x in disk') && (x in disk ==> disk'[x] == disk[x])
  }

  lemma UntouchedSame(disk: Disk, disk': Disk, s: int)
    requires Untouched(disk, disk', s) && s in disk && disk[s].Node?
    ensures s in disk' && disk'[s] == disk[s]
    ensures Content(disk', disk[s].start, disk[s].length) == Content(disk, disk[s].start, disk[s].length)
    ensures forall x :: Owns(disk', s, x) <==> Owns(disk, s, x)
  {
    var start, length := disk[s].start, disk[s].length;
    assert Owns(disk, s, s);
    forall k | 0 <= k < length ensures ByteOf(disk', start, k) == ByteOf(disk, start, k) {
      assert Owns(disk, s, SectorOf(start, k));
    }
  }


  // ---- the free map and its file ----

  /** Only sectors of the `n` from `start` on differ. */
  ghost predicate SameBut(disk: Disk, disk': Disk, start: int, n: int) {
    forall x | !InRange(start, n, x) :: (x in disk <==> x in disk') && (x in disk ==> disk'[x] == disk[x])
  }

  /** Only data of the free map's file differs. */
  ghost predicate OnlyMap(disk: Disk, disk': Disk) {
    if FREE_MAP in disk && disk[FREE_MAP].Node? then
      disk == disk' || SameBut(disk, disk', disk[FREE_MAP].start, Sectors(disk[FREE_MAP].length))
    else disk == disk'
  }

  /** The free map's file is open, and as long as the map; nobody denies writing to it. */
  ghost predicate MapThere(fs: Fs) {
    && |fs.bits| <= 0x1_0000_0000 && FREE_MAP in fs.files && fs.files[FREE_MAP].inode in fs.inodes
    && var m := fs.inodes[fs.files[FREE_MAP].inode];
       && m.sector == FREE_MAP && m.denyCnt == 0 && m.length == MapBytes(|fs.bits|)
       && FREE_MAP in fs.disk && fs.disk[FREE_MAP] == Node(m.start, m.length)
  }

  /** The map that bitmap_read would find in the file. */
  ghost function MapRead(fs: Fs): seq<bool>
    requires MapThere(fs)
  {
    Decode(BytesOf(fs, fs.inodes[fs.files[FREE_MAP].inode]), |fs.bits|)
  }

  /** If the last writing of the map was complete, its file holds it. */
  ghost predicate MapOk(fs: Fs) {
    MapThere(fs) && (fs.synced ==> MapRead(fs) == fs.bits)
  }

  /** While the disk is formatted, the file may not be there yet. */
  ghost predicate MapReady(fs: Fs, own: set<int>) {
    FREE_MAP in fs.files ==> MapThere(fs) && FREE_MAP in own
  }

  /** Writing the map is complete: there is a bounce buffer, or no need of one. */
  predicate MapFits(size: nat, bounce: bool) {
    Writable(MapBytes(size), bounce) == MapBytes(size)
  }

  predicate CanWriteMap(fs: Fs, bounce: bool) {
    FREE_MAP in fs.files ==> MapFits(|fs.bits|, bounce)
  }

  /** Writing the map changes only the data of its file, which then holds what was written if all of it was. */
  lemma MapWriteOk(bits0: seq<bool>, owner0: map<int, int>, fs: Fs, own: set<int>, bits: seq<bool>, bounce: bool)
    requires SectorsOk(bits0, fs.disk, owner0, own) && MapThere(fs) && FREE_MAP in own && |bits| == |fs.bits| >= 2
    ensures var (fs1, written) := MapWrite(fs, bits, bounce);
      && fs1 == fs.(disk := fs1.disk, synced := written) && (written <==> MapFits(|bits|, bounce))
      && SectorsOk(bits0, fs1.disk, owner0, own) && OnlyMap(fs.disk, fs1.disk) && MapThere(fs1)
      && (written ==> MapRead(fs1) == bits)
  {
    var m, bytes := fs.inodes[fs.files[FREE_MAP].inode], Encode(bits);
    var bs := bytes[..Writable(|bytes|, bounce)];
    assert OwnerAt(fs.disk, owner0, |bits0|, FREE_MAP);
    hide Encode, MapBytes, SectorsOk, DataOk, WriteBytes, Content, SameBut;
    WriteOk(bits0, fs.disk, owner0, own, FREE_MAP, false, bs, 0);
    WriteAtSplices(fs.disk, m.start, m.length, false, bs, 0);
    if |bs| == |bytes| {
      WholeSplice(Content(fs.disk, m.start, m.length), bytes);
      DecodeEncode(bits);
    }
  }

  lemma WholeSplice(c: seq<Byte>, bs: seq<Byte>)
    requires |c| == |bs|
    ensures Splice(c, 0, bs) == bs && bs[..|bs|] == bs
  {
  }

  lemma OnlyMapUntouched(bits: seq<bool>, disk: Disk, owner: map<int, int>, own: set<int>, disk': Disk, t: int)
    requires SectorsOk(bits, disk, owner, own) && FREE_MAP in own && OnlyMap(disk, disk') && t in own && t != FREE_MAP
    ensures Untouched(disk, disk', t)
  {
    assert OwnerAt(disk, owner, |bits|, t);
    assert OwnerAt(disk, owner, |bits|, FREE_MAP);
    forall x | Owns(disk, t, x) ensures (x in disk <==> x in disk') && (x in disk ==> disk'[x] == disk[x]) {
      assert x in owner && owner[x] == t;
      assert !Owns(disk, FREE_MAP, x);
    }
  }

  lemma OnlyMapTwice(disk: Disk, disk2: Disk, disk3: Disk)
    requires OnlyMap(disk, disk2) && OnlyMap(disk2, disk3)
    requires FREE_MAP in disk && disk[FREE_MAP].Node? ==>
      !InRange(disk[FREE_MAP].start, Sectors(disk[FREE_MAP].length), FREE_MAP)
    ensures OnlyMap(disk, disk3)
  {
  }

  /** free_map_release of sectors that are used clears their bits, and no others. */
  lemma ReleaseOk(bits0: seq<bool>, owner0: map<int, int>, fs: Fs, own: set<int>, sector: int, cnt: nat, bounce: bool)
    requires SectorsOk(bits0, fs.disk, owner0, own) && MapThere(fs) && FREE_MAP in own && |fs.bits| >= 2
    requires AllUsed(fs.bits, sector, cnt)
    ensures FreeMapRelease(fs, sector, cnt, bounce).Some?
    ensures var fs1 := FreeMapRelease(fs, sector, cnt, bounce).value;
      && fs1 == fs.(bits := fs1.bits, disk := fs1.disk, synced := fs1.synced)
      && fs1.bits == Set(fs.bits, sector, cnt, false)
      && SectorsOk(bits0, fs1.disk, owner0, own) && OnlyMap(fs.disk, fs1.disk) && MapOk(fs1)
  {
    hide SectorsOk, OnlyMap, MapThere, MapRead, MapFits, MapWrite;
    var bits := Set(fs.bits, sector, cnt, false);
    MapWriteOk(bits0, owner0, fs, own, bits, bounce);
    MapReadSame(MapWrite(fs, bits, bounce).0, bits);
  }

  /** The sectors of an inode that goes become free, and no others. */
  lemma FreeSectorsOk(fs: Fs, own: set<int>, m: Mem, bounces: Bounces)
    requires SectorsOk(fs.bits, fs.disk, fs.owner, own) && MapThere(fs) && FREE_MAP in own
    requires m.sector in own && m.sector != FREE_MAP && m.sector in fs.disk
    requires fs.disk[m.sector] == Node(m.start, m.length)
    ensures FreeSectors(fs, m, bounces).Some?
    ensures var fs' := FreeSectors(fs, m, bounces).value;
      && fs' == fs.(bits := fs'.bits, disk := fs'.disk, owner := fs'.owner, synced := fs'.synced)
      && SectorsOk(fs'.bits, fs'.disk, fs'.owner, own - {m.sector}) && OnlyMap(fs.disk, fs'.disk) && MapOk(fs')
      && |fs'.bits| == |fs.bits|
      && (forall x | 0 <= x < |fs.bits| :: fs'.bits[x] == (fs.bits[x] && !Owns(fs.disk, m.sector, x)))
  {
    var s, n := m.sector, Sectors(m.length);
    SizeAtLeast(fs, own);
    OwnedUsed(fs.bits, fs.disk, fs.owner, own, s, s) by { assert OwnerAt(fs.disk, fs.owner, |fs.bits|, s); }
    assert AllUsed(fs.bits, s, 1);
    DataUsed(fs.bits, fs.disk, fs.owner, own, s);
    NotInOwnData(fs, own, s);
    NotInOwnData(fs, own, FREE_MAP);
    hide SectorsOk, MapOk, MapThere, OnlyMap, FreeMapRelease, DataOk, Untouched;
    ReleaseOk(fs.bits, fs.owner, fs, own, s, 1, bounces.first);
    var fs1 := FreeMapRelease(fs, s, 1, bounces.first).value;
    assert MapThere(fs1) by { MapOkThere(fs1); }
    ReleaseOk(fs.bits, fs.owner, fs1, own, m.start, n, bounces.second);
    var fs' := FreeSectors(fs, m, bounces).value;
    OnlyMapTwice(fs.disk, fs1.disk, fs'.disk);
    OnlyMapUntouched(fs.bits, fs.disk, fs.owner, own, fs'.disk, s);
    UntouchedSame(fs.disk, fs'.disk, s);
    MapOkOwner(fs', FreeMapRelease(fs1, m.start, n, bounces.second).value);
    DropOwner(fs.bits, fs'.bits, fs'.disk, fs.owner, fs'.owner, own, s);
  }

  lemma MapOkThere(fs: Fs)
    requires MapOk(fs)
    ensures MapThere(fs)
  {
  }

  lemma MapOkOwner(fs: Fs, fs1: Fs)
    requires fs == fs1.(owner := fs.owner)
    ensures MapOk(fs1) <==> MapOk(fs)
  {
  }

  lemma NotInOwnData(fs: Fs, own: set<int>, s: int)
    requires SectorsOk(fs.bits, fs.disk, fs.owner, own) && s in own
    ensures s in fs.disk && fs.disk[s].Node? && !InRange(fs.disk[s].start, Sectors(fs.disk[s].length), s)
  {
    assert OwnerAt(fs.disk, fs.owner, |fs.bits|, s);
  }

  /** free_map_allocate takes the lowest group of free sectors, if there is one and the map can be written. */
  lemma AllocateOk(fs: Fs, own: set<int>, cnt: nat, bounce: bool)
    requires SectorsOk(fs.bits, fs.disk, fs.owner, own) && MapReady(fs, own)
    ensures var (fs1, r) := FreeMapAllocate(fs, cnt, bounce);
      && fs1 == fs.(bits := fs1.bits, disk := fs1.disk, synced := fs1.synced) && |fs1.bits| == |fs.bits|
      && SectorsOk(fs.bits, fs1.disk, fs.owner, own) && OnlyMap(fs.disk, fs1.disk) && MapReady(fs1, own)
      && (MapOk(fs) ==> MapOk(fs1)) && (r.None? ==> fs1.bits == fs.bits)
      && (FREE_MAP !in fs.files ==> fs1.disk == fs.disk)
      && (r == if CanWriteMap(fs, bounce) then Scan(fs.bits, 0, cnt) else None)
      && (r.Some? ==>
           0 <= r.value && AllAre(fs.bits, r.value, cnt, false) && fs1.bits == Set(fs.bits, r.value, cnt, true))
  {
    hide SectorsOk, OnlyMap, MapThere, MapRead, MapFits, AllAre, MapWrite;
    var i := Scan(fs.bits, 0, cnt);
    MapSame(fs.disk);
    if i.Some? {
      assert i.value + cnt <= |fs.bits| by { AllAreFits(fs.bits, i.value, cnt); }
      var bits := Set(fs.bits, i.value, cnt, true);
      SizeAtLeast(fs, own);
      if FREE_MAP in fs.files {
        MapWriteOk(fs.bits, fs.owner, fs, own, bits, bounce);
        var fs1 := MapWrite(fs, bits, bounce).0;
        MapReadSame(fs1, bits);
      } else {
        NoMapFile(fs, bits, bounce);
      }
    }
  }

  lemma NoMapFile(fs: Fs, bits: seq<bool>, bounce: bool)
    requires FREE_MAP !in fs.files
    ensures MapWrite(fs, bits, bounce) == (fs, true) && !MapThere(fs)
  {
  }

  lemma AllAreFits(bits: seq<bool>, i: nat, cnt: nat)
    requires AllAre(bits, i, cnt, false)
    ensures i + cnt <= |bits|
  {
  }

  lemma SizeAtLeast(fs: Fs, own: set<int>)
    requires SectorsOk(fs.bits, fs.disk, fs.owner, own)
    ensures 2 <= |fs.bits| <= 0x1_0000_0000
  {
  }

  lemma MapSame(disk: Disk)
    ensures OnlyMap(disk, disk)
  {
  }

  /** What is read does not depend on the map in memory, but for its size. */
  lemma MapReadSame(fs: Fs, bits: seq<bool>)
    requires |bits| == |fs.bits|
    ensures MapThere(fs.(bits := bits)) <==> MapThere(fs)
    ensures MapThere(fs) ==> MapRead(fs.(bits := bits)) == MapRead(fs)
  {
  }

  /** A new inode, in a sector that no inode has, gets data sectors that were free; no other inode changes but the
      free map's. */
  lemma InodeCreateOk(fs: Fs, own: set<int>, a: int, length: Offset, bounce: bool)
    requires SectorsOk(fs.bits, fs.disk, fs.owner, own) && a in fs.owner && fs.owner[a] == NOBODY && a !in own
    requires MapReady(fs, own)
    ensures var (fs', made) := InodeCreate(fs, a, length, bounce);
      && fs' == fs.(bits := fs'.bits, disk := fs'.disk, owner := fs'.owner, synced := fs'.synced)
      && |fs'.bits| == |fs.bits|
      && (MapOk(fs) ==> MapOk(fs')) && MapReady(fs', own)
      && (!made ==> fs'.bits == fs.bits && fs'.owner == fs.owner && OnlyMap(fs.disk, fs'.disk) && SectorsOk(fs.bits,
          fs'.disk, fs.owner, own))
      && (made <==> CanWriteMap(fs, bounce) && Scan(fs.bits, 0, Sectors(length)).Some?)
      && (made ==> SectorsOk(fs'.bits, fs'.disk, fs'.owner,
                             own + {a}) && a in fs'.disk && fs'.disk[a].Node? && fs'.disk[a].length == length)
      && (made ==> forall s | s in own && s != FREE_MAP :: Untouched(fs.disk, fs'.disk, s))
      && (made ==> forall x | 0 <= x < |fs.bits| :: fs'.bits[x] == (fs.bits[x] || (x != a && Owns(fs'.disk, a, x))))
      && (made ==> forall x | 0 <= x < |fs.bits| :: fs.bits[x] ==> x == a || !Owns(fs'.disk, a, x))
  {
    hide SectorsOk, AllAre, Untouched, MapOk, MapThere, OnlyMap, CanWriteMap, Clear, Claim, FreeMapAllocate;
    var n := Sectors(length);
    AllocateOk(fs, own, n, bounce);
    var (fs1, r) := FreeMapAllocate(fs, n, bounce);
    if r.Some? {
      var fs0 := fs.(disk := fs1.disk, synced := fs1.synced);
      var disk := PutInode(fs1, a, r.value, length).disk;
      FreshRange(fs0, own, r.value, n);
      NewInode(fs0, own, a, r.value, length, fs1.bits);
      forall s | s in own && s != FREE_MAP
        ensures Untouched(fs.disk, disk, s)
      {
        UntouchedByBoth(fs, own, fs1.disk, disk, s);
      }
      if FREE_MAP in fs.files { PutInodeKeepsMap(fs1, own, a, r.value, length); } else { NoMapThere(fs); }
    }
  }

  lemma NoMapThere(fs: Fs)
    requires FREE_MAP !in fs.files
    ensures !MapOk(fs)
  {
  }

  lemma PutInodeKeepsMap(fs1: Fs, own: set<int>, a: int, start: int, length: Offset)
    requires MapReady(fs1, own) && FREE_MAP in fs1.files
    requires Untouched(fs1.disk, PutInode(fs1, a, start, length).disk, FREE_MAP)
    ensures var fs' := PutInode(fs1, a, start, length); MapReady(fs', own) && (MapOk(fs1) ==> MapOk(fs'))
  {
    hide Clear, Claim, Untouched;
    MapKept(fs1, PutInode(fs1, a, start, length));
  }

  /** What leaves the map's inode and data as they were. */
  lemma MapKept(fs: Fs, fs': Fs)
    requires MapThere(fs) && FREE_MAP in fs'.files && fs'.files[FREE_MAP].inode == fs.files[FREE_MAP].inode
    requires var p := fs.files[FREE_MAP].inode;
      && p in fs'.inodes
      && fs'.inodes[p] == fs.inodes[p].(openCnt := fs'.inodes[p].openCnt, removed := fs'.inodes[p].removed)
    requires fs'.bits == fs.bits && fs'.synced == fs.synced && Untouched(fs.disk, fs'.disk, FREE_MAP)
    ensures MapThere(fs') && (MapOk(fs) ==> MapOk(fs'))
  {
    UntouchedSame(fs.disk, fs'.disk, FREE_MAP);
    hide Untouched, Owns, Content, Decode;
  }

  lemma UntouchedByBoth(fs: Fs, own: set<int>, disk1: Disk, disk: Disk, s: int)
    requires SectorsOk(fs.bits, fs.disk, fs.owner, own) && s in own && s != FREE_MAP && OnlyMap(fs.disk, disk1)
    requires FREE_MAP in own || disk1 == fs.disk
    requires Untouched(disk1, disk, s)
    ensures Untouched(fs.disk, disk, s)
  {
    NotInOwnData(fs, own, s);
    if FREE_MAP in own {
      OnlyMapUntouched(fs.bits, fs.disk, fs.owner, own, disk1, s);
      UntouchedSame(fs.disk, disk1, s);
    }
  }

  lemma FreshRange(fs: Fs, own: set<int>, start: nat, n: nat)
    requires SectorsOk(fs.bits, fs.disk, fs.owner, own) && AllAre(fs.bits, start, n, false)
    ensures start + n <= |fs.bits| && forall x | InRange(start, n, x) ::
      x !in fs.owner && 0 <= x < |fs.bits| && !fs.bits[x]
  {
  }

  lemma NewInode(fs: Fs, own: set<int>, a: int, start: int, length: Offset, bits: seq<bool>)
    requires SectorsOk(fs.bits, fs.disk, fs.owner, own) && a in fs.owner && fs.owner[a] == NOBODY && a !in own
    requires 0 <= start <= |fs.bits| && |bits| == |fs.bits|
    requires forall x | InRange(start, Sectors(length), x) :: x !in fs.owner && 0 <= x < |fs.bits|
    requires forall x | 0 <= x < |bits| :: bits[x] == (fs.bits[x] || InRange(start, Sectors(length), x))
    ensures var disk := Clear(fs.disk[a := Node(start, length)], start, Sectors(length));
      && SectorsOk(bits, disk, Claim(fs.owner[a := a], start, Sectors(length), a), own + {a})
      && (forall s | s in own :: Untouched(fs.disk, disk, s))
      && a in disk && disk[a] == Node(start, length)
      && (forall x :: Owns(disk, a, x) <==> x == a || InRange(start, Sectors(length), x))
  {
    hide Untouched, Claim, Clear;
    var n := Sectors(length);
    var disk, owner := Clear(fs.disk[a := Node(start, length)], start, n), Claim(fs.owner[a := a], start, n, a);
    forall s | s in own ensures OwnerAt(disk, owner, |bits|, s) && Untouched(fs.disk, disk, s) {
      OtherInode(fs, own, a, start, length, s);
    }
    forall x | InRange(start, n, x) ensures IsData(disk, x) {}
    assert OwnerAt(disk, owner, |bits|, a);
  }

  lemma OtherInode(fs: Fs, own: set<int>, a: int, start: int, length: Offset, s: int)
    requires SectorsOk(fs.bits, fs.disk, fs.owner, own) && a in fs.owner && fs.owner[a] == NOBODY && a !in own
    requires s in own
    requires forall x | InRange(start, Sectors(length), x) :: x !in fs.owner
    ensures var disk := Clear(fs.disk[a := Node(start, length)], start, Sectors(length));
      OwnerAt(disk, Claim(fs.owner[a := a], start, Sectors(length), a), |fs.bits|, s) && Untouched(fs.disk, disk, s)
  {
    assert OwnerAt(fs.disk, fs.owner, |fs.bits|, s);
    var disk := Clear(fs.disk[a := Node(start, length)], start, Sectors(length));
    forall x | Owns(fs.disk, s, x) ensures x in fs.disk && disk[x] == fs.disk[x] {
      assert x in fs.owner && fs.owner[x] == s;
    }
    UntouchedSame(fs.disk, disk, s);
    forall x | InRange(fs.disk[s].start, Sectors(fs.disk[s].length), x) ensures IsData(disk, x) {
      assert Owns(fs.disk, s, x) && IsData(fs.disk, x);
    }
  }

  /** A write to the data of one inode keeps all of this, and touches no other inode. */
  lemma WriteOk(bits: seq<bool>, disk: Disk, owner: map<int, int>, own: set<int>, s: int, denied: bool, bs: seq<Byte>,
                offset: int)
    requires SectorsOk(bits, disk, owner, own) && s in own && s in disk && disk[s].Node? && 0 <= offset
    ensures var disk' := WriteAt(disk, disk[s].start, disk[s].length, denied, bs, offset).0;
      && SectorsOk(bits, disk', owner, own) && s in disk' && disk'[s] == disk[s]
      && (forall t | t in own && t != s :: Untouched(disk, disk', t))
      && SameBut(disk, disk', disk[s].start, Sectors(disk[s].length))
  {
    assert OwnerAt(disk, owner, |bits|, s);
    var start, length := disk[s].start, disk[s].length;
    var n := Movable(length, |bs|, offset);
    var disk' := WriteAt(disk, start, length, denied, bs, offset).0;
    hide WriteBytes;
    forall x | !InRange(start, Sectors(length), x) || (x in disk && disk[x].Node?)
      ensures (x in disk' <==> x in disk) && (x in disk ==> disk'[x] == disk[x])
    {
      if denied || n == 0 { NothingWritten(disk, start, offset); }
      else { WriteBytesFrame(disk, start, Sectors(length), offset, bs[..n], x); }
    }
    forall x | x in disk
      ensures x in disk'
    {
      WriteKeepsSectors(disk, start, offset, bs[..if denied then 0 else n], x);
    }
    forall t | t in own ensures OwnerAt(disk', owner, |bits|, t) && (t != s ==> Untouched(disk, disk', t)) {
      assert OwnerAt(disk, owner, |bits|, t);
      WriteKeepsData(disk, start, offset, bs[..if denied then 0 else n], disk[t].start, Sectors(disk[t].length));
      assert disk'[t] == disk[t];
      assert forall x :: Owns(disk', t, x) <==> Owns(disk, t, x);
      forall x | t != s && Owns(disk, t, x) ensures x in disk && disk'[x] == disk[x] {
        assert x in owner && owner[x] == t;
        assert InRange(start, Sectors(length), x) ==> Owns(disk, s, x);
      }
    }
  }

  lemma NothingWritten(disk: Disk, start: int, offset: int)
    ensures WriteBytes(disk, start, offset, []) == disk
  {
  }

  lemma {:induction false} WriteKeepsSectors(disk: Disk, start: int, i: int, bs: seq<Byte>, x: int)
    ensures x in WriteBytes(disk, start, i, bs) <==> x in disk
    decreases |bs|
  {
    if bs != [] { WriteKeepsSectors(Poke(disk, start, i, bs[0]), start, i + 1, bs[1..], x); }
  }
}
