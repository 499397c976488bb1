/** The file system as its source has it: the free map, the disk and the open inodes changed in place.  Each
    method is proved to do what the operation of module FileSys says. */
module FileSysMachine {
  import opened Options
  import opened Sequences
  import opened Bitmap
  import opened Bytes
  import opened Disk
  import opened Directory
  import opened MapFile
  import opened FileSys
  import opened FileSysInvariant
  import opened OpenInodes
  import opened Linking
  import opened NamedFiles
  import opened CreatingFiles
  import opened FileRuns
  import opened FileGuarantees
  import opened FileMount

  /** The offset in its sector of a byte of a file. */
  function OfsOf(at: int): int { at % SECTOR }

  const ZEROS: seq<Byte> := seq(SECTOR, j => 0)

  ghost predicate MapReadable(fs: Fs) {
    FREE_MAP in fs.files && fs.files[FREE_MAP].inode in fs.inodes ==>
      DataOk(fs.disk, fs.inodes[fs.files[FREE_MAP].inode].start, Sectors(fs.inodes[fs.files[FREE_MAP].inode].length))
  }

  class FileSystem {
    const bits: array<bool>
    var disk: Disk
    var inodes: map<int, Mem>
    var open: seq<int>
    var files: map<int, File>
    ghost var owner: map<int, int>
    ghost var refs: multiset<int>
    ghost var synced: bool

    /** free_map_init, on a disk of that many sectors. */
    constructor (sectors: nat, disk: Disk)
      requires 2 <= sectors
      ensures fresh(bits) && View() == Blank(sectors, disk, LOOSE)
    {
      bits := new bool[sectors](i => i < 2);
      this.disk := disk;
      inodes := map[];
      open := [];
      files := map[];
      owner := LOOSE;
      refs := multiset{};
      synced := false;
    }

    ghost function View(): Fs
      reads this, bits
    {
      Fs(bits[..], disk, inodes, open, files, owner, refs, synced)
    }

    // ---- free-map.c ----

    /** The free map's file can be written, if it is open. */
    ghost predicate MapData()
      reads this, bits
    {
      MapReadable(View())
    }

    /** bitmap_write of the map, if its file is open. */
    method WriteMap(bounce: bool) returns (written: bool)
      requires MapData()
      modifies this`disk, this`synced
      ensures (View(), written) == MapWrite(old(View()), bits[..], bounce) && MapData()
    {
      if FREE_MAP !in files || files[FREE_MAP].inode !in inodes { return true; }
      var bytes := Encode(bits[..]);
      var m := inodes[files[FREE_MAP].inode];
      hide DataOk, Sectors, Encode;
      WriteStaysReadable(View(), files[FREE_MAP].inode, bytes[..Writable(|bytes|, bounce)], 0);
      var n := WriteInode(files[FREE_MAP].inode, bytes[..Writable(|bytes|, bounce)], 0);
      synced := n == |bytes|;
      written := n == |bytes|;
    }

    method FreeMapAllocate(cnt: nat, bounce: bool) returns (sector: Option<int>)
      requires MapData()
      modifies bits, this`disk, this`synced
      ensures (View(), sector) == FileSys.FreeMapAllocate(old(View()), cnt, bounce) && MapData()
    {
      ghost var fs := View();
      var i := ScanAndFlip(bits, cnt);
      if i.None? { return None; }
      hide MapWrite, Scan, AllAre, Set, MapReadable;
      MapWriteBits(fs, bits[..], bits[..], bounce);
      MapWriteFrame(fs, bits[..], bounce);
      SetBack(fs.bits, i.value, cnt);
      ReadableBits(fs, bits[..]);
      var written := WriteMap(bounce);
      ReadableBits(View(), fs.bits);
      if !written {
        SetMultiple(bits, i.value, cnt, false);
        return None;
      }
      return Some(i.value);
    }

    method FreeMapRelease(sector: nat, cnt: nat, bounce: bool)
      requires FileSys.FreeMapRelease(View(), sector, cnt, bounce).Some? && MapData()
      modifies bits, this`disk, this`synced
      ensures Some(View()) == FileSys.FreeMapRelease(old(View()), sector, cnt, bounce) && MapData()
    {
      ghost var fs := View();
      SetMultiple(bits, sector, cnt, false);
      hide MapWrite;
      MapWriteBits(fs, bits[..], bits[..], bounce);
      var written := WriteMap(bounce);
    }

    /** The free map's file is opened. */
    method OpenMapFile(mem: int) returns (ok: bool)
      modifies this`inodes, this`open, this`refs, this`files
      ensures ok <==> FileSys.OpenMapFile(old(View()), mem).Some?
      ensures ok ==> View() == FileSys.OpenMapFile(old(View()), mem).value
    {
      var p := OpenInode(FREE_MAP, Some(mem));
      if p.None? { return false; }
      files := files[FREE_MAP := File(p.value, 0, false)];
      ok := true;
    }

    /** bitmap_read of the map. */
    method ReadMap() returns (ok: bool)
      requires MapData()
      modifies bits, this`synced
      ensures ok <==> BitmapRead(old(View())).Some?
      ensures ok ==> View() == BitmapRead(old(View())).value
    {
      if FREE_MAP !in files || files[FREE_MAP].inode !in inodes { return false; }
      var size := MapBytes(bits.Length);
      var bytes := ReadInode(files[FREE_MAP].inode, size, 0);
      if |bytes| != size { return false; }
      var found := Decode(bytes, bits.Length);
      var i := 0;
      while i < bits.Length
        invariant 0 <= i <= bits.Length && forall j | 0 <= j < i :: bits[j] == found[j]
      {
        bits[i] := found[i];
        i := i + 1;
      }
      assert bits[..] == found;
      synced := true;
      ok := true;
    }

    /** free_map_create, after free_map_init; `ok` is false where the source panics. */
    method CreateMapFile(bounce: bool, mem: int) returns (ok: bool)
      requires 2 <= bits.Length <= 0x1_0000_0000 && View() == Blank(bits.Length, disk, LOOSE)
      requires forall x | 0 <= x < bits.Length :: x in disk
      modifies this, bits
      ensures ok <==> FreeMapCreate(old(View()), bounce, mem).Some?
      ensures ok ==> View() == FreeMapCreate(old(View()), bounce, mem).value
    {
      BlankOk(bits.Length, disk);
      hide Blank, FileSys.OpenMapFile, MapWrite, InodeCreate, SectorsOk, MapReady, MapThere, OnlyMapFile;
      ghost var fs := View();
      var made := CreateInode(FREE_MAP, MapBytes(bits.Length), true);
      if !made { return false; }
      MapInodeMade(fs, bits.Length, mem);
      ok := OpenMapFile(mem);
      if !ok { return; }
      ok := WriteMap(bounce);
    }

    /** free_map_open; `ok` is false where the source panics. */
    method OpenMap(mem: int) returns (ok: bool)
      requires FileSys.OpenMapFile(View(), mem).Some? ==> MapReadable(FileSys.OpenMapFile(View(), mem).value)
      modifies this, bits
      ensures ok <==> FreeMapOpen(old(View()), mem).Some?
      ensures ok ==> View() == FreeMapOpen(old(View()), mem).value
    {
      hide FileSys.OpenMapFile, BitmapRead;
      ok := OpenMapFile(mem);
      if ok { ok := ReadMap(); }
    }

    /** filesys_init with do_format; `ok` is false where the source panics. */
    method FormatDisk(bounces: Bounces, mem: int) returns (ok: bool)
      requires 2 <= bits.Length <= 0x1_0000_0000 && View() == Blank(bits.Length, disk, LOOSE)
      requires forall x | 0 <= x < bits.Length :: x in disk
      modifies this, bits
      ensures ok <==> Format(bits.Length, old(disk), bounces, mem).Some?
      ensures ok ==> View() == Format(bits.Length, old(disk), bounces, mem).value && Inv(View())
    {
      hide *;
      ok := LayOut(bounces, mem);
      if ok {
        ok := OpenMap(mem);
        if ok { FormatOk(bits.Length, old(disk), bounces, mem); }
      }
    }

    /** do_format. */
    method LayOut(bounces: Bounces, mem: int) returns (ok: bool)
      requires 2 <= bits.Length <= 0x1_0000_0000 && View() == Blank(bits.Length, disk, LOOSE)
      requires forall x | 0 <= x < bits.Length :: x in disk
      modifies this, bits
      ensures var sectors := bits.Length;
        if ok then
          Format(sectors, old(disk), bounces, mem) == FreeMapOpen(View(), mem)
          && var r := FileSys.OpenMapFile(View(), mem); r.Some? && MapReadable(r.value)
        else Format(sectors, old(disk), bounces, mem).None?
    {
      ghost var (sectors, start) := (bits.Length, disk);
      hide Blank, FreeMapCreate, InodeCreate, Close, FreeMapOpen, Inv, Formatted, FileSys.OpenMapFile, MapReadable,
        OnlyMapFile;
      var made := CreateMapFile(bounces.first, mem);
      if !made { return false; }
      MapFileMade(sectors, start, bounces.first, mem);
      made := CreateInode(ROOT, 16 * ENTRY, bounces.second);
      if !made { return false; }
      DirectoryMade(sectors, start, bounces, mem);
      CloseFile(FREE_MAP, PLENTY);
      ok := true;
    }

    /** filesys_done, and then filesys_init without formatting; `ok` is false where the source panics. */
    method RestartSystem(mem: int) returns (ok: bool)
      requires Inv(View()) && synced
      modifies this, bits
      ensures ok && Some(View()) == Restart(old(View()), mem) && Inv(View())
    {
      ghost var fs := View();
      RestartOk(fs, mem);
      RestartReads(fs, mem);
      hide Inv, FreeMapOpen, FileSys.OpenMapFile, MapReadable, Mounted, Orphaned, Blank;
      Forget(Orphaned(fs));
      ok := OpenMap(mem);
    }

    /** What was in memory is gone; inode_init, and free_map_init. */
    method Forget(ghost left: map<int, int>)
      modifies this, bits
      ensures View() == Blank(bits.Length, old(disk), left)
    {
      var i := 0;
      while i < bits.Length
        invariant 0 <= i <= bits.Length && forall j | 0 <= j < i :: bits[j] == (j < 2)
        invariant disk == old(disk)
      {
        bits[i] := i < 2;
        i := i + 1;
      }
      assert bits[..] == seq(bits.Length, i => i < 2);
      inodes, open, files, refs, synced, owner := map[], [], map[], multiset{}, false, left;
    }

    // ---- inode.c ----

    method CreateInode(sector: int, length: Offset, bounce: bool) returns (success: bool)
      requires MapData()
      modifies this, bits
      ensures (View(), success) == InodeCreate(old(View()), sector, length, bounce)
    {
      var sectors := Sectors(length);
      var start := FreeMapAllocate(sectors, bounce);
      if start.None? { return false; }
      disk := disk[sector := Node(start.value, length)];
      owner := Claim(owner[sector := sector], start.value, sectors, sector);
      ClearSectors(start.value, sectors);
      return true;
    }

    /** The loop that clears the data sectors. */
    method ClearSectors(start: int, sectors: nat)
      modifies this`disk
      ensures disk == Clear(old(disk), start, sectors)
    {
      var i := 0;
      while i < sectors
        invariant 0 <= i <= sectors && disk == Clear(old(disk), start, i)
      {
        disk := disk[start + i := Data(seq(SECTOR, j => 0))];
        i := i + 1;
      }
    }

    method ReopenInode(p: int)
      requires p in inodes
      modifies this`inodes, this`refs
      ensures View() == InodeReopen(old(View()), p)
    {
      inodes := inodes[p := inodes[p].(openCnt := inodes[p].openCnt + 1)];
      refs := refs + multiset{p};
    }

    /** The loop over the list of open inodes. */
    method FindInode(sector: int) returns (r: Option<int>)
      ensures r == FindOpen(open, inodes, sector)
    {
      var i := 0;
      while i < |open|
        invariant 0 <= i <= |open| && FindOpen(open, inodes, sector) == FindOpen(open[i..], inodes, sector)
      {
        assert open[i..][1..] == open[i + 1..];
        if open[i] in inodes && inodes[open[i]].sector == sector { return Some(open[i]); }
        i := i + 1;
      }
      r := None;
    }

    method OpenInode(sector: int, mem: Option<int>) returns (p: Option<int>)
      modifies this`inodes, this`open, this`refs
      ensures (View(), p) == InodeOpen(old(View()), sector, mem)
    {
      p := FindInode(sector);
      if p.Some? {
        ReopenInode(p.value);
        return;
      }
      if mem.None? { return None; }
      open := [mem.value] + open;
      refs := refs + multiset{mem.value};
      if sector in disk && disk[sector].Node? {
        inodes := inodes[mem.value := Mem(sector, 1, false, 0, disk[sector].start, disk[sector].length)];
      } else {
        inodes := inodes[mem.value := Mem(sector, 1, false, 0, 0, 0)];
      }
      return mem;
    }

    /** list_remove. */
    method ForgetInode(p: int)
      modifies this`open
      ensures open == RemoveFrom(old(open), p)
    {
      var i := 0;
      while i < |open| && open[i] != p
        invariant 0 <= i <= |open| && open == old(open)
        invariant RemoveFrom(open, p) == open[..i] + RemoveFrom(open[i..], p)
      {
        assert open[i..][1..] == open[i + 1..];
        i := i + 1;
      }
      if i < |open| { open := open[..i] + open[i + 1..]; } else { assert open[..i] == open; }
    }

    method CloseInode(p: int, bounces: Bounces)
      requires InodeClose(View(), p, bounces).Some? && (p in inodes && inodes[p].removed ==> MapData())
      modifies this, bits
      ensures Some(View()) == InodeClose(old(View()), p, bounces)
    {
      var m := inodes[p].(openCnt := inodes[p].openCnt - 1);
      refs := refs - multiset{p};
      if m.openCnt == 0 {
        inodes := inodes - {p};
        ForgetInode(p);
        if m.removed {
          FreeMapRelease(m.sector, 1, bounces.first);
          FreeMapRelease(m.start, Sectors(m.length), bounces.second);
          owner := Disown(Disown(owner, m.sector, 1), m.start, Sectors(m.length));
        }
      } else {
        inodes := inodes[p := m];
      }
    }

    method RemoveInode(p: int)
      requires p in inodes
      modifies this`inodes
      ensures View() == InodeRemove(old(View()), p)
    {
      inodes := inodes[p := inodes[p].(removed := true)];
    }
  
    /** A whole sector is read straight into the buffer, and part of one by way of a bounce buffer. */
    method ReadSector(sector: int, sectorOfs: int, chunk: int) returns (piece: seq<Byte>)
      requires IsData(disk, sector) && 0 <= sectorOfs && 0 < chunk && sectorOfs + chunk <= SECTOR
      ensures piece == disk[sector].bytes[sectorOfs..sectorOfs + chunk]
    {
      if sectorOfs == 0 && chunk == SECTOR {
        piece := disk[sector].bytes;
      } else {
        var bounce := disk[sector].bytes;
        piece := bounce[sectorOfs..sectorOfs + chunk];
      }
    }

    /** A whole sector is written straight from the buffer; of a part, the sector's other bytes are read first. */
    method WriteSector(sector: int, sectorOfs: int, piece: seq<Byte>)
      requires IsData(disk, sector) && 0 <= sectorOfs && piece != [] && sectorOfs + |piece| <= SECTOR
      modifies this`disk
      ensures disk == old(disk)[sector := Data(Splice(old(disk)[sector].bytes, sectorOfs, piece))]
    {
      var sectorLeft := SECTOR - sectorOfs;
      if sectorOfs == 0 && |piece| == SECTOR {
        assert Splice(disk[sector].bytes, sectorOfs, piece) == piece;
        disk := disk[sector := Data(piece)];
      } else {
        var zeros := ZEROS;
        var bounce := if sectorOfs > 0 || |piece| < sectorLeft then disk[sector].bytes else zeros;
        bounce := bounce[..sectorOfs] + piece + bounce[sectorOfs + |piece|..];
        disk := disk[sector := Data(bounce)];
      }
    }

    /** inode_read_at. */
    method ReadInode(p: int, size: int, offset: int) returns (buffer: seq<Byte>)
      requires p in inodes && DataOk(disk, inodes[p].start, Sectors(inodes[p].length)) && 0 <= offset
      ensures buffer == ReadAt(disk, inodes[p].start, inodes[p].length, size, offset)
    {
      var m := inodes[p];
      hide ReadAt, Content, ByteOf, Movable, DataOk, ChunkSize, SectorOf, OfsOf, Sectors, IsData;
      var left, at := size, offset;
      buffer := [];
      ghost var all := ReadAt(disk, m.start, m.length, size, offset);
      while left > 0
        invariant 0 <= at
        invariant |buffer| <= |all| && buffer == all[..|buffer|]
        invariant ReadAt(disk, m.start, m.length, left, at) == all[|buffer|..]
        decreases left
      {
        var chunk := ChunkSize(m.length, left, at);
        if chunk <= 0 { break; }
        ReadTurn(disk, m.start, m.length, all, |buffer|, left, at);
        var piece := ReadSector(SectorOf(m.start, at), OfsOf(at), chunk);
        buffer := buffer + piece;
        left := left - chunk;
        at := at + chunk;
      }
      ReadEnds(disk, m.start, m.length, left, at);
    }

    /** inode_write_at. */
    method WriteInode(p: int, buffer: seq<Byte>, offset: int) returns (written: int)
      requires p in inodes && DataOk(disk, inodes[p].start, Sectors(inodes[p].length)) && 0 <= offset
      modifies this`disk
      ensures (View(), written) == InodeWrite(old(View()), p, buffer, offset)
    {
      var m := inodes[p];
      written := 0;
      if m.denyCnt != 0 { return; }
      var left, at := |buffer|, offset;
      while left > 0
        invariant 0 <= written <= |buffer| && at == offset + written && left == |buffer| - written
        invariant disk == WriteBytes(old(disk), m.start, offset, buffer[..written])
        invariant DataOk(disk, m.start, Sectors(m.length))
        invariant written + Movable(m.length, left, at) == Movable(m.length, |buffer|, offset)
        decreases left
      {
        var sector, sectorOfs := SectorOf(m.start, at), at % SECTOR;
        var chunk := ChunkSize(m.length, left, at);
        NoChunk(m.length, left, at);
        if chunk <= 0 { break; }
        ghost var piece := buffer[written..written + chunk];
        InFile(disk, m.start, m.length, at);
        WriteChunk(disk, m.start, at, piece);
        WriteConcat(old(disk), m.start, offset, buffer[..written], piece);
        WriteKeepsData(disk, m.start, at, piece, m.start, Sectors(m.length));
        assert buffer[..written] + piece == buffer[..written + chunk];
        WriteSector(sector, sectorOfs, buffer[written..written + chunk]);
        left := left - chunk;
        at := at + chunk;
        written := written + chunk;
      }
    }

    // ---- directory.c ----

    /** The inode at d is that of a directory. */
    ghost predicate IsDirectory(d: int)
      reads this
    {
      d in inodes && DataOk(disk, inodes[d].start, Sectors(inodes[d].length)) && IsDir(Bytes(d))
    }

    ghost function Bytes(p: int): seq<Byte>
      reads this
      requires p in inodes
    {
      Content(disk, inodes[p].start, inodes[p].length)
    }

    /** lookup: the number of the entry. */
    method LookupName(d: int, name: Name) returns (r: Option<int>)
      requires IsDirectory(d)
      ensures r == Lookup(Bytes(d), name, 0)
    {
      var i := 0;
      var e := ReadInode(d, ENTRY, 0);
      ReadEntry(disk, inodes[d].start, inodes[d].length, 0);
      while |e| == ENTRY
        invariant 0 <= i <= Slots(Bytes(d)) && Lookup(Bytes(d), name, 0) == Lookup(Bytes(d), name, i)
        invariant |e| == ENTRY <==> i < Slots(Bytes(d))
        invariant i < Slots(Bytes(d)) ==> e == Slot(Bytes(d), i)
        decreases Slots(Bytes(d)) - i
      {
        if InUse(e) && NameIn(e) == name { return Some(i); }
        i := i + 1;
        e := ReadInode(d, ENTRY, i * ENTRY);
        ReadEntry(disk, inodes[d].start, inodes[d].length, i);
      }
      r := None;
    }

    /** The loop of dir_add that looks for a free entry. */
    method FindFree(d: int) returns (r: Option<int>, e: seq<Byte>)
      requires IsDirectory(d)
      ensures r == FreeSlot(Bytes(d), 0) && (r.Some? ==> e == Slot(Bytes(d), r.value))
    {
      var i := 0;
      e := ReadInode(d, ENTRY, 0);
      ReadEntry(disk, inodes[d].start, inodes[d].length, 0);
      while |e| == ENTRY
        invariant 0 <= i <= Slots(Bytes(d)) && FreeSlot(Bytes(d), 0) == FreeSlot(Bytes(d), i)
        invariant |e| == ENTRY <==> i < Slots(Bytes(d))
        invariant i < Slots(Bytes(d)) ==> e == Slot(Bytes(d), i)
        decreases Slots(Bytes(d)) - i
      {
        if !InUse(e) { return Some(i), e; }
        i := i + 1;
        e := ReadInode(d, ENTRY, i * ENTRY);
        ReadEntry(disk, inodes[d].start, inodes[d].length, i);
      }
      r := None;
    }

    /** dir_add.  At the end of the directory, where no entry fits, nothing is written. */
    method AddEntry(d: int, name: Name, sector: int) returns (success: bool)
      requires IsDirectory(d)
      modifies this`disk
      ensures (View(), success) == DirAdd(old(View()), d, name, sector)
    {
      if name == [] || |name| > NAME_MAX { return false; }
      var used := LookupName(d, name);
      if used.Some? { return false; }
      var i, e := FindFree(d);
      if i.None? { return false; }
      var n := WriteInode(d, Filled(e, name, sector), i.value * ENTRY);
      success := n == ENTRY;
    }

    /** dir_remove. */
    method RemoveEntry(d: int, name: Name, mem: Option<int>, bounces: Bounces) returns (success: bool)
      requires IsDirectory(d) && (mem.Some? ==> mem.value !in inodes) && DirRemove(View(), d, name, mem, bounces).Some?
      requires MapThere(View()) && MapData()
      modifies this, bits
      ensures Some((View(), success)) == DirRemove(old(View()), d, name, mem, bounces)
    {
      var r := LookupName(d, name);
      if r.None? { return false; }
      var i := r.value;
      var e := ReadInode(d, ENTRY, i * ENTRY);
      ReadEntry(disk, inodes[d].start, inodes[d].length, i);
      ghost var fs := View();
      OpenReadable(fs, SectorIn(e), mem);
      hide MapReadable, MapThere, InodeOpen, Unlink, SectorIn;
      var q := OpenInode(SectorIn(e), mem);
      if q.None? { return false; }
      OtherInodesStay(fs, SectorIn(e), mem, d);
      success := UnlinkEntry(d, q.value, e, i, bounces);
    }

    method UnlinkEntry(d: int, p: int, e: seq<Byte>, i: int, bounces: Bounces) returns (success: bool)
      requires IsDirectory(d) && p in inodes && |e| == ENTRY && 0 <= i && Unlink(View(), d, p, e, i, bounces).Some?
      requires MapData()
      modifies this, bits
      ensures Some((View(), success)) == Unlink(old(View()), d, p, e, i, bounces)
    {
      WriteStaysReadable(View(), d, Erased(e), i * ENTRY);
      var n := WriteInode(d, Erased(e), i * ENTRY);
      if n == ENTRY { RemoveInode(p); }
      CloseInode(p, bounces);
      success := n == ENTRY;
    }

    /** dir_readdir, for a directory whose position is at entry i. */
    method ReadDirectory(d: int, i: int) returns (next: int, name: Option<Name>)
      requires IsDirectory(d) && 0 <= i <= Slots(Bytes(d))
      ensures (next, name) == ReadDir(Bytes(d), i)
    {
      hide Slot, InUse, NameIn, Content, DataOk;
      next := i;
      var e := ReadInode(d, ENTRY, next * ENTRY);
      ReadEntry(disk, inodes[d].start, inodes[d].length, next);
      while |e| == ENTRY
        invariant i <= next <= Slots(Bytes(d)) && ReadDir(Bytes(d), i) == ReadDir(Bytes(d), next)
        invariant |e| == ENTRY <==> next < Slots(Bytes(d))
        invariant next < Slots(Bytes(d)) ==> e == Slot(Bytes(d), next)
        decreases Slots(Bytes(d)) - next
      {
        next := next + 1;
        if InUse(e) { return next, Some(NameIn(e)); }
        e := ReadInode(d, ENTRY, next * ENTRY);
        ReadEntry(disk, inodes[d].start, inodes[d].length, next);
      }
      name := None;
    }

    // ---- filesys.c ----

    method CreateFile(name: Name, length: Offset, bounces: Bounces, root: Option<int>) returns (success: bool)
      requires Inv(View()) && Unused(View(), root) && 0 !in name
      modifies this, bits
      ensures Some((View(), success)) == Create(old(View()), name, length, bounces, root) && Inv(View())
    {
      ghost var fs := View();
      hide Inv, Ok, CreateIn, InodeClose, InodeOpen, Created, Leak, Settled, CanMake, MemSectors, AddSlot, DirBytes,
        MapThere, MapOk, OnlyMap,
        MapReadable, Grown, Owners;
      CreateOk(fs, name, length, bounces, root);
      OpenRoot(fs, root);
      var d := OpenInode(ROOT, root);
      if d.None? { return false; }
      StaysThere(fs, View());
      CreateInOk(View(), d.value, name, length, bounces, multiset{d.value});
      success := CreateInDirectory(d.value, name, length, bounces);
      RootNotRemoved(View(), d.value);
      CloseInode(d.value, PLENTY);
    }

    method CreateInDirectory(d: int, name: Name, length: Offset, bounces: Bounces) returns (success: bool)
      requires Ok(View(), multiset{d}, {}) && MapThere(View()) && d in inodes && inodes[d].sector == ROOT
      requires inodes[d].denyCnt == 0 && 0 !in name
      modifies this, bits
      ensures Some((View(), success)) == CreateIn(old(View()), d, name, length, bounces)
    {
      ghost var fs := View();
      hide Ok, FileSys.FreeMapAllocate, FinishCreate, CreateIn, MapThere, MapOk, MapReadable, Reserved, OnlyMap,
        MapFits, Scan, AllAre, DirBytes, Linked,
        WithMap, MapStays;
      ReserveSteps(fs, bounces.first, multiset{d});
      OkReadable(fs, multiset{d}, {});
      CreateInIs(fs, d, name, length, bounces);
      var a := FreeMapAllocate(1, bounces.first);
      if a.None? { return false; }
      ghost var fs1 := View();
      ghost var w := WithMap(fs, fs1);
      owner := owner[a.value := NOBODY];
      MapWritten(fs, fs1, a.value);
      WithMapSame(fs, fs1);
      success := MakeInDirectory(w, d, name, length, bounces, a.value);
    }

    /** The rest of filesys_create, once the inode has a sector. */
    method MakeInDirectory(ghost w: Fs, d: int, name: Name, length: Offset, bounces: Bounces, a: int)
      returns (success: bool)
      requires Ok(w, multiset{d}, {}) && MapThere(w) && d in w.inodes && w.inodes[d].sector == ROOT
      requires w.inodes[d].denyCnt == 0 && 0 !in name
      requires 0 <= a < |w.bits| && !w.bits[a] && (forall x | 0 <= x < a :: w.bits[x]) && View() == Reserved(w, a)
      modifies this, bits
      ensures Some((View(), success)) == FinishCreate(old(View()), d, name, length, bounces, a)
    {
      MakeOk(w, a, length, bounces.second, multiset{d});
      ReservedReadable(w, a, multiset{d});
      hide Ok, InodeCreate, DirAdd, GiveBack, Leaked, Made, Created, Leak, Reserved, MapThere, MapOk, MapReadable,
        OnlyMap, MapFits, Scan, AddSlot, DirBytes;
      var made := CreateInode(a, length, bounces.second);
      if made {
        MadeKeeps(w, View(), length, a);
        StaysThere(Reserved(w, a), View());
        success := LinkInode(w, d, name, length, bounces.third, a);
        if success { return; }
      } else {
        NotMadeReadable(w, View(), a, bounces.third, multiset{d});
      }
      GiveBackSector(a, bounces.third);
      success := false;
    }

    /** dir_add for the new inode; when it fails nobody owns the data sectors any more. */
    method LinkInode(ghost fs: Fs, d: int, name: Name, length: Offset, ghost bounce: bool, a: int)
      returns (success: bool)
      requires Ok(fs, multiset{d}, {}) && d in inodes && fs.inodes == inodes && inodes[d].sector == ROOT
      requires inodes[d].denyCnt == 0 && 0 !in name
      requires Made(fs, View(), length, a) && Ok(View(), multiset{d}, {a}) && 0 < a && a != ROOT && MapThere(View())
      modifies this`disk, this`owner
      ensures var (fs3, added) := DirAdd(old(View()), d, name, a);
        success == added && View() == (if added then fs3 else Leaked(fs3, a))
      ensures !success ==> GiveBack(View(), a, bounce).Some? && MapData()
    {
      hide Ok, DirAdd, GiveBack, Made, AddSlot, DirBytes, Created, Leak, MapThere, MapOk, MapReadable;
      RootIsDirectory(View(), d, multiset{d}, {a});
      OkReadable(View(), multiset{d}, {a});
      AddMade(fs, View(), d, name, length, bounce, a, multiset{d});
      DirAddOk(View(), d, name, a, multiset{d}, {a});
      ghost var fs2 := View();
      success := AddEntry(d, name, a);
      if !success {
        owner := map x | x in owner :: if owner[x] == a then NOBODY else owner[x];
        LeakedReadable(fs2, a);
      }
    }

    method GiveBackSector(sector: int, bounce: bool)
      requires GiveBack(View(), sector, bounce).Some? && MapData()
      modifies this, bits
      ensures Some((View(), false)) == GiveBack(old(View()), sector, bounce)
    {
      if sector == 0 { return; }
      FreeMapRelease(sector, 1, bounce);
      owner := Disown(owner, sector, 1);
    }

    method RemoveFile(name: Name, bounces: Bounces, root: Option<int>, mem: Option<int>) returns (success: bool)
      requires Inv(View()) && Unused(View(), root) && Unused(View(), mem) && (root.Some? ==> mem != root)
      modifies this, bits
      ensures Some((View(), success)) == FileSys.Remove(old(View()), name, bounces, root, mem) && Inv(View())
    {
      ghost var fs := View();
      hide Inv, Ok, DirRemove, InodeClose, InodeOpen, Removed, Settled, MemSectors, CanRemove, OthersUntouched,
        MapThere, MapOk, MapReadable, Owners,
        Grown;
      RemoveOk(fs, name, bounces, root, mem);
      OpenRoot(fs, root);
      var d := OpenInode(ROOT, root);
      if d.None? { return false; }
      ghost var fs1 := View();
      RootIsDirectory(fs1, d.value, multiset{d.value}, {});
      assert Unused(fs1, mem);
      StaysThere(fs, fs1);
      OkReadable(fs1, multiset{d.value}, {});
      DirRemoveOk(fs1, d.value, name, mem, bounces, multiset{d.value});
      success := RemoveEntry(d.value, name, mem, bounces);
      RootStays(fs1, View(), d.value, name);
      CloseInode(d.value, PLENTY);
    }

    method OpenFile(name: Name, root: Option<int>, mem: Option<int>, f: int) returns (success: bool)
      requires Inv(View()) && Unused(View(), root) && Unused(View(), mem) && (root.Some? ==> mem != root) && f !in files
      modifies this, bits
      ensures Some((View(), success)) == Open(old(View()), name, root, mem, f) && Inv(View())
    {
      ghost var fs := View();
      hide Inv, Ok, InodeClose, InodeOpen, FileSys.OpenEntry, Opened, MemSectors, CanRemove, Lookup, MapThere, MapOk,
        MapReadable, Owners, Grown, Slot, SectorIn, Content, DataOk;
      OpenFileOk(fs, name, root, mem, f);
      OpenRoot(fs, root);
      var d := OpenInode(ROOT, root);
      if d.None? { return false; }
      ghost var fs1 := View();
      RootIsDirectory(fs1, d.value, multiset{d.value}, {});
      RootNotRemoved(fs1, d.value);
      var i := LookupName(d.value, name);
      if i.None? {
        CloseInode(d.value, PLENTY);
        return false;
      }
      var e := ReadInode(d.value, ENTRY, i.value * ENTRY);
      ReadEntry(disk, inodes[d.value].start, inodes[d.value].length, i.value);
      success := OpenEntry(d.value, SectorIn(e), mem, f);
    }

    method OpenEntry(d: int, sector: int, mem: Option<int>, f: int) returns (success: bool)
      requires d in inodes && !inodes[d].removed && Unused(View(), mem)
      requires FileSys.OpenEntry(View(), d, sector, mem, f).Some?
      modifies this, bits
      ensures Some((View(), success)) == FileSys.OpenEntry(old(View()), d, sector, mem, f)
    {
      hide InodeOpen, InodeClose, MapReadable;
      OtherInodesStay(View(), sector, mem, d);
      var p := OpenInode(sector, mem);
      CloseInode(d, PLENTY);
      if p.None? { return false; }
      files := files[f := File(p.value, 0, false)];
      success := true;
    }

    // ---- file.c ----

    method DenyFileWrite(f: int)
      requires f in files && files[f].inode in inodes && DenyWrite(View(), f).Some?
      modifies this`files, this`inodes
      ensures Some(View()) == DenyWrite(old(View()), f)
    {
      var p := files[f].inode;
      if !files[f].deny {
        files := files[f := files[f].(deny := true)];
        inodes := inodes[p := inodes[p].(denyCnt := inodes[p].denyCnt + 1)];
      }
    }

    method AllowFileWrite(f: int)
      requires f in files && files[f].inode in inodes && AllowWrite(View(), f).Some?
      modifies this`files, this`inodes
      ensures Some(View()) == AllowWrite(old(View()), f)
    {
      var p := files[f].inode;
      if files[f].deny {
        files := files[f := files[f].(deny := false)];
        inodes := inodes[p := inodes[p].(denyCnt := inodes[p].denyCnt - 1)];
      }
    }

    /** file_reopen: file g opens the inode of file f once more. */
    method ReopenFile(f: int, g: int)
      requires f in files && files[f].inode in inodes
      modifies this`files, this`inodes, this`refs
      ensures View() == Reopen(old(View()), f, g)
    {
      var p := files[f].inode;
      ReopenInode(p);
      files := files[g := File(p, 0, false)];
    }

    /** file_seek. */
    method SeekFile(f: int, pos: int)
      requires f in files
      modifies this`files
      ensures View() == Seek(old(View()), f, pos)
    {
      files := files[f := files[f].(pos := pos)];
    }

    method CloseFile(f: int, bounces: Bounces)
      requires f in files && files[f].inode in inodes && Close(View(), f, bounces).Some? && MapData()
      modifies this, bits
      ensures Some(View()) == Close(old(View()), f, bounces)
    {
      var p := files[f].inode;
      hide InodeClose;
      AllowFileWrite(f);
      files := files - {f};
      CloseInode(p, bounces);
    }

    /** File f is open, on an inode whose data is on the disk. */
    ghost predicate IsOpen(f: int)
      reads this
    {
      && f in files && files[f].inode in inodes && 0 <= files[f].pos
      && DataOk(disk, inodes[files[f].inode].start, Sectors(inodes[files[f].inode].length))
    }

    method ReadFile(f: int, size: int) returns (buffer: seq<Byte>)
      requires IsOpen(f)
      modifies this`files
      ensures (View(), buffer) == Read(old(View()), f, size)
    {
      hide ReadAt, DataOk;
      buffer := ReadInode(files[f].inode, size, files[f].pos);
      files := files[f := files[f].(pos := files[f].pos + |buffer|)];
    }

    method WriteFile(f: int, bytes: seq<Byte>) returns (written: int)
      requires IsOpen(f)
      modifies this`files, this`disk
      ensures (View(), written) == Write(old(View()), f, bytes)
    {
      hide WriteAt, DataOk;
      written := WriteInode(files[f].inode, bytes, files[f].pos);
      files := files[f := files[f].(pos := files[f].pos + written)];
    }
  }

  lemma CreateInIs(fs: Fs, d: int, name: Name, length: Offset, bounces: Bounces)
    requires d in fs.inodes
    ensures var (fs1, a) := FreeMapAllocate(fs, 1, bounces.first);
      fs1.inodes == fs.inodes && CreateIn(fs, d, name, length, bounces)
      == if a.None? then Some((fs1, false))
         else FinishCreate(fs1.(owner := fs1.owner[a.value := NOBODY]), d, name, length, bounces, a.value)
  {
    hide FinishCreate, WriteAt, Set, Scan, Encode;
  }

  // ---- the free map's file stays readable ----

  lemma OkReadable(fs: Fs, extra: multiset<int>, pending: set<int>)
    requires Ok(fs, extra, pending) && MapThere(fs)
    ensures MapReadable(fs)
  {
    LinkedSystem(fs.disk);
    SectorsReadable(fs, Owners(fs.disk, fs.inodes, pending));
  }

  lemma SectorsReadable(fs: Fs, own: set<int>)
    requires SectorsOk(fs.bits, fs.disk, fs.owner, own) && FREE_MAP in own && MapThere(fs)
    ensures MapReadable(fs)
  {
    assert OwnerAt(fs.disk, fs.owner, |fs.bits|, FREE_MAP);
  }

  lemma WriteStaysData(disk: Disk, start: int, length: Offset, denied: bool, bs: seq<Byte>, offset: int, from: int,
                       n: int)
    requires DataOk(disk, from, n) && 0 <= offset
    ensures DataOk(WriteAt(disk, start, length, denied, bs, offset).0, from, n)
  {
    WriteKeepsData(disk, start, offset, bs[..if denied then 0 else Movable(length, |bs|, offset)], from, n);
  }

  lemma WriteStaysReadable(fs: Fs, d: int, bs: seq<Byte>, offset: int)
    requires MapReadable(fs) && d in fs.inodes && 0 <= offset
    ensures MapReadable(InodeWrite(fs, d, bs, offset).0)
  {
    hide DataOk, WriteAt;
    var m := fs.inodes[d];
    if FREE_MAP in fs.files && fs.files[FREE_MAP].inode in fs.inodes {
      var k := fs.inodes[fs.files[FREE_MAP].inode];
      WriteStaysData(fs.disk, m.start, m.length, m.denyCnt != 0, bs, offset, k.start, Sectors(k.length));
    }
  }

  /** What is written to the file does not depend on the map in memory. */
  lemma MapWriteBits(fs: Fs, bits: seq<bool>, written: seq<bool>, bounce: bool)
    ensures MapWrite(fs.(bits := bits), written, bounce)
      == (MapWrite(fs, written, bounce).0.(bits := bits), MapWrite(fs, written, bounce).1)
  {
    hide WriteAt, Encode;
  }

  lemma ReadableBits(fs: Fs, bits: seq<bool>)
    ensures MapReadable(fs.(bits := bits)) <==> MapReadable(fs)
  {
  }

  lemma SetBack(bits: seq<bool>, i: nat, cnt: nat)
    requires AllAre(bits, i, cnt, false)
    ensures i + cnt <= |bits| && Set(Set(bits, i, cnt, true), i, cnt, false) == bits
  {
  }

  /** After the inode of the free map's file is made. */
  lemma MapInodeMade(fs0: Fs, size: int, mem: int)
    requires 2 <= size <= 0x1_0000_0000 && |fs0.bits| == size && SectorsOk(fs0.bits, fs0.disk, fs0.owner, {})
    requires MapReady(fs0, {})
    requires fs0 == Fs(fs0.bits, fs0.disk, map[], [], map[], LOOSE, multiset{}, false)
    requires InodeCreate(fs0, FREE_MAP, MapBytes(size), true).1
    ensures var fs1 := InodeCreate(fs0, FREE_MAP, MapBytes(size), true).0;
      OpenMapFile(fs1, mem).Some? && MapReadable(OpenMapFile(fs1, mem).value)
  {
    assert FREE_MAP in LOOSE && LOOSE[FREE_MAP] == NOBODY;
    hide *;
    InodeCreateOk(fs0, {}, FREE_MAP, MapBytes(size), true);
    var fs1 := InodeCreate(fs0, FREE_MAP, MapBytes(size), true).0;
    assert {} + {FREE_MAP} == {FREE_MAP};
    MapFileOpened(fs1, mem);
    SectorsReadable(OpenMapFile(fs1, mem).value, {FREE_MAP});
  }

  /** After free_map_create. */
  lemma MapFileMade(sectors: int, disk: Disk, bounce: bool, mem: int)
    requires 2 <= sectors <= 0x1_0000_0000 && forall x | 0 <= x < sectors :: x in disk
    requires FreeMapCreate(Blank(sectors, disk, LOOSE), bounce, mem).Some?
    ensures MapReadable(FreeMapCreate(Blank(sectors, disk, LOOSE), bounce, mem).value)
  {
    assert |Blank(sectors, disk, LOOSE).bits| == sectors;
    hide *;
    FreeMapCreateOk(sectors, disk, bounce, mem);
    var fs := FreeMapCreate(Blank(sectors, disk, LOOSE), bounce, mem).value;
    MapOkThere(fs);
    SectorsReadable(fs, {FREE_MAP});
  }

  /** What happens after the root directory was made. */
  lemma DirectoryMade(sectors: int, disk: Disk, bounces: Bounces, mem: int)
    requires 2 <= sectors <= 0x1_0000_0000 && forall x | 0 <= x < sectors :: x in disk
    requires FreeMapCreate(Blank(sectors, disk, LOOSE), bounces.first, mem).Some?
    requires InodeCreate(FreeMapCreate(Blank(sectors, disk, LOOSE), bounces.first, mem).value, ROOT, 16 * ENTRY,
                         bounces.second).1
    ensures var fs2 := InodeCreate(FreeMapCreate(Blank(sectors, disk, LOOSE), bounces.first, mem).value, ROOT,
                                   16 * ENTRY, bounces.second).0;
      && FREE_MAP in fs2.files && fs2.files[FREE_MAP].inode in fs2.inodes && MapReadable(fs2)
      && Close(fs2, FREE_MAP, PLENTY).Some?
      && Format(sectors, disk, bounces, mem) == FreeMapOpen(Close(fs2, FREE_MAP, PLENTY).value, mem)
      && var r := OpenMapFile(Close(fs2, FREE_MAP, PLENTY).value, mem); r.Some? && MapReadable(r.value)
  {
    assert |Blank(sectors, disk, LOOSE).bits| == sectors && FREE_MAP in {FREE_MAP, ROOT};
    hide *;
    FreeMapCreateOk(sectors, disk, bounces.first, mem);
    var fs1 := FreeMapCreate(Blank(sectors, disk, LOOSE), bounces.first, mem).value;
    DirCreateOk(fs1, sectors, bounces.second, mem);
    var fs2 := InodeCreate(fs1, ROOT, 16 * ENTRY, bounces.second).0;
    OneMapFile(fs2, mem);
    MapFileClosed(fs2, mem);
    FormatRest(sectors, disk, bounces, mem);
    SectorsReadable(fs2, {FREE_MAP, ROOT});
    SizeAtLeast(fs2, {FREE_MAP, ROOT});
    HoldsOpens(fs2, mem);
    SectorsReadable(OpenMapFile(Close(fs2, FREE_MAP, PLENTY).value, mem).value, {FREE_MAP, ROOT});
  }

  lemma OneMapFile(fs: Fs, mem: int)
    requires OnlyMapFile(fs, mem)
    ensures FREE_MAP in fs.files && fs.files[FREE_MAP].inode in fs.inodes
  {
  }

  lemma FormatRest(sectors: int, disk: Disk, bounces: Bounces, mem: int)
    requires 2 <= sectors <= 0x1_0000_0000 && FreeMapCreate(Blank(sectors, disk, LOOSE), bounces.first, mem).Some?
    requires var (fs2, made) := InodeCreate(FreeMapCreate(Blank(sectors, disk, LOOSE), bounces.first, mem).value,
                                            ROOT, 16 * ENTRY, bounces.second);
      made && FREE_MAP in fs2.files && fs2.files[FREE_MAP].inode in fs2.inodes && Close(fs2, FREE_MAP, PLENTY).Some?
    ensures var fs2 := InodeCreate(FreeMapCreate(Blank(sectors, disk, LOOSE), bounces.first, mem).value, ROOT,
                                   16 * ENTRY, bounces.second).0;
      Format(sectors, disk, bounces, mem) == FreeMapOpen(Close(fs2, FREE_MAP, PLENTY).value, mem)
  {
    hide FreeMapCreate, InodeCreate, Close, FreeMapOpen, Blank;
  }

  lemma HoldsOpens(fs2: Fs, mem: int)
    requires HoldsMap(fs2.disk, fs2.bits) && 2 <= |fs2.bits| <= 0x1_0000_0000
    requires OnlyMapFile(fs2, mem) && Close(fs2, FREE_MAP, PLENTY)
      == Some(Fs(fs2.bits, fs2.disk, map[], [], map[], fs2.owner, multiset{}, fs2.synced))
    ensures var r := OpenMapFile(Close(fs2, FREE_MAP, PLENTY).value, mem);
      r.Some? && MapThere(r.value) && r.value.bits == fs2.bits && r.value.disk == fs2.disk && r.value.owner == fs2.owner
  {
    hide Close, Decode, Content;
    MapFileOpened(Close(fs2, FREE_MAP, PLENTY).value, mem);
  }

  /** The file can be read when the system starts again. */
  lemma RestartReads(fs: Fs, mem: int)
    requires Inv(fs) && fs.synced
    ensures var r := OpenMapFile(Blank(|fs.bits|, fs.disk, Orphaned(fs)), mem); r.Some? && MapReadable(r.value)
  {
    hide *;
    OkReadable(fs, multiset{}, {}) by { OkPart(fs); MapPart(fs); }
    MapPart(fs);
    OpensAgain(fs, mem);
  }

  lemma MapPart(fs: Fs)
    requires Inv(fs)
    ensures MapThere(fs)
  {
  }

  lemma OpensAgain(fs: Fs, mem: int)
    requires MapThere(fs) && MapReadable(fs)
    ensures var r := OpenMapFile(Blank(|fs.bits|, fs.disk, Orphaned(fs)), mem); r.Some? && MapReadable(r.value)
  {
    hide DataOk, Orphaned;
  }

  lemma OpenReadable(fs: Fs, sector: int, mem: Option<int>)
    requires MapThere(fs) && MapReadable(fs) && (mem.Some? ==> mem.value !in fs.inodes)
    ensures MapReadable(InodeOpen(fs, sector, mem).0)
  {
    hide DataOk;
  }

  lemma ReservedReadable(w: Fs, a: int, extra: multiset<int>)
    requires Ok(w, extra, {}) && MapThere(w) && 0 <= a < |w.bits|
    ensures MapReadable(Reserved(w, a))
  {
    OkReadable(w, extra, {});
    hide Ok, DataOk;
  }

  lemma NotMadeReadable(w: Fs, fs2: Fs, a: int, bounce: bool, extra: multiset<int>)
    requires var w2 := WithMap(w, fs2);
      Ok(w2, extra, {}) && MapThere(w2) && 0 < a < |w2.bits| && !w2.bits[a] && a !in w2.owner && fs2 == Reserved(w2, a)
    ensures GiveBack(fs2, a, bounce).Some? && MapReadable(fs2)
  {
    ReservedReadable(WithMap(w, fs2), a, extra);
    GiveBackRestores(WithMap(w, fs2), a, bounce, extra);
  }

  lemma LeakedReadable(fs2: Fs, a: int)
    requires MapReadable(fs2)
    ensures MapReadable(Leaked(fs2, a))
  {
    hide DataOk;
  }

  /** The root directory is open, and not removed, after an entry was removed. */
  lemma RootStays(fs1: Fs, fs2: Fs, d: int, name: Name)
    requires Ok(fs2, multiset{d}, {}) && d in fs1.inodes && fs1.inodes[d].sector == ROOT
    requires (fs2 == fs1 || Removed(fs1, fs2, name))
    ensures d in fs2.inodes && !fs2.inodes[d].removed
  {
    hide *;
    DStays(fs1, fs2, d, name);
    RootNotRemoved(fs2, d);
  }

  lemma DStays(fs1: Fs, fs2: Fs, d: int, name: Name)
    requires d in fs1.inodes && (fs2 == fs1 || Removed(fs1, fs2, name))
    ensures d in fs2.inodes && fs2.inodes[d].sector == fs1.inodes[d].sector
  {
    hide DirNames, MemSectors, Owns;
  }

  lemma RootIsDirectory(fs: Fs, d: int, extra: multiset<int>, pending: set<int>)
    requires Ok(fs, extra, pending) && d in fs.inodes && fs.inodes[d].sector == ROOT
    ensures DataOk(fs.disk, fs.inodes[d].start, Sectors(fs.inodes[d].length)) && IsDir(BytesOf(fs, fs.inodes[d]))
  {
    assert MemAt(fs.disk, Linked(fs.disk), fs.inodes[d]);
    assert OwnerAt(fs.disk, fs.owner, |fs.bits|, ROOT);
  }

  /** Reading at the place of entry i gives the entry, or too few bytes at the end. */
  lemma ReadEntry(disk: Disk, start: int, length: Offset, i: int)
    requires IsDir(Content(disk, start, length)) && 0 <= i <= Slots(Content(disk, start, length))
    ensures var c, e := Content(disk, start, length), ReadAt(disk, start, length, ENTRY, i * ENTRY);
      (|e| == ENTRY <==> i < Slots(c)) && (i < Slots(c) ==> e == Slot(c, i))
  {
  }

  lemma OtherInodesStay(fs: Fs, sector: int, mem: Option<int>, d: int)
    requires d in fs.inodes && (mem.Some? ==> mem.value !in fs.inodes)
    ensures var fs' := InodeOpen(fs, sector, mem).0;
      d in fs'.inodes && fs'.inodes[d] == fs.inodes[d].(openCnt := fs'.inodes[d].openCnt) && fs'.disk == fs.disk
  {
  }

  lemma ReadEnds(disk: Disk, start: int, length: Offset, left: int, at: int)
    requires 0 <= at && (left <= 0 || ChunkSize(length, left, at) <= 0)
    ensures ReadAt(disk, start, length, left, at) == []
  {
    if left > 0 { NoChunk(length, left, at); }
  }

  /** One turn of the reading loop. */
  lemma ReadTurn(disk: Disk, start: int, length: Offset, all: seq<Byte>, k: nat, left: int, at: int)
    requires DataOk(disk, start, Sectors(length)) && 0 <= at && 0 < ChunkSize(length, left, at)
    requires k <= |all| && ReadAt(disk, start, length, left, at) == all[k..]
    ensures var n, x, o := ChunkSize(length, left, at), SectorOf(start, at), OfsOf(at);
      && IsData(disk, x) && 0 <= o && o + n <= SECTOR && k + n <= |all|
      && all[..k] + disk[x].bytes[o..o + n] == all[..k + n]
      && ReadAt(disk, start, length, left - n, at + n) == all[k + n..]
  {
    hide ReadAt, Content, ByteOf, DataOk, ChunkSize, SectorOf, Sectors;
    var n, x, o := ChunkSize(length, left, at), SectorOf(start, at), OfsOf(at);
    ReadChunk(disk, start, length, left, at);
    TakeNext(all, k, disk[x].bytes[o..o + n], ReadAt(disk, start, length, left - n, at + n));
  }

  lemma InFile(disk: Disk, start: int, length: Offset, at: int)
    requires DataOk(disk, start, Sectors(length)) && 0 <= at < length
    ensures IsData(disk, SectorOf(start, at))
  {
    assert start <= SectorOf(start, at) < start + Sectors(length);
  }
}
