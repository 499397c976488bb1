/** The file system (filesys/inode.c, free-map.c, directory.c, filesys.c, file.c): its state and its
    operations.  Pointers to in-memory inodes are numbers. */
module FileSys {
  import opened Options
  import opened Bitmap
  import opened Bytes
  import opened Disk
  import opened Directory
  import opened MapFile

  /** struct inode. */
  datatype Mem = Mem(sector: int, openCnt: int, removed: bool, denyCnt: int, start: int, length: Offset)

  /** struct file. */
  datatype File = File(inode: int, pos: int, deny: bool)

  /** `bits` is the free map; `open` is the list open_inodes; `files` are the files that are open, the one with
      number FREE_MAP being free_map_file.  For the statements about it, `owner` records which inode each used
      sector was last given to (NOBODY: to none), `refs` how often each inode was opened and not yet closed, and
      `synced` whether the map was last read from its file, or written to it completely. */
  datatype Fs = Fs(
    bits: seq<bool>,
    disk: Disk,
    inodes: map<int, Mem>,
    open: seq<int>,
    files: map<int, File>,
    owner: map<int, int>,
    refs: multiset<int>,
    synced: bool)

  const FREE_MAP := 0
  const ROOT := 1
  const NOBODY := -1

  function Claim(owner: map<int, int>, start: int, n: int, v: int): (r: map<int, int>)
    ensures forall x :: x in r <==> x in owner || InRange(start, n, x)
    ensures forall x | x in r :: r[x] == if InRange(start, n, x) then v else owner[x]
    decreases n
  {
    if n <= 0 then owner else Claim(owner, start, n - 1, v)[start + n - 1 := v]
  }

  function Disown(owner: map<int, int>, start: int, n: int): map<int, int> {
    map x | x in owner && !InRange(start, n, x) :: owner[x]
  }

  // ---- the free map ----

  /** Whether there is memory for a bounce buffer the first, the second and the third time that an operation
      writes the free map to its file. */
  datatype Bounces = Bounces(first: bool, second: bool, third: bool)

  const PLENTY := Bounces(true, true, true)

  /** How much of `size` bytes from the start of a file can be written: without memory for a bounce buffer, only
      whole sectors. */
  function Writable(size: nat, bounce: bool): nat {
    if bounce then size else size - size % SECTOR
  }

  /** bitmap_write of `bits` to free_map_file, if there is one. */
  function MapWrite(fs: Fs, bits: seq<bool>, bounce: bool): (Fs, bool) {
    if FREE_MAP !in fs.files || fs.files[FREE_MAP].inode !in fs.inodes then (fs, true)
    else
      var bytes := Encode(bits);
      var (fs1, n) := InodeWrite(fs, fs.files[FREE_MAP].inode, bytes[..Writable(|bytes|, bounce)], 0);
      (fs1.(synced := n == |bytes|), n == |bytes|)
  }

  /** free_map_allocate. */
  function FreeMapAllocate(fs: Fs, cnt: nat, bounce: bool): (Fs, Option<int>) {
    match Scan(fs.bits, 0, cnt)
    case None => (fs, None)
    case Some(i) =>
      var (fs1, written) := MapWrite(fs, Set(fs.bits, i, cnt, true), bounce);
      if written then (fs1.(bits := Set(fs.bits, i, cnt, true)), Some(i)) else (fs1, None)
  }

  predicate AllUsed(bits: seq<bool>, sector: int, cnt: nat) {
    0 <= sector && sector + cnt <= |bits| && forall x | sector <= x < sector + cnt :: bits[x]
  }

  /** free_map_release; None where its assertion fails. */
  function FreeMapRelease(fs: Fs, sector: int, cnt: nat, bounce: bool): Option<Fs> {
    if AllUsed(fs.bits, sector, cnt) then
      var bits := Set(fs.bits, sector, cnt, false);
      Some(MapWrite(fs, bits, bounce).0.(bits := bits))
    else None
  }

  // ---- inodes ----

  /** The loop of inode_create that clears the data sectors. */
  function Clear(disk: Disk, start: int, n: int): (d: Disk)
    ensures forall x :: x in d <==> x in disk || InRange(start, n, x)
    ensures forall x | x in d :: d[x] == if InRange(start, n, x) then Data(seq(SECTOR, i => 0)) else disk[x]
    decreases n
  {
    if n <= 0 then disk else Clear(disk, start, n - 1)[start + n - 1 := Data(seq(SECTOR, i => 0))]
  }

  /** inode_create, but for its assertion that the length is not negative. */
  function InodeCreate(fs: Fs, sector: int, length: Offset, bounce: bool): (Fs, bool) {
    var (fs1, r) := FreeMapAllocate(fs, Sectors(length), bounce);
    match r
    case None => (fs1, false)
    case Some(start) => (PutInode(fs1, sector, start, length), true)
  }

  /** The inode is written to its sector, and its data cleared. */
  function PutInode(fs: Fs, sector: int, start: int, length: Offset): Fs {
    var n := Sectors(length);
    fs.(disk := Clear(fs.disk[sector := Node(start, length)], start, n),
        owner := Claim(fs.owner[sector := sector], start, n, sector))
  }

  /** The first pointer in the list whose inode is in the sector. */
  function FindOpen(open: seq<int>, inodes: map<int, Mem>, sector: int): (r: Option<int>)
    ensures r.Some? ==> r.value in open && r.value in inodes && inodes[r.value].sector == sector
    ensures r.None? ==> forall p | p in open && p in inodes :: inodes[p].sector != sector
  {
    if open == [] then None
    else if open[0] in inodes && inodes[open[0]].sector == sector then Some(open[0])
    else FindOpen(open[1..], inodes, sector)
  }

  /** inode_reopen. */
  function InodeReopen(fs: Fs, p: int): Fs
    requires p in fs.inodes
  {
    fs.(inodes := fs.inodes[p := fs.inodes[p].(openCnt := fs.inodes[p].openCnt + 1)], refs := fs.refs + multiset{p})
  }

  /** inode_open; `mem` is the memory that malloc gives for an in-memory inode. */
  function InodeOpen(fs: Fs, sector: int, mem: Option<int>): (Fs, Option<int>) {
    match FindOpen(fs.open, fs.inodes, sector)
    case Some(p) => (InodeReopen(fs, p), Some(p))
    case None =>
      match mem
      case None => (fs, None)
      case Some(p) =>
        var m := if sector in fs.disk && fs.disk[sector].Node? then Mem(sector, 1, false, 0, fs.disk[sector].start,
                                                                        fs.disk[sector].length)
                 else Mem(sector, 1, false, 0, 0, 0);
        (fs.(inodes := fs.inodes[p := m], open := [p] + fs.open, refs := fs.refs + multiset{p}), Some(p))
  }

  function RemoveFrom(open: seq<int>, p: int): seq<int> {
    if open == [] then [] else if open[0] == p then open[1..] else [open[0]] + RemoveFrom(open[1..], p)
  }

  /** The release of the sectors of an inode that was removed. */
  function FreeSectors(fs: Fs, m: Mem, bounces: Bounces): Option<Fs> {
    match FreeMapRelease(fs, m.sector, 1, bounces.first)
    case None => None
    case Some(fs1) =>
      match FreeMapRelease(fs1, m.start, Sectors(m.length), bounces.second)
      case None => None
      case Some(fs2) => Some(fs2.(owner := Disown(Disown(fs.owner, m.sector, 1), m.start, Sectors(m.length))))
  }

  /** inode_close. */
  function InodeClose(fs: Fs, p: int, bounces: Bounces): Option<Fs> {
    if p !in fs.inodes then None
    else
      var m := fs.inodes[p].(openCnt := fs.inodes[p].openCnt - 1);
      var fs1 := fs.(refs := fs.refs - multiset{p});
      if m.openCnt == 0 then
        var fs2 := fs1.(inodes := fs1.inodes - {p}, open := RemoveFrom(fs1.open, p));
        if m.removed then FreeSectors(fs2, m, bounces) else Some(fs2)
      else Some(fs1.(inodes := fs1.inodes[p := m]))
  }

  /** inode_remove. */
  function InodeRemove(fs: Fs, p: int): Fs
    requires p in fs.inodes
  {
    fs.(inodes := fs.inodes[p := fs.inodes[p].(removed := true)])
  }

  /** The bytes of the file whose in-memory inode is m. */
  function BytesOf(fs: Fs, m: Mem): seq<Byte> {
    Content(fs.disk, m.start, m.length)
  }

  // ---- the file of the free map ----

  /** free_map_init. */
  function Blank(sectors: nat, disk: Disk, owner: map<int, int>): Fs {
    Fs(seq(sectors, i => i < 2), disk, map[], [], map[], owner, multiset{}, false)
  }

  /** The inode of the free map's file is opened at `mem`, and the file. */
  function OpenMapFile(fs: Fs, mem: int): Option<Fs> {
    var (fs1, r) := InodeOpen(fs, FREE_MAP, Some(mem));
    match r
    case None => None
    case Some(p) => Some(fs1.(files := fs1.files[FREE_MAP := File(p, 0, false)]))
  }

  /** free_map_create, after free_map_init; None where the source panics. */
  function FreeMapCreate(fs: Fs, bounce: bool, mem: int): Option<Fs>
    requires |fs.bits| <= 0x1_0000_0000
  {
    var (fs1, made) := InodeCreate(fs, FREE_MAP, MapBytes(|fs.bits|), true);
    if !made then None
    else
      match OpenMapFile(fs1, mem)
      case None => None
      case Some(fs2) =>
        var (fs3, written) := MapWrite(fs2, fs2.bits, bounce);
        if written then Some(fs3) else None
  }

  /** free_map_open; None where the source panics. */
  function FreeMapOpen(fs: Fs, mem: int): Option<Fs> {
    match OpenMapFile(fs, mem)
    case None => None
    case Some(fs1) => BitmapRead(fs1)
  }

  /** bitmap_read of free_map_file. */
  function BitmapRead(fs: Fs): Option<Fs> {
    if FREE_MAP !in fs.files || fs.files[FREE_MAP].inode !in fs.inodes then None
    else
      var m := fs.inodes[fs.files[FREE_MAP].inode];
      var bytes := ReadAt(fs.disk, m.start, m.length, MapBytes(|fs.bits|), 0);
      if |bytes| == MapBytes(|fs.bits|) then Some(fs.(bits := Decode(bytes, |fs.bits|), synced := true)) else None
  }

  // ---- directories ----

  /** inode_write_at, for the inode at p. */
  function InodeWrite(fs: Fs, p: int, bs: seq<Byte>, offset: int): (Fs, int)
    requires p in fs.inodes && 0 <= offset
  {
    var m := fs.inodes[p];
    var (disk, n) := WriteAt(fs.disk, m.start, m.length, m.denyCnt != 0, bs, offset);
    (fs.(disk := disk), n)
  }

  /** dir_add, for the directory whose inode is at d. */
  function DirAdd(fs: Fs, d: int, name: Name, sector: int): (Fs, bool)
    requires d in fs.inodes
  {
    var c := BytesOf(fs, fs.inodes[d]);
    match AddSlot(c, name)
    case None => (fs, false)
    case Some(i) =>
      var (fs', n) := InodeWrite(fs, d, Filled(Slot(c, i), name, sector), i * ENTRY);
      (fs', n == ENTRY)
  }

  /** dir_remove; None where an assertion fails. */
  function DirRemove(fs: Fs, d: int, name: Name, mem: Option<int>, bounces: Bounces): Option<(Fs, bool)>
    requires d in fs.inodes
  {
    var c := BytesOf(fs, fs.inodes[d]);
    match Lookup(c, name, 0)
    case None => Some((fs, false))
    case Some(i) =>
      var (fs1, r) := InodeOpen(fs, SectorIn(Slot(c, i)), mem);
      match r
      case None => Some((fs1, false))
      case Some(p) => Unlink(fs1, d, p, Slot(c, i), i, bounces)
  }

  /** dir_remove once the inode of the file is open at p: entry i is erased, and the inode marked and closed. */
  function Unlink(fs: Fs, d: int, p: int, e: seq<Byte>, i: int, bounces: Bounces): Option<(Fs, bool)>
    requires |e| == ENTRY && 0 <= i
  {
    if d !in fs.inodes || p !in fs.inodes then None
    else
      var (fs2, n) := InodeWrite(fs, d, Erased(e), i * ENTRY);
      if n != ENTRY then Closed(InodeClose(fs2, p, bounces), false)
      else Closed(InodeClose(InodeRemove(fs2, p), p, bounces), true)
  }

  function Closed(fs: Option<Fs>, success: bool): Option<(Fs, bool)> {
    match fs
    case None => None
    case Some(s) => Some((s, success))
  }

  // ---- files by name ----

  /** filesys_create after the root directory was opened at d; None where an assertion fails. */
  function CreateIn(fs: Fs, d: int, name: Name, length: AnyOffset, bounces: Bounces): Option<(Fs, bool)>
    requires d in fs.inodes
  {
    var (fs1, a) := FreeMapAllocate(fs, 1, bounces.first);
    match a
    case None => Some((fs1, false))
    case Some(sector) =>
      if length < 0 then None
      else FinishCreate(fs1.(owner := fs1.owner[sector := NOBODY]), d, name, length, bounces, sector)
  }

  /** filesys_create from inode_create on. */
  function FinishCreate(fs: Fs, d: int, name: Name, length: Offset, bounces: Bounces, sector: int): Option<(Fs, bool)>
    requires d in fs.inodes
  {
    var (fs2, made) := InodeCreate(fs, sector, length, bounces.second);
    if !made then GiveBack(fs2, sector, bounces.third)
    else
      var (fs3, added) := DirAdd(fs2, d, name, sector);
      if added then Some((fs3, true)) else GiveBack(Leaked(fs3, sector), sector, bounces.third)
  }

  /** The release of the inode's sector when filesys_create fails. */
  function GiveBack(fs: Fs, sector: int, bounce: bool): Option<(Fs, bool)> {
    if sector == 0 then Some((fs, false))
    else
      match FreeMapRelease(fs, sector, 1, bounce)
      case None => None
      case Some(fs1) => Some((fs1.(owner := Disown(fs.owner, sector, 1)), false))
  }

  /** No inode has the data sectors of the inode that dir_add failed for. */
  function Leaked(fs: Fs, sector: int): Fs {
    fs.(owner := map x | x in fs.owner :: if fs.owner[x] == sector then NOBODY else fs.owner[x])
  }

  /** filesys_create; `root` is memory for the inode of the root directory.  Closing that inode writes no map, as
      it is never removed. */
  function Create(fs: Fs, name: Name, length: AnyOffset, bounces: Bounces, root: Option<int>): Option<(Fs, bool)> {
    var (fs1, r) := InodeOpen(fs, ROOT, root);
    match r
    case None => Some((fs1, false))
    case Some(d) =>
      if d !in fs1.inodes then None
      else
        match CreateIn(fs1, d, name, length, bounces)
        case None => None
        case Some((fs2, success)) => Closed(InodeClose(fs2, d, PLENTY), success)
  }

  /** filesys_remove. */
  function Remove(fs: Fs, name: Name, bounces: Bounces, root: Option<int>, mem: Option<int>): Option<(Fs, bool)> {
    var (fs1, r) := InodeOpen(fs, ROOT, root);
    match r
    case None => Some((fs1, false))
    case Some(d) =>
      if d !in fs1.inodes then None
      else
        match DirRemove(fs1, d, name, mem, bounces)
        case None => None
        case Some((fs2, success)) => Closed(InodeClose(fs2, d, PLENTY), success)
  }

  /** filesys_open; the new file is number f. */
  function Open(fs: Fs, name: Name, root: Option<int>, mem: Option<int>, f: int): Option<(Fs, bool)> {
    var (fs1, r) := InodeOpen(fs, ROOT, root);
    match r
    case None => Some((fs1, false))
    case Some(d) =>
      if d !in fs1.inodes then None
      else
        var c := BytesOf(fs1, fs1.inodes[d]);
        match Lookup(c, name, 0)
        case None => Closed(InodeClose(fs1, d, PLENTY), false)
        case Some(i) => OpenEntry(fs1, d, SectorIn(Slot(c, i)), mem, f)
  }

  /** filesys_open once the entry is found: the inode is opened, and the directory at d closed. */
  function OpenEntry(fs: Fs, d: int, sector: int, mem: Option<int>, f: int): Option<(Fs, bool)> {
    var (fs2, q) := InodeOpen(fs, sector, mem);
    match InodeClose(fs2, d, PLENTY)
    case None => None
    case Some(fs3) =>
      match q
      case None => Some((fs3, false))
      case Some(p) => Some((fs3.(files := fs3.files[f := File(p, 0, false)]), true))
  }

  // ---- open files ----

  /** file_reopen: file g opens the inode of file f once more. */
  function Reopen(fs: Fs, f: int, g: int): Fs
    requires f in fs.files && fs.files[f].inode in fs.inodes
  {
    var p := fs.files[f].inode;
    var fs1 := InodeReopen(fs, p);
    fs1.(files := fs1.files[g := File(p, 0, false)])
  }

  function Deny(fs: Fs, p: int, change: int): Fs
    requires p in fs.inodes
  {
    fs.(inodes := fs.inodes[p := fs.inodes[p].(denyCnt := fs.inodes[p].denyCnt + change)])
  }

  /** file_deny_write; None where inode_deny_write's assertion fails. */
  function DenyWrite(fs: Fs, f: int): Option<Fs>
    requires f in fs.files && fs.files[f].inode in fs.inodes
  {
    var p := fs.files[f].inode;
    if fs.files[f].deny then Some(fs)
    else if fs.inodes[p].denyCnt + 1 > fs.inodes[p].openCnt then None
    else Some(Deny(fs.(files := fs.files[f := fs.files[f].(deny := true)]), p, 1))
  }

  /** file_allow_write. */
  function AllowWrite(fs: Fs, f: int): Option<Fs>
    requires f in fs.files && fs.files[f].inode in fs.inodes
  {
    var p := fs.files[f].inode;
    if !fs.files[f].deny then Some(fs)
    else if !(0 < fs.inodes[p].denyCnt <= fs.inodes[p].openCnt) then None
    else Some(Deny(fs.(files := fs.files[f := fs.files[f].(deny := false)]), p, -1))
  }

  /** file_close. */
  function Close(fs: Fs, f: int, bounces: Bounces): Option<Fs>
    requires f in fs.files && fs.files[f].inode in fs.inodes
  {
    match AllowWrite(fs, f)
    case None => None
    case Some(fs1) =>
      var p := fs.files[f].inode;
      InodeClose(fs1.(files := fs1.files - {f}), p, bounces)
  }

  /** file_read: the bytes read, and the position after them. */
  function Read(fs: Fs, f: int, size: int): (Fs, seq<Byte>)
    requires f in fs.files && fs.files[f].inode in fs.inodes && 0 <= fs.files[f].pos
  {
    var m := fs.inodes[fs.files[f].inode];
    var bs := ReadAt(fs.disk, m.start, m.length, size, fs.files[f].pos);
    (fs.(files := fs.files[f := fs.files[f].(pos := fs.files[f].pos + |bs|)]), bs)
  }

  /** file_write. */
  function Write(fs: Fs, f: int, bs: seq<Byte>): (Fs, int)
    requires f in fs.files && fs.files[f].inode in fs.inodes && 0 <= fs.files[f].pos
  {
    var (fs1, n) := InodeWrite(fs, fs.files[f].inode, bs, fs.files[f].pos);
    (fs1.(files := fs1.files[f := fs1.files[f].(pos := fs1.files[f].pos + n)]), n)
  }

  /** file_seek. */
  function Seek(fs: Fs, f: int, pos: int): Fs
    requires f in fs.files
  {
    fs.(files := fs.files[f := fs.files[f].(pos := pos)])
  }
}
