/** A disk of sectors, and the bytes of a file that lies in consecutive sectors (filesys/inode.c). */
module Disk {
  import opened Bytes

  /** off_t. */
  type AnyOffset = x: int | -0x8000_0000 <= x < 0x8000_0000

  /** off_t, where the source has made sure that it is not negative. */
  type Offset = x: int | 0 <= x < 0x8000_0000

  /** A sector holds an inode or data. */
  datatype Block = Node(start: int, length: Offset) | Data(bytes: seq<Byte>)

  type Disk = map<int, Block>

  const SECTOR := 512

  /** bytes_to_sectors, with the wrap of 32-bit signed addition and the conversion to an unsigned count. */
  function Sectors(length: Offset): (n: int)
    ensures 0 <= n && length <= SECTOR * n && (length == 0 ==> n == 0)
  {
    if length + SECTOR - 1 < 0x8000_0000 then (length + SECTOR - 1) / SECTOR
    else 0x1_0000_0000 - (0x1_0000_0000 - (length + SECTOR - 1)) / SECTOR
  }

  /** byte_to_sector, for a byte before the end of the file: the sector that holds byte i. */
  function SectorOf(start: int, i: int): int {
    start + i / SECTOR
  }

  ghost predicate IsData(disk: Disk, x: int) {
    x in disk && disk[x].Data? && |disk[x].bytes| == SECTOR
  }

  predicate InRange(start: int, n: int, x: int) {
    start <= x < start + n
  }

  ghost predicate DataOk(disk: Disk, start: int, n: int) {
    forall x | start <= x < start + n :: IsData(disk, x)
  }

  function ByteOf(disk: Disk, start: int, i: int): Byte {
    var x := SectorOf(start, i);
    if x in disk && disk[x].Data? && i % SECTOR < |disk[x].bytes| then disk[x].bytes[i % SECTOR] else 0
  }

  /** The bytes of the file. */
  function Content(disk: Disk, start: int, length: int): (c: seq<Byte>)
    requires 0 <= length
    ensures |c| == length && forall i | 0 <= i < length :: c[i] == ByteOf(disk, start, i)
  {
    seq(length, i => ByteOf(disk, start, i))
  }

  // ---- writing ----

  function Poke(disk: Disk, start: int, i: int, b: Byte): Disk {
    var x := SectorOf(start, i);
    if x in disk && disk[x].Data? && i % SECTOR < |disk[x].bytes| then
      disk[x := Data(disk[x].bytes[i % SECTOR := b])]
    else disk
  }

  /** The bytes bs at offset i of the file. */
  function WriteBytes(disk: Disk, start: int, i: int, bs: seq<Byte>): Disk
    decreases |bs|
  {
    if bs == [] then disk else WriteBytes(Poke(disk, start, i, bs[0]), start, i + 1, bs[1..])
  }

  /** A sector of data stays one, whatever is written. */
  lemma {:induction false} WriteKeepsData(disk: Disk, start: int, i: int, bs: seq<Byte>, from: int, n: int)
    requires DataOk(disk, from, n)
    ensures DataOk(WriteBytes(disk, start, i, bs), from, n)
    decreases |bs|
  {
    if bs != [] {
      var d := Poke(disk, start, i, bs[0]);
      forall x | from <= x < from + n ensures IsData(d, x) { assert IsData(disk, x); }
      WriteKeepsData(d, start, i + 1, bs[1..], from, n);
    }
  }

  /** Every byte is as before, but those that were written. */
  lemma {:induction false} WriteBytesAt(disk: Disk, start: int, n: int, i: int, bs: seq<Byte>, k: int)
    requires DataOk(disk, start, n) && 0 <= i && i + |bs| <= SECTOR * n && 0 <= k < SECTOR * n
    ensures ByteOf(WriteBytes(disk, start, i, bs), start, k)
      == if i <= k < i + |bs| then bs[k - i] else ByteOf(disk, start, k)
    decreases |bs|
  {
    if bs != [] {
      PokeAt(disk, start, n, i, bs[0], k);
      WriteKeepsData(disk, start, i, [bs[0]], start, n);
      assert Poke(disk, start, i, bs[0]) == WriteBytes(disk, start, i, [bs[0]]);
      WriteBytesAt(Poke(disk, start, i, bs[0]), start, n, i + 1, bs[1..], k);
    }
  }

  lemma PokeAt(disk: Disk, start: int, n: int, i: int, b: Byte, k: int)
    requires DataOk(disk, start, n) && 0 <= i < SECTOR * n && 0 <= k < SECTOR * n
    ensures ByteOf(Poke(disk, start, i, b), start, k) == if k == i then b else ByteOf(disk, start, k)
  {
    assert IsData(disk, SectorOf(start, i)) && IsData(disk, SectorOf(start, k));
    assert i == SECTOR * (i / SECTOR) + i % SECTOR && k == SECTOR * (k / SECTOR) + k % SECTOR;
  }

  /** Only sectors of the file change, and inodes never do. */
  lemma {:induction false} WriteBytesFrame(disk: Disk, start: int, n: int, i: int, bs: seq<Byte>, x: int)
    requires 0 <= i && i + |bs| <= SECTOR * n
    requires !(start <= x < start + n) || (x in disk && disk[x].Node?)
    ensures var d := WriteBytes(disk, start, i, bs); (x in d <==> x in disk) && (x in disk ==> d[x] == disk[x])
    decreases |bs|
  {
    if bs != [] {
      assert start <= SectorOf(start, i) < start + n;
      WriteBytesFrame(Poke(disk, start, i, bs[0]), start, n, i + 1, bs[1..], x);
    }
  }

  function Splice(c: seq<Byte>, i: int, bs: seq<Byte>): seq<Byte>
    requires 0 <= i && i + |bs| <= |c|
  {
    c[..i] + bs + c[i + |bs|..]
  }

  /** Writing to the sectors of a file splices the bytes into its contents. */
  lemma WriteSplices(disk: Disk, start: int, length: Offset, i: int, bs: seq<Byte>)
    requires DataOk(disk, start, Sectors(length)) && 0 <= i && i + |bs| <= length
    ensures Content(WriteBytes(disk, start, i, bs), start, length) == Splice(Content(disk, start, length), i, bs)
    ensures DataOk(WriteBytes(disk, start, i, bs), start, Sectors(length))
  {
    hide WriteBytes, ByteOf, DataOk;
    var c, c' := Content(disk, start, length), Content(WriteBytes(disk, start, i, bs), start, length);
    WriteKeepsData(disk, start, i, bs, start, Sectors(length));
    forall k | 0 <= k < length ensures c'[k] == Splice(c, i, bs)[k] {
      WriteBytesAt(disk, start, Sectors(length), i, bs, k);
    }
  }

  /** Writing a piece inside one sector replaces that sector. */
  lemma {:induction false} WriteChunk(disk: Disk, start: int, i: int, bs: seq<Byte>)
    requires 0 <= i && i % SECTOR + |bs| <= SECTOR && IsData(disk, SectorOf(start, i)) && bs != []
    ensures var x := SectorOf(start, i);
      WriteBytes(disk, start, i, bs) == disk[x := Data(Splice(disk[x].bytes, i % SECTOR, bs))]
    decreases |bs|
  {
    var x, o := SectorOf(start, i), i % SECTOR;
    var d := Poke(disk, start, i, bs[0]);
    if |bs| > 1 {
      assert SectorOf(start, i + 1) == x && (i + 1) % SECTOR == o + 1;
      WriteChunk(d, start, i + 1, bs[1..]);
      assert Splice(d[x].bytes, o + 1, bs[1..]) == Splice(disk[x].bytes, o, bs);
    } else {
      assert WriteBytes(d, start, i + 1, bs[1..]) == d;
      assert d[x].bytes == Splice(disk[x].bytes, o, bs);
    }
  }

  /** Two pieces one after the other are one piece. */
  lemma {:induction false} WriteConcat(disk: Disk, start: int, i: int, a: seq<Byte>, b: seq<Byte>)
    ensures WriteBytes(WriteBytes(disk, start, i, a), start, i + |a|, b) == WriteBytes(disk, start, i, a + b)
    decreases |a|
  {
    if a == [] {
      assert a + b == b;
    } else {
      WriteConcat(Poke(disk, start, i, a[0]), start, i + 1, a[1..], b);
      assert (a + b)[1..] == a[1..] + b;
    }
  }

  // ---- reading and writing at a position ----

  /** How many bytes inode_read_at or inode_write_at moves. */
  function Movable(length: int, size: int, offset: int): (n: int)
    ensures 0 <= n && (n > 0 ==> offset + n <= length)
  {
    if size <= 0 || offset >= length then 0 else if size < length - offset then size else length - offset
  }

  /** inode_read_at. */
  function ReadAt(disk: Disk, start: int, length: int, size: int, offset: int): seq<Byte>
    requires 0 <= length && 0 <= offset
  {
    var n := Movable(length, size, offset);
    if n == 0 then [] else Content(disk, start, length)[offset..offset + n]
  }

  /** inode_write_at: the new disk and the number of bytes written. */
  function WriteAt(disk: Disk, start: int, length: int, denied: bool, bs: seq<Byte>, offset: int): (Disk, int)
    requires 0 <= offset
  {
    var n := if denied then 0 else Movable(length, |bs|, offset);
    (WriteBytes(disk, start, offset, bs[..n]), n)
  }

  /** What a write does to the bytes of the file, at any position and with any size. */
  lemma WriteAtSplices(disk: Disk, start: int, length: Offset, denied: bool, bs: seq<Byte>, offset: int)
    requires DataOk(disk, start, Sectors(length)) && 0 <= offset
    ensures var (d, n) := WriteAt(disk, start, length, denied, bs, offset);
      && DataOk(d, start, Sectors(length))
      && Content(d, start, length)
         == (if n == 0 then Content(disk, start, length) else Splice(Content(disk, start, length), offset, bs[..n]))
      && (n == 0 <==> denied || bs == [] || offset >= length)
  {
    var n := WriteAt(disk, start, length, denied, bs, offset).1;
    if n > 0 { WriteSplices(disk, start, length, offset, bs[..n]); }
  }

  /** Reading back what was written gives the bytes that were written. */
  lemma ReadAfterWrite(disk: Disk, start: int, length: Offset, bs: seq<Byte>, offset: int)
    requires DataOk(disk, start, Sectors(length)) && 0 <= offset
    ensures var (d, n) := WriteAt(disk, start, length, false, bs, offset);
      ReadAt(d, start, length, |bs|, offset) == bs[..n]
  {
    WriteAtSplices(disk, start, length, false, bs, offset);
  }

  /** A write changes no byte of another file whose sectors are apart. */
  lemma WriteLeavesOthers(disk: Disk, start: int, length: Offset, denied: bool, bs: seq<Byte>, offset: int, other: int,
                          len: Offset)
    requires 0 <= offset
    requires forall x :: !(InRange(start, Sectors(length), x) && InRange(other, Sectors(len), x))
    ensures Content(WriteAt(disk, start, length, denied, bs, offset).0, other, len) == Content(disk, other, len)
  {
    var (d, n) := WriteAt(disk, start, length, denied, bs, offset);
    forall k | 0 <= k < len ensures ByteOf(d, other, k) == ByteOf(disk, other, k) {
      assert InRange(other, Sectors(len), SectorOf(other, k));
      if n > 0 { WriteBytesFrame(disk, start, Sectors(length), offset, bs[..n], SectorOf(other, k)); }
    }
  }

  // ---- one sector at a time ----

  /** What one turn of the loops moves. */
  function ChunkSize(length: int, size: int, offset: int): int {
    var left := if length - offset < SECTOR - offset % SECTOR then length - offset else SECTOR - offset % SECTOR;
    if size < left then size else left
  }

  lemma ReadChunk(disk: Disk, start: int, length: Offset, size: int, offset: int)
    requires DataOk(disk, start, Sectors(length)) && 0 <= offset && 0 < ChunkSize(length, size, offset)
    ensures var n, x, o := ChunkSize(length, size, offset), SectorOf(start, offset), offset % SECTOR;
      && IsData(disk, x) && o + n <= SECTOR
      && ReadAt(disk, start, length, size, offset)
           == disk[x].bytes[o..o + n] + ReadAt(disk, start, length, size - n, offset + n)
  {
    hide *;
    ChunkPlace(disk, start, length, size, offset);
    PositiveSize(length, size, offset);
    NoChunk(length, size, offset);
    ContentSize(disk, start, length, size, offset);
    var n := ChunkSize(length, size, offset);
    ReadIsSlice(disk, start, length, size, offset);
    ReadIsSlice(disk, start, length, size - n, offset + n);
    ReadMore(Content(disk, start, length), offset, n, Movable(length, size, offset));
  }

  lemma ReadIsSlice(disk: Disk, start: int, length: Offset, size: int, offset: int)
    requires 0 <= offset && |Content(disk, start, length)| == length
    ensures var n := Movable(length, size, offset);
      && 0 <= n && (n > 0 ==> offset + n <= length)
      && ReadAt(disk, start, length, size, offset)
           == if n == 0 then [] else Content(disk, start, length)[offset..offset + n]
  {
    hide ByteOf;
  }

  lemma ContentSize(disk: Disk, start: int, length: Offset, size: int, offset: int)
    requires 0 <= offset
    ensures |Content(disk, start, length)| == length
    ensures (Movable(length, size, offset) > 0 ==> offset + Movable(length, size, offset) <= length)
  {
    hide ByteOf;
  }

  lemma PositiveSize(length: int, size: int, offset: int)
    requires 0 < ChunkSize(length, size, offset)
    ensures 0 < size
  {
  }

  /** A turn's piece lies in one sector. */
  lemma ChunkPlace(disk: Disk, start: int, length: Offset, size: int, offset: int)
    requires DataOk(disk, start, Sectors(length)) && 0 <= offset && 0 < ChunkSize(length, size, offset)
    ensures var n, x, o := ChunkSize(length, size, offset), SectorOf(start, offset), offset % SECTOR;
      && IsData(disk, x) && o + n <= SECTOR && offset + n <= length
      && Content(disk, start, length)[offset..offset + n] == disk[x].bytes[o..o + n]
  {
    var n, x, o := ChunkSize(length, size, offset), SectorOf(start, offset), offset % SECTOR;
    ChunkFits(start, length, size, offset);
    hide SectorOf, Sectors, ChunkSize;
    assert IsData(disk, x);
    forall j | offset <= j < offset + n
      ensures ByteOf(disk, start, j) == disk[x].bytes[o + (j - offset)]
    {
      SameSector(start, offset, j - offset);
    }
    hide ByteOf, DataOk;
    assert Content(disk, start, length)[offset..offset + n] == disk[x].bytes[o..o + n];
  }

  lemma ChunkFits(start: int, length: Offset, size: int, offset: int)
    requires 0 <= offset && 0 < ChunkSize(length, size, offset)
    ensures start <= SectorOf(start, offset) < start + Sectors(length) && 0 <= offset % SECTOR
    ensures offset % SECTOR + ChunkSize(length, size, offset) <= SECTOR
    ensures offset + ChunkSize(length, size, offset) <= length
  {
  }

  lemma SameSector(start: int, offset: int, k: int)
    requires 0 <= offset && 0 <= k && offset % SECTOR + k < SECTOR
    ensures SectorOf(start, offset + k) == SectorOf(start, offset) && (offset + k) % SECTOR == offset % SECTOR + k
  {
  }

  lemma ReadMore(c: seq<Byte>, offset: int, n: int, m: int)
    requires 0 <= offset && 0 < n <= m && offset + m <= |c|
    ensures c[offset..offset + m]
      == c[offset..offset + n] + (if m == n then [] else c[offset + n..offset + n + (m - n)])
  {
  }

  lemma NoChunk(length: int, size: int, offset: int)
    requires 0 <= offset && 0 < size
    ensures ChunkSize(length, size, offset) <= 0 <==> Movable(length, size, offset) == 0
    ensures ChunkSize(length, size, offset) > 0 ==>
      Movable(length, size, offset) == ChunkSize(length, size, offset) + Movable(length,
          size - ChunkSize(length, size, offset), offset + ChunkSize(length, size, offset))
  {
  }
}
