/** The free map as bytes of a file (bitmap_write and bitmap_read of lib/kernel/bitmap.c): words of 32 bits, the
    least significant byte and the least significant bit first. */
module MapFile {
  import opened Bytes

  /** bitmap_file_size. */
  function MapBytes(size: nat): (n: nat)
    ensures size <= 8 * n && (size <= 0x1_0000_0000 ==> n <= 0x2000_0000)
  {
    (size + 31) / 32 * 4
  }

  function Power2(k: nat): int { if k == 0 then 1 else 2 * Power2(k - 1) }

  /** The number that k bits from i on make; bits past the end of the map are clear. */
  function Packed(bits: seq<bool>, i: nat, k: nat): (v: int)
    ensures 0 <= v < Power2(k)
    decreases k
  {
    if k == 0 then 0 else (if i < |bits| && bits[i] then 1 else 0) + 2 * Packed(bits, i + 1, k - 1)
  }

  predicate BitIn(v: int, j: nat)
    decreases j
  {
    if j == 0 then v % 2 == 1 else BitIn(v / 2, j - 1)
  }

  function PackedByte(bits: seq<bool>, k: nat): Byte {
    assert Power2(8) == 256;
    Packed(bits, 8 * k, 8)
  }

  /** The bytes that bitmap_write writes. */
  function Encode(bits: seq<bool>): (bytes: seq<Byte>)
    ensures |bytes| == MapBytes(|bits|)
  {
    seq(MapBytes(|bits|), (k: nat) => PackedByte(bits, k))
  }

  /** The bits that bitmap_read finds. */
  function Decode(bytes: seq<Byte>, size: nat): (bits: seq<bool>)
    requires size <= 8 * |bytes|
    ensures |bits| == size
  {
    seq(size, i requires 0 <= i < size => BitIn(bytes[i / 8], i % 8))
  }

  lemma {:induction false} PackedBit(bits: seq<bool>, i: nat, k: nat, j: nat)
    requires j < k
    ensures BitIn(Packed(bits, i, k), j) <==> i + j < |bits| && bits[i + j]
    decreases k
  {
    if j > 0 { PackedBit(bits, i + 1, k - 1, j - 1); }
  }

  /** Reading the free map's file undoes writing it. */
  lemma DecodeEncode(bits: seq<bool>)
    ensures Decode(Encode(bits), |bits|) == bits
  {
    hide Packed, BitIn;
    forall i | 0 <= i < |bits| ensures Decode(Encode(bits), |bits|)[i] == bits[i] {
      PackedBit(bits, 8 * (i / 8), 8, i % 8);
    }
  }
}
