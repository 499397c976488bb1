/** Headers of ustar archives (lib/ustar.c). */
module Ustar {
  import opened Options
  import opened Bytes
  import opened Stdio

  type Text = seq<Byte>

  const SLASH: Byte := 0x2F
  const DOT: Byte := 0x2E
  const HEADER_SIZE := 512
  const INT_MAX := 0x7FFF_FFFF
  const ULONG_MAX := 0xFFFF_FFFF

  const REGULAR: Byte := 0x30
  const DIRECTORY: Byte := 0x35

  // ---- names ----

  /** How much of the front of the name the loop of strip_antisocial_prefixes drops in one turn. */
  function Antisocial(name: Text): (n: nat)
    ensures n <= |name|
  {
    if |name| >= 1 && name[0] == SLASH then 1
    else if |name| >= 2 && name[..2] == [DOT, SLASH] then 2
    else if |name| >= 3 && name[..3] == [DOT, DOT, SLASH] then 3
    else 0
  }

  function Strip(name: Text): Text
    decreases |name|
  {
    if Antisocial(name) > 0 then Strip(name[Antisocial(name)..])
    else if name == [] || name == [DOT, DOT] then [DOT]
    else name
  }

  /** The stripped name starts with no such prefix, and is no name of a parent; stripping it again changes
      nothing. */
  lemma {:induction false} StripIsFinal(name: Text)
    ensures Strip(name) != [] && Antisocial(Strip(name)) == 0 && Strip(name) != [DOT, DOT]
    ensures Strip(Strip(name)) == Strip(name)
    ensures 0 !in name ==> 0 !in Strip(name)
    decreases |name|
  {
    if Antisocial(name) > 0 { StripIsFinal(name[Antisocial(name)..]); }
  }

  /** It is the end of the name, or ".". */
  lemma {:induction false} StripIsSuffix(name: Text)
    ensures Strip(name) == [DOT] || exists k :: 0 <= k <= |name| && Strip(name) == name[k..]
    decreases |name|
  {
    if Antisocial(name) > 0 {
      var n := Antisocial(name);
      StripIsSuffix(name[n..]);
      if Strip(name) != [DOT] {
        var k :| 0 <= k <= |name[n..]| && Strip(name[n..]) == name[n..][k..];
        assert name[n..][k..] == name[n + k..];
      }
    } else if Strip(name) == name {
      assert name == name[0..];
    }
  }

  // ---- octal fields ----

  const OCTAL_FLAGS := Flags(false, false, false, false, true, false)

  /** What "%0<width>o" prints. */
  function Octal(n: int, width: int): Text
    requires 0 <= n
  {
    Formatted(n, false, false, BASE_O, Conversion(OCTAL_FLAGS, width, -1))
  }

  predicate IsOctal(c: Byte) { 0x30 <= c <= 0x37 }

  /** parse_octal_field, from place `ofs` of the field on. */
  function ParseOctal(s: Text, ofs: nat, value: int): Option<int>
    requires ofs <= |s|
    decreases |s| - ofs
  {
    if ofs == |s| then None
    else if IsOctal(s[ofs]) then
      if value > ULONG_MAX / 8 then None else ParseOctal(s, ofs + 1, s[ofs] - 0x30 + value * 8)
    else if s[ofs] == 0x20 || s[ofs] == 0 then
      if ofs > 0 then Some(value) else None
    else None
  }

  lemma {:induction false} OctalDigits(b: Base, value: int, k: int, n: nat)
    requires b == BASE_O && 0 <= value < Power8(n) && 0 <= k
    ensures |Digits(b, false, value, k)| <= n
    ensures forall i | 0 <= i < |Digits(b, false, value, k)| :: IsOctal(Digits(b, false, value, k)[i])
    decreases n
  {
    if value > 0 { OctalDigits(b, value / 8, k + 1, n - 1); }
  }

  lemma {:induction false} ReverseKeeps(s: Text)
    requires forall i | 0 <= i < |s| :: IsOctal(s[i])
    ensures forall i | 0 <= i < |Reverse(s)| :: IsOctal(Reverse(s)[i])
  {
    if s != [] { ReverseKeeps(s[1..]); }
  }

  /** A number that fits in the width is printed as just so many octal digits, which read back as the number. */
  lemma OctalExact(n: int, width: nat)
    requires 0 <= n < Power8(width) && 1 <= width <= 12
    ensures |Octal(n, width)| == width && ValueOf(BASE_O, Octal(n, width)) == n
    ensures forall i | 0 <= i < width :: IsOctal(Octal(n, width)[i])
  {
    var c := Conversion(OCTAL_FLAGS, width, -1);
    OctalDigits(BASE_O, n, 0, width);
    NumeralReads(n, false, false, BASE_O, c);
    var s := Buffer(n, BASE_O, c);
    BufferIsOctal(n, width);
    ReverseKeeps(s);
    hide Buffer, Reverse, ValueOf, Copies, Digits;
    NoPadding(n, width);
    assert Octal(n, width) == Numeral(n, false, false, BASE_O, c);
  }

  lemma BufferIsOctal(n: int, width: nat)
    requires 0 <= n < Power8(width) && 1 <= width <= 12
    ensures var s := Buffer(n, BASE_O, Conversion(OCTAL_FLAGS, width, -1));
      |s| <= width && forall i | 0 <= i < |s| :: IsOctal(s[i])
  {
    OctalDigits(BASE_O, n, 0, width);
    hide Digits;
  }

  lemma NoPadding(n: int, width: nat)
    requires 0 <= n && |Buffer(n, BASE_O, Conversion(OCTAL_FLAGS, width, -1))| <= width
    ensures var c := Conversion(OCTAL_FLAGS, width, -1);
      && Formatted(n, false, false, BASE_O, c) == Numeral(n, false, false, BASE_O, c)
      && |Numeral(n, false, false, BASE_O, c)| == width
  {
    hide Buffer, Reverse;
  }

  /** Reading digits one by one, from place k on, with the value of those before. */
  lemma {:induction false} ParseDigits(s: Text, width: nat, k: nat, n: int)
    requires k <= width < |s| && 0 < width && (forall i | 0 <= i < width :: IsOctal(s[i])) && s[width] == 0
    requires ValueOf(BASE_O, s[..width]) == n <= ULONG_MAX
    ensures ParseOctal(s, k, ValueOf(BASE_O, s[..k])) == Some(n)
    decreases width - k
  {
    if k < width {
      ValueStep(s, k);
      ValueGrows(s, k + 1, width);
      ParseDigits(s, width, k + 1, n);
    }
  }

  lemma ValueStep(s: Text, k: nat)
    requires k < |s| && IsOctal(s[k])
    ensures ValueOf(BASE_O, s[..k + 1]) == s[k] - 0x30 + ValueOf(BASE_O, s[..k]) * 8
  {
    assert s[..k + 1][..k] == s[..k];
  }

  lemma {:induction false} ValueGrows(s: Text, j: nat, k: nat)
    requires j <= k <= |s| && forall i | 0 <= i < k :: IsOctal(s[i])
    ensures 0 <= ValueOf(BASE_O, s[..j]) <= ValueOf(BASE_O, s[..k])
    decreases k
  {
    if j < k {
      ValueGrows(s, j, k - 1);
      ValueStep(s, k - 1);
    } else if k > 0 {
      ValueGrows(s, k - 1, k - 1);
      ValueStep(s, k - 1);
    }
  }

  /** Reading undoes printing: a printed number with a NUL after it is parsed back. */
  lemma OctalRoundTrip(n: int, width: nat)
    requires 0 <= n < Power8(width) && 1 <= width <= 12 && n <= ULONG_MAX
    ensures ParseOctal(Octal(n, width) + [0], 0, 0) == Some(n)
  {
    OctalExact(n, width);
    hide Octal, Power8;
    var s := Octal(n, width) + [0];
    assert s[..width] == Octal(n, width) && s[..0] == [];
    ParseDigits(s, width, 0, n);
  }

  // ---- headers ----

  const USTAR: Text := [0x75, 0x73, 0x74, 0x61, 0x72]
  const ZERO_STRING: Text := [0x30, 0x30, 0x30, 0x30, 0x30, 0x30, 0x30]
  const ROOT_NAME: Text := [0x72, 0x6F, 0x6F, 0x74]
  const CHKSUM := 148

  /** Byte k of a field that holds string t and zeros after it. */
  function Field(t: Text, k: int): Byte {
    if 0 <= k < |t| then t[k] else 0
  }

  function Mode(kind: Byte): int { if kind == REGULAR then 0x1A4 else 0x1ED }    // 0644 and 0755

  /** `size` as the unsigned number that %o takes it for. */
  function Unsigned(size: int): (n: int)
    ensures 0 <= n <= ULONG_MAX
  {
    size % 0x1_0000_0000
  }

  /** Byte i of the header, with the string `chksum` in its checksum field. */
  function HeaderByte(name: Text, kind: Byte, size: int, chksum: Text, i: int): Byte {
    if i < 100 then Field(name, i)
    else if i < 108 then Field(Octal(Mode(kind), 7), i - 100)
    else if i < 116 then Field(ZERO_STRING, i - 108)
    else if i < 124 then Field(ZERO_STRING, i - 116)
    else if i < 136 then Field(Octal(Unsigned(size), 11), i - 124)
    else if i < 148 then Field(Octal(1136102400, 11), i - 136)
    else if i < 156 then Field(chksum, i - 148)
    else if i == 156 then kind
    else if i < 257 then 0
    else if i < 263 then Field(USTAR, i - 257)
    else if i < 265 then 0x30
    else if i < 297 then Field(ROOT_NAME, i - 265)
    else if i < 329 then Field(ROOT_NAME, i - 297)
    else 0
  }

  function Header(name: Text, kind: Byte, size: int, chksum: Text): (h: seq<Byte>)
    ensures |h| == HEADER_SIZE && forall i | 0 <= i < HEADER_SIZE :: h[i] == HeaderByte(name, kind, size, chksum, i)
  {
    seq<Byte>(HEADER_SIZE, i => HeaderByte(name, kind, size, chksum, i))
  }

  /** What byte i adds to the checksum: those of the checksum field count as spaces. */
  function Summand(h: seq<Byte>, i: int): int
    requires 0 <= i < |h|
  {
    if CHKSUM <= i < CHKSUM + 8 then 0x20 else h[i] as int
  }

  /** calculate_chksum of the first i bytes. */
  function Checksum(h: seq<Byte>, i: nat): (n: int)
    requires i <= |h|
    ensures 0 <= n <= 255 * i
  {
    if i == 0 then 0 else Checksum(h, i - 1) + Summand(h, i - 1)
  }

  /** The checksum does not depend on its own field. */
  lemma {:induction false} ChecksumApart(g: seq<Byte>, h: seq<Byte>, i: nat)
    requires |g| == |h| && i <= |g| && forall k | 0 <= k < |g| && !(CHKSUM <= k < CHKSUM + 8) :: g[k] == h[k]
    ensures Checksum(g, i) == Checksum(h, i)
  {
    if i > 0 { ChecksumApart(g, h, i - 1); }
  }

  /** ustar_make_header, for a name without NULs. */
  function MakeHeader(name: Text, kind: Byte, size: int): Option<seq<Byte>> {
    var file := Strip(name);
    if |file| > 99 then None
    else Some(Header(file, kind, size, Octal(Checksum(Header(file, kind, size, []), HEADER_SIZE), 7)))
  }

  // ---- parsing ----

  datatype Parsed = Eof | File(name: Text, kind: Byte, size: int) | Error(error: Problem)

  datatype Problem =
    | NotUstar | InvalidVersion | CorruptChksum | ChecksumMismatch | NameTooLong | UnimplementedType | CorruptSize
    | FileTooLarge

  predicate IsAllZeros(h: seq<Byte>) {
    forall i | 0 <= i < |h| :: h[i] == 0
  }

  /** ustar_parse_header. */
  function ParseHeader(h: seq<Byte>): Parsed
    requires |h| == HEADER_SIZE
  {
    if IsAllZeros(h) then Eof
    else if h[257..263] != USTAR + [0] then Error(NotUstar)
    else if h[263] != 0x30 || h[264] != 0x30 then Error(InvalidVersion)
    else
      match ParseOctal(h[CHKSUM..CHKSUM + 8], 0, 0)
      case None => Error(CorruptChksum)
      case Some(chksum) =>
        if chksum != Checksum(h, HEADER_SIZE) then Error(ChecksumMismatch)
        else if h[99] != 0 || h[345] != 0 then Error(NameTooLong)
        else if h[156] != REGULAR && h[156] != DIRECTORY then Error(UnimplementedType)
        else if h[156] == REGULAR then
          match ParseOctal(h[124..136], 0, 0)
          case None => Error(CorruptSize)
          case Some(size) => if size > INT_MAX then Error(FileTooLarge) else File(Strip(CString(h[..100])), h[156],
                                                                                  size)
        else File(Strip(CString(h[..100])), h[156], 0)
  }

  // ---- the round trip ----

  lemma FieldIs(h: seq<Byte>, at: nat, t: Text)
    requires at + |t| + 1 <= |h| && forall k | 0 <= k < |t| + 1 :: h[at + k] == Field(t, k)
    ensures h[at..at + |t| + 1] == t + [0]
  {
    forall k | 0 <= k < |t| + 1 ensures h[at..at + |t| + 1][k] == (t + [0])[k] { assert h[at + k] == Field(t, k); }
  }

  /** The fields of a header that was made. */
  lemma HeaderFields(name: Text, kind: Byte, size: int, chksum: Text)
    requires |name| <= 99 && |chksum| == 7
    ensures var h := Header(name, kind, size, chksum);
      && h[257..263] == USTAR + [0] && h[263] == 0x30 && h[264] == 0x30 && h[156] == kind && h[345] == 0 && h[99] == 0
      && h[CHKSUM..CHKSUM + 8] == chksum + [0] && h[..|name|] == name && h[|name|] == 0 && !IsAllZeros(h)
  {
    hide Octal;
    var h := Header(name, kind, size, chksum);
    FieldIs(h, 257, USTAR);
    FieldIs(h, CHKSUM, chksum);
    assert h[257] != 0;
  }

  lemma SizeField(name: Text, kind: Byte, size: int, chksum: Text)
    requires 0 <= size <= INT_MAX
    ensures Header(name, kind, size, chksum)[124..136] == Octal(size, 11) + [0]
  {
    SmallPowers();
    OctalExact(size, 11);
    SizeBytes(name, kind, size, chksum);
    hide Octal, HeaderByte, Header;
    FieldIs(Header(name, kind, size, chksum), 124, Octal(size, 11));
  }

  lemma SizeBytes(name: Text, kind: Byte, size: int, chksum: Text)
    requires 0 <= size <= INT_MAX
    ensures forall k | 0 <= k < 12 :: Header(name, kind, size, chksum)[124 + k] == Field(Octal(size, 11), k)
  {
    hide Octal;
    assert Unsigned(size) == size;
  }

  lemma SmallPowers()
    ensures Power8(7) == 0x20_0000 && Power8(11) == 0x2_0000_0000
  {
    assert Power8(4) == 0x1000;
    assert Power8(8) == 0x100_0000;
  }

  /** Parsing undoes making: for every name of at most 99 characters after stripping, and every size that an int
      can hold, the stripped name, the type and the size come back, with the size 0 for a directory. */
  lemma HeaderRoundTrip(name: Text, kind: Byte, size: int)
    requires 0 !in name && |Strip(name)| <= 99 && (kind == REGULAR || kind == DIRECTORY) && 0 <= size <= INT_MAX
    ensures MakeHeader(name, kind, size).Some?
    ensures ParseHeader(MakeHeader(name, kind, size).value)
      == File(Strip(name), kind, if kind == REGULAR then size else 0)
  {
    var file := Strip(name);
    var sum := Checksum(Header(file, kind, size, []), HEADER_SIZE);
    var chksum := Octal(sum, 7);
    var h := Header(file, kind, size, chksum);
    StripIsFinal(name);
    SmallPowers();
    OctalExact(sum, 7);
    OctalRoundTrip(sum, 7);
    OctalRoundTrip(size, 11);
    HeaderFields(file, kind, size, chksum);
    SizeField(file, kind, size, chksum);
    SumsAgree(file, kind, size, chksum);
    hide Octal, Strip, ParseOctal, Checksum, HeaderByte, Header, ParseHeader;
    ParsesTo(h, file, kind, size, sum);
  }

  lemma ParsesTo(h: seq<Byte>, file: Text, kind: Byte, size: int, sum: int)
    requires |h| == HEADER_SIZE && !IsAllZeros(h) && h[257..263] == USTAR + [0] && h[263] == 0x30 && h[264] == 0x30
    requires ParseOctal(h[CHKSUM..CHKSUM + 8], 0, 0) == Some(sum) && sum == Checksum(h, HEADER_SIZE)
    requires h[99] == 0 && h[345] == 0 && h[156] == kind && (kind == REGULAR || kind == DIRECTORY)
    requires ParseOctal(h[124..136], 0, 0) == Some(size) && size <= INT_MAX
    requires |file| <= 99 && h[..|file|] == file && h[|file|] == 0 && 0 !in file
    ensures ParseHeader(h) == File(Strip(file), kind, if kind == REGULAR then size else 0)
  {
    hide Strip, ParseOctal, Checksum, IsAllZeros;
    assert h[..100][..|file|] == file;
    CStringOf(h[..100], file);
  }

  lemma SumsAgree(name: Text, kind: Byte, size: int, chksum: Text)
    ensures Checksum(Header(name, kind, size, chksum), HEADER_SIZE)
      == Checksum(Header(name, kind, size, []), HEADER_SIZE)
  {
    hide Octal;
    ChecksumApart(Header(name, kind, size, chksum), Header(name, kind, size, []), HEADER_SIZE);
  }

  /** A header is made exactly if the stripped name has at most 99 characters. */
  lemma MadeExactly(name: Text, kind: Byte, size: int)
    ensures MakeHeader(name, kind, size).None? <==> |Strip(name)| > 99
    ensures |name| <= 99 ==> MakeHeader(name, kind, size).Some?
  {
    StripIsSuffix(name);
  }
}
