/** The loops of lib/ustar.c. */
module UstarMachine {
  import opened Options
  import opened Bytes
  import opened Stdio
  import opened StdioMachine
  import opened Ustar

  /** strip_antisocial_prefixes: the place of the stripped name in the name, or none where it is ".". */
  method StripPrefixes(name: Text) returns (stripped: Text)
    ensures stripped == Strip(name)
  {
    var at := 0;
    while Antisocial(name[at..]) > 0
      invariant 0 <= at <= |name| && Strip(name) == Strip(name[at..])
      decreases |name| - at
    {
      var rest := name[at..];
      var slash := 0;
      while rest[slash] != SLASH
        invariant 0 <= slash < |rest| && slash < Antisocial(rest)
        invariant forall k | 0 <= k < slash :: rest[k] != SLASH
        decreases |rest| - slash
      {
        PrefixEnds(rest, slash);
        slash := slash + 1;
      }
      PrefixEnds(rest, slash);
      assert name[at..][slash + 1..] == name[at + slash + 1..];
      at := at + slash + 1;
    }
    stripped := name[at..];
    if stripped == [] || stripped == [DOT, DOT] { stripped := [DOT]; }
  }

  /** The prefix that is dropped ends at the first slash. */
  lemma PrefixEnds(s: Text, k: nat)
    requires k < Antisocial(s)
    ensures k < |s| && (s[k] == SLASH <==> k + 1 == Antisocial(s))
  {
    var n := Antisocial(s);
    if n == 2 { assert s[..2][0] == DOT && s[..2][1] == SLASH; }
    if n == 3 { assert s[..3][0] == DOT && s[..3][1] == DOT && s[..3][2] == SLASH; }
  }

  method CalculateChksum(header: array<Byte>) returns (chksum: int)
    requires header.Length == HEADER_SIZE
    ensures chksum == Checksum(header[..], HEADER_SIZE)
  {
    chksum := 0;
    var i := 0;
    while i < HEADER_SIZE
      invariant 0 <= i <= HEADER_SIZE && chksum == Checksum(header[..], i)
    {
      var inChksumField := i >= CHKSUM && i < CHKSUM + 8;
      chksum := chksum + (if inChksumField then 0x20 else header[i]);
      i := i + 1;
    }
  }

  method ParseOctalField(s: Text) returns (value: Option<int>)
    ensures value == ParseOctal(s, 0, 0)
  {
    var ofs, v := 0, 0;
    while ofs < |s|
      invariant 0 <= ofs <= |s| && ParseOctal(s, 0, 0) == ParseOctal(s, ofs, v)
    {
      var c := s[ofs];
      if IsOctal(c) {
        if v > ULONG_MAX / 8 { return None; }
        v := c - 0x30 + v * 8;
      } else if c == 0x20 || c == 0 {
        return if ofs > 0 then Some(v) else None;
      } else {
        return None;
      }
      ofs := ofs + 1;
    }
    value := None;
  }

  /** strlcpy or snprintf of a text into a field that is zero and has room for it. */
  method StoreText(header: array<Byte>, ofs: nat, size: nat, t: Text)
    requires header.Length == HEADER_SIZE && ofs + size <= HEADER_SIZE && |t| < size
    requires forall i | ofs <= i < ofs + size :: header[i] == 0
    modifies header
    ensures forall i | 0 <= i < HEADER_SIZE ::
      header[i] == if ofs <= i < ofs + size then Field(t, i - ofs) else old(header[i])
  {
    var k := 0;
    while k < |t|
      invariant 0 <= k <= |t|
      invariant forall i | 0 <= i < HEADER_SIZE ::
        header[i] == if ofs <= i < ofs + k then t[i - ofs] else old(header[i])
    {
      header[ofs + k] := t[k];
      k := k + 1;
    }
    header[ofs + |t|] := 0;
  }

  /** snprintf with "%0<width>o". */
  method StoreOctal(header: array<Byte>, ofs: nat, n: int, width: nat)
    requires header.Length == HEADER_SIZE && ofs + width + 1 <= HEADER_SIZE
    requires 0 <= n < Power8(width) && 1 <= width <= 12 && n <= ULONG_MAX
    requires forall i | ofs <= i < ofs + width + 1 :: header[i] == 0
    modifies header
    ensures forall i | 0 <= i < HEADER_SIZE ::
      header[i] == if ofs <= i < ofs + width + 1 then Field(Octal(n, width), i - ofs) else old(header[i])
  {
    OctalExact(n, width);
    hide Octal, Power8;
    var t := FormatInteger(n, false, false, BASE_O, Conversion(OCTAL_FLAGS, width, -1));
    OctalIs(n, width);
    StoreText(header, ofs, width + 1, t);
  }

  lemma OctalIs(n: int, width: nat)
    requires 0 <= n
    ensures Octal(n, width) == Formatted(n, false, false, BASE_O, Conversion(OCTAL_FLAGS, width, -1))
  {
  }

  /** The fields before the type. */
  method StoreNumbers(header: array<Byte>, file: Text, kind: Byte, size: int)
    requires header.Length == HEADER_SIZE && |file| <= 99 && forall i | 0 <= i < HEADER_SIZE :: header[i] == 0
    modifies header
    ensures forall i | 0 <= i < HEADER_SIZE :: header[i] == if i < 148 then HeaderByte(file, kind, size, [], i) else 0
  {
    SmallPowers();
    hide Octal, Power8, Field;
    StoreText(header, 0, 100, file);
    StoreOctal(header, 100, Mode(kind), 7);
    StoreText(header, 108, 8, ZERO_STRING);
    StoreText(header, 116, 8, ZERO_STRING);
    StoreOctal(header, 124, Unsigned(size), 11);
    StoreOctal(header, 136, 1136102400, 11);
  }

  /** The type and the fields after it. */
  method StoreNames(header: array<Byte>, ghost file: Text, kind: Byte, ghost size: int)
    requires header.Length == HEADER_SIZE
    requires forall i | 0 <= i < HEADER_SIZE :: header[i] == if i < 148 then HeaderByte(file, kind, size, [], i) else 0
    modifies header
    ensures header[..] == Header(file, kind, size, [])
  {
    hide Octal;
    header[156] := kind;
    StoreText(header, 257, 6, USTAR);
    header[263], header[264] := 0x30, 0x30;
    StoreText(header, 297, 32, ROOT_NAME);
    StoreText(header, 265, 32, ROOT_NAME);
  }

  /** ustar_make_header. */
  method UstarMakeHeader(name: Text, kind: Byte, size: int, header: array<Byte>) returns (ok: bool)
    requires header.Length == HEADER_SIZE
    modifies header
    ensures ok <==> MakeHeader(name, kind, size).Some?
    ensures ok ==> header[..] == MakeHeader(name, kind, size).value
    ensures !ok ==> header[..] == old(header[..])
  {
    var file := StripPrefixes(name);
    if |file| > 99 { return false; }
    var i := 0;
    while i < HEADER_SIZE
      invariant 0 <= i <= HEADER_SIZE && forall k | 0 <= k < i :: header[k] == 0
    {
      header[i] := 0;
      i := i + 1;
    }
    hide Octal, Strip, Checksum, Power8;
    StoreNumbers(header, file, kind, size);
    StoreNames(header, file, kind, size);
    var sum := CalculateChksum(header);
    ChecksumSmall(header[..]);
    StoreOctal(header, CHKSUM, sum, 7);
    assert header[..] == Header(file, kind, size,
        Octal(sum, 7)) by { hide HeaderByte; ChksumStored(header[..], file, kind, size, Octal(sum, 7)); }
    ok := true;
  }

  lemma ChecksumSmall(h: seq<Byte>)
    requires |h| == HEADER_SIZE
    ensures 0 <= Checksum(h, HEADER_SIZE) <= 130560 && 130560 < Power8(7)
  {
    SmallPowers();
  }

  lemma ChksumStored(h: seq<Byte>, file: Text, kind: Byte, size: int, chksum: Text)
    requires |h| == HEADER_SIZE
    requires forall i | 0 <= i < HEADER_SIZE ::
      h[i] == if CHKSUM <= i < CHKSUM + 8 then Field(chksum, i - CHKSUM) else HeaderByte(file, kind, size, [], i)
    ensures h == Header(file, kind, size, chksum)
  {
    hide Octal, Field;
  }

  // ---- parsing ----

  /** is_all_zeros. */
  method AllZeros(h: seq<Byte>) returns (zeros: bool)
    ensures zeros == IsAllZeros(h)
  {
    var i := 0;
    while i < |h|
      invariant 0 <= i <= |h| && forall k | 0 <= k < i :: h[k] == 0
    {
      if h[i] != 0 { return false; }
      i := i + 1;
    }
    zeros := true;
  }

  /** ustar_parse_header. */
  method UstarParseHeader(header: array<Byte>) returns (r: Parsed)
    requires header.Length == HEADER_SIZE
    ensures r == ParseHeader(header[..])
  {
    var h := header[..];
    hide ParseOctal, Checksum, Strip, CString, IsAllZeros;
    var zeros := AllZeros(h);
    if zeros { return Eof; }
    if h[257..263] != USTAR + [0] { return Error(NotUstar); }
    if h[263] != 0x30 || h[264] != 0x30 { return Error(InvalidVersion); }
    var chksum := ParseOctalField(h[CHKSUM..CHKSUM + 8]);
    if chksum.None? { return Error(CorruptChksum); }
    var sum := CalculateChksum(header);
    if chksum.value != sum { return Error(ChecksumMismatch); }
    if h[99] != 0 || h[345] != 0 { return Error(NameTooLong); }
    if h[156] != REGULAR && h[156] != DIRECTORY { return Error(UnimplementedType); }
    var size := Some(0);
    if h[156] == REGULAR {
      size := ParseOctalField(h[124..136]);
      if size.None? { return Error(CorruptSize); }
      if size.value > INT_MAX { return Error(FileTooLarge); }
    }
    var name := StripPrefixes(CString(h[..100]));
    r := File(name, h[156], size.value);
  }
}
