/** format_integer and vsnprintf as lib/stdio.c has them. */
module StdioMachine {
  import opened Options
  import opened Bytes
  import opened Sequences
  import opened Stdio

  /** output_dup: the character n times. */
  method OutputDup(c: Byte, n: int, out0: seq<Byte>) returns (out: seq<Byte>)
    ensures out == out0 + Copies(c, n)
  {
    out := out0;
    var i := n;
    while i > 0
      invariant i <= n && out + Copies(c, i) == out0 + Copies(c, n)
    {
      assert out + Copies(c, i) == (out + [c]) + Copies(c, i - 1);
      out := out + [c];
      i := i - 1;
    }
    assert out + [] == out && out0 + [] == out0;
  }

  /** The buffer of format_integer, and how much of it is filled. */
  method FillBuffer(value: int, b: Base, c: Conversion, buf: array<Byte>) returns (cp: nat)
    requires IsBase(b) && 0 <= value < 0x1_0000_0000_0000_0000 && buf.Length == BUF
    modifies buf
    ensures cp <= BUF && buf[..cp] == Buffer(value, b, c)
  {
    hide *;
    BufferFits(value, b, c);
    BufferIs(value, b, c);
    cp := StoreDigits(value, b, c.flags.group, buf);
    cp := AppendZeros(b, c, buf, cp, Digits(b, c.flags.group, value, 0));
  }

  /** The loop of format_integer over the digits. */
  method StoreDigits(value0: int, b: Base, grouped: bool, buf: array<Byte>) returns (cp: nat)
    requires IsBase(b) && 0 <= value0 && |Digits(b, grouped, value0, 0)| <= buf.Length
    modifies buf
    ensures cp <= buf.Length && buf[..cp] == Digits(b, grouped, value0, 0)
  {
    hide Digit, IsBase, Digits;
    ghost var all := Digits(b, grouped, value0, 0);
    var value, digitCnt := value0, 0;
    cp := 0;
    while value > 0
      invariant 0 <= value && 0 <= digitCnt && cp <= |all| && buf[..cp] == all[..cp]
      invariant Digits(b, grouped, value, digitCnt) == all[cp..]
      decreases value
    {
      NextDigit(b, grouped, value, digitCnt);
      ghost var before, comma := all[..cp], Comma(b, grouped, digitCnt);
      TakeNext(all, cp, comma + [Digit(b, value % b.base)], Digits(b, grouped, value / b.base, digitCnt + 1));
      if grouped && digitCnt > 0 && digitCnt % b.group == 0 {
        buf[cp] := COMMA;
        cp := cp + 1;
      }
      assert buf[..cp] == before + comma;
      hide Comma;
      buf[cp] := Digit(b, value % b.base);
      cp := cp + 1;
      assert buf[..cp] == before + (comma + [Digit(b, value % b.base)]);
      value := value / b.base;
      digitCnt := digitCnt + 1;
    }
    NoDigits(b, grouped, digitCnt);
  }

  lemma NoDigits(b: Base, grouped: bool, k: int)
    requires IsBase(b) && 0 <= k
    ensures Digits(b, grouped, 0, k) == []
  {
  }

  lemma BufferIs(value: int, b: Base, c: Conversion)
    requires IsBase(b) && 0 <= value
    ensures var digits := Digits(b, c.flags.group, value, 0);
      var precision := if c.precision < 0 then 1 else c.precision;
      var s := digits + Copies(ZERO, (if precision < BUF - 1 then precision else BUF - 1) - |digits|);
      Buffer(value, b, c) == if c.flags.pound && b.base == 8 && (s == [] || s[|s| - 1] != ZERO) then s + [ZERO] else s
  {
    hide Digits, Copies, IsBase;
  }

  lemma NextDigit(b: Base, grouped: bool, value: int, k: int)
    requires IsBase(b) && 0 < value && 0 <= k
    ensures 1 < b.base && b.group > 0 && 0 <= value % b.base < b.base && 0 <= value / b.base < value
    ensures Digits(b, grouped, value, k)
      == (Comma(b, grouped, k) + [Digit(b, value % b.base)]) + Digits(b, grouped, value / b.base, k + 1)
  {
  }

  /** Zeros for the precision, and for '#' with base 8. */
  method AppendZeros(b: Base, c: Conversion, buf: array<Byte>, cp0: nat, ghost digits: seq<Byte>) returns (cp: nat)
    requires IsBase(b) && buf.Length == BUF && cp0 == |digits| <= 44 && buf[..cp0] == digits
    modifies buf
    ensures cp <= BUF
    ensures var precision := if c.precision < 0 then 1 else c.precision;
      var s := digits + Copies(ZERO, (if precision < BUF - 1 then precision else BUF - 1) - |digits|);
      buf[..cp] == if c.flags.pound && b.base == 8 && (s == [] || s[|s| - 1] != ZERO) then s + [ZERO] else s
  {
    cp := cp0;
    var precision := if c.precision < 0 then 1 else c.precision;
    ghost var least := if precision < BUF - 1 then precision else BUF - 1;
    while cp < precision && cp < BUF - 1
      invariant cp0 <= cp <= BUF - 1 && buf[..cp] == digits + Copies(ZERO, cp - cp0)
      invariant cp == cp0 || cp <= least
    {
      CopiesMore(ZERO, cp - cp0);
      buf[cp] := ZERO;
      cp := cp + 1;
    }
    assert cp0 <= least ==> cp == least;
    if c.flags.pound && b.base == 8 && (cp == 0 || buf[cp - 1] != ZERO) {
      buf[cp] := ZERO;
      cp := cp + 1;
    }
  }

  lemma {:induction false} CopiesMore(c: Byte, n: nat)
    ensures Copies(c, n) + [c] == Copies(c, n + 1)
  {
    if n > 0 { CopiesMore(c, n - 1); }
  }

  lemma {:induction false} ReverseMore(s: seq<Byte>, k: nat)
    requires k < |s|
    ensures Reverse(s[..k + 1]) == [s[k]] + Reverse(s[..k])
    decreases k
  {
    var t := s[..k + 1];
    if k == 0 {
      assert t[1..] == [] && s[..0] == [];
    } else {
      ReverseMore(s[1..], k - 1);
      assert t[1..] == s[1..][..k] && s[..k][1..] == s[1..][..k - 1] && s[..k][0] == s[0];
    }
  }

  /** The last loop of format_integer: the buffer, from its end. */
  method OutputReversed(buf: array<Byte>, cp0: nat, out0: seq<Byte>) returns (out: seq<Byte>)
    requires cp0 <= buf.Length
    ensures out == out0 + Reverse(buf[..cp0])
  {
    var cp := cp0;
    out := out0;
    while cp > 0
      invariant 0 <= cp <= cp0 && out + Reverse(buf[..cp]) == out0 + Reverse(buf[..cp0])
    {
      ReverseMore(buf[..cp0], cp - 1);
      assert buf[..cp0][..cp] == buf[..cp] && buf[..cp0][..cp - 1] == buf[..cp - 1];
      assert out + ([buf[cp - 1]] + Reverse(buf[..cp - 1])) == (out + [buf[cp - 1]]) + Reverse(buf[..cp - 1]);
      cp := cp - 1;
      out := out + [buf[cp]];
    }
    assert buf[..0] == [] && out + [] == out;
  }

  /** The sign character, if any. */
  method SignOf(isSigned: bool, negative: bool, f: Flags) returns (sign: seq<Byte>)
    ensures sign == Sign(isSigned, negative, f)
  {
    sign := [];
    if isSigned {
      if f.plus { sign := [if negative then 0x2D else 0x2B]; }
      else if f.space { sign := [if negative then 0x2D else SPACE]; }
      else if negative { sign := [0x2D]; }
    }
  }

  method FormatInteger(value: int, isSigned: bool, negative: bool, b: Base, c: Conversion) returns (out: seq<Byte>)
    requires IsBase(b) && 0 <= value < 0x1_0000_0000_0000_0000
    ensures out == Formatted(value, isSigned, negative, b, c)
  {
    var buf := new Byte[BUF];
    var sign := SignOf(isSigned, negative, c.flags);
    var x := if c.flags.pound && value != 0 then b.x else None;
    var cp := FillBuffer(value, b, c, buf);
    var prefix: seq<Byte> := if x.Some? then [ZERO, x.value] else [];
    assert prefix == Prefix(value, b, c.flags) && |buf[..cp]| == cp;
    hide *;
    var padCnt := c.width - cp - |prefix| - |sign|;
    if padCnt < 0 { padCnt := 0; }
    FormattedParts(value, isSigned, negative, b, c, padCnt);
    out := OutputParts(sign, prefix, padCnt, c.flags, buf, cp);
  }

  lemma FormattedParts(value: int, isSigned: bool, negative: bool, b: Base, c: Conversion, padCnt: int)
    requires IsBase(b) && 0 <= value
    requires var n := c.width - |Buffer(value, b, c)| - |Prefix(value, b, c.flags)| - |Sign(isSigned, negative,
                                                                                            c.flags)|;
      padCnt == if n < 0 then 0 else n
    ensures Formatted(value, isSigned, negative, b, c)
      == Copies(SPACE, if !c.flags.minus && !c.flags.zero then padCnt else 0)
        + Sign(isSigned, negative, c.flags) + Prefix(value, b, c.flags)
        + (Copies(ZERO, if c.flags.zero then padCnt else 0) + Reverse(Buffer(value, b, c)))
        + Copies(SPACE, if c.flags.minus then padCnt else 0)
  {
    hide Buffer, Reverse, Copies, Sign, Prefix, IsBase;
  }

  /** The output of the parts of the number. */
  method OutputParts(sign: seq<Byte>, prefix: seq<Byte>, padCnt: int, f: Flags, buf: array<Byte>, cp: nat)
    returns (out: seq<Byte>)
    requires cp <= buf.Length
    ensures out == Copies(SPACE, if !f.minus && !f.zero then padCnt else 0) + sign + prefix
      + (Copies(ZERO, if f.zero then padCnt else 0) + Reverse(buf[..cp])) + Copies(SPACE, if f.minus then padCnt else 0)
  {
    hide Copies, Reverse;
    NoCopies(SPACE);
    NoCopies(ZERO);
    out := [];
    if !f.minus && !f.zero { out := OutputDup(SPACE, padCnt, out); }
    assert out == Copies(SPACE, if !f.minus && !f.zero then padCnt else 0);
    out := out + sign;
    out := out + prefix;
    ghost var before := out;
    if f.zero { out := OutputDup(ZERO, padCnt, out); }
    assert out == before + Copies(ZERO, if f.zero then padCnt else 0);
    out := OutputReversed(buf, cp, out);
    Associative(before, Copies(ZERO, if f.zero then padCnt else 0), Reverse(buf[..cp]));
    ghost var number := out;
    if f.minus { out := OutputDup(SPACE, padCnt, out); }
    assert out == number + Copies(SPACE, if f.minus then padCnt else 0);
  }

  lemma Associative(a: seq<Byte>, b: seq<Byte>, c: seq<Byte>)
    ensures (a + b) + c == a + (b + c)
  {
  }

  lemma NoCopies(c: Byte)
    ensures Copies(c, 0) == []
  {
  }

  // ---- vsnprintf ----

  /** struct vsnprintf_aux, with the buffer that p points into. */
  class SnprintfAux {
    const buffer: array<Byte>
    var p: nat
    var length: int
    const maxLength: int

    /** The state after the characters `text` were written. */
    ghost predicate Wrote(text: seq<Byte>)
      reads this, buffer
    {
      && length == |text| && 0 <= maxLength && (maxLength > 0 ==> maxLength < buffer.Length)
      && p == (if |text| < maxLength then |text| else maxLength) && p <= buffer.Length && buffer[..p] == text[..p]
    }

    constructor (buffer: array<Byte>, bufSize: nat)
      requires bufSize <= buffer.Length
      ensures this.buffer == buffer && maxLength == (if bufSize > 0 then bufSize - 1 else 0) && Wrote([])
    {
      this.buffer := buffer;
      p := 0;
      length := 0;
      maxLength := if bufSize > 0 then bufSize - 1 else 0;
    }

    /** vsnprintf_helper. */
    method Put(ch: Byte, ghost text: seq<Byte>)
      requires Wrote(text)
      modifies this, buffer
      ensures Wrote(text + [ch]) && forall i | maxLength <= i < buffer.Length :: buffer[i] == old(buffer[i])
    {
      if length < maxLength {
        buffer[p] := ch;
        p := p + 1;
      }
      length := length + 1;
      assert (text + [ch])[..p] == if |text| < maxLength then text[..|text|] + [ch] else text[..p];
    }
  }

  /** vsnprintf, for output that __vprintf makes: the longest prefix that fits is stored, and a NUL after it,
      nothing beyond the buffer's size is touched, and the untruncated length is returned. */
  method Vsnprintf(buffer: array<Byte>, bufSize: nat, output: seq<Byte>) returns (length: int)
    requires bufSize <= buffer.Length
    modifies buffer
    ensures length == |output|
    ensures bufSize > 0 ==> var n := if |output| < bufSize - 1 then |output| else bufSize - 1;
      buffer[..n] == output[..n] && buffer[n] == 0
    ensures forall i | bufSize <= i < buffer.Length :: buffer[i] == old(buffer[i])
    ensures bufSize == 0 ==> buffer[..] == old(buffer[..])
  {
    var aux := new SnprintfAux(buffer, bufSize);
    var i := 0;
    while i < |output|
      invariant 0 <= i <= |output| && aux.buffer == buffer && aux.Wrote(output[..i])
      invariant forall k | aux.maxLength <= k < buffer.Length :: buffer[k] == old(buffer[k])
    {
      assert output[..i] + [output[i]] == output[..i + 1];
      aux.Put(output[i], output[..i]);
      i := i + 1;
    }
    assert output[..i] == output;
    if bufSize > 0 {
      buffer[aux.p] := 0;
    }
    length := aux.length;
  }
}
