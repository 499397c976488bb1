/** Printing integers into a buffer (lib/stdio.c). */
module Stdio {
  import opened Options
  import opened Bytes

  datatype Flags = Flags(minus: bool, plus: bool, space: bool, pound: bool, zero: bool, group: bool)

  /** struct printf_conversion, but for the argument's type.  A precision of -1 is none. */
  datatype Conversion = Conversion(flags: Flags, width: int, precision: int)

  /** struct integer_base: the base, the letter that its digits from 10 on begin with, the character after 0 in
      a prefix, and the number of digits in a group. */
  datatype Base = Base(base: int, ten: int, x: Option<Byte>, group: int)

  const BASE_D := Base(10, 0, None, 3)
  const BASE_O := Base(8, 0, None, 3)
  const BASE_X := Base(16, 0x61, Some(0x78), 4)
  const BASE_CAPITAL_X := Base(16, 0x41, Some(0x58), 4)

  const SPACE: Byte := 0x20
  const COMMA: Byte := 0x2C
  const ZERO: Byte := 0x30
  const BUF := 64

  predicate IsBase(b: Base) {
    b == BASE_D || b == BASE_O || b == BASE_X || b == BASE_CAPITAL_X
  }

  function Digit(b: Base, n: int): Byte
    requires IsBase(b) && 0 <= n < b.base
  {
    if n < 10 then ZERO + n else b.ten + (n - 10)
  }

  function DigitValue(b: Base, c: Byte): int
    requires IsBase(b)
  {
    if c < 0x3A then c - ZERO else c as int - b.ten + 10
  }

  lemma DigitReads(b: Base, n: int)
    requires IsBase(b) && 0 <= n < b.base
    ensures DigitValue(b, Digit(b, n)) == n && Digit(b, n) != COMMA && (Digit(b, n) == ZERO <==> n == 0)
  {
  }

  // ---- the digits ----

  function Comma(b: Base, grouped: bool, k: int): seq<Byte>
    requires IsBase(b)
  {
    if grouped && k > 0 && k % b.group == 0 then [COMMA] else []
  }

  /** The digits of the value, the last one first, with a comma before each group but the first when they are
      grouped; k digits have gone before. */
  function Digits(b: Base, grouped: bool, value: int, k: int): (s: seq<Byte>)
    requires IsBase(b) && 0 <= value && 0 <= k
    decreases value
  {
    if value == 0 then []
    else Comma(b, grouped, k) + [Digit(b, value % b.base)] + Digits(b, grouped, value / b.base, k + 1)
  }

  function Copies(c: Byte, n: int): (s: seq<Byte>)
    ensures |s| == if n > 0 then n else 0
    ensures forall i | 0 <= i < |s| :: s[i] == c
  {
    if n <= 0 then [] else [c] + Copies(c, n - 1)
  }

  /** What format_integer has in its buffer: the digits, zeros for the precision as far as the buffer goes, and
      one more where an octal number would not start with a zero. */
  function Buffer(value: int, b: Base, c: Conversion): (s: seq<Byte>)
    requires IsBase(b) && 0 <= value
  {
    var digits := Digits(b, c.flags.group, value, 0);
    var precision := if c.precision < 0 then 1 else c.precision;
    var least := if precision < BUF - 1 then precision else BUF - 1;
    var s := digits + Copies(ZERO, least - |digits|);
    if c.flags.pound && b.base == 8 && (s == [] || s[|s| - 1] != ZERO) then s + [ZERO] else s
  }

  function Sign(isSigned: bool, negative: bool, f: Flags): seq<Byte> {
    if !isSigned then []
    else if f.plus then [if negative then 0x2D else 0x2B]
    else if f.space then [if negative then 0x2D else SPACE]
    else if negative then [0x2D]
    else []
  }

  function Prefix(value: int, b: Base, f: Flags): seq<Byte> {
    if f.pound && value != 0 && b.x.Some? then [ZERO, b.x.value] else []
  }

  function Pad(value: int, isSigned: bool, negative: bool, b: Base, c: Conversion): (n: int)
    requires IsBase(b) && 0 <= value
    ensures n >= 0
  {
    var n := c.width - |Buffer(value, b, c)| - |Prefix(value, b, c.flags)| - |Sign(isSigned, negative, c.flags)|;
    if n < 0 then 0 else n
  }

  function Reverse(s: seq<Byte>): (r: seq<Byte>)
    ensures |r| == |s|
  {
    if s == [] then [] else Reverse(s[1..]) + [s[0]]
  }

  /** The zeros that pad the number, and the number. */
  function Numeral(value: int, isSigned: bool, negative: bool, b: Base, c: Conversion): seq<Byte>
    requires IsBase(b) && 0 <= value
  {
    Copies(ZERO, if c.flags.zero then Pad(value, isSigned, negative, b, c) else 0) + Reverse(Buffer(value, b, c))
  }

  /** What format_integer writes. */
  function Formatted(value: int, isSigned: bool, negative: bool, b: Base, c: Conversion): seq<Byte>
    requires IsBase(b) && 0 <= value
  {
    var pad := Pad(value, isSigned, negative, b, c);
    Copies(SPACE, if !c.flags.minus && !c.flags.zero then pad else 0)
    + Sign(isSigned, negative, c.flags) + Prefix(value, b, c.flags) + Numeral(value, isSigned, negative, b, c)
    + Copies(SPACE, if c.flags.minus then pad else 0)
  }

  // ---- what it means ----

  /** The value of digits with the last one first; commas do not count. */
  function LowFirst(b: Base, s: seq<Byte>): int
    requires IsBase(b)
  {
    if s == [] then 0
    else if s[0] == COMMA then LowFirst(b, s[1..])
    else DigitValue(b, s[0]) + b.base * LowFirst(b, s[1..])
  }

  /** The value of digits as they are written. */
  function ValueOf(b: Base, s: seq<Byte>): int
    requires IsBase(b)
  {
    if s == [] then 0
    else if s[|s| - 1] == COMMA then ValueOf(b, s[..|s| - 1])
    else DigitValue(b, s[|s| - 1]) + b.base * ValueOf(b, s[..|s| - 1])
  }

  lemma {:induction false} ReverseReads(b: Base, s: seq<Byte>)
    requires IsBase(b)
    ensures ValueOf(b, Reverse(s)) == LowFirst(b, s)
  {
    hide DigitValue, IsBase;
    if s != [] {
      ReverseReads(b, s[1..]);
      var r := Reverse(s);
      assert r[..|r| - 1] == Reverse(s[1..]) && r[|r| - 1] == s[0];
    }
  }

  lemma {:induction false} LowFirstAppend(b: Base, s: seq<Byte>, zeros: seq<Byte>)
    requires IsBase(b) && forall i | 0 <= i < |zeros| :: zeros[i] == ZERO
    ensures LowFirst(b, s + zeros) == LowFirst(b, s)
    decreases |s| + |zeros|
  {
    if s == [] {
      assert s + zeros == zeros;
      if zeros != [] {
        LowFirstAppend(b, [], zeros[1..]);
        assert [] + zeros[1..] == zeros[1..];
      }
    } else {
      LowFirstAppend(b, s[1..], zeros);
      assert (s + zeros)[1..] == s[1..] + zeros && (s + zeros)[0] == s[0];
    }
  }

  lemma {:induction false} DigitsRead(b: Base, grouped: bool, value: int, k: int)
    requires IsBase(b) && 0 <= value && 0 <= k
    ensures LowFirst(b, Digits(b, grouped, value, k)) == value
    decreases value
  {
    if value > 0 {
      Divided(b, value);
      hide Digit, DigitValue, IsBase;
      DigitsRead(b, grouped, value / b.base, k + 1);
      DigitReads(b, value % b.base);
      CommaSkipped(b, grouped, k, Digit(b, value % b.base), Digits(b, grouped, value / b.base, k + 1));
    }
  }

  lemma Divided(b: Base, value: int)
    requires IsBase(b) && 0 < value
    ensures 0 < b.base && 0 <= value % b.base < b.base && 0 <= value / b.base < value
    ensures value % b.base + b.base * (value / b.base) == value
  {
  }

  lemma CommaSkipped(b: Base, grouped: bool, k: int, d: Byte, rest: seq<Byte>)
    requires IsBase(b) && d != COMMA
    ensures b.group != 0
    ensures LowFirst(b, Comma(b, grouped, k) + [d] + rest) == DigitValue(b, d) + b.base * LowFirst(b, rest)
  {
    assert b.group != 0;
    hide DigitValue, IsBase;
    assert ([d] + rest)[1..] == rest;
    assert ([COMMA] + ([d] + rest))[1..] == [d] + rest;
    assert [COMMA] + [d] + rest == [COMMA] + ([d] + rest);
    assert [] + [d] + rest == [d] + rest;
  }

  function Power8(n: nat): int { if n == 0 then 1 else 8 * Power8(n - 1) }

  /** A value below 8^n has n digits at most, and a comma for each at most. */
  lemma {:induction false} DigitsFew(b: Base, grouped: bool, value: int, k: int, n: nat)
    requires IsBase(b) && 0 <= value < Power8(n) && 0 <= k
    ensures |Digits(b, grouped, value, k)| <= 2 * n
    decreases n
  {
    if value > 0 { DigitsFew(b, grouped, value / b.base, k + 1, n - 1); }
  }

  lemma Power8Values()
    ensures Power8(22) == 0x4_0000_0000_0000_0000
  {
    assert Power8(4) == 0x1000;
    assert Power8(8) == 0x100_0000;
    assert Power8(12) == 0x10_0000_0000;
    assert Power8(16) == 0x1_0000_0000_0000;
    assert Power8(20) == 0x1000_0000_0000_0000;
  }

  /** The buffer of 64 characters is never overrun, whatever the value, the base and the flags. */
  lemma BufferFits(value: int, b: Base, c: Conversion)
    requires IsBase(b) && 0 <= value < 0x1_0000_0000_0000_0000
    ensures |Digits(b, c.flags.group, value, 0)| <= 44 && |Buffer(value, b, c)| <= BUF
  {
    Power8Values();
    DigitsFew(b, c.flags.group, value, 0, 22);
  }

  /** The number that is written reads back as the value: commas, and the zeros of the precision and of the
      padding, change nothing. */
  lemma NumeralReads(value: int, isSigned: bool, negative: bool, b: Base, c: Conversion)
    requires IsBase(b) && 0 <= value
    ensures ValueOf(b, Numeral(value, isSigned, negative, b, c)) == value
  {
    hide Digits, Digit, Copies, Reverse, ValueOf, LowFirst, Pad, IsBase;
    var s := Buffer(value, b, c);
    BufferReads(value, b, c);
    ReverseReads(b, s);
    ZerosBefore(b, Copies(ZERO, if c.flags.zero then Pad(value, isSigned, negative, b, c) else 0), Reverse(s));
  }

  lemma BufferReads(value: int, b: Base, c: Conversion)
    requires IsBase(b) && 0 <= value
    ensures LowFirst(b, Buffer(value, b, c)) == value
  {
    hide Digits, Digit, Copies, LowFirst, IsBase;
    var digits := Digits(b, c.flags.group, value, 0);
    DigitsRead(b, c.flags.group, value, 0);
    var precision := if c.precision < 0 then 1 else c.precision;
    var least := if precision < BUF - 1 then precision else BUF - 1;
    LowFirstAppend(b, digits, Copies(ZERO, least - |digits|));
    LowFirstAppend(b, digits + Copies(ZERO, least - |digits|), [ZERO]);
  }

  lemma {:induction false} ZerosBefore(b: Base, zeros: seq<Byte>, s: seq<Byte>)
    requires IsBase(b) && forall i | 0 <= i < |zeros| :: zeros[i] == ZERO
    ensures ValueOf(b, zeros + s) == ValueOf(b, s)
    decreases |s|, |zeros|
  {
    var t := zeros + s;
    if s != [] {
      ZerosBefore(b, zeros, s[..|s| - 1]);
      assert t[..|t| - 1] == zeros + s[..|s| - 1] && t[|t| - 1] == s[|s| - 1];
    } else if zeros != [] {
      ZerosBefore(b, zeros[..|zeros| - 1], s);
      assert t[..|t| - 1] == zeros[..|zeros| - 1] + s && t[|t| - 1] == ZERO;
    }
  }

  /** The length of what is written without padding. */
  function Natural(value: int, isSigned: bool, negative: bool, b: Base, c: Conversion): int
    requires IsBase(b) && 0 <= value
  {
    |Sign(isSigned, negative, c.flags)| + |Prefix(value, b, c.flags)| + |Buffer(value, b, c)|
  }

  /** The length is the field width or the natural length, whichever is more, exactly if the flags are not both
      '-' and '0' with something to pad; then the number is padded on both sides. */
  lemma LengthExact(value: int, isSigned: bool, negative: bool, b: Base, c: Conversion)
    requires IsBase(b) && 0 <= value
    ensures var n := Natural(value, isSigned, negative, b, c);
      var written := |Formatted(value, isSigned, negative, b, c)|;
      && (written == (if c.width > n then c.width else n) <==> !(c.flags.minus && c.flags.zero && c.width > n))
      && (c.flags.minus && c.flags.zero && c.width > n ==> written == n + 2 * (c.width - n))
  {
    hide Buffer, Sign, Prefix;
  }

  // ---- the flags ----

  function WithFlag(f: Flags, ch: Byte): Option<Flags> {
    if ch == 0x2D then Some(f.(minus := true))
    else if ch == 0x2B then Some(f.(plus := true))
    else if ch == SPACE then Some(f.(space := true))
    else if ch == 0x23 then Some(f.(pound := true))
    else if ch == ZERO then Some(f.(zero := true))
    else if ch == 0x27 then Some(f.(group := true))
    else None
  }

  const NO_FLAGS := Flags(false, false, false, false, false, false)

  /** The flag characters from place i of the format on, and the place after them. */
  function ReadFlags(format: seq<Byte>, i: nat, f: Flags): (r: (Flags, nat))
    requires i <= |format|
    ensures i <= r.1 <= |format|
    decreases |format| - i
  {
    if i < |format| && WithFlag(f, format[i]).Some? then ReadFlags(format, i + 1, WithFlag(f, format[i]).value)
    else (f, i)
  }

  predicate IsDigit(c: Byte) { ZERO <= c <= 0x39 }

  function ReadNumber(format: seq<Byte>, i: nat, n: int): (r: (int, nat))
    requires i <= |format| && 0 <= n
    ensures i <= r.1 <= |format| && 0 <= r.0
    decreases |format| - i
  {
    if i < |format| && IsDigit(format[i]) then ReadNumber(format, i + 1, n * 10 + (format[i] - ZERO)) else (n, i)
  }

  function Normalised(f: Flags): Flags {
    f.(zero := f.zero && !f.minus, space := f.space && !f.plus)
  }

  /** The flags, the width and the precision that parse_conversion finds, and the place after them; `args` are
      the arguments for stars, taken in order. */
  function ParseConversion(format: seq<Byte>, args: seq<int>): (r: (Conversion, nat))
    ensures r.1 <= |format|
  {
    var (f0, i) := ReadFlags(format, 0, NO_FLAGS);
    var f := Normalised(f0);
    var starred := i < |format| && format[i] == 0x2A;
    var (w, j) := if starred then (if args == [] then 0 else args[0], i + 1) else ReadNumber(format, i, 0);
    var rest := if starred && args != [] then args[1..] else args;
    var f1 := if w < 0 then f.(minus := true) else f;
    var width := if w < 0 then -w else w;
    var dot := j < |format| && format[j] == 0x2E;
    var (p, k) :=
      if !dot then (-1, j)
      else if j + 1 < |format| && format[j + 1] == 0x2A then (if rest == [] then 0 else rest[0], j + 2)
      else ReadNumber(format, j + 1, 0);
    var precision := if p < 0 then -1 else p;
    (Conversion(f1.(zero := f1.zero && precision < 0), width, precision), k)
  }

  /** What holds of every conversion that is parsed; both '-' and '0' are left only by a negative width given
      for a star, which sets '-' after '0' would have been dropped. */
  lemma ParsedFlags(format: seq<Byte>, args: seq<int>)
    ensures var (c, _) := ParseConversion(format, args); var (f, i) := ReadFlags(format, 0, NO_FLAGS);
      && c.width >= 0 && c.precision >= -1
      && !(c.flags.plus && c.flags.space) && (c.precision >= 0 ==> !c.flags.zero)
      && (c.flags.minus && c.flags.zero <==>
            f.zero && !f.minus && c.precision < 0 && i < |format| && format[i] == 0x2A && args != [] && args[0] < 0)
  {
  }

  /** Such a conversion pads on both sides: of "%0*d" with the width -4 the output for 7 has seven characters. */
  lemma PaddedTwice()
    ensures var (c, _) := ParseConversion([ZERO, 0x2A], [-4]);
      c.flags.minus && c.flags.zero && |Formatted(7, true, false, BASE_D, c)| == 7 && c.width == 4
  {
    var (c, _) := ParseConversion([ZERO, 0x2A], [-4]);
    assert ReadFlags([ZERO, 0x2A], 0, NO_FLAGS) == (NO_FLAGS.(zero := true), 1);
    assert Digits(BASE_D, false, 7, 0) == [ZERO + 7];
    LengthExact(7, true, false, BASE_D, c);
  }
}
