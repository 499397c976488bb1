/** 64-bit division by a 64-by-32-bit divide instruction (lib/arithmetic.c).  Machine words are numbers in
    range, and every operation that could leave its range is reduced explicitly. */
module Arithmetic {

  const B32 := 0x1_0000_0000
  const B64 := 0x1_0000_0000_0000_0000
  const INT64_MIN := -0x8000_0000_0000_0000

  type Word32 = x: int | 0 <= x < 0x1_0000_0000
  type Word64 = x: int | 0 <= x < 0x1_0000_0000_0000_0000
  type Int64 = x: int | -0x8000_0000_0000_0000 <= x < 0x8000_0000_0000_0000
  type Int32 = x: int | -0x8000_0000 <= x < 0x8000_0000

  function Wrap64(x: int): Word64 { x % B64 }

  function ToInt64(x: int): Int64 {
    var w := x % B64;
    if w < 0x8000_0000_0000_0000 then w else w - B64
  }

  function ToInt32(x: int): Int32 {
    var w := x % B32;
    if w < 0x8000_0000 then w else w - B32
  }

  function Pow2(k: nat): (p: int)
    ensures p >= 1
  {
    if k == 0 then 1 else 2 * Pow2(k - 1)
  }

  lemma {:induction false} Pow2Adds(j: nat, k: nat)
    ensures Pow2(j + k) == Pow2(j) * Pow2(k)
  {
    if j > 0 { Pow2Adds(j - 1, k); }
  }

  lemma Pow2Values()
    ensures Pow2(1) == 2 && Pow2(2) == 4 && Pow2(4) == 16 && Pow2(8) == 256 && Pow2(16) == 0x1_0000 && Pow2(32) == B32
  {
    assert Pow2(1) == 2 && Pow2(2) == 4;
    hide Pow2;
    Pow2Adds(2, 2);
    Pow2Adds(4, 4);
    Pow2Adds(8, 8);
    Pow2Adds(16, 16);
  }

  // ---- nlz ----

  /** The number of shifts that bring a nonzero word's first bit to the top. */
  function LeadingZeros(x: int): (s: nat)
    requires 0 < x < B32
    decreases B32 - x
  {
    if x >= 0x8000_0000 then 0 else 1 + LeadingZeros(2 * x)
  }

  lemma {:induction false} LeadingZerosShift(x: int, k: nat)
    requires 0 < x && x * Pow2(k) < B32
    ensures LeadingZeros(x) == k + LeadingZeros(x * Pow2(k))
    decreases k
  {
    if k > 0 {
      assert x * Pow2(k) == (2 * x) * Pow2(k - 1);
      assert 2 * x * 1 <= (2 * x) * Pow2(k - 1);
      LeadingZerosShift(2 * x, k - 1);
    }
  }

  lemma {:induction false} LeadingZerosTop(x: int)
    requires 0 < x < B32
    ensures LeadingZeros(x) <= 31 && 0x8000_0000 <= x * Pow2(LeadingZeros(x)) < B32
    decreases B32 - x
  {
    if x < 0x8000_0000 {
      LeadingZerosTop(2 * x);
      var s := LeadingZeros(2 * x);
      assert x * Pow2(s + 1) == (2 * x) * Pow2(s);
      if s == 31 { TooMany(x); }
    }
  }

  lemma TooMany(x: int)
    requires 1 <= x
    ensures (2 * x) * Pow2(31) >= B32
  {
    Pow2Values();
    assert Pow2(32) == 2 * Pow2(31);
    assert x * Pow2(32) >= 1 * Pow2(32);
  }

  /** A shift by k bits, all of them zero. */
  lemma ShiftedBy(x: int, k: nat, p: int)
    requires 0 < x && x * p < B32 && p == Pow2(k)
    ensures LeadingZeros(x) == k + LeadingZeros(x * p) && x * p % B32 == x * p
  {
    LeadingZerosShift(x, k);
  }

  lemma LastBit(x: int)
    requires 0x4000_0000 <= x < B32
    ensures LeadingZeros(x) == if x <= 0x7FFF_FFFF then 1 else 0
  {
  }

  method Nlz(x0: Word32) returns (n: int)
    requires x0 != 0
    ensures n == LeadingZeros(x0) && 0 <= n <= 31
  {
    hide Pow2, LeadingZeros;
    Pow2Values();
    LeadingZerosTop(x0);
    var x := x0;
    n := 0;
    if x <= 0x0000_FFFF {
      ShiftedBy(x, 16, 0x1_0000);
      n := n + 16;
      x := x * 0x1_0000 % B32;
    }
    if x <= 0x00FF_FFFF {
      ShiftedBy(x, 8, 0x100);
      n := n + 8;
      x := x * 0x100 % B32;
    }
    if x <= 0x0FFF_FFFF {
      ShiftedBy(x, 4, 0x10);
      n := n + 4;
      x := x * 0x10 % B32;
    }
    if x <= 0x3FFF_FFFF {
      ShiftedBy(x, 2, 4);
      n := n + 2;
      x := x * 4 % B32;
    }
    LastBit(x);
    if x <= 0x7FFF_FFFF {
      n := n + 1;
    }
  }

  // ---- division of words ----

  /** The divide instruction, which traps if the quotient does not fit in 32 bits. */
  method Divl(n: Word64, d: Word32) returns (q: Word32)
    requires d != 0 && n / d < B32
    ensures q == n / d
  {
    q := n / d;
  }

  lemma MulLe(a: int, b: int, c: int)
    requires a <= b && 0 <= c
    ensures a * c <= b * c
  {
  }

  lemma DivMod(n: int, d: int)
    requires d > 0
    ensures n == d * (n / d) + n % d && 0 <= n % d < d
  {
  }

  lemma FloorOf(n: int, d: int, q: int)
    requires d > 0 && q * d <= n < (q + 1) * d
    ensures n / d == q
  {
    DivMod(n, d);
    if n / d < q { MulLe(n / d + 1, q, d); }
    if n / d > q { MulLe(q + 1, n / d, d); }
  }

  lemma DivBelow(n: int, d: int, b: int)
    requires d > 0 && 0 <= n < b * d
    ensures 0 <= n / d < b
  {
    DivMod(n, d);
    var q := n / d;
    if q >= b { MulLe(b, q, d); }
    if q < 0 { MulLe(q, -1, d); }
  }

  /** Division by a word, in two digits: the quotients of the digits put together. */
  lemma TwoDigits(n1: int, n0: int, d: int)
    requires 0 <= n1 < B32 && 0 <= n0 < B32 && 0 < d < B32
    ensures (B32 * (n1 % d) + n0) / d < B32 && 0 <= B32 * (n1 % d) + n0 < B64
    ensures (B32 * n1 + n0) / d == (B32 * (n1 % d) + n0) / d + B32 * (n1 / d)
  {
    var r, t := n1 % d, n1 / d;
    DivMod(n1, d);
    var m := B32 * r + n0;
    DivMod(m, d);
    var q := m / d;
    assert B32 * n1 == B32 * (d * t) + B32 * r;
    assert (q + B32 * t) * d == q * d + B32 * (d * t);
    FloorOf(B32 * n1 + n0, d, q + B32 * t);
    assert B32 * (r + 1) <= B32 * d;
    DivBelow(m, d, B32);
  }

  lemma DivDiv(n: int, b: int, c: int)
    requires 0 <= n && 0 < b && 0 < c
    ensures (n / b) / c == n / (b * c)
  {
    var x, y := n / b, (n / b) / c;
    DivMod(n, b);
    DivMod(x, c);
    assert b * x == b * (c * y) + b * (x % c);
    assert y * (b * c) == b * (c * y);
    MulLe(x % c + 1, c, b);
    assert (y + 1) * (b * c) == b * (c * y) + b * c;
    FloorOf(n, b * c, y);
  }

  // ---- the estimate for a divisor of more than 32 bits ----

  /** The divisor's leading 32 bits stand for it with an error below e. */
  lemma Leading(d: Word64, s: nat)
    requires d >= B32 && 0 < d / B32 < B32 && s == LeadingZeros(d / B32)
    ensures s <= 31
    ensures var e := Pow2(32 - s); var v := d * Pow2(s) / B32;
      && d * Pow2(s) < B64 && 0x8000_0000 <= v < B32 && v * e <= d < v * e + e && e == 2 * Pow2(31 - s) && 2 <= e
  {
    hide *;
    LeadingZerosTop(d / B32);
    ShiftFactors(s);
    ShiftFits(d, d / B32, Pow2(s), Pow2(32 - s));
    ShiftDivides(d, Pow2(s), Pow2(32 - s));
    ShiftTop(d, d / B32, Pow2(s));
  }

  lemma ShiftFactors(s: nat)
    requires s <= 31
    ensures Pow2(s) * Pow2(32 - s) == B32 && Pow2(32 - s) == 2 * Pow2(31 - s) && Pow2(31 - s) >= 1
  {
    assert Pow2(32 - s) == 2 * Pow2(31 - s);
    hide Pow2;
    Pow2Values();
    Pow2Adds(s, 32 - s);
  }

  lemma ShiftFits(d: Word64, d1: int, p: int, e: int)
    requires d1 == d / B32 && 0 < p && 0 < e && p * e == B32 && d1 * p < B32
    ensures d * p < B64
  {
    DivMod(d, B32);
    TopFits(d1, p, e);
    MulLe(d + 1, (d1 + 1) * B32, p);
    assert (d1 + 1) * B32 * p == (d1 + 1) * p * B32;
    MulLe((d1 + 1) * p, B32, B32);
  }

  lemma ShiftDivides(d: Word64, p: int, e: int)
    requires 0 < p && 0 < e && p * e == B32
    ensures var v := d * p / B32; v * e <= d < v * e + e
  {
    DivMod(d, e);
    var w := d / e;
    assert d * p == w * (e * p) + (d % e) * p;
    MulLe(d % e + 1, e, p);
    FloorOf(d * p, B32, w);
  }

  lemma ShiftTop(d: Word64, d1: int, p: int)
    requires d1 == d / B32 && 0 < p && 0x8000_0000 <= d1 * p && 0 <= d * p < B64
    ensures 0x8000_0000 <= d * p / B32 < B32
  {
    DivMod(d, B32);
    MulLe(d1 * B32, d, p);
    assert d1 * B32 * p == d1 * p * B32;
    DivBelow(d * p, B32, B32);
    AtLeast(d * p, 0x8000_0000, d * p / B32);
  }

  lemma AtLeast(n: int, b: int, v: int)
    requires b * B32 <= n && v == n / B32
    ensures b <= v
  {
  }

  /** One more than the leading part still fits: it is below a multiple of the shift that is no more than 2^32. */
  lemma TopFits(d1: int, p: int, e: int)
    requires 0 < p && 0 < e && p * e == B32 && d1 * p < B32
    ensures (d1 + 1) * p <= B32
  {
    if d1 >= e { MulLe(e, d1, p); }
    MulLe(d1 + 1, e, p);
  }

  /** The quotient by the leading part is the true quotient or one more, and one less than it times the divisor
      is never above the dividend. */
  lemma Estimate(n: Word64, d: Word64, v: int, e: int)
    requires 0 < d <= n && 0x8000_0000 <= v && 2 <= e && v * e <= d < v * e + e
    ensures var q := n / (v * e); 1 <= q && (q - 1) * d <= n < (q + 1) * d && (q == n / d || q == n / d + 1)
  {
    var w := v * e;
    MulLe(0x8000_0000, v, e);
    var q := n / w;
    DivMod(n, w);
    QuotientPositive(n, w);
    assert q * w <= n < (q + 1) * w;
    SmallError(n, v, e, q);
    NotTooFar(n, d, w, e, q);
    MulLe(w, d, q + 1);
    QuotientNear(n, d, q);
  }

  lemma NotTooFar(n: int, d: int, w: int, e: int, q: int)
    requires q * w <= n && w <= d < w + e && 1 <= q && (q - 1) * (e - 1) <= w
    ensures (q - 1) * d <= n
  {
    MulLe(d - w, e - 1, q - 1);
    assert (q - 1) * d == (q - 1) * w + (q - 1) * (d - w);
  }

  lemma QuotientNear(n: int, d: int, q: int)
    requires 0 < d && (q - 1) * d <= n < (q + 1) * d
    ensures q == n / d || q == n / d + 1
    ensures q == n / d + 1 <==> n - (q - 1) * d < d
  {
    DivMod(n, d);
    var t := n / d;
    if t < q - 1 { MulLe(t + 1, q - 1, d); }
    if t > q { MulLe(q + 1, t, d); }
    if t == q { MulLe(q, t, d); }
  }

  lemma QuotientPositive(n: int, w: int)
    requires 0 < w <= n
    ensures 1 <= n / w
  {
    DivMod(n, w);
    if n / w <= 0 { MulLe(n / w, 0, w); }
  }

  lemma SmallError(n: Word64, v: int, e: int, q: int)
    requires 0x8000_0000 <= v && 2 <= e && 1 <= q && q * (v * e) <= n
    ensures (q - 1) * (e - 1) <= v * e
  {
    var w := v * e;
    MulLe(0x8000_0000, v, e);
    MulLe(0x8000_0000 * e, w, w);
    MulLe(0x8000_0000 * e, w, 0x8000_0000 * e);
    assert w * w >= (0x8000_0000 * e) * (0x8000_0000 * e);
    assert (0x8000_0000 * e) * (0x8000_0000 * e) == 0x4000_0000_0000_0000 * (e * e);
    assert e * e == 4 * (e - 1) + (e - 2) * (e - 2);
    assert (e - 2) * (e - 2) >= 0;
    assert w * w >= B64 * (e - 1);
    TooBig(n, w, e, q);
  }

  lemma TooBig(n: Word64, w: int, e: int, q: int)
    requires 0 < w && 2 <= e && 1 <= q && q * w <= n && w * w >= B64 * (e - 1)
    ensures (q - 1) * (e - 1) <= w
  {
    if (q - 1) * (e - 1) > w {
      MulLe(w + 1, (q - 1) * (e - 1), w);
      MulLe((q - 1) * w, n, e - 1);
      assert ((q - 1) * (e - 1)) * w == ((q - 1) * w) * (e - 1);
      MulLe(n, B64, e - 1);
    }
  }

  // ---- 64-bit division ----

  /** udiv64: the quotient rounded down, for every dividend and every nonzero divisor.  Both uses of the divide
      instruction meet its condition, so it never traps. */
  method Udiv64(n: Word64, d: Word64) returns (q: Word64)
    requires d != 0
    ensures q == n / d
  {
    if d / B32 == 0 {
      q := DivideSmall(n, d);
    } else if n < d {
      Less(n, d);
      q := 0;
    } else {
      q := DivideLarge(n, d);
    }
  }

  /** The branch for a divisor of 32 bits. */
  method DivideSmall(n: Word64, d: Word64) returns (q: Word64)
    requires 0 < d < B32
    ensures q == n / d
  {
    hide Wrap64;
    LowWord(n, d);
    var n1, n0, d0 := n / B32, n % B32, d % B32;
    TwoDigits(n1, n0, d0);
    InRange64(B32 * (n1 % d0) + n0);
    var low := Divl(Wrap64(B32 * (n1 % d0) + n0), d0);
    Below64(n, d);
    InRange64(low + B32 * (n1 / d0));
    q := Wrap64(low + B32 * (n1 / d0));
  }

  lemma LowWord(n: Word64, d: Word64)
    requires 0 < d < B32
    ensures d % B32 == d && n == B32 * (n / B32) + n % B32 && 0 <= n / B32 < B32 && 0 <= n % B32 < B32
  {
  }

  lemma Less(n: int, d: int)
    requires 0 <= n < d
    ensures n / d == 0
  {
  }

  lemma Below64(n: Word64, d: Word64)
    requires d != 0
    ensures 0 <= n / d <= n
  {
    MulLe(1, d, n);
    DivBelow(n, d, n + 1) by { MulLe(1, d, n + 1); }
  }

  /** The branch for a divisor of more than 32 bits. */
  method DivideLarge(n: Word64, d: Word64) returns (r: Word64)
    requires B32 <= d <= n
    ensures r == n / d
  {
    hide Pow2, LeadingZeros, Wrap64;
    HighWord(d);
    var d1 := d / B32;
    var s := Nlz(d1);
    Leading(d, s);
    InRange64(d * Pow2(s));
    var divisor := Wrap64(d * Pow2(s)) / B32;
    HalfFits(n, divisor);
    var q1 := Divl(n / 2, divisor);
    var q := q1 / Pow2(31 - s);
    ghost var e := Pow2(32 - s);
    NestedQuotient(n, divisor, Pow2(31 - s));
    Estimate(n, d, divisor, e);
    Reduced(n, d, q);
    QuotientNear(n, d, q);
    r := if Wrap64(n - Wrap64(Wrap64(q - 1) * d)) < d then q - 1 else q;
  }

  lemma InRange64(x: int)
    requires 0 <= x < B64
    ensures Wrap64(x) == x
  {
  }

  lemma HighWord(d: Word64)
    requires B32 <= d
    ensures 0 < d / B32 < B32
  {
  }

  lemma HalfFits(n: Word64, v: int)
    requires 0x8000_0000 <= v
    ensures 0 <= n / 2 / v < B32
  {
    MulLe(0x8000_0000, v, B32);
    DivBelow(n / 2, v, B32);
  }

  lemma NestedQuotient(n: int, v: int, k: int)
    requires 0 <= n && 0 < v && 0 < k
    ensures n / 2 / v / k == n / (v * (2 * k))
  {
    DivDiv(n, 2, v);
    DivDiv(n, 2 * v, k);
    assert 2 * v * k == v * (2 * k);
  }

  /** None of the subtractions and products in the correction wraps around. */
  lemma Reduced(n: Word64, d: Word64, q: int)
    requires 1 <= q && (q - 1) * d <= n && 0 < d
    ensures Wrap64(q - 1) == q - 1 && Wrap64((q - 1) * d) == (q - 1) * d && Wrap64(n - (q - 1) * d) == n - (q - 1) * d
  {
    MulLe(1, d, q - 1);
    MulLe(0, q - 1, d);
  }

  /** umod64, whose result has 32 bits: it is the remainder exactly if the remainder fits. */
  method Umod64(n: Word64, d: Word64) returns (r: Word32)
    requires d != 0
    ensures r == n % d <==> n % d < B32
    ensures r == n % d % B32
  {
    var q := Udiv64(n, d);
    DivMod(n, d);
    RemainderWraps(n, d, q);
    r := Wrap64(n - Wrap64(d * q)) % B32;
  }

  lemma RemainderWraps(n: Word64, d: Word64, q: int)
    requires d != 0 && q == n / d
    ensures Wrap64(n - Wrap64(d * q)) == n % d
  {
    DivMod(n, d);
    Below64(n, d);
    MulLe(0, q, d);
  }

  // ---- signed division ----

  function Abs(x: int): int { if x < 0 then -x else x }

  /** The quotient rounded toward zero (ISO C99 section 6.5.5). */
  function Truncated(n: int, d: int): int
    requires d != 0
  {
    if (n < 0) == (d < 0) then Abs(n) / Abs(d) else -(Abs(n) / Abs(d))
  }

  /** What division by truncation means: the remainder has the dividend's sign and is smaller than the divisor. */
  lemma TruncatedMeans(n: int, d: int)
    requires d != 0
    ensures var r := n - d * Truncated(n, d); Abs(r) < Abs(d) && (r == 0 || (r < 0 <==> n < 0))
  {
    var q := Abs(n) / Abs(d);
    DivMod(Abs(n), Abs(d));
    SignedProducts(n, d, q);
  }

  lemma SignedProducts(n: int, d: int, q: int)
    ensures Abs(d) * q == if d < 0 then -(d * q) else d * q
    ensures d * -q == -(d * q)
  {
  }

  /** sdiv64: truncated division, except that the one quotient that has no 64-bit representation wraps. */
  method Sdiv64(n: Int64, d: Int64) returns (q: Int64)
    requires d != 0
    ensures q == Truncated(n, d) <==> !(n == INT64_MIN && d == -1)
    ensures n == INT64_MIN && d == -1 ==> q == INT64_MIN
  {
    hide Truncated, ToInt64, Wrap64;
    var nAbs: Word64 := if n >= 0 then n else Wrap64(-(n % B64));
    var dAbs: Word64 := if d >= 0 then d else Wrap64(-(d % B64));
    NegatedIsAbs(n);
    NegatedIsAbs(d);
    var qAbs := Udiv64(nAbs, dAbs);
    SignedResult(n, d, qAbs);
    q := if (n < 0) == (d < 0) then ToInt64(qAbs) else ToInt64(-(ToInt64(qAbs) as int));
  }

  /** The sign that the quotient of the magnitudes gets. */
  lemma SignedResult(n: Int64, d: Int64, qAbs: Word64)
    requires d != 0 && qAbs == Abs(n) / Abs(d)
    ensures var q := if (n < 0) == (d < 0) then ToInt64(qAbs) else ToInt64(-(ToInt64(qAbs) as int));
      && (q == Truncated(n, d) <==> !(n == INT64_MIN && d == -1)) && (n == INT64_MIN && d == -1 ==> q == INT64_MIN)
  {
    QuotientBound(Abs(n), Abs(d), qAbs);
    SignBits(qAbs);
  }

  lemma SignBits(x: Word64)
    requires x <= 0x8000_0000_0000_0000
    ensures ToInt64(x) == if x < 0x8000_0000_0000_0000 then x as int else INT64_MIN
    ensures ToInt64(-(ToInt64(x) as int)) == -(x as int)
  {
  }

  lemma NegatedIsAbs(x: int)
    requires INT64_MIN <= x < -INT64_MIN
    ensures x < 0 ==> Wrap64(-(x % B64)) == -x
  {
    if x < 0 { assert x % B64 == x + B64; }
  }

  lemma QuotientBound(n: Word64, d: Word64, q: int)
    requires d != 0 && q == n / d && n <= 0x8000_0000_0000_0000
    ensures 0 <= q <= 0x8000_0000_0000_0000 && (q == 0x8000_0000_0000_0000 <==> n == 0x8000_0000_0000_0000 && d == 1)
  {
    Below64(n, d);
    DivMod(n, d);
    if d >= 2 && q == 0x8000_0000_0000_0000 { MulLe(2, d, q); }
  }

  /** smod64, whose result has 32 bits: it is the remainder of truncated division exactly if that fits; for
      INT64_MIN and -1 it is 0, which is right. */
  method Smod64(n: Int64, d: Int64) returns (r: Int32)
    requires d != 0
    ensures r == n - d * Truncated(n, d) <==> -0x8000_0000 <= n - d * Truncated(n, d) < 0x8000_0000
  {
    var q := Sdiv64(n, d);
    SmodWraps(n, d, q);
    hide Truncated, ToInt64, ToInt32;
    var rest := ToInt64(n - ToInt64(d * q));
    FitsInt32(rest);
    r := ToInt32(rest);
  }

  lemma FitsInt32(x: int)
    ensures ToInt32(x) == x <==> -0x8000_0000 <= x < 0x8000_0000
  {
  }

  lemma SmodWraps(n: Int64, d: Int64, q: Int64)
    requires d != 0 && (if n == INT64_MIN && d == -1 then q == INT64_MIN else q == Truncated(n, d))
    ensures ToInt64(n - ToInt64(d * q)) == n - d * Truncated(n, d)
  {
    if n == INT64_MIN && d == -1 {
      MinByMinusOne();
    } else {
      TruncatedMeans(n, d);
      hide Truncated, ToInt64;
      Congruent(n, d * q);
      InRangeSigned(n - d * q, n, d);
    }
  }

  lemma MinByMinusOne()
    ensures ToInt64(INT64_MIN - ToInt64(-1 * INT64_MIN)) == INT64_MIN - -1 * Truncated(INT64_MIN, -1)
  {
  }

  lemma InRangeSigned(r: int, n: Int64, d: Int64)
    requires Abs(r) < Abs(d)
    ensures ToInt64(r) == r
  {
  }

  lemma Congruent(n: int, x: int)
    ensures ToInt64(n - ToInt64(x)) == ToInt64(n - x)
  {
    var w := x % B64;
    DivMod(x, B64);
    SameResidue(n - w, -(x / B64));
    if w >= 0x8000_0000_0000_0000 { SameResidue(n - w, 1); }
  }

  lemma SameResidue(a: int, k: int)
    ensures (a + k * B64) % B64 == a % B64
  {
  }
}
