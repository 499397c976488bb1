/** Bytes, and 32-bit words as four bytes, least significant first, as the machine stores them. */
module Bytes {

  type Byte = x: int | 0 <= x < 256

  function WordBytes(n: int): (w: seq<Byte>)
    ensures |w| == 4
  {
    [n % 0x100, n / 0x100 % 0x100, n / 0x1_0000 % 0x100, n / 0x100_0000 % 0x100]
  }

  function WordOf(w: seq<Byte>): (n: int)
    requires |w| == 4
    ensures 0 <= n < 0x1_0000_0000
  {
    w[0] as int + 0x100 * (w[1] as int) + 0x1_0000 * (w[2] as int) + 0x100_0000 * (w[3] as int)
  }

  lemma WordReads(n: int)
    requires 0 <= n < 0x1_0000_0000
    ensures WordOf(WordBytes(n)) == n
  {
    assert n == n % 0x100 + 0x100 * (n / 0x100) && n / 0x100 == n / 0x100 % 0x100 + 0x100 * (n / 0x1_0000);
    assert n / 0x1_0000 == n / 0x1_0000 % 0x100 + 0x100 * (n / 0x100_0000);
  }

  /** The C string at the beginning of s. */
  function CString(s: seq<Byte>): (r: seq<Byte>)
    ensures 0 !in r && |r| <= |s| && r == s[..|r|] && (|r| < |s| ==> s[|r|] == 0)
  {
    if s == [] || s[0] == 0 then [] else [s[0]] + CString(s[1..])
  }

  lemma {:induction false} CStringOf(s: seq<Byte>, name: seq<Byte>)
    requires |name| < |s| && s[..|name|] == name && s[|name|] == 0 && 0 !in name
    ensures CString(s) == name
    decreases |name|
  {
    if name != [] {
      assert s[0] == name[0] && s[0] in name;
      assert s[1..][..|name| - 1] == name[1..];
      CStringOf(s[1..], name[1..]);
    }
  }
}
