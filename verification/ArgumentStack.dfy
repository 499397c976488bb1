/** The first stack page of a process (setup_stack in userprog/process.c of project 2). */
module ArgumentStack {
  import opened Options
  import opened Bytes
  import opened Disk
  import opened Tokens

  const PAGE := 4096
  const TOP := 0xC000_0000      // PHYS_BASE
  const BASE := 0xBFFF_F000     // the stack page's first address
  const MAX_ARGC := 1024

  /** The delimiter that setup_stack gives to strtok_r. */
  const BLANK: Delimiters := {0x20}

  type Strings = seq<seq<Byte>>

  /** The bytes that the first k strings take, each with its NUL. */
  function Length(ws: Strings, k: nat): (n: nat)
    requires k <= |ws|
    ensures n >= k
  {
    if k == 0 then 0 else Length(ws, k - 1) + |ws[k - 1]| + 1
  }

  /** The address of string k: the strings are pushed in order. */
  function AddressOf(ws: Strings, k: nat): int
    requires k < |ws|
  {
    TOP - Length(ws, k + 1)
  }

  function Aligned(a: int): int { a - a % 4 }

  /** The stack pointer that setup_stack leaves. */
  function FinalEsp(ws: Strings): int {
    Aligned(TOP - Length(ws, |ws|)) - 20 - 4 * |ws|
  }

  /** The image fits in the page. */
  predicate Fits(ws: Strings) {
    FinalEsp(ws) >= BASE
  }

  // ---- reading the page ----

  function WordAt(page: seq<Byte>, a: int): int
    requires |page| == PAGE && BASE <= a && a + 4 <= TOP
  {
    WordOf(page[a - BASE..a - BASE + 4])
  }

  predicate ZeroWord(page: seq<Byte>, a: int)
    requires |page| == PAGE
  {
    BASE <= a && a + 4 <= TOP && forall i | a - BASE <= i < a - BASE + 4 :: page[i] == 0
  }

  lemma ZeroWordIs(page: seq<Byte>, a: int)
    requires |page| == PAGE && ZeroWord(page, a)
    ensures WordAt(page, a) == 0
  {
  }

  /** The page as the program finds it: a word-aligned stack pointer, the return address, argc and argv at it,
      argv's pointers each to a copy of a word, and a null pointer after the last. */
  ghost predicate StackFor(page: seq<Byte>, esp: int, ws: Strings) {
    && |page| == PAGE && BASE <= esp && esp % 4 == 0 && esp + 20 + 4 * |ws| <= TOP
    && WordAt(page, esp) == 0 && WordAt(page, esp + 4) == |ws| && WordAt(page, esp + 8) == esp + 16
    && WordAt(page, esp + 16 + 4 * |ws|) == 0
    && (forall i | 0 <= i < |ws| :: ArgumentAt(page, esp + 16 + 4 * i, ws[i]))
  }

  /** At address a is a pointer to a copy of string w. */
  predicate ArgumentAt(page: seq<Byte>, a: int, w: seq<Byte>) {
    |page| == PAGE && BASE <= a && a + 4 <= TOP && StringAt(page, WordAt(page, a) - BASE, w)
  }

  // ---- writing it ----

  /** memcpy and memset of bytes bs at address a. */
  function Written(page: seq<Byte>, a: int, bs: seq<Byte>): (r: seq<Byte>)
    requires |page| == PAGE && BASE <= a && a + |bs| <= TOP
    ensures |r| == PAGE
    ensures forall i | 0 <= i < PAGE :: r[i] == if a - BASE <= i < a - BASE + |bs| then bs[i - (a - BASE)] else page[i]
  {
    page[..a - BASE] + bs + page[a - BASE + |bs|..]
  }

  lemma WordWritten(page: seq<Byte>, a: int, n: int)
    requires |page| == PAGE && BASE <= a && a + 4 <= TOP && 0 <= n < 0x1_0000_0000
    ensures WordAt(Written(page, a, WordBytes(n)), a) == n
  {
    var r := Written(page, a, WordBytes(n));
    assert r[a - BASE..a - BASE + 4] == WordBytes(n);
    WordReads(n);
  }

  /** A word elsewhere is not changed. */
  lemma WordKept(page: seq<Byte>, a: int, bs: seq<Byte>, b: int)
    requires |page| == PAGE && BASE <= a && a + |bs| <= TOP && BASE <= b && b + 4 <= TOP
    requires (b + 4 <= a || a + |bs| <= b)
    ensures WordAt(Written(page, a, bs), b) == WordAt(page, b)
  {
    assert Written(page, a, bs)[b - BASE..b - BASE + 4] == page[b - BASE..b - BASE + 4];
  }

  lemma StringKept(page: seq<Byte>, a: int, bs: seq<Byte>, p: int, w: seq<Byte>)
    requires |page| == PAGE && BASE <= a && a + |bs| <= TOP && StringAt(page, p, w) && a + |bs| <= BASE + p
    ensures StringAt(Written(page, a, bs), p, w)
  {
  }

  // ---- the strings ----

  /** The first k strings are in place, and everything below them is zero. */
  ghost predicate StringsAt(page: seq<Byte>, ws: Strings, k: nat) {
    && |page| == PAGE && k <= |ws| && Length(ws, k) <= PAGE
    && (forall i | 0 <= i < k :: StringAt(page, AddressOf(ws, i) - BASE, ws[i]))
    && (forall i | 0 <= i < PAGE - Length(ws, k) :: page[i] == 0)
  }

  lemma {:induction false} LengthGrows(ws: Strings, j: nat, k: nat)
    requires j <= k <= |ws|
    ensures Length(ws, j) + (k - j) <= Length(ws, k)
    decreases k - j
  {
    if j < k { LengthGrows(ws, j, k - 1); }
  }

  lemma PushString(page: seq<Byte>, ws: Strings, k: nat)
    requires StringsAt(page, ws, k) && k < |ws| && Length(ws, k + 1) <= PAGE && 0 !in ws[k]
    ensures StringsAt(Written(page, AddressOf(ws, k), ws[k] + [0]), ws, k + 1)
  {
    hide StringAt, Written;
    var a, bs := AddressOf(ws, k), ws[k] + [0];
    var page' := Written(page, a, bs);
    StringWritten(page, a, ws[k]);
    forall i | 0 <= i < k + 1 ensures StringAt(page', AddressOf(ws, i) - BASE, ws[i]) {
      if i < k { OlderString(page, ws, k, i, a, bs); }
    }
    forall i | 0 <= i < PAGE - Length(ws, k + 1) ensures page'[i] == 0 { assert page[i] == 0; }
  }

  lemma OlderString(page: seq<Byte>, ws: Strings, k: nat, i: nat, a: int, bs: seq<Byte>)
    requires i < k < |ws| && |page| == PAGE && BASE <= a && a + |bs| <= TOP - Length(ws, k)
    requires StringAt(page, AddressOf(ws, i) - BASE, ws[i])
    ensures StringAt(Written(page, a, bs), AddressOf(ws, i) - BASE, ws[i])
  {
    LengthGrows(ws, i + 1, k);
    hide StringAt, Written, Length;
    StringKept(page, a, bs, AddressOf(ws, i) - BASE, ws[i]);
  }

  lemma StringWritten(page: seq<Byte>, a: int, w: seq<Byte>)
    requires |page| == PAGE && BASE <= a && a + |w| + 1 <= TOP && 0 !in w
    ensures StringAt(Written(page, a, w + [0]), a - BASE, w)
  {
    var r := Written(page, a, w + [0]);
    forall j | 0 <= j < |w| ensures r[a - BASE + j] == w[j] && w[j] != 0 { assert w[j] in w; }
  }

  // ---- how long the strings are ----

  lemma {:induction false} LengthOfCons(w: seq<Byte>, ws: Strings, k: nat)
    requires k <= |ws|
    ensures Length([w] + ws, k + 1) == |w| + 1 + Length(ws, k)
    decreases k
  {
    if k == 0 {
      assert Length([w] + ws, 0) == 0;
      assert ([w] + ws)[0] == w;
    } else {
      LengthOfCons(w, ws, k - 1);
    }
  }

  /** The strings never take more than the command line with its NUL. */
  lemma {:induction false} LengthBound(text: seq<Byte>, i: nat)
    requires i <= |text|
    ensures Length(Words(BLANK, text, i), |Words(BLANK, text, i)|) <= |text| - i + 1
    ensures i == |text| ==> Words(BLANK, text, i) == []
    decreases |text| - i
  {
    hide Length, Words, TokenStart, WordEnd;
    WordsStep(BLANK, text, i);
    var b := TokenStart(BLANK, text, i);
    if b < |text| {
      var e := WordEnd(BLANK, text, b);
      WordNotEmpty(text, b);
      LengthBound(text, e);
      LengthOfCons(text[b..e], Words(BLANK, text, e), |Words(BLANK, text, e)|);
      if e < |text| {
        DelimiterFirst(BLANK, text, e);
        LengthBound(text, e + 1);
      }
      NoLength(Words(BLANK, text, e));
    }
    NoLength(Words(BLANK, text, i));
  }

  lemma WordNotEmpty(text: seq<Byte>, b: nat)
    requires b < |text| && text[b] !in BLANK
    ensures b < WordEnd(BLANK, text, b)
  {
  }

  lemma NoLength(ws: Strings)
    ensures ws == [] ==> Length(ws, |ws|) == 0
  {
  }

  /** What is left of the command line after its first word. */
  function Rest(text: seq<Byte>): seq<Byte> {
    var b := TokenStart(BLANK, text, 0);
    var e := WordEnd(BLANK, text, b);
    if e < |text| then text[e + 1..] else []
  }

  lemma WordsRest(text: seq<Byte>)
    requires TokenStart(BLANK, text, 0) < |text|
    ensures var b := TokenStart(BLANK, text, 0); var e := WordEnd(BLANK, text, b);
      Words(BLANK, text, 0) == [text[b..e]] + Words(BLANK, Rest(text), 0)
  {
    hide Words, TokenStart, WordEnd;
    WordsStep(BLANK, text, 0);
    RestIs(text);
    hide Rest, BLANK;
    var e := WordEnd(BLANK, text, TokenStart(BLANK, text, 0));
    if e < |text| { AfterSpace(text, e); } else { NoMoreWords(text, e); }
  }

  lemma RestIs(text: seq<Byte>)
    ensures var e := WordEnd(BLANK, text, TokenStart(BLANK, text, 0));
      Rest(text) == if e < |text| then text[e + 1..] else []
  {
    hide TokenStart, WordEnd;
  }

  lemma NoMoreWords(text: seq<Byte>, e: nat)
    requires e == |text|
    ensures Words(BLANK, text, e) == Words(BLANK, [], 0) == []
  {
    hide Words;
    NoWords(BLANK, text);
    NoWords(BLANK, []);
  }

  lemma AfterSpace(text: seq<Byte>, e: nat)
    requires e < |text| && text[e] in BLANK
    ensures Words(BLANK, text, e) == Words(BLANK, text[e + 1..], 0)
  {
    hide Words, TokenStart, WordEnd;
    DelimiterFirst(BLANK, text, e);
    WordsShift(BLANK, text[..e + 1], text[e + 1..], 0);
    assert text[..e + 1] + text[e + 1..] == text;
  }

  // ---- the program ----

  /** memcpy of the string at place t of the command line, with its NUL. */
  method PushBytes(page: array<Byte>, a: int, buf: array<Byte>, t: nat, ghost w: seq<Byte>, n: nat)
    requires page.Length == PAGE && page != buf && n == |w| + 1 && BASE <= a && a + n <= TOP && StringAt(buf[..], t, w)
    modifies page
    ensures page[..] == Written(old(page[..]), a, w + [0])
  {
    var i := 0;
    while i < n
      invariant 0 <= i <= n
      invariant forall j | 0 <= j < PAGE ::
        page[j] == if a - BASE <= j < a - BASE + i then (w + [0])[j - (a - BASE)] else old(page[j])
    {
      assert buf[t + i] == (w + [0])[i] by { assert i < |w| ==> buf[..][t + i] == w[i]; }
      page[a - BASE + i] := buf[t + i];
      i := i + 1;
    }
  }

  /** strlen. */
  method Strlen(buf: array<Byte>, t: nat, ghost w: seq<Byte>) returns (n: nat)
    requires StringAt(buf[..], t, w)
    ensures n == |w|
  {
    n := 0;
    NulAt(buf[..], t, w, 0);
    while buf[t + n] != 0
      invariant 0 <= n <= |w| && (buf[t + n] == 0 <==> n == |w|)
      decreases |w| - n
    {
      n := n + 1;
      NulAt(buf[..], t, w, n);
    }
  }

  lemma NulAt(buf: seq<Byte>, t: nat, w: seq<Byte>, n: nat)
    requires StringAt(buf, t, w) && n <= |w|
    ensures buf[t + n] == 0 <==> n == |w|
  {
    if n < |w| { assert buf[t + n] == w[n]; }
  }

  /** memset and memcpy. */
  method StoreBytes(page: array<Byte>, a: int, bs: seq<Byte>)
    requires page.Length == PAGE && BASE <= a && a + |bs| <= TOP
    modifies page
    ensures page[..] == Written(old(page[..]), a, bs)
  {
    var i := 0;
    while i < |bs|
      invariant 0 <= i <= |bs|
      invariant forall j | 0 <= j < PAGE ::
        page[j] == if a - BASE <= j < a - BASE + i then bs[j - (a - BASE)] else old(page[j])
    {
      page[a - BASE + i] := bs[i];
      i := i + 1;
    }
  }

  // ---- the pointers ----

  /** The pointers to the words from number i on are in place below address e, the strings and the zero word
      at e + 4 above it, and everything below the pointers is zero. */
  ghost predicate PointersAt(page: seq<Byte>, ws: Strings, e: int, i: int) {
    && |page| == PAGE && 0 <= i <= |ws| && e % 4 == 0 && BASE + 4 * |ws| <= e && e + 8 <= TOP - Length(ws, |ws|)
    && (forall j | 0 <= j < |ws| :: StringAt(page, AddressOf(ws, j) - BASE, ws[j]))
    && (forall j | i <= j < |ws| :: WordAt(page, e - 4 * (|ws| - 1 - j)) == AddressOf(ws, j))
    && (forall k | 0 <= k < e + 4 - 4 * (|ws| - i) - BASE :: page[k] == 0)
    && ZeroWord(page, e + 4)
  }

  lemma StringsPlace(ws: Strings, j: nat)
    requires j < |ws|
    ensures TOP - Length(ws, |ws|) <= AddressOf(ws, j) < TOP
  {
    LengthGrows(ws, j + 1, |ws|);
    LengthGrows(ws, 0, j + 1);
  }

  lemma PutPointer(page: seq<Byte>, ws: Strings, e: int, i: nat)
    requires PointersAt(page, ws, e, i) && 0 < i
    ensures var a := e - 4 * (|ws| - i);
      BASE <= a && a + 4 <= TOP && PointersAt(Written(page, a, WordBytes(AddressOf(ws, i - 1))), ws, e, i - 1)
  {
    hide StringAt, Written, WordBytes, WordAt, Length;
    var a := e - 4 * (|ws| - i);
    var bs := WordBytes(AddressOf(ws, i - 1));
    var page' := Written(page, a, bs);
    StringsPlace(ws, i - 1);
    WordWritten(page, a, AddressOf(ws, i - 1));
    forall j | 0 <= j < |ws| ensures StringAt(page', AddressOf(ws, j) - BASE, ws[j]) {
      StringsPlace(ws, j);
      StringKept(page, a, bs, AddressOf(ws, j) - BASE, ws[j]);
    }
    forall j | i - 1 <= j < |ws| ensures WordAt(page', e - 4 * (|ws| - 1 - j)) == AddressOf(ws, j) {
      if j >= i { WordKept(page, a, bs, e - 4 * (|ws| - 1 - j)); }
    }
    WordKeptZero(page, a, bs, e + 4);
    forall k | 0 <= k < e + 4 - 4 * (|ws| - (i - 1)) - BASE ensures page'[k] == 0 { assert page[k] == 0; }
  }

  lemma WordKeptZero(page: seq<Byte>, a: int, bs: seq<Byte>, b: int)
    requires |page| == PAGE && BASE <= a && a + |bs| <= b && ZeroWord(page, b)
    ensures a + |bs| <= TOP && ZeroWord(Written(page, a, bs), b)
  {
  }

  /** The next string up is that of the word before. */
  lemma NextString(ws: Strings, i: nat)
    requires 0 < i < |ws|
    ensures AddressOf(ws, i) + |ws[i]| + 1 == AddressOf(ws, i - 1)
  {
  }

  // ---- the last three words ----

  lemma LastWords(page: seq<Byte>, ws: Strings, e: int)
    requires PointersAt(page, ws, e, 0) && FinalEsp(ws) == e - 12 - 4 * |ws| && Fits(ws) && |ws| < MAX_ARGC
    ensures var t := e - 4 * |ws|; |page| == PAGE && BASE <= t - 12 && t + 4 <= TOP
    ensures var t := e - 4 * |ws|;
      StackFor(Written(Written(Written(page, t - 4, WordBytes(t + 4)), t - 8, WordBytes(|ws|)), t - 12, WordBytes(0)),
               t - 12, ws)
  {
    hide StringAt, Written, WordBytes, WordAt, Length, ZeroWord;
    var t := e - 4 * |ws|;
    var p1 := Written(page, t - 4, WordBytes(t + 4));
    var p2 := Written(p1, t - 8, WordBytes(|ws|));
    var p3 := Written(p2, t - 12, WordBytes(0));
    WordWritten(page, t - 4, t + 4);
    WordWritten(p1, t - 8, |ws|);
    WordWritten(p2, t - 12, 0);
    WordKept(p1, t - 8, WordBytes(|ws|), t - 4);
    WordKept(p2, t - 12, WordBytes(0), t - 4);
    WordKept(p2, t - 12, WordBytes(0), t - 8);
    ZeroWordIs(page, e + 4);
    Above(page, t, e + 4, |ws|);
    forall i | 0 <= i < |ws| ensures ArgumentAt(p3, t + 4 + 4 * i, ws[i]) {
      Above(page, t, t + 4 + 4 * i, |ws|);
      StringsPlace(ws, i);
      AboveString(page, t, |ws|, AddressOf(ws, i) - BASE, ws[i]);
      assert t + 4 + 4 * i == e - 4 * (|ws| - 1 - i);
    }
  }

  /** The three words below t change no word above. */
  lemma Above(page: seq<Byte>, t: int, a: int, n: int)
    requires |page| == PAGE && BASE <= t - 12 && t <= a && a + 4 <= TOP
    ensures WordAt(Written(Written(Written(page, t - 4, WordBytes(t + 4)), t - 8, WordBytes(n)), t - 12,
                           WordBytes(0)), a) == WordAt(page, a)
  {
    hide Written, WordBytes, WordAt;
    var p1 := Written(page, t - 4, WordBytes(t + 4));
    var p2 := Written(p1, t - 8, WordBytes(n));
    WordKept(page, t - 4, WordBytes(t + 4), a);
    WordKept(p1, t - 8, WordBytes(n), a);
    WordKept(p2, t - 12, WordBytes(0), a);
  }

  lemma AboveString(page: seq<Byte>, t: int, n: int, p: int, w: seq<Byte>)
    requires |page| == PAGE && BASE <= t - 12 && t - BASE <= p && t <= TOP && StringAt(page, p, w)
    ensures StringAt(Written(Written(Written(page, t - 4, WordBytes(t + 4)), t - 8, WordBytes(n)), t - 12,
                             WordBytes(0)), p, w)
  {
    hide Written, WordBytes, StringAt;
    var p1 := Written(page, t - 4, WordBytes(t + 4));
    var p2 := Written(p1, t - 8, WordBytes(n));
    StringKept(page, t - 4, WordBytes(t + 4), p, w);
    StringKept(p1, t - 8, WordBytes(n), p, w);
    StringKept(p2, t - 12, WordBytes(0), p, w);
  }

  // ---- setup_stack ----

  method PushWord(page: array<Byte>, cmdline: array<Byte>, token: nat, esp: int, ghost ws: Strings, ghost k: nat)
    returns (esp': int)
    requires page.Length == PAGE && page != cmdline && k < |ws| && 0 !in ws[k] && Length(ws, |ws|) <= PAGE
    requires StringAt(cmdline[..], token, ws[k]) && StringsAt(page[..], ws, k) && esp == TOP - Length(ws, k)
    modifies page
    ensures StringsAt(page[..], ws, k + 1) && esp' == TOP - Length(ws, k + 1)
  {
    hide StringAt, StringsAt, Written, Length, AddressOf;
    PushPlace(ws, k);
    PushString(page[..], ws, k);
    var length := Strlen(cmdline, token, ws[k]);
    esp' := esp - (length + 1);
    PushBytes(page, esp', cmdline, token, ws[k], length + 1);
  }

  /** The first loop: the words of the command line are pushed.  It gives up at MAX_ARGC words. */
  method PushWords(page: array<Byte>, cmdline: array<Byte>, ghost text: seq<Byte>)
    returns (ok: bool, argc: nat, esp: int)
    requires page.Length == PAGE && page != cmdline && (forall i | 0 <= i < PAGE :: page[i] == 0)
    requires StringAt(cmdline[..], 0, text) && |text| < PAGE
    modifies page, cmdline
    ensures var ws := Words(BLANK, text, 0);
      && (ok <==> |ws| < MAX_ARGC)
      && (ok ==> argc == |ws| && esp == TOP - Length(ws, |ws|) && StringsAt(page[..], ws, |ws|))
  {
    ghost var ws := Words(BLANK, text, 0);
    LengthBound(text, 0);
    WordsAreWords(BLANK, text, 0);
    TextHasNoNul(cmdline[..], 0, text);
    assert 0 < MAX_ARGC;
    hide *;
    argc, esp := 0, TOP;
    NothingPushed(page[..], ws);
    ghost var rest := text;
    var token, save := NextWord(cmdline, 0, rest, ws, 0);
    while token.Some?
      invariant argc <= |ws| && argc < MAX_ARGC && esp == TOP - Length(ws, argc) && StringsAt(page[..], ws, argc)
      invariant token.None? <==> argc == |ws|
      invariant token.Some? ==>
        && StringAt(cmdline[..], token.value, ws[argc]) && StringAt(cmdline[..], save, Rest(rest))
        && ws[argc + 1..] == Words(BLANK, Rest(rest), 0)
      decreases |ws| - argc
    {
      esp := PushWord(page, cmdline, token.value, esp, ws, argc);
      argc := argc + 1;
      if argc >= MAX_ARGC { return false, argc, esp; }
      rest := Rest(rest);
      token, save := NextWord(cmdline, save, rest, ws, argc);
    }
    ok := true;
  }

  /** strtok_r, where the words from number k on are left. */
  method NextWord(cmdline: array<Byte>, s: nat, ghost text: seq<Byte>, ghost ws: Strings, ghost k: nat)
    returns (token: Option<nat>, save: nat)
    requires StringAt(cmdline[..], s, text) && k <= |ws| && ws[k..] == Words(BLANK, text, 0)
    modifies cmdline
    ensures token.None? <==> k == |ws|
    ensures token.Some? ==>
      && StringAt(cmdline[..], token.value, ws[k]) && StringAt(cmdline[..], save, Rest(text))
      && ws[k + 1..] == Words(BLANK, Rest(text), 0)
  {
    NextToken(ws, k, text);
    hide Words, TokenStart, WordEnd, StringAt, Rest;
    ghost var b, next := TokenStart(BLANK, text, 0), Rest(text);
    token, save := Strtok(BLANK, cmdline, s, text);
    assert token.Some? ==> StringAt(cmdline[..], save, next);
  }

  lemma PushPlace(ws: Strings, k: nat)
    requires k < |ws| && Length(ws, |ws|) <= PAGE
    ensures Length(ws, k + 1) <= PAGE
    ensures AddressOf(ws, k) == TOP - Length(ws, k) - (|ws[k]| + 1) == TOP - Length(ws, k + 1)
    ensures BASE <= AddressOf(ws, k) && AddressOf(ws, k) + |ws[k]| + 1 <= TOP
  {
    LengthGrows(ws, k + 1, |ws|);
  }

  lemma NothingPushed(page: seq<Byte>, ws: Strings)
    requires |page| == PAGE && forall i | 0 <= i < PAGE :: page[i] == 0
    ensures StringsAt(page, ws, 0) && Length(ws, 0) == 0
  {
  }

  /** What strtok_r finds next: the next word, and the text after it; or the end. */
  lemma NextToken(ws: Strings, k: nat, t: seq<Byte>)
    requires k <= |ws| && ws[k..] == Words(BLANK, t, 0)
    ensures TokenStart(BLANK, t, 0) == |t| <==> k == |ws|
    ensures TokenStart(BLANK, t, 0) < |t| ==> var b := TokenStart(BLANK, t, 0); var e := WordEnd(BLANK, t, b);
      ws[k] == t[b..e] && ws[k + 1..] == Words(BLANK, Rest(t), 0) && Rest(t) == if e < |t| then t[e + 1..] else []
  {
    hide Words, TokenStart, WordEnd;
    WordsStep(BLANK, t, 0);
    assert k == |ws| <==> ws[k..] == [];
    if TokenStart(BLANK, t, 0) < |t| {
      WordsRest(t);
      assert ws[k + 1..] == ws[k..][1..] && ws[k] == ws[k..][0];
    }
  }

  lemma TextHasNoNul(buf: seq<Byte>, i: nat, text: seq<Byte>)
    requires StringAt(buf, i, text)
    ensures 0 !in text
  {
    forall k | 0 <= k < |text| ensures text[k] != 0 { assert buf[i + k] == text[k]; }
  }

  /** The second loop: the pointers, from the last word's to the first's. */
  method PushPointers(page: array<Byte>, e: int, argc: nat, tracker0: int, ghost ws: Strings)
    requires PointersAt(page[..], ws, e, |ws|) && argc == |ws| && (argc > 0 ==> tracker0 == AddressOf(ws, argc - 1))
    modifies page
    ensures PointersAt(page[..], ws, e, 0)
  {
    var tracker, esp, i := tracker0, e, argc;
    hide StringAt, WordAt, Written, WordBytes, ZeroWord, Length;
    while i > 0
      invariant 0 <= i <= argc && esp == e - 4 * (argc - i) && PointersAt(page[..], ws, e, i)
      invariant i > 0 ==> tracker == AddressOf(ws, i - 1)
    {
      PutPointer(page[..], ws, e, i);
      StoreBytes(page, esp, WordBytes(tracker));
      esp := esp - 4;
      StringsPlace(ws, i - 1);
      var length := Strlen(page, tracker - BASE, ws[i - 1]);
      if i > 1 { NextString(ws, i - 1); }
      tracker := tracker + length + 1;
      i := i - 1;
    }
  }

  /** Zeroing what is zero. */
  lemma ZeroWritten(page: seq<Byte>, a: int, n: nat)
    requires |page| == PAGE && BASE <= a && a + n <= TOP && forall i | a - BASE <= i < a - BASE + n :: page[i] == 0
    ensures Written(page, a, seq(n, i => 0)) == page
  {
  }

  lemma ReadyForPointers(page: seq<Byte>, ws: Strings, a: int)
    requires StringsAt(page, ws, |ws|) && a == Aligned(TOP - Length(ws, |ws|)) && Fits(ws)
    ensures BASE <= a - 8 && PointersAt(page, ws, a - 8, |ws|)
    ensures FinalEsp(ws) == a - 8 - 12 - 4 * |ws|
  {
    hide StringAt, Length;
    assert a % 4 == 0 && (a - 8) % 4 == 0;
    assert a <= TOP - Length(ws, |ws|);
  }

  /** setup_stack.  It succeeds exactly if there are fewer than MAX_ARGC words, and then leaves the stack that
      the program expects. */
  method SetupStack(page: array<Byte>, cmdline: array<Byte>, ghost text: seq<Byte>) returns (ok: bool, esp: int)
    requires page.Length == PAGE && page != cmdline && (forall i | 0 <= i < PAGE :: page[i] == 0)
    requires StringAt(cmdline[..], 0, text) && |text| < PAGE
    requires |Words(BLANK, text, 0)| < MAX_ARGC ==> Fits(Words(BLANK, text, 0))
    modifies page, cmdline
    ensures ok <==> |Words(BLANK, text, 0)| < MAX_ARGC
    ensures ok ==> esp == FinalEsp(Words(BLANK, text, 0)) && StackFor(page[..], esp, Words(BLANK, text, 0))
  {
    ghost var ws := Words(BLANK, text, 0);
    hide Words, StringAt, StringsAt, PointersAt, StackFor, Written, WordBytes, WordAt, Length, AddressOf, FinalEsp,
      Fits;
    var argc;
    ok, argc, esp := PushWords(page, cmdline, text);
    if !ok { return; }
    LastTracker(ws);
    var tracker := esp;
    esp := AlignStack(page, esp, ws);
    PushPointers(page, esp, argc, tracker, ws);
    esp := PushFrame(page, esp, argc, ws);
  }

  /** The alignment to a word, and two words of zeros. */
  method AlignStack(page: array<Byte>, esp0: int, ghost ws: Strings) returns (esp: int)
    requires page.Length == PAGE && StringsAt(page[..], ws, |ws|) && esp0 == TOP - Length(ws, |ws|) && Fits(ws)
    modifies page
    ensures PointersAt(page[..], ws, esp, |ws|) && FinalEsp(ws) == esp - 12 - 4 * |ws|
  {
    hide StringAt, StringsAt, PointersAt, Written, Length, FinalEsp, Fits;
    var align := esp0 % 4;
    esp := esp0 - align;
    AlignedIs(esp0);
    ReadyForPointers(page[..], ws, esp);
    ZeroBelow(page[..], ws, esp, align);
    StoreBytes(page, esp, seq(align, i => 0));
    esp := esp - 4;
    StoreBytes(page, esp, seq(4, i => 0));
    esp := esp - 4;
    StoreBytes(page, esp, seq(4, i => 0));
  }

  /** argv, argc and the return address. */
  method PushFrame(page: array<Byte>, esp0: int, argc: nat, ghost ws: Strings) returns (esp: int)
    requires PointersAt(page[..], ws, esp0, 0) && FinalEsp(ws) == esp0 - 12 - 4 * |ws| && Fits(ws)
    requires argc == |ws| < MAX_ARGC
    modifies page
    ensures esp == FinalEsp(ws) && StackFor(page[..], esp, ws)
  {
    hide *;
    LastWords(page[..], ws, esp0);
    esp := StoreFrame(page, esp0, argc);
  }

  method StoreFrame(page: array<Byte>, esp0: int, argc: nat) returns (esp: int)
    requires page.Length == PAGE && argc < MAX_ARGC && BASE <= esp0 - 4 * argc - 12 && esp0 - 4 * argc + 4 <= TOP
    modifies page
    ensures esp == esp0 - 4 * argc - 12
    ensures var t := esp0 - 4 * argc;
      page[..] == Written(Written(Written(old(page[..]), t - 4, WordBytes(t + 4)), t - 8, WordBytes(argc)), t - 12,
                          WordBytes(0))
  {
    hide Written, WordBytes;
    var topOfArgv := esp0 - argc * 4;
    esp := topOfArgv;
    topOfArgv := topOfArgv + 4;
    esp := esp - 4;
    StoreBytes(page, esp, WordBytes(topOfArgv));
    esp := esp - 4;
    StoreBytes(page, esp, WordBytes(argc));
    esp := esp - 4;
    StoreBytes(page, esp, WordBytes(0));
  }

  lemma AlignedIs(a: int)
    ensures Aligned(a) == a - a % 4 && 0 <= a % 4
  {
  }

  lemma LastTracker(ws: Strings)
    ensures |ws| > 0 ==> TOP - Length(ws, |ws|) == AddressOf(ws, |ws| - 1)
  {
  }

  /** The alignment and the two words below it are zero already. */
  lemma ZeroBelow(page: seq<Byte>, ws: Strings, a: int, align: nat)
    requires StringsAt(page, ws, |ws|) && a + align == TOP - Length(ws, |ws|) && BASE <= a - 8
    ensures Written(page, a, seq(align, i => 0)) == page
    ensures Written(page, a - 4, seq(4, i => 0)) == page && Written(page, a - 8, seq(4, i => 0)) == page
  {
    hide Written;
    ZeroPlace(page, ws, a, align);
    ZeroPlace(page, ws, a - 4, 4);
    ZeroPlace(page, ws, a - 8, 4);
  }

  lemma ZeroPlace(page: seq<Byte>, ws: Strings, a: int, n: nat)
    requires StringsAt(page, ws, |ws|) && BASE <= a && a + n <= TOP - Length(ws, |ws|)
    ensures Written(page, a, seq(n, i => 0)) == page
  {
    ZeroWritten(page, a, n);
  }

  // ---- what fits ----

  /** Every word takes two bytes or more. */
  lemma {:induction false} LengthOfWords(ws: Strings, k: nat)
    requires k <= |ws| && forall i | 0 <= i < |ws| :: ws[i] != []
    ensures 2 * k <= Length(ws, k)
    decreases k
  {
    if k > 0 { LengthOfWords(ws, k - 1); }
  }

  /** Any command line of 1356 characters or fewer fits, and has fewer than MAX_ARGC words. */
  lemma ShortLinesFit(text: seq<Byte>)
    requires |text| <= 1356
    ensures Fits(Words(BLANK, text, 0)) && |Words(BLANK, text, 0)| < MAX_ARGC
  {
    hide Words, Length;
    LengthBound(text, 0);
    WordsAreWords(BLANK, text, 0);
    LengthOfWords(Words(BLANK, text, 0), |Words(BLANK, text, 0)|);
  }
}
