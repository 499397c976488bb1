/** Splitting a string into words (strtok_r in lib/string.c). */
module Tokens {
  import opened Options
  import opened Bytes
  import opened Disk

  /** The characters of the string of delimiters; NUL is not one. */
  type Delimiters = ds: set<Byte> | 0 !in ds

  /** A word is not empty and has no delimiter in it. */
  ghost predicate IsWord(ds: Delimiters, w: seq<Byte>) {
    w != [] && forall k | 0 <= k < |w| :: w[k] !in ds
  }

  /** The first place from i on that is no delimiter. */
  function TokenStart(ds: Delimiters, s: seq<Byte>, i: nat): (b: nat)
    requires i <= |s|
    ensures i <= b <= |s| && (b < |s| ==> s[b] !in ds) && forall k | i <= k < b :: s[k] in ds
    decreases |s| - i
  {
    if i < |s| && s[i] in ds then TokenStart(ds, s, i + 1) else i
  }

  /** The first delimiter from i on, or the end. */
  function WordEnd(ds: Delimiters, s: seq<Byte>, i: nat): (e: nat)
    requires i <= |s|
    ensures i <= e <= |s| && (e < |s| ==> s[e] in ds) && forall k | i <= k < e :: s[k] !in ds
    decreases |s| - i
  {
    if i < |s| && s[i] !in ds then WordEnd(ds, s, i + 1) else i
  }

  /** The words of s from place i on. */
  function Words(ds: Delimiters, s: seq<Byte>, i: nat): (ws: seq<seq<Byte>>)
    requires i <= |s|
    decreases |s| - i
  {
    var b := TokenStart(ds, s, i);
    if b == |s| then [] else [s[b..WordEnd(ds, s, b)]] + Words(ds, s, WordEnd(ds, s, b))
  }

  /** The words are words. */
  lemma {:induction false} WordsAreWords(ds: Delimiters, s: seq<Byte>, i: nat)
    requires i <= |s|
    ensures forall k | 0 <= k < |Words(ds, s, i)| :: IsWord(ds, Words(ds, s, i)[k])
    ensures 0 !in s ==> forall k | 0 <= k < |Words(ds, s, i)| :: 0 !in Words(ds, s, i)[k]
    decreases |s| - i
  {
    var b := TokenStart(ds, s, i);
    if b < |s| {
      var e := WordEnd(ds, s, b);
      WordsAreWords(ds, s, e);
      assert s[b] !in ds && b < e;
      forall x | x in s[b..e] ensures x in s {}
    }
  }

  function Concat(ws: seq<seq<Byte>>): seq<Byte> {
    if ws == [] then [] else ws[0] + Concat(ws[1..])
  }

  /** What is left of s when its delimiters are taken out. */
  function Undelimited(ds: Delimiters, s: seq<Byte>): seq<Byte> {
    if s == [] then [] else (if s[0] in ds then [] else [s[0]]) + Undelimited(ds, s[1..])
  }

  lemma {:induction false} UndelimitedSkips(ds: Delimiters, s: seq<Byte>, i: nat, b: nat)
    requires i <= b <= |s| && forall k | i <= k < b :: s[k] in ds
    ensures Undelimited(ds, s[i..]) == Undelimited(ds, s[b..])
    decreases b - i
  {
    if i < b {
      assert s[i..][1..] == s[i + 1..];
      UndelimitedSkips(ds, s, i + 1, b);
    }
  }

  lemma {:induction false} UndelimitedWord(ds: Delimiters, s: seq<Byte>, b: nat, e: nat)
    requires b <= e <= |s| && forall k | b <= k < e :: s[k] !in ds
    ensures Undelimited(ds, s[b..]) == s[b..e] + Undelimited(ds, s[e..])
    decreases e - b
  {
    if b < e {
      assert s[b..][1..] == s[b + 1..];
      UndelimitedWord(ds, s, b + 1, e);
      assert s[b..e] == [s[b]] + s[b + 1..e];
    }
  }

  /** The words are all of s but its delimiters, in order. */
  lemma {:induction false} WordsKeepAll(ds: Delimiters, s: seq<Byte>, i: nat)
    requires i <= |s|
    ensures Concat(Words(ds, s, i)) == Undelimited(ds, s[i..])
    decreases |s| - i
  {
    var b := TokenStart(ds, s, i);
    UndelimitedSkips(ds, s, i, b);
    if b < |s| {
      var e := WordEnd(ds, s, b);
      UndelimitedWord(ds, s, b, e);
      WordsKeepAll(ds, s, e);
    }
  }

  /** Words put together with one d between each two. */
  function Joined(d: Byte, ws: seq<seq<Byte>>): seq<Byte> {
    if ws == [] then [] else if |ws| == 1 then ws[0] else ws[0] + [d] + Joined(d, ws[1..])
  }

  lemma {:induction false} WordEndIs(ds: Delimiters, s: seq<Byte>, i: nat, e: nat)
    requires i <= e <= |s| && (forall k | i <= k < e :: s[k] !in ds) && (e < |s| ==> s[e] in ds)
    ensures WordEnd(ds, s, i) == e
    decreases e - i
  {
    if i < e { WordEndIs(ds, s, i + 1, e); }
  }

  lemma WordsStep(ds: Delimiters, s: seq<Byte>, i: nat)
    requires i <= |s|
    ensures var b := TokenStart(ds, s, i);
      Words(ds, s, i) == if b == |s| then [] else [s[b..WordEnd(ds, s, b)]] + Words(ds, s, WordEnd(ds, s, b))
  {
  }

  lemma {:induction false} WordsShift(ds: Delimiters, p: seq<Byte>, s: seq<Byte>, i: nat)
    requires i <= |s|
    ensures Words(ds, p + s, |p| + i) == Words(ds, s, i)
    decreases |s| - i
  {
    hide Words, TokenStart, WordEnd;
    var t := p + s;
    SkipShift(ds, p, s, i);
    WordsStep(ds, t, |p| + i);
    WordsStep(ds, s, i);
    var b := TokenStart(ds, s, i);
    if b < |s| {
      EndShift(ds, p, s, b);
      var e := WordEnd(ds, s, b);
      WordsShift(ds, p, s, e);
      SliceShift(p, s, b, e);
    }
  }

  lemma SliceShift(p: seq<Byte>, s: seq<Byte>, b: nat, e: nat)
    requires b <= e <= |s|
    ensures (p + s)[|p| + b..|p| + e] == s[b..e]
  {
  }

  lemma {:induction false} EndShift(ds: Delimiters, p: seq<Byte>, s: seq<Byte>, i: nat)
    requires i <= |s|
    ensures WordEnd(ds, p + s, |p| + i) == |p| + WordEnd(ds, s, i)
    decreases |s| - i
  {
    if i < |s| && s[i] !in ds { EndShift(ds, p, s, i + 1); }
  }

  lemma {:induction false} SkipShift(ds: Delimiters, p: seq<Byte>, s: seq<Byte>, i: nat)
    requires i <= |s|
    ensures TokenStart(ds, p + s, |p| + i) == |p| + TokenStart(ds, s, i)
    decreases |s| - i
  {
    if i < |s| && s[i] in ds { SkipShift(ds, p, s, i + 1); }
  }

  lemma NextWords(ds: Delimiters, d: Byte, w: seq<Byte>, s: seq<Byte>)
    requires d in ds
    ensures Words(ds, w + [d] + s, |w|) == Words(ds, s, 0)
  {
    hide Words;
    WordsShift(ds, w + [d], s, 0);
    DelimiterFirst(ds, w + [d] + s, |w|);
  }

  /** Splitting undoes joining. */
  lemma {:induction false} SplitJoined(ds: Delimiters, d: Byte, ws: seq<seq<Byte>>)
    requires d in ds && forall k | 0 <= k < |ws| :: IsWord(ds, ws[k])
    ensures Words(ds, Joined(d, ws), 0) == ws
  {
    if ws != [] {
      JoinedStarts(d, ws);
      hide Words, Joined;
      FirstWord(ds, ws[0], Joined(d, ws));
      if |ws| == 1 {
        WordsStep(ds, Joined(d, ws), |ws[0]|);
        NoWords(ds, Joined(d, ws));
      } else {
        SplitJoined(ds, d, ws[1..]);
        NextWords(ds, d, ws[0], Joined(d, ws[1..]));
      }
    }
  }

  lemma JoinedStarts(d: Byte, ws: seq<seq<Byte>>)
    requires ws != []
    ensures Joined(d, ws) == if |ws| == 1 then ws[0] else ws[0] + [d] + Joined(d, ws[1..])
    ensures var (s, n) := (Joined(d, ws), |ws[0]|); n <= |s| && s[..n] == ws[0] && (n < |s| ==> s[n] == d)
  {
    hide Joined;
    assert Joined(d, ws) == if |ws| == 1 then ws[0] else ws[0] + [d] + Joined(d, ws[1..]) by { JoinedIs(d, ws); }
  }

  lemma JoinedIs(d: Byte, ws: seq<seq<Byte>>)
    requires ws != []
    ensures Joined(d, ws) == if |ws| == 1 then ws[0] else ws[0] + [d] + Joined(d, ws[1..])
  {
  }

  lemma NoWords(ds: Delimiters, s: seq<Byte>)
    ensures Words(ds, s, |s|) == []
  {
  }

  lemma FirstWord(ds: Delimiters, w: seq<Byte>, s: seq<Byte>)
    requires IsWord(ds, w) && |w| <= |s| && s[..|w|] == w && (|w| < |s| ==> s[|w|] in ds)
    ensures Words(ds, s, 0) == [w] + Words(ds, s, |w|)
  {
    forall k | 0 <= k < |w| ensures s[k] !in ds { assert s[k] == w[k] && w[k] in w; }
    WordEndIs(ds, s, 0, |w|);
    assert TokenStart(ds, s, 0) == 0;
    assert s[0..|w|] == w;
  }

  lemma DelimiterFirst(ds: Delimiters, s: seq<Byte>, i: nat)
    requires i < |s| && s[i] in ds
    ensures Words(ds, s, i) == Words(ds, s, i + 1)
  {
    assert TokenStart(ds, s, i) == TokenStart(ds, s, i + 1);
    WordsStep(ds, s, i);
    WordsStep(ds, s, i + 1);
  }

  /** At place i of the buffer is string s and a NUL. */
  predicate StringAt(buf: seq<Byte>, i: int, s: seq<Byte>) {
    0 <= i && i + |s| < |buf| && buf[i + |s|] == 0 && forall k | 0 <= k < |s| :: buf[i + k] == s[k] && s[k] != 0
  }

  /** The first loop of strtok_r. */
  method SkipDelimiters(ds: Delimiters, buf: array<Byte>, s: nat, ghost text: seq<Byte>) returns (i: nat)
    requires StringAt(buf[..], s, text)
    ensures i == s + TokenStart(ds, text, 0)
  {
    i := s;
    while buf[i] in ds
      invariant s <= i <= s + |text| && TokenStart(ds, text, 0) == TokenStart(ds, text, i - s)
      decreases s + |text| - i
    {
      assert i < s + |text| ==> text[i - s] == buf[i];
      i := i + 1;
    }
    assert i < s + |text| ==> text[i - s] == buf[i];
  }

  /** The second loop. */
  method SkipToken(ds: Delimiters, buf: array<Byte>, s: nat, start: nat, ghost text: seq<Byte>) returns (i: nat)
    requires StringAt(buf[..], s, text) && s <= start <= s + |text|
    ensures i == s + WordEnd(ds, text, start - s)
  {
    i := start;
    while buf[i] !in ds && buf[i] != 0
      invariant start <= i <= s + |text| && WordEnd(ds, text, start - s) == WordEnd(ds, text, i - s)
      decreases s + |text| - i
    {
      assert i < s + |text| ==> text[i - s] == buf[i];
      i := i + 1;
    }
    assert i < s + |text| ==> text[i - s] == buf[i];
  }

  /** strtok_r, from place s: the token's place, and the place to go on from.  It puts a NUL
      after the token and changes nothing else. */
  method Strtok(ds: Delimiters, buf: array<Byte>, s: nat, ghost text: seq<Byte>) returns (token: Option<nat>, save: nat)
    requires StringAt(buf[..], s, text)
    modifies buf
    ensures token.None? <==> TokenStart(ds, text, 0) == |text|
    ensures token.None? ==> buf[..] == old(buf[..])
    ensures token.Some? ==> var b := TokenStart(ds, text, 0); var e := WordEnd(ds, text, b);
      && token.value == s + b && StringAt(buf[..], s + b, text[b..e])
      && save == (if e < |text| then s + e + 1 else s + e)
      && StringAt(buf[..], save, if e < |text| then text[e + 1..] else [])
      && buf[..] == old(buf[..])[s + e := 0]
  {
    hide TokenStart, WordEnd;
    var t := SkipDelimiters(ds, buf, s, text);
    assert t < s + |text| ==> text[t - s] == buf[t];
    if buf[t] == 0 { return None, t; }
    var i := SkipToken(ds, buf, s, t, text);
    Cut(ds, buf[..], s, text, t - s, i - s);
    if buf[i] != 0 {
      buf[i] := 0;
      save := i + 1;
    } else {
      assert buf[..] == old(buf[..])[i := 0];
      save := i;
    }
    token := Some(t);
  }

  /** A NUL put after the word from b to e cuts the text in two. */
  lemma Cut(ds: Delimiters, buf: seq<Byte>, s: nat, text: seq<Byte>, b: nat, e: nat)
    requires StringAt(buf, s, text) && b <= e <= |text| && (e < |text| ==> text[e] in ds)
    ensures buf[s + e] == 0 <==> e == |text|
    ensures StringAt(buf[s + e := 0], s + b, text[b..e])
    ensures e < |text| ==> StringAt(buf[s + e := 0], s + e + 1, text[e + 1..])
    ensures e == |text| ==> StringAt(buf[s + e := 0], s + e, [])
  {
  }
}
