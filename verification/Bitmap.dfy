/** The bitmap of lib/kernel/bitmap.c, as far as the allocators of pages and of sectors use it. */
module Bitmap {
  import opened Options

  ghost predicate AllAre(used: seq<bool>, i: nat, cnt: nat, value: bool) {
    i + cnt <= |used| && forall j | i <= j < i + cnt :: used[j] == value
  }

  /** bitmap_set_multiple. */
  function Set(used: seq<bool>, i: nat, cnt: nat, value: bool): (r: seq<bool>)
    requires i + cnt <= |used|
    ensures |r| == |used| && forall j | 0 <= j < |used| :: r[j] == if i <= j < i + cnt then value else used[j]
  {
    used[..i] + seq(cnt, j => value) + used[i + cnt..]
  }

  /** bitmap_scan from index i on: the first group of `cnt` clear bits. */
  function Scan(used: seq<bool>, i: nat, cnt: nat): (r: Option<nat>)
    ensures r.Some? ==> r.value >= i && AllAre(used, r.value, cnt, false)
    ensures r.Some? ==> forall j | i <= j < r.value :: !AllAre(used, j, cnt, false)
    ensures r.None? ==> forall j: nat | i <= j :: !AllAre(used, j, cnt, false)
    decreases |used| - i
  {
    if i + cnt > |used| then None
    else if forall j | i <= j < i + cnt :: !used[j] then Some(i)
    else Scan(used, i + 1, cnt)
  }

  /** bitmap_contains. */
  method Contains(used: array<bool>, start: nat, cnt: nat, value: bool) returns (found: bool)
    requires start + cnt <= used.Length
    ensures found <==> exists j :: start <= j < start + cnt && used[j] == value
  {
    var i := 0;
    while i < cnt
      invariant 0 <= i <= cnt
      invariant forall j | start <= j < start + i :: used[j] != value
    {
      if used[start + i] == value { return true; }
      i := i + 1;
    }
    found := false;
  }

  /** bitmap_scan_and_flip of `cnt` clear bits. */
  method ScanAndFlip(used: array<bool>, cnt: nat) returns (r: Option<nat>)
    modifies used
    ensures r == Scan(old(used[..]), 0, cnt)
    ensures r.None? ==> used[..] == old(used[..])
    ensures r.Some? ==> r.value + cnt <= used.Length && used[..] == Set(old(used[..]), r.value, cnt, true)
  {
    if cnt > used.Length { return None; }
    var last := used.Length - cnt;
    var i := 0;
    while i <= last
      invariant 0 <= i <= last + 1
      invariant used[..] == old(used[..])
      invariant Scan(used[..], 0, cnt) == Scan(used[..], i, cnt)
    {
      var busy := Contains(used, i, cnt, true);
      assert forall j | i <= j < i + cnt :: used[..][j] == used[j];
      if !busy {
        SetMultiple(used, i, cnt, true);
        return Some(i);
      }
      i := i + 1;
    }
    r := None;
  }

  /** bitmap_set_multiple. */
  method SetMultiple(used: array<bool>, start: nat, cnt: nat, value: bool)
    requires start + cnt <= used.Length
    modifies used
    ensures used[..] == Set(old(used[..]), start, cnt, value)
  {
    var i := 0;
    while i < cnt
      invariant 0 <= i <= cnt
      invariant forall j | 0 <= j < used.Length :: used[j] == if start <= j < start + i then value else old(used[j])
    {
      used[start + i] := value;
      i := i + 1;
    }
  }
}
