/** A directory (filesys/directory.c): an array of 20-byte entries in the bytes of a file, and the map from
    names to inode sectors that it stands for. */
module Directory {
  import opened Options
  import opened Bytes
  import opened Disk

  type Name = seq<Byte>

  const ENTRY := 20
  const NAME_MAX := 14

  /** sizeof (struct dir_entry) is 20: a sector number of 4 bytes, 15 characters, and the flag. */
  predicate IsDir(c: seq<Byte>) {
    |c| % ENTRY == 0
  }

  function Slots(c: seq<Byte>): nat {
    |c| / ENTRY
  }

  function Slot(c: seq<Byte>, i: int): (e: seq<Byte>)
    requires 0 <= i < Slots(c)
    ensures |e| == ENTRY
  {
    c[i * ENTRY..i * ENTRY + ENTRY]
  }

  // ---- one entry ----

  predicate InUse(e: seq<Byte>)
    requires |e| == ENTRY
  {
    e[ENTRY - 1] != 0
  }

  function SectorIn(e: seq<Byte>): int
    requires |e| == ENTRY
  {
    WordOf(e[..4])
  }

  function NameIn(e: seq<Byte>): Name
    requires |e| == ENTRY
  {
    CString(e[4..ENTRY - 1])
  }

  /** Entry e after the assignments of dir_add; strlcpy leaves the characters after the NUL as they were. */
  function Filled(e: seq<Byte>, name: Name, sector: int): (r: seq<Byte>)
    requires |e| == ENTRY && |name| <= NAME_MAX
    ensures |r| == ENTRY
  {
    WordBytes(sector) + name + [0] + e[5 + |name|..ENTRY - 1] + [1]
  }

  lemma FilledReads(e: seq<Byte>, name: Name, sector: int)
    requires |e| == ENTRY && |name| <= NAME_MAX && 0 !in name && 0 <= sector < 0x1_0000_0000
    ensures var r := Filled(e, name, sector); InUse(r) && NameIn(r) == name && SectorIn(r) == sector
  {
    WordReads(sector);
    hide WordBytes, WordOf;
    var r := Filled(e, name, sector);
    var s := r[4..ENTRY - 1];
    assert r[..4] == WordBytes(sector);
    assert s[..|name|] == name && s[|name|] == 0;
    CStringOf(s, name);
  }

  function Erased(e: seq<Byte>): (r: seq<Byte>)
    requires |e| == ENTRY
    ensures |r| == ENTRY
  {
    e[..ENTRY - 1] + [0]
  }

  // ---- the operations ----

  predicate Holds(c: seq<Byte>, i: int, name: Name)
    requires 0 <= i < Slots(c)
  {
    InUse(Slot(c, i)) && NameIn(Slot(c, i)) == name
  }

  /** lookup: the first slot from i on that holds the name. */
  function Lookup(c: seq<Byte>, name: Name, i: int): (r: Option<int>)
    requires 0 <= i <= Slots(c)
    ensures r.Some? ==>
      i <= r.value < Slots(c) && Holds(c, r.value, name) && forall j | i <= j < r.value :: !Holds(c, j, name)
    ensures r.None? ==> forall j | i <= j < Slots(c) :: !Holds(c, j, name)
    decreases Slots(c) - i
  {
    if i == Slots(c) then None else if Holds(c, i, name) then Some(i) else Lookup(c, name, i + 1)
  }

  function FreeSlot(c: seq<Byte>, i: int): (r: Option<int>)
    requires 0 <= i <= Slots(c)
    ensures r.Some? ==>
      i <= r.value < Slots(c) && !InUse(Slot(c, r.value)) && forall j | i <= j < r.value :: InUse(Slot(c, j))
    ensures r.None? ==> forall j | i <= j < Slots(c) :: InUse(Slot(c, j))
    decreases Slots(c) - i
  {
    if i == Slots(c) then None else if !InUse(Slot(c, i)) then Some(i) else FreeSlot(c, i + 1)
  }

  predicate ValidName(name: Name) {
    0 < |name| <= NAME_MAX && 0 !in name
  }

  /** The slot that dir_add writes, if it writes one. */
  function AddSlot(c: seq<Byte>, name: Name): (r: Option<int>)
    ensures r.Some? ==> 0 <= r.value < Slots(c)
  {
    if name == [] || |name| > NAME_MAX || Lookup(c, name, 0).Some? then None else FreeSlot(c, 0)
  }

  /** The bytes after dir_add, when writing is not denied. */
  function Add(c: seq<Byte>, name: Name, sector: int): (r: seq<Byte>)
    ensures |r| == |c|
  {
    match AddSlot(c, name)
    case None => c
    case Some(i) => Splice(c, i * ENTRY, Filled(Slot(c, i), name, sector))
  }

  /** The bytes after dir_remove. */
  function Remove(c: seq<Byte>, name: Name): (r: seq<Byte>)
    ensures |r| == |c|
  {
    match Lookup(c, name, 0)
    case None => c
    case Some(i) => Splice(c, i * ENTRY, Erased(Slot(c, i)))
  }

  /** dir_readdir, from slot i: the next slot and the name found. */
  function ReadDir(c: seq<Byte>, i: int): (r: (int, Option<Name>))
    requires 0 <= i <= Slots(c)
    ensures i <= r.0 <= Slots(c) && (r.1.Some? ==> i < r.0)
    decreases Slots(c) - i
  {
    if i == Slots(c) then (i, None)
    else if InUse(Slot(c, i)) then (i + 1, Some(NameIn(Slot(c, i))))
    else ReadDir(c, i + 1)
  }

  lemma SpliceSlot(c: seq<Byte>, i: int, e: seq<Byte>, j: int)
    requires 0 <= i < Slots(c) && 0 <= j < Slots(c) && |e| == ENTRY
    ensures var d := Splice(c, i * ENTRY, e); |d| == |c| && Slot(d, j) == if j == i then e else Slot(c, j)
  {
    var d := Splice(c, i * ENTRY, e);
    var (a, b) := (i * ENTRY, j * ENTRY);
    if i == j {
      assert d[b..b + ENTRY] == e;
    } else {
      assert b + ENTRY <= a || a + ENTRY <= b;
      assert d[b..b + ENTRY] == c[b..b + ENTRY];
    }
  }

  // ---- the map ----

  type Names = map<Name, int>

  /** The names in use from slot i on, with their sectors. */
  function Entries(c: seq<Byte>, i: int): Names
    requires 0 <= i <= Slots(c)
    decreases Slots(c) - i
  {
    if i == Slots(c) then map[]
    else if InUse(Slot(c, i)) then Entries(c, i + 1)[NameIn(Slot(c, i)) := SectorIn(Slot(c, i))]
    else Entries(c, i + 1)
  }

  /** No two slots in use have the same name. */
  ghost predicate Unique(c: seq<Byte>) {
    forall i, j | 0 <= i < j < Slots(c) && InUse(Slot(c, i)) && InUse(Slot(c, j)) ::
      NameIn(Slot(c, i)) != NameIn(Slot(c, j))
  }

  /** What the map holds, slot by slot. */
  lemma {:induction false} EntriesHold(c: seq<Byte>, i: int, name: Name)
    requires 0 <= i <= Slots(c) && Unique(c)
    ensures name in Entries(c, i) <==> exists j :: i <= j < Slots(c) && Holds(c, j, name)
    ensures forall j | i <= j < Slots(c) && Holds(c, j, name) ::
      name in Entries(c, i) && Entries(c, i)[name] == SectorIn(Slot(c, j))
    decreases Slots(c) - i
  {
    if i < Slots(c) {
      EntriesHold(c, i + 1, name);
      if InUse(Slot(c, i)) && NameIn(Slot(c, i)) == name { assert Holds(c, i, name); }
    }
  }

  /** Writing one slot changes the map by what that slot held and holds. */
  lemma WriteSlot(c: seq<Byte>, i: int, e: seq<Byte>)
    requires Unique(c) && 0 <= i < Slots(c) && |e| == ENTRY
    requires InUse(e) ==> forall j | 0 <= j < Slots(c) && j != i :: !Holds(c, j, NameIn(e))
    ensures var d := Splice(c, i * ENTRY, e); |d| == |c| && Unique(d)
    ensures var d := Splice(c, i * ENTRY, e);
      forall n, j | 0 <= j < Slots(c) :: Holds(d, j, n) == if j == i then InUse(e) && NameIn(e) == n else Holds(c, j, n)
  {
    hide InUse, NameIn, Slot;
    var d := Splice(c, i * ENTRY, e);
    forall j | 0 <= j < Slots(c) ensures Slot(d, j) == if j == i then e else Slot(c, j) { SpliceSlot(c, i, e, j); }
    forall j, k | 0 <= j < k < Slots(d) && InUse(Slot(d, j)) && InUse(Slot(d, k))
      ensures NameIn(Slot(d, j)) != NameIn(Slot(d, k))
    {
      assert j == i ==> !Holds(c, k, NameIn(e));
      assert k == i ==> !Holds(c, j, NameIn(e));
    }
  }

  lemma EntryAt(c: seq<Byte>, name: Name, j: int)
    requires Unique(c) && 0 <= j < Slots(c) && Holds(c, j, name)
    ensures name in Entries(c, 0) && Entries(c, 0)[name] == SectorIn(Slot(c, j))
  {
    EntriesHold(c, 0, name);
  }

  /** dir_add writes an entry exactly if the name is valid and absent and a slot is free. */
  lemma AddSucceeds(c: seq<Byte>, name: Name)
    requires Unique(c) && 0 !in name
    ensures AddSlot(c, name).Some?
      <==> ValidName(name) && name !in Entries(c, 0) && exists i :: 0 <= i < Slots(c) && !InUse(Slot(c, i))
  {
    EntriesHold(c, 0, name);
  }

  /** It adds the name to the map, and changes nothing else in it; the names stay unique. */
  lemma AddRefines(c: seq<Byte>, name: Name, sector: int)
    requires Unique(c) && 0 !in name && 0 <= sector < 0x1_0000_0000
    ensures Unique(Add(c, name, sector))
    ensures Entries(Add(c, name, sector), 0)
      == if AddSlot(c, name).Some? then Entries(c, 0)[name := sector] else Entries(c, 0)
  {
    if AddSlot(c, name).Some? {
      var i := AddSlot(c, name).value;
      var e := Filled(Slot(c, i), name, sector);
      FilledReads(Slot(c, i), name, sector);
      hide InUse, NameIn, SectorIn, Entries, Filled, Slot;
      assert forall j | 0 <= j < Slots(c) :: !Holds(c, j, name);
      WriteSlot(c, i, e);
      SpliceSlot(c, i, e, i);
      var d := Add(c, name, sector);
      EntryAt(d, name, i);
      forall n | n != name ensures n in Entries(d, 0) <==> n in Entries(c, 0) { SameName(c, d, n, i); }
      forall n | n != name && n in Entries(c, 0)
        ensures Entries(d, 0)[n] == Entries(c, 0)[n]
      {
        SameSector(c, d, n, i, e);
      }
      assert Entries(d, 0) == Entries(c, 0)[name := sector];
    }
  }

  lemma SameName(c: seq<Byte>, d: seq<Byte>, n: Name, i: int)
    requires Unique(c) && Unique(d) && |d| == |c| && 0 <= i < Slots(c) && !Holds(c, i, n) && !Holds(d, i, n)
    requires forall j | 0 <= j < Slots(c) && j != i :: Holds(d, j, n) == Holds(c, j, n)
    ensures n in Entries(d, 0) <==> n in Entries(c, 0)
  {
    hide Holds;
    EntriesHold(c, 0, n);
    EntriesHold(d, 0, n);
  }

  lemma SameSector(c: seq<Byte>, d: seq<Byte>, n: Name, i: int, e: seq<Byte>)
    requires Unique(c) && Unique(d) && 0 <= i < Slots(c) && |e| == ENTRY && d == Splice(c, i * ENTRY, e) && |d| == |c|
    requires !Holds(c, i, n) && n in Entries(c, 0) && n in Entries(d, 0)
    ensures Entries(d, 0)[n] == Entries(c, 0)[n]
  {
    hide InUse, NameIn, SectorIn, Entries, Slot;
    EntriesHold(c, 0, n);
    var j :| 0 <= j < Slots(c) && Holds(c, j, n);
    EntryAt(c, n, j);
    SpliceSlot(c, i, e, j);
    EntryAt(d, n, j);
  }

  /** dir_remove finds the name exactly if it is in the map, and takes just that name out of the map. */
  lemma RemoveRefines(c: seq<Byte>, name: Name)
    requires Unique(c)
    ensures Unique(Remove(c, name)) && Entries(Remove(c, name), 0) == Entries(c, 0) - {name}
    ensures Lookup(c, name, 0).Some? <==> name in Entries(c, 0)
    ensures Lookup(c, name, 0).Some? ==> SectorIn(Slot(c, Lookup(c, name, 0).value)) == Entries(c, 0)[name]
  {
    hide NameIn, SectorIn, Entries, Slot;
    EntriesHold(c, 0, name);
    if Lookup(c, name, 0).Some? {
      var i := Lookup(c, name, 0).value;
      var e := Erased(Slot(c, i));
      EntryAt(c, name, i);
      WriteSlot(c, i, e);
      var d := Remove(c, name);
      EntriesHold(d, 0, name);
      forall n | n != name ensures n in Entries(d, 0) <==> n in Entries(c, 0) { SameName(c, d, n, i); }
      forall n | n != name && n in Entries(c, 0)
        ensures Entries(d, 0)[n] == Entries(c, 0)[n]
      {
        SameSector(c, d, n, i, e);
      }
      assert Entries(d, 0) == Entries(c, 0) - {name};
    } else {
      assert Entries(c, 0) - {name} == Entries(c, 0);
    }
  }

  /** The names that dir_readdir returns, called again and again from slot i until it returns none. */
  function Listed(c: seq<Byte>, i: int): seq<Name>
    requires 0 <= i <= Slots(c)
    decreases Slots(c) - i
  {
    match ReadDir(c, i)
    case (_, None) => []
    case (k, Some(n)) => [n] + Listed(c, k)
  }

  lemma ListedStep(c: seq<Byte>, i: int)
    requires 0 <= i < Slots(c)
    ensures Listed(c, i) == if InUse(Slot(c, i)) then [NameIn(Slot(c, i))] + Listed(c, i + 1) else Listed(c, i + 1)
  {
  }

  lemma NotAgain(c: seq<Byte>, i: int)
    requires Unique(c) && 0 <= i < Slots(c) && InUse(Slot(c, i))
    ensures NameIn(Slot(c, i)) !in Entries(c, i + 1)
  {
    hide NameIn, Slot, InUse, Entries;
    EntriesHold(c, i + 1, NameIn(Slot(c, i)));
  }

  /** Each name in use is listed, once, and nothing else. */
  lemma {:induction false} ListedOnce(c: seq<Byte>, i: int, name: Name)
    requires Unique(c) && 0 <= i <= Slots(c)
    ensures multiset(Listed(c, i))[name] == if name in Entries(c, i) then 1 else 0
    decreases Slots(c) - i
  {
    if i < Slots(c) {
      hide NameIn, SectorIn, Slot, Listed, Unique, InUse;
      ListedOnce(c, i + 1, name);
      ListedStep(c, i);
      if InUse(Slot(c, i)) { NotAgain(c, i); }
    }
  }
}
