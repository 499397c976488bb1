/** Who owns a lock (synch.c). */
module Locking {
  import opened Options
  import opened OrderedList
  import opened Kernel
  import opened Scheduling
  import opened Pending

  type Helds = map<Tid, seq<LockId>>
  type Holders = map<LockId, Option<Tid>>

  /** Thread t is past its acquire-side sema_down and before its release-side sema_up of lock l. */
  predicate Inside(held: Helds, pc: Pcs, t: Tid, l: LockId) {
    PcOf(pc, t) == Downed(l) || PcOf(pc, t) == TryDowned(l) || PcOf(pc, t) == Releasing(l) || l in HeldOf(held, t)
  }

  ghost function Insiders(held: Helds, pc: Pcs, l: LockId): set<Tid> {
    set t | t in pc && Inside(held, pc, t, l)
  }

  ghost predicate CountedAt(semas: Semas, held: Helds, pc: Pcs, l: LockId) {
    SemaOf(semas, OfLock(l)).value + |Insiders(held, pc, l)| == 1
  }

  /** The semaphore of a lock and the threads inside it make one. */
  ghost predicate LocksCounted(semas: Semas, holder: Holders, held: Helds, pc: Pcs) {
    forall l | l in holder :: CountedAt(semas, held, pc, l)
  }

  predicate Distinct(s: seq<LockId>) {
    forall i, j | 0 <= i < j < |s| :: s[i] != s[j]
  }

  /** Thread t is in a lock operation on l and does not have l on its list. */
  predicate AtLock(pc: Pc, l: LockId) {
    pc == Entered(l) || pc == Downing(OfLock(l)) || pc == Downed(l) || pc == TryDowned(l) || pc == Releasing(l)
  }

  /** What thread t's position and list, and the holders, say of each other. */
  ghost predicate HoldsAt(holder: Holders, held: Helds, pc: Pcs, t: Tid, l: LockId) {
    && (l in HeldOf(held, t) ==> t in pc && l in holder && (HolderOf(holder, l) == Some(t) || PcOf(pc, t) == Got(l)))
    && (HolderOf(holder, l) == Some(t) ==> l in HeldOf(held, t) && PcOf(pc, t) != Got(l))
    && (PcOf(pc, t) == Got(l) ==> l in HeldOf(held, t))
    && (AtLock(PcOf(pc, t), l) ==> l in holder && l !in HeldOf(held, t))
  }

  ghost predicate HoldersListed(holder: Holders, held: Helds, pc: Pcs) {
    && (forall t, l :: HoldsAt(holder, held, pc, t, l))
    && (forall t :: Distinct(HeldOf(held, t)))
  }

  lemma OnlyInsider(semas: Semas, holder: Holders, held: Helds, pc: Pcs, l: LockId, t: Tid, u: Tid)
    requires LocksCounted(semas, holder, held, pc) && l in holder
    requires t in pc && u in pc && Inside(held, pc, t, l) && Inside(held, pc, u, l)
    ensures t == u && Insiders(held, pc, l) == {t} && SemaOf(semas, OfLock(l)).value == 0
  {
    var i := Insiders(held, pc, l);
    assert CountedAt(semas, held, pc, l);
    var others := i - {t};
    assert i == others + {t};
    assert |others| == 0;
    assert others == {};
    assert u in i;
  }

  /** Only the values of the locks' semaphores matter. */
  lemma LocksFrame(semas: Semas, semas': Semas, holder: Holders, held: Helds, pc: Pcs)
    requires LocksCounted(semas, holder, held, pc)
    requires forall l | l in holder :: SemaOf(semas', OfLock(l)).value == SemaOf(semas, OfLock(l)).value
    ensures LocksCounted(semas', holder, held, pc)
  {
    forall l | l in holder ensures CountedAt(semas', held, pc, l) {
      assert CountedAt(semas, held, pc, l);
    }
  }

  /** A thread moves between positions that are inside no lock. */
  lemma LocksMove(semas: Semas, holder: Holders, held: Helds, pc: Pcs, c: Tid, next: Pc)
    requires LocksCounted(semas, holder, held, pc) && c in pc
    requires forall l :: Inside(held, pc, c, l) <==> Inside(held, pc[c := next], c, l)
    ensures LocksCounted(semas, holder, held, pc[c := next])
  {
    forall l | l in holder ensures CountedAt(semas, held, pc[c := next], l) {
      assert CountedAt(semas, held, pc, l);
      assert Insiders(held, pc, l) == Insiders(held, pc[c := next], l);
    }
  }

  lemma HoldersMove(holder: Holders, held: Helds, pc: Pcs, c: Tid, next: Pc)
    requires HoldersListed(holder, held, pc) && c in pc && !PcOf(pc, c).Got? && !next.Got?
    requires forall l :: AtLock(next, l) ==> l in holder && l !in HeldOf(held, c)
    ensures HoldersListed(holder, held, pc[c := next])
  {
    var pc' := pc[c := next];
    forall t, l ensures HoldsAt(holder, held, pc', t, l) {
      assert HoldsAt(holder, held, pc, t, l);
    }
  }

  /** Taking the unit of lock l from outside it. */
  lemma LocksTake(semas: Semas, holder: Holders, held: Helds, pc: Pcs, c: Tid, l: LockId, next: Pc)
    requires LocksCounted(semas, holder, held, pc) && HoldersListed(holder, held, pc)
    requires c in pc && l in holder && SemaOf(semas, OfLock(l)).value > 0
    requires PcOf(pc, c) == Client || PcOf(pc, c) == Entered(l) || PcOf(pc, c) == Downing(OfLock(l))
    requires next == Downed(l) || next == TryDowned(l)
    requires l !in HeldOf(held, c)
    ensures var m := SemaOf(semas, OfLock(l));
      LocksCounted(semas[OfLock(l) := m.(value := m.value - 1, downs := m.downs + 1)], holder, held, pc[c := next])
  {
    var m := SemaOf(semas, OfLock(l));
    var semas' := semas[OfLock(l) := m.(value := m.value - 1, downs := m.downs + 1)];
    var pc' := pc[c := next];
    forall x | x in holder ensures CountedAt(semas', held, pc', x) {
      assert CountedAt(semas, held, pc, x);
      InsidersTake(held, pc, c, l, next, x);
    }
  }

  lemma InsidersTake(held: Helds, pc: Pcs, c: Tid, l: LockId, next: Pc, x: LockId)
    requires c in pc && (next == Downed(l) || next == TryDowned(l)) && l !in HeldOf(held, c)
    requires PcOf(pc, c) == Client || PcOf(pc, c) == Entered(l) || PcOf(pc, c) == Downing(OfLock(l))
    ensures |Insiders(held, pc[c := next], x)| == |Insiders(held, pc, x)| + if x == l then 1 else 0
  {
    assert Insiders(held, pc[c := next], x) == Insiders(held, pc, x) + if x == l then {c} else {};
  }

  /** Giving it back. */
  lemma LocksGive(semas: Semas, holder: Holders, held: Helds, pc: Pcs, c: Tid, l: LockId, waiters: seq<Tid>)
    requires LocksCounted(semas, holder, held, pc) && HoldersListed(holder, held, pc)
    requires c in pc && l in holder && PcOf(pc, c) == Releasing(l)
    ensures var m := SemaOf(semas, OfLock(l));
      LocksCounted(semas[OfLock(l) := m.(value := m.value + 1, ups := m.ups + 1, waiters := waiters)], holder, held,
                   pc[c := Client])
  {
    var m := SemaOf(semas, OfLock(l));
    var semas' := semas[OfLock(l) := m.(value := m.value + 1, ups := m.ups + 1, waiters := waiters)];
    assert HoldsAt(holder, held, pc, c, l);
    var pc' := pc[c := Client];
    hide Insiders;
    forall x | x in holder ensures CountedAt(semas', held, pc', x) {
      assert CountedAt(semas, held, pc, x);
      InsidersGive(held, pc, c, l, x);
    }
  }

  lemma InsidersGive(held: Helds, pc: Pcs, c: Tid, l: LockId, x: LockId)
    requires c in pc && PcOf(pc, c) == Releasing(l) && l !in HeldOf(held, c)
    ensures |Insiders(held, pc[c := Client], x)| == |Insiders(held, pc, x)| - if x == l then 1 else 0
  {
    assert Insiders(held, pc[c := Client], x) == Insiders(held, pc, x) - if x == l then {c} else {};
  }

  /** Putting lock l on the list of the thread that took its unit. */
  lemma LocksPush(semas: Semas, holder: Holders, held: Helds, pc: Pcs, c: Tid, l: LockId)
    requires LocksCounted(semas, holder, held, pc) && HoldersListed(holder, held, pc)
    requires c in pc && (PcOf(pc, c) == Downed(l) || PcOf(pc, c) == TryDowned(l))
    ensures LocksCounted(semas, holder, held[c := [l] + HeldOf(held, c)], pc[c := Got(l)])
    ensures HoldersListed(holder, held[c := [l] + HeldOf(held, c)], pc[c := Got(l)])
  {
    var held' := held[c := [l] + HeldOf(held, c)];
    var pc' := pc[c := Got(l)];
    assert HoldsAt(holder, held, pc, c, l);
    forall x | x in holder ensures CountedAt(semas, held', pc', x) {
      assert CountedAt(semas, held, pc, x);
      assert Insiders(held', pc', x) == Insiders(held, pc, x);
    }
    forall t, x ensures HoldsAt(holder, held', pc', t, x) {
      assert HoldsAt(holder, held, pc, t, x);
    }
    forall t ensures Distinct(HeldOf(held', t)) {
      assert Distinct(HeldOf(held, t));
    }
  }

  /** Storing the holder. */
  lemma LocksStore(semas: Semas, holder: Holders, held: Helds, pc: Pcs, c: Tid, l: LockId)
    requires LocksCounted(semas, holder, held, pc) && HoldersListed(holder, held, pc)
    requires c in pc && PcOf(pc, c) == Got(l)
    ensures LocksCounted(semas, holder[l := Some(c)], held, pc[c := Client])
    ensures HoldersListed(holder[l := Some(c)], held, pc[c := Client])
  {
    var holder' := holder[l := Some(c)];
    var pc' := pc[c := Client];
    assert HoldsAt(holder, held, pc, c, l);
    forall x | x in holder' ensures CountedAt(semas, held, pc', x) {
      assert CountedAt(semas, held, pc, x);
      assert Insiders(held, pc', x) == Insiders(held, pc, x);
    }
    forall t, x ensures HoldsAt(holder', held, pc', t, x) {
      assert HoldsAt(holder, held, pc, t, x);
      if x == l && l in HeldOf(held, t) {
        OnlyInsider(semas, holder, held, pc, l, c, t);
      }
    }
  }

  lemma {:induction false} WithoutDistinct(s: seq<LockId>, l: LockId)
    requires Distinct(s)
    ensures Distinct(Without(s, l))
    ensures forall x :: x in Without(s, l) <==> x in s && x != l
  {
    if s != [] {
      assert Distinct(s[1..]);
      WithoutDistinct(s[1..], l);
      assert s == [s[0]] + s[1..];
      assert s[0] !in s[1..];
      assert s[0] !in Without(s[1..], l);
    }
  }

  /** The interrupts-off part of lock_release. */
  lemma LocksRelease(semas: Semas, holder: Holders, held: Helds, pc: Pcs, c: Tid, l: LockId)
    requires LocksCounted(semas, holder, held, pc) && HoldersListed(holder, held, pc)
    requires c in pc && PcOf(pc, c) == Client && HolderOf(holder, l) == Some(c) && l in holder
    ensures LocksCounted(semas, holder[l := None], held[c := Without(HeldOf(held, c), l)], pc[c := Releasing(l)])
    ensures HoldersListed(holder[l := None], held[c := Without(HeldOf(held, c), l)], pc[c := Releasing(l)])
  {
    var holder' := holder[l := None];
    var held' := held[c := Without(HeldOf(held, c), l)];
    var pc' := pc[c := Releasing(l)];
    assert HoldsAt(holder, held, pc, c, l);
    WithoutDistinct(HeldOf(held, c), l);
    forall x | x in holder' ensures CountedAt(semas, held', pc', x) {
      assert CountedAt(semas, held, pc, x);
      assert Insiders(held', pc', x) == Insiders(held, pc, x);
    }
    forall t, x ensures HoldsAt(holder', held', pc', t, x) {
      assert HoldsAt(holder, held, pc, t, x);
      if x == l && l in HeldOf(held, t) {
        OnlyInsider(semas, holder, held, pc, l, c, t);
      }
    }
    forall t ensures Distinct(HeldOf(held', t)) {
      assert Distinct(HeldOf(held, t));
    }
  }

  /** A new lock. */
  lemma LocksNew(semas: Semas, holder: Holders, held: Helds, pc: Pcs, l: LockId)
    requires LocksCounted(semas, holder, held, pc) && HoldersListed(holder, held, pc) && l !in holder
    ensures LocksCounted(semas[OfLock(l) := Sema(1, [], 1, 0, 0)], holder[l := None], held, pc)
    ensures HoldersListed(holder[l := None], held, pc)
  {
    var semas' := semas[OfLock(l) := Sema(1, [], 1, 0, 0)];
    forall x | x in holder[l := None] ensures CountedAt(semas', held, pc, x) {
      if x == l {
        forall t ensures t !in Insiders(held, pc, l) { assert HoldsAt(holder, held, pc, t, l); }
        assert Insiders(held, pc, l) == {};
      } else {
        assert CountedAt(semas, held, pc, x);
      }
    }
    var holder' := holder[l := None];
    forall t, x ensures HoldsAt(holder', held, pc, t, x) {
      assert HoldsAt(holder, held, pc, t, x);
    }
  }
}
