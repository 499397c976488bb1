/** Wake-ups that are on their way (synch.c): sema_up readies a waiter but leaves the new unit to
    whoever tests the value first, so what keeps wake-ups from being lost is a count. */
module Pending {
  import opened OrderedList
  import opened Kernel
  import opened Scheduling

  type Semas = map<SemaId, Sema>

  /** The threads that sema_up took off the wait list of `s` and that have not tested its value since. */
  ghost function Woken(status: Statuses, pc: Pcs, s: SemaId): set<Tid> {
    set t | t in status && status[t] != Blocked && PcOf(pc, t) == Downing(s)
  }

  ghost predicate PendingAt(semas: Semas, status: Statuses, pc: Pcs, s: SemaId) {
    SemaOf(semas, s).waiters != [] ==> SemaOf(semas, s).value <= |Woken(status, pc, s)|
  }

  /** While a thread waits for a semaphore, its value is at most the number of threads woken for it. */
  ghost predicate WakeupsPending(semas: Semas, status: Statuses, pc: Pcs) {
    forall s :: PendingAt(semas, status, pc, s)
  }

  ghost predicate Accounted(semas: Semas) {
    forall s | s in semas :: semas[s].value == semas[s].init + semas[s].ups - semas[s].downs
  }

  ghost predicate DownsKnown(semas: Semas, pc: Pcs) {
    forall t :: PcOf(pc, t).Downing? ==> PcOf(pc, t).s in semas
  }

  lemma DownsMove(semas: Semas, pc: Pcs, c: Tid, next: Pc, semas': Semas)
    requires DownsKnown(semas, pc) && semas.Keys <= semas'.Keys && (next.Downing? ==> next.s in semas')
    ensures DownsKnown(semas', pc[c := next])
  {
    var pc' := pc[c := next];
    forall t ensures PcOf(pc', t).Downing? ==> PcOf(pc', t).s in semas' {
      assert PcOf(pc, t).Downing? ==> PcOf(pc, t).s in semas;
    }
  }

  lemma PendingFrame(idle: Tid, semas: Semas, s1: Statuses, s2: Statuses, pc: Pcs)
    requires WakeupsPending(semas, s1, pc) && SameBlocked(idle, s1, s2) && PcOf(pc, idle) == IdleLoop
    ensures WakeupsPending(semas, s2, pc)
  {
    forall s ensures PendingAt(semas, s2, pc, s) {
      assert PendingAt(semas, s1, pc, s);
      assert Woken(s1, pc, s) == Woken(s2, pc, s);
    }
  }

  /** A step of thread c outside sema_down. */
  lemma PendingMove(semas: Semas, status: Statuses, pc: Pcs, c: Tid, next: Pc)
    requires WakeupsPending(semas, status, pc) && !PcOf(pc, c).Downing? && !next.Downing?
    ensures WakeupsPending(semas, status, pc[c := next])
  {
    var pc' := pc[c := next];
    forall s ensures PendingAt(semas, status, pc', s) {
      assert PendingAt(semas, status, pc, s);
      assert Woken(status, pc, s) == Woken(status, pc', s);
    }
  }

  /** Thread c takes a unit of s: woken for it, or barging in. */
  lemma PendingTake(semas: Semas, status: Statuses, pc: Pcs, c: Tid, s: SemaId, next: Pc)
    requires WakeupsPending(semas, status, pc) && !next.Downing? && SemaOf(semas, s).value > 0
    requires PcOf(pc, c).Downing? ==> PcOf(pc, c) == Downing(s) && c in status && status[c] != Blocked
    ensures var m := SemaOf(semas, s);
      WakeupsPending(semas[s := m.(value := m.value - 1, downs := m.downs + 1)], status, pc[c := next])
  {
    var m := SemaOf(semas, s);
    var semas' := semas[s := m.(value := m.value - 1, downs := m.downs + 1)];
    var pc' := pc[c := next];
    forall x ensures PendingAt(semas', status, pc', x) {
      assert PendingAt(semas, status, pc, x);
      assert Woken(status, pc', x) == Woken(status, pc, x) - if PcOf(pc, c) == Downing(x) then {c} else {};
    }
  }

  /** Thread c waits for s, which has no unit. */
  lemma PendingWait(semas: Semas, status: Statuses, pc: Pcs, c: Tid, s: SemaId, waiters: seq<Tid>)
    requires WakeupsPending(semas, status, pc) && SemaOf(semas, s).value == 0
    requires PcOf(pc, c).Downing? ==> PcOf(pc, c) == Downing(s)
    ensures WakeupsPending(semas[s := SemaOf(semas, s).(waiters := waiters)], status[c := Blocked], pc[c := Downing(s)])
  {
    var semas' := semas[s := SemaOf(semas, s).(waiters := waiters)];
    var status', pc' := status[c := Blocked], pc[c := Downing(s)];
    forall x ensures PendingAt(semas', status', pc', x) {
      assert PendingAt(semas, status, pc, x);
      if x != s {
        assert Woken(status, pc, x) == Woken(status', pc', x);
      }
    }
  }

  /** A unit is added; if somebody waits, thread t is woken. */
  lemma PendingWake(semas: Semas, status: Statuses, pc: Pcs, t: Tid, s: SemaId, waiters: seq<Tid>)
    requires WakeupsPending(semas, status, pc) && Waits(status, pc, t, s) && SemaOf(semas, s).waiters != []
    ensures var m := SemaOf(semas, s);
      WakeupsPending(semas[s := m.(value := m.value + 1, ups := m.ups + 1, waiters := waiters)], status[t := Ready], pc)
  {
    var m := SemaOf(semas, s);
    var semas' := semas[s := m.(value := m.value + 1, ups := m.ups + 1, waiters := waiters)];
    var status' := status[t := Ready];
    hide Woken;
    forall x ensures PendingAt(semas', status', pc, x) {
      assert PendingAt(semas, status, pc, x);
      WokenWake(status, pc, t, s, x);
    }
  }

  lemma WokenWake(status: Statuses, pc: Pcs, t: Tid, s: SemaId, x: SemaId)
    requires Waits(status, pc, t, s)
    ensures |Woken(status[t := Ready], pc, x)| == |Woken(status, pc, x)| + if x == s then 1 else 0
  {
    assert Woken(status[t := Ready], pc, x) == Woken(status, pc, x) + if x == s then {t} else {};
  }
}
