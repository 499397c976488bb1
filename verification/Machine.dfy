/** The thread, synchronization and timer functions as the kernel runs them: methods that update the
    kernel's variables in place, each shown to take the step that module Kernel defines. */
module Machine {
  import opened Options
  import opened OrderedList
  import opened MergeSort
  import opened Kernel

  /** list_max: the value of the greatest key, by a walk over the list. */
  method ListMax(s: seq<int>, key: map<int, int>, none: int) returns (m: int)
    ensures m == MaxKey(s, key, none)
  {
    if s == [] { return none; }
    m := KeyOf(key, s[0]);
    var e := 1;
    while e < |s|
      invariant 1 <= e <= |s|
      invariant m == MaxKey(s[..e], key, none)
    {
      assert s[..e + 1][..e] == s[..e];
      if m < KeyOf(key, s[e]) {
        m := KeyOf(key, s[e]);
      }
      e := e + 1;
    }
    assert s[..e] == s;
  }

  /** Who waits for whom does not depend on priorities. */
  lemma SameChain(k: State, pri: map<Tid, int>)
    ensures forall t :: BlockerOf(k.(pri := pri), t) == BlockerOf(k, t) && StatusOf(k.(pri := pri), t) == StatusOf(k, t)
  {
  }

  /** One turn of the loop of update_priorities. */
  lemma DonateOnce(k: State, t: Tid, pri: map<Tid, int>)
    requires k.status.Keys == pri.Keys
    ensures KeyOf(k.orig, t) > KeyOf(pri, t) ==> Donate(k, t, pri) == AssertionFailure
    ensures KeyOf(k.orig, t) <= KeyOf(pri, t) ==>
      match BlockerOf(k, t)
      case None => Donate(k, t, pri) == Donated(pri, false)
      case Some(b) =>
        var next := pri[b := KeyOf(pri, t)];
        && (KeyOf(k.orig, b) > KeyOf(pri, b) ==> Donate(k, t, pri) == AssertionFailure)
        && (KeyOf(k.orig, b) <= KeyOf(pri, b) && KeyOf(pri, b) >= KeyOf(pri, t) ==>
             Donate(k, t, pri) == Donated(pri, false))
        && (KeyOf(k.orig, b) <= KeyOf(pri, b) < KeyOf(pri, t) && StatusOf(k, b) != Blocked ==>
              Donate(k, t, pri) == Donated(next, true))
        && (KeyOf(k.orig, b) <= KeyOf(pri, b) < KeyOf(pri, t) && StatusOf(k, b) == Blocked ==>
              next.Keys == pri.Keys && Lower(next, b) < Lower(pri, t) && Donate(k, t, pri) == Donate(k, b, next))
  {
    match BlockerOf(k, t)
    case None =>
    case Some(b) =>
      if KeyOf(pri, b) < KeyOf(pri, t) && StatusOf(k, b) == Blocked {
        LowerShrinks(pri, t, b);
      }
  }

  lemma WakeExpiredOnce(k: State)
    ensures WakeExpired(k) == if k.waitList == [] || KeyOf(k.wakeup, k.waitList[0]) > k.ticks then k
                              else WakeExpired(Wake(k.(waitList := k.waitList[1..]), Sleep(k.waitList[0])))
  {
  }

  class Computer {
    var current: Tid
    var idle: Tid
    var status: map<Tid, Status>
    var pri: map<Tid, int>
    var orig: map<Tid, int>
    var blockedBy: map<Tid, Option<LockId>>
    var held: map<Tid, seq<LockId>>
    var pc: map<Tid, Pc>
    var wakeup: map<Tid, int>
    var ready: seq<Tid>
    var semas: map<SemaId, Sema>
    var holder: map<LockId, Option<Tid>>
    var maxPri: map<LockId, int>
    var ticks: int
    var slice: nat
    var waitList: seq<Tid>

    function View(): State
      reads this
    {
      State(current, idle, status, pri, orig, blockedBy, held, pc, wakeup, ready, semas, holder, maxPri, ticks, slice,
            waitList)
    }

    constructor Start(main: Tid, idleThread: Tid)
      ensures View() == Boot(main, idleThread)
    {
      current, idle := main, idleThread;
      status := map[main := Running, idleThread := Blocked];
      pri := map[main := PRI_DEFAULT, idleThread := PRI_MIN];
      orig := map[main := PRI_DEFAULT, idleThread := PRI_MIN];
      blockedBy := map[main := None, idleThread := None];
      held := map[main := [], idleThread := []];
      pc := map[main := Client, idleThread := IdleLoop];
      wakeup := map[main := 0, idleThread := 0];
      semas := map[Sleep(main) := Sema(0, [], 0, 0, 0), Sleep(idleThread) := Sema(0, [], 0, 0, 0)];
      ready, holder, maxPri, ticks, slice, waitList := [], map[], map[], 0, 0, [];
    }

    method ScheduleNext()
      modifies this
      ensures View() == Schedule(old(View()))
    {
      hide StableSort;
      if ready == [] {
        current := idle;
      } else {
        SortReadyList();
        current, ready := ready[0], ready[1..];
      }
      status := status[current := Running];
      slice := 0;
    }

    method SortReadyList()
      modifies this
      ensures var k := old(View()); View() == k.(ready := StableSort(HighestFirst, k.ready, k.pri))
    {
      hide StableSort;
      ready := ListSort(HighestFirst, ready, pri);
    }

    method ThreadBlock(at: Pc)
      modifies this
      ensures View() == Block(old(View()), at)
    {
      status := status[current := Blocked];
      pc := pc[current := at];
      ScheduleNext();
    }

    method ThreadUnblock(t: Tid)
      modifies this
      ensures View() == Unblock(old(View()), t)
      ensures waitList == old(waitList) && slice == old(slice) && ticks == old(ticks) && wakeup == old(wakeup)
    {
      ready := ListInsertOrdered(HighestFirst, ready, t, pri);
      status := status[t := Ready];
    }

    method ThreadYield()
      modifies this
      ensures View() == Yield(old(View()))
    {
      if current != idle {
        ready := ListInsertOrdered(HighestFirst, ready, current, pri);
      }
      status := status[current := Ready];
      ScheduleNext();
    }

    /** One pass of the loop of sema_down. */
    method SemaDown(s: SemaId, after: Pc)
      modifies this
      ensures View() == Down(old(View()), s, after)
    {
      var m := SemaOf(semas, s);
      if m.value == 0 {
        var waiters := ListInsertOrdered(HighestFirst, m.waiters, current, pri);
        semas := semas[s := m.(waiters := waiters)];
        ThreadBlock(Downing(s));
      } else {
        semas := semas[s := m.(value := m.value - 1, downs := m.downs + 1)];
        pc := pc[current := after];
      }
    }

    method SemaTryDown(s: SemaId, after: Pc) returns (success: bool)
      modifies this
      ensures View() == TryDown(old(View()), s, after)
      ensures success == (SemaOf(old(semas), s).value > 0)
    {
      var m := SemaOf(semas, s);
      if m.value > 0 {
        semas := semas[s := m.(value := m.value - 1, downs := m.downs + 1)];
        pc := pc[current := after];
        success := true;
      } else {
        success := false;
      }
    }

    method SemaWake(s: SemaId)
      modifies this
      ensures View() == Wake(old(View()), s)
      ensures waitList == old(waitList) && slice == old(slice) && ticks == old(ticks) && wakeup == old(wakeup)
    {
      var m := SemaOf(semas, s);
      if m.waiters != [] {
        var waiters := ListSort(HighestFirst, m.waiters, pri);
        m := m.(waiters := waiters[1..]);
        ThreadUnblock(waiters[0]);
      }
      semas := semas[s := m.(value := m.value + 1, ups := m.ups + 1)];
    }

    method SemaUp(s: SemaId)
      modifies this
      ensures View() == Up(old(View()), s)
    {
      SemaWake(s);
      ThreadYield();
    }

    /** update_priorities; `ok` is false where an assertion fails. */
    method UpdatePriorities(donor: Tid) returns (ok: bool)
      requires status.Keys == pri.Keys
      modifies this
      ensures var k := old(View());
        match Donate(k, donor, k.pri)
        case AssertionFailure => !ok
        case Donated(p, resort) =>
          ok && View() == k.(pri := p, ready := if resort then StableSort(HighestFirst, k.ready, p) else k.ready)
    {
      hide StableSort, InsertOrdered, Lower, Donate, BlockerOf, StatusOf, KeyOf;
      ghost var k := View();
      var t := Some(donor);
      while t.Some?
        invariant View() == k.(pri := pri)
        invariant t.Some? ==> k.status.Keys == pri.Keys && Donate(k, t.value, pri) == Donate(k, donor, k.pri)
        invariant t.None? ==> Donate(k, donor, k.pri) == Donated(pri, true)
        decreases t.Some?, if t.Some? then Lower(pri, t.value) else {}
      {
        DonateOnce(k, t.value, pri);
        SameChain(k, pri);
        if KeyOf(orig, t.value) > KeyOf(pri, t.value) { return false; }
        var blocker := BlockerOf(View(), t.value);
        if blocker.None? { return true; }
        var b := blocker.value;
        if KeyOf(orig, b) > KeyOf(pri, b) { return false; }
        if KeyOf(pri, b) >= KeyOf(pri, t.value) { return true; }
        pri := pri[b := KeyOf(pri, t.value)];
        SameChain(k, pri);
        t := if StatusOf(View(), b) == Blocked then blocker else None;
      }
      SortReadyList();
      ok := true;
    }

    method BeforeGettingInLine(l: LockId) returns (ok: bool)
      requires status.Keys == pri.Keys
      modifies this
      ensures match AcquireEnter(old(View()), l)
        case Next(k) => ok && View() == k
        case Panic => !ok
        case Disabled => false
    {
      blockedBy := blockedBy[current := Some(l)];
      pc := pc[current := Entered(l)];
      ok := true;
      if KeyOf(pri, current) > KeyOf(maxPri, l) {
        maxPri := maxPri[l := KeyOf(pri, current)];
        ok := UpdatePriorities(current);
      }
    }

    method UponGettingTheLock(l: LockId)
      modifies this
      ensures View() == AcquireGot(old(View()), l)
    {
      hide MaxKey, HeldOf, SemaOf;
      blockedBy := blockedBy[current := None];
      held := held[current := [l] + HeldOf(held, current)];
      var m := ListMax(SemaOf(semas, OfLock(l)).waiters, pri, PRI_MIN);
      maxPri := maxPri[l := m];
      pc := pc[current := Got(l)];
    }

    /** The interrupts-off part of lock_release, with update_thread_prio_based_on_locks_held. */
    method ReleaseLock(l: LockId)
      modifies this
      ensures View() == ReleaseUpdate(old(View()), l)
    {
      hide MaxKey, Without;
      holder := holder[l := None];
      held := held[current := Without(HeldOf(held, current), l)];
      var own := KeyOf(orig, current);
      var donated := ListMax(HeldOf(held, current), maxPri, own);
      if donated > own {
        pri := pri[current := donated];
      } else {
        pri := pri[current := own];
      }
      pc := pc[current := Releasing(l)];
    }

    /** One turn of the loop of timer_interrupt. */
    method WakeFirstSleeper()
      requires waitList != []
      modifies this
      ensures var k := old(View()); View() == Wake(k.(waitList := k.waitList[1..]), Sleep(k.waitList[0]))
      ensures waitList == old(waitList)[1..]
    {
      var t := waitList[0];
      waitList := waitList[1..];
      SemaWake(Sleep(t));
    }

    /** The loop of timer_interrupt. */
    method WakeSleepers() returns (yieldOnReturn: bool)
      modifies this
      ensures View() == WakeExpired(old(View()))
      ensures yieldOnReturn == (waitList != old(waitList))
    {
      hide Wake, WakeExpired;
      yieldOnReturn := false;
      while waitList != [] && KeyOf(wakeup, waitList[0]) <= ticks
        invariant WakeExpired(View()) == WakeExpired(old(View()))
        invariant |waitList| <= old(|waitList|) && (|waitList| == old(|waitList|) ==> waitList == old(waitList))
        invariant yieldOnReturn == (waitList != old(waitList))
        decreases |waitList|
      {
        WakeExpiredOnce(View());
        WakeFirstSleeper();
        yieldOnReturn := true;
      }
      WakeExpiredOnce(View());
    }

    /** timer_interrupt, with thread_tick. */
    method TimerInterrupt()
      modifies this
      ensures View() == Tick(old(View()))
    {
      hide WakeExpired, Yield;
      ticks := ticks + 1;
      slice := slice + 1;
      var sliceOver := slice >= TIME_SLICE;
      var woken := WakeSleepers();
      if sliceOver || woken {
        ThreadYield();
      }
    }

    /** timer_sleep up to its sema_down. */
    method TimerSleep(n: int)
      modifies this
      ensures View() == Enqueue(SetWakeup(old(View()), n))
    {
      hide *;
      SetWakeupTime(n);
      JoinWaitList();
    }

    method SetWakeupTime(n: int)
      modifies this
      ensures View() == SetWakeup(old(View()), n)
    {
      wakeup := wakeup[current := n + ticks];
      pc := pc[current := SleepSet];
    }

    /** The part of timer_sleep with interrupts off. */
    method JoinWaitList()
      modifies this
      ensures View() == Enqueue(old(View()))
    {
      hide InsertOrdered;
      waitList := ListInsertOrdered(EarliestFirst, waitList, current, wakeup);
      pc := pc[current := SleepQueued];
    }

    method ThreadSetPriority(p: int)
      modifies this
      ensures View() == SetPriority(old(View()), p)
    {
      var before := KeyOf(pri, current);
      if before == KeyOf(orig, current) {
        pri := pri[current := p];
      }
      orig := orig[current := p];
      if p < before {
        ThreadYield();
      }
    }
  }
}
