/** The sleep queue (devices/timer.c). */
module Sleeping {
  import opened OrderedList
  import opened Kernel
  import opened Scheduling
  import opened Pending

  predicate Asleep(p: Pc, t: Tid) {
    p == SleepQueued || p == Downing(Sleep(t))
  }

  /** A thread that queued itself either is still on the list, once, with nothing in its semaphore, or
      has been taken off it in time and finds one unit there.  Every other thread is off the list, with
      nothing in its semaphore.  Only the thread itself waits for its semaphore. */
  ghost predicate SleeperAt(semas: Semas, pc: Pcs, waitList: seq<Tid>, wakeup: map<Tid, int>, ticks: int, t: Tid) {
    var v, p := SemaOf(semas, Sleep(t)).value, PcOf(pc, t);
    && (Asleep(p, t) ==>
         (Count(waitList, t) == 1 && v == 0) || (Count(waitList, t) == 0 && v == 1 && KeyOf(wakeup, t) <= ticks))
    && (!Asleep(p, t) ==> Count(waitList, t) == 0 && v == 0)
    && (p.Downing? && p.s.Sleep? ==> p.s.t == t)
    && SemaOf(semas, Sleep(t)).init == 0
  }

  ghost predicate SleepersOk(semas: Semas, pc: Pcs, waitList: seq<Tid>, wakeup: map<Tid, int>, ticks: int) {
    && (forall t :: SleeperAt(semas, pc, waitList, wakeup, ticks, t))
    && Sorted(EarliestFirst, waitList, wakeup)
  }

  lemma SleepFrame(semas: Semas, semas': Semas, pc: Pcs, waitList: seq<Tid>, wakeup: map<Tid, int>, ticks: int)
    requires SleepersOk(semas, pc, waitList, wakeup, ticks)
    requires forall t :: SemaOf(semas', Sleep(t)).value == SemaOf(semas, Sleep(t)).value
    requires forall t :: SemaOf(semas', Sleep(t)).init == SemaOf(semas, Sleep(t)).init
    ensures SleepersOk(semas', pc, waitList, wakeup, ticks)
  {
    forall t ensures SleeperAt(semas', pc, waitList, wakeup, ticks, t) {
      assert SleeperAt(semas, pc, waitList, wakeup, ticks, t);
    }
  }

  predicate Neutral(p: Pc) {
    p != SleepQueued && !(p.Downing? && p.s.Sleep?)
  }

  lemma SleepMove(semas: Semas, pc: Pcs, waitList: seq<Tid>, wakeup: map<Tid, int>, ticks: int, c: Tid, next: Pc)
    requires SleepersOk(semas, pc, waitList, wakeup, ticks) && Neutral(PcOf(pc, c)) && Neutral(next)
    ensures SleepersOk(semas, pc[c := next], waitList, wakeup, ticks)
  {
    var pc' := pc[c := next];
    forall t ensures SleeperAt(semas, pc', waitList, wakeup, ticks, t) {
      assert SleeperAt(semas, pc, waitList, wakeup, ticks, t);
    }
  }

  /** A sleeper that finds its unit does not return early, and leaves nothing behind. */
  lemma SleepTake(semas: Semas, pc: Pcs, waitList: seq<Tid>, wakeup: map<Tid, int>, ticks: int, c: Tid, m: Sema)
    requires SleepersOk(semas, pc, waitList, wakeup, ticks) && Asleep(PcOf(pc, c), c)
    requires SemaOf(semas, Sleep(c)).value > 0 && m.value == SemaOf(semas, Sleep(c)).value - 1 && m.init == 0
    ensures KeyOf(wakeup, c) <= ticks
    ensures SleepersOk(semas[Sleep(c) := m], pc[c := Client], waitList, wakeup, ticks)
  {
    var semas', pc' := semas[Sleep(c) := m], pc[c := Client];
    assert SleeperAt(semas, pc, waitList, wakeup, ticks, c);
    forall t ensures SleeperAt(semas', pc', waitList, wakeup, ticks, t) {
      assert SleeperAt(semas, pc, waitList, wakeup, ticks, t);
    }
  }

  lemma SleepWait(semas: Semas, pc: Pcs, waitList: seq<Tid>, wakeup: map<Tid, int>, ticks: int, c: Tid)
    requires SleepersOk(semas, pc, waitList, wakeup, ticks) && Asleep(PcOf(pc, c), c)
    ensures SleepersOk(semas, pc[c := Downing(Sleep(c))], waitList, wakeup, ticks)
  {
    var pc' := pc[c := Downing(Sleep(c))];
    forall t ensures SleeperAt(semas, pc', waitList, wakeup, ticks, t) {
      assert SleeperAt(semas, pc, waitList, wakeup, ticks, t);
    }
  }

  lemma SortedFrame(waitList: seq<Tid>, wakeup: map<Tid, int>, c: Tid, time: int)
    requires Sorted(EarliestFirst, waitList, wakeup) && Count(waitList, c) == 0
    ensures Sorted(EarliestFirst, waitList, wakeup[c := time])
  {
    forall i | 0 <= i < |waitList| ensures KeyOf(wakeup[c := time], waitList[i]) == KeyOf(wakeup, waitList[i]) {
      assert waitList[i] in multiset(waitList);
    }
  }

  lemma SleepSetWakeup(semas: Semas, pc: Pcs, waitList: seq<Tid>, wakeup: map<Tid, int>, ticks: int, c: Tid, time: int)
    requires SleepersOk(semas, pc, waitList, wakeup, ticks) && Neutral(PcOf(pc, c))
    ensures SleepersOk(semas, pc, waitList, wakeup[c := time], ticks)
  {
    assert SleeperAt(semas, pc, waitList, wakeup, ticks, c);
    var wakeup' := wakeup[c := time];
    forall t ensures SleeperAt(semas, pc, waitList, wakeup', ticks, t) {
      assert SleeperAt(semas, pc, waitList, wakeup, ticks, t);
    }
    SortedFrame(waitList, wakeup, c, time);
  }

  lemma SleepQueue(semas: Semas, pc: Pcs, waitList: seq<Tid>, wakeup: map<Tid, int>, ticks: int, c: Tid)
    requires SleepersOk(semas, pc, waitList, wakeup, ticks) && PcOf(pc, c) == SleepSet
    ensures SleepersOk(semas, pc[c := SleepQueued], InsertOrdered(EarliestFirst, waitList, c, wakeup), wakeup, ticks)
  {
    var pc', waitList' := pc[c := SleepQueued], InsertOrdered(EarliestFirst, waitList, c, wakeup);
    forall t ensures SleeperAt(semas, pc', waitList', wakeup, ticks, t) {
      assert SleeperAt(semas, pc, waitList, wakeup, ticks, t);
      InsertCount(EarliestFirst, waitList, c, wakeup, t);
    }
    InsertSorts(EarliestFirst, waitList, c, wakeup);
  }

  /** The interrupt handler ups the semaphore of the first sleeper, whose time has come: it was never
      upped before for this sleep. */
  lemma SleepWake(semas: Semas, pc: Pcs, waitList: seq<Tid>, wakeup: map<Tid, int>, ticks: int, m: Sema)
    requires SleepersOk(semas, pc, waitList, wakeup, ticks)
    requires waitList != [] && KeyOf(wakeup, waitList[0]) <= ticks && m.value
      == SemaOf(semas, Sleep(waitList[0])).value + 1
      && m.init == 0
    ensures SemaOf(semas, Sleep(waitList[0])).value == 0 && Asleep(PcOf(pc, waitList[0]), waitList[0])
    ensures SleepersOk(semas[Sleep(waitList[0]) := m], pc, waitList[1..], wakeup, ticks)
  {
    var c := waitList[0];
    var semas', waitList' := semas[Sleep(c) := m], waitList[1..];
    assert waitList == [c] + waitList';
    assert Count(waitList, c) > 0;
    assert SleeperAt(semas, pc, waitList, wakeup, ticks, c);
    forall t ensures SleeperAt(semas', pc, waitList', wakeup, ticks, t) {
      assert SleeperAt(semas, pc, waitList, wakeup, ticks, t);
      assert Count(waitList, t) == Count(waitList', t) + if t == c then 1 else 0;
    }
  }

  lemma SleepTick(semas: Semas, pc: Pcs, waitList: seq<Tid>, wakeup: map<Tid, int>, ticks: int)
    requires SleepersOk(semas, pc, waitList, wakeup, ticks)
    ensures SleepersOk(semas, pc, waitList, wakeup, ticks + 1)
  {
    var next := ticks + 1;
    forall t ensures SleeperAt(semas, pc, waitList, wakeup, next, t) {
      assert SleeperAt(semas, pc, waitList, wakeup, ticks, t);
    }
  }
}
