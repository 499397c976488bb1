/** Every step keeps the discipline of the queues, semaphores, locks and the sleep queue; so every run
    does. */
module Invariant {
  import opened Options
  import opened OrderedList
  import opened Kernel
  import opened Scheduling
  import opened Pending
  import opened Locking
  import opened Sleeping
  import opened Donation

  ghost predicate SameKeys(k: State) {
    k.status.Keys == k.pri.Keys == k.pc.Keys
  }

  ghost predicate Waiting(k: State) {
    && IdleAlive(k.idle, k.status, k.pc)
    && WaitersListed(k.semas, k.status, k.pc)
    && BlockedInDown(k.idle, k.status, k.pc)
    && WakeupsPending(k.semas, k.status, k.pc)
    && Accounted(k.semas)
    && DownsKnown(k.semas, k.pc)
  }

  ghost predicate Owning(k: State) {
    && LocksCounted(k.semas, k.holder, k.held, k.pc)
    && HoldersListed(k.holder, k.held, k.pc)
  }

  ghost predicate Dozing(k: State) {
    SleepersOk(k.semas, k.pc, k.waitList, k.wakeup, k.ticks)
  }

  ghost predicate Running(k: State) {
    && ReadyListed(k.ready, k.idle, k.status)
    && OneRunning(k.current, k.status)
  }

  ghost predicate Inv(k: State) {
    SameKeys(k) && Running(k) && Waiting(k) && Owning(k) && Dozing(k)
  }

  // ---- threads ----

  /** What is left to show after schedule. */
  lemma AfterSchedule(k: State, k': State)
    requires SameKeys(k) && Waiting(k) && Owning(k) && Dozing(k) && Running(k')
    requires SameBlocked(k.idle, k.status, k'.status) && SameDying(k.status, k'.status)
    requires k' == k.(current := k'.current, ready := k'.ready, status := k'.status, slice := 0)
    ensures Inv(k')
  {
    WaitersFrame(k.idle, k.semas, k.status, k'.status, k.pc);
    BlockedFrame(k.idle, k.status, k'.status, k.pc);
    PendingFrame(k.idle, k.semas, k.status, k'.status, k.pc);
  }

  lemma InvYield(k: State)
    requires Inv(k)
    ensures Inv(Yield(k)) && Outranked(Yield(k))
  {
    YieldRuns(k);
    AfterSchedule(k, Yield(k));
  }

  lemma InvExit(k: State)
    requires Inv(k) && PcOf(k.pc, k.current) == Client
    ensures Inv(Schedule(k.(status := k.status[k.current := Dying])))
    ensures Outranked(Schedule(k.(status := k.status[k.current := Dying])))
  {
    var k1 := k.(status := k.status[k.current := Dying]);
    assert SameBlocked(k.idle, k.status, k1.status);
    forall t ensures Count(k1.ready, t) == if t in k1.status && t != k1.idle && k1.status[t] == Ready then 1 else 0 {}
    WaitersFrame(k.idle, k.semas, k.status, k1.status, k.pc);
    PendingFrame(k.idle, k.semas, k.status, k1.status, k.pc);
    ScheduleRuns(k1);
    AfterSchedule(k1, Schedule(k1));
  }

  lemma InvIdleBlock(k: State)
    requires Inv(k) && PcOf(k.pc, k.current) == IdleLoop
    ensures Inv(Block(k, IdleLoop)) && Outranked(Block(k, IdleLoop))
  {
    assert k.pc[k.current := IdleLoop] == k.pc;
    BlockRuns(k, IdleLoop);
    var k1 := k.(status := k.status[k.current := Blocked]);
    WaitersFrame(k.idle, k.semas, k.status, k1.status, k.pc);
    PendingFrame(k.idle, k.semas, k.status, k1.status, k.pc);
    AfterSchedule(k1, Block(k, IdleLoop));
  }

  lemma CreateQueues(k: State, t: Tid, pri: map<Tid, int>)
    requires Running(k) && t !in k.status && t != k.idle
    ensures ReadyListed(InsertOrdered(HighestFirst, k.ready, t, pri), k.idle, k.status[t := Ready])
    ensures OneRunning(k.current, k.status[t := Ready])
  {
    var ready', status' := InsertOrdered(HighestFirst, k.ready, t, pri), k.status[t := Ready];
    forall x ensures Count(ready', x) == if x in status' && x != k.idle && status'[x] == Ready then 1 else 0 {
      InsertCount(HighestFirst, k.ready, t, pri, x);
      assert Count(k.ready, x) == if x in k.status && x != k.idle && k.status[x] == Ready then 1 else 0;
    }
  }

  lemma CreateWaiting(k: State, t: Tid)
    requires SameKeys(k) && Waiting(k) && Dozing(k) && t !in k.status
    ensures Waiting(k.(status := k.status[t := Ready], pc := k.pc[t := Client],
                       semas := k.semas[Sleep(t) := Sema(0, [], 0, 0, 0)]))
  {
    var status', pc', semas' := k.status[t := Ready], k.pc[t := Client], k.semas[Sleep(t) := Sema(0, [], 0, 0, 0)];
    assert forall x :: PcOf(pc', x) == PcOf(k.pc, x);
    forall s, x ensures Count(SemaOf(semas', s).waiters, x) == if Waits(status', pc', x, s) then 1 else 0 {
      assert Count(SemaOf(k.semas, s).waiters, x) == if Waits(k.status, k.pc, x, s) then 1 else 0;
      assert SleeperAt(k.semas, k.pc, k.waitList, k.wakeup, k.ticks, x);
    }
    forall s ensures PendingAt(semas', status', pc', s) {
      assert PendingAt(k.semas, k.status, k.pc, s);
      assert Woken(status', pc', s) == Woken(k.status, k.pc, s);
    }
  }

  lemma CreateOwning(k: State, t: Tid)
    requires SameKeys(k) && Owning(k) && t !in k.status
    ensures Owning(k.(held := k.held[t := []], pc := k.pc[t := Client],
                      semas := k.semas[Sleep(t) := Sema(0, [], 0, 0, 0)]))
  {
    var held', pc', semas' := k.held[t := []], k.pc[t := Client], k.semas[Sleep(t) := Sema(0, [], 0, 0, 0)];
    forall x, l ensures HoldsAt(k.holder, held', pc', x, l) {
      assert HoldsAt(k.holder, k.held, k.pc, x, l);
    }
    forall x ensures Distinct(HeldOf(held', x)) {
      assert Distinct(HeldOf(k.held, x));
    }
    forall l | l in k.holder ensures CountedAt(semas', held', pc', l) {
      assert CountedAt(k.semas, k.held, k.pc, l);
      assert Insiders(held', pc', l) == Insiders(k.held, k.pc, l);
    }
  }

  lemma CreateDozing(k: State, t: Tid)
    requires SameKeys(k) && Dozing(k) && t !in k.status
    ensures Dozing(k.(wakeup := k.wakeup[t := 0], pc := k.pc[t := Client],
                      semas := k.semas[Sleep(t) := Sema(0, [], 0, 0, 0)]))
  {
    var semas' := k.semas[Sleep(t) := Sema(0, [], 0, 0, 0)];
    assert SleeperAt(k.semas, k.pc, k.waitList, k.wakeup, k.ticks, t);
    SleepSetWakeup(k.semas, k.pc, k.waitList, k.wakeup, k.ticks, t, 0);
    SleepMove(k.semas, k.pc, k.waitList, k.wakeup[t := 0], k.ticks, t, Client);
    SleepFrame(k.semas, semas', k.pc[t := Client], k.waitList, k.wakeup[t := 0], k.ticks);
  }

  lemma InvCreated(k: State, t: Tid, priority: int)
    requires Inv(k) && t !in k.status
    ensures Inv(Created(k, t, priority))
  {
    hide WaitersListed, WakeupsPending, ReadyListed, LocksCounted, BlockedInDown, SleepersOk, DownsKnown, Accounted,
      HoldersListed;
    CreateQueues(k, t, k.pri[t := priority]);
    CreateWaiting(k, t);
    CreateOwning(k, t);
    CreateDozing(k, t);
    assert Created(k, t, priority).status == k.status[t := Ready];
  }

  lemma InvCreate(k: State, t: Tid, priority: int)
    requires Inv(k) && t !in k.status
    ensures Inv(Create(k, t, priority))
    ensures Create(k, t, priority).current != k.current ==> Outranked(Create(k, t, priority))
  {
    hide Inv, Outranked, Yield;
    InvCreated(k, t, priority);
    if priority > KeyOf(k.pri, k.current) {
      InvYield(Created(k, t, priority));
    }
  }

  lemma InvPrioritySet(k: State, p: int)
    requires Inv(k)
    ensures Inv(PrioritySet(k, p)) && PrioritySet(k, p).current == k.current
  {
    hide ReadyListed, IdleAlive, WaitersListed, BlockedInDown, WakeupsPending, Accounted, DownsKnown, LocksCounted,
      HoldersListed, SleepersOk;
    if KeyOf(k.pri, k.current) == KeyOf(k.orig, k.current) {
    } else {
    }
  }

  lemma InvSetPriority(k: State, p: int)
    requires Inv(k)
    ensures Inv(SetPriority(k, p))
    ensures SetPriority(k, p).current != k.current ==> Outranked(SetPriority(k, p))
  {
    hide Inv, Outranked, Yield;
    InvPrioritySet(k, p);
    if p < KeyOf(k.pri, k.current) {
      InvYield(PrioritySet(k, p));
    }
  }

  // ---- semaphores ----

  /** A new semaphore. */
  lemma NewSemaWaiting(k: State, s: SemaId, v: nat)
    requires Waiting(k)
    requires forall t :: PcOf(k.pc, t) != Downing(s)
    ensures Waiting(k.(semas := k.semas[s := Sema(v, [], v, 0, 0)]))
  {
    var semas' := k.semas[s := Sema(v, [], v, 0, 0)];
    forall x, t ensures Count(SemaOf(semas', x).waiters, t) == if Waits(k.status, k.pc, t, x) then 1 else 0 {
      assert Count(SemaOf(k.semas, x).waiters, t) == if Waits(k.status, k.pc, t, x) then 1 else 0;
    }
    forall x ensures PendingAt(semas', k.status, k.pc, x) {
      assert PendingAt(k.semas, k.status, k.pc, x);
    }
  }

  lemma InvInitSema(k: State, n: int, v: nat)
    requires Inv(k) && Plain(n) !in k.semas
    ensures Inv(k.(semas := k.semas[Plain(n) := Sema(v, [], v, 0, 0)]))
  {
    NewSemaWaiting(k, Plain(n), v);
    var semas' := k.semas[Plain(n) := Sema(v, [], v, 0, 0)];
    LocksFrame(k.semas, semas', k.holder, k.held, k.pc);
    SleepFrame(k.semas, semas', k.pc, k.waitList, k.wakeup, k.ticks);
  }

  lemma InvInitLock(k: State, l: LockId)
    requires Inv(k) && l !in k.holder
    ensures Inv(k.(semas := k.semas[OfLock(l) := Sema(1, [], 1, 0, 0)], holder := k.holder[l := None],
                   maxPri := k.maxPri[l := PRI_MIN]))
  {
    forall t ensures PcOf(k.pc, t) != Downing(OfLock(l)) {
      assert HoldsAt(k.holder, k.held, k.pc, t, l);
    }
    NewSemaWaiting(k, OfLock(l), 1);
    LocksNew(k.semas, k.holder, k.held, k.pc, l);
    SleepFrame(k.semas, k.semas[OfLock(l) := Sema(1, [], 1, 0, 0)], k.pc, k.waitList, k.wakeup, k.ticks);
  }

  /** The running thread may be in, or about to enter, sema_down on s. */
  predicate MayDown(k: State, s: SemaId) {
    var p := PcOf(k.pc, k.current);
    || p == Downing(s)
    || (p == Client && s.Plain? && s in k.semas)
    || (s.OfLock? && p == Entered(s.l))
    || (s == Sleep(k.current) && p == SleepQueued)
  }

  lemma TakeWaiting(k: State, s: SemaId, after: Pc)
    requires SameKeys(k) && Running(k) && Waiting(k) && SemaOf(k.semas, s).value > 0
    requires PcOf(k.pc, k.current).Downing? ==> PcOf(k.pc, k.current) == Downing(s)
    requires PcOf(k.pc, k.current) != IdleLoop && !after.Downing? && after != IdleLoop
    ensures var m := SemaOf(k.semas, s);
      Waiting(k.(semas := k.semas[s := m.(value := m.value - 1, downs := m.downs + 1)], pc := k.pc[k.current := after]))
  {
    var m := SemaOf(k.semas, s);
    var semas', pc' := k.semas[s := m.(value := m.value - 1, downs := m.downs + 1)], k.pc[k.current := after];
    PendingTake(k.semas, k.status, k.pc, k.current, s, after);
    IdleMove(k.idle, k.status, k.pc, k.current, after);
    DownsMove(k.semas, k.pc, k.current, after, semas');
    forall x, t ensures Count(SemaOf(semas', x).waiters, t) == if Waits(k.status, pc', t, x) then 1 else 0 {
      assert Count(SemaOf(k.semas, x).waiters, t) == if Waits(k.status, k.pc, t, x) then 1 else 0;
    }
  }

  lemma TakeOwning(k: State, s: SemaId)
    requires SameKeys(k) && Running(k) && Owning(k) && SemaOf(k.semas, s).value > 0 && MayDown(k, s)
    ensures var m := SemaOf(k.semas, s);
      Owning(k.(semas := k.semas[s := m.(value := m.value - 1, downs := m.downs + 1)],
                pc := k.pc[k.current := AfterDown(s)]))
  {
    var m := SemaOf(k.semas, s);
    var semas' := k.semas[s := m.(value := m.value - 1, downs := m.downs + 1)];
    if s.OfLock? {
      assert HoldsAt(k.holder, k.held, k.pc, k.current, s.l);
      hide LocksCounted, HoldersListed, ReadyListed;
      LocksTake(k.semas, k.holder, k.held, k.pc, k.current, s.l, Downed(s.l));
    } else {
      LocksFrame(k.semas, semas', k.holder, k.held, k.pc);
      LocksMove(semas', k.holder, k.held, k.pc, k.current, AfterDown(s));
    }
    HoldersMove(k.holder, k.held, k.pc, k.current, AfterDown(s));
  }

  lemma TakeDozing(k: State, s: SemaId)
    requires Dozing(k) && SemaOf(k.semas, s).value > 0 && MayDown(k, s)
    ensures var m := SemaOf(k.semas, s);
      Dozing(k.(semas := k.semas[s := m.(value := m.value - 1, downs := m.downs + 1)],
                pc := k.pc[k.current := AfterDown(s)]))
    ensures s.Sleep? ==> s.t == k.current && KeyOf(k.wakeup, k.current) <= k.ticks
  {
    var m := SemaOf(k.semas, s);
    var m' := m.(value := m.value - 1, downs := m.downs + 1);
    assert SleeperAt(k.semas, k.pc, k.waitList, k.wakeup, k.ticks, k.current);
    if s.Sleep? {
      SleepTake(k.semas, k.pc, k.waitList, k.wakeup, k.ticks, k.current, m');
    } else {
      SleepFrame(k.semas, k.semas[s := m'], k.pc, k.waitList, k.wakeup, k.ticks);
      SleepMove(k.semas[s := m'], k.pc, k.waitList, k.wakeup, k.ticks, k.current, AfterDown(s));
    }
  }

  lemma WaitWaiting(k: State, s: SemaId, waiters: seq<Tid>)
    requires SameKeys(k) && Running(k) && Waiting(k) && SemaOf(k.semas, s).value == 0 && MayDown(k, s)
    requires waiters == InsertOrdered(HighestFirst, SemaOf(k.semas, s).waiters, k.current, k.pri)
    ensures var m := SemaOf(k.semas, s);
      Waiting(k.(semas := k.semas[s := m.(waiters := waiters)], status := k.status[k.current := Blocked],
                 pc := k.pc[k.current := Downing(s)]))
  {
    PendingWait(k.semas, k.status, k.pc, k.current, s, waiters);
    IdleMove(k.idle, k.status[k.current := Blocked], k.pc, k.current, Downing(s));
    DownsMove(k.semas, k.pc, k.current, Downing(s), k.semas[s := SemaOf(k.semas, s).(waiters := waiters)]);
    EnqueueWaiter(k.semas, k.status, k.pc, k.current, s, k.pri);
  }

  lemma WaitOwning(k: State, s: SemaId, waiters: seq<Tid>)
    requires SameKeys(k) && Running(k) && Owning(k) && MayDown(k, s)
    ensures Owning(k.(semas := k.semas[s := SemaOf(k.semas, s).(waiters := waiters)],
                      pc := k.pc[k.current := Downing(s)]))
  {
    var semas' := k.semas[s := SemaOf(k.semas, s).(waiters := waiters)];
    LocksFrame(k.semas, semas', k.holder, k.held, k.pc);
    LocksMove(semas', k.holder, k.held, k.pc, k.current, Downing(s));
    if s.OfLock? {
      assert HoldsAt(k.holder, k.held, k.pc, k.current, s.l);
    }
    HoldersMove(k.holder, k.held, k.pc, k.current, Downing(s));
  }

  lemma WaitDozing(k: State, s: SemaId, waiters: seq<Tid>)
    requires Dozing(k) && MayDown(k, s)
    ensures Dozing(k.(semas := k.semas[s := SemaOf(k.semas, s).(waiters := waiters)],
                      pc := k.pc[k.current := Downing(s)]))
  {
    var semas' := k.semas[s := SemaOf(k.semas, s).(waiters := waiters)];
    SleepFrame(k.semas, semas', k.pc, k.waitList, k.wakeup, k.ticks);
    assert SleeperAt(k.semas, k.pc, k.waitList, k.wakeup, k.ticks, k.current);
    if s.Sleep? {
      SleepWait(semas', k.pc, k.waitList, k.wakeup, k.ticks, k.current);
    } else {
      SleepMove(semas', k.pc, k.waitList, k.wakeup, k.ticks, k.current, Downing(s));
    }
  }

  lemma InvWait(k: State, s: SemaId)
    requires Inv(k) && MayDown(k, s) && SemaOf(k.semas, s).value == 0
    ensures Inv(Down(k, s, AfterDown(s))) && Outranked(Down(k, s, AfterDown(s)))
  {
    hide Outranked;
    var m := SemaOf(k.semas, s);
    var waiters := InsertOrdered(HighestFirst, m.waiters, k.current, k.pri);
    WaitWaiting(k, s, waiters);
    WaitOwning(k, s, waiters);
    WaitDozing(k, s, waiters);
    var k1 := k.(semas := k.semas[s := m.(waiters := waiters)]);
    BlockRuns(k1, Downing(s));
    AfterSchedule(k1.(status := k.status[k.current := Blocked], pc := k.pc[k.current := Downing(s)]),
                  Block(k1, Downing(s)));
  }

  lemma InvDown(k: State, s: SemaId)
    requires Inv(k) && MayDown(k, s)
    ensures var k' := Down(k, s, AfterDown(s));
      Inv(k') && (k'.current != k.current ==> Outranked(k'))
  {
    hide Outranked;
    if SemaOf(k.semas, s).value == 0 {
      InvWait(k, s);
    } else {
      TakeWaiting(k, s, AfterDown(s));
      TakeOwning(k, s);
      TakeDozing(k, s);
    }
  }

  // ---- moves outside sema_down ----

  /** A step of the running thread between positions outside sema_down. */
  lemma MoveWaiting(k: State, next: Pc)
    requires SameKeys(k) && Waiting(k) && k.current in k.status
    requires !PcOf(k.pc, k.current).Downing? && !next.Downing? && PcOf(k.pc, k.current) != IdleLoop && next != IdleLoop
    requires k.status[k.current] != Blocked
    ensures Waiting(k.(pc := k.pc[k.current := next]))
  {
    var pc' := k.pc[k.current := next];
    IdleMove(k.idle, k.status, k.pc, k.current, next);
    PendingMove(k.semas, k.status, k.pc, k.current, next);
    DownsMove(k.semas, k.pc, k.current, next, k.semas);
    forall x, t ensures Count(SemaOf(k.semas, x).waiters, t) == if Waits(k.status, pc', t, x) then 1 else 0 {
      assert Count(SemaOf(k.semas, x).waiters, t) == if Waits(k.status, k.pc, t, x) then 1 else 0;
    }
  }

  lemma MoveDozing(k: State, next: Pc)
    requires Dozing(k) && Neutral(PcOf(k.pc, k.current)) && Neutral(next)
    ensures Dozing(k.(pc := k.pc[k.current := next]))
  {
    SleepMove(k.semas, k.pc, k.waitList, k.wakeup, k.ticks, k.current, next);
  }

  lemma InvTryDownPlain(k: State, n: int)
    requires Inv(k) && PcOf(k.pc, k.current) == Client && Plain(n) in k.semas
    ensures Inv(TryDown(k, Plain(n), Client))
  {
    if SemaOf(k.semas, Plain(n)).value > 0 {
      InvDown(k, Plain(n));
    }
  }

  lemma InvTryLock(k: State, l: LockId)
    requires Inv(k) && PcOf(k.pc, k.current) == Client && l in k.holder && HolderOf(k.holder, l) != Some(k.current)
    ensures Inv(TryDown(k, OfLock(l), TryDowned(l)))
  {
    hide WaitersListed, WakeupsPending, ReadyListed, LocksCounted, BlockedInDown, SleepersOk, DownsKnown, Accounted;
    var m := SemaOf(k.semas, OfLock(l));
    if m.value > 0 {
      var m' := m.(value := m.value - 1, downs := m.downs + 1);
      assert HoldsAt(k.holder, k.held, k.pc, k.current, l);
      TakeWaiting(k, OfLock(l), TryDowned(l));
      LocksTake(k.semas, k.holder, k.held, k.pc, k.current, l, TryDowned(l));
      HoldersMove(k.holder, k.held, k.pc, k.current, TryDowned(l));
      SleepFrame(k.semas, k.semas[OfLock(l) := m'], k.pc, k.waitList, k.wakeup, k.ticks);
      MoveDozing(k.(semas := k.semas[OfLock(l) := m']), TryDowned(l));
    }
  }

  lemma WakeWaited(k: State, s: SemaId)
    requires SameKeys(k) && Running(k) && Waiting(k) && SemaOf(k.semas, s).waiters != []
    ensures SameKeys(Wake(k, s)) && Running(Wake(k, s)) && Waiting(Wake(k, s))
  {
    hide WaitersListed, WakeupsPending, ReadyListed, InsertOrdered, StableSort, PcOf;
    var m := SemaOf(k.semas, s);
    var sorted := StableSort(HighestFirst, m.waiters, k.pri);
    DequeueWaiter(k.semas, k.status, k.pc, s, k.pri, m.value + 1, m.ups + 1);
    assert sorted[0] != k.idle;
    UnblockLists(k, sorted[0]);
    PendingWake(k.semas, k.status, k.pc, sorted[0], s, sorted[1..]);
  }

  lemma WakeWaiting(k: State, s: SemaId)
    requires SameKeys(k) && Running(k) && Waiting(k)
    ensures SameKeys(Wake(k, s)) && Running(Wake(k, s)) && Waiting(Wake(k, s))
  {
    if SemaOf(k.semas, s).waiters != [] {
      WakeWaited(k, s);
    } else {
      UpUnwaited(k, s);
    }
  }

  lemma UpUnwaited(k: State, s: SemaId)
    requires Waiting(k) && SemaOf(k.semas, s).waiters == []
    ensures var m := SemaOf(k.semas, s);
      Waiting(k.(semas := k.semas[s := m.(value := m.value + 1, ups := m.ups + 1, waiters := [])]))
  {
    var m := SemaOf(k.semas, s);
    var semas' := k.semas[s := m.(value := m.value + 1, ups := m.ups + 1, waiters := [])];
    forall x, t ensures Count(SemaOf(semas', x).waiters, t) == if Waits(k.status, k.pc, t, x) then 1 else 0 {
      assert Count(SemaOf(k.semas, x).waiters, t) == if Waits(k.status, k.pc, t, x) then 1 else 0;
    }
    forall x ensures PendingAt(semas', k.status, k.pc, x) {
      assert PendingAt(k.semas, k.status, k.pc, x);
    }
  }

  lemma InvWakePlain(k: State, n: int)
    requires Inv(k)
    ensures Inv(Wake(k, Plain(n)))
  {
    WakeWaiting(k, Plain(n));
    WakeKeepsTimer(k, Plain(n));
    LocksFrame(k.semas, Wake(k, Plain(n)).semas, k.holder, k.held, k.pc);
    SleepFrame(k.semas, Wake(k, Plain(n)).semas, k.pc, k.waitList, k.wakeup, k.ticks);
  }

  lemma InvUpPlain(k: State, n: int)
    requires Inv(k)
    ensures Inv(Up(k, Plain(n))) && Outranked(Up(k, Plain(n)))
  {
    hide Inv, Outranked, Wake, Yield;
    InvWakePlain(k, n);
    InvYield(Wake(k, Plain(n)));
  }

  // ---- locks ----

  lemma InvGetLock(k: State, l: LockId)
    requires Inv(k) && PcOf(k.pc, k.current) == Downed(l)
    ensures Inv(AcquireGot(k, l))
  {
    MoveWaiting(k, Got(l));
    LocksPush(k.semas, k.holder, k.held, k.pc, k.current, l);
    MoveDozing(k, Got(l));
  }

  lemma InvTryGetLock(k: State, l: LockId)
    requires Inv(k) && PcOf(k.pc, k.current) == TryDowned(l)
    ensures Inv(TryAcquireGot(k, l))
  {
    MoveWaiting(k, Got(l));
    LocksPush(k.semas, k.holder, k.held, k.pc, k.current, l);
    MoveDozing(k, Got(l));
  }

  lemma InvStoreHolder(k: State, l: LockId)
    requires Inv(k) && PcOf(k.pc, k.current) == Got(l)
    ensures Inv(SetHolder(k, l))
  {
    MoveWaiting(k, Client);
    LocksStore(k.semas, k.holder, k.held, k.pc, k.current, l);
    MoveDozing(k, Client);
  }

  lemma InvBeginRelease(k: State, l: LockId)
    requires Inv(k) && PcOf(k.pc, k.current) == Client && l in k.holder && HolderOf(k.holder, l) == Some(k.current)
    ensures Inv(ReleaseUpdate(k, l))
  {
    MoveWaiting(k, Releasing(l));
    LocksRelease(k.semas, k.holder, k.held, k.pc, k.current, l);
    MoveDozing(k, Releasing(l));
  }

  lemma GiveOwning(k: State, l: LockId, semas': Semas)
    requires SameKeys(k) && Running(k) && Owning(k) && PcOf(k.pc, k.current) == Releasing(l)
    requires SemaOf(semas', OfLock(l)).value == SemaOf(k.semas, OfLock(l)).value + 1
    requires forall x | x != OfLock(l) :: SemaOf(semas', x) == SemaOf(k.semas, x)
    ensures Owning(k.(semas := semas', pc := k.pc[k.current := Client]))
  {
    assert HoldsAt(k.holder, k.held, k.pc, k.current, l);
    var m := SemaOf(k.semas, OfLock(l));
    LocksGive(k.semas, k.holder, k.held, k.pc, k.current, l, []);
    LocksFrame(k.semas[OfLock(l) := m.(value := m.value + 1, ups := m.ups + 1, waiters := [])], semas',
               k.holder, k.held, k.pc[k.current := Client]);
    HoldersMove(k.holder, k.held, k.pc, k.current, Client);
  }

  lemma InvGive(k: State, l: LockId)
    requires Inv(k) && PcOf(k.pc, k.current) == Releasing(l)
    ensures Inv(Wake(k.(pc := k.pc[k.current := Client]), OfLock(l)))
  {
    var k1 := k.(pc := k.pc[k.current := Client]);
    MoveWaiting(k, Client);
    MoveDozing(k, Client);
    WakeWaiting(k1, OfLock(l));
    WakeKeepsTimer(k1, OfLock(l));
    GiveOwning(k, l, Wake(k1, OfLock(l)).semas);
    SleepFrame(k.semas, Wake(k1, OfLock(l)).semas, k1.pc, k.waitList, k.wakeup, k.ticks);
  }

  lemma InvEndRelease(k: State, l: LockId)
    requires Inv(k) && PcOf(k.pc, k.current) == Releasing(l)
    ensures Inv(Up(k.(pc := k.pc[k.current := Client]), OfLock(l)))
    ensures Outranked(Up(k.(pc := k.pc[k.current := Client]), OfLock(l)))
  {
    hide Inv, Outranked, Wake, Yield;
    InvGive(k, l);
    InvYield(Wake(k.(pc := k.pc[k.current := Client]), OfLock(l)));
  }

  lemma HoldersAreThreads(k: State)
    requires SameKeys(k) && Owning(k)
    ensures HoldersKnown(k)
  {
    forall x ensures match BlockerOf(k, x) case None => true case Some(h) => h in k.status {
      match BlockerOf(k, x)
      case None =>
      case Some(h) => assert HoldsAt(k.holder, k.held, k.pc, h, k.blockedBy[x].value);
    }
  }

  lemma EnterLineMoves(k: State, l: LockId)
    requires Inv(k) && PcOf(k.pc, k.current) == Client && l in k.holder && HolderOf(k.holder, l) != Some(k.current)
    ensures Inv(k.(blockedBy := k.blockedBy[k.current := Some(l)], pc := k.pc[k.current := Entered(l)]))
  {
    assert HoldsAt(k.holder, k.held, k.pc, k.current, l);
    MoveWaiting(k, Entered(l));
    LocksMove(k.semas, k.holder, k.held, k.pc, k.current, Entered(l));
    HoldersMove(k.holder, k.held, k.pc, k.current, Entered(l));
    MoveDozing(k, Entered(l));
  }

  lemma InvEnterLine(k: State, l: LockId)
    requires Inv(k) && PcOf(k.pc, k.current) == Client && l in k.holder && HolderOf(k.holder, l) != Some(k.current)
    ensures AcquireEnter(k, l).Next? ==> Inv(AcquireEnter(k, l).k)
  {
    hide WaitersListed, WakeupsPending, LocksCounted, BlockedInDown, IdleAlive, SleepersOk, DownsKnown, Accounted,
      HoldersListed, StableSort;
    EnterLineMoves(k, l);
    var c := k.current;
    var k1 := k.(blockedBy := k.blockedBy[c := Some(l)], pc := k.pc[c := Entered(l)]);
    var k2 := k1.(maxPri := k.maxPri[l := KeyOf(k.pri, c)]);
    HoldersAreThreads(k2);
    DonateRaises(k2, c, k2.pri);
    var d := Donate(k2, c, k2.pri);
    if d.Donated? {
      SortCounts(HighestFirst, k.ready, d.pri);
      var sorted := StableSort(HighestFirst, k.ready, d.pri);
      forall t ensures Count(sorted, t) == Count(k.ready, t) {}
    }
  }

  // ---- the timer ----

  lemma InvSleepFor(k: State, n: int)
    requires Inv(k) && PcOf(k.pc, k.current) == Client
    ensures Inv(SetWakeup(k, n))
  {
    hide WaitersListed, WakeupsPending, ReadyListed, LocksCounted, BlockedInDown, IdleAlive, SleepersOk, DownsKnown,
      Accounted, HoldersListed;
    MoveWaiting(k, SleepSet);
    LocksMove(k.semas, k.holder, k.held, k.pc, k.current, SleepSet);
    HoldersMove(k.holder, k.held, k.pc, k.current, SleepSet);
    SleepSetWakeup(k.semas, k.pc, k.waitList, k.wakeup, k.ticks, k.current, n + k.ticks);
    MoveDozing(k.(wakeup := k.wakeup[k.current := n + k.ticks]), SleepSet);
  }

  lemma InvQueueSleeper(k: State)
    requires Inv(k) && PcOf(k.pc, k.current) == SleepSet
    ensures Inv(Enqueue(k))
  {
    MoveWaiting(k, SleepQueued);
    LocksMove(k.semas, k.holder, k.held, k.pc, k.current, SleepQueued);
    HoldersMove(k.holder, k.held, k.pc, k.current, SleepQueued);
    SleepQueue(k.semas, k.pc, k.waitList, k.wakeup, k.ticks, k.current);
  }

  lemma WakeKeepsTimer(k: State, s: SemaId)
    ensures Wake(k, s).waitList == k.waitList && Wake(k, s).wakeup == k.wakeup && Wake(k, s).ticks == k.ticks
    ensures Wake(k, s).current == k.current
    ensures forall x | x != s :: SemaOf(Wake(k, s).semas, x) == SemaOf(k.semas, x)
    ensures SemaOf(Wake(k, s).semas, s).value == SemaOf(k.semas, s).value + 1
    ensures SemaOf(Wake(k, s).semas, s).init == SemaOf(k.semas, s).init
    ensures Wake(k, s).pc == k.pc && Wake(k, s).holder == k.holder && Wake(k, s).held == k.held
  {
    if SemaOf(k.semas, s).waiters == [] {
    } else {
    }
  }

  /** Waking the first sleeper. */
  lemma InvWakeFirst(k: State)
    requires Inv(k) && k.waitList != [] && KeyOf(k.wakeup, k.waitList[0]) <= k.ticks
    ensures Inv(Wake(k.(waitList := k.waitList[1..]), Sleep(k.waitList[0])))
  {
    var k1 := k.(waitList := k.waitList[1..]);
    var s := Sleep(k.waitList[0]);
    WakeWaiting(k1, s);
    WakeKeepsTimer(k1, s);
    WakeFirstDozes(k, Wake(k1, s));
  }

  lemma WakeFirstDozes(k: State, k2: State)
    requires Owning(k) && Dozing(k) && k.waitList != [] && KeyOf(k.wakeup, k.waitList[0]) <= k.ticks
    requires k2.waitList == k.waitList[1..] && k2.wakeup == k.wakeup && k2.ticks == k.ticks
    requires k2.pc == k.pc && k2.holder == k.holder && k2.held == k.held
    requires forall x | x != Sleep(k.waitList[0]) :: SemaOf(k2.semas, x) == SemaOf(k.semas, x)
    requires SemaOf(k2.semas, Sleep(k.waitList[0])).value == SemaOf(k.semas, Sleep(k.waitList[0])).value + 1
    requires SemaOf(k2.semas, Sleep(k.waitList[0])).init == SemaOf(k.semas, Sleep(k.waitList[0])).init
    ensures Owning(k2) && Dozing(k2)
  {
    var s := Sleep(k.waitList[0]);
    LocksFrame(k.semas, k2.semas, k.holder, k.held, k.pc);
    assert SleeperAt(k.semas, k.pc, k.waitList, k.wakeup, k.ticks, k.waitList[0]);
    SleepWake(k.semas, k.pc, k.waitList, k.wakeup, k.ticks, SemaOf(k2.semas, s));
    SleepFrame(k.semas[s := SemaOf(k2.semas, s)], k2.semas, k.pc, k2.waitList, k.wakeup, k.ticks);
  }

  lemma {:induction false} InvWakeExpired(k: State)
    requires Inv(k)
    ensures Inv(WakeExpired(k)) && WakeExpired(k).current == k.current
    decreases |k.waitList|
  {
    if k.waitList != [] && KeyOf(k.wakeup, k.waitList[0]) <= k.ticks {
      InvWakeFirst(k);
      WakeKeepsTimer(k.(waitList := k.waitList[1..]), Sleep(k.waitList[0]));
      InvWakeExpired(Wake(k.(waitList := k.waitList[1..]), Sleep(k.waitList[0])));
    }
  }

  /** From k to k', exactly the sleepers with a wake-up time of at most `now` left the sleep list. */
  ghost predicate Took(k: State, k': State, now: int) {
    && k'.ticks == now && k'.wakeup == k.wakeup
    && |k'.waitList| <= |k.waitList| && k'.waitList == k.waitList[|k.waitList| - |k'.waitList|..]
    && (forall i | 0 <= i < |k.waitList| ::
          KeyOf(k.wakeup, k.waitList[i]) <= now <==> i < |k.waitList| - |k'.waitList|)
  }

  lemma TookFirst(k: State, k1: State, k': State, now: int)
    requires k.waitList != [] && KeyOf(k.wakeup, k.waitList[0]) <= now
    requires k1.waitList == k.waitList[1..] && k1.wakeup == k.wakeup && Took(k1, k', now)
    ensures Took(k, k', now)
  {
    forall i | 0 < i < |k.waitList| ensures k.waitList[i] == k1.waitList[i - 1] {}
  }

  /** The handler takes the sleepers whose time has come off the front of the list, and only them. */
  lemma {:induction false} WakeExpiredTakes(k: State)
    requires Sorted(EarliestFirst, k.waitList, k.wakeup)
    ensures Took(k, WakeExpired(k), k.ticks)
    decreases |k.waitList|
  {
    if k.waitList == [] {
    } else if KeyOf(k.wakeup, k.waitList[0]) > k.ticks {
      forall i | 0 <= i < |k.waitList| ensures KeyOf(k.wakeup, k.waitList[i]) > k.ticks {
        assert i > 0 ==> !Before(EarliestFirst, k.wakeup, k.waitList[i], k.waitList[0]);
      }
    } else {
      var k1 := Wake(k.(waitList := k.waitList[1..]), Sleep(k.waitList[0]));
      WakeKeepsTimer(k.(waitList := k.waitList[1..]), Sleep(k.waitList[0]));
      WakeExpiredTakes(k1);
      TookFirst(k, k1, WakeExpired(k1), k.ticks);
    }
  }

  lemma ScheduleKeepsTimer(k: State)
    ensures Schedule(k).waitList == k.waitList && Schedule(k).wakeup == k.wakeup && Schedule(k).ticks == k.ticks
  {
    if k.ready == [] {} else {}
  }

  lemma YieldKeepsTimer(k: State)
    ensures Yield(k).waitList == k.waitList && Yield(k).wakeup == k.wakeup && Yield(k).ticks == k.ticks
  {
    var k1 := if k.current != k.idle then k.(ready := InsertOrdered(HighestFirst, k.ready, k.current, k.pri)) else k;
    ScheduleKeepsTimer(k1.(status := k1.status[k.current := Ready]));
  }

  lemma InvTicked(k: State)
    requires Inv(k)
    ensures Inv(k.(ticks := k.ticks + 1, slice := k.slice + 1))
  {
    SleepTick(k.semas, k.pc, k.waitList, k.wakeup, k.ticks);
  }

  lemma InvReturn(k: State, yielding: bool)
    requires Inv(k)
    ensures Inv(ReturnFromInterrupt(k, yielding))
    ensures ReturnFromInterrupt(k, yielding).current != k.current ==> Outranked(ReturnFromInterrupt(k, yielding))
  {
    hide Inv, Outranked, Yield;
    if yielding {
      InvYield(k);
    }
  }

  lemma InvTick(k: State)
    requires Inv(k)
    ensures Inv(Tick(k)) && (Tick(k).current != k.current ==> Outranked(Tick(k)))
  {
    hide Inv, WakeExpired, ReturnFromInterrupt, Outranked;
    var k1 := k.(ticks := k.ticks + 1, slice := k.slice + 1);
    InvTicked(k);
    InvWakeExpired(k1);
    InvReturn(WakeExpired(k1), k1.slice >= TIME_SLICE || WakeExpired(k1).waitList != k1.waitList);
  }

  /** A tick takes exactly the sleepers whose time has come off the list. */
  lemma TickTakes(k: State)
    requires Sorted(EarliestFirst, k.waitList, k.wakeup)
    ensures Took(k, Tick(k), k.ticks + 1)
  {
    hide WakeExpired, Yield;
    var k1 := k.(ticks := k.ticks + 1, slice := k.slice + 1);
    WakeExpiredTakes(k1);
    var k2 := WakeExpired(k1);
    if k1.slice >= TIME_SLICE || k2.waitList != k1.waitList {
      YieldKeepsTimer(k2);
    } else {
    }
  }
}
