/** What holds in every run of the kernel. */
module Guarantees {
  import opened Options
  import opened OrderedList
  import opened Kernel
  import opened Scheduling
  import opened Pending
  import opened Locking
  import opened Sleeping
  import opened Donation
  import opened Invariant

  /** A run takes the steps `es` from k to k'. */
  ghost predicate Reaches(k: State, es: seq<Event>, k': State) {
    if es == [] then k' == k
    else exists m :: Reaches(k, es[..|es| - 1], m) && SameThreads(m) && Step(m, es[|es| - 1]) == Next(k')
  }

  lemma StaysCurrent(k: State, e: Event)
    requires SameThreads(k) && Step(k, e).Next?
    requires e.InitSema? || e.InitLock? || e.TryDownPlain? || e.EnterLine? || e.GetLock? || e.StoreHolder? || e.TryLock?
      || e.TryGetLock? || e.BeginRelease? || e.SleepFor? || e.QueueSleeper?
    ensures Step(k, e).k.current == k.current
  {
    hide Donate, InsertOrdered, StableSort;
    match e
    case TryDownPlain(n) => if SemaOf(k.semas, Plain(n)).value > 0 {} else {}
    case TryLock(l) => if SemaOf(k.semas, OfLock(l)).value > 0 {} else {}
    case _ =>
  }

  /** Every step keeps the invariant, and a thread that it switches to is outranked by no ready thread. */
  lemma InvStep(k: State, e: Event)
    requires Inv(k)
    ensures var r := Step(k, e); r.Next? ==> Inv(r.k) && (r.k.current != k.current ==> Outranked(r.k))
  {
    hide Create, SetPriority, Yield, Schedule, Block, Unblock, Down, TryDown, Up, Wake, AcquireEnter, AcquireGot,
      TryAcquireGot, SetHolder, ReleaseUpdate, Tick, Enqueue, KeyOf, Waiting, Owning, Dozing, OneRunning, ReadyListed,
      Outranked;
    var c := k.current;
    var at := PcOf(k.pc, c);
    if Step(k, e).Next? {
      match e
      case CreateThread(t, priority) => InvCreate(k, t, priority);
      case ExitThread => InvExit(k);
      case YieldCpu => InvYield(k);
      case ChangePriority(p) => InvSetPriority(k, p);
      case InitSema(n, v) => InvInitSema(k, n, v); StaysCurrent(k, e);
      case InitLock(l) => InvInitLock(k, l); StaysCurrent(k, e);
      case DownPlain(n) => InvDown(k, Plain(n));
      case TryDownPlain(n) => InvTryDownPlain(k, n); StaysCurrent(k, e);
      case UpPlain(n) => InvUpPlain(k, n);
      case Resume => InvDown(k, at.s);
      case EnterLine(l) => InvEnterLine(k, l); StaysCurrent(k, e);
      case DownLock => InvDown(k, OfLock(at.l));
      case GetLock => InvGetLock(k, at.l); StaysCurrent(k, e);
      case StoreHolder => InvStoreHolder(k, at.l); StaysCurrent(k, e);
      case TryLock(l) => InvTryLock(k, l); StaysCurrent(k, e);
      case TryGetLock => InvTryGetLock(k, at.l); StaysCurrent(k, e);
      case BeginRelease(l) => InvBeginRelease(k, l); StaysCurrent(k, e);
      case EndRelease => InvEndRelease(k, at.l);
      case SleepFor(n) => InvSleepFor(k, n); StaysCurrent(k, e);
      case QueueSleeper => InvQueueSleeper(k); StaysCurrent(k, e);
      case DownSleep => InvDown(k, Sleep(c));
      case TimerTick => InvTick(k);
      case IdleBlock => InvIdleBlock(k);
    }
  }

  lemma InvBoot(main: Tid, idle: Tid)
    requires main != idle
    ensures Inv(Boot(main, idle))
  {
    BootWaits(main, idle);
    BootOwnsAndSleeps(main, idle);
    hide Waiting, Owning, Dozing;
  }

  lemma BootWaits(main: Tid, idle: Tid)
    requires main != idle
    ensures Waiting(Boot(main, idle))
  {
    var k := Boot(main, idle);
    forall s ensures PendingAt(k.semas, k.status, k.pc, s) {}
  }

  lemma BootOwnsAndSleeps(main: Tid, idle: Tid)
    requires main != idle
    ensures Owning(Boot(main, idle)) && Dozing(Boot(main, idle))
  {
    var k := Boot(main, idle);
    forall t ensures SleeperAt(k.semas, k.pc, k.waitList, k.wakeup, k.ticks, t) {}
    forall t, l ensures HoldsAt(k.holder, k.held, k.pc, t, l) {}
    assert forall t :: HeldOf(k.held, t) == [];
  }

  lemma {:induction false} InvRun(k: State, es: seq<Event>, k': State)
    requires Inv(k) && Reaches(k, es, k')
    ensures Inv(k')
  {
    if es != [] {
      var m :| Reaches(k, es[..|es| - 1], m) && SameThreads(m) && Step(m, es[|es| - 1]) == Next(k');
      InvRun(k, es[..|es| - 1], m);
      InvStep(m, es[|es| - 1]);
    }
  }

  /** k is reached in some run of the kernel. */
  ghost predicate Reachable(k: State) {
    exists main, es, idle :: main != idle && Reaches(Boot(main, idle), es, k)
  }

  lemma InvReachable(k: State)
    requires Reachable(k)
    ensures Inv(k)
  {
    hide Inv;
    var main, es, idle :| main != idle && Reaches(Boot(main, idle), es, k);
    InvBoot(main, idle);
    InvRun(Boot(main, idle), es, k);
  }

  /** Exactly one thread is running; every other thread that is ready is on the ready list, once, unless
      it is the idle thread; every blocked thread but the idle one is on one wait list, once; and a
      thread is on no list for any other reason. */
  lemma QueueDiscipline(k: State, t: Tid)
    requires Reachable(k) && t in k.status
    ensures k.status[t] == Running <==> t == k.current
    ensures Count(k.ready, t) == if t != k.idle && k.status[t] == Ready then 1 else 0
    ensures t != k.idle && k.status[t] == Blocked ==> exists s ::
      && s in k.semas && Count(k.semas[s].waiters, t) == 1 && forall s' | s' in k.semas
      && s' != s :: Count(k.semas[s'].waiters, t) == 0
    ensures t == k.idle || k.status[t] != Blocked ==> forall s | s in k.semas :: Count(k.semas[s].waiters, t) == 0
  {
    InvReachable(k);
    forall s | s in k.semas ensures Count(k.semas[s].waiters, t) == if Waits(k.status, k.pc, t, s) then 1 else 0 {
      assert Count(SemaOf(k.semas, s).waiters, t) == if Waits(k.status, k.pc, t, s) then 1 else 0;
    }
    if t != k.idle && k.status[t] == Blocked {
      var s := PcOf(k.pc, t).s;
      assert s in k.semas && Count(k.semas[s].waiters, t) == 1;
    }
  }

  /** A semaphore's value is what the completed operations make it.  While a thread waits for it, the
      value is at most the number of threads that were woken for it and have not run since; so if it is
      positive, one of them is running or on the ready list, and will test it. */
  lemma NoLostWakeup(k: State, s: SemaId)
    requires Reachable(k) && s in k.semas
    ensures var m := k.semas[s]; m.value == m.init + m.ups - m.downs
    ensures k.semas[s].waiters != [] ==> k.semas[s].value <= |Woken(k.status, k.pc, s)|
    ensures k.semas[s].waiters != [] && k.semas[s].value > 0 ==> exists t | t in k.status ::
      PcOf(k.pc, t) == Downing(s) && (t == k.current || Count(k.ready, t) == 1)
  {
    InvReachable(k);
    assert PendingAt(k.semas, k.status, k.pc, s);
    if k.semas[s].waiters != [] && k.semas[s].value > 0 {
      assert Woken(k.status, k.pc, s) != {};
      var t :| t in Woken(k.status, k.pc, s);
      assert t in k.status && PcOf(k.pc, t) == Downing(s);
    }
  }

  /** A lock's semaphore and the threads past its acquire-side sema_down and before its release-side
      sema_up make one.  So nobody else is inside while a holder is stored, and the lock is on the list
      of at most one thread, which is the holder once that is stored. */
  lemma LockOwnership(k: State, l: LockId)
    requires Reachable(k) && l in k.holder
    ensures SemaOf(k.semas, OfLock(l)).value + |Insiders(k.held, k.pc, l)| == 1
    ensures k.holder[l].Some? ==>
      Insiders(k.held, k.pc, l) == {k.holder[l].value} && l in HeldOf(k.held, k.holder[l].value)
    ensures forall t | l in HeldOf(k.held, t) ::
      Insiders(k.held, k.pc, l) == {t} && (k.holder[l] == Some(t) || (k.holder[l] == None && PcOf(k.pc, t) == Got(l)))
  {
    InvReachable(k);
    assert CountedAt(k.semas, k.held, k.pc, l);
    if k.holder[l].Some? {
      var t := k.holder[l].value;
      assert HoldsAt(k.holder, k.held, k.pc, t, l);
      OnlyInsider(k.semas, k.holder, k.held, k.pc, l, t, t);
    }
    forall t | l in HeldOf(k.held, t)
      ensures Insiders(k.held, k.pc, l) == {t}
      ensures (k.holder[l] == Some(t) || (k.holder[l] == None && PcOf(k.pc, t) == Got(l)))
    {
      assert HoldsAt(k.holder, k.held, k.pc, t, l);
      OnlyInsider(k.semas, k.holder, k.held, k.pc, l, t, t);
      if k.holder[l].Some? {
        assert HoldsAt(k.holder, k.held, k.pc, k.holder[l].value, l);
        assert k.holder[l].value in Insiders(k.held, k.pc, l);
      }
    }
  }

  /** Sleeping, over every interleaving with ticks.  The sleep list is sorted.  A thread returns from the
      sema_down of timer_sleep only when its time has come.  While it sleeps it is on the list, or its
      semaphore was upped once for this sleep, and then it can run.  Over all its sleeps the semaphore was
      upped once each, but for a sleep that still waits for its time. */
  lemma SleepersServed(k: State, t: Tid)
    requires Reachable(k) && t in k.status
    ensures Sorted(EarliestFirst, k.waitList, k.wakeup) && Count(k.waitList, t) <= 1
    ensures Asleep(PcOf(k.pc, t), t) && Count(k.waitList, t) == 0 ==>
      KeyOf(k.wakeup, t) <= k.ticks && k.status[t] != Blocked && SemaOf(k.semas, Sleep(t)).value == 1
    ensures SemaOf(k.semas, Sleep(t)).ups == SemaOf(k.semas, Sleep(t)).downs
      + if Asleep(PcOf(k.pc, t), t) && Count(k.waitList, t) == 0 then 1 else 0
    ensures Asleep(PcOf(k.pc, t), t) && SemaOf(k.semas, Sleep(t)).value > 0 ==> KeyOf(k.wakeup, t) <= k.ticks
  {
    InvReachable(k);
    assert SleeperAt(k.semas, k.pc, k.waitList, k.wakeup, k.ticks, t);
    var s := Sleep(t);
    if Asleep(PcOf(k.pc, t), t) && Count(k.waitList, t) == 0 && k.status[t] == Blocked {
      BlockedSleeperWaits(k, t);
    }
  }

  /** A blocked sleeper is still on the list. */
  lemma BlockedSleeperWaits(k: State, t: Tid)
    requires Inv(k) && t in k.status && k.status[t] == Blocked && Asleep(PcOf(k.pc, t), t)
    ensures Count(k.waitList, t) == 1
  {
    var s := Sleep(t);
    assert SleeperAt(k.semas, k.pc, k.waitList, k.wakeup, k.ticks, t);
    assert t != k.idle && PcOf(k.pc, t) == Downing(s);
    assert Count(SemaOf(k.semas, s).waiters, t) == 1;
    assert PendingAt(k.semas, k.status, k.pc, s);
    forall x ensures x !in Woken(k.status, k.pc, s) {
      assert SleeperAt(k.semas, k.pc, k.waitList, k.wakeup, k.ticks, x);
    }
    assert Woken(k.status, k.pc, s) == {};
  }

  // ---- priorities ----

  /** After the interrupts-off part of lock_release the thread's priority is the greatest of its
      original one and those that the locks it still holds give it: the original one if there are none. */
  lemma ReleasePriority(k: State, l: LockId)
    requires Inv(k) && HolderOf(k.holder, l) == Some(k.current)
    ensures var k' := ReleaseUpdate(k, l); var c := k.current;
      && (forall x :: x in HeldOf(k'.held, c) <==> x in HeldOf(k.held, c) && x != l)
      && KeyOf(k'.pri, c) >= KeyOf(k.orig, c)
      && (forall x | x in HeldOf(k'.held, c) :: KeyOf(k'.pri, c) >= KeyOf(k.maxPri, x))
      && (KeyOf(k'.pri, c) == KeyOf(k.orig, c)
          || exists x | x in HeldOf(k'.held, c) :: KeyOf(k'.pri, c) == KeyOf(k.maxPri, x))
      && (forall t | t != c :: KeyOf(k'.pri, t) == KeyOf(k.pri, t) && HeldOf(k'.held, t) == HeldOf(k.held, t))
  {
    var held := HeldOf(k.held, k.current);
    WithoutDistinct(held, l);
    MaxIsGreatest(Without(held, l), k.maxPri, KeyOf(k.orig, k.current));
  }

  lemma {:induction false} MaxIsGreatest(s: seq<int>, key: map<int, int>, none: int)
    ensures forall x | x in s :: KeyOf(key, x) <= MaxKey(s, key, none)
    ensures if s == [] then MaxKey(s, key, none) == none else exists x | x in s :: KeyOf(key, x) == MaxKey(s, key, none)
  {
    if |s| > 1 {
      MaxIsGreatest(s[..|s| - 1], key, none);
      assert s == s[..|s| - 1] + [s[|s| - 1]];
    } else if |s| == 1 {
      assert s[0] in s && KeyOf(key, s[0]) == MaxKey(s, key, none);
    } else {
      assert s == [];
    }
  }

  /** thread_set_priority keeps original priorities below current ones exactly if no donation is in
      effect or the new priority is not above the donated one. */
  lemma SetPriorityKeepsOrder(k: State, p: int)
    requires OriginalsBelow(k, k.pri)
    ensures OriginalsBelow(PrioritySet(k, p), PrioritySet(k, p).pri) <==>
      KeyOf(k.pri, k.current) == KeyOf(k.orig, k.current) || p <= KeyOf(k.pri, k.current)
  {
    var c := k.current;
    var k' := PrioritySet(k, p);
    if KeyOf(k.pri, c) == KeyOf(k.orig, c) {
      forall x ensures KeyOf(k'.orig, x) <= KeyOf(k'.pri, x) {
        assert KeyOf(k.orig, x) <= KeyOf(k.pri, x);
      }
    } else {
      assert KeyOf(k'.orig, c) == p && KeyOf(k'.pri, c) == KeyOf(k.pri, c);
      assert forall x | x != c :: KeyOf(k'.orig, x) == KeyOf(k.orig, x) <= KeyOf(k'.pri, x);
    }
  }

  /** thread_set_priority is called while no donation is in effect, or for a priority that is not above the
      donated one. */
  predicate Mild(k: State, e: Event) {
    e.ChangePriority? ==> KeyOf(k.pri, k.current) == KeyOf(k.orig, k.current) || e.p <= KeyOf(k.pri, k.current)
  }

  lemma DownKeepsPriorities(k: State, s: SemaId, after: Pc)
    ensures Down(k, s, after).pri == k.pri && Down(k, s, after).orig == k.orig
  {
    hide InsertOrdered, StableSort, Schedule;
    var m := SemaOf(k.semas, s);
    if m.value == 0 {
      ScheduleKeepsPriorities(k.(semas := k.semas[s := m.(waiters := InsertOrdered(HighestFirst, m.waiters, k.current,
                                                                                   k.pri))],
                                 status := k.status[k.current := Blocked], pc := k.pc[k.current := Downing(s)]));
    } else {
    }
  }

  lemma TryDownKeepsPriorities(k: State, s: SemaId, after: Pc)
    ensures TryDown(k, s, after).pri == k.pri && TryDown(k, s, after).orig == k.orig
  {
  }

  lemma ScheduleKeepsPriorities(k: State)
    ensures Schedule(k).pri == k.pri && Schedule(k).orig == k.orig
  {
    hide InsertOrdered, StableSort;
    if k.ready == [] {} else {}
  }

  lemma YieldKeepsPriorities(k: State)
    ensures Yield(k).pri == k.pri && Yield(k).orig == k.orig
  {
    hide InsertOrdered, Schedule;
    var k1 := if k.current != k.idle then k.(ready := InsertOrdered(HighestFirst, k.ready, k.current, k.pri)) else k;
    ScheduleKeepsPriorities(k1.(status := k1.status[k.current := Ready]));
  }

  lemma UpKeepsPriorities(k: State, s: SemaId)
    ensures Wake(k, s).pri == k.pri && Wake(k, s).orig == k.orig
    ensures Up(k, s).pri == k.pri && Up(k, s).orig == k.orig
  {
    hide InsertOrdered, StableSort, Yield;
    YieldKeepsPriorities(Wake(k, s));
    if SemaOf(k.semas, s).waiters == [] {} else {}
  }

  lemma {:induction false} WakeExpiredKeepsPriorities(k: State)
    ensures WakeExpired(k).pri == k.pri && WakeExpired(k).orig == k.orig
    decreases |k.waitList|
  {
    hide Wake;
    if k.waitList != [] && KeyOf(k.wakeup, k.waitList[0]) <= k.ticks {
      var k0 := k.(waitList := k.waitList[1..]);
      WakeKeepsTimer(k0, Sleep(k.waitList[0]));
      UpKeepsPriorities(k0, Sleep(k.waitList[0]));
      WakeExpiredKeepsPriorities(Wake(k0, Sleep(k.waitList[0])));
    }
  }

  lemma TickKeepsPriorities(k: State)
    ensures Tick(k).pri == k.pri && Tick(k).orig == k.orig
  {
    hide WakeExpired, Yield;
    WakeExpiredKeepsPriorities(k.(ticks := k.ticks + 1, slice := k.slice + 1));
    YieldKeepsPriorities(WakeExpired(k.(ticks := k.ticks + 1, slice := k.slice + 1)));
  }

  /** The steps that may change a priority, apart from thread_set_priority. */
  predicate MovesPriorities(e: Event) {
    e.CreateThread? || e.EnterLine? || e.BeginRelease?
  }

  lemma StepKeepsPriorities(k: State, e: Event)
    requires SameThreads(k) && !MovesPriorities(e) && !e.ChangePriority?
    ensures var r := Step(k, e); !r.Panic? && (r.Next? ==> r.k.pri == k.pri && r.k.orig == k.orig)
  {
    hide MaxKey, HeldOf, HolderOf, KeyOf, SemaOf, Without, InsertOrdered, StableSort, Yield, Schedule, Down, TryDown,
      Up, Wake, Tick,
      Donate, Create, Created, ReleaseUpdate, AcquireEnter, SetPriority;
    var c := k.current;
    var at := PcOf(k.pc, c);
    match e
    case ExitThread => ScheduleKeepsPriorities(k.(status := k.status[c := Dying]));
    case YieldCpu => YieldKeepsPriorities(k);
    case DownPlain(n) => DownKeepsPriorities(k, Plain(n), Client);
    case TryDownPlain(n) => TryDownKeepsPriorities(k, Plain(n), Client);
    case UpPlain(n) => UpKeepsPriorities(k, Plain(n));
    case Resume => if at.Downing? { DownKeepsPriorities(k, at.s, AfterDown(at.s)); }
    case DownLock => if at.Entered? { DownKeepsPriorities(k, OfLock(at.l), Downed(at.l)); }
    case TryLock(l) => TryDownKeepsPriorities(k, OfLock(l), TryDowned(l));
    case EndRelease => if at.Releasing? { UpKeepsPriorities(k.(pc := k.pc[c := Client]), OfLock(at.l)); }
    case DownSleep => DownKeepsPriorities(k, Sleep(c), Client);
    case TimerTick => TickKeepsPriorities(k);
    case IdleBlock => ScheduleKeepsPriorities(k.(status := k.status[c := Blocked], pc := k.pc[c := IdleLoop]));
    case _ =>
  }

  /** While original priorities are at most current ones no assertion of update_priorities fails, and a step
      keeps them so exactly if it is mild. */
  lemma StepKeepsOrder(k: State, e: Event)
    requires Inv(k) && OriginalsBelow(k, k.pri)
    ensures var r := Step(k, e); !r.Panic? && (r.Next? ==> (OriginalsBelow(r.k, r.k.pri) <==> Mild(k, e)))
  {
    hide *;
    assert SameThreads(k) by { SameThreadsIn(k); }
    assert !e.ChangePriority? ==> Mild(k, e) by { MildIs(k, e); }
    if MovesPriorities(e) {
      MovesKeepOrder(k, e);
      IsMove(e);
    } else if e.ChangePriority? {
      ChangeKeepsOrder(k, e.p);
    } else {
      StepKeepsPriorities(k, e);
      if Step(k, e).Next? { SameOrder(k, Step(k, e).k); }
    }
  }

  lemma MildIs(k: State, e: Event)
    ensures Mild(k, e) <==>
      (e.ChangePriority? ==> KeyOf(k.pri, k.current) == KeyOf(k.orig, k.current) || e.p <= KeyOf(k.pri, k.current))
  {
  }

  lemma ChangeKeepsOrder(k: State, p: int)
    requires SameThreads(k) && OriginalsBelow(k, k.pri)
    ensures var r := Step(k, ChangePriority(p));
      !r.Panic? && (r.Next? ==> (OriginalsBelow(r.k, r.k.pri) <==> Mild(k, ChangePriority(p))))
  {
    hide Yield, OriginalsBelow, PrioritySet;
    SetPriorityKeepsOrder(k, p);
    YieldKeepsPriorities(PrioritySet(k, p));
    if p < KeyOf(k.pri, k.current) {
      SameOrderIff(PrioritySet(k, p), Yield(PrioritySet(k, p)));
    } else {
    }
  }

  lemma SameOrderIff(k: State, k': State)
    requires k'.pri == k.pri && k'.orig == k.orig
    ensures OriginalsBelow(k', k'.pri) <==> OriginalsBelow(k, k.pri)
  {
  }

  lemma SameThreadsIn(k: State)
    requires Inv(k)
    ensures SameThreads(k)
  {
  }

  lemma MoveIs(k: State, e: Event)
    requires SameThreads(k) && MovesPriorities(e)
    ensures Step(k, e).Disabled? || match e
      case CreateThread(t, priority) => Step(k, e) == Next(Create(k, t, priority))
      case EnterLine(l) => Step(k, e) == AcquireEnter(k, l)
      case BeginRelease(l) => Step(k, e) == Next(ReleaseUpdate(k, l))
      case _ => true
  {
    hide Create, AcquireEnter, ReleaseUpdate;
  }

  lemma MovesKeepOrder(k: State, e: Event)
    requires Inv(k) && OriginalsBelow(k, k.pri) && MovesPriorities(e)
    ensures SameThreads(k)
    ensures var r := Step(k, e); !r.Panic? && (r.Next? ==> OriginalsBelow(r.k, r.k.pri))
  {
    hide *;
    SameThreadsIn(k);
    MoveIs(k, e);
    match e
    case CreateThread(t, priority) => CreateKeepsOrder(k, t, priority);
    case EnterLine(l) => EnterLineKeepsOrder(k, l);
    case BeginRelease(l) => ReleaseKeepsOrder(k, l);
    case _ => IsMove(e);
  }

  lemma IsMove(e: Event)
    requires MovesPriorities(e)
    ensures e.CreateThread? || e.EnterLine? || e.BeginRelease?
  {
  }

  lemma SameOrder(k: State, k': State)
    requires OriginalsBelow(k, k.pri) && k'.pri == k.pri && k'.orig == k.orig
    ensures OriginalsBelow(k', k'.pri)
  {
  }

  lemma CreateKeepsOrder(k: State, t: Tid, priority: int)
    requires OriginalsBelow(k, k.pri)
    ensures OriginalsBelow(Create(k, t, priority), Create(k, t, priority).pri)
  {
    hide InsertOrdered, Yield;
    YieldKeepsPriorities(Created(k, t, priority));
    var k' := Created(k, t, priority);
    forall x ensures KeyOf(k'.orig, x) <= KeyOf(k'.pri, x) {
      assert KeyOf(k.orig, x) <= KeyOf(k.pri, x);
    }
  }

  lemma ReleaseKeepsOrder(k: State, l: LockId)
    requires OriginalsBelow(k, k.pri)
    ensures OriginalsBelow(ReleaseUpdate(k, l), ReleaseUpdate(k, l).pri)
  {
    hide MaxKey, Without;
    var k' := ReleaseUpdate(k, l);
    forall x ensures KeyOf(k'.orig, x) <= KeyOf(k'.pri, x) {
      assert KeyOf(k.orig, x) <= KeyOf(k.pri, x);
    }
  }

  lemma EnterLineKeepsOrder(k: State, l: LockId)
    requires Inv(k) && OriginalsBelow(k, k.pri)
    ensures var r := AcquireEnter(k, l); r.Next? && OriginalsBelow(r.k, r.k.pri)
  {
    hide Donate, StableSort, Waiting, Dozing, ReadyListed;
    var c := k.current;
    var k2 := k.(blockedBy := k.blockedBy[c := Some(l)], pc := k.pc[c := Entered(l)],
                 maxPri := k.maxPri[l := KeyOf(k.pri, c)]);
    if KeyOf(k.pri, c) > KeyOf(k.maxPri, l) {
      forall x ensures match BlockerOf(k2, x) case None => true case Some(h) => h in k2.status {
        match BlockerOf(k2, x)
        case None =>
        case Some(h) => assert HoldsAt(k.holder, k.held, k.pc, h, k2.blockedBy[x].value);
      }
      DonateRaises(k2, c, k2.pri);
      var d := Donate(k2, c, k2.pri);
      forall x ensures KeyOf(k.orig, x) <= KeyOf(d.pri, x) {
        assert KeyOf(k.orig, x) <= KeyOf(k.pri, x);
      }
    } else {
    }
  }

  /** Every step of the run from k to k' is mild. */
  ghost predicate MildRun(k: State, es: seq<Event>, k': State) {
    if es == [] then k' == k
    else
      var n := |es| - 1;
      exists m :: MildRun(k, es[..n], m) && SameThreads(m) && Mild(m, es[n]) && Step(m, es[n]) == Next(k')
  }

  /** Original priorities are at most current ones in every state of the run from k to k'. */
  ghost predicate OrderedRun(k: State, es: seq<Event>, k': State) {
    && OriginalsBelow(k', k'.pri)
    && if es == [] then k' == k
       else
         var n := |es| - 1;
         exists m :: OrderedRun(k, es[..n], m) && SameThreads(m) && Step(m, es[n]) == Next(k')
  }

  lemma {:induction false} MildReaches(k: State, es: seq<Event>, k': State)
    requires MildRun(k, es, k')
    ensures Reaches(k, es, k')
  {
    hide Step, Mild;
    if es != [] {
      var n := |es| - 1;
      var m :| MildRun(k, es[..n], m) && SameThreads(m) && Mild(m, es[n]) && Step(m, es[n]) == Next(k');
      MildReaches(k, es[..n], m);
    }
  }

  /** Original priorities stay at most current ones over a run exactly if each of its steps is mild. */
  lemma {:induction false} OrderExactly(k: State, es: seq<Event>, k': State)
    requires Inv(k) && OriginalsBelow(k, k.pri)
    ensures MildRun(k, es, k') <==> OrderedRun(k, es, k')
    ensures MildRun(k, es, k') ==> Inv(k')
  {
    hide Inv, OriginalsBelow, Step, Mild;
    if es != [] {
      var n := |es| - 1;
      if MildRun(k, es, k') {
        var m :| MildRun(k, es[..n], m) && SameThreads(m) && Mild(m, es[n]) && Step(m, es[n]) == Next(k');
        OrderExactly(k, es[..n], m);
        StepKeepsOrder(m, es[n]);
        InvStep(m, es[n]);
      }
      if OrderedRun(k, es, k') {
        var m :| OrderedRun(k, es[..n], m) && SameThreads(m) && Step(m, es[n]) == Next(k');
        OrderExactly(k, es[..n], m);
        StepKeepsOrder(m, es[n]);
      }
    }
  }

  lemma OrderAtBoot(main: Tid, idle: Tid)
    ensures OriginalsBelow(Boot(main, idle), Boot(main, idle).pri)
  {
  }

  /** In every run whose calls of thread_set_priority are mild, each thread's priority stays at least its original
      one, and no assertion of update_priorities fails. */
  lemma NoPanic(main: Tid, idle: Tid, es: seq<Event>, k: State, e: Event)
    requires main != idle && MildRun(Boot(main, idle), es, k)
    ensures Inv(k) && OriginalsBelow(k, k.pri) && SameThreads(k) && !Step(k, e).Panic?
  {
    hide *;
    InvBoot(main, idle);
    OrderAtBoot(main, idle);
    OrderExactly(Boot(main, idle), es, k);
    OrderedEnd(Boot(main, idle), es, k);
    StepKeepsOrder(k, e);
    SameThreadsIn(k);
  }

  lemma OrderedEnd(k: State, es: seq<Event>, k': State)
    requires OrderedRun(k, es, k')
    ensures OriginalsBelow(k', k'.pri)
  {
  }
}
