/** The state of the p1 kernel's threads, semaphores, locks and timer, and the atomic steps it
    takes.  A thread, semaphore or lock is named by a number instead of by its address, and each
    field of the C structures is a map over those numbers.

    One step is what one thread does inside one stretch with interrupts off, or one store outside
    such a stretch.  A thread that was switched out inside such a stretch finishes it by a step of
    its own. */
module Kernel {
  import opened Options
  import opened OrderedList

  type LockId = int

  datatype SemaId = Plain(n: int) | OfLock(l: LockId) | Sleep(t: Tid)

  datatype Status = Running | Ready | Blocked | Dying

  /** Where a thread stands inside the functions of synch.c and timer.c. */
  datatype Pc =
    | Client                  // outside all of them
    | IdleLoop                // the idle thread
    | Downing(s: SemaId)      // in the loop of sema_down, after blocking at least once
    | Entered(l: LockId)      // lock_acquire, before sema_down
    | Downed(l: LockId)       // lock_acquire, after sema_down
    | TryDowned(l: LockId)    // lock_try_acquire, after a successful sema_try_down
    | Got(l: LockId)          // the lock is on locks_held, its holder is not yet stored
    | Releasing(l: LockId)    // lock_release, before sema_up
    | SleepSet                // timer_sleep, wakeup_time stored
    | SleepQueued             // timer_sleep, on wait_list, before sema_down

  /** `init`, `ups` and `downs` record the history: the initial value, the calls of sema_up and
      the completed sema_down and sema_try_down calls. */
  datatype Sema = Sema(value: nat, waiters: seq<Tid>, init: nat, ups: nat, downs: nat)

  datatype State = State(
    current: Tid,
    idle: Tid,
    status: map<Tid, Status>,
    pri: map<Tid, int>,
    orig: map<Tid, int>,
    blockedBy: map<Tid, Option<LockId>>,
    held: map<Tid, seq<LockId>>,
    pc: map<Tid, Pc>,
    wakeup: map<Tid, int>,
    ready: seq<Tid>,
    semas: map<SemaId, Sema>,
    holder: map<LockId, Option<Tid>>,
    maxPri: map<LockId, int>,
    ticks: int,
    slice: nat,
    waitList: seq<Tid>)

  const PRI_MIN := 0
  const PRI_DEFAULT := 31
  const PRI_MAX := 63
  const TIME_SLICE := 4

  // The fields of a thread, semaphore or lock that does not exist read as those of a dead thread, or zero.

  function StatusOf(k: State, t: Tid): Status { if t in k.status then k.status[t] else Dying }

  function PcOf(pc: map<Tid, Pc>, t: Tid): Pc { if t in pc then pc[t] else Client }

  function HeldOf(held: map<Tid, seq<LockId>>, t: Tid): seq<LockId> { if t in held then held[t] else [] }

  function HolderOf(holder: map<LockId, Option<Tid>>,
                    l: LockId): Option<Tid> { if l in holder then holder[l] else None }

  function BlockerOf(k: State, t: Tid): Option<Tid> {
    if t in k.blockedBy && k.blockedBy[t].Some? then HolderOf(k.holder, k.blockedBy[t].value) else None
  }

  function SemaOf(semas: map<SemaId, Sema>, s: SemaId): Sema { if s in semas then semas[s] else Sema(0, [], 0, 0, 0) }

  /** Every thread has a status and a priority. */
  ghost predicate SameThreads(k: State) {
    k.status.Keys == k.pri.Keys
  }

  // ---- thread.c ----

  /** schedule: the first of the sorted ready list runs, or the idle thread. */
  function Schedule(k: State): State {
    if k.ready == [] then
      k.(current := k.idle, status := k.status[k.idle := Running], slice := 0)
    else
      var sorted := StableSort(HighestFirst, k.ready, k.pri);
      k.(current := sorted[0], ready := sorted[1..], status := k.status[sorted[0] := Running], slice := 0)
  }

  /** thread_block, with the caller's position `pc`. */
  function Block(k: State, pc: Pc): State {
    Schedule(k.(status := k.status[k.current := Blocked], pc := k.pc[k.current := pc]))
  }

  /** thread_unblock. */
  function Unblock(k: State, t: Tid): State {
    k.(ready := InsertOrdered(HighestFirst, k.ready, t, k.pri), status := k.status[t := Ready])
  }

  /** thread_yield: the idle thread is not put on the ready list. */
  function Yield(k: State): State {
    var k1 := if k.current != k.idle then k.(ready := InsertOrdered(HighestFirst, k.ready, k.current, k.pri)) else k;
    Schedule(k1.(status := k1.status[k.current := Ready]))
  }

  /** thread_create for a new thread structure `t`, up to thread_unblock. */
  function Created(k: State, t: Tid, priority: int): State {
    Unblock(k.(status := k.status[t := Blocked], pri := k.pri[t := priority], orig := k.orig[t := priority],
               blockedBy := k.blockedBy[t := None], held := k.held[t := []], pc := k.pc[t := Client],
               wakeup := k.wakeup[t := 0], semas := k.semas[Sleep(t) := Sema(0, [], 0, 0, 0)]), t)
  }

  function Create(k: State, t: Tid, priority: int): State {
    if priority > KeyOf(k.pri, k.current) then Yield(Created(k, t, priority)) else Created(k, t, priority)
  }

  /** The interrupts-off part of thread_set_priority: a donated priority stays. */
  function PrioritySet(k: State, p: int): State {
    var c := k.current;
    if KeyOf(k.pri, c) == KeyOf(k.orig, c) then k.(pri := k.pri[c := p], orig := k.orig[c := p])
    else k.(orig := k.orig[c := p])
  }

  /** thread_set_priority. */
  function SetPriority(k: State, p: int): State {
    if p < KeyOf(k.pri, k.current) then Yield(PrioritySet(k, p)) else PrioritySet(k, p)
  }

  // ---- semaphores ----

  /** One pass of the loop of sema_down: wait on a zero value, else take one and go on at `after`. */
  function Down(k: State, s: SemaId, after: Pc): State
  {
    var m := SemaOf(k.semas, s);
    if m.value == 0 then
      Block(k.(semas := k.semas[s := m.(waiters := InsertOrdered(HighestFirst, m.waiters, k.current, k.pri))]),
            Downing(s))
    else
      k.(semas := k.semas[s := m.(value := m.value - 1, downs := m.downs + 1)], pc := k.pc[k.current := after])
  }

  /** sema_try_down, going on at `after` when it succeeds. */
  function TryDown(k: State, s: SemaId, after: Pc): State
  {
    var m := SemaOf(k.semas, s);
    if m.value > 0 then
      k.(semas := k.semas[s := m.(value := m.value - 1, downs := m.downs + 1)], pc := k.pc[k.current := after])
    else k
  }

  /** sema_up up to the point where it yields. */
  function Wake(k: State, s: SemaId): State
  {
    var m := SemaOf(k.semas, s);
    var sorted := StableSort(HighestFirst, m.waiters, k.pri);
    var m' := Sema(m.value + 1, if sorted == [] then [] else sorted[1..], m.init, m.ups + 1, m.downs);
    var k1 := if sorted == [] then k else Unblock(k, sorted[0]);
    k1.(semas := k.semas[s := m'])
  }

  /** sema_up outside an interrupt handler. */
  function Up(k: State, s: SemaId): State
  {
    Yield(Wake(k, s))
  }

  // ---- locks and priority donation ----

  datatype Donation = Donated(pri: map<Tid, int>, resort: bool) | AssertionFailure

  /** update_priorities: hand t's priority to the holder of the lock it waits for, and on from there
      while the holder is itself blocked.  `resort` tells that the ready list is sorted at the end. */
  function Donate(k: State, t: Tid, pri: map<Tid, int>): Donation
    requires k.status.Keys == pri.Keys
    decreases Lower(pri, t)
  {
    if KeyOf(k.orig, t) > KeyOf(pri, t) then AssertionFailure
    else
      match BlockerOf(k, t)
      case None => Donated(pri, false)
      case Some(b) =>
        if KeyOf(k.orig, b) > KeyOf(pri, b) then AssertionFailure
        else if KeyOf(pri, b) >= KeyOf(pri, t) then Donated(pri, false)
        else
          var pri' := pri[b := KeyOf(pri, t)];
          if StatusOf(k, b) == Blocked then
            LowerShrinks(pri, t, b);
            Donate(k, b, pri')
          else Donated(pri', true)
  }

  ghost function Lower(pri: map<Tid, int>, t: Tid): set<Tid> {
    set x | x in pri && pri[x] < KeyOf(pri, t)
  }

  lemma LowerShrinks(pri: map<Tid, int>, t: Tid, b: Tid)
    requires b in pri && pri[b] < KeyOf(pri, t)
    ensures Lower(pri[b := KeyOf(pri, t)], b) < Lower(pri, t)
  {
    assert b in Lower(pri, t) && b !in Lower(pri[b := KeyOf(pri, t)], b);
  }

  datatype Outcome = Next(k: State) | Disabled | Panic

  /** before_getting_in_line. */
  function AcquireEnter(k: State, l: LockId): Outcome
    requires SameThreads(k)
  {
    var c := k.current;
    var k1 := k.(blockedBy := k.blockedBy[c := Some(l)], pc := k.pc[c := Entered(l)]);
    if KeyOf(k.pri, c) > KeyOf(k.maxPri, l) then
      var k2 := k1.(maxPri := k.maxPri[l := KeyOf(k.pri, c)]);
      match Donate(k2, c, k2.pri)
      case Donated(pri, resort) =>
        Next(k2.(pri := pri, ready := if resort then StableSort(HighestFirst, k.ready, pri) else k.ready))
      case AssertionFailure => Panic
    else Next(k1)
  }

  /** The largest key on a list, or `none` for the empty list. */
  function MaxKey(s: seq<int>, key: map<int, int>, none: int): int {
    if s == [] then none
    else if |s| == 1 then KeyOf(key, s[0])
    else
      var m := MaxKey(s[..|s| - 1], key, none);
      if m < KeyOf(key, s[|s| - 1]) then KeyOf(key, s[|s| - 1]) else m
  }

  /** upon_getting_the_lock. */
  function AcquireGot(k: State, l: LockId): State
  {
    var c := k.current;
    k.(blockedBy := k.blockedBy[c := None], held := k.held[c := [l] + HeldOf(k.held, c)],
       maxPri := k.maxPri[l := MaxKey(SemaOf(k.semas, OfLock(l)).waiters, k.pri, PRI_MIN)], pc := k.pc[c := Got(l)])
  }

  /** The first stores of lock_try_acquire after its sema_try_down. */
  function TryAcquireGot(k: State, l: LockId): State
  {
    k.(held := k.held[k.current := [l] + HeldOf(k.held, k.current)], pc := k.pc[k.current := Got(l)])
  }

  /** The store of the holder that ends lock_acquire and lock_try_acquire. */
  function SetHolder(k: State, l: LockId): State {
    k.(holder := k.holder[l := Some(k.current)], pc := k.pc[k.current := Client])
  }

  /** A list without (the first occurrence of) an element. */
  function Without(s: seq<LockId>, l: LockId): seq<LockId> {
    if s == [] then [] else if s[0] == l then s[1..] else [s[0]] + Without(s[1..], l)
  }

  /** The interrupts-off part of lock_release. */
  function ReleaseUpdate(k: State, l: LockId): State
  {
    var c := k.current;
    var held := Without(HeldOf(k.held, c), l);
    var donated := MaxKey(held, k.maxPri, KeyOf(k.orig, c));
    k.(holder := k.holder[l := None], held := k.held[c := held],
       pri := k.pri[c := if donated > KeyOf(k.orig, c) then donated else KeyOf(k.orig, c)],
       pc := k.pc[c := Releasing(l)])
  }

  // ---- timer.c ----

  /** The end of timer_interrupt: up the semaphore of every sleeper whose time has come. */
  function WakeExpired(k: State): State
    decreases |k.waitList|
  {
    if k.waitList == [] || KeyOf(k.wakeup, k.waitList[0]) > k.ticks then k
    else
      var k1 := Wake(k.(waitList := k.waitList[1..]), Sleep(k.waitList[0]));
      WakeExpired(k1)
  }

  /** The yield that an interrupt handler may have asked for. */
  function ReturnFromInterrupt(k: State, yielding: bool): State {
    if yielding then Yield(k) else k
  }

  /** timer_interrupt, with thread_tick, and the yield on return that either of them may ask for. */
  function Tick(k: State): State
  {
    var k1 := k.(ticks := k.ticks + 1, slice := k.slice + 1);
    var k2 := WakeExpired(k1);
    ReturnFromInterrupt(k2, k1.slice >= TIME_SLICE || k2.waitList != k1.waitList)
  }

  /** The start of timer_sleep: the wake-up time is stored. */
  function SetWakeup(k: State, n: int): State {
    k.(wakeup := k.wakeup[k.current := n + k.ticks], pc := k.pc[k.current := SleepSet])
  }

  /** The interrupts-off part of timer_sleep. */
  function Enqueue(k: State): State {
    k.(waitList := InsertOrdered(EarliestFirst, k.waitList, k.current, k.wakeup), pc := k.pc[k.current := SleepQueued])
  }

  // ---- steps and runs ----

  datatype Event =
    | CreateThread(t: Tid, priority: int) | ExitThread | YieldCpu | ChangePriority(p: int)
    | InitSema(n: int, v: nat) | InitLock(l: LockId)
    | DownPlain(n: int) | TryDownPlain(n: int) | UpPlain(n: int) | Resume
    | EnterLine(l: LockId) | DownLock | GetLock | StoreHolder
    | TryLock(l: LockId) | TryGetLock
    | BeginRelease(l: LockId) | EndRelease
    | SleepFor(ticks: int) | QueueSleeper | DownSleep
    | TimerTick | IdleBlock

  /** Where sema_down returns to. */
  function AfterDown(s: SemaId): Pc {
    match s
    case Plain(_) => Client
    case OfLock(l) => Downed(l)
    case Sleep(_) => Client
  }

  /** One step of the running thread, or a timer tick.  Disabled: the running thread is not at a point
      where it could take this step, a name is not new or not known, or the caller breaks a rule that
      the documentation of the operation states.  Panic: an assertion of update_priorities fails. */
  function Step(k: State, e: Event): Outcome
    requires SameThreads(k)
  {
    var c := k.current;
    var at := PcOf(k.pc, c);
    match e
    case CreateThread(t, priority) =>
      if at == Client && t !in k.status && PRI_MIN <= priority <= PRI_MAX
      then Next(Create(k, t, priority)) else Disabled
    case ExitThread =>
      if at == Client then Next(Schedule(k.(status := k.status[c := Dying]))) else Disabled
    case YieldCpu =>
      if at == Client then Next(Yield(k)) else Disabled
    case ChangePriority(p) =>
      if at == Client then Next(SetPriority(k, p)) else Disabled
    case InitSema(n, v) =>
      if at == Client && Plain(n) !in k.semas
      then Next(k.(semas := k.semas[Plain(n) := Sema(v, [], v, 0, 0)])) else Disabled
    case InitLock(l) =>
      if at == Client && l !in k.holder
      then Next(k.(semas := k.semas[OfLock(l) := Sema(1, [], 1, 0, 0)],
                   holder := k.holder[l := None], maxPri := k.maxPri[l := PRI_MIN])) else Disabled
    case DownPlain(n) =>
      if at == Client && Plain(n) in k.semas then Next(Down(k, Plain(n), Client)) else Disabled
    case TryDownPlain(n) =>
      if at == Client && Plain(n) in k.semas then Next(TryDown(k, Plain(n), Client)) else Disabled
    case UpPlain(n) =>
      if at == Client && Plain(n) in k.semas then Next(Up(k, Plain(n))) else Disabled
    case Resume =>
      if at.Downing? then Next(Down(k, at.s, AfterDown(at.s))) else Disabled
    case EnterLine(l) =>
      if at == Client && l in k.holder && HolderOf(k.holder, l) != Some(c) then AcquireEnter(k, l) else Disabled
    case DownLock =>
      if at.Entered? then Next(Down(k, OfLock(at.l), Downed(at.l))) else Disabled
    case GetLock =>
      if at.Downed? then Next(AcquireGot(k, at.l)) else Disabled
    case StoreHolder =>
      if at.Got? then Next(SetHolder(k, at.l)) else Disabled
    case TryLock(l) =>
      if at == Client && l in k.holder && HolderOf(k.holder, l) != Some(c)
      then Next(TryDown(k, OfLock(l), TryDowned(l))) else Disabled
    case TryGetLock =>
      if at.TryDowned? then Next(TryAcquireGot(k, at.l)) else Disabled
    case BeginRelease(l) =>
      if at == Client && l in k.holder && HolderOf(k.holder, l) == Some(c) then Next(ReleaseUpdate(k, l)) else Disabled
    case EndRelease =>
      if at.Releasing?
      then Next(Up(k.(pc := k.pc[c := Client]), OfLock(at.l))) else Disabled
    case SleepFor(n) =>
      if at == Client then Next(SetWakeup(k, n)) else Disabled
    case QueueSleeper =>
      if at == SleepSet then Next(Enqueue(k)) else Disabled
    case DownSleep =>
      if at == SleepQueued then Next(Down(k, Sleep(c), Client)) else Disabled
    case TimerTick => Next(Tick(k))
    case IdleBlock =>
      if at == IdleLoop then Next(Block(k, IdleLoop)) else Disabled
  }

  /** After thread_start: the initial thread runs, the idle thread waits to be needed. */
  function Boot(main: Tid, idle: Tid): State {
    State(main, idle, map[main := Running, idle := Blocked], map[main := PRI_DEFAULT, idle := PRI_MIN],
          map[main := PRI_DEFAULT, idle := PRI_MIN], map[main := None, idle := None], map[main := [], idle := []],
          map[main := Client, idle := IdleLoop], map[main := 0, idle := 0], [],
          map[Sleep(main) := Sema(0, [], 0, 0, 0), Sleep(idle) := Sema(0, [], 0, 0, 0)], map[], map[], 0, 0, [])
  }
}
