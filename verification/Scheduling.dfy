/** The discipline of the ready list and the wait lists (thread.c). */
module Scheduling {
  import opened Options
  import opened OrderedList
  import opened Kernel

  type Statuses = map<Tid, Status>
  type Pcs = map<Tid, Pc>

  /** Exactly the ready threads but the idle one are on the ready list, once each. */
  ghost predicate ReadyListed(ready: seq<Tid>, idle: Tid, status: Statuses) {
    forall t :: Count(ready, t) == if t in status && t != idle && status[t] == Ready then 1 else 0
  }

  predicate Waits(status: Statuses, pc: Pcs, t: Tid, s: SemaId) {
    t in status && status[t] == Blocked && PcOf(pc, t) == Downing(s)
  }

  /** Exactly the threads that blocked in a semaphore's sema_down are on its wait list, once each. */
  ghost predicate WaitersListed(semas: map<SemaId, Sema>, status: Statuses, pc: Pcs) {
    forall s, t :: Count(SemaOf(semas, s).waiters, t) == if Waits(status, pc, t, s) then 1 else 0
  }

  /** No thread but the idle one is blocked outside sema_down, and none died in there. */
  ghost predicate BlockedInDown(idle: Tid, status: Statuses, pc: Pcs) {
    && (forall t | t in status && t != idle && status[t] == Blocked :: PcOf(pc, t).Downing?)
    && (forall t | t in status && status[t] == Dying :: !PcOf(pc, t).Downing?)
  }

  ghost predicate IdleAlive(idle: Tid, status: Statuses, pc: Pcs) {
    && idle in status && status[idle] != Dying
    && (forall t :: PcOf(pc, t) == IdleLoop <==> t == idle)
  }

  ghost predicate OneRunning(current: Tid, status: Statuses) {
    && current in status
    && (forall t | t in status :: status[t] == Running <==> t == current)
  }

  ghost predicate NoneRunning(status: Statuses) {
    forall t | t in status :: status[t] != Running
  }

  /** The same threads but possibly the idle one are blocked. */
  ghost predicate SameBlocked(idle: Tid, s1: Statuses, s2: Statuses) {
    && s1.Keys == s2.Keys
    && (forall t | t in s1 && t != idle :: s1[t] == Blocked <==> s2[t] == Blocked)
  }

  ghost predicate SameDying(s1: Statuses, s2: Statuses) {
    s1.Keys == s2.Keys && forall t | t in s1 :: s1[t] == Dying <==> s2[t] == Dying
  }

  /** No ready thread but possibly the idle one has a higher priority than the current one. */
  ghost predicate Outranked(k: State) {
    forall t | t in k.status && t != k.idle && k.status[t] == Ready :: KeyOf(k.pri, t) <= KeyOf(k.pri, k.current)
  }

  /** schedule leaves one running thread, which no ready thread outranks, and changes nothing else. */
  lemma ScheduleRuns(k: State)
    requires ReadyListed(k.ready, k.idle, k.status) && NoneRunning(k.status) && k.idle in k.status
    ensures var k' := Schedule(k);
      && ReadyListed(k'.ready, k.idle, k'.status) && OneRunning(k'.current, k'.status) && Outranked(k')
      && SameBlocked(k.idle, k.status, k'.status) && (k.status[k.idle] != Dying ==> SameDying(k.status, k'.status))
      && k' == k.(current := k'.current, ready := k'.ready, status := k'.status, slice := 0)
  {
    hide StableSort;
    if k.ready == [] {
      assert forall t :: Count(k.ready, t) == 0;
    } else {
      HeadOfSorted(HighestFirst, k.ready, k.pri);
      var next := StableSort(HighestFirst, k.ready, k.pri)[0];
      forall t | t in k.status && t != k.idle && t != next && k.status[t] == Ready
        ensures KeyOf(k.pri, t) <= KeyOf(k.pri, next)
      {
        assert Count(k.ready, t) == 1;
        assert !Before(HighestFirst, k.pri, t, next);
      }
    }
  }

  lemma RequeueLists(ready: seq<Tid>, idle: Tid, status: Statuses, c: Tid, pri: map<Tid, int>)
    requires ReadyListed(ready, idle, status) && OneRunning(c, status)
    ensures ReadyListed(if c != idle then InsertOrdered(HighestFirst, ready, c, pri) else ready, idle,
                        status[c := Ready])
  {
    forall t ensures Count(InsertOrdered(HighestFirst, ready, c, pri), t) == Count(ready, t) + if t == c then 1 else 0 {
      InsertCount(HighestFirst, ready, c, pri, t);
    }
  }

  lemma YieldRuns(k: State)
    requires ReadyListed(k.ready, k.idle, k.status) && OneRunning(k.current, k.status) && k.idle in k.status
    ensures var k' := Yield(k);
      && ReadyListed(k'.ready, k.idle, k'.status) && OneRunning(k'.current, k'.status) && Outranked(k')
      && SameBlocked(k.idle, k.status, k'.status) && (k.status[k.idle] != Dying ==> SameDying(k.status, k'.status))
      && k' == k.(current := k'.current, ready := k'.ready, status := k'.status, slice := 0)
  {
    var c := k.current;
    var k1 := if c != k.idle then k.(ready := InsertOrdered(HighestFirst, k.ready, c, k.pri)) else k;
    var k2 := k1.(status := k1.status[c := Ready]);
    RequeueLists(k.ready, k.idle, k.status, c, k.pri);
    ScheduleRuns(k2);
  }

  /** The running thread blocks at `pc`. */
  lemma BlockRuns(k: State, pc: Pc)
    requires ReadyListed(k.ready, k.idle, k.status) && OneRunning(k.current, k.status) && k.idle in k.status
    ensures var k' := Block(k, pc);
      && ReadyListed(k'.ready, k.idle, k'.status) && OneRunning(k'.current, k'.status) && Outranked(k')
      && SameBlocked(k.idle, k.status[k.current := Blocked], k'.status)
      && (k.status[k.idle] != Dying ==> SameDying(k.status, k'.status))
      && k'
           == k.(current := k'.current, ready := k'.ready, status := k'.status, slice := 0, pc := k.pc[k.current := pc])
  {
    var k1 := k.(status := k.status[k.current := Blocked], pc := k.pc[k.current := pc]);
    forall t ensures Count(k.ready, t) == if t in k1.status && t != k.idle && k1.status[t] == Ready then 1 else 0 {}
    ScheduleRuns(k1);
  }

  /** A blocked thread becomes ready. */
  lemma UnblockLists(k: State, t: Tid)
    requires ReadyListed(k.ready, k.idle, k.status) && t in k.status && t != k.idle && k.status[t] == Blocked
    ensures ReadyListed(Unblock(k, t).ready, k.idle, Unblock(k, t).status)
  {
    forall x ensures Count(Unblock(k, t).ready, x) ==
      if x in k.status && x != k.idle && Unblock(k, t).status[x] == Ready then 1 else 0
    {
      InsertCount(HighestFirst, k.ready, t, k.pri, x);
      assert Count(k.ready, x) == if x in k.status && x != k.idle && k.status[x] == Ready then 1 else 0;
    }
  }

  /** A change of status that blocks and unblocks no waiting thread leaves the wait lists right. */
  lemma WaitersFrame(idle: Tid, semas: map<SemaId, Sema>, s1: Statuses, s2: Statuses, pc: Pcs)
    requires WaitersListed(semas, s1, pc) && SameBlocked(idle, s1, s2) && PcOf(pc, idle) == IdleLoop
    ensures WaitersListed(semas, s2, pc)
  {
    forall s, t ensures Waits(s1, pc, t, s) == Waits(s2, pc, t, s) {}
  }

  lemma IdleMove(idle: Tid, status: Statuses, pc: Pcs, c: Tid, next: Pc)
    requires IdleAlive(idle, status, pc) && PcOf(pc, c) != IdleLoop && next != IdleLoop
    ensures IdleAlive(idle, status, pc[c := next])
  {
    var pc' := pc[c := next];
    forall t ensures PcOf(pc', t) == IdleLoop <==> t == idle {
      assert PcOf(pc, t) == IdleLoop <==> t == idle;
    }
  }

  lemma BlockedFrame(idle: Tid, s1: Statuses, s2: Statuses, pc: Pcs)
    requires BlockedInDown(idle, s1, pc) && SameBlocked(idle, s1, s2) && SameDying(s1, s2)
    ensures BlockedInDown(idle, s2, pc)
  {
  }

  /** The running thread enters a semaphore's wait list. */
  lemma EnqueueWaiter(semas: map<SemaId, Sema>, status: Statuses, pc: Pcs, c: Tid, s: SemaId, pri: map<Tid, int>)
    requires WaitersListed(semas, status, pc) && c in status && status[c] == Running
    ensures var m := SemaOf(semas, s);
      WaitersListed(semas[s := m.(waiters := InsertOrdered(HighestFirst, m.waiters, c, pri))],
                    status[c := Blocked], pc[c := Downing(s)])
  {
    var m := SemaOf(semas, s);
    var semas' := semas[s := m.(waiters := InsertOrdered(HighestFirst, m.waiters, c, pri))];
    hide InsertOrdered;
    forall x, t ensures Count(SemaOf(semas', x).waiters, t) ==
      if Waits(status[c := Blocked], pc[c := Downing(s)], t, x) then 1 else 0
    {
      InsertCount(HighestFirst, m.waiters, c, pri, t);
      assert Count(SemaOf(semas, x).waiters, t) == if Waits(status, pc, t, x) then 1 else 0;
      assert Waits(status[c := Blocked], pc[c := Downing(s)], t, x) == if t == c then x
        == s else Waits(status, pc, t, x);
    }
  }

  /** The first of the sorted waiters leaves a semaphore's wait list and becomes ready. */
  lemma DequeueWaiter(semas: map<SemaId, Sema>, status: Statuses, pc: Pcs, s: SemaId, pri: map<Tid, int>, v: nat,
                      u: nat)
    requires WaitersListed(semas, status, pc) && SemaOf(semas, s).waiters != []
    ensures var m := SemaOf(semas, s); var sorted := StableSort(HighestFirst, m.waiters, pri);
      && Waits(status, pc, sorted[0], s)
      && WaitersListed(semas[s := m.(value := v, ups := u, waiters := sorted[1..])], status[sorted[0] := Ready], pc)
  {
    var m := SemaOf(semas, s);
    var sorted := StableSort(HighestFirst, m.waiters, pri);
    HeadOfSorted(HighestFirst, m.waiters, pri);
    assert Count(m.waiters, sorted[0]) == if Waits(status, pc, sorted[0], s) then 1 else 0;
    var semas' := semas[s := m.(value := v, ups := u, waiters := sorted[1..])];
    forall x, t
      ensures Count(SemaOf(semas', x).waiters, t) == if Waits(status[sorted[0] := Ready], pc, t, x) then 1 else 0
    {
      assert Count(SemaOf(semas, x).waiters, t) == if Waits(status, pc, t, x) then 1 else 0;
    }
  }
}
