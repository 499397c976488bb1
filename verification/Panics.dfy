/** When the assertions of update_priorities fail. */
module Panics {
  import opened Options
  import opened OrderedList
  import opened Kernel
  import opened Donation
  import opened Invariant
  import opened Guarantees

  // ---- at which step ----

  predicate Inverted(k: State, pri: Priorities, t: Tid) {
    KeyOf(k.orig, t) > KeyOf(pri, t)
  }

  /** A donation by t gets to the last thread of s: each waits for a lock that the next one holds, and those between
      the first and the last are blocked and of a lower priority than t's. */
  ghost predicate Chain(k: State, pri: Priorities, t: Tid, s: seq<Tid>) {
    && s != [] && s[0] == t
    && (forall i, j | 0 <= i < j < |s| :: s[i] != s[j])
    && (forall i | 0 <= i < |s| - 1 :: BlockerOf(k, s[i]) == Some(s[i + 1]))
    && (forall i | 0 < i < |s| - 1 :: StatusOf(k, s[i]) == Blocked && KeyOf(pri, s[i]) < KeyOf(pri, t))
  }

  ghost predicate FailingChain(k: State, pri: Priorities, t: Tid, s: seq<Tid>) {
    Chain(k, pri, t, s) && Inverted(k, pri, s[|s| - 1])
  }

  /** The chain that a donation followed to its failed assertion. */
  lemma {:induction false} ChainOf(k: State, t: Tid, pri: Priorities) returns (s: seq<Tid>)
    requires k.status.Keys == pri.Keys && Donate(k, t, pri).AssertionFailure?
    ensures FailingChain(k, pri, t, s)
    decreases Lower(pri, t)
  {
    s := [t];
    if !Inverted(k, pri, t) {
      var b := BlockerOf(k, t).value;
      s := [t, b];
      if !Inverted(k, pri, b) {
        LowerShrinks(pri, t, b);
        var r := ChainOf(k, b, pri[b := KeyOf(pri, t)]);
        s := [t] + r;
        Longer(k, pri, t, b, r);
      }
    }
  }

  lemma Longer(k: State, pri: Priorities, t: Tid, b: Tid, r: seq<Tid>)
    requires !Inverted(k, pri, t) && !Inverted(k, pri, b) && BlockerOf(k, t) == Some(b)
    requires StatusOf(k, b) == Blocked && KeyOf(pri, b) < KeyOf(pri, t)
    requires FailingChain(k, pri[b := KeyOf(pri, t)], b, r)
    ensures FailingChain(k, pri, t, [t] + r)
  {
    hide BlockerOf, StatusOf;
    var pri' := pri[b := KeyOf(pri, t)];
    var s := [t] + r;
    var n := |r| - 1;
    assert n > 0;
    forall i | 0 <= i < |r| ensures r[i] != t && (i > 0 ==> KeyOf(pri', r[i]) == KeyOf(pri, r[i])) {
      assert i > 0 ==> r[i] != r[0];
    }
  }

  /** A donation fails along every such chain. */
  lemma {:induction false} FailsAlong(k: State, t: Tid, pri: Priorities, s: seq<Tid>)
    requires k.status.Keys == pri.Keys && FailingChain(k, pri, t, s)
    ensures Donate(k, t, pri).AssertionFailure?
    decreases Lower(pri, t)
  {
    if !Inverted(k, pri, t) {
      var b := s[1];
      assert BlockerOf(k, s[0]) == Some(b);
      if !Inverted(k, pri, b) {
        assert |s| > 2;
        var pri' := pri[b := KeyOf(pri, t)];
        assert StatusOf(k, b) == Blocked && KeyOf(pri, b) < KeyOf(pri, t);
        LowerShrinks(pri, t, b);
        Shorter(k, pri, t, s);
        FailsAlong(k, b, pri', s[1..]);
      }
    }
  }

  lemma Shorter(k: State, pri: Priorities, t: Tid, s: seq<Tid>)
    requires FailingChain(k, pri, t, s) && |s| > 2
    ensures FailingChain(k, pri[s[1] := KeyOf(pri, t)], s[1], s[1..])
  {
    hide BlockerOf, StatusOf;
    var r := s[1..];
    var pri' := pri[s[1] := KeyOf(pri, t)];
    forall i | 0 < i < |r| ensures KeyOf(pri', r[i]) == KeyOf(pri, s[i + 1]) {}
  }

  /** The current thread has got in line for l. */
  function InLine(k: State, l: LockId): State {
    k.(blockedBy := k.blockedBy[k.current := Some(l)], pc := k.pc[k.current := Entered(l)],
       maxPri := k.maxPri[l := KeyOf(k.pri, k.current)])
  }

  /** Of all steps, in any state, those that fail an assertion are just these: the running thread gets in line for
      a lock, its priority is above the lock's, and a thread whose original priority is above its current one is
      reached by the donation. */
  lemma PanicsExactly(k: State, e: Event)
    requires SameThreads(k)
    ensures Step(k, e).Panic? <==>
      && e.EnterLine? && PcOf(k.pc, k.current) == Client && e.l in k.holder && k.holder[e.l] != Some(k.current)
      && KeyOf(k.pri, k.current) > KeyOf(k.maxPri, e.l)
      && exists s :: FailingChain(InLine(k, e.l), k.pri, k.current, s)
  {
    hide Donate, FailingChain;
    if e.EnterLine? {
      var k2 := InLine(k, e.l);
      if Donate(k2, k.current, k.pri).AssertionFailure? {
        var s := ChainOf(k2, k.current, k.pri);
      } else if s :| FailingChain(k2, k.pri, k.current, s) {
        FailsAlong(k2, k.current, k.pri, s);
      }
      EnterIs(k, e.l);
    } else if e.CreateThread? || e.BeginRelease? {
      MoveIs(k, e);
    } else if e.ChangePriority? {
    } else {
      StepKeepsPriorities(k, e);
    }
  }

  lemma EnterIs(k: State, l: LockId)
    requires SameThreads(k)
    ensures Step(k, EnterLine(l)).Panic? <==>
      && PcOf(k.pc, k.current) == Client && l in k.holder && k.holder[l] != Some(k.current)
      && KeyOf(k.pri, k.current) > KeyOf(k.maxPri, l) && Donate(InLine(k, l), k.current, k.pri).AssertionFailure?
  {
    hide Donate, StableSort;
  }

  // ---- after which call of thread_set_priority ----

  /** One of these steps, taken in order from k, fails an assertion. */
  ghost predicate Fails(k: State, es: seq<Event>) {
    exists n, m :: 0 <= n < |es| && Reaches(k, es[..n], m) && SameThreads(m) && Step(m, es[n]).Panic?
  }

  /** thread_set_priority, and then lock_acquire of a lock that nobody uses. */
  function ThenAcquire(p: int, l: LockId): seq<Event> {
    [ChangePriority(p), InitLock(l), EnterLine(l)]
  }

  lemma ReachesOne(k: State, e: Event, k': State)
    ensures Reaches(k, [e], k') <==> SameThreads(k) && Step(k, e) == Next(k')
  {
    hide Step;
    var es := [e];
    assert es[..0] == [];
    if SameThreads(k) && Step(k, e) == Next(k') { assert Reaches(k, es[..0], k); }
  }

  lemma ReachesTwo(k: State, e: Event, e': Event, k': State)
    ensures Reaches(k, [e, e'], k') <==>
      SameThreads(k) && Step(k, e).Next? && SameThreads(Step(k, e).k) && Step(Step(k, e).k, e') == Next(k')
  {
    hide Step;
    var es := [e, e'];
    assert es[..1] == [e];
    forall m ensures Reaches(k, es[..1], m) <==> SameThreads(k) && Step(k, e) == Next(m) { ReachesOne(k, e, m); }
  }

  /** What it means that one of three steps fails. */
  lemma FailsOfThree(k: State, e: Event, e': Event, e'': Event)
    requires SameThreads(k) && !Step(k, e).Panic?
    requires Step(k, e).Next? ==> SameThreads(Step(k, e).k) && !Step(Step(k, e).k, e').Panic?
    ensures Fails(k, [e, e', e'']) <==>
      exists m :: Reaches(k, [e, e'], m) && SameThreads(m) && Step(m, e'').Panic?
  {
    hide Step, Reaches;
    var es := [e, e', e''];
    assert es[..0] == [] && es[..1] == [e] && es[..2] == [e, e'];
    forall m ensures Reaches(k, [], m) <==> m == k { ReachesNone(k, m); }
    forall m ensures Reaches(k, [e], m) <==> Step(k, e) == Next(m) { ReachesOne(k, e, m); }
    if m :| Reaches(k, [e, e'], m) && SameThreads(m) && Step(m, e'').Panic? {
      assert Reaches(k, es[..2], m) && Step(m, es[2]).Panic?;
    }
  }

  lemma ReachesNone(k: State, m: State)
    ensures Reaches(k, [], m) <==> m == k
  {
  }

  /** The state after a call that is not mild. */
  function Changed(k: State, p: int): State {
    k.(orig := k.orig[k.current := p])
  }

  function WithLock(k: State, l: LockId): State {
    k.(semas := k.semas[OfLock(l) := Sema(1, [], 1, 0, 0)], holder := k.holder[l := None],
       maxPri := k.maxPri[l := PRI_MIN])
  }

  lemma WildSteps(k: State, p: int, l: LockId)
    requires SameThreads(k) && PcOf(k.pc, k.current) == Client && l !in k.holder && !Mild(k, ChangePriority(p))
    ensures Step(k, ChangePriority(p)) == Next(Changed(k, p)) && SameThreads(Changed(k, p))
    ensures Step(Changed(k, p), InitLock(l)) == Next(WithLock(Changed(k, p), l))
    ensures SameThreads(WithLock(Changed(k, p), l))
    ensures Step(WithLock(Changed(k, p), l), EnterLine(l)).Panic? <==> KeyOf(k.pri, k.current) > PRI_MIN
  {
    EnterIs(WithLock(Changed(k, p), l), l);
  }

  /** A thread that gives itself a priority and then acquires a new lock fails an assertion exactly if a donation to
      it is in effect, the new priority is above the donated one, and that is above the lowest priority. */
  lemma ChangeFailsExactly(main: Tid, idle: Tid, es: seq<Event>, k: State, p: int, l: LockId)
    requires main != idle && MildRun(Boot(main, idle), es, k)
    requires PcOf(k.pc, k.current) == Client && l !in k.holder
    ensures Fails(k, ThenAcquire(p, l)) <==>
      KeyOf(k.pri, k.current) != KeyOf(k.orig, k.current) && p > KeyOf(k.pri, k.current) > PRI_MIN
  {
    hide Reaches, MildRun, Inv, OriginalsBelow, Step, Fails, Changed, WithLock;
    NoPanic(main, idle, es, k, ChangePriority(p));
    if Mild(k, ChangePriority(p)) {
      MildNeverFails(k, p, l);
    } else {
      WildSteps(k, p, l);
      FailsOfThree(k, ChangePriority(p), InitLock(l), EnterLine(l));
      forall m ensures Reaches(k, [ChangePriority(p), InitLock(l)], m) <==> m == WithLock(Changed(k, p), l) {
        ReachesTwo(k, ChangePriority(p), InitLock(l), m);
      }
    }
  }

  /** A mild step. */
  lemma MildStep(k: State, e: Event)
    requires Inv(k) && OriginalsBelow(k, k.pri) && Mild(k, e)
    ensures SameThreads(k) && !Step(k, e).Panic?
    ensures Step(k, e).Next? ==> var m := Step(k, e).k; Inv(m) && OriginalsBelow(m, m.pri) && SameThreads(m)
  {
    hide OriginalsBelow, Step, Mild, Waiting, Owning, Dozing;
    StepKeepsOrder(k, e);
    InvStep(k, e);
  }

  lemma MildNeverFails(k: State, p: int, l: LockId)
    requires Inv(k) && OriginalsBelow(k, k.pri) && Mild(k, ChangePriority(p))
    ensures !Fails(k, ThenAcquire(p, l))
  {
    hide Reaches, Inv, OriginalsBelow, Step, Fails, SameThreads;
    var (e, e', e'') := (ChangePriority(p), InitLock(l), EnterLine(l));
    MildStep(k, e);
    if Step(k, e).Next? {
      var k1 := Step(k, e).k;
      MildStep(k1, e');
      if Step(k1, e').Next? { MildStep(Step(k1, e').k, e''); }
    }
    FailsOfThree(k, e, e', e'');
    forall m | Reaches(k, [e, e'], m) ensures Step(k, e).Next? && Step(Step(k, e).k, e') == Next(m) {
      ReachesTwo(k, e, e', m);
    }
  }

  // ---- such a run ----

  lemma OneMore(k: State, es: seq<Event>, m: State, e: Event)
    requires MildRun(k, es, m) && SameThreads(m) && Step(m, e).Next? && !e.ChangePriority?
    ensures MildRun(k, es + [e], Step(m, e).k)
  {
    hide Step;
    var all := es + [e];
    assert all[..|all| - 1] == es;
  }

  /** Thread 0 holds lock 7, which nobody else wants. */
  ghost predicate HoldsLock(k: State) {
    && SameThreads(k) && k.current == 0 && k.idle == 1 && k.status == map[0 := Running, 1 := Blocked]
    && k.ready == [] && KeyOf(k.pri, 0) == KeyOf(k.orig, 0) == 31 && PcOf(k.pc, 0) == Client
    && k.blockedBy == map[0 := None, 1 := None] && k.holder == map[7 := Some(0)] && KeyOf(k.maxPri, 7) == 0
    && SemaOf(k.semas, OfLock(7)).value == 0 && SemaOf(k.semas, OfLock(7)).waiters == []
  }

  const TAKE_LOCK := [InitLock(7), EnterLine(7), DownLock, GetLock, StoreHolder]

  function HasUnit(k: State): State {
    k.(semas := k.semas[OfLock(7) := Sema(0, [], 1, 0, 1)], pc := k.pc[0 := Downed(7)])
  }

  function HasLock(k: State): State {
    k.(blockedBy := k.blockedBy[0 := None], held := k.held[0 := [7]], maxPri := k.maxPri[7 := PRI_MIN],
       pc := k.pc[0 := Got(7)])
  }

  lemma InitEnter(b: State)
    requires b == Boot(0, 1)
    ensures SameThreads(b) && Step(b, InitLock(7)) == Next(WithLock(b, 7)) && SameThreads(WithLock(b, 7))
    ensures Step(WithLock(b, 7), EnterLine(7)) == Next(InLine(WithLock(b, 7), 7))
  {
  }

  lemma DownGet(k: State)
    requires SameThreads(k) && k.current == 0 && PcOf(k.pc, 0) == Entered(7) && HeldOf(k.held, 0) == []
    requires SemaOf(k.semas, OfLock(7)) == Sema(1, [], 1, 0, 0)
    ensures Step(k, DownLock) == Next(HasUnit(k)) && SameThreads(HasUnit(k))
    ensures Step(HasUnit(k), GetLock) == Next(HasLock(HasUnit(k))) && SameThreads(HasLock(HasUnit(k)))
    ensures Step(HasLock(HasUnit(k)), StoreHolder) == Next(SetHolder(HasLock(HasUnit(k)), 7))
  {
    assert Step(k, DownLock) == Next(HasUnit(k)) by { hide InsertOrdered, StableSort, HasLock, SetHolder; }
    GetFree(HasUnit(k));
    hide Step, Down, InsertOrdered, StableSort;
  }

  lemma GetFree(k: State)
    requires SameThreads(k) && k.current == 0 && PcOf(k.pc, 0) == Downed(7) && HeldOf(k.held, 0) == []
    requires SemaOf(k.semas, OfLock(7)).waiters == []
    ensures Step(k, GetLock) == Next(HasLock(k)) && SameThreads(HasLock(k))
    ensures Step(HasLock(k), StoreHolder) == Next(SetHolder(HasLock(k), 7))
  {
    hide InsertOrdered, StableSort;
    assert [7] + [] == [7];
  }

  lemma LockTaken()
    ensures HoldsLock(SetHolder(HasLock(HasUnit(InLine(WithLock(Boot(0, 1), 7), 7))), 7))
  {
  }

  lemma EntersLine(b: State)
    requires b == Boot(0, 1)
    ensures var k := InLine(WithLock(b, 7), 7);
      && MildRun(b, [] + [InitLock(7)] + [EnterLine(7)], k)
      && SameThreads(k) && k.current == 0 && PcOf(k.pc, 0) == Entered(7)
      && HeldOf(k.held, 0) == [] && SemaOf(k.semas, OfLock(7)) == Sema(1, [], 1, 0, 0)
  {
    InitEnter(b);
    assert MildRun(b, [], b);
    hide Step, MildRun;
    OneMore(b, [], b, InitLock(7));
    OneMore(b, [] + [InitLock(7)], WithLock(b, 7), EnterLine(7));
  }

  lemma TakesLock() returns (k: State)
    ensures MildRun(Boot(0, 1), TAKE_LOCK, k) && HoldsLock(k)
  {
    hide Step, MildRun, Boot, WithLock, InLine, HasUnit, HasLock, SetHolder, HoldsLock, SameThreads;
    var b := Boot(0, 1);
    var k2 := InLine(WithLock(b, 7), 7);
    LockTaken();
    EntersLine(b);
    DownGet(k2);
    var es := [] + [InitLock(7)] + [EnterLine(7)];
    OneMore(b, es, k2, DownLock);
    OneMore(b, es + [DownLock], HasUnit(k2), GetLock);
    OneMore(b, es + [DownLock] + [GetLock], HasLock(HasUnit(k2)), StoreHolder);
    k := SetHolder(HasLock(HasUnit(k2)), 7);
    assert TAKE_LOCK == es + [DownLock] + [GetLock] + [StoreHolder];
  }

  lemma TwoSorted(x: Tid, y: Tid, key: map<Tid, int>)
    requires KeyOf(key, x) > KeyOf(key, y)
    ensures InsertOrdered(HighestFirst, [], x, key) == [x]
    ensures InsertOrdered(HighestFirst, [x], y, key) == [x, y]
    ensures StableSort(HighestFirst, [x], key) == [x] && StableSort(HighestFirst, [x, y], key) == [x, y]
  {
    assert [x][1..] == [] && [x][..0] == [] && [x, y][..1] == [x];
  }

  /** The state when a thread of priority 40 has just been created, and runs. */
  ghost predicate OtherRuns(k: State) {
    && SameThreads(k) && k.current == 2 && k.idle == 1 && k.status == map[0 := Ready, 1 := Blocked, 2 := Running]
    && k.ready == [0] && KeyOf(k.pri, 0) == KeyOf(k.orig, 0) == 31 && KeyOf(k.pri, 2) == KeyOf(k.orig, 2) == 40
    && PcOf(k.pc, 0) == PcOf(k.pc, 2) == Client && k.blockedBy == map[0 := None, 1 := None, 2 := None]
    && k.holder == map[7 := Some(0)] && KeyOf(k.maxPri, 7) == 0
    && SemaOf(k.semas, OfLock(7)).value == 0 && SemaOf(k.semas, OfLock(7)).waiters == []
  }

  /** c is k with the new thread ready. */
  ghost predicate OtherReady(k: State, c: State) {
    && c == k.(status := c.status, ready := [2], pri := k.pri[2 := 40], orig := k.orig[2 := 40],
               blockedBy := k.blockedBy[2 := None], held := c.held, pc := k.pc[2 := Client], wakeup := c.wakeup,
               semas := c.semas)
    && c.status == map[0 := Running, 1 := Blocked, 2 := Ready]
    && SemaOf(c.semas, OfLock(7)) == SemaOf(k.semas, OfLock(7))
  }

  lemma OtherCreated(k: State)
    requires HoldsLock(k)
    ensures Step(k, CreateThread(2, 40)) == Next(Yield(Created(k, 2, 40))) && OtherReady(k, Created(k, 2, 40))
    ensures KeyOf(Created(k, 2, 40).pri, 0) == 31
  {
    hide Yield;
  }

  /** The highest ready thread after a yield of the running one, in such a state. */
  function Switched(c: State): State {
    c.(current := 2, ready := [0], slice := 0, status := c.status[0 := Ready][2 := Running])
  }

  lemma YieldsTo(c: State)
    requires c.current == 0 && c.idle == 1 && c.ready == [2] && KeyOf(c.pri, 2) == 40 && KeyOf(c.pri, 0) == 31
    ensures Yield(c) == Switched(c)
  {
    TwoSorted(2, 0, c.pri);
    hide InsertOrdered, StableSort;
  }

  lemma OtherSwitched(k: State, c: State)
    requires HoldsLock(k) && OtherReady(k, c)
    ensures OtherRuns(Switched(c))
  {
    hide SemaOf;
    assert k.pri.Keys == {0, 1};
  }

  lemma CreatesOther(k: State)
    requires HoldsLock(k)
    ensures Step(k, CreateThread(2, 40)).Next? && OtherRuns(Step(k, CreateThread(2, 40)).k)
  {
    OtherCreated(k);
    OtherSwitched(k, Created(k, 2, 40));
    hide Yield, Created, Step, Switched;
    YieldsTo(Created(k, 2, 40));
  }

  /** It donates its priority to the holder of the lock. */
  lemma Donates(k: State)
    requires OtherRuns(k)
    ensures Step(k, EnterLine(7)) == Next(InLine(k, 7).(pri := k.pri[0 := 40]))
  {
    assert StableSort(HighestFirst, [0], k.pri[0 := 40]) == [0] by { assert [0][..0] == []; }
    hide StableSort;
  }

  /** And it waits, so that the holder runs. */
  lemma OtherWaits(k: State)
    requires OtherRuns(k)
    ensures var k2 := InLine(k, 7).(pri := k.pri[0 := 40]);
      && SameThreads(k2) && Step(k2, DownLock).Next?
      && var m := Step(k2, DownLock).k;
      && SameThreads(m) && m.current == 0 && PcOf(m.pc, 0) == Client && 8 !in m.holder
      && KeyOf(m.orig, 0) == 31 && KeyOf(m.pri, 0) == 40
  {
    assert StableSort(HighestFirst, [0], k.pri[0 := 40]) == [0] by { assert [0][..0] == []; }
    hide StableSort, InsertOrdered;
  }

  /** A run in which thread 0 has a donated priority. */
  lemma DonationInEffect() returns (es: seq<Event>, k: State)
    ensures MildRun(Boot(0, 1), es, k) && k.current == 0 && PcOf(k.pc, 0) == Client && 8 !in k.holder
    ensures KeyOf(k.orig, 0) == 31 && KeyOf(k.pri, 0) == 40
  {
    var b := Boot(0, 1);
    var k0 := TakesLock();
    CreatesOther(k0);
    var k1 := Step(k0, CreateThread(2, 40)).k;
    Donates(k1);
    OtherWaits(k1);
    assert SameThreads(k0) && SameThreads(k1);
    hide Step, MildRun, HoldsLock, OtherRuns, TAKE_LOCK, Boot, SameThreads, InLine, KeyOf, PcOf;
    var k2 := InLine(k1, 7).(pri := k1.pri[0 := 40]);
    OneMore(b, TAKE_LOCK, k0, CreateThread(2, 40));
    OneMore(b, TAKE_LOCK + [CreateThread(2, 40)], k1, EnterLine(7));
    es := TAKE_LOCK + [CreateThread(2, 40)] + [EnterLine(7)];
    OneMore(b, es, k2, DownLock);
    es := es + [DownLock];
    k := Step(k2, DownLock).k;
  }

  /** An assertion can fail: thread 0 takes a lock, another thread donates its priority of 40 to it, and thread 0
      sets its own priority to 50 and acquires another lock. */
  lemma AssertionCanFail()
    ensures exists es, k :: MildRun(Boot(0, 1), es, k) && Fails(k, ThenAcquire(50, 8))
  {
    hide MildRun, Boot, Fails, ThenAcquire, PcOf;
    var es, k := DonationInEffect();
    ChangeFailsExactly(0, 1, es, k, 50, 8);
  }
}
