/** What update_priorities computes (synch.c): the least priorities that leave no blocked thread
    with a higher priority than the holder of the lock it waits for. */
module Donation {
  import opened Options
  import opened OrderedList
  import opened Kernel

  type Priorities = map<Tid, int>

  /** If x waits for a lock that has a holder, the holder's priority is at least x's. */
  ghost predicate Covered(k: State, pri: Priorities, x: Tid) {
    match BlockerOf(k, x)
    case None => true
    case Some(h) => KeyOf(pri, h) >= KeyOf(pri, x)
  }

  ghost predicate BlockedCovered(k: State, pri: Priorities, except: set<Tid>) {
    forall x | StatusOf(k, x) == Blocked && x !in except :: Covered(k, pri, x)
  }

  ghost predicate AtLeast(high: Priorities, low: Priorities) {
    forall x :: KeyOf(low, x) <= KeyOf(high, x)
  }

  /** The order that lock operations maintain between the two priorities of every thread. */
  ghost predicate OriginalsBelow(k: State, pri: Priorities) {
    forall x :: KeyOf(k.orig, x) <= KeyOf(pri, x)
  }

  /** Every lock holder is a thread. */
  ghost predicate HoldersKnown(k: State) {
    forall x :: match BlockerOf(k, x) case None => true case Some(h) => h in k.status
  }

  /** Every donation ends, in an assertion failure or in priorities for the same threads; it raises
      priorities only, and only to the donor's; and it fails no assertion when no thread's original
      priority exceeds its current one, an order it keeps. */
  lemma {:induction false} DonateRaises(k: State, t: Tid, pri: Priorities)
    requires k.status.Keys == pri.Keys && HoldersKnown(k)
    ensures OriginalsBelow(k, pri) ==> Donate(k, t, pri).Donated?
    ensures var r := Donate(k, t, pri); r.Donated? ==>
      && r.pri.Keys == pri.Keys && AtLeast(r.pri, pri)
      && (forall x :: KeyOf(r.pri, x) == KeyOf(pri, x) || KeyOf(r.pri, x) == KeyOf(pri, t))
      && (OriginalsBelow(k, pri) ==> OriginalsBelow(k, r.pri))
    decreases Lower(pri, t)
  {
    match BlockerOf(k, t)
    case None =>
    case Some(b) =>
      if KeyOf(k.orig, b) <= KeyOf(pri, b) < KeyOf(pri, t) && StatusOf(k, b) == Blocked {
        LowerShrinks(pri, t, b);
        DonateRaises(k, b, pri[b := KeyOf(pri, t)]);
      }
  }

  /** If every other blocked thread was covered, afterwards t and every blocked thread is. */
  lemma {:induction false} DonateCovers(k: State, t: Tid, pri: Priorities)
    requires k.status.Keys == pri.Keys && HoldersKnown(k)
    requires BlockedCovered(k, pri, {t})
    requires Donate(k, t, pri).Donated?
    ensures var r := Donate(k, t, pri).pri;
      Covered(k, r, t) && BlockedCovered(k, r, {})
    decreases Lower(pri, t)
  {
    DonateRaises(k, t, pri);
    match BlockerOf(k, t)
    case None =>
    case Some(b) =>
      if KeyOf(pri, b) < KeyOf(pri, t) {
        var pri' := pri[b := KeyOf(pri, t)];
        forall x | StatusOf(k, x) == Blocked && x !in {b} ensures Covered(k, pri', x) {
          if x != t { assert Covered(k, pri, x); }
        }
        if StatusOf(k, b) == Blocked {
          LowerShrinks(pri, t, b);
          DonateRaises(k, b, pri');
          DonateCovers(k, b, pri');
        }
      }
  }

  /** No smaller priorities would do: any that are at least the old ones and cover t and every
      blocked thread are at least the donated ones. */
  lemma {:induction false} DonateIsLeast(k: State, t: Tid, pri: Priorities, other: Priorities)
    requires k.status.Keys == pri.Keys && HoldersKnown(k)
    requires AtLeast(other, pri) && Covered(k, other, t) && BlockedCovered(k, other, {})
    requires Donate(k, t, pri).Donated?
    ensures AtLeast(other, Donate(k, t, pri).pri)
    decreases Lower(pri, t)
  {
    match BlockerOf(k, t)
    case None =>
    case Some(b) =>
      if KeyOf(pri, b) < KeyOf(pri, t) && StatusOf(k, b) == Blocked {
        LowerShrinks(pri, t, b);
        DonateIsLeast(k, b, pri[b := KeyOf(pri, t)], other);
      }
  }
}
