/** The ticket protocol of a condition variable, one atomic step per stretch of code that holds the mutex. */
module CondProtocol {
  datatype KStatus = ESUCCESS | EINVAL | EOWNERDEAD | EAGAIN

  // a thread in the wait list
  datatype Waiter = Waiter(ticket: nat, thread: nat)

  datatype Cond = Cond(ticket: nat, wakeUpBefore: nat, alive: bool, waitList: seq<Waiter>)

  // what can happen to the condition, in any order
  datatype Event = Wait(thread: nat) | Signal(broadcast: bool) | Return(who: nat) | Destroy

  const INITIAL: Cond := Cond(0, 0, true, [])

  function Remove(s: seq<Waiter>, ticket: nat): seq<Waiter> {
    if s == [] then [] else if s[0].ticket == ticket then s[1..] else [s[0]] + Remove(s[1..], ticket)
  }

  // the ticket below which a signal wakes
  function WakeLimit(c: Cond, broadcast: bool): nat
    requires c.waitList != []
  { if broadcast then c.ticket else c.waitList[0].ticket + 1 }

  predicate Effective(c: Cond, e: Event) { e.Signal? && c.alive && c.waitList != [] }

  function Apply(c: Cond, e: Event): Cond {
    match e
    case Wait(thread) =>
      if c.alive then c.(ticket := c.ticket + 1, waitList := c.waitList + [Waiter(c.ticket, thread)]) else c
    case Signal(broadcast) => if Effective(c, e) then c.(wakeUpBefore := WakeLimit(c, broadcast)) else c
    case Return(who) => c.(waitList := Remove(c.waitList, who))
    case Destroy => c.(alive := false)
  }

  function Run(es: seq<Event>): Cond { if es == [] then INITIAL else Apply(Run(es[..|es| - 1]), es[|es| - 1]) }

  // what a wait with this ticket returns once it has the mutex again
  function Outcome(c: Cond, ticket: nat): KStatus {
    if !c.alive then EOWNERDEAD
    else if (c.ticket > ticket && c.wakeUpBefore > ticket) || (c.ticket < ticket && c.wakeUpBefore > ticket)
    then ESUCCESS
    else EAGAIN
  }

  // ---- what every step keeps

  ghost predicate Rising(s: seq<Waiter>) { forall i, j :: 0 <= i < j < |s| ==> s[i].ticket < s[j].ticket }

  ghost predicate Orderly(c: Cond) {
    c.wakeUpBefore <= c.ticket && Rising(c.waitList) && forall w <- c.waitList :: w.ticket < c.ticket
  }

  lemma {:induction false} RemoveMembers(s: seq<Waiter>, ticket: nat)
    ensures forall w <- Remove(s, ticket) :: w in s
    ensures forall w <- s :: w.ticket != ticket ==> w in Remove(s, ticket)
  {
    if s != [] {
      assert forall w <- s :: w == s[0] || w in s[1..];
      if s[0].ticket != ticket { RemoveMembers(s[1..], ticket); }
    }
  }

  lemma {:induction false} RemoveRising(s: seq<Waiter>, ticket: nat)
    requires Rising(s)
    ensures Rising(Remove(s, ticket)) && forall w <- Remove(s, ticket) :: w.ticket != ticket
  {
    if s != [] && s[0].ticket != ticket {
      var r := Remove(s[1..], ticket);
      LaterAbove(s);
      RemoveRising(s[1..], ticket);
      RemoveMembers(s[1..], ticket);
      forall k | 0 <= k < |r| ensures s[0].ticket < r[k].ticket {
        assert r[k] in s[1..];
      }
    } else if s != [] {
      LaterAbove(s);
    }
  }

  lemma LaterAbove(s: seq<Waiter>)
    requires Rising(s) && s != []
    ensures Rising(s[1..]) && forall w <- s[1..] :: s[0].ticket < w.ticket
  {
    forall w | w in s[1..] ensures s[0].ticket < w.ticket {
      var k :| 0 <= k < |s[1..]| && s[1..][k] == w;
      assert s[k + 1] == w;
    }
  }

  /** After any events, the tickets in the wait list rise from head to tail and no wake limit is ahead of the counter.
      */
  lemma {:induction false} AlwaysOrderly(es: seq<Event>)
    ensures Orderly(Run(es))
  {
    if es != [] {
      var c, e := Run(es[..|es| - 1]), es[|es| - 1];
      AlwaysOrderly(es[..|es| - 1]);
      if e.Return? {
        RemoveRising(c.waitList, e.who);
        RemoveMembers(c.waitList, e.who);
      }
    }
  }

  // ---- who is in the list

  lemma {:induction false} AliveExact(es: seq<Event>)
    ensures Run(es).alive <==> Destroy !in es
  {
    if es != [] {
      var before := es[..|es| - 1];
      AliveExact(before);
      assert es == before + [es[|es| - 1]];
    }
  }

  // w joined with the event at i, with the ticket that came next then, and has not returned
  ghost predicate Joined(es: seq<Event>, i: nat, w: Waiter) {
    && i < |es| && es[i] == Wait(w.thread) && Destroy !in es[..i]
    && w.ticket == Run(es[..i]).ticket && Return(w.ticket) !in es[i + 1..]
  }

  lemma JoinedBefore(es: seq<Event>, i: nat, w: Waiter)
    requires i + 1 < |es|
    ensures Joined(es, i, w) <==> Joined(es[..|es| - 1], i, w) && es[|es| - 1] != Return(w.ticket)
  {
    var n := |es| - 1;
    assert es[..n][..i] == es[..i] && es[i + 1..] == es[..n][i + 1..] + [es[n]];
  }

  /** The wait list holds exactly the threads that came to wait while the condition was alive and have not returned,
      each with the ticket it drew. */
  lemma {:induction false} ListedExact(es: seq<Event>, w: Waiter)
    ensures w in Run(es).waitList <==> exists i: nat :: Joined(es, i, w)
  {
    if es != [] {
      var n := |es| - 1;
      var before, e := es[..n], es[n];
      ListedExact(before, w);
      ListedStep(before, e, w);
      forall i: nat | i < n ensures Joined(es, i, w) <==> Joined(before, i, w) && e != Return(w.ticket) {
        JoinedBefore(es, i, w);
      }
      AliveExact(before);
      assert Joined(es, n, w) <==> e == Wait(w.thread) && Run(before).alive && w.ticket == Run(before).ticket;
    }
  }

  // how one event changes the list
  lemma ListedStep(es: seq<Event>, e: Event, w: Waiter)
    ensures w in Apply(Run(es), e).waitList <==>
              || (w in Run(es).waitList && e != Return(w.ticket))
              || (e == Wait(w.thread) && Run(es).alive && w.ticket == Run(es).ticket)
  {
    AlwaysOrderly(es);
    if e.Return? {
      RemoveMembers(Run(es).waitList, e.who);
      RemoveRising(Run(es).waitList, e.who);
    }
  }

  /** A waiter that has not returned yet is told that the condition is dead exactly when it was destroyed. */
  lemma DeadExact(es: seq<Event>, w: Waiter)
    requires w in Run(es).waitList
    ensures Outcome(Run(es), w.ticket) == EOWNERDEAD <==> Destroy in es
  {
    AliveExact(es);
  }

  /** A signal gives success to all waiters if it is a broadcast, and otherwise to the oldest one alone. */
  lemma ServesExact(c: Cond, broadcast: bool, w: Waiter)
    requires Orderly(c) && c.alive && w in c.waitList
    ensures Outcome(Apply(c, Signal(broadcast)), w.ticket) ==
            if broadcast || w == c.waitList[0] then ESUCCESS else EAGAIN
  {
    var k :| 0 <= k < |c.waitList| && c.waitList[k] == w;
    assert k > 0 ==> c.waitList[0].ticket < w.ticket;
  }

  // ---- what success means

  // the event at i is a signal that wakes up to a ticket beyond this one
  ghost predicate Covers(es: seq<Event>, i: nat, ticket: nat) {
    i < |es| && Effective(Run(es[..i]), es[i]) && WakeLimit(Run(es[..i]), es[i].broadcast) > ticket
  }

  ghost predicate LastSignal(es: seq<Event>, i: nat) {
    i < |es| && forall k {:trigger es[k]} :: i < k < |es| ==> !Effective(Run(es[..k]), es[k])
  }

  lemma {:induction false} LimitFrom(es: seq<Event>, ticket: nat)
    ensures Run(es).wakeUpBefore > ticket <==> exists i: nat :: Covers(es, i, ticket) && LastSignal(es, i)
  {
    if es == [] {
    } else {
      var n := |es| - 1;
      var before, c := es[..n], Run(es[..n]);
      LimitFrom(before, ticket);
      if Effective(c, es[n]) {
        assert LastSignal(es, n);
        assert Covers(es, n, ticket) <==> Run(es).wakeUpBefore > ticket;
        forall i: nat | i < n ensures !LastSignal(es, i) { NotLast(es, i); }
      } else {
        assert Run(es).wakeUpBefore == c.wakeUpBefore;
        forall i: nat
          ensures (Covers(es, i, ticket) && LastSignal(es, i)) == (Covers(before, i, ticket) && LastSignal(before, i))
        {
          SameBefore(es, i, ticket);
        }
      }
    }
  }

  lemma NotLast(es: seq<Event>, i: nat)
    requires i + 1 < |es| && Effective(Run(es[..|es| - 1]), es[|es| - 1])
    ensures !LastSignal(es, i)
  {
    assert es[|es| - 1] == es[|es| - 1];
  }

  // an event without effect on the limit changes neither which signals cover a ticket nor which is the last
  lemma SameBefore(es: seq<Event>, i: nat, ticket: nat)
    requires es != [] && !Effective(Run(es[..|es| - 1]), es[|es| - 1])
    ensures (Covers(es, i, ticket) && LastSignal(es, i)) == (Covers(es[..|es| - 1], i, ticket)
        && LastSignal(es[..|es| - 1], i))
  {
    var n := |es| - 1;
    if i < n {
      assert es[..n][..i] == es[..i];
      SameLast(es, i);
    }
  }

  lemma SameLast(es: seq<Event>, i: nat)
    requires i + 1 < |es| && !Effective(Run(es[..|es| - 1]), es[|es| - 1])
    ensures LastSignal(es, i) == LastSignal(es[..|es| - 1], i)
  {
    var before := es[..|es| - 1];
    forall k | i < k < |before| ensures before[k] == es[k] && Run(before[..k]) == Run(es[..k]) {
      assert before[..k] == es[..k];
    }
  }

  /** A wait returns success exactly when the last signal to find anyone waiting covers its ticket; that signal was then
      made after the ticket had been drawn. */
  lemma SuccessExact(es: seq<Event>, w: Waiter)
    requires w in Run(es).waitList && Run(es).alive
    ensures Outcome(Run(es), w.ticket) == ESUCCESS <==> exists i: nat :: Covers(es, i, w.ticket) && LastSignal(es, i)
    ensures forall i: nat :: Covers(es, i, w.ticket) ==> w.ticket < Run(es[..i]).ticket
  {
    AlwaysOrderly(es);
    LimitFrom(es, w.ticket);
    forall i: nat | Covers(es, i, w.ticket) ensures w.ticket < Run(es[..i]).ticket {
      AlwaysOrderly(es[..i]);
      var c := Run(es[..i]);
      assert c.waitList[0] in c.waitList;
    }
  }

  /** Success is not sure for a waiter that a signal has woken: a later single signal takes the limit back. */
  lemma BroadcastLost()
    ensures var es := [Wait(1), Wait(2), Signal(true), Signal(false)];
            Covers(es, 2, 1) && Waiter(1, 2) in Run(es).waitList && Outcome(Run(es), 1) == EAGAIN
  {
    var es := [Wait(1), Wait(2), Signal(true), Signal(false)];
    assert es[..3] == [Wait(1), Wait(2), Signal(true)];
    assert es[..3][..2] == es[..2] == [Wait(1), Wait(2)];
    assert es[..2][..1] == [Wait(1)];
    assert es[..2][..1][..0] == [];
    assert Run(es[..2][..1]) == Cond(1, 0, true, [Waiter(0, 1)]);
    assert Run(es[..2]) == Cond(2, 0, true, [Waiter(0, 1), Waiter(1, 2)]);
    assert Run(es[..3]) == Cond(2, 2, true, [Waiter(0, 1), Waiter(1, 2)]);
    assert Run(es) == Cond(2, 1, true, [Waiter(0, 1), Waiter(1, 2)]);
  }

  // a signal takes success away from nobody who has it and has not left yet
  ghost predicate Harmless(c: Cond, broadcast: bool) {
    forall w {:trigger Served(c, w)} :: w in c.waitList && Served(c, w) ==> Served(Apply(c, Signal(broadcast)), w)
  }

  predicate Served(c: Cond, w: Waiter) { Outcome(c, w.ticket) == ESUCCESS }

  /** A signal is harmless just when it is a broadcast, or nobody but the oldest waiter is below the wake limit yet. */
  lemma HarmlessExact(c: Cond, broadcast: bool)
    requires Orderly(c) && c.alive && c.waitList != []
    ensures Harmless(c, broadcast) <==> broadcast || |c.waitList| == 1 || c.waitList[1].ticket >= c.wakeUpBefore
  {
    var s, c' := c.waitList, Apply(c, Signal(broadcast));
    assert s[0] in s;
    if broadcast || |s| == 1 || s[1].ticket >= c.wakeUpBefore {
      forall w | w in s && Served(c, w) ensures Served(c', w) {
        var k :| 0 <= k < |s| && s[k] == w;
        assert k > 1 ==> s[1].ticket < s[k].ticket;
      }
    } else {
      assert s[1] in s && Served(c, s[1]) && !Served(c', s[1]);
    }
  }

  /** The condition of the waiting thread, kept under the mutex. */
  class CondVar {
    var ticket: nat
    var wakeUpBefore: nat
    var alive: bool
    var waitList: seq<Waiter>

    constructor ()
      ensures View() == INITIAL
    {
      ticket, wakeUpBefore, alive, waitList := 0, 0, true, [];
    }

    ghost function View(): Cond
      reads this
    { Cond(ticket, wakeUpBefore, alive, waitList) }

    // up to the point where the mutex is released; none of a ticket is drawn from a dead condition
    method StartWait(thread: nat) returns (status: KStatus, drawn: nat)
      modifies this
      ensures View() == Apply(old(View()), Wait(thread))
      ensures status == if old(alive) then ESUCCESS else EINVAL
      ensures status == ESUCCESS ==>
                && drawn == old(ticket) && ticket == drawn + 1
                && waitList == old(waitList) + [Waiter(drawn, thread)]
    {
      drawn := 0;
      if !alive {
        return EINVAL, drawn;
      }
      drawn := ticket;
      ticket := ticket + 1;
      waitList := waitList + [Waiter(drawn, thread)];
      return ESUCCESS, drawn;
    }

    // from the point where the mutex is held again
    method FinishWait(mine: nat) returns (status: KStatus)
      modifies this
      ensures View() == Apply(old(View()), Return(mine)) && status == Outcome(View(), mine)
      ensures (status == EOWNERDEAD <==> !alive) && status != EINVAL
      ensures alive && mine < ticket ==> (status == ESUCCESS <==> mine < wakeUpBefore)
    {
      waitList := Remove(waitList, mine);
      if !alive {
        return EOWNERDEAD;
      } else if (ticket > mine && wakeUpBefore > mine) || (ticket < mine && wakeUpBefore > mine) {
        return ESUCCESS;
      } else {
        return EAGAIN;
      }
    }

    /** core_pm_cond_signal: a single signal resumes exactly the oldest waiter, a broadcast resumes all. */
    method SignalAll(broadcast: bool) returns (status: KStatus, resumed: seq<nat>)
      requires Orderly(View())
      modifies this
      ensures View() == Apply(old(View()), Signal(broadcast)) && Orderly(View())
      ensures status == if old(alive) then ESUCCESS else EINVAL
      ensures waitList == old(waitList) && ticket == old(ticket) && alive == old(alive)
      ensures wakeUpBefore == if !alive || waitList == [] then old(wakeUpBefore)
                              else if broadcast then ticket else waitList[0].ticket + 1
      ensures resumed == if !alive || waitList == [] then []
                         else if broadcast then Threads(waitList) else [waitList[0].thread]
    {
      resumed := [];
      if !alive {
        return EINVAL, resumed;
      }
      if waitList == [] {
        return ESUCCESS, resumed;
      }
      if broadcast {
        wakeUpBefore := ticket;
      } else {
        wakeUpBefore := waitList[0].ticket + 1;
      }
      var i := 0;
      assert waitList[0] in waitList;
      while i < |waitList|
        invariant i <= |waitList| && waitList == old(waitList) && View() == Apply(old(View()), Signal(broadcast))
            && Orderly(View())
        invariant resumed == Threads(waitList[..i]) && (!broadcast ==> i <= 1)
      {
        if waitList[i].ticket >= wakeUpBefore {
          assert waitList[i] in waitList;
          break;
        }
        ThreadsMore(waitList, i);
        resumed := resumed + [waitList[i].thread];
        i := i + 1;
      }
      assert i == |waitList| ==> waitList[..i] == waitList;
      assert !broadcast ==> waitList[..1] == [waitList[0]];
      status := ESUCCESS;
    }
  }

  function Threads(s: seq<Waiter>): seq<nat> { if s == [] then [] else [s[0].thread] + Threads(s[1..]) }

  lemma {:induction false} ThreadsMore(s: seq<Waiter>, i: nat)
    requires i < |s|
    ensures Threads(s[..i + 1]) == Threads(s[..i]) + [s[i].thread]
  {
    if i > 0 {
      ThreadsMore(s[1..], i - 1);
      assert s[..i + 1][1..] == s[1..][..i] && s[..i][1..] == s[1..][..i - 1];
    } else {
      assert s[..1][1..] == [];
    }
  }
}
