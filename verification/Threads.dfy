/** Thread objects: time slices, and sleeping against a 64-bit clock that wraps around. */
module Threads {
  const MAX_TIME_SLICE_NUM: nat := 8
  const PRIORITY_HIGHEST: nat := 255
  const PRIORITY_IDLE_TASK: nat := 1
  const PRIORITY_DISPATCH: nat := 64
  const TWO_64: nat := 0x1_0000_0000_0000_0000

  datatype Status = Running | Ready | Suspend | Sleep | Zombie

  // the time slices a refill gives
  function Budget(priority: nat): nat { MAX_TIME_SLICE_NUM * priority / PRIORITY_DISPATCH + 1 }

  /** Eight priorities below the dispatch level share a budget: one slice for the lowest eight, one more for each eight
      above. */
  lemma BudgetExact(priority: nat, n: nat)
    requires priority < PRIORITY_DISPATCH
    ensures Budget(priority) == n + 1 <==> 8 * n <= priority < 8 * n + 8
    ensures 1 <= Budget(priority) <= 8
  {}

  // the clock has passed the awake time, both being read modulo 2^64
  predicate Due(begin: nat, awake: nat, now: nat) {
    if awake > begin then now >= awake || now < begin else now >= awake && now < begin
  }

  function Elapsed(begin: nat, now: nat): nat
    requires begin < TWO_64 && now < TWO_64
  { (now + TWO_64 - begin) % TWO_64 }

  function AwakeTime(begin: nat, micros: nat): nat { (begin + micros) % TWO_64 }

  lemma ElapsedExact(begin: nat, now: nat)
    requires begin < TWO_64 && now < TWO_64
    ensures Elapsed(begin, now) < TWO_64 && (begin + Elapsed(begin, now)) % TWO_64 == now
  {
    assert Elapsed(begin, now) == if now >= begin then now - begin else now + TWO_64 - begin;
  }

  /** A sleeper is due exactly when the time elapsed since it lay down, modulo the clock, has reached its duration. */
  lemma DueExact(begin: nat, micros: nat, now: nat)
    requires begin < TWO_64 && 0 < micros < TWO_64 && now < TWO_64
    ensures Due(begin, AwakeTime(begin, micros), now) <==> Elapsed(begin, now) >= micros
  {
    var total := begin + micros;
    assert AwakeTime(begin, micros) == if total < TWO_64 then total else total - TWO_64;
    assert Elapsed(begin, now) == if now >= begin then now - begin else now + TWO_64 - begin;
  }

  ghost predicate DueRight(begin: nat, micros: nat)
    requires begin < TWO_64
  {
    forall now: nat :: now < TWO_64 ==> (Due(begin, AwakeTime(begin, micros), now) <==> Elapsed(begin, now) >= micros)
  }

  /** Waking works for every duration but zero: a sleeper of less than a microsecond is never due. */
  lemma DueOnlyIfLong(begin: nat, micros: nat)
    requires begin < TWO_64 && micros < TWO_64
    ensures DueRight(begin, micros) <==> micros > 0
    ensures micros == 0 ==> forall now: nat :: !Due(begin, AwakeTime(begin, micros), now)
  {
    if micros > 0 {
      forall now: nat | now < TWO_64
        ensures Due(begin, AwakeTime(begin, micros), now) <==> Elapsed(begin, now) >= micros
      {
        DueExact(begin, micros, now);
      }
    } else {
      assert Elapsed(begin, begin) >= micros && !Due(begin, AwakeTime(begin, micros), begin);
    }
  }

  // what is reported to a sleeper woken early, in nanoseconds, on 64-bit numbers
  function Rest(awake: nat, now: nat): nat
    requires awake < TWO_64 && now < TWO_64
  { (awake + TWO_64 - now) % TWO_64 * 1000 % TWO_64 }

  /** The rest of a sleep of whole microseconds that is not over is the part of its time that has not gone by. */
  lemma RestOfSleep(begin: nat, micros: nat, now: nat)
    requires begin < TWO_64 && 0 < micros && micros * 1000 < TWO_64 && now < TWO_64
    requires !Due(begin, AwakeTime(begin, micros), now)
    ensures Elapsed(begin, now) < micros
    ensures Rest(AwakeTime(begin, micros), now) == (micros - Elapsed(begin, now)) * 1000
  {
    DueExact(begin, micros, now);
    var awake, left := AwakeTime(begin, micros), micros - Elapsed(begin, now);
    assert awake == if begin + micros < TWO_64 then begin + micros else begin + micros - TWO_64;
    assert Elapsed(begin, now) == if now >= begin then now - begin else now + TWO_64 - begin;
    assert (awake + TWO_64 - now) % TWO_64 == left;
  }

  // at whatever time a sleeper is woken early, no more is reported than was asked for
  ghost predicate RestSound(begin: nat, ns: nat)
    requires begin < TWO_64
  {
    forall now: nat :: now < TWO_64 && !Due(begin, AwakeTime(begin, ns / 1000), now) ==>
      Rest(AwakeTime(begin, ns / 1000), now) <= ns
  }

  /** The rest reported never exceeds the time asked for just when that is at least a microsecond. */
  lemma RestExact(begin: nat, ns: nat)
    requires begin < TWO_64 && ns < TWO_64
    ensures RestSound(begin, ns) <==> ns >= 1000
  {
    if ns >= 1000 {
      forall now: nat | now < TWO_64 && !Due(begin, AwakeTime(begin, ns / 1000), now)
        ensures Rest(AwakeTime(begin, ns / 1000), now) <= ns
      {
        RestOfSleep(begin, ns / 1000, now);
      }
    } else {
      var now := (begin + 1) % TWO_64;
      DueOnlyIfLong(begin, 0);
      assert (begin + TWO_64 - now) % TWO_64 == TWO_64 - 1;
      assert Rest(AwakeTime(begin, ns / 1000), now) == TWO_64 - 1000;
    }
  }

  /** Should the sleeper fall due before the clock is read again, what is reported is within its time just when that
      has not gone by entirely. */
  lemma RestInTime(begin: nat, micros: nat, later: nat)
    requires begin < TWO_64 && 0 < micros && micros * 1000 < TWO_64 && later < TWO_64
    requires Elapsed(begin, later) * 1000 < TWO_64
    ensures Rest(AwakeTime(begin, micros), later) <= micros * 1000 <==> Elapsed(begin, later) <= micros
  {
    DueExact(begin, micros, later);
    var awake, past := AwakeTime(begin, micros), Elapsed(begin, later) - micros;
    if past < 0 {
      RestOfSleep(begin, micros, later);
    } else {
      assert awake == if begin + micros < TWO_64 then begin + micros else begin + micros - TWO_64;
      assert Elapsed(begin, later) == if later >= begin then later - begin else later + TWO_64 - begin;
      assert (awake + TWO_64 - later) % TWO_64 == if past == 0 then 0 else TWO_64 - past;
      assert past > 0 ==> (TWO_64 - past) * 1000 == 999 * TWO_64 + (TWO_64 - past * 1000);
    }
  }

  /** Asleep for 500 nanoseconds and woken after 5 microseconds, a thread is told that almost all of 2^64 are left; so
      is one that sleeps for a microsecond and falls due just before the clock is read again. */
  lemma RestShown()
    ensures !Due(10, AwakeTime(10, 500 / 1000), 15) && Rest(AwakeTime(10, 500 / 1000), 15) == TWO_64 - 5000
    ensures !Due(10, AwakeTime(10, 1), 10) && Due(10, AwakeTime(10, 1), 12)
    ensures Rest(AwakeTime(10, 1), 12) == TWO_64 - 1000
  {}

  class Thread {
    var priority: nat
    var status: Status
    var slices: nat
    var begin: nat
    var awake: nat
    var nsLeft: nat

    constructor (priority: nat)
      ensures this.priority == priority && status == Ready && slices == 0 && nsLeft == 0
    {
      this.priority, status, slices, begin, awake, nsLeft := priority, Ready, 0, 0, 0, 0;
    }

    predicate IsReady()
      reads this
    { status == Running || status == Ready }

    // what can_run answers at this moment
    predicate Runnable(now: nat)
      reads this
    {
      (IsReady() && (priority >= PRIORITY_DISPATCH || slices > 0)) || (status == Sleep && Due(begin, awake, now))
    }

    // due sleepers wake up on being asked
    method CanRun(now: nat) returns (r: bool)
      modifies this`status, this`slices, this`nsLeft
      ensures r == old(Runnable(now))
      ensures old(status) == Running || old(status) == Ready ==> (r <==> priority >= PRIORITY_DISPATCH || slices > 0)
      ensures old(status) == Suspend || old(status) == Zombie ==> !r
      ensures if r && old(status) == Sleep
              then
                && status == Ready && nsLeft == 0
                && slices == (if priority < PRIORITY_DISPATCH then Budget(priority) else 0)
              else status == old(status) && slices == old(slices) && nsLeft == old(nsLeft)
    {
      if status == Running || status == Ready {
        if priority >= PRIORITY_DISPATCH {
          return true;
        } else {
          return slices > 0;
        }
      } else if status == Sleep {
        if awake > begin {
          if now >= awake || now < begin {
            nsLeft := 0;
            status := Ready;
            slices := 0;
            ResetTimeslice();
            return true;
          } else {
            return false;
          }
        } else {
          if now >= awake && now < begin {
            nsLeft := 0;
            status := Ready;
            slices := 0;
            ResetTimeslice();
            return true;
          } else {
            return false;
          }
        }
      } else {
        return false;
      }
    }

    method ResetTimeslice()
      modifies this`slices
      ensures slices == if Refills() then Budget(priority) else old(slices)
    {
      if priority < PRIORITY_DISPATCH && (status == Ready || status == Running) && slices == 0 {
        slices := MAX_TIME_SLICE_NUM * priority / PRIORITY_DISPATCH + 1;
      }
    }

    twostate predicate Refills()
      reads this
    { priority < PRIORITY_DISPATCH && IsReady() && old(slices) == 0 }

    // the number of slices is a 32-bit word
    method Resume()
      modifies this`status, this`slices
      ensures status == (if old(status) == Ready then Running else old(status))
      ensures slices == if priority >= PRIORITY_DISPATCH then old(slices)
                        else if old(slices) > 0 then old(slices) - 1 else 0xFFFF_FFFF
    {
      if status == Ready {
        status := Running;
      }
      if priority < PRIORITY_DISPATCH {
        slices := if slices > 0 then slices - 1 else 0xFFFF_FFFF;
      }
    }

    /** Asked at any later clock value, the sleeper can run exactly when its whole microseconds have gone by, if there
        are any, and never if there are none. */
    method SetSleepTime(ns: nat, now: nat)
      requires now < TWO_64 && ns < TWO_64
      modifies this`begin, this`awake, this`nsLeft
      ensures begin == now && nsLeft == ns && status == old(status)
      ensures status == Sleep ==>
                forall t: nat :: t < TWO_64 ==> (Runnable(t) <==> ns >= 1000 && Elapsed(now, t) >= ns / 1000)
    {
      nsLeft := ns;
      begin := now;
      awake := (begin + ns / 1000) % TWO_64;
      DueOnlyIfLong(now, ns / 1000);
    }

    /** Woken before it is due, a sleeper of whole microseconds is told how much of its time has not gone by. The clock
        is read a second time for that. */
    method Wakeup(now: nat, later: nat)
      requires now < TWO_64 && later < TWO_64 && begin < TWO_64 && awake < TWO_64
      modifies this`status, this`slices, this`nsLeft
      ensures old(status) == Sleep ==>
                IsReady() && slices == (if priority < PRIORITY_DISPATCH then Budget(priority) else 0)
      ensures old(status) == Sleep ==> nsLeft == if old(Runnable(now)) then 0 else Rest(awake, later)
      ensures old(status) == Sleep && !old(Runnable(now)) && !Due(begin, awake, later) ==>
                forall micros: nat :: 0 < micros && micros * 1000 < TWO_64 && awake == AwakeTime(begin, micros) ==>
                  nsLeft == (micros - Elapsed(begin, later)) * 1000
      ensures old(status) != Sleep ==> status == old(status) && slices == old(slices) && nsLeft == old(nsLeft)
    {
      var runs := CanRun(now);
      if !runs && status == Sleep {
        nsLeft := (awake + TWO_64 - later) % TWO_64 * 1000 % TWO_64;
        status := Ready;
        slices := 0;
        ResetTimeslice();
        forall micros: nat | 0 < micros && micros * 1000 < TWO_64 && awake == AwakeTime(begin, micros)
          ensures !Due(begin, awake, later) ==> nsLeft == (micros - Elapsed(begin, later)) * 1000
        {
          if !Due(begin, awake, later) { RestOfSleep(begin, micros, later); }
        }
      }
    }
  }
}
