/** The scheduler of one processor: 256 circular lists of waiting threads, read from their heads. */
module Schedulers {
  import opened Threads
  import opened WaitingTime
  import opened Wrappers

  type Lists = seq<seq<Thread>>

  ghost predicate Distinct(s: seq<Thread>) { forall i, j :: 0 <= i < j < |s| ==> s[i] != s[j] }

  // the thread at k leaves a circular list that had been turned until it was at the head
  function Turned(s: seq<Thread>, k: nat): seq<Thread>
    requires k < |s|
  { s[k + 1..] + s[..k] }

  /** The list then starts behind k and ends before it, nobody else having changed places on the circle. */
  lemma TurnedExact(s: seq<Thread>, k: nat, j: nat)
    requires k < |s| && j < |s| - 1
    ensures |Turned(s, k)| == |s| - 1
    ensures Turned(s, k)[j] == s[if k + 1 + j < |s| then k + 1 + j else k + 1 + j - |s|]
  {}

  lemma TurnedMembers(s: seq<Thread>, k: nat)
    requires k < |s| && Distinct(s)
    ensures Distinct(Turned(s, k)) && s[k] !in Turned(s, k)
    ensures forall t :: t in s && t != s[k] ==> t in Turned(s, k)
    ensures forall t :: t in Turned(s, k) ==> t in s
  {
    forall t | t in s && t != s[k] ensures t in Turned(s, k) {
      var i :| 0 <= i < |s| && s[i] == t;
      assert Turned(s, k)[if i > k then i - k - 1 else |s| - k - 1 + i] == t;
    }
  }

  lemma TurnStep(s: seq<Thread>, k: nat)
    requires k < |s|
    ensures var c := s[k..] + s[..k];
            c[0] == s[k] && c[1..] + [c[0]] == s[k + 1..] + s[..k + 1] && Turned(c, 0) == Turned(s, k)
  {}

  lemma FullTurn(s: seq<Thread>, k: nat)
    requires Distinct(s) && 0 < k <= |s| && (s[k..] + s[..k])[0] == s[0]
    ensures k == |s| && s[k..] + s[..k] == s && s[..k] == s
  {
    assert k == |s| ==> s[k..] == [];
  }

  lemma SetTwice(s: Lists, p: nat, a: seq<Thread>, b: seq<Thread>)
    requires p < |s|
    ensures s[p := a][p := b] == s[p := b] && s[p := s[p]] == s
  {}

  class Scheduler {
    var lists: Lists
    var current: Thread
    var priority: nat
    var enabled: bool
    var inSched: bool
    var enableSched: bool
    ghost var threads: set<Thread>
    ghost var dispatched: seq<Thread>  // all threads the processor was switched to, in order

    // the processor starts out on its first thread
    constructor (first: Thread)
      requires PRIORITY_IDLE_TASK < first.priority <= PRIORITY_HIGHEST
      ensures Valid() && current == first && threads == {first} && !enabled && !inSched && !enableSched
      ensures dispatched == []
    {
      lists, current, priority := seq(PRIORITY_HIGHEST + 1, i => []), first, first.priority;
      enabled, inSched, enableSched, threads, dispatched := false, false, false, {first}, [];
      new;
      forall p: nat | p < |lists| ensures ListOk(lists[p], p, {first}) {}
      assert Placed(first, {first});
    }

    // t may wait in the list of priority p: below the dispatch level also asleep, from it upwards only ready to run
    static ghost predicate Waiting(t: Thread, p: nat)
      reads t
    { t.priority == p && PRIORITY_IDLE_TASK < p && (t.status == Ready || (t.status == Sleep && p < PRIORITY_DISPATCH)) }

    ghost predicate ListOk(s: seq<Thread>, p: nat, out: set<Thread>)
      reads this`threads, threads
    {
      Distinct(s) && forall t {:trigger Waiting(t, p)} :: t in s ==> t in threads && t !in out && Waiting(t, p)
    }

    ghost predicate Placed(t: Thread, out: set<Thread>)
      reads t, this`lists
    {
      t.priority <= PRIORITY_HIGHEST && (t.status != Suspend && t.status != Zombie && t !in out ==> Listed(lists, t))
    }

    static ghost predicate Listed(lists: Lists, t: Thread)
      reads t`priority
    { t.priority < |lists| && t in lists[t.priority] }

    // every thread that is neither suspended nor dead waits exactly once, in the list of its own priority, unless it
    // is out
    ghost predicate Queues(out: set<Thread>)
      reads this, threads
    {
      && |lists| == PRIORITY_HIGHEST + 1
      && (forall p: nat {:trigger ListOk(lists[p], p, out)} :: p < |lists| ==> ListOk(lists[p], p, out))
      && (forall t {:trigger Placed(t, out)} :: t in threads ==> Placed(t, out))
    }

    ghost predicate Valid()
      reads this, threads
    { current in threads && Queues({current}) && priority == current.priority && priority > PRIORITY_IDLE_TASK }

    method Dequeue(p: nat, k: nat, ghost out: set<Thread>) returns (t: Thread)
      requires Queues(out) && p < |lists| && k < |lists[p]|
      modifies this`lists
      ensures t == old(lists)[p][k] && t in threads && t !in out && Waiting(t, p)
      ensures lists == old(lists)[p := Turned(old(lists)[p], k)] && Queues(out + {t})
    {
      var s := lists[p];
      t := s[k];
      assert ListOk(s, p, out);
      assert Waiting(t, p);
      TurnedMembers(s, k);
      lists := lists[p := Turned(s, k)];
      forall q: nat | q < |lists| ensures ListOk(lists[q], q, out + {t}) {
        assert old(ListOk(lists[q], q, out));
        forall u | u in lists[q] ensures u in threads && u !in out + {t} && Waiting(u, q) { assert Waiting(u, q); }
      }
      forall u | u in threads ensures Placed(u, out + {t}) { assert old(Placed(u, out)); }
    }

    method Enqueue(t: Thread, ghost out: set<Thread>)
      requires Queues(out) && t in out && t in threads && t.priority <= PRIORITY_HIGHEST && Waiting(t, t.priority)
      modifies this`lists
      ensures lists == old(lists)[t.priority := old(lists)[t.priority] + [t]] && Queues(out - {t})
    {
      assert Placed(t, out);
      var p := t.priority;
      lists := lists[p := lists[p] + [t]];
      forall q: nat | q < |lists| ensures ListOk(lists[q], q, out - {t}) {
        assert old(ListOk(lists[q], q, out));
        forall u | u in lists[q] ensures u in threads && u !in out - {t} && Waiting(u, q) {
          assert u != t ==> Waiting(u, q);
        }
      }
      forall u | u in threads ensures Placed(u, out - {t}) { assert old(Placed(u, out)); }
    }

    // ---- looking for a thread to run

    ghost predicate Quiet(t: Thread, out: set<Thread>, lo: nat, hi: nat, now: nat)
      reads t
    { t !in out && lo < t.priority <= hi ==> !t.Runnable(now) }

    // no waiting thread of a priority in (lo, hi] can run
    ghost predicate Idle(out: set<Thread>, lo: nat, hi: nat, now: nat)
      reads this`threads, threads
    { forall t {:trigger Quiet(t, out, lo, hi, now)} :: t in threads ==> Quiet(t, out, lo, hi, now) }

    twostate predicate Same(t: Thread)
      reads t
    { t.status == old(t.status) && t.slices == old(t.slices) }

    // asked whether it can run, a thread that can is ready to
    twostate predicate Roused(t: Thread)
      reads t
    {
      if old(t.status) == Sleep then t.status == Ready && t.slices == Budget(t.priority)
      else t.status == old(t.status) && t.slices == old(t.slices)
    }

    method TurnList(p: nat, ghost out: set<Thread>)
      requires Queues(out) && p < |lists| && lists[p] != []
      modifies this`lists
      ensures Queues(out) && lists == old(lists)[p := old(lists)[p][1..] + [old(lists)[p][0]]]
    {
      var s := lists[p];
      lists := lists[p := s[1..] + [s[0]]];
      forall q: nat | q < |lists| ensures ListOk(lists[q], q, out) {
        assert old(ListOk(lists[q], q, out));
        forall u | u in lists[q] ensures u in threads && u !in out && Waiting(u, q) { assert Waiting(u, q); }
      }
      forall u | u in threads ensures Placed(u, out) {
        assert old(Placed(u, out));
        if u in s { assert u in s[1..] + [s[0]]; }
      }
    }

    // can_run of a waiting thread, which may wake it
    method Ask(t: Thread, p: nat, now: nat, ghost out: set<Thread>) returns (runs: bool)
      requires Queues(out) && p < PRIORITY_DISPATCH && t in lists[p]
      modifies t`status, t`slices, t`nsLeft
      ensures runs == old(t.Runnable(now)) && Queues(out) && t in threads && t !in out && t.priority == p
      ensures if runs then Roused(t) && t.status == Ready && t.Runnable(now) else Same(t)
    {
      assert ListOk(lists[p], p, out) && Waiting(t, p);
      runs := t.CanRun(now);
      forall q: nat | q < |lists| ensures ListOk(lists[q], q, out) {
        assert old(ListOk(lists[q], q, out));
        forall u | u in lists[q] ensures u in threads && u !in out && Waiting(u, q) { assert old(Waiting(u, q)); }
      }
      forall u | u in threads ensures Placed(u, out) { assert old(Placed(u, out)); }
    }

    // the head of a list, which was the k-th thread of s before the list was turned, is taken or passed by
    method TryHead(p: nat, now: nat, ghost out: set<Thread>, ghost s: seq<Thread>, ghost k: nat) returns (t: Thread?)
      requires Queues(out) && p < PRIORITY_DISPATCH && k < |s| && lists[p] == s[k..] + s[..k]
      modifies this`lists, threads`status, threads`slices, threads`nsLeft
      ensures t != null ==>
                lists == old(lists)[p := Turned(s, k)] && Queues(out + {t}) && t == s[k] && Chosen(t, p, now, out)
      ensures t == null ==> lists == old(lists)[p := s[k + 1..] + s[..k + 1]] && Queues(out) && !s[k].Runnable(now)
      ensures forall u <- threads :: u != t ==> Same(u)
    {
      var head := lists[p][0];
      TurnStep(s, k);
      assert ListOk(lists[p], p, out) && Waiting(head, p);
      var runs := Ask(head, p, now, out);
      if runs {
        t := Dequeue(p, 0, out);
      } else {
        t := null;
        TurnList(p, out);
      }
    }

    twostate predicate Chosen(t: Thread, p: nat, now: nat, out: set<Thread>)
      reads this`threads, t
    {
      && t in threads && t !in out && t.priority == p && t.status == Ready
      && old(t.Runnable(now)) && Roused(t) && t.Runnable(now)
    }

    // the first thread of a list that can run, the list being turned past the ones that cannot
    method ScanList(p: nat, now: nat, ghost out: set<Thread>) returns (t: Thread?, ghost k: nat)
      requires Queues(out) && p < PRIORITY_DISPATCH && lists[p] != []
      modifies this`lists, threads`status, threads`slices, threads`nsLeft
      ensures t == null ==> Queues(out) && lists == old(lists) && forall u <- lists[p] :: !u.Runnable(now)
      ensures t != null ==>
        && k < |old(lists)[p]| && t == old(lists)[p][k] && lists == old(lists)[p := Turned(old(lists)[p], k)]
        && Queues(out + {t}) && Chosen(t, p, now, out) && (forall u <- old(lists)[p][..k] :: !u.Runnable(now))
      ensures forall u <- threads :: u != t ==> Same(u)
    {
      ghost var s := lists[p];
      assert ListOk(s, p, out);
      var begin := lists[p][0];
      k := 0;
      t := null;
      assert s[k..] + s[..k] == s && lists[p := s] == lists;
      assert forall i :: 0 <= i < |s| ==> s[i] in threads by {
        forall i | 0 <= i < |s| ensures s[i] in threads { assert Waiting(s[i], p); }
      }
      while true
        invariant k < |s| && Queues(out) && lists == old(lists)[p := s[k..] + s[..k]]
        invariant forall i :: 0 <= i < k ==> !s[i].Runnable(now)
        invariant forall u <- threads :: Same(u)
        decreases |s| - k
      {
        SetTwice(old(lists), p, s[k..] + s[..k], Turned(s, k));
        SetTwice(old(lists), p, s[k..] + s[..k], s[k + 1..] + s[..k + 1]);
        label Before:
        t := TryHead(p, now, out, s, k);
        if t != null {
          return;
        }
        forall i | 0 <= i <= k ensures !s[i].Runnable(now) { assert i < k ==> Same@Before(s[i]); }
        k := k + 1;
        if lists[p][0] == begin {
          FullTurn(s, k);
          SetTwice(old(lists), p, s, s);
          return;
        }
      }
    }

    // the head of the highest non-empty list above floor, taken without asking
    method TakeRealtime(floor: nat, ghost out: set<Thread>, ghost now: nat) returns (t: Thread?)
      requires Queues(out) && PRIORITY_DISPATCH - 1 <= floor <= PRIORITY_HIGHEST
      modifies this`lists
      ensures t == null ==> lists == old(lists) && Queues(out) && Idle(out, floor, PRIORITY_HIGHEST, now)
      ensures t != null ==>
                && t in threads && t !in out && floor < t.priority && t.status == Ready && t.Runnable(now)
                && Queues(out + {t})
      ensures t != null ==> Idle(out + {t}, t.priority, PRIORITY_HIGHEST, now)
      ensures t != null ==>
                var s := old(lists);
                && t.priority < |s| && s[t.priority] == [t] + lists[t.priority]
                && lists == s[t.priority := Turned(s[t.priority], 0)]
                && lists == s[t.priority := lists[t.priority]]
    {
      var pri := PRIORITY_HIGHEST;
      t := null;
      while pri > floor
        invariant floor <= pri <= PRIORITY_HIGHEST && t == null && lists == old(lists) && Queues(out)
        invariant forall q: nat :: pri < q <= PRIORITY_HIGHEST ==> lists[q] == []
      {
        if lists[pri] != [] {
          Barren(out, pri, PRIORITY_HIGHEST, now);
          t := Dequeue(pri, 0, out);
          forall u | u in threads ensures Quiet(u, out + {t}, pri, PRIORITY_HIGHEST, now) {
            assert Quiet(u, out, pri, PRIORITY_HIGHEST, now);
          }
          return;
        }
        pri := pri - 1;
      }
      Barren(out, floor, PRIORITY_HIGHEST, now);
    }

    lemma Barren(out: set<Thread>, lo: nat, hi: nat, now: nat)
      requires Queues(out) && hi <= PRIORITY_HIGHEST && forall q: nat :: lo < q <= hi ==> lists[q] == []
      ensures Idle(out, lo, hi, now)
    {
      forall t | t in threads ensures Quiet(t, out, lo, hi, now) { assert Placed(t, out); }
    }

    // the first thread able to run in the list of one level, nobody above it being able to
    method TakeAt(pri: nat, now: nat, ghost out: set<Thread>) returns (t: Thread?, ghost k: nat)
      requires Queues(out) && pri < PRIORITY_DISPATCH && lists[pri] != [] && Idle(out, pri, PRIORITY_HIGHEST, now)
      modifies this`lists, threads`status, threads`slices, threads`nsLeft
      ensures t == null ==> lists == old(lists) && Queues(out) && Idle(out, pri, PRIORITY_HIGHEST, now)
      ensures t == null ==> forall u <- lists[pri] :: !u.Runnable(now)
      ensures t != null ==>
                && t in threads && t !in out && t.priority == pri && t.status == Ready && old(t.Runnable(now))
                && t.Runnable(now) && Roused(t)
      ensures t != null ==> Queues(out + {t}) && Idle(out + {t}, pri, PRIORITY_HIGHEST, now)
      ensures t != null ==>
                && k < |old(lists)[pri]| && t == old(lists)[pri][k]
                && lists == old(lists)[pri := Turned(old(lists)[pri], k)]
                && forall u <- old(lists)[pri][..k] :: !u.Runnable(now)
      ensures forall u <- threads :: u != t ==> Same(u)
    {
      t, k := ScanList(pri, now, out);
      forall u | u in threads ensures Quiet(u, if t == null then out else out + {t}, pri, PRIORITY_HIGHEST, now) {
        assert old(Quiet(u, out, pri, PRIORITY_HIGHEST, now));
      }
    }

    // the first thread able to run in the highest list from top down to above floor that has one
    method TakeNormal(top: nat, floor: nat, now: nat, ghost out: set<Thread>) returns (t: Thread?, ghost k: nat)
      requires Queues(out) && floor <= PRIORITY_HIGHEST && top < PRIORITY_HIGHEST
          && Idle(out, Max(top, floor), PRIORITY_HIGHEST, now)
      requires top < PRIORITY_DISPATCH || (top == PRIORITY_DISPATCH && lists[top] == [])
      modifies this`lists, threads`status, threads`slices, threads`nsLeft
      ensures t == null ==> lists == old(lists) && Queues(out) && Idle(out, floor, PRIORITY_HIGHEST, now)
      ensures t != null ==>
                && t in threads && t !in out && floor < t.priority <= top && t.status == Ready && old(t.Runnable(now))
                && t.Runnable(now) && Roused(t)
      ensures t != null ==> Queues(out + {t}) && Idle(out + {t}, t.priority, PRIORITY_HIGHEST, now)
      ensures t != null ==>
                && t.priority < |old(lists)| && k < |old(lists)[t.priority]| && t == old(lists)[t.priority][k]
                && lists == old(lists)[t.priority := Turned(old(lists)[t.priority], k)]
                && forall u <- old(lists)[t.priority][..k] :: !u.Runnable(now)
      ensures forall u <- threads :: u != t ==> Same(u)
    {
      var pri := top;
      t, k := null, 0;
      while pri > floor
        invariant (floor <= pri || pri == top) && pri <= top && t == null && lists == old(lists) && Queues(out)
        invariant Idle(out, Max(pri, floor), PRIORITY_HIGHEST, now)
        invariant forall u <- threads :: Same(u)
      {
        if lists[pri] != [] {
          t, k := TakeAt(pri, now, out);
          if t != null {
            return;
          }
        }
        Emptied(out, pri, now);
        pri := pri - 1;
      }
    }

    // one more list without a thread that can run
    lemma Emptied(out: set<Thread>, pri: nat, now: nat)
      requires Queues(out) && 0 < pri <= PRIORITY_HIGHEST && Idle(out, pri, PRIORITY_HIGHEST, now)
      requires forall u <- lists[pri] :: !u.Runnable(now)
      ensures Idle(out, pri - 1, PRIORITY_HIGHEST, now)
    {
      forall u | u in threads ensures Quiet(u, out, pri - 1, PRIORITY_HIGHEST, now) {
        assert Quiet(u, out, pri, PRIORITY_HIGHEST, now) && Placed(u, out);
      }
    }

    lemma Home(t: Thread, out: set<Thread>)
      requires Queues(out) && t in threads && t !in out
      ensures t.IsReady() || t.status == Sleep ==>
                PRIORITY_IDLE_TASK < t.priority <= PRIORITY_HIGHEST && Waiting(t, t.priority)
    {
      assert Placed(t, out) && ListOk(lists[t.priority], t.priority, out);
      if t in lists[t.priority] { assert Waiting(t, t.priority); }
    }

    // ---- refilling

    twostate predicate Topped(t: Thread)
      reads t
    { t.status == old(t.status) && t.slices == if t.Refills() then Budget(t.priority) else old(t.slices) }

    method ResetList(s: seq<Thread>)
      requires Distinct(s)
      modifies s`slices
      ensures forall t <- s :: Topped(t)
    {
      var i := 0;
      while i < |s|
        invariant i <= |s|
        invariant forall t <- s[..i] :: Topped(t)
        invariant forall t <- s[i..] :: Same(t)
      {
        assert s[i] in s[i..];
        s[i].ResetTimeslice();
        assert s[..i + 1] == s[..i] + [s[i]];
        i := i + 1;
      }
    }

    // reset_timeslices; every ready thread below the dispatch level waits in one of the lists passed
    method ResetTimeslices()
      requires Queues({})
      modifies threads`slices
      ensures Queues({}) && forall t <- threads :: Topped(t)
    {
      var pri := PRIORITY_DISPATCH - 1;
      while pri > PRIORITY_IDLE_TASK
        invariant PRIORITY_IDLE_TASK <= pri < PRIORITY_DISPATCH && Queues({})
        invariant forall t <- threads :: if pri < t.priority < PRIORITY_DISPATCH then Topped(t) else Same(t)
      {
        assert ListOk(lists[pri], pri, {});
        label Next:
        assert forall t <- lists[pri] :: t in threads && t.priority == pri by {
          forall t | t in lists[pri] ensures t in threads && t.priority == pri { assert Waiting(t, pri); }
        }
        ResetList(lists[pri]);
        Kept@Next({});
        forall t | t in threads ensures if pri - 1 < t.priority < PRIORITY_DISPATCH then Topped(t) else Same(t) {
          assert Placed(t, {}) && old@Next(Placed(t, {}));
          if t.priority == pri && t in lists[pri] { assert Topped@Next(t); } else { assert Same@Next(t); }
        }
        pri := pri - 1;
      }
      forall t | t in threads ensures Topped(t) { Home(t, {}); }
    }

    // the queues do not depend on the time slices, nor on the status of a thread that is out
    twostate lemma Kept(out: set<Thread>)
      requires old(Queues(out)) && lists == old(lists) && threads == old(threads)
      requires forall t <- threads :: t.priority == old(t.priority) && (t in out || t.status == old(t.status))
      ensures Queues(out)
    {
      forall q: nat | q < |lists| ensures ListOk(lists[q], q, out) {
        assert old(ListOk(lists[q], q, out));
        forall u | u in lists[q] ensures u in threads && u !in out && Waiting(u, q) { assert old(Waiting(u, q)); }
      }
      forall u | u in threads ensures Placed(u, out) { assert old(Placed(u, out)); }
    }

    // ---- the next thread

    // some thread could run now, once the time slices are refilled
    ghost predicate Someone(now: nat)
      reads this`threads, threads
    { exists t <- threads :: t.IsReady() || t.Runnable(now) }

    ghost predicate AnyRuns(now: nat)
      reads this`threads, threads
    { exists t <- threads :: t.Runnable(now) }

    twostate predicate CouldRun(t: Thread, now: nat)
      reads t
    { old(t.Runnable(now)) }

    // out goes to the tail of its list, for t of a higher priority
    method Displace(out: Thread, t: Thread, ghost now: nat)
      requires Queues({out, t}) && out in threads && Waiting(out, out.priority)
      requires out.priority < t.priority <= PRIORITY_HIGHEST
      requires Idle({out, t}, t.priority, PRIORITY_HIGHEST, now)
      modifies this`lists
      ensures Queues({t}) && Idle({t}, t.priority, PRIORITY_HIGHEST, now)
      ensures lists == old(lists)[out.priority := old(lists)[out.priority] + [out]]
    {
      Enqueue(out, {out, t});
      assert {out, t} - {out} == {t};
      forall u | u in threads ensures Quiet(u, {t}, t.priority, PRIORITY_HIGHEST, now) {
        assert Quiet(u, {out, t}, t.priority, PRIORITY_HIGHEST, now);
      }
    }

    ghost predicate AtTail(t: Thread)
      reads this`lists, t`priority
    { t.priority < |lists| && lists[t.priority] != [] && lists[t.priority][|lists[t.priority]| - 1] == t }

    // the current thread can go on, but gives way to a waiting one of higher priority
    method Preempt(now: nat) returns (ghost k: nat)
      requires Valid() && current.Runnable(now) && current.status == Ready
      modifies this`lists, this`current, threads`status, threads`slices, threads`nsLeft
      ensures current in threads && Queues({current}) && current.Runnable(now) && current.status == Ready
      ensures CouldRun(current, now) && Roused(current)
      ensures Idle({current}, current.priority, PRIORITY_HIGHEST, now)
      ensures current == old(current) ==> lists == old(lists)
      ensures current != old(current) ==> current.priority > old(current).priority && AtTail(old(current))
      ensures current != old(current) ==>
                var s, p, o := old(lists), current.priority, old(current);
                && p < |s| && k < |s[p]| && current == s[p][k] && o.priority < |s|
                && lists == s[p := Turned(s[p], k)][o.priority := s[o.priority] + [o]]
                && forall u <- s[p][..k] :: !u.Runnable(now)
      ensures forall t <- threads :: t != current ==> Same(t)
    {
      k := 0;
      assert Placed(current, {current});
      if current.priority == PRIORITY_HIGHEST {
        return;
      }
      var out: Thread := current;
      var t := TakeRealtime(Max(priority, PRIORITY_DISPATCH - 1), {out}, now);
      if t == null {
        t, k := TakeNormal(PRIORITY_DISPATCH - 1, Max(priority, PRIORITY_IDLE_TASK), now, {out});
      }
      if t != null {
        assert {out} + {t} == {out, t};
        Displace(out, t, now);
        current := t;
      }
    }

    // one pass over the lists, real-time ones first
    method Search(now: nat) returns (t: Thread?, ghost k: nat)
      requires Queues({})
      modifies this`lists, threads`status, threads`slices, threads`nsLeft
      ensures t == null ==> lists == old(lists) && Queues({}) && !AnyRuns(now) && !old(AnyRuns(now))
      ensures t != null ==>
                t in threads && t.status == Ready && t.Runnable(now) && PRIORITY_IDLE_TASK < t.priority && Queues({t})
      ensures t != null ==> Idle({t}, t.priority, PRIORITY_HIGHEST, now) && old(t.Runnable(now)) && Roused(t)
      ensures t != null ==>
                && t.priority < |old(lists)| && k < |old(lists)[t.priority]| && t == old(lists)[t.priority][k]
                && lists == old(lists)[t.priority := Turned(old(lists)[t.priority], k)]
                && forall u <- old(lists)[t.priority][..k] :: !u.Runnable(now)
      ensures forall u <- threads :: u != t ==> Same(u)
    {
      k := 0;
      t := TakeRealtime(PRIORITY_DISPATCH - 1, {}, now);
      if t == null {
        TopEmpty(now);
        t, k := TakeNormal(PRIORITY_DISPATCH, PRIORITY_IDLE_TASK, now, {});
        if t == null {
          NobodyRuns(now);
          assert forall u <- threads :: Same(u) && !u.Runnable(now);
          assert forall u <- threads :: old(u.Runnable(now)) == u.Runnable(now);
        }
      }
      assert t != null ==> {} + {t} == {t};
    }

    lemma NobodyRuns(now: nat)
      requires Queues({}) && Idle({}, PRIORITY_IDLE_TASK, PRIORITY_HIGHEST, now)
      ensures !AnyRuns(now)
    {
      forall t | t in threads ensures !t.Runnable(now) {
        Home(t, {});
        assert Quiet(t, {}, PRIORITY_IDLE_TASK, PRIORITY_HIGHEST, now);
      }
    }

    // from the dispatch level upwards, a waiting thread can run
    lemma TopEmpty(now: nat)
      requires Queues({}) && Idle({}, PRIORITY_DISPATCH - 1, PRIORITY_HIGHEST, now)
      ensures lists[PRIORITY_DISPATCH] == [] && Idle({}, PRIORITY_DISPATCH, PRIORITY_HIGHEST, now)
    {
      var p := PRIORITY_DISPATCH;
      assert ListOk(lists[p], p, {}) && (lists[p] != [] ==> lists[p][0] in lists[p]);
      forall t | t in lists[p] ensures t in threads && t.priority == p && t.Runnable(now) { assert Waiting(t, p); }
      forall t | t in threads ensures t.priority != p || !t.Runnable(now) {
        assert Quiet(t, {}, p - 1, PRIORITY_HIGHEST, now);
      }
      forall t | t in threads ensures Quiet(t, {}, p, PRIORITY_HIGHEST, now) {
        assert Quiet(t, {}, p - 1, PRIORITY_HIGHEST, now);
      }
    }

    // a waiting thread to run; only when none can are the time slices refilled
    method Elect(now: nat) returns (t: Thread, ghost k: nat)
      requires Queues({}) && Someone(now)
      modifies this`lists, threads`status, threads`slices, threads`nsLeft
      ensures t in threads && Queues({t}) && t.Runnable(now) && t.status == Ready && PRIORITY_IDLE_TASK < t.priority
      ensures Idle({t}, t.priority, PRIORITY_HIGHEST, now)
      ensures
                && t.priority < |old(lists)| && k < |old(lists)[t.priority]| && t == old(lists)[t.priority][k]
                && lists == old(lists)[t.priority := Turned(old(lists)[t.priority], k)]
                && forall u <- old(lists)[t.priority][..k] :: !u.Runnable(now)
      ensures if old(AnyRuns(now)) then CouldRun(t, now) && Roused(t) && forall u <- threads :: u != t ==> Same(u)
              else forall u <- threads :: Topped(u)
    {
      var p, n := Search(now);
      if p == null {
        label Drained:
        ResetTimeslices();
        Refilled@Drained(now);
        p, n := Search(now);
      }
      t, k := p, n;
    }

    // the lists once a thread with this status is at the tail of its own, unless it is suspended or dead
    static ghost function Joined(s: Lists, t: Thread, status: Status): Lists
      reads t`priority
    {
      if status == Suspend || status == Zombie || t.priority >= |s| then s else s[t.priority := s[t.priority] + [t]]
    }

    // the current thread cannot go on and joins the waiting ones, if it is neither suspended nor dead
    method Replace(now: nat) returns (ghost k: nat)
      requires Valid() && !current.Runnable(now) && current.status != Running && Someone(now)
      requires current.status == Sleep ==> current.priority < PRIORITY_DISPATCH
      modifies this`lists, this`current, threads`status, threads`slices, threads`nsLeft
      ensures current in threads && Queues({current}) && current.Runnable(now) && current.status == Ready
          && PRIORITY_IDLE_TASK < current.priority
      ensures Idle({current}, current.priority, PRIORITY_HIGHEST, now)
      ensures var s := Joined(old(lists), old(current), old(current.status));
              && current.priority < |s| && k < |s[current.priority]| && current == s[current.priority][k]
              && lists == s[current.priority := Turned(s[current.priority], k)]
              && forall u <- s[current.priority][..k] :: !u.Runnable(now)
      ensures if old(AnyRuns(now))
              then CouldRun(current, now) && Roused(current) && forall u <- threads :: u != current ==> Same(u)
              else forall u <- threads :: Topped(u)
    {
      var out: Thread := current;
      assert Placed(out, {out});
      if out.status == Running || out.status == Ready || out.status == Sleep {
        Enqueue(out, {out});
        assert {out} - {out} == {};
      } else {
        Leave(out);
      }
      assert lists == Joined(old(lists), out, old(out.status));
      var t, n := Elect(now);
      current, k := t, n;
    }

    // with the time slices refilled, someone can run who is not asleep
    twostate lemma Refilled(now: nat)
      requires old(Someone(now)) && !old(AnyRuns(now)) && threads == old(threads)
      requires forall t <- threads ::
                 Topped(t) && t.priority == old(t.priority) && t.begin == old(t.begin) && t.awake == old(t.awake)
      ensures AnyRuns(now) && forall t <- threads :: t.Runnable(now) ==> t.status != Sleep
    {
      var t :| t in threads && old(t.IsReady() || t.Runnable(now));
      assert t.Runnable(now);
    }

    // a suspended or dead thread is in no list
    lemma Leave(t: Thread)
      requires Queues({t}) && (t.status == Suspend || t.status == Zombie)
      ensures Queues({})
    {
      forall q: nat | q < |lists| ensures ListOk(lists[q], q, {}) {
        assert ListOk(lists[q], q, {t});
        forall u | u in lists[q] ensures u in threads && Waiting(u, q) { assert Waiting(u, q); }
      }
      forall u | u in threads ensures Placed(u, {}) { assert Placed(u, {t}); }
    }

    // what the search for the next thread has found, the one before being was
    twostate predicate Elected(was: Thread, now: nat)
      reads this, threads, was
    {
      && current in threads && Queues({current}) && current.Runnable(now) && current.status == Ready
      && PRIORITY_IDLE_TASK < current.priority
      && Idle({current}, current.priority, PRIORITY_HIGHEST, now)
      && (old(was.Runnable(now)) ==> current == was || current.priority > was.priority)
    }

    // time slices are given out only when no thread at all could run
    twostate predicate Slices(was: Thread, now: nat)
      reads this, threads
    {
      threads == old(threads) && current in old(threads) &&
      if old(AnyRuns(now))
      then CouldRun(current, now) && Roused(current) && forall u <- old(threads) ::
             u != current ==> Same(u) || (u == was && CouldRun(u, now) && Roused(u))
      else forall u <- old(threads) :: Topped(u)
    }

    /** next_task: a thread of the highest priority at which one can run; the current one stays on while it can and no
        other has a higher priority. */
    method NextTask(now: nat) returns (ghost k: nat)
      requires Valid() && current.status != Running && Someone(now)
      requires current.status == Sleep ==> current.priority < PRIORITY_DISPATCH
      modifies this`lists, this`current, threads`status, threads`slices, threads`nsLeft
      ensures Elected(old(current), now) && Slices(old(current), now)
      ensures old(current.Runnable(now)) && current == old(current) ==> lists == old(lists)
      ensures current != old(current) || !old(current.Runnable(now)) ==>
                var s, o, p := old(lists), old(current), current.priority;
                var s' := if old(current.Runnable(now)) then s else Joined(s, o, old(current.status));
                && p < |s'| && k < |s'[p]| && current == s'[p][k] && (forall u <- s'[p][..k] :: !u.Runnable(now))
                && lists == if old(current.Runnable(now)) then Joined(s'[p := Turned(s'[p], k)], o, Ready)
                            else s'[p := Turned(s'[p], k)]
    {
      var runs := current.CanRun(now);
      Kept({current});
      if runs {
        k := Preempt(now);
      } else {
        k := Replace(now);
      }
    }

    // ---- the timer interrupt

    // the tick goes by without effect
    predicate PassesBy()
      reads this, current
    { inSched || !enableSched || ((!enabled || priority == PRIORITY_HIGHEST) && current.IsReady()) }

    // what one dispatch takes off the time slices
    static function Cost(t: Thread): nat
      reads t`priority
    { if t.priority < PRIORITY_DISPATCH then 1 else 0 }

    // t has run for one tick of the slices it had, or was given on waking up
    twostate predicate Spent(t: Thread)
      reads t
    { t.slices + Cost(t) == if old(t.status) == Sleep then Budget(t.priority) else old(t.slices) }

    // the slices after a dispatch: refilled only if nobody could run, and one less for the thread dispatched
    twostate predicate Charged(was: Thread, now: nat)
      reads this, threads
    {
      && threads == old(threads) && current in old(threads)
      && (forall u <- old(threads) :: old(u.IsReady()) ==> u.IsReady())
      && if old(AnyRuns(now))
      then && CouldRun(current, now) && Spent(current)
           && (forall u <- old(threads) :: u != current ==> Spared(u, was))
      else forall u <- old(threads) :: Filled(u, current)
    }

    // u has kept its slices, unless it was the one running and has just woken up
    twostate predicate Spared(u: Thread, was: Thread)
      reads u
    { u.slices == old(u.slices) || (u == was && old(u.status) == Sleep) }

    // u has got new slices, one of which is spent if it is the one to run
    twostate predicate Filled(u: Thread, runs: Thread)
      reads u
    {
      u.slices + (if u == runs then Cost(u) else 0)
      == if u.priority < PRIORITY_DISPATCH && old(u.IsReady()) && old(u.slices) == 0 then Budget(u.priority)
         else old(u.slices)
    }

    method SwitchTask()
      requires current in threads && Queues({current}) && current.status == Ready
      requires current.priority < PRIORITY_DISPATCH ==> current.slices > 0
      requires PRIORITY_IDLE_TASK < current.priority
      modifies this`priority, this`inSched, this`dispatched, current`status, current`slices
      ensures Valid() && current.status == Running && current.slices == old(current.slices) - Cost(current) && !inSched
      ensures dispatched == old(dispatched) + [current]
    {
      priority := current.priority;
      inSched := false;
      current.Resume();
      dispatched := dispatched + [current];
      Kept({current});
    }

    method Dispatch(now: nat)
      requires Valid() && Someone(now) && current.status != Running
      requires current.status == Sleep ==> current.priority < PRIORITY_DISPATCH
      modifies this`lists, this`current, this`priority, this`inSched, this`dispatched
      modifies threads`status, threads`slices, threads`nsLeft
      ensures Valid() && !inSched && current.status == Running
          && Idle({current}, current.priority, PRIORITY_HIGHEST, now)
      ensures old(current.Runnable(now)) ==> current == old(current) || current.priority > old(current).priority
      ensures Charged(old(current), now) && dispatched == old(dispatched) + [current]
    {
      var _ := NextTask(now);
      label Elected:
      SwitchTask();
      forall u | u in threads ensures Quiet(u, {current}, current.priority, PRIORITY_HIGHEST, now) {
        assert old@Elected(Quiet(u, {current}, current.priority, PRIORITY_HIGHEST, now));
      }
    }

    // being set from running to ready changes nobody's chances
    twostate lemma SameChances(now: nat)
      requires threads == old(threads)
      requires forall t <- threads ::
                 && t.priority == old(t.priority) && t.slices == old(t.slices)
                 && t.begin == old(t.begin) && t.awake == old(t.awake)
      requires forall t <- threads :: t.status == old(t.status) || (t.IsReady() && old(t.IsReady()))
      ensures Someone(now) == old(Someone(now)) && AnyRuns(now) == old(AnyRuns(now))
    {
      assert forall t <- threads :: t.Runnable(now) == old(t.Runnable(now)) && t.IsReady() == old(t.IsReady());
    }

    method Turn(now: nat)
      requires Valid() && Someone(now)
      requires current.status == Sleep ==> current.priority < PRIORITY_DISPATCH
      modifies this`lists, this`current, this`priority, this`inSched, this`dispatched
      modifies threads`status, threads`slices, threads`nsLeft
      ensures Valid() && !inSched && current.status == Running
          && Idle({current}, current.priority, PRIORITY_HIGHEST, now)
      ensures old(current.Runnable(now)) ==> current == old(current) || current.priority > old(current).priority
      ensures Charged(old(current), now) && dispatched == old(dispatched) + [current]
    {
      if current.status == Running {
        current.status := Ready;
      }
      Kept({current});
      SameChances(now);
      Dispatch(now);
    }

    lemma NoneAbove(now: nat)
      requires Valid() && (Idle({current}, current.priority, PRIORITY_HIGHEST, now) || priority == PRIORITY_HIGHEST)
      ensures forall t <- threads :: t != current && t.priority > current.priority ==> !t.Runnable(now)
    {
      forall t | t in threads && t != current && t.priority > current.priority ensures !t.Runnable(now) {
        assert Placed(t, {current});
        assert priority != PRIORITY_HIGHEST ==> Quiet(t, {current}, current.priority, PRIORITY_HIGHEST, now);
      }
    }

    /** on_tick: unless it passes by, a thread of the highest priority at which one can run is dispatched. */
    method OnTick(now: nat)
      requires Valid() && Someone(now)
      requires current.status == Sleep ==> current.priority < PRIORITY_DISPATCH
      modifies this`lists, this`current, this`priority, this`inSched, this`dispatched
      modifies threads`status, threads`slices, threads`nsLeft
      ensures Valid() && inSched == (old(inSched) && old(PassesBy()))
      ensures old(PassesBy()) ==> current == old(current) && lists == old(lists) && forall t <- threads :: Same(t)
      ensures !old(PassesBy()) ==> current.status == Running && Idle({current}, current.priority, PRIORITY_HIGHEST, now)
      ensures !old(PassesBy()) ==>
                (old(current.Runnable(now)) ==> current == old(current) || current.priority > old(current).priority)
      ensures !old(PassesBy()) ==> Charged(old(current), now)
      ensures dispatched == old(dispatched) + if old(PassesBy()) then [] else [current]
      ensures old(inSched || !enableSched || (current.IsReady() && (!enabled || priority == PRIORITY_HIGHEST))) ==>
                && current == old(current) && lists == old(lists) && dispatched == old(dispatched)
                && forall t <- threads :: t.status == old(t.status) && t.slices == old(t.slices)
      ensures old(!inSched && enableSched && (!current.IsReady() || (enabled && priority != PRIORITY_HIGHEST))) ==>
                current.status == Running && dispatched == old(dispatched) + [current]
      ensures old(!inSched && enableSched && (enabled || !current.IsReady())) ==>
                forall t <- threads :: t != current && t.priority > current.priority ==> !t.Runnable(now)
    {
      if inSched {
        return;
      }
      inSched := true;
      if !enableSched {
        inSched := false;
        return;
      }
      if (!enabled || priority == PRIORITY_HIGHEST) && (current.status == Ready || current.status == Running) {
        inSched := false;
        if priority == PRIORITY_HIGHEST { NoneAbove(now); }
        return;
      }
      Turn(now);
      NoneAbove(now);
    }

    // ---- a run of ticks

    // ready threads between the idle level and the dispatch level share the processor
    ghost predicate Contest()
      reads this, threads
    {
      && Valid() && enabled && enableSched && !inSched
      && forall t <- threads ::
           t.IsReady() && PRIORITY_IDLE_TASK < t.priority < PRIORITY_DISPATCH && t.slices <= Budget(t.priority)
    }

    static ghost predicate Shows(order: seq<Thread>, s: seq<nat>)
      reads order
    { |s| == |order| && forall j :: 0 <= j < |s| ==> s[j] == order[j].slices }

    static ghost predicate Grants(order: seq<Thread>, b: seq<nat>)
      reads order
    { |b| == |order| && forall j :: 0 <= j < |b| ==> b[j] == Budget(order[j].priority) }

    ghost predicate Lines(order: seq<Thread>)
      reads this`threads
    { Distinct(order) && (forall t <- threads :: t in order) && (forall t <- order :: t in threads) }

    // one slice goes from the thread dispatched; from new slices if nobody could run
    twostate predicate TickedAt(t: Thread, refilled: bool)
      reads this`current, t
    { t.slices + (if t == current then 1 else 0) == if refilled then Budget(t.priority) else old(t.slices) }

    method TickCharges(now: nat)
      requires Contest()
      modifies this`lists, this`current, this`priority, this`inSched, this`dispatched
      modifies threads`status, threads`slices, threads`nsLeft
      ensures Contest() && threads == old(threads) && current in threads && dispatched == old(dispatched) + [current]
      ensures forall t <- threads :: TickedAt(t, old(!AnyRuns(now)))
    {
      hide Budget;
      OnTick(now);
      forall t | t in threads ensures TickedAt(t, old(!AnyRuns(now))) {
        if old(AnyRuns(now)) {
          assert t != current ==> Spared(t, old(current));
        } else {
          assert Filled(t, current) && !old(t.Runnable(now));
        }
      }
    }

    // somebody can run just when somebody has slices left
    lemma SomeLeft(now: nat, order: seq<Thread>, s: seq<nat>)
      requires Contest() && Lines(order) && Shows(order, s)
      ensures if AnyRuns(now) then exists j :: 0 <= j < |s| && s[j] > 0 else forall j :: 0 <= j < |s| ==> s[j] == 0
    {
      if AnyRuns(now) {
        var t :| t in threads && t.Runnable(now);
        var k :| 0 <= k < |order| && order[k] == t;
        assert s[k] > 0;
      } else {
        forall j | 0 <= j < |s| ensures s[j] == 0 { assert !order[j].Runnable(now); }
      }
    }

    // a tick among them is one step of the round of time slices
    method TickOnce(now: nat, ghost order: seq<Thread>, ghost b: seq<nat>, ghost s: seq<nat>) returns (ghost i: nat,
        ghost s': seq<nat>)
      requires Contest() && Lines(order) && Shows(order, s) && Grants(order, b)
      modifies this`lists, this`current, this`priority, this`inSched, this`dispatched
      modifies threads`status, threads`slices, threads`nsLeft
      ensures Contest() && i < |order| && order[i] == current && Grants(order, b) && Shows(order, s')
      ensures Step(b, s, s', i) && dispatched == old(dispatched) + [current]
    {
      hide Valid, Budget, Step, AnyRuns;
      ghost var runs := AnyRuns(now);
      SomeLeft(now, order, s);
      TickCharges(now);
      i :| 0 <= i < |order| && order[i] == current;
      s' := seq(|order|, j requires 0 <= j < |order| reads order => order[j].slices);
      ghost var from := if runs then s else b;
      forall j | 0 <= j < |order| ensures Takes(from, s', i, j) { assert TickedAt(order[j], !runs); }
      if runs { StepSpends(b, s, s', i); } else { StepRefills(b, s, s', i); }
    }

    /** However the clock goes, each tick dispatches one of them, and each of them is dispatched within twice the sum
        of all budgets, so within sixteen ticks for each of them. */
    method Ticks(clock: seq<nat>, ghost order: seq<Thread>, ghost b: seq<nat>)
      requires Contest() && Lines(order) && Grants(order, b)
      modifies this`lists, this`current, this`priority, this`inSched, this`dispatched
      modifies threads`status, threads`slices, threads`nsLeft
      ensures Contest() && threads == old(threads) && |dispatched| == |old(dispatched)| + |clock|
      ensures old(dispatched) <= dispatched && forall t <- dispatched[|old(dispatched)|..] :: t in threads
      ensures |clock| >= 2 * Sum(b) ==> forall t <- threads :: t in dispatched[|old(dispatched)|..]
      ensures |clock| >= 16 * |order| ==> forall t <- threads :: t in dispatched[|old(dispatched)|..]
    {
      hide Valid, Step;
      assert forall j :: 0 <= j < |b| ==> b[j] <= 8 by {
        forall j | 0 <= j < |b| ensures b[j] <= 8 { BudgetExact(order[j].priority, b[j] - 1); }
      }
      ghost var s: seq<nat> := seq(|order|, j requires 0 <= j < |order| reads order => order[j].slices);
      ghost var ps: seq<nat>, ss, start := [], [s], |dispatched|;
      var n := 0;
      while n < |clock|
        invariant n == |ps| <= |clock| && Contest() && Lines(order) && Grants(order, b) && Shows(order, s)
        invariant IsRun(b, ss, ps) && ss[n] == s && Fits(b, ss[0])
        invariant threads == old(threads) && |dispatched| == start + n && old(dispatched) <= dispatched
        invariant forall k :: 0 <= k < n ==> ps[k] < |order| && dispatched[start + k] == order[ps[k]]
      {
        ghost var i, s' := TickOnce(clock[n], order, b, s);
        AddStep(b, ss, ps, s', i);
        ps, ss, s := ps + [i], ss + [s'], s';
        n := n + 1;
      }
      SumAtMost(b, 8);
      forall k | 0 <= k < n ensures dispatched[start..][k] in order { assert dispatched[start + k] == order[ps[k]]; }
      if n >= 2 * Sum(b) { AllPicked(order, b, ss, ps, dispatched[start..]); }
    }

    static lemma AllPicked(order: seq<Thread>, b: seq<nat>, ss: seq<seq<nat>>, ps: seq<nat>, picks: seq<Thread>)
      requires IsRun(b, ss, ps) && Fits(b, ss[0]) && |ps| >= 2 * Sum(b) && |b| == |order| && |picks| == |ps|
      requires forall k :: 0 <= k < |ps| ==> ps[k] < |order| && picks[k] == order[ps[k]]
      ensures forall t <- order :: t in picks
    {
      forall t | t in order ensures t in picks {
        var j :| 0 <= j < |order| && order[j] == t;
        EveryoneDispatched(b, ss, ps, j);
        var k :| 0 <= k < |ps| && ps[k] == j;
        assert picks[k] == t;
      }
    }
  }
}
