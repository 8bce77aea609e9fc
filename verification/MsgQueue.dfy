/** The message queue as threads interleave on it: every shared access of send, forward, recv and destroy is one step.
    */
module MsgQueue {
  import opened Wrappers

  // where a thread stands
  datatype Pc =
    | Outside
    // send and forward
    | SendLocked(msg: nat)   // holds the lock, before the alive test
    | SendPushed(msg: nat)   // the message is in the queue but not counted
    | SendCounted(msg: nat)  // counted, the reference is still to be added
    | SendDone               // about to signal and release
    // recv
    | RecvLocked             // holds the lock, before the alive test
    | RecvLooping            // at the head of the waiting loop
    | RecvWaiting            // in cond_wait, the lock released
    | RecvWoken              // has the lock again
    | RecvTaking             // the count is down, the message still in the queue
    | RecvDone
    // destroy
    | DestroyLocked
    | Draining               // without the lock
    | DrainTaking            // the count is down, the message still in the queue

  datatype State = State(
    queue: seq<nat>, count: nat, alive: bool, owner: Option<nat>, pcs: map<nat, Pc>,
    // history: messages pushed, given a reference for the queue, received with it, or cancelled and dropped
    pushed: seq<nat>, referenced: seq<nat>, received: seq<nat>, cancelled: seq<nat>)

  const INITIAL: State := State([], 0, true, None, map[], [], [], [], [])

  datatype Action =
    | SendAcquire(msg: nat) | SendRefuse | SendPush | SendCount | SendRef | SendRelease
    | RecvAcquire | RecvDead | RecvEnter | RecvWait | RecvWake | RecvGiveUp | RecvRetry | RecvCount | RecvPop
    | RecvRelease
    | DestroyAcquire | DestroyDead | DestroyStart | DrainCount | DrainPop | DrainEnd

  function At(s: State, t: nat): Pc { if t in s.pcs then s.pcs[t] else Outside }

  function Go(s: State, t: nat, pc: Pc): State { s.(pcs := s.pcs[t := pc]) }
  function Lock(s: State, t: nat, pc: Pc): State { Go(s, t, pc).(owner := Some(t)) }
  function Release(s: State, t: nat, pc: Pc): State { Go(s, t, pc).(owner := None) }

  predicate Enabled(s: State, t: nat, a: Action) {
    var pc := At(s, t);
    match a
    case SendAcquire(_) => pc == Outside && s.owner == None
    case SendRefuse => pc.SendLocked?
    case SendPush => pc.SendLocked? && s.alive
    case SendCount => pc.SendPushed?
    case SendRef => pc.SendCounted?
    case SendRelease => pc == SendDone
    case RecvAcquire => pc == Outside && s.owner == None
    case RecvDead => pc == RecvLocked && !s.alive
    case RecvEnter => pc == RecvLocked && s.alive
    case RecvWait => pc == RecvLooping && s.count == 0
    case RecvWake => pc == RecvWaiting && s.owner == None
    case RecvGiveUp => pc == RecvWoken
    case RecvRetry => pc == RecvWoken && s.alive
    case RecvCount => pc == RecvLooping && s.count > 0
    case RecvPop => pc == RecvTaking
    case RecvRelease => pc == RecvDone
    case DestroyAcquire => pc == Outside && s.owner == None
    case DestroyDead => pc == DestroyLocked && !s.alive
    case DestroyStart => pc == DestroyLocked && s.alive
    case DrainCount => pc == Draining && s.count > 0
    case DrainPop => pc == DrainTaking
    case DrainEnd => pc == Draining && s.count == 0
  }

  // popping an empty queue yields nothing
  function Step(s: State, t: nat, a: Action): State
    requires Enabled(s, t, a)
  {
    match a
    case SendAcquire(msg) => Lock(s, t, SendLocked(msg))
    case SendRefuse => Release(s, t, Outside)
    case SendPush => var m := At(s, t).msg; Go(s, t, SendPushed(m)).(queue := s.queue + [m], pushed := s.pushed + [m])
    case SendCount => Go(s, t, SendCounted(At(s, t).msg)).(count := s.count + 1)
    case SendRef => Go(s, t, SendDone).(referenced := s.referenced + [At(s, t).msg])
    case SendRelease => Release(s, t, Outside)
    case RecvAcquire => Lock(s, t, RecvLocked)
    case RecvDead => Release(s, t, Outside)
    case RecvEnter => Go(s, t, RecvLooping)
    case RecvWait => Release(s, t, RecvWaiting)
    case RecvWake => Lock(s, t, RecvWoken)
    case RecvGiveUp => Release(s, t, Outside)
    case RecvRetry => Go(s, t, RecvLooping)
    case RecvCount => Go(s, t, RecvTaking).(count := s.count - 1)
    case RecvPop =>
      if s.queue == [] then Go(s, t, RecvDone)
      else Go(s, t, RecvDone).(queue := s.queue[1..], received := s.received + [s.queue[0]])
    case RecvRelease => Release(s, t, Outside)
    case DestroyAcquire => Lock(s, t, DestroyLocked)
    case DestroyDead => Release(s, t, Outside)
    case DestroyStart => Release(s, t, Draining).(alive := false)
    case DrainCount => Go(s, t, DrainTaking).(count := s.count - 1)
    case DrainPop =>
      if s.queue == [] then Go(s, t, Draining)
      else Go(s, t, Draining).(queue := s.queue[1..], cancelled := s.cancelled + [s.queue[0]])
    case DrainEnd => Go(s, t, Outside)
  }

  // ---- the invariant

  predicate HasLock(pc: Pc) { !(pc.Outside? || pc.RecvWaiting? || pc.Draining? || pc.DrainTaking?) }
  predicate Drains(pc: Pc) { pc.Draining? || pc.DrainTaking? }

  // past the alive test with the lock held
  predicate Working(pc: Pc) {
    pc.SendPushed? || pc.SendCounted? || pc.SendDone? || pc.RecvLooping? || pc.RecvTaking? || pc.RecvDone?
  }

  // how far the queue is ahead of the count
  function Ahead(pc: Pc): nat { if pc.SendPushed? || pc.RecvTaking? || pc.DrainTaking? then 1 else 0 }

  // the message pushed but not yet referenced
  function Owed(pc: Pc): seq<nat> { if pc.SendPushed? || pc.SendCounted? then [pc.msg] else [] }

  ghost predicate Exclusive(s: State, t: nat) { HasLock(At(s, t)) <==> s.owner == Some(t) }

  ghost predicate WorksAlive(s: State, t: nat) { Working(At(s, t)) ==> s.alive }

  // the drainers: none while alive, at most one ever
  ghost predicate DrainOk(s: State, drainer: Option<nat>, t: nat) {
    Drains(At(s, t)) ==> !s.alive && drainer == Some(t)
  }

  ghost predicate Threads(s: State, drainer: Option<nat>) {
    && (forall t: nat {:trigger Exclusive(s, t)} :: Exclusive(s, t))
    && (forall t: nat {:trigger WorksAlive(s, t)} :: WorksAlive(s, t))
    && (forall t: nat {:trigger DrainOk(s, drainer, t)} :: DrainOk(s, drainer, t))
    && (s.alive ==> drainer == None)
  }

  // the one thread that may have the queue in mid-change
  function Worker(s: State, drainer: Option<nat>): Pc {
    if s.alive then (if s.owner.Some? then At(s, s.owner.value) else Outside)
    else if drainer.Some? then At(s, drainer.value) else Outside
  }

  ghost predicate Counted(s: State, drainer: Option<nat>) {
    && |s.queue| == s.count + Ahead(Worker(s, drainer))
    && s.pushed == s.received + s.cancelled + s.queue
    && (s.alive ==> s.cancelled == [])
    && s.pushed == s.referenced + Owed(Worker(s, drainer)) && (Worker(s, drainer).SendCounted? ==> s.count > 0)
    && (!s.alive ==> drainer.Some? && (Drains(Worker(s, drainer)) || s.count == 0))
  }

  ghost predicate Inv(s: State, drainer: Option<nat>) { Threads(s, drainer) && Counted(s, drainer) }

  // only the step that kills the queue makes a drainer
  function NextDrainer(drainer: Option<nat>, t: nat, a: Action): Option<nat> {
    if a.DestroyStart? then Some(t) else drainer
  }

  lemma ThreadsKept(s: State, drainer: Option<nat>, t: nat, a: Action)
    requires Threads(s, drainer) && Enabled(s, t, a)
    ensures Threads(Step(s, t, a), NextDrainer(drainer, t, a))
  {
    var s', d' := Step(s, t, a), NextDrainer(drainer, t, a);
    assert Exclusive(s, t) && WorksAlive(s, t) && DrainOk(s, drainer, t);
    forall u: nat ensures Exclusive(s', u) && WorksAlive(s', u) && DrainOk(s', d', u) {
      assert Exclusive(s, u) && WorksAlive(s, u) && DrainOk(s, drainer, u);
    }
  }

  // the steps that touch the queue, its count or its references
  predicate Touches(a: Action) {
    a.SendPush? || a.SendCount? || a.SendRef? || a.RecvCount? || a.RecvPop? || a.DrainCount? || a.DrainPop?
  }

  // they are steps of the one worker
  lemma WorkerSteps(s: State, drainer: Option<nat>, t: nat, a: Action)
    requires Threads(s, drainer) && Enabled(s, t, a) && Touches(a)
    ensures Worker(s, drainer) == At(s, t) && Worker(Step(s, t, a), drainer) == At(Step(s, t, a), t)
    ensures a.DrainCount? || a.DrainPop? <==> !s.alive
  {
    assert Exclusive(s, t) && WorksAlive(s, t) && DrainOk(s, drainer, t);
  }

  // the others leave the worker where its part of the books is the same
  lemma OthersStep(s: State, drainer: Option<nat>, t: nat, a: Action)
    requires Threads(s, drainer) && Enabled(s, t, a) && !Touches(a)
    ensures var w, w' := Worker(s, drainer), Worker(Step(s, t, a), NextDrainer(drainer, t, a));
            Ahead(w') == Ahead(w) && Owed(w') == Owed(w)
  {
    assert Exclusive(s, t) && WorksAlive(s, t) && DrainOk(s, drainer, t);
    if drainer.Some? {
      assert Exclusive(s, drainer.value) && DrainOk(s, drainer, drainer.value) && WorksAlive(s, drainer.value);
    }
  }

  lemma CountedKept(s: State, drainer: Option<nat>, t: nat, a: Action)
    requires Inv(s, drainer) && Enabled(s, t, a)
    ensures Counted(Step(s, t, a), NextDrainer(drainer, t, a))
  {
    if Touches(a) {
      WorkerSteps(s, drainer, t, a);
      QueueKept(s, drainer, t, a);
    } else {
      OthersStep(s, drainer, t, a);
    }
  }

  lemma QueueKept(s: State, drainer: Option<nat>, t: nat, a: Action)
    requires Counted(s, drainer) && Enabled(s, t, a) && Touches(a)
    requires Worker(s, drainer) == At(s, t) && Worker(Step(s, t, a), drainer) == At(Step(s, t, a), t)
    requires a.DrainCount? || a.DrainPop? <==> !s.alive
    ensures Counted(Step(s, t, a), drainer)
  {
    if s.queue != [] { assert s.queue == [s.queue[0]] + s.queue[1..]; }
    HistoryKept(s, t, a);
  }

  lemma HistoryKept(s: State, t: nat, a: Action)
    requires Enabled(s, t, a) && Touches(a) && s.pushed == s.received + s.cancelled + s.queue
    requires s.alive ==> s.cancelled == []
    requires a.DrainCount? || a.DrainPop? <==> !s.alive
    ensures var s' := Step(s, t, a); s'.pushed == s'.received + s'.cancelled + s'.queue
  {
    if s.queue != [] { assert s.queue == [s.queue[0]] + s.queue[1..]; }
  }

  // ---- all interleavings

  // the states and steps of a run
  ghost predicate IsRun(ss: seq<State>, steps: seq<(nat, Action)>) {
    |ss| == |steps| + 1 && ss[0] == INITIAL &&
    forall k {:trigger steps[k]} :: 0 <= k < |steps| ==>
      Enabled(ss[k], steps[k].0, steps[k].1) && ss[k + 1] == Step(ss[k], steps[k].0, steps[k].1)
  }

  lemma {:induction false} RunInv(ss: seq<State>, steps: seq<(nat, Action)>) returns (drainer: Option<nat>)
    requires IsRun(ss, steps)
    ensures Inv(ss[|steps|], drainer)
  {
    if steps == [] {
      drainer := None;
    } else {
      var n := |steps| - 1;
      assert steps[n] == steps[..n + 1][n];
      forall k | 0 <= k < n ensures steps[..n][k] == steps[k] {}
      var before := RunInv(ss[..n + 1], steps[..n]);
      ThreadsKept(ss[n], before, steps[n].0, steps[n].1);
      CountedKept(ss[n], before, steps[n].0, steps[n].1);
      drainer := NextDrainer(before, steps[n].0, steps[n].1);
    }
  }

  // the message t was last asked to send
  function LastAsked(steps: seq<(nat, Action)>, t: nat): Option<nat> {
    if steps == [] then None
    else
      var (u, a) := steps[|steps| - 1];
      if u == t && a.SendAcquire? then Some(a.msg) else LastAsked(steps[..|steps| - 1], t)
  }

  // the messages pushed, each the one its sender was asked for
  function Sent(steps: seq<(nat, Action)>): seq<Option<nat>> {
    if steps == [] then []
    else
      var n := |steps| - 1;
      Sent(steps[..n]) + if steps[n].1.SendPush? then [LastAsked(steps[..n], steps[n].0)] else []
  }

  function Somes(s: seq<nat>): seq<Option<nat>> { seq(|s|, k requires 0 <= k < |s| => Some(s[k])) }

  ghost predicate Asked(s: State, steps: seq<(nat, Action)>, t: nat) {
    At(s, t).SendLocked? ==> LastAsked(steps, t) == Some(At(s, t).msg)
  }

  /** Whatever is pushed is what the thread that pushes it was last asked to send, so the messages received, cancelled
      and still there are those the senders were given, in the order of their pushes. */
  lemma {:induction false} PushedAsAsked(ss: seq<State>, steps: seq<(nat, Action)>)
    requires IsRun(ss, steps)
    ensures forall t: nat {:trigger Asked(ss[|steps|], steps, t)} :: Asked(ss[|steps|], steps, t)
    ensures Somes(ss[|steps|].pushed) == Sent(steps)
  {
    if steps != [] {
      var n := |steps| - 1;
      forall k | 0 <= k < n ensures steps[..n][k] == steps[k] {}
      PushedAsAsked(ss[..n + 1], steps[..n]);
      var u, a, s, s' := steps[n].0, steps[n].1, ss[n], ss[n + 1];
      assert s' == Step(s, u, a) && Asked(s, steps[..n], u) && steps == steps[..n] + [(u, a)];
      forall t: nat ensures Asked(s', steps, t) { AskedStep(s, steps[..n], u, a, t); }
      assert Somes(s'.pushed) == Somes(s.pushed) + if a.SendPush? then [Some(At(s, u).msg)] else [];
    }
  }

  lemma AskedStep(s: State, steps: seq<(nat, Action)>, u: nat, a: Action, t: nat)
    requires Enabled(s, u, a) && Asked(s, steps, t)
    ensures Asked(Step(s, u, a), steps + [(u, a)], t)
  {
    assert (steps + [(u, a)])[..|steps|] == steps;
  }

  /** In every interleaving: the count is the length of the queue whenever the lock is free and the queue alive; what
      was pushed is what was received, in order, then what was cancelled, then what is still there; and no message
      leaves before the reference for it is made. */
  lemma AlwaysInStep(ss: seq<State>, steps: seq<(nat, Action)>)
    requires IsRun(ss, steps)
    ensures var s := ss[|steps|];
            && (s.alive && s.owner == None ==> s.count == |s.queue|)
            && s.pushed == s.received + s.cancelled + s.queue && (s.cancelled != [] ==> !s.alive)
            && s.received + s.cancelled <= s.referenced <= s.pushed
            && (s.alive && s.owner == None ==> s.referenced == s.received + s.queue)
  {
    var drainer := RunInv(ss, steps);
    var s := ss[|steps|];
    assert s.received + [] == s.received;
    assert s.received + s.cancelled <= s.pushed && |s.referenced| >= |s.pushed| - 1;
  }

  /** Once dead, the queue is the drainer's alone: no step but a drainer's changes it, no pop finds it empty, and there
      is never a second drainer. */
  lemma DrainIsAlone(ss: seq<State>, steps: seq<(nat, Action)>, t: nat, a: Action)
    requires IsRun(ss, steps) && Enabled(ss[|steps|], t, a)
    ensures var s := ss[|steps|]; var s' := Step(s, t, a);
            && (!s.alive && !Drains(At(s, t)) ==>
                  s'.queue == s.queue && s'.count == s.count && s'.referenced == s.referenced)
            && (a.RecvPop? || a.DrainPop? ==> s.queue != [])
            && (forall u: nat :: Drains(At(s, t)) && Drains(At(s, u)) ==> u == t)
  {
    var s := ss[|steps|];
    var drainer := RunInv(ss, steps);
    assert Exclusive(s, t) && WorksAlive(s, t) && DrainOk(s, drainer, t);
    if Touches(a) { WorkerSteps(s, drainer, t, a); }
    forall u: nat | Drains(At(s, t)) && Drains(At(s, u)) ensures u == t { assert DrainOk(s, drainer, u); }
  }

  /** Nobody leaves a dead queue while messages are left: with no thread draining, every message pushed was received or
      cancelled. */
  lemma NoneForgotten(ss: seq<State>, steps: seq<(nat, Action)>)
    requires IsRun(ss, steps) && !ss[|steps|].alive && forall t: nat :: !Drains(At(ss[|steps|], t))
    ensures var s := ss[|steps|]; s.queue == [] && s.pushed == s.received + s.cancelled && s.referenced == s.pushed
  {
    var s := ss[|steps|];
    var drainer := RunInv(ss, steps);
    assert !Drains(At(s, drainer.value)) && Exclusive(s, drainer.value) && WorksAlive(s, drainer.value);
  }

  /** When the drainer is done nothing is left: every message pushed was received or cancelled, exactly once. */
  lemma DrainedToTheEnd(ss: seq<State>, steps: seq<(nat, Action)>, t: nat)
    requires IsRun(ss, steps) && Enabled(ss[|steps|], t, DrainEnd)
    ensures var s := ss[|steps|]; s.queue == [] && s.pushed == s.received + s.cancelled && s.referenced == s.pushed
  {
    var s := ss[|steps|];
    var drainer := RunInv(ss, steps);
    assert DrainOk(s, drainer, t);
  }

  // ---- calls that nobody interrupts

  // one thread's steps one after the other, if each is possible
  function Do(s: State, t: nat, calls: seq<Action>): Option<State>
    decreases |calls|
  {
    if calls == [] then Some(s)
    else if Enabled(s, t, calls[0]) then Do(Step(s, t, calls[0]), t, calls[1..]) else None
  }

  function Drain(n: nat): seq<Action> { if n == 0 then [DrainEnd] else [DrainCount, DrainPop] + Drain(n - 1) }

  ghost predicate Idle(s: State, t: nat) { s.owner == None && At(s, t) == Outside }

  lemma DoOne(s: State, t: nat, a: Action, rest: seq<Action>)
    ensures Do(s, t, [a] + rest) == if Enabled(s, t, a) then Do(Step(s, t, a), t, rest) else None
    ensures Do(s, t, []) == Some(s)
  {
    assert ([a] + rest)[1..] == rest;
  }

  lemma DoLast(s: State, t: nat, a: Action)
    ensures Do(s, t, [a]) == if Enabled(s, t, a) then Some(Step(s, t, a)) else None
  {
    DoOne(s, t, a, []);
    if Enabled(s, t, a) { DoOne(Step(s, t, a), t, a, []); }
    assert [a] + [] == [a];
  }

  lemma DoTwo(s: State, t: nat, a: Action, b: Action, rest: seq<Action>)
    requires Enabled(s, t, a)
    ensures Do(s, t, [a, b] + rest) ==
            if Enabled(Step(s, t, a), t, b) then Do(Step(Step(s, t, a), t, b), t, rest) else None
  {
    DoOne(s, t, a, [b] + rest);
    DoOne(Step(s, t, a), t, b, rest);
    assert [a, b] + rest == [a] + ([b] + rest);
  }

  /** Nobody is stuck inside a call: a thread that is not in want of the lock can always take a step. */
  lemma NeverStuck(s: State, t: nat) returns (a: Action)
    requires s.owner == None || (At(s, t) != Outside && At(s, t) != RecvWaiting)
    ensures Enabled(s, t, a)
  {
    match At(s, t)
    case Outside => a := RecvAcquire;
    case SendLocked(_) => a := SendRefuse;
    case SendPushed(_) => a := SendCount;
    case SendCounted(_) => a := SendRef;
    case SendDone => a := SendRelease;
    case RecvLocked => a := if s.alive then RecvEnter else RecvDead;
    case RecvLooping => a := if s.count == 0 then RecvWait else RecvCount;
    case RecvWaiting => a := RecvWake;
    case RecvWoken => a := RecvGiveUp;
    case RecvTaking => a := RecvPop;
    case RecvDone => a := RecvRelease;
    case DestroyLocked => a := if s.alive then DestroyStart else DestroyDead;
    case Draining => a := if s.count == 0 then DrainEnd else DrainCount;
    case DrainTaking => a := DrainPop;
  }

  /** Alone, send and forward add the message and its reference at the tail of a live queue. */
  lemma SendAlone(s: State, t: nat, msg: nat)
    requires Idle(s, t)
    ensures var sent := Do(s, t, [SendAcquire(msg), SendPush] + [SendCount, SendRef] + [SendRelease]);
            sent == if !s.alive then None else Some(s.(queue := s.queue + [msg], count := s.count + 1,
              pushed := s.pushed + [msg], referenced := s.referenced + [msg], pcs := s.pcs[t := Outside]))
  {
    hide Do;
    DoTwo(s, t, SendAcquire(msg), SendPush, [SendCount, SendRef] + [SendRelease]);
    if s.alive {
      var p := Step(Step(s, t, SendAcquire(msg)), t, SendPush);
      DoTwo(p, t, SendCount, SendRef, [SendRelease]);
      var r := Step(Step(p, t, SendCount), t, SendRef);
      DoLast(r, t, SendRelease);
      assert Step(r, t, SendRelease).pcs == s.pcs[t := Outside];
    }
    assert [SendAcquire(msg), SendPush] + [SendCount, SendRef] + [SendRelease]
        == [SendAcquire(msg), SendPush] + ([SendCount, SendRef] + [SendRelease]);
  }

  /** They can always give up, which changes nothing. */
  lemma SendRefused(s: State, t: nat, msg: nat)
    requires Idle(s, t)
    ensures Do(s, t, [SendAcquire(msg), SendRefuse]) == Some(s.(pcs := s.pcs[t := Outside]))
  {
    hide Do;
    var l := Step(s, t, SendAcquire(msg));
    DoOne(s, t, SendAcquire(msg), [SendRefuse]);
    DoLast(l, t, SendRefuse);
    assert [SendAcquire(msg)] + [SendRefuse] == [SendAcquire(msg), SendRefuse];
    assert Step(l, t, SendRefuse).pcs == s.pcs[t := Outside];
  }

  lemma TakeOne(s: State, t: nat)
    requires At(s, t) == RecvLooping && s.count == |s.queue|
    ensures Do(s, t, [RecvCount, RecvPop] + [RecvRelease]) ==
            if s.queue == [] then None else Some(s.(queue := s.queue[1..], count := s.count - 1, owner := None,
              received := s.received + [s.queue[0]], pcs := s.pcs[t := Outside]))
  {
    hide Do;
    if s.queue == [] {
      DoOne(s, t, RecvCount, [RecvPop] + [RecvRelease]);
      assert [RecvCount, RecvPop] + [RecvRelease] == [RecvCount] + ([RecvPop] + [RecvRelease]);
    } else {
      var p := Step(Step(s, t, RecvCount), t, RecvPop);
      DoTwo(s, t, RecvCount, RecvPop, [RecvRelease]);
      DoLast(p, t, RecvRelease);
      assert Step(p, t, RecvRelease).pcs == s.pcs[t := Outside];
    }
  }

  /** Alone, recv takes the oldest message of a live queue. */
  lemma RecvAlone(s: State, t: nat)
    requires Idle(s, t) && s.count == |s.queue|
    ensures var taken := Do(s, t, [RecvAcquire, RecvEnter] + [RecvCount, RecvPop] + [RecvRelease]);
            taken == if !s.alive || s.queue == [] then None else Some(s.(queue := s.queue[1..], count := s.count - 1,
              received := s.received + [s.queue[0]], pcs := s.pcs[t := Outside]))
  {
    hide Do;
    DoTwo(s, t, RecvAcquire, RecvEnter, [RecvCount, RecvPop] + [RecvRelease]);
    if s.alive {
      var e := Step(Step(s, t, RecvAcquire), t, RecvEnter);
      TakeOne(e, t);
      assert e.pcs[t := Outside] == s.pcs[t := Outside];
    }
    assert [RecvAcquire, RecvEnter] + [RecvCount, RecvPop] + [RecvRelease]
        == [RecvAcquire, RecvEnter] + ([RecvCount, RecvPop] + [RecvRelease]);
  }

  /** Alone, recv goes to wait on an empty queue and leaves a dead one. */
  lemma RecvNothing(s: State, t: nat)
    requires Idle(s, t) && s.count == |s.queue|
    ensures Do(s, t, [RecvAcquire, RecvEnter] + [RecvWait]) ==
            if !s.alive || s.queue != [] then None else Some(s.(pcs := s.pcs[t := RecvWaiting]))
    ensures Do(s, t, [RecvAcquire] + [RecvDead]) == if s.alive then None else Some(s.(pcs := s.pcs[t := Outside]))
  {
    hide Do;
    var l := Step(s, t, RecvAcquire);
    DoTwo(s, t, RecvAcquire, RecvEnter, [RecvWait]);
    DoOne(s, t, RecvAcquire, [RecvDead]);
    DoLast(l, t, RecvDead);
    if s.alive {
      DoLast(Step(l, t, RecvEnter), t, RecvWait);
      if s.queue == [] { assert Step(Step(l, t, RecvEnter), t, RecvWait).pcs == s.pcs[t := RecvWaiting]; }
    } else {
      assert Step(l, t, RecvDead).pcs == s.pcs[t := Outside];
    }
  }

  lemma DrainOne(s: State, t: nat)
    requires At(s, t) == Draining && s.count == |s.queue| > 0
    ensures Enabled(s, t, DrainCount) && Enabled(Step(s, t, DrainCount), t, DrainPop)
    ensures Step(Step(s, t, DrainCount), t, DrainPop)
         == s.(queue := s.queue[1..], count := s.count - 1, cancelled := s.cancelled + [s.queue[0]])
  {
    assert Step(Step(s, t, DrainCount), t, DrainPop).pcs == s.pcs;
  }

  lemma {:induction false} DrainAlone(s: State, t: nat)
    requires At(s, t) == Draining && s.count == |s.queue|
    ensures Do(s, t, Drain(|s.queue|)) ==
            Some(s.(queue := [], count := 0, cancelled := s.cancelled + s.queue, pcs := s.pcs[t := Outside]))
    decreases |s.queue|
  {
    hide Do;
    if s.queue == [] {
      DoLast(s, t, DrainEnd);
      assert s.cancelled + [] == s.cancelled;
    } else {
      DrainOne(s, t);
      DoTwo(s, t, DrainCount, DrainPop, Drain(|s.queue| - 1));
      hide Step, Enabled;
      DrainAlone(s.(queue := s.queue[1..], count := s.count - 1, cancelled := s.cancelled + [s.queue[0]]), t);
      assert s.cancelled + s.queue == s.cancelled + [s.queue[0]] + s.queue[1..];
    }
  }

  /** Alone, destroy cancels every message of a live queue in order, and leaves a dead one. */
  lemma DestroyAlone(s: State, t: nat)
    requires Idle(s, t) && s.count == |s.queue|
    ensures Do(s, t, [DestroyAcquire, DestroyStart] + Drain(|s.queue|)) ==
            if !s.alive then None else Some(s.(alive := false, queue := [], count := 0,
              cancelled := s.cancelled + s.queue, pcs := s.pcs[t := Outside]))
    ensures Do(s, t, [DestroyAcquire] + [DestroyDead]) == if s.alive then None else Some(s.(pcs := s.pcs[t := Outside]))
  {
    hide Do;
    var l := Step(s, t, DestroyAcquire);
    DoTwo(s, t, DestroyAcquire, DestroyStart, Drain(|s.queue|));
    DoOne(s, t, DestroyAcquire, [DestroyDead]);
    DoLast(l, t, DestroyDead);
    if s.alive {
      var d := Step(l, t, DestroyStart);
      DrainAlone(d, t);
      assert d.pcs[t := Outside] == s.pcs[t := Outside];
    } else {
      assert Step(l, t, DestroyDead).pcs == s.pcs[t := Outside];
    }
  }
}
