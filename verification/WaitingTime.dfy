/** Rounds of time slices: how long a thread can be kept waiting. */
module WaitingTime {
  function Sum(s: seq<nat>): nat { if s == [] then 0 else s[0] + Sum(s[1..]) }

  lemma {:induction false} SumAtMost(s: seq<nat>, n: nat)
    requires forall i :: 0 <= i < |s| ==> s[i] <= n
    ensures Sum(s) <= n * |s|
  {
    if s != [] { SumAtMost(s[1..], n); }
  }

  // one dispatch of i: its slices fall by one, and all are refilled first if nobody had any left
  ghost predicate Step(budgets: seq<nat>, s: seq<nat>, s': seq<nat>, i: nat) {
    |budgets| == |s| == |s'| && i < |s| &&
    if exists j :: 0 <= j < |s| && s[j] > 0 then s[i] > 0 && s' == s[i := s[i] - 1]
    else budgets[i] > 0 && s' == budgets[i := budgets[i] - 1]
  }

  ghost predicate Fits(budgets: seq<nat>, s: seq<nat>) {
    |s| == |budgets| && forall i :: 0 <= i < |s| ==> s[i] <= budgets[i] && budgets[i] > 0
  }

  predicate Takes(s: seq<nat>, s': seq<nat>, i: nat, j: nat) {
    j < |s| && j < |s'| && s[j] == s'[j] + if j == i then 1 else 0
  }

  lemma StepSpends(b: seq<nat>, s: seq<nat>, s': seq<nat>, i: nat)
    requires |b| == |s| == |s'| && i < |s| && (forall j :: 0 <= j < |s| ==> Takes(s, s', i, j))
    requires exists j :: 0 <= j < |s| && s[j] > 0
    ensures Step(b, s, s', i)
  {
    assert Takes(s, s', i, i);
    forall j | 0 <= j < |s| ensures s'[j] == s[i := s[i] - 1][j] { assert Takes(s, s', i, j); }
  }

  lemma StepRefills(b: seq<nat>, s: seq<nat>, s': seq<nat>, i: nat)
    requires |b| == |s| == |s'| && i < |s| && (forall j :: 0 <= j < |s| ==> s[j] == 0 && Takes(b, s', i, j))
    ensures Step(b, s, s', i)
  {
    assert Takes(b, s', i, i);
    forall j | 0 <= j < |s| ensures s'[j] == b[i := b[i] - 1][j] { assert Takes(b, s', i, j); }
  }

  // ss are the slices left before and after each dispatch of ps
  ghost predicate IsRun(budgets: seq<nat>, ss: seq<seq<nat>>, ps: seq<nat>) {
    |ss| == |ps| + 1 && forall k {:trigger ps[k]} :: 0 <= k < |ps| ==> Step(budgets, ss[k], ss[k + 1], ps[k])
  }

  lemma {:induction false} SumSet(s: seq<nat>, i: nat, v: nat)
    requires i < |s|
    ensures Sum(s[i := v]) == Sum(s) - s[i] + v && Sum(s) >= s[i]
  {
    if i == 0 {
      assert s[i := v][1..] == s[1..];
    } else {
      SumSet(s[1..], i - 1, v);
      assert s[i := v][1..] == s[1..][i - 1 := v];
    }
  }

  lemma {:induction false} SumBelow(s: seq<nat>, b: seq<nat>)
    requires |s| == |b| && forall i :: 0 <= i < |s| ==> s[i] <= b[i]
    ensures Sum(s) <= Sum(b)
  {
    if s != [] { SumBelow(s[1..], b[1..]); }
  }

  lemma AddStep(b: seq<nat>, ss: seq<seq<nat>>, ps: seq<nat>, s: seq<nat>, i: nat)
    requires IsRun(b, ss, ps) && Step(b, ss[|ps|], s, i)
    ensures IsRun(b, ss + [s], ps + [i])
  {
    forall k | 0 <= k < |ps + [i]| ensures Step(b, (ss + [s])[k], (ss + [s])[k + 1], (ps + [i])[k]) {
      if k < |ps| { assert Step(b, ss[k], ss[k + 1], ps[k]); }
    }
  }

  lemma RunTail(b: seq<nat>, ss: seq<seq<nat>>, ps: seq<nat>)
    requires IsRun(b, ss, ps) && ps != []
    ensures IsRun(b, ss[1..], ps[1..]) && Step(b, ss[0], ss[1], ps[0])
  {
    assert Step(b, ss[0], ss[1], ps[0]);
    forall k | 0 <= k < |ps[1..]| ensures Step(b, ss[1..][k], ss[1..][k + 1], ps[1..][k]) {
      assert ps[1..][k] == ps[k + 1];
    }
  }

  // with slices left, a thread is dispatched before all slices are used up
  lemma {:induction false} BeforeRefill(b: seq<nat>, ss: seq<seq<nat>>, ps: seq<nat>, j: nat)
    requires IsRun(b, ss, ps) && j < |ss[0]| && ss[0][j] > 0 && |ps| >= Sum(ss[0])
    ensures j in ps
    decreases |ps|
  {
    SumSet(ss[0], j, 0);
    RunTail(b, ss, ps);
    if ps[0] != j {
      SumSet(ss[0], ps[0], ss[1][ps[0]]);
      BeforeRefill(b, ss[1..], ps[1..], j);
      assert j in ps[1..];
    }
  }

  lemma {:induction false} Reached(b: seq<nat>, ss: seq<seq<nat>>, ps: seq<nat>, j: nat)
    requires IsRun(b, ss, ps) && j < |b| == |ss[0]|
    requires (forall i :: 0 <= i < |b| ==> b[i] > 0) && |ps| >= Sum(ss[0]) + Sum(b)
    ensures j in ps
    decreases |ps|
  {
    SumSet(b, j, 0);
    RunTail(b, ss, ps);
    var i := ps[0];
    if ss[0][j] > 0 {
      BeforeRefill(b, ss, ps, j);
    } else if exists k :: 0 <= k < |ss[0]| && ss[0][k] > 0 {
      SumSet(ss[0], i, ss[1][i]);
      Reached(b, ss[1..], ps[1..], j);
      assert j in ps[1..];
    } else if i != j {
      SumSet(b, i, b[i] - 1);
      BeforeRefill(b, ss[1..], ps[1..], j);
      assert j in ps[1..];
    }
  }

  /** Bounded waiting: within twice the sum of all budgets, everyone has been dispatched. */
  lemma EveryoneDispatched(b: seq<nat>, ss: seq<seq<nat>>, ps: seq<nat>, j: nat)
    requires IsRun(b, ss, ps) && j < |b| && Fits(b, ss[0])
    requires |ps| >= 2 * Sum(b)
    ensures j in ps
  {
    SumBelow(ss[0], b);
    Reached(b, ss, ps, j);
  }
}
