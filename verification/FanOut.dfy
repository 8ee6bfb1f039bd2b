/**
 The per-organisation sweeps of backend/cmd/worker: a loop that sends on a bounded channel before it
 starts each goroutine of an errgroup, as a state machine over the steps of the loop and of the
 goroutines. The channel's capacity is 5, and 3 in the weekly digest; here it is any number. The body
 of a goroutine is abstract: all that is known is what it yields.
 */
module FanOut {
  import opened PyText

  datatype Outcome = Delivered | Failed(error: string)

  /** What the body yields for one organisation under a live context and under a cancelled one. */
  datatype Org = Org(live: Outcome, cut: Outcome)

  /** A goroutine: in its body, then its deferred receive is due, then its return, then gone. */
  datatype Worker =
    | Running
    | Finished(out: Outcome, saw: bool)
    | Released(out: Outcome, saw: bool)
    | Returned(out: Outcome, saw: bool)

  /**
   `holding`: the loop has sent its token and not yet started the goroutine. `tokens`: what the
   channel holds. `wait` and `err` are the errgroup's counter and first error, `groupDone` its own
   cancellation, `parentDone` that of the context it was made from. `result` is what `Wait` returned.
   */
  datatype State = State(workers: seq<Worker>, holding: bool, tokens: nat, wait: nat, err: Option<string>,
                         groupDone: bool, parentDone: bool, result: Option<Option<string>>)

  const INITIAL := State([], false, 0, 0, None, false, false, None)

  datatype Step =
    | Acquire         // sem <- struct{}{}
    | Spawn           // g.Go(...)
    | Finish(i: nat)  // the body of goroutine i ends
    | Release(i: nat) // its deferred <-sem
    | Return(i: nat)  // it returns to the errgroup
    | Wait            // g.Wait() returns
    | Cancel          // the parent context is cancelled

  /** The closure's return value: nil whatever the body yielded. */
  function Returns(out: Outcome): Option<string> {
    None
  }

  predicate Enabled(orgs: seq<Org>, cap: nat, s: State, step: Step) {
    match step
    case Acquire => |s.workers| < |orgs| && !s.holding && s.tokens < cap
    case Spawn => s.holding
    case Finish(i) => i < |s.workers| && i < |orgs| && s.workers[i].Running?
    case Release(i) => i < |s.workers| && s.workers[i].Finished? && s.tokens > 0
    case Return(i) => i < |s.workers| && s.workers[i].Released? && s.wait > 0
    case Wait => |s.workers| == |orgs| && !s.holding && s.wait == 0 && s.result.None?
    case Cancel => !s.parentDone
  }

  function Yields(org: Org, cancelled: bool): Outcome {
    if cancelled then org.cut else org.live
  }

  function Do(orgs: seq<Org>, cap: nat, s: State, step: Step): State
    requires Enabled(orgs, cap, s, step)
  {
    match step
    case Acquire => s.(holding := true, tokens := s.tokens + 1)
    case Spawn => s.(holding := false, workers := s.workers + [Running], wait := s.wait + 1)
    case Finish(i) =>
      var saw := s.parentDone || s.groupDone;
      s.(workers := s.workers[i := Finished(Yields(orgs[i], saw), saw)])
    case Release(i) =>
      s.(workers := s.workers[i := Released(s.workers[i].out, s.workers[i].saw)], tokens := s.tokens - 1)
    case Return(i) =>
      var e := Returns(s.workers[i].out);
      s.(workers := s.workers[i := Returned(s.workers[i].out, s.workers[i].saw)], wait := s.wait - 1,
         err := if s.err.None? then e else s.err, groupDone := s.groupDone || e.Some?)
    case Wait => s.(result := Some(s.err), groupDone := true)
    case Cancel => s.(parentDone := true)
  }

  /** A run from the start, one step after the other; None when a step was not enabled. */
  function Run(orgs: seq<Org>, cap: nat, steps: seq<Step>): Option<State> {
    if steps == [] then Some(INITIAL)
    else
      var s := Run(orgs, cap, steps[..|steps| - 1]);
      if s.Some? && Enabled(orgs, cap, s.value, steps[|steps| - 1])
      then Some(Do(orgs, cap, s.value, steps[|steps| - 1])) else None
  }

  // ---------------------------------------------------------------- sums over the goroutines

  function Sum(ws: seq<Worker>, weigh: Worker -> nat): nat {
    if ws == [] then 0 else Sum(ws[..|ws| - 1], weigh) + weigh(ws[|ws| - 1])
  }

  function InBody(w: Worker): nat { if w.Running? then 1 else 0 }
  function Holds(w: Worker): nat { if w.Running? || w.Finished? then 1 else 0 }
  function Unreturned(w: Worker): nat { if w.Returned? then 0 else 1 }

  /** Steps the goroutine has still to take. */
  function StepsLeft(w: Worker): nat {
    match w
    case Running => 3
    case Finished(_, _) => 2
    case Released(_, _) => 1
    case Returned(_, _) => 0
  }

  lemma SumAppend(ws: seq<Worker>, w: Worker, weigh: Worker -> nat)
    ensures Sum(ws + [w], weigh) == Sum(ws, weigh) + weigh(w)
  {
    assert (ws + [w])[..|ws|] == ws;
  }

  lemma {:induction false} SumUpdate(ws: seq<Worker>, i: nat, w: Worker, weigh: Worker -> nat)
    requires i < |ws|
    ensures Sum(ws[i := w], weigh) == Sum(ws, weigh) - weigh(ws[i]) + weigh(w)
    ensures Sum(ws, weigh) >= weigh(ws[i])
  {
    var n := |ws| - 1;
    if i < n {
      SumUpdate(ws[..n], i, w, weigh);
      assert ws[i := w][..n] == ws[..n][i := w];
    } else {
      assert ws[i := w][..n] == ws[..n];
    }
  }

  lemma {:induction false} SumBelow(ws: seq<Worker>)
    ensures Sum(ws, InBody) <= Sum(ws, Holds)
  {
    if ws != [] { SumBelow(ws[..|ws| - 1]); }
  }

  /** A positive sum has a positive summand. */
  lemma {:induction false} SumWitness(ws: seq<Worker>, weigh: Worker -> nat) returns (i: nat)
    requires Sum(ws, weigh) > 0
    ensures i < |ws| && weigh(ws[i]) > 0
  {
    i := |ws| - 1;
    if weigh(ws[i]) == 0 { i := SumWitness(ws[..|ws| - 1], weigh); }
  }

  // ---------------------------------------------------------------- what every step keeps

  /** The channel holds one token for each goroutine before its deferred receive, and the loop's own. */
  predicate Accounted(cap: nat, s: State) {
    && s.tokens == Sum(s.workers, Holds) + (if s.holding then 1 else 0) <= cap
    && s.wait == Sum(s.workers, Unreturned)
  }

  /** The goroutine's outcome is what its body yields, cut short only by the parent context. */
  predicate Honest(orgs: seq<Org>, s: State, i: nat)
    requires i < |s.workers| <= |orgs|
  {
    var w := s.workers[i];
    w.Running? || (w.out == Yields(orgs[i], w.saw) && (w.saw ==> s.parentDone))
  }

  predicate Invariant(orgs: seq<Org>, cap: nat, s: State) {
    && |s.workers| + (if s.holding then 1 else 0) <= |orgs|
    && Accounted(cap, s)
    && s.err.None? && (s.groupDone <==> s.result.Some?)
    && (s.result.Some? ==> s.result == Some(None) && |s.workers| == |orgs| && s.wait == 0)
    && forall i | 0 <= i < |s.workers| :: Honest(orgs, s, i)
  }

  /** No goroutine is left behind once the errgroup's counter is zero. */
  lemma AllReturned(s: State, i: nat)
    requires s.wait == Sum(s.workers, Unreturned) && i < |s.workers|
    ensures s.wait == 0 ==> s.workers[i].Returned?
  {
    SumUpdate(s.workers, i, s.workers[i], Unreturned);
  }

  lemma WorkerStepAccounted(cap: nat, s: State, i: nat, w: Worker, tokens: nat, wait: nat)
    requires Accounted(cap, s) && i < |s.workers|
    requires tokens == s.tokens - Holds(s.workers[i]) + Holds(w) && Holds(w) <= Holds(s.workers[i])
    requires wait == s.wait - Unreturned(s.workers[i]) + Unreturned(w)
    ensures Accounted(cap, s.(workers := s.workers[i := w], tokens := tokens, wait := wait))
  {
    SumUpdate(s.workers, i, w, Holds);
    SumUpdate(s.workers, i, w, Unreturned);
  }

  lemma FinishKeeps(orgs: seq<Org>, cap: nat, s: State, i: nat)
    requires Invariant(orgs, cap, s) && Enabled(orgs, cap, s, Finish(i))
    ensures Invariant(orgs, cap, Do(orgs, cap, s, Finish(i)))
  {
    var t := Do(orgs, cap, s, Finish(i));
    AllReturned(s, i);
    WorkerStepAccounted(cap, s, i, t.workers[i], t.tokens, t.wait);
    forall j | 0 <= j < |t.workers| ensures Honest(orgs, t, j) {
      assert Honest(orgs, s, j);
    }
  }

  lemma ReleaseKeeps(orgs: seq<Org>, cap: nat, s: State, i: nat)
    requires Invariant(orgs, cap, s) && Enabled(orgs, cap, s, Release(i))
    ensures Invariant(orgs, cap, Do(orgs, cap, s, Release(i)))
  {
    var t := Do(orgs, cap, s, Release(i));
    WorkerStepAccounted(cap, s, i, t.workers[i], t.tokens, t.wait);
    forall j | 0 <= j < |t.workers| ensures Honest(orgs, t, j) {
      assert Honest(orgs, s, j);
    }
  }

  lemma ReturnKeeps(orgs: seq<Org>, cap: nat, s: State, i: nat)
    requires Invariant(orgs, cap, s) && Enabled(orgs, cap, s, Return(i))
    ensures Invariant(orgs, cap, Do(orgs, cap, s, Return(i)))
  {
    var t := Do(orgs, cap, s, Return(i));
    WorkerStepAccounted(cap, s, i, t.workers[i], t.tokens, t.wait);
    forall j | 0 <= j < |t.workers| ensures Honest(orgs, t, j) {
      assert Honest(orgs, s, j);
    }
  }

  lemma LoopKeeps(orgs: seq<Org>, cap: nat, s: State, step: Step)
    requires Invariant(orgs, cap, s) && Enabled(orgs, cap, s, step)
    requires step == Acquire || step == Spawn || step == Wait || step == Cancel
    ensures Invariant(orgs, cap, Do(orgs, cap, s, step))
  {
    var t := Do(orgs, cap, s, step);
    SumAppend(s.workers, Running, Holds);
    SumAppend(s.workers, Running, Unreturned);
    forall j | 0 <= j < |t.workers| ensures Honest(orgs, t, j) {
      if j < |s.workers| { assert Honest(orgs, s, j); }
    }
  }

  lemma StepKeeps(orgs: seq<Org>, cap: nat, s: State, step: Step)
    requires Invariant(orgs, cap, s) && Enabled(orgs, cap, s, step)
    ensures Invariant(orgs, cap, Do(orgs, cap, s, step))
  {
    match step
    case Finish(i) => FinishKeeps(orgs, cap, s, i);
    case Release(i) => ReleaseKeeps(orgs, cap, s, i);
    case Return(i) => ReturnKeeps(orgs, cap, s, i);
    case _ => LoopKeeps(orgs, cap, s, step);
  }

  lemma {:induction false} RunKeeps(orgs: seq<Org>, cap: nat, steps: seq<Step>)
    requires Run(orgs, cap, steps).Some?
    ensures Invariant(orgs, cap, Run(orgs, cap, steps).value)
    decreases |steps|
  {
    if steps != [] {
      RunKeeps(orgs, cap, steps[..|steps| - 1]);
      StepKeeps(orgs, cap, Run(orgs, cap, steps[..|steps| - 1]).value, steps[|steps| - 1]);
    }
  }

  /** In every interleaving at most `cap` bodies are running. */
  lemma AtMostCapInFlight(orgs: seq<Org>, cap: nat, steps: seq<Step>)
    requires Run(orgs, cap, steps).Some?
    ensures Sum(Run(orgs, cap, steps).value.workers, InBody) <= cap
  {
    RunKeeps(orgs, cap, steps);
    SumBelow(Run(orgs, cap, steps).value.workers);
  }

  // ---------------------------------------------------------------- no deadlock, and every run ends

  /**
   Until `Wait` has returned, some step other than a cancellation can be taken: neither the send nor
   a deferred receive can block for ever.
   */
  lemma NeverStuck(orgs: seq<Org>, cap: nat, s: State) returns (step: Step)
    requires Invariant(orgs, cap, s) && cap > 0 && s.result.None?
    ensures step != Cancel && Enabled(orgs, cap, s, step)
  {
    if s.holding {
      step := Spawn;
    } else if s.wait > 0 {
      var i := SumWitness(s.workers, Unreturned);
      SumUpdate(s.workers, i, s.workers[i], Holds);
      step := if s.workers[i].Running? then Finish(i) else if s.workers[i].Finished? then Release(i) else Return(i);
    } else if |s.workers| == |orgs| {
      step := Wait;
    } else {
      step := Acquire;
      if s.tokens > 0 {
        var i := SumWitness(s.workers, Holds);
        AllReturned(s, i);
      }
    }
  }

  /** Steps still to come: five for each organisation, the return of `Wait`, and a cancellation. */
  function Left(orgs: seq<Org>, s: State): int {
    5 * (|orgs| - |s.workers|) - (if s.holding then 1 else 0) + Sum(s.workers, StepsLeft)
    + (if s.result.None? then 1 else 0) + (if s.parentDone then 0 else 1)
  }

  lemma StepSpends(orgs: seq<Org>, cap: nat, s: State, step: Step)
    requires Invariant(orgs, cap, s) && Enabled(orgs, cap, s, step)
    ensures Left(orgs, Do(orgs, cap, s, step)) == Left(orgs, s) - 1
  {
    match step
    case Finish(i) => WorkerSpends(orgs, cap, s, step, i);
    case Release(i) => WorkerSpends(orgs, cap, s, step, i);
    case Return(i) => WorkerSpends(orgs, cap, s, step, i);
    case Spawn => SumAppend(s.workers, Running, StepsLeft);
    case _ =>
  }

  lemma WorkerSpends(orgs: seq<Org>, cap: nat, s: State, step: Step, i: nat)
    requires Enabled(orgs, cap, s, step) && (step == Finish(i) || step == Release(i) || step == Return(i))
    ensures Left(orgs, Do(orgs, cap, s, step)) == Left(orgs, s) - 1
  {
    SumUpdate(s.workers, i, Do(orgs, cap, s, step).workers[i], StepsLeft);
  }

  /** However the steps interleave, no run is longer than five steps an organisation and two more. */
  lemma {:induction false} EveryRunEnds(orgs: seq<Org>, cap: nat, steps: seq<Step>)
    requires Run(orgs, cap, steps).Some?
    ensures |steps| + Left(orgs, Run(orgs, cap, steps).value) == 5 * |orgs| + 2
    ensures |steps| <= 5 * |orgs| + 2
    decreases |steps|
  {
    RunKeeps(orgs, cap, steps);
    if steps != [] {
      var before := steps[..|steps| - 1];
      EveryRunEnds(orgs, cap, before);
      RunKeeps(orgs, cap, before);
      StepSpends(orgs, cap, Run(orgs, cap, before).value, steps[|steps| - 1]);
    }
  }

  // ---------------------------------------------------------------- each organisation exactly once

  /** Whether the body of goroutine `i` has ended. */
  predicate Processed(s: State, i: nat) {
    i < |s.workers| && !s.workers[i].Running?
  }

  /** A body ends at most once in a run, and the record shows whether it did. */
  lemma {:induction false} FinishedOnce(orgs: seq<Org>, cap: nat, steps: seq<Step>, i: nat)
    requires Run(orgs, cap, steps).Some?
    ensures multiset(steps)[Finish(i)] == if Processed(Run(orgs, cap, steps).value, i) then 1 else 0
    decreases |steps|
  {
    if steps != [] {
      var before, last := steps[..|steps| - 1], steps[|steps| - 1];
      assert steps == before + [last];
      FinishedOnce(orgs, cap, before, i);
      assert multiset(steps)[Finish(i)] == multiset(before)[Finish(i)] + (if last == Finish(i) then 1 else 0);
      OthersUntouched(orgs, cap, Run(orgs, cap, before).value, last, i);
    }
  }

  /** Only its own step ends a body. */
  lemma OthersUntouched(orgs: seq<Org>, cap: nat, s: State, step: Step, i: nat)
    requires Enabled(orgs, cap, s, step)
    ensures Processed(Do(orgs, cap, s, step), i) <==> Processed(s, i) || step == Finish(i)
    ensures step == Finish(i) ==> !Processed(s, i)
  {
  }

  /**
   When `Wait` has returned it returned nil, every organisation's body has ended exactly once, and
   its outcome is what the body yields for that organisation alone.
   */
  lemma EachOrgOnce(orgs: seq<Org>, cap: nat, steps: seq<Step>, i: nat)
    requires Run(orgs, cap, steps).Some? && Run(orgs, cap, steps).value.result.Some? && i < |orgs|
    ensures var s := Run(orgs, cap, steps).value;
      && s.result == Some(None) && |s.workers| == |orgs|
      && multiset(steps)[Finish(i)] == 1
      && s.workers[i].Returned?
      && s.workers[i].out == (if s.workers[i].saw then orgs[i].cut else orgs[i].live)
      && (s.workers[i].saw ==> Cancel in steps)
  {
    var s := Run(orgs, cap, steps).value;
    RunKeeps(orgs, cap, steps);
    AllReturned(s, i);
    FinishedOnce(orgs, cap, steps, i);
    assert Honest(orgs, s, i);
    CutNeedsCancel(orgs, cap, steps);
  }

  lemma {:induction false} CutNeedsCancel(orgs: seq<Org>, cap: nat, steps: seq<Step>)
    requires Run(orgs, cap, steps).Some?
    ensures Run(orgs, cap, steps).value.parentDone <==> Cancel in steps
    decreases |steps|
  {
    if steps != [] {
      var before, last := steps[..|steps| - 1], steps[|steps| - 1];
      CutNeedsCancel(orgs, cap, before);
      OnlyCancelCuts(orgs, cap, Run(orgs, cap, before).value, last);
      assert steps == before + [last];
    }
  }

  lemma OnlyCancelCuts(orgs: seq<Org>, cap: nat, s: State, step: Step)
    requires Enabled(orgs, cap, s, step)
    ensures Do(orgs, cap, s, step).parentDone <==> s.parentDone || step == Cancel
  {
  }

  /**
   A run that no step but a cancellation can extend is complete. Without a cancellation all complete
   runs, in whatever order their steps came, end with the same outcomes.
   */
  lemma MaximalRunsAgree(orgs: seq<Org>, cap: nat, steps: seq<Step>, i: nat)
    requires cap > 0 && Run(orgs, cap, steps).Some? && Cancel !in steps && i < |orgs|
    requires forall step | step != Cancel :: !Enabled(orgs, cap, Run(orgs, cap, steps).value, step)
    ensures var s := Run(orgs, cap, steps).value;
      s.result.Some? && |s.workers| == |orgs| && s.workers[i] == Returned(orgs[i].live, false)
  {
    RunKeeps(orgs, cap, steps);
    if Run(orgs, cap, steps).value.result.None? {
      var step := NeverStuck(orgs, cap, Run(orgs, cap, steps).value);
    }
    EachOrgOnce(orgs, cap, steps, i);
  }

  // ---------------------------------------------------------------- failures stay where they are

  predicate SameWorker(v: Worker, w: Worker, own: bool) {
    match v
    case Running => w.Running?
    case Finished(o, c) => w.Finished? && c == w.saw && (own || o == w.out)
    case Released(o, c) => w.Released? && c == w.saw && (own || o == w.out)
    case Returned(o, c) => w.Returned? && c == w.saw && (own || o == w.out)
  }

  /** Two states that may differ in the outcome of organisation `k` and in nothing else. */
  predicate SameBut(s: State, t: State, k: nat) {
    && |s.workers| == |t.workers| && s == t.(workers := s.workers)
    && forall i | 0 <= i < |s.workers| :: SameWorker(s.workers[i], t.workers[i], i == k)
  }

  lemma WorkerIsolates(s: State, t: State, i: nat, v: Worker, w: Worker, k: nat)
    requires SameBut(s, t, k) && i < |s.workers| && SameWorker(v, w, i == k)
    ensures SameBut(s.(workers := s.workers[i := v]), t.(workers := t.workers[i := w]), k)
  {
  }

  /** A step of goroutine `i`. */
  lemma WorkerStepIsolates(orgs: seq<Org>, other: seq<Org>, cap: nat, s: State, t: State, step: Step, i: nat, k: nat)
    requires |orgs| == |other| && (i < |orgs| && i != k ==> orgs[i] == other[i])
    requires SameBut(s, t, k) && (step == Finish(i) || step == Release(i) || step == Return(i)) && i < |s.workers|
    ensures Enabled(orgs, cap, s, step) <==> Enabled(other, cap, t, step)
    ensures Enabled(orgs, cap, s, step) ==> SameBut(Do(orgs, cap, s, step), Do(other, cap, t, step), k)
  {
    assert SameWorker(s.workers[i], t.workers[i], i == k);
    if Enabled(orgs, cap, s, step) {
      WorkerIsolates(s, t, i, Do(orgs, cap, s, step).workers[i], Do(other, cap, t, step).workers[i], k);
    }
  }

  lemma StepIsolates(orgs: seq<Org>, other: seq<Org>, cap: nat, s: State, t: State, step: Step, k: nat)
    requires |orgs| == |other| && forall i | 0 <= i < |orgs| && i != k :: orgs[i] == other[i]
    requires SameBut(s, t, k)
    ensures Enabled(orgs, cap, s, step) <==> Enabled(other, cap, t, step)
    ensures Enabled(orgs, cap, s, step) ==> SameBut(Do(orgs, cap, s, step), Do(other, cap, t, step), k)
  {
    if (step.Finish? || step.Release? || step.Return?) && step.i < |s.workers| {
      WorkerStepIsolates(orgs, other, cap, s, t, step, step.i, k);
    }
  }

  /**
   Whatever the body of organisation `k` yields, success or failure, the same interleavings are
   possible and every other organisation ends with the same outcome.
   */
  lemma {:induction false} FailureIsIsolated(orgs: seq<Org>, other: seq<Org>, cap: nat, steps: seq<Step>, k: nat)
    requires |orgs| == |other| && forall i | 0 <= i < |orgs| && i != k :: orgs[i] == other[i]
    ensures Run(orgs, cap, steps).Some? <==> Run(other, cap, steps).Some?
    ensures Run(orgs, cap, steps).Some? ==>
      SameBut(Run(orgs, cap, steps).value, Run(other, cap, steps).value, k)
    decreases |steps|
  {
    if steps != [] {
      var before := steps[..|steps| - 1];
      FailureIsIsolated(orgs, other, cap, before, k);
      if Run(orgs, cap, before).Some? {
        var s, t := Run(orgs, cap, before).value, Run(other, cap, before).value;
        StepIsolates(orgs, other, cap, s, t, steps[|steps| - 1], k);
      }
    }
  }
}
