/**
 `cachedAIHealth` of backend/cmd/api/server.go: a probe result cached for a fixed time under a mutex
 that is released between the check and the store, as a state machine over its critical sections.
 */
module HealthCache {
  import opened PyText

  /** `aiHealthTTL`. Times are in nanoseconds. */
  const TTL := 10_000_000_000

  datatype Status = Status(ok: bool, latencyMs: int)

  /** The package variables `aiHealthAt` (None is the zero time) and `aiHealthRes`. */
  datatype Cache = Cache(at: Option<int>, res: Status)

  /** What the first critical section answers at time `now`. */
  function Lookup(c: Cache, now: int): Option<Status> {
    if c.at.Some? && now - c.at.value < TTL then Some(c.res) else None
  }

  /** The guarded variables with the two critical sections of the function. */
  class AiHealth {
    var at: Option<int>
    var res: Status

    function Value(): Cache
      reads this
    {
      Cache(at, res)
    }

    constructor ()
      ensures Value() == Cache(None, Status(false, 0))
    {
      at, res := None, Status(false, 0);
    }

    /** The first critical section takes the step `Check` of any run that it is part of. */
    method Check(now: int, ghost s: State) returns (answer: Option<Status>)
      requires s.cache == Value() && s.clock == now
      ensures answer == Lookup(Value(), now)
      ensures answer == if at.Some? && now - at.value < 10_000_000_000 then Some(res) else None
      ensures Do(s, Step.Check).cache == Value()
      ensures match answer
        case Some(res) => Do(s, Step.Check) == s.(answers := s.answers + [Answer(now, res, s.writer)])
        case None => Do(s, Step.Check).answers == s.answers && |Do(s, Step.Check).probes| == |s.probes| + 1
    {
      if at.Some? && now - at.value < TTL {
        return Some(res);
      }
      return None;
    }

    /** The second one takes the step `Store` of probe `i`. */
    method Store(now: int, r: Status, ghost s: State, ghost i: nat)
      requires s.cache == Value() && s.clock == now && Enabled(s, Step.Store(i)) && s.probes[i].result == Some(r)
      modifies this
      ensures Value() == Do(s, Step.Store(i)).cache
      ensures Lookup(Value(), now) == Some(r)
    {
      at, res := Some(now), r;
    }
  }

  // ---------------------------------------------------------------- the state machine

  /**
   A call that missed the cache. `peers` are the calls, itself included, that had missed and not yet
   stored right after its check: those whose probe overlaps it.
   */
  datatype Probe = Probe(checkAt: int, peers: set<nat>, start: Option<int>, result: Option<Status>,
                         storeAt: Option<int>)

  /** A cached answer: the time of its check, what it returned, and the probe it came from. */
  datatype Answer = Answer(now: int, res: Status, source: nat)

  /** `writer` is the probe that stored last. */
  datatype State = State(clock: int, cache: Cache, writer: nat, probes: seq<Probe>, answers: seq<Answer>)

  const INITIAL := State(0, Cache(None, Status(false, 0)), 0, [], [])

  /** One step of some goroutine, or time passing. */
  datatype Step =
    | Tick(ns: nat)
    | Check                    // lock, test, unlock: an answer or a miss
    | Begin(i: nat)            // start := time.Now()
    | Finish(i: nat, ok: bool) // the provider answered
    | Store(i: nat)            // lock, overwrite, unlock

  function Open(probes: seq<Probe>): set<nat> {
    set i | 0 <= i < |probes| && probes[i].storeAt.None?
  }

  /** Whether the step can be taken; each call takes its own steps in order. */
  predicate Enabled(s: State, step: Step) {
    match step
    case Tick(_) => true
    case Check => true
    case Begin(i) => i < |s.probes| && s.probes[i].start.None?
    case Finish(i, _) => i < |s.probes| && s.probes[i].start.Some? && s.probes[i].result.None?
    case Store(i) => i < |s.probes| && s.probes[i].result.Some? && s.probes[i].storeAt.None?
  }

  function Do(s: State, step: Step): State
    requires Enabled(s, step)
  {
    match step
    case Tick(ns) => s.(clock := s.clock + ns)
    case Check =>
      var hit := Lookup(s.cache, s.clock);
      if hit.Some? then s.(answers := s.answers + [Answer(s.clock, hit.value, s.writer)])
      else s.(probes := s.probes + [Probe(s.clock, Open(s.probes) + {|s.probes|}, None, None, None)])
    case Begin(i) => s.(probes := s.probes[i := s.probes[i].(start := Some(s.clock))])
    case Finish(i, ok) =>
      var ms := (s.clock - s.probes[i].start.value) / 1_000_000;
      s.(probes := s.probes[i := s.probes[i].(result := Some(Status(ok, ms)))])
    case Store(i) =>
      s.(probes := s.probes[i := s.probes[i].(storeAt := Some(s.clock))],
         cache := Cache(Some(s.clock), s.probes[i].result.value), writer := i)
  }

  /** A run from the start, one step after the other; None when a step was not enabled. */
  function Run(steps: seq<Step>): Option<State> {
    if steps == [] then Some(INITIAL)
    else
      var s := Run(steps[..|steps| - 1]);
      if s.Some? && Enabled(s.value, steps[|steps| - 1]) then Some(Do(s.value, steps[|steps| - 1])) else None
  }

  // ---------------------------------------------------------------- what every step keeps

  /** One call's record: its times are in order and in the past. */
  predicate Ordered(p: Probe, clock: int) {
    && p.checkAt <= clock
    && (p.start.Some? ==> p.checkAt <= p.start.value <= clock)
    && (p.result.Some? ==> p.start.Some?)
    && (p.storeAt.Some? ==> p.result.Some? && p.start.value <= p.storeAt.value <= clock)
  }

  /** The cached pair is the store time and the result of one and the same probe, the last to store. */
  predicate FromOneProbe(s: State) {
    if s.cache.at.None? then forall i | 0 <= i < |s.probes| :: s.probes[i].storeAt.None?
    else
      && s.writer < |s.probes|
      && s.probes[s.writer].storeAt == s.cache.at
      && s.probes[s.writer].result == Some(s.cache.res)
      && forall i | 0 <= i < |s.probes| && s.probes[i].storeAt.Some? :: s.probes[i].storeAt.value <= s.cache.at.value
  }

  /**
   A later check `q` and the call numbered `i`, recorded as `p`: either `p` had not stored by then,
   or its result had expired.
   */
  predicate Apart(p: Probe, i: nat, q: Probe) {
    if i in q.peers then
      p.checkAt <= q.checkAt && (p.storeAt.Some? ==> q.checkAt <= p.storeAt.value)
    else p.storeAt.Some? && p.storeAt.value + TTL <= q.checkAt
  }

  predicate AllApart(s: State) {
    forall i, j | 0 <= i < j < |s.probes| :: Apart(s.probes[i], i, s.probes[j])
  }

  /** Every answer was younger than the time to live at its check and is the stored result of its probe. */
  predicate Fresh(s: State) {
    forall k | 0 <= k < |s.answers| ::
      var a := s.answers[k];
      && a.source < |s.probes| && s.probes[a.source].storeAt.Some? && s.probes[a.source].result == Some(a.res)
      && 0 <= a.now - s.probes[a.source].storeAt.value < TTL
  }

  predicate Invariant(s: State) {
    && (forall i | 0 <= i < |s.probes| :: Ordered(s.probes[i], s.clock))
    && (forall i | 0 <= i < |s.probes| :: i in s.probes[i].peers)
    && FromOneProbe(s) && AllApart(s) && Fresh(s)
  }

  /** A miss is apart from every earlier call. */
  lemma MissIsApart(s: State, i: nat)
    requires Invariant(s) && Lookup(s.cache, s.clock).None? && i < |s.probes|
    ensures Apart(s.probes[i], i, Do(s, Check).probes[|s.probes|])
  {
    assert Ordered(s.probes[i], s.clock);
    assert i in Open(s.probes) <==> s.probes[i].storeAt.None?;
  }

  lemma MissKeeps(s: State)
    requires Invariant(s) && Lookup(s.cache, s.clock).None?
    ensures Invariant(Do(s, Check))
  {
    var t := Do(s, Check);
    var n := |s.probes|;
    assert forall i | 0 <= i < n :: t.probes[i] == s.probes[i];
    forall i, j | 0 <= i < j < |t.probes| ensures Apart(t.probes[i], i, t.probes[j]) {
      if j == n { MissIsApart(s, i); }
    }
    assert FromOneProbe(t) && Fresh(t);
  }

  lemma HitKeeps(s: State)
    requires Invariant(s) && Lookup(s.cache, s.clock).Some?
    ensures Invariant(Do(s, Check))
  {
    var t := Do(s, Check);
    assert t.probes == s.probes;
    assert forall k | 0 <= k < |s.answers| :: t.answers[k] == s.answers[k];
    assert Fresh(t);
  }

  lemma TickKeeps(s: State, ns: nat)
    requires Invariant(s)
    ensures Invariant(Do(s, Tick(ns)))
  {
    var t := Do(s, Tick(ns));
    forall i | 0 <= i < |t.probes| ensures Ordered(t.probes[i], t.clock) {
      assert Ordered(s.probes[i], s.clock);
    }
    assert FromOneProbe(t) && AllApart(t) && Fresh(t);
  }

  /** A step of one call's own that changes nothing the others look at. */
  lemma OwnStepKeeps(s: State, i: nat, p: Probe)
    requires Invariant(s) && i < |s.probes| && s.probes[i].storeAt.None?
    requires p.checkAt == s.probes[i].checkAt && p.peers == s.probes[i].peers && p.storeAt.None?
    requires Ordered(p, s.clock)
    ensures Invariant(s.(probes := s.probes[i := p]))
  {
    var t := s.(probes := s.probes[i := p]);
    forall a, b | 0 <= a < b < |t.probes| ensures Apart(t.probes[a], a, t.probes[b]) {
      assert Apart(s.probes[a], a, s.probes[b]);
    }
    assert FromOneProbe(t) && Fresh(t);
  }

  lemma StoreKeeps(s: State, i: nat)
    requires Invariant(s) && Enabled(s, Store(i))
    ensures Invariant(Do(s, Store(i)))
  {
    var t := Do(s, Store(i));
    assert Ordered(s.probes[i], s.clock);
    forall a, b | 0 <= a < b < |t.probes| ensures Apart(t.probes[a], a, t.probes[b]) {
      assert Apart(s.probes[a], a, s.probes[b]);
      assert Ordered(s.probes[b], s.clock);
    }
    assert FromOneProbe(t) && Fresh(t);
  }

  lemma StepKeeps(s: State, step: Step)
    requires Invariant(s) && Enabled(s, step)
    ensures Invariant(Do(s, step))
  {
    match step
    case Tick(ns) => TickKeeps(s, ns);
    case Check => if Lookup(s.cache, s.clock).Some? { HitKeeps(s); } else { MissKeeps(s); }
    case Begin(i) =>
      assert Ordered(s.probes[i], s.clock);
      OwnStepKeeps(s, i, s.probes[i].(start := Some(s.clock)));
    case Finish(i, ok) =>
      assert Ordered(s.probes[i], s.clock);
      OwnStepKeeps(s, i, Do(s, step).probes[i]);
    case Store(i) => StoreKeeps(s, i);
  }

  /** The invariant holds after every run, that is in every interleaving of the calls. */
  lemma {:induction false} RunKeeps(steps: seq<Step>)
    requires Run(steps).Some?
    ensures Invariant(Run(steps).value)
    decreases |steps|
  {
    if steps != [] {
      RunKeeps(steps[..|steps| - 1]);
      StepKeeps(Run(steps[..|steps| - 1]).value, steps[|steps| - 1]);
    }
  }

  // ---------------------------------------------------------------- what is answered

  /** The time that passes in the steps. */
  function Elapsed(steps: seq<Step>): int {
    if steps == [] then 0
    else
      var n := |steps| - 1;
      Elapsed(steps[..n]) + if steps[n].Tick? then steps[n].ns else 0
  }

  /** Step `j` begins probe `i`, at time `t`. */
  predicate BegunAt(steps: seq<Step>, i: nat, t: int, j: nat) {
    j < |steps| && steps[j] == Begin(i) && t == Elapsed(steps[..j])
  }

  /**
   The result is what the provider answered at step `k`, with the milliseconds that passed since the probe began
   at step `j`.
   */
  predicate MeasuredAt(steps: seq<Step>, i: nat, r: Status, j: nat, k: nat) {
    && j < k < |steps| && steps[j] == Begin(i) && steps[k] == Finish(i, r.ok)
    && r.latencyMs == (Elapsed(steps[..k]) - Elapsed(steps[..j])) / 1_000_000
  }

  ghost predicate Begun(steps: seq<Step>, i: nat, t: int) {
    exists j: nat :: BegunAt(steps, i, t, j)
  }

  ghost predicate Measured(steps: seq<Step>, i: nat, r: Status) {
    exists j: nat, k: nat :: MeasuredAt(steps, i, r, j, k)
  }

  ghost predicate Logged(steps: seq<Step>, i: nat, p: Probe) {
    (p.start.Some? ==> Begun(steps, i, p.start.value)) && (p.result.Some? ==> Measured(steps, i, p.result.value))
  }

  /** Further steps leave the record as it is. */
  lemma LoggedStill(steps: seq<Step>, step: Step, i: nat, p: Probe)
    requires Logged(steps, i, p)
    ensures Logged(steps + [step], i, p)
  {
    var more := steps + [step];
    assert forall n | 0 <= n <= |steps| :: more[..n] == steps[..n];
    if p.start.Some? {
      var j: nat :| BegunAt(steps, i, p.start.value, j);
      assert BegunAt(more, i, p.start.value, j);
    }
    if p.result.Some? {
      var j: nat, k: nat :| MeasuredAt(steps, i, p.result.value, j, k);
      assert MeasuredAt(more, i, p.result.value, j, k);
    }
  }

  lemma BeginLogged(steps: seq<Step>, i: nat)
    ensures Begun(steps + [Begin(i)], i, Elapsed(steps))
  {
    assert (steps + [Begin(i)])[..|steps|] == steps;
    assert BegunAt(steps + [Begin(i)], i, Elapsed(steps), |steps|);
  }

  lemma FinishLogged(steps: seq<Step>, i: nat, ok: bool, start: int)
    requires Begun(steps, i, start)
    ensures Measured(steps + [Finish(i, ok)], i, Status(ok, (Elapsed(steps) - start) / 1_000_000))
  {
    var more := steps + [Finish(i, ok)];
    var j: nat :| BegunAt(steps, i, start, j);
    assert more[..|steps|] == steps && more[..j] == steps[..j];
    assert MeasuredAt(more, i, Status(ok, (Elapsed(steps) - start) / 1_000_000), j, |steps|);
  }

  lemma StepLogged(steps: seq<Step>, s: State, step: Step)
    requires Enabled(s, step) && s.clock == Elapsed(steps)
    requires forall i | 0 <= i < |s.probes| :: Logged(steps, i, s.probes[i])
    ensures var t := Do(s, step);
      t.clock == Elapsed(steps + [step]) && forall i | 0 <= i < |t.probes| :: Logged(steps + [step], i, t.probes[i])
  {
    hide Begun, Measured, Elapsed, Open;
    var t := Do(s, step);
    ElapsedMore(steps, step);
    forall i | 0 <= i < |t.probes| ensures Logged(steps + [step], i, t.probes[i]) {
      if i < |s.probes| {
        LoggedStill(steps, step, i, s.probes[i]);
        if step == Begin(i) { BeginLogged(steps, i); }
        if step.Finish? && step.i == i { FinishLogged(steps, i, step.ok, s.probes[i].start.value); }
      }
    }
  }

  lemma ElapsedMore(steps: seq<Step>, step: Step)
    ensures Elapsed(steps + [step]) == Elapsed(steps) + if step.Tick? then step.ns else 0
  {
    assert (steps + [step])[..|steps|] == steps;
  }

  lemma {:induction false} RunLogged(steps: seq<Step>)
    requires Run(steps).Some?
    ensures var s := Run(steps).value;
      s.clock == Elapsed(steps) && forall i | 0 <= i < |s.probes| :: Logged(steps, i, s.probes[i])
    decreases |steps|
  {
    if steps != [] {
      var n := |steps| - 1;
      RunLogged(steps[..n]);
      StepLogged(steps[..n], Run(steps[..n]).value, steps[n]);
      assert steps == steps[..n] + [steps[n]];
    }
  }

  /**
   In every run: an answer from the cache is what the provider answered to the probe it came from, with the time
   that probe took, and so is the cached result itself.
   */
  lemma AnswersAreTheProviders(steps: seq<Step>)
    requires Run(steps).Some?
    ensures var s := Run(steps).value;
      && (forall k | 0 <= k < |s.answers| :: Measured(steps, s.answers[k].source, s.answers[k].res))
      && (s.cache.at.Some? ==> Measured(steps, s.writer, s.cache.res))
  {
    RunLogged(steps);
    RunKeeps(steps);
    var s := Run(steps).value;
    forall k | 0 <= k < |s.answers| ensures Measured(steps, s.answers[k].source, s.answers[k].res) {
      assert Logged(steps, s.answers[k].source, s.probes[s.answers[k].source]);
    }
    if s.cache.at.Some? {
      assert Logged(steps, s.writer, s.probes[s.writer]);
    }
  }

  // ---------------------------------------------------------------- how many probes

  /** The probes that start between `from` and `to`, both included. */
  function Started(s: State, from: int, to: int): set<nat> {
    set i | 0 <= i < |s.probes| && s.probes[i].start.Some? && from <= s.probes[i].start.value <= to
  }

  /** At most `k` calls are ever between their check and their store at the same time. */
  predicate Overlap(s: State, k: nat) {
    forall j | 0 <= j < |s.probes| :: |s.probes[j].peers| <= k
  }

  /** Two probes that start less than the time to live apart overlap. */
  lemma CloseProbesOverlap(s: State, i: nat, j: nat)
    requires Invariant(s) && i < j < |s.probes|
    requires s.probes[i].start.Some? && s.probes[j].start.Some?
    requires s.probes[j].start.value - s.probes[i].start.value < TTL
    ensures i in s.probes[j].peers
  {
    assert Ordered(s.probes[i], s.clock) && Ordered(s.probes[j], s.clock);
    assert Apart(s.probes[i], i, s.probes[j]);
  }

  lemma {:induction false} HasGreatest(a: set<nat>) returns (m: nat)
    requires a != {}
    ensures m in a && forall x | x in a :: x <= m
    decreases |a|
  {
    assert (forall x :: x !in a) ==> a == {};
    m :| m in a;
    var rest := a - {m};
    assert a == rest + {m};
    if rest != {} {
      var k := HasGreatest(rest);
      m := if k > m then k else m;
    }
  }

  /** Within one time to live, no more probes start than ever overlap. */
  lemma OneWindow(s: State, k: nat, from: int)
    requires Invariant(s) && Overlap(s, k)
    ensures |Started(s, from, from + TTL - 1)| <= k
  {
    var a := Started(s, from, from + TTL - 1);
    if a != {} {
      var j := HasGreatest(a);
      forall i | i in a ensures i in s.probes[j].peers {
        if i < j { CloseProbesOverlap(s, i, j); }
      }
      SubsetCard(a, s.probes[j].peers);
    }
  }

  /** A window split in two. */
  lemma StartedSplits(s: State, from: int, mid: int, to: int)
    ensures |Started(s, from, to)| <= |Started(s, from, mid - 1)| + |Started(s, mid, to)|
  {
    var a, b, c := Started(s, from, to), Started(s, from, mid - 1), Started(s, mid, to);
    SubsetCard(a, b + c);
    assert b + c == b + (c - b);
    SubsetCard(c - b, c);
  }

  lemma {:induction false} ManyWindows(s: State, k: nat, from: int, to: int, m: nat)
    requires Invariant(s) && Overlap(s, k) && to == from + m * TTL - 1
    ensures |Started(s, from, to)| <= k * m
    decreases m
  {
    if m == 0 {
      assert Started(s, from, to) == {};
    } else {
      var mid := to - TTL + 1;
      ManyWindows(s, k, from, mid - 1, m - 1);
      OneWindow(s, k, mid);
      StartedSplits(s, from, mid, to);
      assert k * m == k * (m - 1) + k;
    }
  }

  /**
   After every run in which at most `k` calls are between check and store at the same time, any
   window of length `w` holds at most `k * (w / TTL + 1)` probe starts. For calls that do not
   overlap, `k` is 1: one probe per time to live.
   */
  lemma ProbesPerWindow(steps: seq<Step>, k: nat, from: int, w: nat)
    requires Run(steps).Some? && Overlap(Run(steps).value, k)
    ensures |Started(Run(steps).value, from, from + w)| <= k * (w / TTL + 1)
  {
    var s := Run(steps).value;
    RunKeeps(steps);
    var to := from + (w / TTL + 1) * TTL - 1;
    ManyWindows(s, k, from, to, w / TTL + 1);
    SubsetCard(Started(s, from, from + w), Started(s, from, to));
  }

  // ---------------------------------------------------------------- the bound is attained

  function Checks(k: nat): seq<Step> {
    if k == 0 then [] else Checks(k - 1) + [Check]
  }

  function Burst(k: nat, begun: nat): seq<Step> {
    if begun == 0 then Checks(k) else Burst(k, begun - 1) + [Begin(begun - 1)]
  }

  /** The first `k` calls. */
  function UpTo(k: nat): (r: set<nat>)
    ensures forall x: nat :: x in r <==> x < k
    ensures |r| == k
  {
    if k == 0 then {} else UpTo(k - 1) + {k - 1}
  }

  /** `k` calls at time 0, the first `begun` of them probing. */
  ghost predicate BurstState(s: State, k: nat, begun: nat) {
    && s.clock == 0 && s.cache == INITIAL.cache && |s.probes| == k
    && forall i | 0 <= i < k ::
         && s.probes[i].storeAt.None? && s.probes[i].start == (if i < begun then Some(0) else None)
         && s.probes[i].peers <= UpTo(k)
  }

  lemma RunAppend(steps: seq<Step>, step: Step)
    requires Run(steps).Some? && Enabled(Run(steps).value, step)
    ensures Run(steps + [step]) == Some(Do(Run(steps).value, step))
  {
    assert (steps + [step])[..|steps|] == steps;
  }

  lemma OneMoreMiss(s: State, k: nat)
    requires BurstState(s, k, 0)
    ensures BurstState(Do(s, Check), k + 1, 0)
  {
  }

  lemma {:induction false} ChecksRun(k: nat)
    ensures Run(Checks(k)).Some? && BurstState(Run(Checks(k)).value, k, 0)
  {
    if k > 0 {
      ChecksRun(k - 1);
      RunAppend(Checks(k - 1), Check);
      OneMoreMiss(Run(Checks(k - 1)).value, k - 1);
    }
  }

  lemma OneMoreProbe(s: State, k: nat, begun: nat)
    requires begun < k && BurstState(s, k, begun)
    ensures Enabled(s, Begin(begun)) && BurstState(Do(s, Begin(begun)), k, begun + 1)
  {
  }

  lemma {:induction false} BurstRun(k: nat, begun: nat)
    requires begun <= k
    ensures Run(Burst(k, begun)).Some? && BurstState(Run(Burst(k, begun)).value, k, begun)
    decreases begun
  {
    if begun == 0 {
      ChecksRun(k);
    } else {
      BurstRun(k, begun - 1);
      OneMoreProbe(Run(Burst(k, begun - 1)).value, k, begun - 1);
      RunAppend(Burst(k, begun - 1), Begin(begun - 1));
    }
  }

  /**
   The bound cannot be improved, and the comment's one probe per time to live does not hold of
   overlapping calls: for every `k` some run has `k` calls overlap and `k` probes start at once.
   */
  lemma OverlappingCallsAllProbe(k: nat)
    ensures exists steps :: Run(steps).Some? && Overlap(Run(steps).value, k) && |Started(Run(steps).value, 0, 0)| == k
  {
    BurstRun(k, k);
    var s := Run(Burst(k, k)).value;
    assert Started(s, 0, 0) == UpTo(k);
    forall j | 0 <= j < |s.probes| ensures |s.probes[j].peers| <= k {
      SubsetCard(s.probes[j].peers, UpTo(k));
    }
    assert Overlap(s, k);
  }

  // ---------------------------------------------------------------- exactly when one probe per time to live

  /** Every call stores within half the time to live of its check, as the 3 second timeout intends. */
  predicate Prompt(s: State) {
    forall i | 0 <= i < |s.probes| ::
      var p := s.probes[i];
      2 * ((if p.storeAt.Some? then p.storeAt.value else s.clock) - p.checkAt) < TTL
  }

  /** The promise of the comment: any two probes start at least the time to live apart. */
  predicate OnePerTTL(s: State) {
    forall i, j | 0 <= i < j < |s.probes| && s.probes[i].start.Some? && s.probes[j].start.Some? ::
      !(-TTL < s.probes[j].start.value - s.probes[i].start.value < TTL)
  }

  /** No call that probes was checked while another one was between its check and its store. */
  predicate Alone(s: State) {
    forall i, j | 0 <= i < j < |s.probes| && s.probes[i].start.Some? && s.probes[j].start.Some? ::
      i !in s.probes[j].peers
  }

  lemma PromptOverlapIsClose(s: State, i: nat, j: nat)
    requires Invariant(s) && Prompt(s) && i < j < |s.probes| && i in s.probes[j].peers
    requires s.probes[i].start.Some? && s.probes[j].start.Some?
    ensures -TTL < s.probes[j].start.value - s.probes[i].start.value < TTL
  {
    assert Ordered(s.probes[i], s.clock) && Ordered(s.probes[j], s.clock);
    assert Apart(s.probes[i], i, s.probes[j]);
  }

  /** After every run of prompt calls, there is one probe per time to live exactly when no two calls overlap. */
  lemma OnePerTTLIffAlone(steps: seq<Step>)
    requires Run(steps).Some? && Prompt(Run(steps).value)
    ensures OnePerTTL(Run(steps).value) <==> Alone(Run(steps).value)
  {
    var s := Run(steps).value;
    RunKeeps(steps);
    forall i, j | 0 <= i < j < |s.probes| && s.probes[i].start.Some? && s.probes[j].start.Some?
      ensures i in s.probes[j].peers <==> -TTL < s.probes[j].start.value - s.probes[i].start.value < TTL
    {
      if i in s.probes[j].peers {
        PromptOverlapIsClose(s, i, j);
      } else if s.probes[j].start.value - s.probes[i].start.value < TTL {
        CloseProbesOverlap(s, i, j);
      }
    }
  }
}
