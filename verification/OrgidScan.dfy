/**
 `scan_go_raw_sql` of scripts/lint-orgid-queries.py for one file: which SQL literals are checked, which
 an opt-out suppresses, and what is reported. What the regular expressions find out about a literal is
 the parameter `judge`; where they find an opt-out is the parameter `matches`.
 */
module OrgidScan {
  import opened PyText
  import opened GoText
  import opened GoIndex
  import opened Governed
  import opened Suppressions

  /**
   A literal's text: no SQL; or SQL that has to be filtered or not (`leading_dml` and a tenant table),
   with `org_id` in its body or not, and with this many unscoped joins.
   */
  datatype Query = NotSql | Sql(eligible: bool, scoped: bool, joins: nat)

  datatype Reason = MissingOrgId | UnscopedJoin(k: nat)
  datatype Violation = Violation(start: nat, line: nat, reason: Reason)

  /** What stands between the backticks. */
  function Snippet(text: string, span: (nat, nat)): string {
    var hi := if span.1 - 1 < |text| then span.1 - 1 else |text|;
    if span.0 + 1 <= hi then text[span.0 + 1..hi] else ""
  }

  predicate IsSql(q: Query) { q.Sql? }
  predicate IsEligible(q: Query) { q.Sql? && q.eligible }

  /** The spans whose literal is of the wanted sort, in order. */
  function Chosen(judge: string -> Query, want: Query -> bool, text: string, spans: seq<(nat, nat)>): seq<(nat, nat)> {
    if spans == [] then []
    else
      var n := |spans| - 1;
      var rest := Chosen(judge, want, text, spans[..n]);
      if want(judge(Snippet(text, spans[n]))) then rest + [spans[n]] else rest
  }

  /** The opt-out governs the SQL literal that starts at `s`. */
  ghost predicate Covers(alnum: char -> bool, text: string, spans: seq<(nat, nat)>, c: Comment, s: nat)
    requires c.offset < |text|
  {
    if c.standalone then Governs(Boundaries(alnum, text, c.offset), c.offset, Stop(text, c.offset), Starts(spans), s)
    else exists e :: (s, e) in spans && SpansLine(text, s, e, c.line)
  }

  /** Some opt-out of the kind governs the literal. */
  ghost predicate Exempt(alnum: char -> bool, text: string, spans: seq<(nat, nat)>, outs: seq<OptOut>, kind: Kind,
                         s: nat)
    requires Placed(text, outs)
  {
    exists i :: 0 <= i < |outs| && outs[i].kind == kind && Covers(alnum, text, spans, outs[i].comment, s)
  }

  /** The opt-out governs no SQL literal at all. */
  ghost predicate Stale(alnum: char -> bool, text: string, spans: seq<(nat, nat)>, c: Comment)
    requires c.offset < |text|
  {
    forall s :: !Covers(alnum, text, spans, c, s)
  }

  /** The opt-out governs SQL, but none that has to be filtered. */
  ghost predicate Redundant(alnum: char -> bool, text: string, spans: seq<(nat, nat)>, eligible: set<nat>, c: Comment)
    requires c.offset < |text|
  {
    !Stale(alnum, text, spans, c) && forall s | s in eligible :: !Covers(alnum, text, spans, c, s)
  }

  // ---------------------------------------------------------------- the spans

  lemma {:induction false} RawsAscend(text: string, i: nat)
    requires i <= |text|
    ensures Ascending(RawsTo(text, i)) && forall r | r in RawsTo(text, i) :: r.0 < i
  {
    if i > 0 { RawsAscend(text, i - 1); }
  }

  lemma {:induction false} ChosenAre(judge: string -> Query, want: Query -> bool, text: string, spans: seq<(nat, nat)>)
    requires Ascending(spans)
    ensures Ascending(Chosen(judge, want, text, spans))
    ensures forall s :: s in Chosen(judge, want, text, spans) <==> s in spans && want(judge(Snippet(text, s)))
  {
    if spans != [] {
      var n := |spans| - 1;
      ChosenAre(judge, want, text, spans[..n]);
      assert spans == spans[..n] + [spans[n]];
      var rest := Chosen(judge, want, text, spans[..n]);
      forall j | 0 <= j < |rest| ensures rest[j].0 < spans[n].0 {
        assert rest[j] in rest;
      }
    }
  }

  // ---------------------------------------------------------------- the opt-outs

  /** How many of the opt-outs govern nothing, and how many nothing that matters. */
  ghost function CountStale(alnum: char -> bool, text: string, spans: seq<(nat, nat)>, outs: seq<OptOut>): nat
    requires Placed(text, outs)
  {
    if outs == [] then 0
    else
      var n := |outs| - 1;
      CountStale(alnum, text, spans, outs[..n]) + if Stale(alnum, text, spans, outs[n].comment) then 1 else 0
  }

  ghost function CountRedundant(alnum: char -> bool, text: string, spans: seq<(nat, nat)>, eligible: set<nat>,
                                outs: seq<OptOut>): nat
    requires Placed(text, outs)
  {
    if outs == [] then 0
    else
      var n := |outs| - 1;
      CountRedundant(alnum, text, spans, eligible, outs[..n])
      + if Redundant(alnum, text, spans, eligible, outs[n].comment) then 1 else 0
  }

  /** The two skip sets hold what the opt-outs so far exempt. */
  ghost predicate Skipped(alnum: char -> bool, text: string, spans: seq<(nat, nat)>, eligible: set<nat>,
                          outs: seq<OptOut>, kind: Kind, skip: set<nat>)
    requires Placed(text, outs)
  {
    forall s :: s in skip <==> s in eligible && Exempt(alnum, text, spans, outs, kind, s)
  }

  lemma SkipMore(alnum: char -> bool, text: string, spans: seq<(nat, nat)>, eligible: set<nat>, outs: seq<OptOut>,
                 kind: Kind, skip: set<nat>, o: OptOut, hit: set<nat>)
    requires Placed(text, outs) && Placed(text, outs + [o]) && Skipped(alnum, text, spans, eligible, outs, kind, skip)
    requires o.comment.offset < |text|
    requires forall s :: s in hit <==> s in eligible && Covers(alnum, text, spans, o.comment, s)
    ensures Skipped(alnum, text, spans, eligible, outs + [o], kind, if o.kind == kind then skip + hit else skip)
  {
    var more := outs + [o];
    forall s ensures Exempt(alnum, text, spans, more, kind, s)
        <==> Exempt(alnum, text, spans, outs, kind, s) || (o.kind == kind && Covers(alnum, text, spans, o.comment, s)) {
      if i :| 0 <= i < |outs| && outs[i].kind == kind && Covers(alnum, text, spans, outs[i].comment, s) {
        assert more[i] == outs[i];
      }
      if o.kind == kind && Covers(alnum, text, spans, o.comment, s) {
        assert more[|outs|] == o;
      }
    }
  }

  /** One opt-out: its literals, and whether it is stale or redundant. */
  method Apply(src: GoSource, spans: seq<(nat, nat)>, eligible: set<nat>, c: Comment)
    returns (hit: set<nat>, stale: bool, redundant: bool)
    requires src.Valid() && At(src.text, c.offset, '/')
    requires Ascending(spans) && forall s | s in spans :: s in src.rawSpans
    ensures forall s :: s in hit <==> s in eligible && Covers(src.alnum, src.text, spans, c, s)
    ensures stale <==> Stale(src.alnum, src.text, spans, c)
    ensures redundant <==> Redundant(src.alnum, src.text, spans, eligible, c)
  {
    var covered := GovernedLiterals(src, c, spans);
    assert forall s :: s in covered <==> Covers(src.alnum, src.text, spans, c, s);
    hit := set s | s in covered && s in eligible;
    stale := covered == [];
    redundant := !stale && hit == {};
    assert !stale ==> covered[0] in covered;
  }

  /** What is known once the opt-outs `outs` are through. */
  ghost predicate Applied(alnum: char -> bool, text: string, spans: seq<(nat, nat)>, eligible: set<nat>,
                          outs: seq<OptOut>, skipGlobal: set<nat>, skipJoin: set<nat>, stale: nat, redundant: nat) {
    && Placed(text, outs)
    && Skipped(alnum, text, spans, eligible, outs, Global, skipGlobal)
    && Skipped(alnum, text, spans, eligible, outs, JoinOk, skipJoin)
    && stale == CountStale(alnum, text, spans, outs)
    && redundant == CountRedundant(alnum, text, spans, eligible, outs)
  }

  lemma ApplyMore(alnum: char -> bool, text: string, spans: seq<(nat, nat)>, eligible: set<nat>, outs: seq<OptOut>,
                  skipGlobal: set<nat>, skipJoin: set<nat>, stale: nat, redundant: nat, o: OptOut, hit: set<nat>)
    requires Applied(alnum, text, spans, eligible, outs, skipGlobal, skipJoin, stale, redundant)
    requires At(text, o.comment.offset, '/')
    requires forall s :: s in hit <==> s in eligible && Covers(alnum, text, spans, o.comment, s)
    ensures Applied(alnum, text, spans, eligible, outs + [o],
                    if o.kind == Global then skipGlobal + hit else skipGlobal,
                    if o.kind == JoinOk then skipJoin + hit else skipJoin,
                    stale + (if Stale(alnum, text, spans, o.comment) then 1 else 0),
                    redundant + if Redundant(alnum, text, spans, eligible, o.comment) then 1 else 0)
  {
    assert (outs + [o])[..|outs|] == outs;
    SkipMore(alnum, text, spans, eligible, outs, Global, skipGlobal, o, hit);
    SkipMore(alnum, text, spans, eligible, outs, JoinOk, skipJoin, o, hit);
  }

  method ApplyAll(src: GoSource, spans: seq<(nat, nat)>, eligible: set<nat>, outs: seq<OptOut>)
    returns (skipGlobal: set<nat>, skipJoin: set<nat>, stale: nat, redundant: nat)
    requires src.Valid() && Placed(src.text, outs)
    requires Ascending(spans) && forall s | s in spans :: s in src.rawSpans
    ensures Applied(src.alnum, src.text, spans, eligible, outs, skipGlobal, skipJoin, stale, redundant)
  {
    skipGlobal, skipJoin, stale, redundant := {}, {}, 0, 0;
    for i := 0 to |outs|
      invariant Applied(src.alnum, src.text, spans, eligible, outs[..i], skipGlobal, skipJoin, stale, redundant)
    {
      assert outs[..i + 1] == outs[..i] + [outs[i]];
      var hit, s, r := Apply(src, spans, eligible, outs[i].comment);
      ApplyMore(src.alnum, src.text, spans, eligible, outs[..i], skipGlobal, skipJoin, stale, redundant, outs[i], hit);
      if outs[i].kind == Global {
        skipGlobal := skipGlobal + hit;
      } else {
        skipJoin := skipJoin + hit;
      }
      if s { stale := stale + 1; }
      if r { redundant := redundant + 1; }
    }
    assert outs[..|outs|] == outs;
  }

  // ---------------------------------------------------------------- the verdict

  /** The rows that one eligible literal gets. */
  function Rows(q: Query, start: nat, line: nat, joinOk: bool): seq<Violation>
    requires q.Sql?
  {
    if !q.scoped then [Violation(start, line, MissingOrgId)]
    else if joinOk then []
    else seq(q.joins, k requires 0 <= k < q.joins => Violation(start, line, UnscopedJoin(k)))
  }

  /** The report over the eligible spans: what `global` does not suppress is judged. */
  function Report(judge: string -> Query, text: string, spans: seq<(nat, nat)>,
                  skipGlobal: set<nat>, skipJoin: set<nat>): seq<Violation>
    requires forall s | s in spans :: s.0 <= |text| && judge(Snippet(text, s)).Sql?
  {
    if spans == [] then []
    else
      var n := |spans| - 1;
      var s := spans[n];
      var rest := Report(judge, text, spans[..n], skipGlobal, skipJoin);
      if s.0 in skipGlobal then rest
      else rest + Rows(judge(Snippet(text, s)), s.0, LineNo(text, s.0), s.0 in skipJoin)
  }

  function Suppressed(spans: seq<(nat, nat)>, skipGlobal: set<nat>): nat {
    if spans == [] then 0
    else Suppressed(spans[..|spans| - 1], skipGlobal) + if spans[|spans| - 1].0 in skipGlobal then 1 else 0
  }

  method Judge(src: GoSource, judge: string -> Query, spans: seq<(nat, nat)>, skipGlobal: set<nat>, skipJoin: set<nat>)
    returns (violations: seq<Violation>, checked: nat, suppressed: nat)
    requires src.Valid() && forall s | s in spans :: s.0 <= |src.text| && judge(Snippet(src.text, s)).Sql?
    ensures violations == Report(judge, src.text, spans, skipGlobal, skipJoin)
    ensures suppressed == Suppressed(spans, skipGlobal) && checked + suppressed == |spans|
  {
    violations, checked, suppressed := [], 0, 0;
    for i := 0 to |spans|
      invariant violations == Report(judge, src.text, spans[..i], skipGlobal, skipJoin)
      invariant suppressed == Suppressed(spans[..i], skipGlobal) && checked + suppressed == i
    {
      assert spans[..i + 1][..i] == spans[..i];
      var start := spans[i].0;
      if start in skipGlobal {
        suppressed := suppressed + 1;
        continue;
      }
      checked := checked + 1;
      var line := src.LineOf(start);
      violations := violations + Rows(judge(Snippet(src.text, spans[i])), start, line, start in skipJoin);
    }
    assert spans[..|spans|] == spans;
  }

  /** A row of the report is there exactly when its literal is not suppressed and fails that check. */
  lemma {:induction false} ReportExact(judge: string -> Query, text: string, spans: seq<(nat, nat)>,
                                       skipGlobal: set<nat>, skipJoin: set<nat>, v: Violation)
    requires forall s | s in spans :: s.0 <= |text| && judge(Snippet(text, s)).Sql?
    ensures v in Report(judge, text, spans, skipGlobal, skipJoin) <==>
      exists s :: s in spans && s.0 !in skipGlobal
        && v in Rows(judge(Snippet(text, s)), s.0, LineNo(text, s.0), s.0 in skipJoin)
  {
    if spans != [] {
      var n := |spans| - 1;
      ReportExact(judge, text, spans[..n], skipGlobal, skipJoin, v);
      assert spans == spans[..n] + [spans[n]];
    }
  }

  // ---------------------------------------------------------------- one file

  /** The literals of the file that are SQL. */
  function SqlOf(judge: string -> Query, text: string): seq<(nat, nat)> {
    Chosen(judge, IsSql, text, RawsTo(text, |text|))
  }

  /** Those of them that must be filtered. */
  function EligibleOf(judge: string -> Query, text: string): seq<(nat, nat)> {
    Chosen(judge, IsEligible, text, RawsTo(text, |text|))
  }

  lemma EligibleAre(judge: string -> Query, text: string)
    ensures Ascending(SqlOf(judge, text)) && Ascending(EligibleOf(judge, text))
    ensures forall s :: s in SqlOf(judge, text) <==> s in RawsTo(text, |text|) && judge(Snippet(text, s)).Sql?
    ensures forall s :: s in EligibleOf(judge, text) <==> s in SqlOf(judge, text) && IsEligible(judge(Snippet(text, s)))
    ensures forall s :: s in EligibleOf(judge, text) <==>
                        var q := judge(Snippet(text, s)); s in RawsTo(text, |text|) && q.Sql? && q.eligible
    ensures forall s | s in EligibleOf(judge, text) :: s.0 <= |text| && s.0 in Starts(EligibleOf(judge, text))
  {
    RawsAscend(text, |text|);
    ChosenAre(judge, IsSql, text, RawsTo(text, |text|));
    ChosenAre(judge, IsEligible, text, RawsTo(text, |text|));
  }

  /** The row `v` is due: its literal must be filtered, no `global` opt-out governs it, and it fails that check. */
  ghost predicate Due(alnum: char -> bool, judge: string -> Query, text: string, outs: seq<OptOut>, v: Violation)
    requires Placed(text, outs)
  {
    var sql := SqlOf(judge, text);
    exists s :: s in sql && s.0 <= |text|
      && var q := judge(Snippet(text, s));
      && IsEligible(q)
      && !Exempt(alnum, text, sql, outs, Global, s.0)
      && v in Rows(q, s.0, LineNo(text, s.0), Exempt(alnum, text, sql, outs, JoinOk, s.0))
  }

  /** The rows of the literals `spans` that no `global` opt-out governs, in their order. */
  ghost function DueRows(alnum: char -> bool, judge: string -> Query, text: string, outs: seq<OptOut>,
                         spans: seq<(nat, nat)>): seq<Violation>
    requires Placed(text, outs) && forall s | s in spans :: s.0 <= |text| && judge(Snippet(text, s)).Sql?
  {
    if spans == [] then []
    else
      var sql, n := SqlOf(judge, text), |spans| - 1;
      var s := spans[n];
      var rest := DueRows(alnum, judge, text, outs, spans[..n]);
      if Exempt(alnum, text, sql, outs, Global, s.0) then rest
      else rest + Rows(judge(Snippet(text, s)), s.0, LineNo(text, s.0), Exempt(alnum, text, sql, outs, JoinOk, s.0))
  }

  /** How many of the literals `spans` some `global` opt-out governs. */
  ghost function CountExempt(alnum: char -> bool, judge: string -> Query, text: string, outs: seq<OptOut>,
                             spans: seq<(nat, nat)>): nat
    requires Placed(text, outs)
  {
    if spans == [] then 0
    else
      var n := |spans| - 1;
      CountExempt(alnum, judge, text, outs, spans[..n])
      + if Exempt(alnum, text, SqlOf(judge, text), outs, Global, spans[n].0) then 1 else 0
  }

  /** With the right skip sets the report is the rows that are due, and the counter counts the exempt. */
  lemma {:induction false} ReportIsDueRows(alnum: char -> bool, judge: string -> Query, text: string, outs: seq<OptOut>,
                                           eligible: set<nat>, skipGlobal: set<nat>, skipJoin: set<nat>,
                                           spans: seq<(nat, nat)>)
    requires Placed(text, outs) && forall s | s in spans :: s.0 <= |text| && judge(Snippet(text, s)).Sql?
    requires forall s | s in spans :: s.0 in eligible
    requires Skipped(alnum, text, SqlOf(judge, text), eligible, outs, Global, skipGlobal)
    requires Skipped(alnum, text, SqlOf(judge, text), eligible, outs, JoinOk, skipJoin)
    ensures Report(judge, text, spans, skipGlobal, skipJoin) == DueRows(alnum, judge, text, outs, spans)
    ensures Suppressed(spans, skipGlobal) == CountExempt(alnum, judge, text, outs, spans)
    decreases |spans|
  {
    if spans != [] {
      var n := |spans| - 1;
      assert spans[n] in spans;
      ReportIsDueRows(alnum, judge, text, outs, eligible, skipGlobal, skipJoin, spans[..n]);
    }
  }

  lemma ReportIsDue(alnum: char -> bool, judge: string -> Query, text: string, outs: seq<OptOut>,
                    skipGlobal: set<nat>, skipJoin: set<nat>, v: Violation)
    requires Placed(text, outs)
    requires Skipped(alnum, text, SqlOf(judge, text), Starts(EligibleOf(judge, text)), outs, Global, skipGlobal)
    requires Skipped(alnum, text, SqlOf(judge, text), Starts(EligibleOf(judge, text)), outs, JoinOk, skipJoin)
    ensures forall s | s in EligibleOf(judge, text) :: s.0 <= |text| && judge(Snippet(text, s)).Sql?
    ensures v in Report(judge, text, EligibleOf(judge, text), skipGlobal, skipJoin)
       <==> Due(alnum, judge, text, outs, v)
  {
    EligibleAre(judge, text);
    ReportExact(judge, text, EligibleOf(judge, text), skipGlobal, skipJoin, v);
  }

  // ---------------------------------------------------------------- the counters

  /** The literals among `spans` that a `global` opt-out governs. */
  ghost function ExemptSpans(alnum: char -> bool, judge: string -> Query, text: string, outs: seq<OptOut>,
                             spans: seq<(nat, nat)>): set<(nat, nat)>
    requires Placed(text, outs)
  {
    set s | s in spans && Exempt(alnum, text, SqlOf(judge, text), outs, Global, s.0)
  }

  ghost predicate CoversAny(alnum: char -> bool, text: string, spans: seq<(nat, nat)>, c: Comment)
    requires c.offset < |text|
  {
    exists s :: Covers(alnum, text, spans, c, s)
  }

  ghost predicate CoversOneOf(alnum: char -> bool, text: string, spans: seq<(nat, nat)>, eligible: set<nat>, c: Comment)
    requires c.offset < |text|
  {
    exists s :: s in eligible && Covers(alnum, text, spans, c, s)
  }

  /** The opt-outs that govern no SQL literal. */
  ghost function Idle(alnum: char -> bool, text: string, spans: seq<(nat, nat)>, outs: seq<OptOut>): set<nat>
    requires Placed(text, outs)
  {
    set i: nat | i < |outs| && !CoversAny(alnum, text, spans, outs[i].comment)
  }

  /** Those that govern SQL, but no literal of `eligible`. */
  ghost function Needless(alnum: char -> bool, text: string, spans: seq<(nat, nat)>, eligible: set<nat>,
                          outs: seq<OptOut>): set<nat>
    requires Placed(text, outs)
  {
    set i: nat | i < |outs| && CoversAny(alnum, text, spans, outs[i].comment)
                 && !CoversOneOf(alnum, text, spans, eligible, outs[i].comment)
  }

  lemma {:induction false} ExemptAre(alnum: char -> bool, judge: string -> Query, text: string, outs: seq<OptOut>,
                                     spans: seq<(nat, nat)>)
    requires Placed(text, outs) && Ascending(spans)
    ensures CountExempt(alnum, judge, text, outs, spans) == |ExemptSpans(alnum, judge, text, outs, spans)|
    decreases |spans|
  {
    hide Exempt;
    if spans == [] {
      assert ExemptSpans(alnum, judge, text, outs, spans) == {};
    } else {
      var n := |spans| - 1;
      ExemptAre(alnum, judge, text, outs, spans[..n]);
      assert spans == spans[..n] + [spans[n]];
      assert ExemptSpans(alnum, judge, text, outs, spans) == ExemptSpans(alnum, judge, text, outs, spans[..n])
        + if Exempt(alnum, text, SqlOf(judge, text), outs, Global, spans[n].0) then {spans[n]} else {};
    }
  }

  lemma {:induction false} OptOutsCounted(alnum: char -> bool, text: string, spans: seq<(nat, nat)>,
                                          eligible: set<nat>, outs: seq<OptOut>)
    requires Placed(text, outs)
    ensures CountStale(alnum, text, spans, outs) == |Idle(alnum, text, spans, outs)|
    ensures CountRedundant(alnum, text, spans, eligible, outs) == |Needless(alnum, text, spans, eligible, outs)|
    decreases |outs|
  {
    if outs == [] {
      assert Idle(alnum, text, spans, outs) == {} && Needless(alnum, text, spans, eligible, outs) == {};
    } else {
      var n := |outs| - 1;
      OptOutsCounted(alnum, text, spans, eligible, outs[..n]);
      OneOptOut(alnum, text, spans, eligible, outs, n);
      StaleIs(alnum, text, spans, eligible, outs[n].comment);
    }
  }

  lemma OneOptOut(alnum: char -> bool, text: string, spans: seq<(nat, nat)>, eligible: set<nat>, outs: seq<OptOut>,
                  n: nat)
    requires Placed(text, outs) && n + 1 == |outs| && outs[n] in outs
    ensures var c, before := outs[n].comment, outs[..n];
      var any, due := CoversAny(alnum, text, spans, c), CoversOneOf(alnum, text, spans, eligible, c);
      && Idle(alnum, text, spans, outs) == Idle(alnum, text, spans, before) + (if any then {} else {n})
      && Needless(alnum, text, spans, eligible, outs)
         == Needless(alnum, text, spans, eligible, before) + (if any && !due then {n} else {})
      && n !in Idle(alnum, text, spans, before) && n !in Needless(alnum, text, spans, eligible, before)
  {
    hide CoversAny, CoversOneOf;
  }

  lemma StaleIs(alnum: char -> bool, text: string, spans: seq<(nat, nat)>, eligible: set<nat>, c: Comment)
    requires c.offset < |text|
    ensures Stale(alnum, text, spans, c) <==> !CoversAny(alnum, text, spans, c)
    ensures Redundant(alnum, text, spans, eligible, c) <==>
              CoversAny(alnum, text, spans, c) && !CoversOneOf(alnum, text, spans, eligible, c)
  {
    hide Covers;
  }

  /**
   Three of the counters of a scan: how many literals that must be filtered a `global` opt-out governs, how many
   opt-outs govern no SQL, and how many govern SQL but no literal that must be filtered.
   */
  lemma CountersAre(alnum: char -> bool, judge: string -> Query, text: string, outs: seq<OptOut>)
    requires Placed(text, outs)
    ensures var sql, eligible := SqlOf(judge, text), EligibleOf(judge, text);
      && CountExempt(alnum, judge, text, outs, eligible) == |ExemptSpans(alnum, judge, text, outs, eligible)|
      && CountStale(alnum, text, sql, outs) == |Idle(alnum, text, sql, outs)|
      && CountRedundant(alnum, text, sql, Starts(eligible), outs)
         == |Needless(alnum, text, sql, Starts(eligible), outs)|
  {
    EligibleAre(judge, text);
    ExemptAre(alnum, judge, text, outs, EligibleOf(judge, text));
    OptOutsCounted(alnum, text, SqlOf(judge, text), Starts(EligibleOf(judge, text)), outs);
  }

  // ---------------------------------------------------------------- the verdict, literal by literal

  /** Ascending by literal, and the unscoped joins of one literal in their order; nothing twice. */
  predicate RowBefore(v: Violation, w: Violation) {
    v.start < w.start
    || (v.start == w.start && v.reason.UnscopedJoin? && w.reason.UnscopedJoin? && v.reason.k < w.reason.k)
  }

  predicate InOrder(rows: seq<Violation>) {
    forall i, j | 0 <= i < j < |rows| :: RowBefore(rows[i], rows[j])
  }

  /**
   The rows that start at `s`, a literal judged `q`: if it is exempt none; otherwise one for a missing org_id if
   there is none, and one for every unscoped join if there is an org_id and joins are not excused.
   */
  ghost predicate Verdict(q: Query, s: nat, line: nat, exempt: bool, joinOk: bool, rows: iset<Violation>)
    requires q.Sql?
  {
    && (Violation(s, line, MissingOrgId) in rows <==> !exempt && !q.scoped)
    && (forall k: nat :: Violation(s, line, UnscopedJoin(k)) in rows
                         <==> !exempt && q.scoped && k < q.joins && !joinOk)
    && forall v | v in rows && v.start == s :: v.line == line
  }

  /** The row's literal is among `spans`. */
  ghost predicate StartsIn(v: Violation, spans: seq<(nat, nat)>) {
    exists e :: (v.start, e) in spans
  }

  /** The report gives every literal that must be filtered its verdict, in order, and holds nothing else. */
  ghost predicate Judged(alnum: char -> bool, judge: string -> Query, text: string, outs: seq<OptOut>,
                         rows: seq<Violation>)
    requires Placed(text, outs)
  {
    var sql := SqlOf(judge, text);
    && InOrder(rows)
    && (forall s | s in EligibleOf(judge, text) :: s.0 <= |text| && judge(Snippet(text, s)).Sql?
          && Verdict(judge(Snippet(text, s)), s.0, LineNo(text, s.0), Exempt(alnum, text, sql, outs, Global, s.0),
                     Exempt(alnum, text, sql, outs, JoinOk, s.0), iset v | v in rows))
    && forall v | v in rows :: StartsIn(v, EligibleOf(judge, text))
  }

  lemma RowsAre(q: Query, start: nat, line: nat, joinOk: bool, v: Violation)
    requires q.Sql?
    ensures v in Rows(q, start, line, joinOk) <==>
              && v.start == start && v.line == line
              && if v.reason == MissingOrgId then !q.scoped else q.scoped && !joinOk && v.reason.k < q.joins
    ensures InOrder(Rows(q, start, line, joinOk))
  {
    var rows := Rows(q, start, line, joinOk);
    if q.scoped && !joinOk && v.reason.UnscopedJoin? && v.reason.k < q.joins {
      assert rows[v.reason.k] == Violation(start, line, UnscopedJoin(v.reason.k));
    }
  }

  /** The rows of the literal that starts at `s`. */
  lemma DueAt(alnum: char -> bool, judge: string -> Query, text: string, outs: seq<OptOut>, s: (nat, nat), v: Violation)
    requires Placed(text, outs) && s in EligibleOf(judge, text) && s.0 <= |text| && judge(Snippet(text, s)).Sql?
    requires v.start == s.0
    ensures var sql := SqlOf(judge, text);
      Due(alnum, judge, text, outs, v) <==>
        && !Exempt(alnum, text, sql, outs, Global, s.0)
        && v in Rows(judge(Snippet(text, s)), s.0, LineNo(text, s.0), Exempt(alnum, text, sql, outs, JoinOk, s.0))
  {
    EligibleAre(judge, text);
    var sql := SqlOf(judge, text);
    if Due(alnum, judge, text, outs, v) {
      var r: (nat, nat) :| r in sql && r.0 <= |text| && IsEligible(judge(Snippet(text, r)))
        && !Exempt(alnum, text, sql, outs, Global, r.0)
        && v in Rows(judge(Snippet(text, r)), r.0, LineNo(text, r.0), Exempt(alnum, text, sql, outs, JoinOk, r.0));
      RowsAre(judge(Snippet(text, r)), r.0, LineNo(text, r.0), Exempt(alnum, text, sql, outs, JoinOk, r.0), v);
      SameSpan(sql, r, s);
    }
  }

  lemma SameSpan(spans: seq<(nat, nat)>, r: (nat, nat), s: (nat, nat))
    requires Ascending(spans) && r in spans && s in spans && r.0 == s.0
    ensures r == s
  {
  }

  /** The rows of one literal in front of the others. */
  lemma RowsStart(q: Query, s: (nat, nat), line: nat, joinOk: bool, spans: seq<(nat, nat)>)
    requires q.Sql? && s in spans
    ensures var rows := Rows(q, s.0, line, joinOk);
      InOrder(rows) && forall v | v in rows :: v.start == s.0 && StartsIn(v, spans)
  {
    hide Rows, InOrder;
    var rows := Rows(q, s.0, line, joinOk);
    RowsAre(q, s.0, line, joinOk, Violation(0, 0, MissingOrgId));
    forall v | v in rows ensures v.start == s.0 && StartsIn(v, spans) {
      RowsAre(q, s.0, line, joinOk, v);
      assert (v.start, s.1) == s;
    }
  }

  lemma StartsInMore(v: Violation, spans: seq<(nat, nat)>, s: (nat, nat))
    requires StartsIn(v, spans) && Ascending(spans + [s])
    ensures StartsIn(v, spans + [s]) && v.start < s.0
  {
    var e :| (v.start, e) in spans;
    var k :| 0 <= k < |spans| && spans[k] == (v.start, e);
    assert (spans + [s])[k] == (v.start, e) && (spans + [s])[|spans|] == s;
  }

  lemma {:induction false} DueRowsInOrder(alnum: char -> bool, judge: string -> Query, text: string, outs: seq<OptOut>,
                                          spans: seq<(nat, nat)>)
    requires Placed(text, outs) && forall s | s in spans :: s.0 <= |text| && judge(Snippet(text, s)).Sql?
    requires Ascending(spans)
    ensures InOrder(DueRows(alnum, judge, text, outs, spans))
    ensures forall v | v in DueRows(alnum, judge, text, outs, spans) :: StartsIn(v, spans)
  {
    hide Exempt, StartsIn, Rows, InOrder, SqlOf;
    if spans == [] {
      NoRows();
    } else {
      var n, sql := |spans| - 1, SqlOf(judge, text);
      var s, rest := spans[n], DueRows(alnum, judge, text, outs, spans[..n]);
      DueRowsInOrder(alnum, judge, text, outs, spans[..n]);
      assert spans == spans[..n] + [s];
      forall v | v in rest ensures v.start < s.0 && StartsIn(v, spans) {
        StartsInMore(v, spans[..n], s);
      }
      var joinOk := Exempt(alnum, text, sql, outs, JoinOk, s.0);
      RowsStart(judge(Snippet(text, s)), s, LineNo(text, s.0), joinOk, spans);
      OrderJoins(rest, Rows(judge(Snippet(text, s)), s.0, LineNo(text, s.0), joinOk), s.0);
    }
  }

  lemma NoRows()
    ensures InOrder([])
  {
  }

  lemma OrderJoins(a: seq<Violation>, b: seq<Violation>, s: nat)
    requires InOrder(a) && InOrder(b) && (forall v | v in a :: v.start < s) && forall v | v in b :: v.start == s
    ensures InOrder(a + b)
  {
    forall i, j | 0 <= i < j < |a + b| ensures RowBefore((a + b)[i], (a + b)[j]) {
      if i < |a| && j >= |a| {
        assert a[i] in a && b[j - |a|] in b;
      }
    }
  }

  /** The rows that are due are the verdict on every literal. */
  lemma DueIsJudged(alnum: char -> bool, judge: string -> Query, text: string, outs: seq<OptOut>, rows: seq<Violation>)
    requires Placed(text, outs)
    requires forall s | s in EligibleOf(judge, text) :: s.0 <= |text| && judge(Snippet(text, s)).Sql?
    requires rows == DueRows(alnum, judge, text, outs, EligibleOf(judge, text))
    requires forall v :: v in rows <==> Due(alnum, judge, text, outs, v)
    ensures Judged(alnum, judge, text, outs, rows)
  {
    EligibleAre(judge, text);
    var sql := SqlOf(judge, text);
    DueRowsInOrder(alnum, judge, text, outs, EligibleOf(judge, text));
    forall s | s in EligibleOf(judge, text)
      ensures Verdict(judge(Snippet(text, s)), s.0, LineNo(text, s.0), Exempt(alnum, text, sql, outs, Global, s.0),
                      Exempt(alnum, text, sql, outs, JoinOk, s.0), iset v | v in rows)
    {
      var q, line, joinOk := judge(Snippet(text, s)), LineNo(text, s.0), Exempt(alnum, text, sql, outs, JoinOk, s.0);
      forall v: Violation | v.start == s.0
        ensures v in rows <==>
                  && !Exempt(alnum, text, sql, outs, Global, s.0) && v.line == line
                  && if v.reason == MissingOrgId then !q.scoped else q.scoped && !joinOk && v.reason.k < q.joins
      {
        DueAt(alnum, judge, text, outs, s, v);
        RowsAre(q, s.0, line, joinOk, v);
      }
    }
  }

  /** The loop over the raw literals. */
  method Collect(src: GoSource, judge: string -> Query) returns (sql: seq<(nat, nat)>, eligible: seq<(nat, nat)>)
    requires src.Valid()
    ensures sql == SqlOf(judge, src.text) && eligible == EligibleOf(judge, src.text)
  {
    sql, eligible := [], [];
    var raws := src.rawSpans;
    for i := 0 to |raws|
      invariant sql == Chosen(judge, IsSql, src.text, raws[..i])
      invariant eligible == Chosen(judge, IsEligible, src.text, raws[..i])
    {
      assert raws[..i + 1][..i] == raws[..i];
      var q := judge(Snippet(src.text, raws[i]));
      if q.NotSql? {
        continue;
      }
      sql := sql + [raws[i]];
      if q.eligible {
        eligible := eligible + [raws[i]];
      }
    }
    assert raws[..|raws|] == raws;
  }

  /**
   The scan of one file, with the hits `matches` of the opt-out pattern. The report is the rows that are due,
   literal by literal; every literal that must be filtered is checked or counted as suppressed, the latter
   exactly if a `global` opt-out governs it; every opt-out that governs nothing, or nothing that matters, is
   counted, and so is every hit outside raw strings that no opt-out belongs to.
   */
  method ScanFile(src: GoSource, judge: string -> Query, matches: seq<Match>)
    returns (violations: seq<Violation>, checked: nat, suppressed: nat, stale: nat, redundant: nat, unparsed: nat)
    requires src.Valid() && Within(src.text, matches)
    ensures forall s :: s in EligibleOf(judge, src.text) <==>
                        var q := judge(Snippet(src.text, s)); s in src.rawSpans && q.Sql? && q.eligible
    ensures forall s | s in EligibleOf(judge, src.text) :: s.0 <= |src.text| && judge(Snippet(src.text, s)).Sql?
    ensures var outs, eligible := OptOuts(src.text, matches), EligibleOf(judge, src.text);
      && violations == DueRows(src.alnum, judge, src.text, outs, eligible)
      && (forall v :: v in violations <==> Due(src.alnum, judge, src.text, outs, v))
      && Judged(src.alnum, judge, src.text, outs, violations)
      && suppressed == CountExempt(src.alnum, judge, src.text, outs, eligible)
      && checked + suppressed == |eligible|
      && stale == CountStale(src.alnum, src.text, SqlOf(judge, src.text), outs)
      && redundant == CountRedundant(src.alnum, src.text, SqlOf(judge, src.text), Starts(eligible), outs)
    ensures unparsed == Unparsed(src.text, matches)
  {
    var sql, eligible := Collect(src, judge);
    EligibleAre(judge, src.text);
    var outs;
    outs, unparsed := FindSuppressions(src, matches);
    var skipGlobal, skipJoin;
    skipGlobal, skipJoin, stale, redundant := ApplyAll(src, sql, Starts(eligible), outs);
    violations, checked, suppressed := Judge(src, judge, eligible, skipGlobal, skipJoin);
    ReportIsDueRows(src.alnum, judge, src.text, outs, Starts(eligible), skipGlobal, skipJoin, eligible);
    forall v ensures v in violations <==> Due(src.alnum, judge, src.text, outs, v) {
      ReportIsDue(src.alnum, judge, src.text, outs, skipGlobal, skipJoin, v);
    }
    DueIsJudged(src.alnum, judge, src.text, outs, violations);
  }

  // ---------------------------------------------------------------- what goes unreported

  /** Where the opt-out `c` stands that exempts the literal at `s`. */
  ghost predicate OptedOut(alnum: char -> bool, text: string, sql: seq<(nat, nat)>, c: Comment, s: nat) {
    && OnItsLine(text, c)
    && if c.standalone then
         && c.offset < s
         && (forall p | c.offset <= p <= s :: p < |text| && DepthAt(text, p) >= DepthAt(text, c.offset))
         && |Below(Boundaries(alnum, text, c.offset), s)| <= MAX_SKIPPED_STMTS
         && (forall t, b | t in Starts(sql) && c.offset < t < s && b in Boundaries(alnum, text, c.offset) ::
               !(t < b < s))
       else exists e :: (s, e) in sql && SpansLine(text, s, e, LineNo(text, c.offset))
  }

  lemma CoversOptsOut(alnum: char -> bool, text: string, sql: seq<(nat, nat)>, c: Comment, s: nat)
    requires OnItsLine(text, c) && Covers(alnum, text, sql, c, s)
    ensures OptedOut(alnum, text, sql, c, s)
  {
    if c.standalone {
      StaysInsideTheBlock(text, c.offset, Boundaries(alnum, text, c.offset), Starts(sql), s);
    }
  }

  /**
   A row that a literal would get without any opt-out, and that is not due, is opted out: the literal stands
   below a `//` alone on its line, in the same block, at most MAX_SKIPPED_STMTS boundaries down and with none
   behind an earlier SQL literal, or on the line of a `//` that is not alone. The comment is a `global` one, or,
   for a join, one of either kind.
   */
  lemma UnreportedIsOptedOut(alnum: char -> bool, judge: string -> Query, text: string, matches: seq<Match>,
                             s: (nat, nat), v: Violation) returns (o: OptOut)
    requires Within(text, matches) && s in SqlOf(judge, text) && s.0 <= |text|
    requires var q := judge(Snippet(text, s)); IsEligible(q) && v in Rows(q, s.0, LineNo(text, s.0), false)
    requires !Due(alnum, judge, text, OptOuts(text, matches), v)
    ensures o in OptOuts(text, matches) && (o.kind == Global || v.reason.UnscopedJoin?)
    ensures OptedOut(alnum, text, SqlOf(judge, text), o.comment, s.0)
  {
    var sql, outs, q := SqlOf(judge, text), OptOuts(text, matches), judge(Snippet(text, s));
    var kind := if Exempt(alnum, text, sql, outs, Global, s.0) then Global else JoinOk;
    assert kind == JoinOk ==> v !in Rows(q, s.0, LineNo(text, s.0), Exempt(alnum, text, sql, outs, JoinOk, s.0));
    assert Exempt(alnum, text, sql, outs, kind, s.0);
    var i :| 0 <= i < |outs| && outs[i].kind == kind && Covers(alnum, text, sql, outs[i].comment, s.0);
    o := outs[i];
    assert o in outs;
    OptOutsArePlaced(text, matches);
    CoversOptsOut(alnum, text, sql, o.comment, s.0);
  }
}
