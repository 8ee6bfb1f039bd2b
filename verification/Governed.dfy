/**
 `governed_literals` of scripts/lint-orgid-queries.py: which SQL literals one opt-out comment
 exempts. A standalone comment is bound to the first statement below it that holds SQL.
 */
module Governed {
  import opened PyText
  import opened GoText
  import opened GoIndex

  const MAX_SKIPPED_STMTS := 4

  datatype Comment = Comment(offset: nat, line: nat, standalone: bool)

  /** The end of the block that encloses the comment. */
  function Stop(text: string, off: nat): nat
    requires off < |text|
  {
    StopFrom(text, off + 1, DepthAt(text, off))
  }

  /**
   A boundary that ends a statement as seen from a comment at `off`: a semicolon position at
   most one level deeper than the comment, or a block opener on the comment's own level.
   */
  predicate Boundary(alnum: char -> bool, text: string, off: nat, b: nat)
    requires off < |text| && b < |text|
  {
    && off < b < Stop(text, off)
    && (|| (BreakAt(alnum, text, b) && DepthAt(text, b) <= DepthAt(text, off) + 1)
        || (BlockAt(text, b) && DepthAt(text, b) <= DepthAt(text, off)))
  }

  ghost function Boundaries(alnum: char -> bool, text: string, off: nat): set<int>
    requires off < |text|
  {
    set b: nat | 0 <= b < |text| && Boundary(alnum, text, off, b) :: b
  }

  ghost function Below(bounds: set<int>, s: int): set<int> {
    set b | b in bounds && b < s
  }

  /**
   What a standalone comment at `off` governs among the literals starting at `starts`: literals
   inside its block, at most MAX_SKIPPED_STMTS boundaries down, with no boundary between
   them and any earlier literal below the comment.
   */
  ghost predicate Governs(bounds: set<int>, off: nat, stop: nat, starts: set<nat>, s: nat) {
    && s in starts
    && off < s < stop
    && |Below(bounds, s)| <= MAX_SKIPPED_STMTS
    && forall t, b | t in starts && b in bounds && off < t < s :: !(t < b < s)
  }

  function Starts(spans: seq<(nat, nat)>): set<nat> {
    set s | s in spans :: s.0
  }

  predicate Ascending(spans: seq<(nat, nat)>) {
    forall i, j | 0 <= i < j < |spans| :: spans[i].0 < spans[j].0
  }

  /** The literals of one region, in order. */
  function StartsBetween(spans: seq<(nat, nat)>, lower: int, upper: int): seq<nat> {
    if spans == [] then []
    else if lower < spans[0].0 < upper then [spans[0].0] + StartsBetween(spans[1..], lower, upper)
    else StartsBetween(spans[1..], lower, upper)
  }

  lemma {:induction false} StartsBetweenExact(spans: seq<(nat, nat)>, lower: int, upper: int)
    requires Ascending(spans)
    ensures forall s :: s in StartsBetween(spans, lower, upper) <==> s in Starts(spans) && lower < s < upper
    ensures Increasing(StartsBetween(spans, lower, upper))
  {
    if spans != [] {
      StartsBetweenExact(spans[1..], lower, upper);
      assert Starts(spans) == {spans[0].0} + Starts(spans[1..]);
      var rest := StartsBetween(spans[1..], lower, upper);
      forall i | 0 <= i < |rest| ensures spans[0].0 < rest[i] {
        assert rest[i] in rest;
      }
    }
  }

  lemma {:induction false} PrefixCard(q: seq<int>, k: nat)
    requires Increasing(q) && k <= |q|
    ensures |set i | 0 <= i < k :: q[i]| == k
  {
    if k > 0 {
      PrefixCard(q, k - 1);
      var init := set i | 0 <= i < k - 1 :: q[i];
      assert (set i | 0 <= i < k :: q[i]) == init + {q[k - 1]};
    }
  }

  /** With `k` boundaries of an ascending list below `s`, the set below `s` has `k` members. */
  lemma BelowCard(bounds: set<int>, q: seq<int>, k: nat, s: int)
    requires Increasing(q) && k <= |q| && forall x :: x in q <==> x in bounds
    requires forall i | 0 <= i < |q| :: q[i] < s <==> i < k
    ensures |Below(bounds, s)| == k
  {
    PrefixCard(q, k);
    assert Below(bounds, s) == set i | 0 <= i < k :: q[i];
  }

  /** Counting the boundaries below a position by its place in the ascending list. */
  lemma CountRegions(bounds: set<int>, q: seq<int>, k: nat, s: int)
    requires Increasing(q) && k <= |q| && forall b :: b in q <==> b in bounds
    requires s !in bounds && (k > 0 ==> q[k - 1] < s)
    ensures k < |q| && q[k] < s ==> |Below(bounds, s)| > k
    ensures k == |q| || s < q[k] ==> |Below(bounds, s)| == k
  {
    var j := BisectLeft(q, s);
    BelowCard(bounds, q, j, s);
  }

  /** The recorded positions inside the comment's block that lie no deeper than the level. */
  function Selected(records: seq<(nat, int)>, off: nat, stop: nat, level: int): set<int> {
    set r | r in records && off < r.0 < stop && r.1 <= level :: r.0 as int
  }

  lemma SelectedExact(records: seq<(nat, int)>, off: nat, stop: nat, level: int, b: nat, d: int)
    requires forall r, s | r in records && s in records :: r.0 == s.0 ==> r.1 == s.1
    requires off < b < stop && forall r | r in records && r.0 == b :: r.1 == d
    ensures b in Selected(records, off, stop, level) <==> (b, d) in records && d <= level
  {
    if (b, d) in records && d <= level {
      assert (b, d).0 == b;
    }
  }

  lemma BoundsExact(alnum: char -> bool, text: string, off: nat, opens: seq<(nat, int)>)
    requires off < |text|
    requires forall b :: b in opens <==> b.0 < |text| && BlockAt(text, b.0) && b.1 == DepthAt(text, b.0)
    ensures var d0, stop := DepthAt(text, off), Stop(text, off);
            Selected(BreaksTo(alnum, text, |text|), off, stop, d0 + 1) + Selected(opens, off, stop, d0)
            == Boundaries(alnum, text, off)
  {
    var d0, stop := DepthAt(text, off), Stop(text, off);
    var breaks := BreaksTo(alnum, text, |text|);
    BreaksExact(alnum, text, |text|);
    var found := Selected(breaks, off, stop, d0 + 1) + Selected(opens, off, stop, d0);
    forall b: int
      ensures b in found <==> b in Boundaries(alnum, text, off)
    {
      if off < b < stop {
        SelectedExact(breaks, off, stop, d0 + 1, b, DepthAt(text, b));
        SelectedExact(opens, off, stop, d0, b, DepthAt(text, b));
        var p: nat := b;
        assert (p, DepthAt(text, p)) in breaks <==> BreakAt(alnum, text, p);
        assert (p, DepthAt(text, p)) in opens <==> BlockAt(text, p);
        assert p in Boundaries(alnum, text, off) <==> Boundary(alnum, text, off, p);
        assert b in found <==> Boundary(alnum, text, off, p);
      }
    }
    assert found == Boundaries(alnum, text, off);
  }

  /** The boundaries below the comment, ascending, and the end of its block. */
  method BoundsBelow(src: GoSource, off: nat) returns (q: seq<int>, stop: nat)
    requires src.Valid() && off < |src.text|
    ensures Increasing(q) && stop == Stop(src.text, off)
    ensures forall b :: b in q <==> b in Boundaries(src.alnum, src.text, off)
  {
    var d0 := src.DepthOf(off);
    stop := src.BlockEnd(off, d0);
    var bounds := Selected(src.breaks, off, stop, d0 + 1) + Selected(src.blockOpens, off, stop, d0);
    assert bounds == Boundaries(src.alnum, src.text, off) by {
      BoundsExact(src.alnum, src.text, off, src.blockOpens);
    }
    q := Sorted(bounds);
  }

  /** No boundary lies inside a region. */
  lemma NoneBetween(q: seq<int>, bounds: set<int>, off: nat, stop: nat, k: nat)
    requires Increasing(q) && (forall b :: b in q <==> b in bounds) && k <= |q|
    requires forall b | b in q :: off < b < stop
    ensures forall b | b in bounds :: b <= (if k == 0 then off else q[k - 1]) || b >= if k < |q| then q[k] else stop
  {
    forall b | b in bounds ensures b <= (if k == 0 then off else q[k - 1]) || b >= if k < |q| then q[k] else stop {
      var j :| 0 <= j < |q| && q[j] == b;
    }
  }

  /** The region walk: the literals of the first region that holds any, if it is near enough. */
  method FirstStatement(q: seq<int>, off: nat, stop: nat, spans: seq<(nat, nat)>, ghost bounds: set<int>)
    returns (hits: seq<nat>)
    requires Increasing(q) && Ascending(spans)
    requires forall b :: b in q <==> b in bounds
    requires forall b | b in q :: off < b < stop && b !in Starts(spans)
    requires off !in Starts(spans)
    ensures Increasing(hits)
    ensures forall s :: s in hits <==> Governs(bounds, off, stop, Starts(spans), s)
  {
    var regions := q + [stop];
    var lower, skipped := off as int, 0;
    while skipped < |regions|
      invariant skipped <= |regions| && skipped <= MAX_SKIPPED_STMTS
      invariant lower == if skipped == 0 then off else regions[skipped - 1]
      invariant forall t | t in Starts(spans) :: !(off < t < lower)
      invariant skipped <= |q| ==> lower !in Starts(spans)
    {
      var upper := regions[skipped];
      hits := StartsBetween(spans, lower, upper);
      StartsBetweenExact(spans, lower, upper);
      forall s | s in Starts(spans) && lower < s < stop
        ensures s < upper ==> |Below(bounds, s)| == skipped
        ensures s >= upper ==> |Below(bounds, s)| > skipped
      {
        CountRegions(bounds, q, skipped, s);
      }
      NoneBetween(q, bounds, off, stop, skipped);
      if hits != [] {
        assert hits[0] in hits;
        assert skipped < |q| ==> upper in bounds;
        return;
      }
      if skipped >= MAX_SKIPPED_STMTS {
        return;
      }
      lower := upper;
      skipped := skipped + 1;
    }
    hits := [];
  }

  /** The literal from `s` to `e` covers the given line. */
  predicate SpansLine(text: string, s: nat, e: nat, line: nat) {
    s < e <= |text| + 1 && s <= |text| && LineNo(text, s) <= line <= LineNo(text, e - 1)
  }

  /** Some character of the literal is on the line. */
  ghost predicate TouchesLine(text: string, s: nat, e: nat, line: nat) {
    exists p: nat :: s <= p < e && p <= |text| && LineNo(text, p) == line
  }

  lemma {:induction false} LinesAscend(text: string, p: nat, q: nat)
    requires p <= q <= |text|
    ensures LineNo(text, p) <= LineNo(text, q)
    decreases q
  {
    if p < q { LinesAscend(text, p, q - 1); }
  }

  lemma {:induction false} LineBetween(text: string, s: nat, q: nat, line: nat) returns (p: nat)
    requires s <= q <= |text| && LineNo(text, s) <= line <= LineNo(text, q)
    ensures s <= p <= q && LineNo(text, p) == line
    decreases q
  {
    if LineNo(text, q) == line {
      p := q;
    } else {
      p := LineBetween(text, s, q - 1, line);
    }
  }

  /** A trailing comment covers the literals of which some part is on its line, backticks included. */
  lemma SpansLineTouches(text: string, s: nat, e: nat, line: nat)
    requires s < e <= |text| + 1
    ensures SpansLine(text, s, e, line) <==> TouchesLine(text, s, e, line)
  {
    if SpansLine(text, s, e, line) {
      var p := LineBetween(text, s, e - 1, line);
    }
    if TouchesLine(text, s, e, line) {
      var p: nat :| s <= p < e && p <= |text| && LineNo(text, p) == line;
      LinesAscend(text, s, p);
      LinesAscend(text, p, e - 1);
    }
  }

  /** The literals that lie on the line, in order. */
  function Lying(text: string, line: nat, spans: seq<(nat, nat)>): seq<nat> {
    if spans == [] then []
    else
      var n := |spans| - 1;
      var rest := Lying(text, line, spans[..n]);
      if SpansLine(text, spans[n].0, spans[n].1, line) then rest + [spans[n].0] else rest
  }

  lemma {:induction false} LyingExact(text: string, line: nat, spans: seq<(nat, nat)>)
    requires Ascending(spans)
    ensures Increasing(Lying(text, line, spans))
    ensures forall s :: s in Lying(text, line, spans) <==> exists e :: (s, e) in spans && SpansLine(text, s, e, line)
    decreases |spans|
  {
    if spans != [] {
      var n := |spans| - 1;
      var rest := Lying(text, line, spans[..n]);
      LyingExact(text, line, spans[..n]);
      assert spans == spans[..n] + [spans[n]];
      forall i | 0 <= i < |rest| ensures rest[i] < spans[n].0 {
        assert rest[i] in rest;
      }
    }
  }

  /** A trailing comment: the literals that lie on its own line. */
  method OnLine(src: GoSource, line: nat, spans: seq<(nat, nat)>) returns (hits: seq<nat>)
    requires src.Valid() && Ascending(spans)
    requires forall s | s in spans :: s.0 < s.1 <= |src.text| + 1
    ensures hits == Lying(src.text, line, spans)
  {
    hits := [];
    for i := 0 to |spans|
      invariant hits == Lying(src.text, line, spans[..i])
    {
      assert spans[..i + 1][..i] == spans[..i];
      var from := src.LineOf(spans[i].0);
      var to := src.LineOf(spans[i].1 - 1);
      if from <= line <= to {
        hits := hits + [spans[i].0];
      }
    }
    assert spans[..|spans|] == spans;
  }

  method GovernedLiterals(src: GoSource, comment: Comment, sqlSpans: seq<(nat, nat)>) returns (hits: seq<nat>)
    requires src.Valid() && At(src.text, comment.offset, '/')
    requires Ascending(sqlSpans) && forall s | s in sqlSpans :: s in src.rawSpans
    ensures Increasing(hits)
    ensures comment.standalone ==> forall s ::
              s in hits <==>
              Governs(Boundaries(src.alnum, src.text, comment.offset), comment.offset,
                      Stop(src.text, comment.offset), Starts(sqlSpans), s)
    ensures !comment.standalone ==> forall s ::
              s in hits <==> exists e :: (s, e) in sqlSpans && SpansLine(src.text, s, e, comment.line)
  {
    RawsExact(src.text, |src.text|);
    if !comment.standalone {
      hits := OnLine(src, comment.line, sqlSpans);
      LyingExact(src.text, comment.line, sqlSpans);
      return;
    }
    var q, stop := BoundsBelow(src, comment.offset);
    hits := FirstStatement(q, comment.offset, stop, sqlSpans, Boundaries(src.alnum, src.text, comment.offset));
  }

  // ---------------------------------------------------------------- what the binding means

  /**
   If a comment governs any literal it governs every literal between itself and that one: the
   governed literals start at the first one below the comment and leave no gap, so an opt-out
   never skips its own statement.
   */
  lemma NeverSkipsAStatement(bounds: set<int>, off: nat, stop: nat, starts: set<nat>, t: nat, s: nat)
    requires Governs(bounds, off, stop, starts, s)
    requires t in starts && off < t <= s
    ensures Governs(bounds, off, stop, starts, t)
    ensures forall b | b in bounds :: !(t < b < s)
  {
    if t < s {
      SubsetCard(Below(bounds, t), Below(bounds, s));
    }
  }

  /** Everything from the comment to a governed literal lies in the block that holds the comment. */
  lemma StaysInsideTheBlock(text: string, off: nat, bounds: set<int>, starts: set<nat>, s: nat)
    requires At(text, off, '/')
    requires Governs(bounds, off, Stop(text, off), starts, s)
    ensures s < |text| && forall p | off <= p <= s :: DepthAt(text, p) >= DepthAt(text, off)
  {
    StaysInBlock(text, off + 1, DepthAt(text, off));
  }

  // ---------------------------------------------------------------- how much one opt-out governs

  /** What the comment at `off` governs, as the text alone determines it. */
  ghost predicate GovernedAt(alnum: char -> bool, text: string, off: nat, starts: set<nat>, s: nat)
    requires off < |text|
  {
    Governs(Boundaries(alnum, text, off), off, Stop(text, off), starts, s)
  }

  /** The comment governs literals of more than one Go statement: two with a statement break between them. */
  ghost predicate GovernsSeveral(alnum: char -> bool, text: string, off: nat, starts: set<nat>)
    requires off < |text|
  {
    exists t: nat, b: nat, s: nat :: GovernsAcross(alnum, text, off, starts, t, b, s)
  }

  /** Both literals are governed, and a Go statement ends at `b`, between them. */
  ghost predicate GovernsAcross(alnum: char -> bool, text: string, off: nat, starts: set<nat>, t: nat, b: nat, s: nat)
    requires off < |text|
  {
    && t < b < s && b < |text| && BreakAt(alnum, text, b)
    && GovernedAt(alnum, text, off, starts, t) && GovernedAt(alnum, text, off, starts, s)
  }

  predicate FirstBelow(starts: set<nat>, off: nat, first: nat) {
    first in starts && off < first && forall t | t in starts && off < t :: first <= t
  }

  /** No boundary of the comment lies between the two positions. */
  ghost predicate Unbounded(alnum: char -> bool, text: string, off: nat, first: nat, s: nat)
    requires off < |text|
  {
    forall c | c in Boundaries(alnum, text, off) :: !(first < c < s)
  }

  /**
   The first SQL literal below the comment is near enough, and behind it, in the same block, a statement break
   and another SQL literal follow before any boundary of the comment.
   */
  ghost predicate BreakUncounted(alnum: char -> bool, text: string, off: nat, starts: set<nat>)
    requires off < |text|
  {
    exists first: nat, b: nat, s: nat :: UncountedAt(alnum, text, off, starts, first, b, s)
  }

  ghost predicate UncountedAt(alnum: char -> bool, text: string, off: nat, starts: set<nat>,
                              first: nat, b: nat, s: nat)
    requires off < |text|
  {
    && FirstBelow(starts, off, first) && |Below(Boundaries(alnum, text, off), first)| <= MAX_SKIPPED_STMTS
    && s in starts && first < b < s < Stop(text, off)
    && b < |text| && BreakAt(alnum, text, b) && Unbounded(alnum, text, off, first, s)
  }

  /** A boundary is a line feed or a brace, and no literal starts there. */
  lemma BoundaryIsNoLiteral(alnum: char -> bool, text: string, off: nat, s: nat)
    requires off < |text| && At(text, s, '`')
    ensures s !in Boundaries(alnum, text, off)
  {
  }

  lemma GovernsFurther(alnum: char -> bool, text: string, off: nat, starts: set<nat>, first: nat, s: nat)
    requires off < |text| && At(text, first, '`') && FirstBelow(starts, off, first)
    requires s in starts && first < s < Stop(text, off) && Unbounded(alnum, text, off, first, s)
    requires |Below(Boundaries(alnum, text, off), first)| <= MAX_SKIPPED_STMTS
    ensures GovernedAt(alnum, text, off, starts, first) && GovernedAt(alnum, text, off, starts, s)
  {
    var bounds := Boundaries(alnum, text, off);
    BoundaryIsNoLiteral(alnum, text, off, first);
    assert Below(bounds, s) == Below(bounds, first);
  }

  lemma FirstIsGoverned(alnum: char -> bool, text: string, off: nat, starts: set<nat>, t: nat, s: nat)
    returns (first: nat)
    requires off < |text| && t < s
    requires GovernedAt(alnum, text, off, starts, t) && GovernedAt(alnum, text, off, starts, s)
    ensures FirstBelow(starts, off, first) && first <= t && Unbounded(alnum, text, off, first, s)
    ensures |Below(Boundaries(alnum, text, off), first)| <= MAX_SKIPPED_STMTS
  {
    var below := set x | x in starts && off < x :: x as int;
    assert t as int in below;
    HasLeast(below);
    var m :| IsLeast(m, below);
    first := m;
    assert forall x | x in starts && off < x :: x as int in below;
    NeverSkipsAStatement(Boundaries(alnum, text, off), off, Stop(text, off), starts, first, s);
  }

  /**
   For every text and all backtick literals `starts`: the comment governs literals of several statements if and
   only if there is a break that it does not count behind the first literal.
   */
  lemma SeveralIffUncounted(alnum: char -> bool, text: string, off: nat, starts: set<nat>)
    requires off < |text| && forall s | s in starts :: At(text, s, '`')
    ensures GovernsSeveral(alnum, text, off, starts) <==> BreakUncounted(alnum, text, off, starts)
  {
    if GovernsSeveral(alnum, text, off, starts) {
      var t: nat, b: nat, s: nat :| GovernsAcross(alnum, text, off, starts, t, b, s);
      var first := FirstIsGoverned(alnum, text, off, starts, t, s);
      assert UncountedAt(alnum, text, off, starts, first, b, s);
    }
    if BreakUncounted(alnum, text, off, starts) {
      var first: nat, b: nat, s: nat :| UncountedAt(alnum, text, off, starts, first, b, s);
      GovernsFurther(alnum, text, off, starts, first, s);
      assert GovernsAcross(alnum, text, off, starts, first, b, s);
    }
  }

  /** A break that a comment does not count lies at least two levels below it. */
  lemma BreaksLieDeeper(alnum: char -> bool, text: string, off: nat, starts: set<nat>, first: nat, b: nat, s: nat)
    requires off < |text| && UncountedAt(alnum, text, off, starts, first, b, s)
    ensures DepthAt(text, b) >= DepthAt(text, off) + 2
  {
    assert b !in Boundaries(alnum, text, off) ==> !Boundary(alnum, text, off, b);
  }
}
