/**
 A file in which one opt-out comment of scripts/lint-orgid-queries.py exempts two statements: the comment
 stands above a call with a closure, and both statements are in the closure. What they hold is arbitrary.
 */
module Closure {
  import opened PyText
  import opened GoText
  import opened GoIndex
  import opened Governed
  import opened Suppressions
  import opened OrgidScan

  const COMMENT := "// orgid-lint: global"
  const CALL := "run(func() {"
  const HEAD := COMMENT + "\n" + CALL + "\n\tq(`"
  const MIDDLE := "`)\n\tq(`"

  predicate Plain(s: string) {
    forall k | 0 <= k < |s| :: s[k] != '`'
  }

  /** Two statements that run the SQL `x` and `y`; behind the second one anything may follow. */
  function TwoQueries(x: string, y: string, rest: string): string {
    HEAD + x + MIDDLE + y + "`" + rest
  }

  // ---------------------------------------------------------------- runs of the automaton

  /** A character of code that leaves mode and depth as they are. */
  predicate Calm(c: char) {
    !IsQuote(c) && c != '/' && !IsOpen(c) && !IsClose(c)
  }

  /** From `i` to `j` the depth is `d`. */
  ghost predicate Flat(text: string, i: nat, j: nat, d: int) {
    i <= j <= |text| && forall k | i <= k <= j :: DepthAt(text, k) == d
  }

  /** And position `j` is code. */
  ghost predicate Level(text: string, i: nat, j: nat, d: int) {
    Flat(text, i, j, d) && ModeAt(text, j) == Code
  }

  lemma {:induction false} CalmRun(text: string, i: nat, j: nat)
    requires i <= j <= |text| && ModeAt(text, i) == Code && forall k | i <= k < j :: Calm(text[k])
    ensures Level(text, i, j, DepthAt(text, i))
    decreases j
  {
    if i < j {
      CalmRun(text, i, j - 1);
      assert Calm(text[j - 1]);
      assert DepthAt(text, j) == DepthAt(text, j - 1);
    }
  }

  lemma BracketStep(text: string, i: nat)
    requires i < |text| && ModeAt(text, i) == Code && (IsOpen(text[i]) || IsClose(text[i]))
    ensures ModeAt(text, i + 1) == Code
    ensures DepthAt(text, i + 1) == DepthAt(text, i) + if IsOpen(text[i]) then 1 else -1
  {
  }

  lemma {:induction false} RawModes(text: string, i: nat, j: nat)
    requires i < j <= |text| && ModeAt(text, i) == Code && text[i] == '`' && forall k | i < k < j :: text[k] != '`'
    ensures ModeAt(text, j) == Raw && Flat(text, i, j, DepthAt(text, i))
    decreases j
  {
    if i + 1 < j { RawModes(text, i, j - 1); }
  }

  lemma {:induction false} RawEndIs(text: string, i: nat, j: nat)
    requires i <= j < |text| && text[j] == '`' && forall k | i <= k < j :: text[k] != '`'
    ensures RawEnd(text, i) == j + 1
    decreases j - i
  {
    if i < j { RawEndIs(text, i + 1, j); }
  }

  /** A whole literal from the backtick at `i` to the one at `j`. */
  lemma RawRun(text: string, i: nat, j: nat)
    requires i < j < |text| && ModeAt(text, i) == Code && text[i] == text[j] == '`'
    requires forall k | i < k < j :: text[k] != '`'
    ensures Level(text, i, j + 1, DepthAt(text, i))
  {
    RawModes(text, i, j);
    RawCloses(text, i, j, DepthAt(text, i));
  }

  lemma RawCloses(text: string, i: nat, j: nat, d: int)
    requires i < j < |text| && ModeAt(text, j) == Raw && text[j] == '`' && Flat(text, i, j, d)
    ensures Level(text, i, j + 1, d)
  {
    assert DepthAt(text, j) == d;
    assert DepthAt(text, j + 1) == d;
  }

  lemma {:induction false} CommentModes(text: string, j: nat)
    requires 2 <= j <= |text| && SlashesAt(text, 0) && forall k | 2 <= k < j :: text[k] != '\n'
    ensures ModeAt(text, j) == InLine(text, j) && LastAt(text, j) == None
    ensures forall k | 0 <= k <= j :: DepthAt(text, k) == 0
    ensures forall k | 1 <= k < j :: ModeAt(text, k).LineOpen? || ModeAt(text, k).Line?
    decreases j
  {
    assert ModeAt(text, 0) == Code && ModeAt(text, 1) == LineOpen && LastAt(text, 1) == None;
    assert DepthAt(text, 0) == 0;
    assert DepthAt(text, 1) == 0;
    if j > 2 { CommentModes(text, j - 1); }
  }

  // ---------------------------------------------------------------- the file

  /** The comment line, alone on its line. */
  ghost predicate CommentLine(text: string) {
    |text| > 21 && SlashesAt(text, 0) && text[2] == ' ' && text[21] == '\n' && forall k | 2 <= k < 21 :: text[k] != '\n'
  }

  /** The line of the call, and the first call in the closure up to its literal. */
  ghost predicate CallLine(text: string) {
    && |text| > 38 && text[25] == text[30] == text[37] == '(' && text[31] == ')' && text[33] == '{' && text[38] == '`'
    && (forall k | 22 <= k < 33 :: text[k] != '\n' && text[k] != '{')
    && forall k | 22 <= k < 25 || 26 <= k < 30 || k == 32 || 34 <= k < 37 :: Calm(text[k])
  }

  ghost predicate HasHead(text: string) {
    CommentLine(text) && CallLine(text)
  }

  lemma CommentIs()
    ensures |COMMENT| == 21 && COMMENT[0] == COMMENT[1] == '/' && COMMENT[2] == ' '
    ensures forall k | 2 <= k < 21 :: COMMENT[k] != '\n'
  {
  }

  lemma CallIs()
    ensures |CALL| == 12 && CALL[3] == CALL[8] == '(' && CALL[9] == ')' && CALL[11] == '{'
    ensures forall k | 0 <= k < 3 || 4 <= k < 8 || k == 10 :: Calm(CALL[k]) && CALL[k] != '\n'
  {
  }

  lemma HeadIs(text: string)
    requires |text| >= 39 == |HEAD| && text[..39] == HEAD
    ensures HasHead(text)
  {
    CommentIs();
    CallIs();
    assert forall k | 0 <= k < 39 :: text[k] == text[..39][k];
    assert forall k | 0 <= k < 21 :: text[k] == COMMENT[k];
    assert forall k | 22 <= k < 34 :: text[k] == CALL[k - 22];
    assert CommentLine(text);
    assert text[34] == '\n' && text[35] == '\t' && text[36] == 'q' && text[37] == '(' && text[38] == '`';
  }

  /** The parts of the text: where the first literal ends, where the second begins and ends. */
  ghost predicate Laid(text: string, x: string, y: string, c: nat, a: nat, d: nat) {
    && c == 39 + |x| && a == c + 6 && d == a + 1 + |y| && d < |text|
    && HasHead(text) && (forall k | 39 <= k < c :: text[k] == x[k - 39])
    && text[c] == '`' && text[c + 1] == ')' && text[c + 2] == '\n' && text[c + 3] == '\t'
    && text[c + 4] == 'q' && text[c + 5] == '(' && text[a] == '`'
    && (forall k | a < k < d :: text[k] == y[k - a - 1])
    && text[d] == '`'
  }

  lemma PartIs(before: string, part: string, behind: string)
    ensures forall k | |before| <= k < |before| + |part| :: (before + part + behind)[k] == part[k - |before|]
    ensures (before + part + behind)[|before|..|before| + |part|] == part
  {
  }

  /** Where the parts of a text of five are found. */
  lemma PartsAre(h: string, x: string, m: string, y: string, rest: string)
    ensures var text, c := h + x + m + y + rest, |h| + |x|;
      && text[..|h|] == h && text[c..c + |m|] == m
      && (forall k | |h| <= k < c :: text[k] == x[k - |h|])
      && (forall k | c + |m| <= k < c + |m| + |y| :: text[k] == y[k - c - |m|])
      && (rest != "" ==> text[c + |m| + |y|] == rest[0])
  {
    Regroup(h + x, m, y + rest);
    Regroup(h + x + m, y, rest);
    PartIs(h + x, m, y + rest);
    PartIs(h + x + m, y, rest);
  }

  lemma LaidOut(x: string, y: string, rest: string)
    ensures var c := 39 + |x|; Laid(TwoQueries(x, y, rest), x, y, c, c + 6, c + 7 + |y|)
  {
    hide HasHead;
    var text := TwoQueries(x, y, rest);
    HeadLength();
    PartsAre(HEAD, x, MIDDLE, y, "`" + rest);
    Regroup(HEAD + x + MIDDLE + y, "`", rest);
    HeadIs(text);
    MiddleIs(text, 39 + |x|);
  }

  lemma HeadLength()
    ensures |HEAD| == 39 && |MIDDLE| == 7
  {
    CommentIs();
    CallIs();
  }

  lemma MiddleIs(text: string, c: nat)
    requires c + 7 <= |text| && text[c..c + 7] == MIDDLE
    ensures text[c] == '`' && text[c + 1] == ')' && text[c + 2] == '\n' && text[c + 3] == '\t'
    ensures text[c + 4] == 'q' && text[c + 5] == '(' && text[c + 6] == '`'
  {
    var m := text[c..c + 7];
    assert m[0] == text[c] && m[1] == text[c + 1] && m[2] == text[c + 2] && m[3] == text[c + 3];
    assert m[4] == text[c + 4] && m[5] == text[c + 5] && m[6] == text[c + 6];
  }

  /** Up to `n`: the depth is never negative, and from the closure's first line on at least 2. */
  ghost predicate Deep(text: string, n: nat) {
    && n <= |text| && (forall k | 0 <= k <= n :: DepthAt(text, k) >= 0)
    && forall k | 34 <= k <= n :: DepthAt(text, k) >= 2
  }

  lemma DeepMore(text: string, n: nat, m: nat, d: int)
    requires Deep(text, n) && n <= m <= |text| && d >= 2
    requires forall k | n < k <= m :: DepthAt(text, k) == d
    ensures Deep(text, m)
  {
  }

  lemma HeadLine(text: string)
    requires CommentLine(text)
    ensures ModeAt(text, 21) == Code && LastAt(text, 21) == None && forall k | 0 <= k <= 21 :: DepthAt(text, k) == 0
    ensures forall k | 1 <= k < 21 :: ModeAt(text, k).LineOpen? || ModeAt(text, k).Line?
  {
    CommentModes(text, 21);
  }

  /** `run(func() {` */
  lemma HeadCall(text: string)
    requires HasHead(text)
    ensures ModeAt(text, 34) == Code && DepthAt(text, 34) == 2 && DepthAt(text, 33) == 1
    ensures forall k | 21 <= k <= 33 :: 0 <= DepthAt(text, k)
  {
    HeadLine(text);
    CalmRun(text, 21, 25);
    BracketStep(text, 25);
    CalmRun(text, 26, 30);
    BracketStep(text, 30);
    BracketStep(text, 31);
    CalmRun(text, 32, 33);
    BracketStep(text, 33);
  }

  lemma HeadLevels(text: string)
    requires HasHead(text)
    ensures Deep(text, 38) && ModeAt(text, 38) == Code && text[38] == '`' && DepthAt(text, 38) == 3
  {
    HeadLine(text);
    HeadCall(text);
    CalmRun(text, 34, 37);
    BracketStep(text, 37);
  }

  /** Between the literals, and behind the second one. */
  lemma BodyLevels(text: string, x: string, y: string, c: nat, a: nat, d: nat)
    requires Plain(x) && Plain(y) && Laid(text, x, y, c, a, d)
    ensures Deep(text, d + 1) && ModeAt(text, a) == Code && ModeAt(text, c + 1) == ModeAt(text, c + 2) == Code
  {
    HeadLevels(text);
    RawRun(text, 38, c);
    DeepMore(text, 38, c + 1, 3);
    MiddleLevels(text, c);
    RawRun(text, a, d);
    DeepMore(text, a, d + 1, 3);
  }

  lemma MiddleLevels(text: string, c: nat)
    requires c + 6 < |text| && Deep(text, c + 1) && ModeAt(text, c + 1) == Code && DepthAt(text, c + 1) == 3
    requires text[c + 1] == ')' && text[c + 2] == '\n' && text[c + 3] == '\t'
    requires text[c + 4] == 'q' && text[c + 5] == '(' && c > 34
    ensures Deep(text, c + 6) && ModeAt(text, c + 2) == ModeAt(text, c + 6) == Code && DepthAt(text, c + 6) == 3
  {
    BracketStep(text, c + 1);
    CalmRun(text, c + 2, c + 5);
    DeepMore(text, c + 1, c + 5, 2);
    BracketStep(text, c + 5);
  }

  /** The statement of the first literal ends between the two. */
  lemma StatementEnds(alnum: char -> bool, text: string, c: nat)
    requires c + 2 < |text| && text[c + 1] == ')' && text[c + 2] == '\n'
    requires ModeAt(text, c + 1) == ModeAt(text, c + 2) == Code
    ensures BreakAt(alnum, text, c + 2)
  {
    assert LastAt(text, c + 2) == Some(')');
  }

  /** Down to the second literal the comment has no boundary. */
  lemma NothingBounds(alnum: char -> bool, text: string, n: nat)
    requires HasHead(text) && Deep(text, n)
    ensures forall b | b in Boundaries(alnum, text, 0) :: b > n
  {
    HeadHoldsNone(alnum, text);
    forall b: nat | b <= n && b < |text| ensures !Boundary(alnum, text, 0, b) {
      assert b >= 34 ==> DepthAt(text, b) >= 2;
      assert b > 0 ==> DepthAt(text, 0) == 0;
    }
  }

  /** In the first lines there is one line feed, behind a comment alone on its line, and one brace, in parentheses. */
  lemma HeadHoldsNone(alnum: char -> bool, text: string)
    requires HasHead(text)
    ensures forall b: nat | b < 34 :: !Boundary(alnum, text, 0, b)
  {
    HeadLine(text);
    HeadCall(text);
    assert DepthAt(text, 0) == 0;
  }

  lemma {:induction false} StopBeyond(text: string, p: nat, n: nat)
    requires p <= n <= |text| && forall k | p < k <= n :: DepthAt(text, k) >= 0
    ensures StopFrom(text, p, 0) >= n
    decreases n - p
  {
    if p < n { StopBeyond(text, p + 1, n); }
  }

  /** The comment governs any SQL literal down to the second one. */
  lemma BothGoverned(alnum: char -> bool, text: string, starts: set<nat>, s: nat, n: nat)
    requires HasHead(text) && Deep(text, n + 1) && s in starts && 0 < s <= n
    ensures GovernedAt(alnum, text, 0, starts, s)
  {
    NothingBounds(alnum, text, n + 1);
    StopBeyond(text, 1, n + 1);
    assert Below(Boundaries(alnum, text, 0), s) == {};
  }

  /** The literals are SQL of the file. */
  lemma BothSql(judge: string -> Query, text: string, x: string, y: string, c: nat, a: nat, d: nat)
    requires Plain(x) && Plain(y) && Laid(text, x, y, c, a, d) && judge(x).Sql? && judge(y).Sql?
    ensures Snippet(text, (38, c + 1)) == x && Snippet(text, (a, d + 1)) == y
    ensures (38, c + 1) in SqlOf(judge, text) && (a, d + 1) in SqlOf(judge, text)
  {
    HeadLevels(text);
    BodyLevels(text, x, y, c, a, d);
    assert text[39..c] == x && text[a + 1..d] == y;
    RawEndIs(text, 39, c);
    RawEndIs(text, a + 1, d);
    OneSql(judge, text, 38, c);
    OneSql(judge, text, a, d);
  }

  lemma OneSql(judge: string -> Query, text: string, i: nat, j: nat)
    requires i < j < |text| && ModeAt(text, i) == Code && text[i] == '`' && RawEnd(text, i + 1) == j + 1
    ensures Snippet(text, (i, j + 1)) == text[i + 1..j]
    ensures judge(text[i + 1..j]).Sql? ==> (i, j + 1) in SqlOf(judge, text)
  {
    var s := (i, j + 1);
    SnippetIs(text, i, j);
    RawRecorded(text, i, j + 1, |text|);
    if judge(Snippet(text, s)).Sql? {
      SqlSpan(judge, text, s);
    }
  }

  lemma SnippetIs(text: string, i: nat, j: nat)
    requires i < j < |text|
    ensures Snippet(text, (i, j + 1)) == text[i + 1..j]
  {
  }

  lemma SqlSpan(judge: string -> Query, text: string, s: (nat, nat))
    requires s in RawsTo(text, |text|) && judge(Snippet(text, s)).Sql?
    ensures s in SqlOf(judge, text)
  {
    IsChosen(judge, IsSql, text, RawsTo(text, |text|), s);
  }

  lemma {:induction false} RawRecorded(text: string, i: nat, e: nat, n: nat)
    requires i < n <= |text| && ModeAt(text, i) == Code && text[i] == '`' && RawEnd(text, i + 1) == e
    ensures (i, e) in RawsTo(text, n)
    decreases n
  {
    if i + 1 < n { RawRecorded(text, i, e, n - 1); }
  }

  lemma {:induction false} IsChosen(judge: string -> Query, want: Query -> bool, text: string, spans: seq<(nat, nat)>,
                                    s: (nat, nat))
    requires s in spans && want(judge(Snippet(text, s)))
    ensures s in Chosen(judge, want, text, spans)
  {
    var n := |spans| - 1;
    assert spans == spans[..n] + [spans[n]];
    if s in spans[..n] { IsChosen(judge, want, text, spans[..n], s); }
  }

  /** What the opt-out comment is read as. */
  lemma HeadIsOptOut(text: string, matches: seq<Match>)
    requires CommentLine(text) && Within(text, matches) && Match(Global, 3) in matches
    ensures OptOut(Global, Comment.Comment(0, 1, true)) in OptOuts(text, matches)
  {
    var m := Match(Global, 3);
    CommentIsFound(text, 0, m);
    PlaceOnLine(text, m);
    assert Gives(text, m, Place(text, m).value);
    OptOutsExact(text, matches, Place(text, m).value);
  }

  lemma NoRow(alnum: char -> bool, judge: string -> Query, text: string, matches: seq<Match>, s: nat, v: Violation)
    requires Within(text, matches) && OptOut(Global, Comment.Comment(0, 1, true)) in OptOuts(text, matches)
    requires |text| > 0 && GovernedAt(alnum, text, 0, Starts(SqlOf(judge, text)), s)
    requires Due(alnum, judge, text, OptOuts(text, matches), v)
    ensures v.start != s
  {
    var outs := OptOuts(text, matches);
    var i :| 0 <= i < |outs| && outs[i] == OptOut(Global, Comment.Comment(0, 1, true));
    assert Covers(alnum, text, SqlOf(judge, text), outs[i].comment, s);
    assert Exempt(alnum, text, SqlOf(judge, text), outs, Global, s);
  }

  /**
   Whatever SQL the two statements hold, and whatever follows: the one comment governs both literals, with a
   statement break between them, and neither of them gets a row in the report.
   */
  lemma ClosureIsExempt(alnum: char -> bool, judge: string -> Query, text: string, x: string, y: string, rest: string,
                        matches: seq<Match>) returns (first: (nat, nat), second: (nat, nat))
    requires Plain(x) && Plain(y) && text == TwoQueries(x, y, rest) && judge(x).Sql? && judge(y).Sql?
    requires Within(text, matches) && Match(Global, 3) in matches
    ensures first in SqlOf(judge, text) && second in SqlOf(judge, text)
    ensures Snippet(text, first) == x && Snippet(text, second) == y
    ensures |text| > 0 && GovernsSeveral(alnum, text, 0, Starts(SqlOf(judge, text)))
    ensures forall v | Due(alnum, judge, text, OptOuts(text, matches), v) :: v.start != first.0 && v.start != second.0
  {
    var c := 39 + |x|;
    var a, d := c + 6, c + 7 + |y|;
    LaidOut(x, y, rest);
    BodyLevels(text, x, y, c, a, d);
    BothSql(judge, text, x, y, c, a, d);
    first, second := (38, c + 1), (a, d + 1);
    var starts := Starts(SqlOf(judge, text));
    assert first.0 in starts && second.0 in starts;
    BothGoverned(alnum, text, starts, 38, d);
    BothGoverned(alnum, text, starts, a, d);
    StatementEnds(alnum, text, c);
    assert GovernsAcross(alnum, text, 0, starts, 38, c + 2, a);
    HeadIsOptOut(text, matches);
    forall v | Due(alnum, judge, text, OptOuts(text, matches), v) ensures v.start != 38 && v.start != a {
      NoRow(alnum, judge, text, matches, 38, v);
      NoRow(alnum, judge, text, matches, a, v);
    }
  }
}
