/**
 How far an opt-out comment of scripts/lint-orgid-queries.py reaches: over one statement, up to a block, and
 past no more than four statements without SQL. The files are given by their text; what their literals hold is
 arbitrary, and so is everything behind the last one.
 */
module Statements {
  import opened PyText
  import opened GoText
  import opened GoIndex
  import opened Governed
  import opened Suppressions
  import opened OrgidScan
  import opened Closure
  import GoLayout

  /** Below a comment that stands alone on the first line. */
  function Above(rest: string): string {
    COMMENT + "\n" + rest
  }

  function Literal(x: string, rest: string): string {
    "`" + x + "`" + rest
  }

  /** Code without quotes, slashes and brackets. */
  predicate CalmCode(code: string) {
    forall k | 0 <= k < |code| :: Calm(code[k])
  }

  /** The literal from the backtick at `i` to the one at `c`. */
  ghost predicate LiteralAt(text: string, i: nat, c: nat, x: string) {
    && i < c < |text| && text[i] == text[c] == '`' && text[i + 1..c] == x && forall k | i < k < c :: text[k] != '`'
  }

  lemma LiteralIs(text: string, i: nat, x: string, rest: string)
    requires From(text, i, Literal(x, rest)) && Plain(x)
    ensures var c := i + 1 + |x|; LiteralAt(text, i, c, x) && From(text, c + 1, rest)
  {
    var c := i + 1 + |x|;
    Regroup("`" + x, "`", rest);
    Regroup("`", x, "`" + rest);
    FromHead(text, i, "`" + (x + ("`" + rest)));
    FromPart(text, i, "`", x + ("`" + rest));
    FromPart(text, i + 1, x, "`" + rest);
    FromHead(text, c, "`" + rest);
    FromPart(text, c, "`", rest);
    forall k | i < k < c ensures text[k] != '`' {
      assert text[k] == text[i + 1..c][k - i - 1];
    }
  }

  lemma CodeIs(text: string, i: nat, code: string, rest: string)
    requires From(text, i, code + rest)
    ensures var j := i + |code|;
      && j <= |text| && From(text, j, rest) && text[i..j] == code && forall k | i <= k < j :: text[k] == code[k - i]
  {
    FromPart(text, i, code, rest);
    forall k | i <= k < i + |code| ensures text[k] == code[k - i] {
      assert text[k] == text[i..i + |code|][k - i];
    }
  }

  lemma AboveIs(text: string, rest: string)
    requires text == Above(rest)
    ensures CommentLine(text) && From(text, 22, rest)
  {
    CommentIs();
    assert text[..22] == COMMENT + "\n" && text[22..] == rest;
    assert forall k | 0 <= k < 22 :: text[k] == text[..22][k];
    assert forall k | 0 <= k < 21 :: text[k] == COMMENT[k];
  }

  // ---------------------------------------------------------------- two literals

  function TwoLiterals(before: string, x: string, between: string, y: string, rest: string): string {
    Above(before + Literal(x, between + Literal(y, rest)))
  }

  /**
   No line feed of the code ends a statement when `last` stands before it: behind the last character of its line
   that is no whitespace, an alphanumeric, `_`, closing bracket, quote, `+` or `-`, it would.
   */
  predicate Continues(alnum: char -> bool, last: Option<char>, code: string)
    decreases |code|
  {
    if code == "" then true
    else if code[0] == '\n' then
      && (last.Some? ==> !alnum(last.value) && last.value !in ['_', ')', ']', '}', '"', '\'', '`', '+', '-'])
      && Continues(alnum, None, code[1..])
    else Continues(alnum, if IsSpace(code[0]) then last else Some(code[0]), code[1..])
  }

  lemma {:induction false} ContinuesIs(alnum: char -> bool, text: string, i: nat, code: string, rest: string)
    requires From(text, i, code + rest) && CalmCode(code) && ModeAt(text, i) == Code
    ensures i + |code| <= |text|
    ensures Continues(alnum, LastAt(text, i), code) <==> forall b | i <= b < i + |code| :: !BreakAt(alnum, text, b)
    decreases |code|
  {
    if code != "" {
      FromHead(text, i, code + rest);
      assert (code + rest)[1..] == code[1..] + rest;
      assert Calm(code[0]);
      assert forall k | 0 <= k < |code[1..]| :: code[1..][k] == code[k + 1];
      OneCharacter(alnum, text, i);
      ContinuesIs(alnum, text, i + 1, code[1..], rest);
    }
  }

  predicate Unquoted(c: char) {
    !IsQuote(c) && c != '/'
  }

  lemma OneCharacter(alnum: char -> bool, text: string, i: nat)
    requires i < |text| && ModeAt(text, i) == Code && Unquoted(text[i])
    ensures ModeAt(text, i + 1) == Code
    ensures LastAt(text, i + 1) ==
              if text[i] == '\n' then None else if IsSpace(text[i]) then LastAt(text, i) else Some(text[i])
    ensures BreakAt(alnum, text, i) <==>
              && text[i] == '\n' && LastAt(text, i).Some?
              && var c := LastAt(text, i).value; alnum(c) || c in ['_', ')', ']', '}', '"', '\'', '`', '+', '-']
  {
  }

  /** The comment line, then calm code up to the first literal, and calm code between the literals. */
  ghost predicate Apart(text: string, s: nat, c: nat, a: nat, d: nat) {
    && CommentLine(text) && 22 <= s < c < a < d < |text|
    && (forall k | 22 <= k < s || c < k < a :: Calm(text[k])) && (forall k | 22 <= k < s :: text[k] != '\n')
    && text[s] == text[c] == text[a] == text[d] == '`' && forall k | s < k < c || a < k < d :: text[k] != '`'
  }

  /** The code in front of a literal, the literal, and what is behind. */
  lemma LeadIs(text: string, i: nat, before: string, x: string, behind: string)
    requires From(text, i, before + Literal(x, behind)) && CalmCode(before) && Plain(x)
    ensures var s := i + |before|;
      var c := s + 1 + |x|;
      && LiteralAt(text, s, c, x) && From(text, c + 1, behind)
      && forall k | i <= k < s :: Calm(text[k]) && text[k] == before[k - i]
  {
    hide Literal, From, Calm;
    CodeIs(text, i, before, Literal(x, behind));
    LiteralIs(text, i + |before|, x, behind);
  }

  lemma ApartIs(text: string, before: string, x: string, between: string, y: string, rest: string)
    requires text == TwoLiterals(before, x, between, y, rest)
    requires CalmCode(before) && '\n' !in before && CalmCode(between) && Plain(x) && Plain(y)
    ensures var s := 22 + |before|;
      var c := s + 1 + |x|;
      var a := c + 1 + |between|;
      var d := a + 1 + |y|;
      && Apart(text, s, c, a, d) && LiteralAt(text, s, c, x) && LiteralAt(text, a, d, y)
      && From(text, c + 1, between + Literal(y, rest))
  {
    hide From, Above, Literal, Calm, CalmCode, CommentLine;
    var behind := between + Literal(y, rest);
    AboveIs(text, before + Literal(x, behind));
    LeadIs(text, 22, before, x, behind);
    LeadIs(text, 24 + |before| + |x|, between, y, rest);
    FreeAt(before, '\n');
  }

  /** The modes and depths of such a file. */
  lemma ApartModes(text: string, s: nat, c: nat, a: nat, d: nat)
    requires Apart(text, s, c, a, d)
    ensures Flat(text, 0, d + 1, 0) && ModeAt(text, s) == ModeAt(text, c + 1) == ModeAt(text, a) == Code
    ensures forall k | s < k <= c :: ModeAt(text, k) == Raw
    ensures LastAt(text, 21) == None && LastAt(text, c + 1) == Some('`')
  {
    HeadLine(text);
    CalmRun(text, 21, s);
    RawRun(text, s, c);
    CalmRun(text, c + 1, a);
    RawRun(text, a, d);
    forall k | s < k <= c ensures ModeAt(text, k) == Raw { RawModes(text, s, k); }
    GoLayout.LastInLiteral(text, c);
  }

  /** Up to the first literal there is no boundary, and up to the second one only a statement break is one. */
  lemma ApartBounds(alnum: char -> bool, text: string, s: nat, c: nat, a: nat, d: nat, b: nat)
    requires Apart(text, s, c, a, d) && b < a
    ensures Boundary(alnum, text, 0, b) <==> c < b && BreakAt(alnum, text, b)
  {
    ApartModes(text, s, c, a, d);
    StopBeyond(text, 1, d + 1);
    HeadLine(text);
    assert DepthAt(text, 0) == 0 && DepthAt(text, b) == 0;
    if b < 21 {
      assert b > 0 ==> ModeAt(text, b) != Code && !ModeAt(text, b).Block?;
    } else if 22 <= b < s || c < b {
      assert Calm(text[b]);
    }
  }

  /** Whether the comment governs the first and the second literal. */
  lemma ApartGoverned(alnum: char -> bool, text: string, starts: set<nat>, s: nat, c: nat, a: nat, d: nat)
    requires Apart(text, s, c, a, d) && s in starts && a in starts
    ensures GovernedAt(alnum, text, 0, starts, s)
    ensures GovernedAt(alnum, text, 0, starts, a) <==> forall b | c < b < a :: !BreakAt(alnum, text, b)
  {
    ApartModes(text, s, c, a, d);
    StopBeyond(text, 1, d + 1);
    var bounds := Boundaries(alnum, text, 0);
    forall b: nat | b < a ensures b in bounds <==> c < b && BreakAt(alnum, text, b) {
      ApartBounds(alnum, text, s, c, a, d, b);
    }
    assert Below(bounds, s) == {};
    if b: nat :| c < b < a && BreakAt(alnum, text, b) {
      assert b in bounds;
    } else {
      assert Below(bounds, a) == {};
    }
  }

  /** The literals are SQL of the file. */
  lemma LiteralSql(judge: string -> Query, text: string, i: nat, c: nat, x: string)
    requires LiteralAt(text, i, c, x) && ModeAt(text, i) == Code && judge(x).Sql?
    ensures (i, c + 1) in SqlOf(judge, text) && i in Starts(SqlOf(judge, text)) && Snippet(text, (i, c + 1)) == x
  {
    RawEndIs(text, i + 1, c);
    OneSql(judge, text, i, c);
    assert (i, c + 1).0 == i;
  }

  /**
   A comment above code without brackets, in which two literals of SQL stand, the first on the line below the
   comment: for whatever they hold, the comment governs the first one; the second one it governs if and only if
   no line feed between them ends a statement.
   */
  lemma GovernsOneStatement(alnum: char -> bool, judge: string -> Query, text: string, before: string, x: string,
                            between: string, y: string, rest: string) returns (first: (nat, nat), second: (nat, nat))
    requires text == TwoLiterals(before, x, between, y, rest) && judge(x).Sql? && judge(y).Sql?
    requires CalmCode(before) && '\n' !in before && CalmCode(between) && Plain(x) && Plain(y)
    ensures first in SqlOf(judge, text) && second in SqlOf(judge, text)
    ensures Snippet(text, first) == x && Snippet(text, second) == y && first.1 <= second.0 < |text|
    ensures CommentLine(text) && GovernedAt(alnum, text, 0, Starts(SqlOf(judge, text)), first.0)
    ensures GovernedAt(alnum, text, 0, Starts(SqlOf(judge, text)), second.0) <==> Continues(alnum, Some('`'), between)
  {
    hide From, TwoLiterals, Literal, LiteralAt, Continues, GovernedAt, SqlOf, Snippet, Starts, ModeAt, LastAt;
    hide BreakAt, Flat;
    var s := 22 + |before|;
    var c := s + 1 + |x|;
    var a := c + 1 + |between|;
    var d := a + 1 + |y|;
    ApartIs(text, before, x, between, y, rest);
    ApartModes(text, s, c, a, d);
    LiteralSql(judge, text, s, c, x);
    LiteralSql(judge, text, a, d, y);
    first, second := (s, c + 1), (a, d + 1);
    ApartGoverned(alnum, text, Starts(SqlOf(judge, text)), s, c, a, d);
    ContinuesIs(alnum, text, c + 1, between, Literal(y, rest));
  }

  const FIRST := "const a = "
  const SECOND := "\nconst b = "

  lemma ConstsCalm(alnum: char -> bool)
    ensures CalmCode(FIRST) && '\n' !in FIRST && CalmCode(SECOND) && !Continues(alnum, Some('`'), SECOND)
  {
    assert SECOND[0] == '\n';
  }

  /**
   The counterpart of `Closure.ClosureIsExempt`: one comment above two constants with SQL. For whatever they
   hold, the comment governs the first literal and not the second, and if it is the only opt-out of the file,
   the second gets its row.
   */
  lemma SecondConstIsDue(alnum: char -> bool, judge: string -> Query, text: string, x: string, y: string, rest: string)
    returns (first: (nat, nat), second: (nat, nat))
    requires Plain(x) && Plain(y) && text == TwoLiterals(FIRST, x, SECOND, y, rest) && judge(x).Sql? && judge(y).Sql?
    ensures CommentLine(text) && Within(text, [Match(Global, 3)]) && second.0 <= |text|
    ensures Snippet(text, first) == x && Snippet(text, second) == y
    ensures GovernedAt(alnum, text, 0, Starts(SqlOf(judge, text)), first.0)
    ensures !GovernedAt(alnum, text, 0, Starts(SqlOf(judge, text)), second.0)
    ensures judge(y).eligible && !judge(y).scoped ==>
              Due(alnum, judge, text, OptOuts(text, [Match(Global, 3)]),
                  Violation(second.0, LineNo(text, second.0), MissingOrgId))
  {
    hide TwoLiterals, GovernedAt, SqlOf, Snippet, Starts, OptOuts, Due, Continues;
    ConstsCalm(alnum);
    first, second := GovernsOneStatement(alnum, judge, text, FIRST, x, SECOND, y, rest);
    if judge(y).eligible && !judge(y).scoped {
      RowIsDue(alnum, judge, text, second);
    }
  }

  /** With the one opt-out on the first line, a literal that it does not govern gets its row. */
  lemma RowIsDue(alnum: char -> bool, judge: string -> Query, text: string, s: (nat, nat))
    requires CommentLine(text) && s in SqlOf(judge, text) && s.0 <= |text| && judge(Snippet(text, s)).Sql?
    requires judge(Snippet(text, s)).eligible && !judge(Snippet(text, s)).scoped
    requires !GovernedAt(alnum, text, 0, Starts(SqlOf(judge, text)), s.0)
    ensures Due(alnum, judge, text, OptOuts(text, [Match(Global, 3)]),
                Violation(s.0, LineNo(text, s.0), MissingOrgId))
  {
    hide Rows, BreakAt, Boundaries, Below, OptOuts;
    var outs := OptOuts(text, [Match(Global, 3)]);
    OnlyOptOut(text);
    var v := Violation(s.0, LineNo(text, s.0), MissingOrgId);
    var joinOk := Exempt(alnum, text, SqlOf(judge, text), outs, JoinOk, s.0);
    RowsAre(judge(Snippet(text, s)), s.0, LineNo(text, s.0), joinOk, v);
  }

  lemma OnlyOptOut(text: string)
    requires CommentLine(text)
    ensures OptOuts(text, [Match(Global, 3)]) == [OptOut(Global, Comment.Comment(0, 1, true))]
  {
    var matches := [Match(Global, 3)];
    HeadIsOptOut(text, matches);
    assert matches[..0] == [];
  }

  // ---------------------------------------------------------------- the head of a block

  function HeadAndBody(head: string, x: string, body: string, y: string, rest: string): string {
    Above(head + ("(" + Literal(x, ") {\n" + (body + ("(" + Literal(y, rest))))))
  }

  /** The literal in parentheses in the head of a block. */
  ghost predicate InHead(text: string, s: nat, c: nat) {
    && CommentLine(text) && 22 < s < c && c + 4 < |text|
    && (forall k | 22 <= k < s - 1 :: Calm(text[k]) && text[k] != '\n') && text[s - 1] == '('
    && text[s] == text[c] == '`' && (forall k | s < k < c :: text[k] != '`')
    && text[c + 1] == ')' && text[c + 2] == ' ' && text[c + 3] == '{' && text[c + 4] == '\n'
  }

  lemma HeadModes(text: string, s: nat, c: nat)
    requires InHead(text, s, c)
    ensures Flat(text, 0, s - 1, 0) && Flat(text, s, c + 1, 1) && Flat(text, c + 2, c + 3, 0)
    ensures DepthAt(text, c + 4) == 1 && ModeAt(text, c + 3) == ModeAt(text, s) == Code && ModeAt(text, c + 4) == Code
  {
    HeadLine(text);
    CalmRun(text, 21, s - 1);
    BracketStep(text, s - 1);
    RawRun(text, s, c);
    BracketStep(text, c + 1);
    CalmRun(text, c + 2, c + 3);
    BracketStep(text, c + 3);
  }

  lemma HeadBounds(alnum: char -> bool, text: string, s: nat, c: nat)
    requires InHead(text, s, c)
    ensures (forall b: nat | b <= s :: !Boundary(alnum, text, 0, b)) && Boundary(alnum, text, 0, c + 3)
    ensures Stop(text, 0) > c + 3
  {
    HeadModes(text, s, c);
    HeadLine(text);
    assert DepthAt(text, 0) == 0 && DepthAt(text, c + 3) == 0;
    StopBeyond(text, 1, c + 4);
    GoLayout.BraceOpensBlock(text, c + 3, c + 4);
    forall b: nat | b <= s ensures !BreakAt(alnum, text, b) && !BlockAt(text, b) {
      if 22 <= b < s - 1 { assert Calm(text[b]) && text[b] != '\n'; }
    }
  }

  lemma ParenIs(text: string, i: nat, rest: string)
    requires From(text, i, "(" + rest)
    ensures i < |text| && text[i] == '(' && From(text, i + 1, rest)
  {
    FromHead(text, i, "(" + rest);
    FromPart(text, i, "(", rest);
  }

  lemma BraceIs(text: string, i: nat, rest: string)
    requires From(text, i, ") {\n" + rest)
    ensures i + 3 < |text| && text[i] == ')' && text[i + 1] == ' ' && text[i + 2] == '{' && text[i + 3] == '\n'
    ensures From(text, i + 4, rest)
  {
    CodeIs(text, i, ") {\n", rest);
    assert text[i] == ") {\n"[0] && text[i + 1] == ") {\n"[1] && text[i + 2] == ") {\n"[2];
  }

  lemma HeadParts(text: string, head: string, x: string, behind: string)
    requires text == Above(head + ("(" + Literal(x, behind))) && CalmCode(head) && '\n' !in head && Plain(x)
    ensures var s := 23 + |head|;
      var c := s + 1 + |x|;
      && CommentLine(text) && s < |text| && (forall k | 22 <= k < s - 1 :: Calm(text[k]) && text[k] != '\n')
      && text[s - 1] == '(' && LiteralAt(text, s, c, x) && From(text, c + 1, behind)
  {
    hide Above, Literal, From;
    AboveIs(text, head + ("(" + Literal(x, behind)));
    CodeIs(text, 22, head, "(" + Literal(x, behind));
    ParenIs(text, 22 + |head|, Literal(x, behind));
    LiteralIs(text, 23 + |head|, x, behind);
    FreeAt(head, '\n');
  }

  lemma HeadIsIn(text: string, head: string, x: string, body: string, y: string, rest: string)
    requires text == HeadAndBody(head, x, body, y, rest) && CalmCode(head) && '\n' !in head && Plain(x) && Plain(y)
    ensures var s := 23 + |head|;
      var c := s + 1 + |x|;
      var a := c + 6 + |body|;
      InHead(text, s, c) && LiteralAt(text, s, c, x) && LiteralAt(text, a, a + 1 + |y|, y)
      && From(text, c + 5, body + ("(" + Literal(y, rest)))
  {
    hide Above, Literal, From, CalmCode, Calm;
    var c := 24 + |head| + |x|;
    var behind := body + ("(" + Literal(y, rest));
    HeadParts(text, head, x, ") {\n" + behind);
    BraceIs(text, c + 1, behind);
    CodeIs(text, c + 5, body, "(" + Literal(y, rest));
    ParenIs(text, c + 5 + |body|, Literal(y, rest));
    LiteralIs(text, c + 6 + |body|, y, rest);
  }

  /**
   A comment above a block, with SQL in the parentheses of its head and in the body: for whatever they hold, the
   comment governs the literal in the head, and the one in the body not.
   */
  lemma BodyIsNotGoverned(alnum: char -> bool, judge: string -> Query, text: string, head: string, x: string,
                          body: string, y: string, rest: string) returns (first: (nat, nat), second: (nat, nat))
    requires text == HeadAndBody(head, x, body, y, rest) && judge(x).Sql? && judge(y).Sql?
    requires CalmCode(head) && '\n' !in head && CalmCode(body) && Plain(x) && Plain(y)
    ensures first in SqlOf(judge, text) && second in SqlOf(judge, text)
    ensures Snippet(text, first) == x && Snippet(text, second) == y
    ensures CommentLine(text) && GovernedAt(alnum, text, 0, Starts(SqlOf(judge, text)), first.0)
    ensures !GovernedAt(alnum, text, 0, Starts(SqlOf(judge, text)), second.0)
  {
    hide From, HeadAndBody, Literal, LiteralAt, SqlOf, Snippet, Starts;
    var s := 23 + |head|;
    var c := s + 1 + |x|;
    var a := c + 6 + |body|;
    HeadIsIn(text, head, x, body, y, rest);
    HeadModes(text, s, c);
    BodyMode(text, c, body, "(" + Literal(y, rest));
    LiteralSql(judge, text, s, c, x);
    LiteralSql(judge, text, a, a + 1 + |y|, y);
    first, second := (s, c + 1), (a, a + |y| + 2);
    HeadGoverned(alnum, text, Starts(SqlOf(judge, text)), s, c, a);
  }

  lemma BodyMode(text: string, c: nat, body: string, rest: string)
    requires CommentLine(text) && c + 4 < |text| && ModeAt(text, c + 4) == Code && text[c + 4] == '\n'
    requires From(text, c + 5, body + rest) && CalmCode(body) && rest != "" && rest[0] == '('
    ensures var a := c + 6 + |body|; a <= |text| && ModeAt(text, a) == Code
  {
    CodeIs(text, c + 5, body, rest);
    FromHead(text, c + 5 + |body|, rest);
    forall k | c + 4 <= k < c + 5 + |body| ensures Calm(text[k]) {
      if k > c + 4 { assert text[k] == body[k - c - 5]; }
    }
    CalmRun(text, c + 4, c + 5 + |body|);
    BracketStep(text, c + 5 + |body|);
  }

  lemma HeadGoverned(alnum: char -> bool, text: string, starts: set<nat>, s: nat, c: nat, a: nat)
    requires InHead(text, s, c) && s in starts && a in starts && c + 3 < a
    ensures GovernedAt(alnum, text, 0, starts, s) && !GovernedAt(alnum, text, 0, starts, a)
  {
    HeadBounds(alnum, text, s, c);
    assert Below(Boundaries(alnum, text, 0), s) == {};
    assert c + 3 in Boundaries(alnum, text, 0);
  }

  // ---------------------------------------------------------------- statements without SQL

  /** Brackets are closed in the line that opens them, `d` of them in front of the text, and none is closed before. */
  predicate Bracketed(code: string, d: int)
    decreases |code|
  {
    d >= 0 && if code == "" then d == 0 else Bracketed(code[1..], d + Lift(code[0]))
  }

  /** A line without quotes and slashes that ends a statement. */
  predicate IsStatement(alnum: char -> bool, line: string) {
    && line != "" && (forall k | 0 <= k < |line| :: Unquoted(line[k]) && line[k] != '\n') && Bracketed(line, 0)
    && var c := line[|line| - 1];
    && !IsSpace(c) && (alnum(c) || c in ['_', ')', ']', '}', '"', '\'', '`', '+', '-']) && c != '{'
  }

  function Lines(lines: seq<string>): string {
    if lines == [] then "" else lines[0] + ("\n" + Lines(lines[1..]))
  }

  /** Where the lines end that begin at `i`. */
  function Ends(lines: seq<string>, i: nat): seq<int> {
    if lines == [] then [] else [i + |lines[0]|] + Ends(lines[1..], i + |lines[0]| + 1)
  }

  lemma {:induction false} EndsIncrease(lines: seq<string>, i: nat)
    ensures |Ends(lines, i)| == |lines| && Increasing(Ends(lines, i)) && forall e | e in Ends(lines, i) :: i <= e
    ensures forall e | e in Ends(lines, i) :: e < i + |Lines(lines)|
  {
    if lines != [] {
      var rest := Ends(lines[1..], i + |lines[0]| + 1);
      EndsIncrease(lines[1..], i + |lines[0]| + 1);
      forall k | 0 <= k < |rest| ensures rest[k] > i + |lines[0]| { assert rest[k] in rest; }
    }
  }

  /** Code without quotes from `i` to `j`, nowhere less deep than at its ends. */
  ghost predicate Basin(text: string, i: nat, j: nat) {
    && i <= j <= |text| && ModeAt(text, i) == ModeAt(text, j) == Code && (forall k | i <= k < j :: Unquoted(text[k]))
    && DepthAt(text, j) == DepthAt(text, i) && forall k | i <= k <= j :: DepthAt(text, k) >= DepthAt(text, i)
  }

  /** In such code statements end just at `ends`, at the outer depth, and no block opens. */
  ghost predicate EndsAt(alnum: char -> bool, text: string, i: nat, j: nat, ends: seq<int>) {
    && Basin(text, i, j)
    && forall b: nat | i <= b < j ::
         && !BlockAt(text, b) && (BreakAt(alnum, text, b) <==> b in ends)
         && (b in ends ==> DepthAt(text, b) == DepthAt(text, i))
  }

  lemma {:induction false} BracketRun(text: string, i: nat, code: string, j: nat, d: int, low: int)
    requires i <= j <= |text| && text[i..j] == code && Bracketed(code, d) && ModeAt(text, i) == Code
    requires (forall k | i <= k < j :: Unquoted(text[k])) && DepthAt(text, i) == low + d
    ensures DepthAt(text, j) == low && forall k | i <= k <= j :: ModeAt(text, k) == Code && DepthAt(text, k) >= low
    decreases j - i
  {
    if i < j {
      assert Unquoted(text[i]) && code[0] == text[i] && text[i + 1..j] == code[1..];
      OneDepth(text, i);
      BracketRun(text, i + 1, code[1..], j, d + Lift(code[0]), low);
    }
  }

  lemma OneDepth(text: string, i: nat)
    requires i < |text| && ModeAt(text, i) == Code && Unquoted(text[i])
    ensures ModeAt(text, i + 1) == Code && DepthAt(text, i + 1) == DepthAt(text, i) + Lift(text[i])
  {
  }

  /** The first character behind `off` that is no blank, when there is one in front of `e`. */
  lemma {:induction false} NonBlank(text: string, off: nat, e: nat) returns (m: nat)
    requires off + 1 < e <= |text| && text[e - 1] != ' ' && text[e - 1] != '\t'
    ensures off < m < e && text[m] != ' ' && text[m] != '\t'
    ensures forall k | off < k < m :: text[k] == ' ' || text[k] == '\t'
    decreases e - off
  {
    if text[off + 1] == ' ' || text[off + 1] == '\t' {
      m := NonBlank(text, off + 1, e);
    } else {
      m := off + 1;
    }
  }

  /** In a line with more code behind it a brace opens no block. */
  lemma InnerBrace(text: string, b: nat, e: nat)
    requires b + 1 < e <= |text| && !IsSpace(text[e - 1]) && text[b] == '{'
    requires forall k | b < k < e :: text[k] != '\n' && Unquoted(text[k])
    ensures !BlockAt(text, b)
  {
    var m := NonBlank(text, b, e);
    GoLayout.BraceOpensBlock(text, b, m);
  }

  lemma OneStatement(alnum: char -> bool, text: string, i: nat, line: string, rest: string)
    requires From(text, i, line + ("\n" + rest)) && IsStatement(alnum, line) && ModeAt(text, i) == Code
    ensures var e := i + |line|;
      e < |text| && From(text, e + 1, rest) && EndsAt(alnum, text, i, e + 1, [e]) && ModeAt(text, e + 1) == Code
  {
    hide Bracketed, BreakAt, BlockAt, ModeAt, From;
    var e := i + |line|;
    CodeIs(text, i, line, "\n" + rest);
    CodeIs(text, e, "\n", rest);
    assert text[e] == "\n"[0];
    BracketRun(text, i, line, e, 0, DepthAt(text, i));
    assert text[e - 1] == line[|line| - 1] && Unquoted(text[e - 1]);
    OneCharacter(alnum, text, e - 1);
    OneCharacter(alnum, text, e);
    OneDepth(text, e);
    forall b: nat | i <= b < e + 1 ensures !BlockAt(text, b) && (BreakAt(alnum, text, b) <==> b == e) {
      if b < e { OneCharacter(alnum, text, b); }
      NoBlock(text, b, e);
    }
  }

  lemma NoBlock(text: string, b: nat, e: nat)
    requires b <= e < |text| && text[e] == '\n' && (b < e ==> !IsSpace(text[e - 1]) && text[e - 1] != '{')
    requires forall k | b <= k < e :: text[k] != '\n' && Unquoted(text[k])
    ensures !BlockAt(text, b)
  {
    if text[b] == '{' { InnerBrace(text, b, e); }
  }

  lemma {:induction false} LinesEnd(alnum: char -> bool, text: string, i: nat, lines: seq<string>, rest: string)
    requires From(text, i, Lines(lines) + rest) && ModeAt(text, i) == Code
    requires forall l | l in lines :: IsStatement(alnum, l)
    ensures var j := i + |Lines(lines)|; From(text, j, rest) && EndsAt(alnum, text, i, j, Ends(lines, i))
    decreases |lines|
  {
    hide From, EndsAt, IsStatement, ModeAt;
    if lines == [] {
      NoLines(alnum, text, i, rest);
    } else {
      var line, more := lines[0], Lines(lines[1..]);
      var e := i + |line|;
      assert line in lines;
      Regroup(line, "\n" + more, rest);
      Regroup("\n", more, rest);
      OneStatement(alnum, text, i, line, more + rest);
      LinesEnd(alnum, text, e + 1, lines[1..], rest);
      EndsIncrease(lines[1..], e + 1);
      EndsJoin(alnum, text, i, e, e + 1 + |more|, Ends(lines[1..], e + 1));
    }
  }

  lemma NoLines(alnum: char -> bool, text: string, i: nat, rest: string)
    requires From(text, i, "" + rest) && ModeAt(text, i) == Code
    ensures From(text, i, rest) && EndsAt(alnum, text, i, i, [])
  {
    assert "" + rest == rest;
  }

  lemma EndsJoin(alnum: char -> bool, text: string, i: nat, e: nat, j: nat, ends: seq<int>)
    requires i <= e && EndsAt(alnum, text, i, e + 1, [e]) && EndsAt(alnum, text, e + 1, j, ends)
    requires forall b | b in ends :: e + 1 <= b
    ensures EndsAt(alnum, text, i, j, [e] + ends)
  {
  }

  function BelowLines(lines: seq<string>, before: string, x: string, rest: string): string {
    Above(Lines(lines) + (before + Literal(x, rest)))
  }

  /** Between the comment and the literal there is only code, in which statements end just at `ends`. */
  ghost predicate Skips(alnum: char -> bool, text: string, ends: seq<int>, s: nat, c: nat) {
    && CommentLine(text) && 22 <= s < c < |text| && EndsAt(alnum, text, 22, s, ends)
    && text[s] == text[c] == '`' && forall k | s < k < c :: text[k] != '`'
  }

  lemma SkipsLines(alnum: char -> bool, text: string, lines: seq<string>, before: string, x: string, rest: string)
    requires text == BelowLines(lines, before, x, rest) && Plain(x) && CalmCode(before) && '\n' !in before
    requires forall l | l in lines :: IsStatement(alnum, l)
    ensures var s := 22 + |Lines(lines)| + |before|;
      var c := s + 1 + |x|;
      Skips(alnum, text, Ends(lines, 22), s, c) && LiteralAt(text, s, c, x)
  {
    hide Above, Literal, From, Lines, Ends, IsStatement, EndsAt, CommentLine;
    var i := 22 + |Lines(lines)|;
    AboveIs(text, Lines(lines) + (before + Literal(x, rest)));
    LineFeedIsCode(text);
    LinesEnd(alnum, text, 22, lines, before + Literal(x, rest));
    LeadIs(text, i, before, x, rest);
    FreeAt(before, '\n');
    EndsIncrease(lines, 22);
    RestIsCalm(alnum, text, i, i + |before|, Ends(lines, 22));
  }

  lemma LineFeedIsCode(text: string)
    requires CommentLine(text)
    ensures ModeAt(text, 22) == Code
  {
    HeadLine(text);
  }

  lemma RestIsCalm(alnum: char -> bool, text: string, i: nat, s: nat, ends: seq<int>)
    requires EndsAt(alnum, text, 22, i, ends) && i <= s <= |text| && (forall e | e in ends :: e < i)
    requires forall k | i <= k < s :: Calm(text[k]) && text[k] != '\n'
    ensures EndsAt(alnum, text, 22, s, ends)
  {
    CalmRun(text, i, s);
  }

  lemma SkipsBounds(alnum: char -> bool, text: string, ends: seq<int>, s: nat, c: nat, b: nat)
    requires Skips(alnum, text, ends, s, c) && b < s && forall e | e in ends :: 22 <= e
    ensures Stop(text, 0) > s && (Boundary(alnum, text, 0, b) <==> b in ends)
  {
    HeadLine(text);
    CalmRun(text, 21, 22);
    RawRun(text, s, c);
    SkipsDepth(alnum, text, ends, s, c);
    StopBeyond(text, 1, c + 1);
    assert DepthAt(text, 0) == 0;
  }

  lemma SkipsDepth(alnum: char -> bool, text: string, ends: seq<int>, s: nat, c: nat)
    requires Skips(alnum, text, ends, s, c) && ModeAt(text, s) == Code && Level(text, s, c + 1, DepthAt(text, s))
    ensures DepthAt(text, 22) == 0 && forall k | 0 <= k <= c + 1 :: DepthAt(text, k) >= 0
  {
    HeadLine(text);
    CalmRun(text, 21, 22);
    assert DepthAt(text, 22) == DepthAt(text, 21) == 0;
    forall k | 22 < k <= c + 1 ensures DepthAt(text, k) >= 0 {
      if k > s { assert DepthAt(text, k) == DepthAt(text, s); }
    }
  }

  lemma SkipsBelow(alnum: char -> bool, text: string, ends: seq<int>, s: nat, c: nat)
    requires Skips(alnum, text, ends, s, c) && Increasing(ends) && forall e | e in ends :: 22 <= e < s
    ensures |Below(Boundaries(alnum, text, 0), s)| == |ends|
  {
    forall b: nat | b < s ensures b in Boundaries(alnum, text, 0) <==> b in ends {
      SkipsBounds(alnum, text, ends, s, c, b);
    }
    PrefixCard(ends, |ends|);
    var listed := set i | 0 <= i < |ends| :: ends[i];
    forall b: int ensures b in Below(Boundaries(alnum, text, 0), s) <==> b in listed {
      if b in listed { assert b in ends; }
    }
    assert Below(Boundaries(alnum, text, 0), s) == listed;
  }

  /** SQL literals begin with a backtick in code, and in such a file none begins before the given one. */
  lemma FirstLiteral(alnum: char -> bool, judge: string -> Query, text: string, ends: seq<int>, s: nat, c: nat, t: nat)
    requires Skips(alnum, text, ends, s, c) && t in Starts(SqlOf(judge, text)) && t > 0
    ensures t >= s
  {
    hide SqlOf, Starts, RawsTo;
    SqlBegins(judge, text, t);
    HeadLine(text);
  }

  lemma SqlBegins(judge: string -> Query, text: string, t: nat)
    requires t in Starts(SqlOf(judge, text))
    ensures t < |text| && ModeAt(text, t) == Code && text[t] == '`'
  {
    hide Chosen, RawsTo, ModeAt;
    RawsAscend(text, |text|);
    ChosenAre(judge, IsSql, text, RawsTo(text, |text|));
    RawsExact(text, |text|);
  }

  lemma SkipsGoverned(alnum: char -> bool, judge: string -> Query, text: string, ends: seq<int>, s: nat, c: nat)
    requires Skips(alnum, text, ends, s, c) && Increasing(ends) && forall e | e in ends :: 22 <= e < s
    requires s in Starts(SqlOf(judge, text))
    ensures GovernedAt(alnum, text, 0, Starts(SqlOf(judge, text)), s) <==> |ends| <= 4
  {
    SkipsBelow(alnum, text, ends, s, c);
    if s > 22 { SkipsBounds(alnum, text, ends, s, c, 22); } else { SkipsBounds(alnum, text, ends, s, c, 0); }
    forall t | t in Starts(SqlOf(judge, text)) && 0 < t ensures t >= s {
      FirstLiteral(alnum, judge, text, ends, s, c, t);
    }
  }

  /**
   A comment above any number of lines that each are one statement without SQL, and behind them SQL: for whatever
   the literal holds, the comment governs it if and only if the lines are at most four.
   */
  lemma AtMostFourSkipped(alnum: char -> bool, judge: string -> Query, text: string, lines: seq<string>,
                          before: string, x: string, rest: string) returns (s: (nat, nat))
    requires text == BelowLines(lines, before, x, rest) && Plain(x) && CalmCode(before) && '\n' !in before
    requires judge(x).Sql? && forall l | l in lines :: IsStatement(alnum, l)
    ensures s in SqlOf(judge, text) && Snippet(text, s) == x
    ensures CommentLine(text) && (GovernedAt(alnum, text, 0, Starts(SqlOf(judge, text)), s.0) <==> |lines| <= 4)
  {
    hide BelowLines, SqlOf, Starts, Snippet, GovernedAt, LiteralAt, IsStatement;
    var at := 22 + |Lines(lines)| + |before|;
    var c := at + 1 + |x|;
    SkipsLines(alnum, text, lines, before, x, rest);
    LiteralSql(judge, text, at, c, x);
    EndsIncrease(lines, 22);
    SkipsGoverned(alnum, judge, text, Ends(lines, 22), at, c);
    s := (at, c + 1);
  }
}
