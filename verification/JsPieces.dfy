/**
 JavaScript text as a list of lexical pieces, printed. It is what the scanners of the CSRF gate are measured by:
 none of their states and turns occurs here.
 */
module JsPieces {
  import opened PyText
  import G = GoPieces
  import JsOptions

  /** `${expr}` in a template, and the text behind it up to the next one. */
  datatype Hole = Hole(expr: string, behind: string)

  datatype Piece =
    | Plain(body: string)                        // anything outside comments, strings and templates
    | Str(quote: char, body: string)             // '...' or "..."
    | Template(first: string, holes: seq<Hole>)  // `...${...}...`
    | LineNote(body: string)                     // up to the line feed, which belongs to the next piece
    | BlockNote(body: string)
  {
    function Text(): string {
      match this
      case Plain(body) => body
      case Str(quote, body) => [quote] + (body + [quote])
      case Template(first, holes) => "`" + (first + HolesText(holes))
      case LineNote(body) => "//" + body
      case BlockNote(body) => "/*" + (body + "*/")
    }

    predicate IsNote() { LineNote? || BlockNote? }

    /** It is what it says in front of the text `behind`. */
    predicate Fits(behind: string) {
      match this
      case Plain(body) => G.IsCode(body, behind)
      case Str(quote, body) => (quote == '\'' || quote == '"') && JsOptions.Body(quote, body)
      case Template(first, holes) => IsChunk(first) && AllHoles(holes)
      case LineNote(body) => '\n' !in body && (behind == "" || behind[0] == '\n')
      case BlockNote(body) => G.NoEnd(body)
    }
  }

  /** The holes with the text behind them, and the closing backtick. */
  function HolesText(holes: seq<Hole>): string {
    if holes == [] then "`" else "${" + (holes[0].expr + ("}" + (holes[0].behind + HolesText(holes[1..]))))
  }

  predicate AllHoles(holes: seq<Hole>) {
    holes == [] || (Nested(holes[0].expr, 0) && IsChunk(holes[0].behind) && AllHoles(holes[1..]))
  }

  /** Text of a template: a backtick or `${` stands only behind a backslash; the last backslash has its character. */
  predicate IsChunk(s: string) {
    if s == "" then true
    else if s[0] == '\\' then |s| > 1 && IsChunk(s[2..])
    else s[0] != '`' && !(s[0] == '$' && |s| > 1 && s[1] == '{') && IsChunk(s[1..])
  }

  /** Every brace that closes has been opened before, `d` of them in front of the text, and all of them are closed. */
  predicate Nested(s: string, d: nat) {
    if s == "" then d == 0
    else if s[0] == '}' then d > 0 && Nested(s[1..], d - 1)
    else Nested(s[1..], if s[0] == '{' then d + 1 else d)
  }

  function Print(ps: seq<Piece>): string {
    if ps == [] then "" else ps[0].Text() + Print(ps[1..])
  }

  predicate WellFormed(ps: seq<Piece>) {
    ps == [] || (ps[0].Fits(Print(ps[1..])) && WellFormed(ps[1..]))
  }

  predicate NoNotes(ps: seq<Piece>) {
    ps == [] || (!ps[0].IsNote() && NoNotes(ps[1..]))
  }

  // ---------------------------------------------------------------- what the scanners are to make of it

  /** The printed text with its comments blanked. */
  function PrintBlanked(ps: seq<Piece>): string {
    if ps == [] then ""
    else (if ps[0].IsNote() then Blank(ps[0].Text()) else ps[0].Text()) + PrintBlanked(ps[1..])
  }

  /** The first closing parenthesis of the code at which the bracket depth, `d` in front of it, falls to 0. */
  function ClosesAt(code: string, d: int): Option<nat> {
    if code == "" then None
    else if d == 1 && code[0] == ')' then Some(0)
    else match ClosesAt(code[1..], d + Lift(code[0]))
      case None => None
      case Some(k) => Some(k + 1)
  }

  /** The same for the printed text, of which plain code alone has brackets. */
  function CloseOf(ps: seq<Piece>, at: nat, d: int): Option<nat> {
    if ps == [] then None
    else if ps[0].Plain? && ClosesAt(ps[0].body, d).Some? then Some(at + ClosesAt(ps[0].body, d).value)
    else CloseOf(ps[1..], at + |ps[0].Text()|, if ps[0].Plain? then d + Rise(ps[0].body) else d)
  }

  /** Code cut at its commas outside brackets: the parts before the last one, and the last one. */
  datatype Cut = Cut(done: seq<string>, last: string)

  /** `cur` is the part that the code begins in, and `d` the depth there. */
  function CutCode(code: string, d: int, cur: string): Cut {
    if code == "" then Cut([], cur)
    else if d == 0 && code[0] == ',' then
      var rest := CutCode(code[1..], 0, "");
      Cut([cur] + rest.done, rest.last)
    else CutCode(code[1..], d + Lift(code[0]), cur + [code[0]])
  }

  /** The printed text cut at the commas of its plain code. */
  function CutPrinted(ps: seq<Piece>, d: int, cur: string): seq<string> {
    if ps == [] then [cur]
    else if ps[0].Plain? then
      var c := CutCode(ps[0].body, d, cur);
      c.done + CutPrinted(ps[1..], d + Rise(ps[0].body), c.last)
    else CutPrinted(ps[1..], d, cur + ps[0].Text())
  }

  /** The depth behind the code, if no bracket closes that has not been opened and every comma is in brackets. */
  function Nesting(code: string, d: nat): Option<nat> {
    if code == "" then Some(d)
    else if d == 0 && (code[0] == ',' || Lift(code[0]) < 0) then None
    else Nesting(code[1..], d + Lift(code[0]))
  }

  predicate NestedPrint(ps: seq<Piece>, d: nat) {
    if ps == [] then d == 0
    else if ps[0].Plain? then Nesting(ps[0].body, d).Some? && NestedPrint(ps[1..], Nesting(ps[0].body, d).value)
    else NestedPrint(ps[1..], d)
  }
}

/** The scanners of scripts/check_fe_csrf.py on printed texts. */
module JsPrinted {
  import opened PyText
  import opened JsScanner
  import opened JsArgs
  import G = GoPieces
  import JsOptions
  import P = JsPieces

  // ---------------------------------------------------------------- inside strings and templates

  /** From `i`, in state `m`, the shared turns lead to `j` in state `m'`, and none of them is in code or a comment. */
  ghost predicate Goes(s: string, i: nat, m: Mode, j: nat, m': Mode)
    decreases |s| - i
  {
    || (i == j <= |s| && m == m')
    || (i < |s| && !m.Code? && !m.LineComment? && !m.BlockComment? && Goes(s, After(i, m, s), Then(i, m, s), j, m'))
  }

  lemma {:induction false} GoesOn(s: string, i: nat, m: Mode, j: nat, m': Mode, k: nat, m'': Mode)
    requires Goes(s, i, m, j, m') && Goes(s, j, m', k, m'')
    ensures Goes(s, i, m, k, m'')
    decreases |s| - i
  {
    if !(i == j && m == m') {
      GoesOn(s, After(i, m, s), Then(i, m, s), j, m', k, m'');
    }
  }

  lemma {:induction false} GoesForward(s: string, i: nat, m: Mode, j: nat, m': Mode)
    requires Goes(s, i, m, j, m')
    ensures i <= j <= |s|
    decreases |s| - i
  {
    if !(i == j && m == m') {
      GoesForward(s, After(i, m, s), Then(i, m, s), j, m');
    }
  }

  function ModeFor(q: char): Mode {
    if q == '\'' then Single else Double
  }

  lemma Drop(s: string, i: nat, a: string, w: nat, behind: string)
    requires From(s, i, a + behind) && w <= |a|
    ensures From(s, i + w, a[w..] + behind)
  {
    assert a == a[..w] + a[w..];
    Regroup(a[..w], a[w..], behind);
    FromPart(s, i, a[..w], a[w..] + behind);
  }

  lemma {:induction false} StringGoes(s: string, i: nat, q: char, body: string, j: nat, behind: string)
    requires From(s, i, body + ([q] + behind)) && JsOptions.Body(q, body) && (q == '\'' || q == '"') && j == i + |body|
    ensures Goes(s, i, ModeFor(q), j + 1, Code)
    decreases |body|
  {
    FromHead(s, i, body + ([q] + behind));
    if body != "" {
      var w := if body[0] == '\\' then 2 else 1;
      Drop(s, i, body, w, [q] + behind);
      StringGoes(s, i + w, q, body[w..], j, behind);
    }
  }

  lemma {:induction false} ChunkGoes(s: string, i: nat, chunk: string, j: nat, behind: string)
    requires From(s, i, chunk + behind) && P.IsChunk(chunk) && j == i + |chunk|
    requires behind != "" && behind[0] != '{'
    ensures Goes(s, i, Template, j, Template)
    decreases |chunk|
  {
    FromHead(s, i, chunk + behind);
    if chunk != "" {
      var w := if chunk[0] == '\\' then 2 else 1;
      Drop(s, i, chunk, w, behind);
      ChunkGoes(s, i + w, chunk[w..], j, behind);
    }
  }

  lemma {:induction false} ExprGoes(s: string, i: nat, expr: string, d: nat, j: nat, behind: string)
    requires From(s, i, expr + ("}" + behind)) && P.Nested(expr, d) && j == i + |expr|
    ensures Goes(s, i, Expr(d + 1), j + 1, Template)
    decreases |expr|
  {
    FromHead(s, i, expr + ("}" + behind));
    if expr != "" {
      Drop(s, i, expr, 1, "}" + behind);
      ExprGoes(s, i + 1, expr[1..], if expr[0] == '}' then d - 1 else if expr[0] == '{' then d + 1 else d, j, behind);
    }
  }

  lemma {:induction false} HolesGo(s: string, i: nat, holes: seq<P.Hole>, j: nat, behind: string)
    requires From(s, i, P.HolesText(holes) + behind) && P.AllHoles(holes) && j == i + |P.HolesText(holes)|
    ensures Goes(s, i, Template, j, Code)
    decreases |holes|
  {
    hide From, P.IsChunk, P.Nested;
    if holes == [] {
      Closing(s, i, behind);
    } else {
      var h, rest := holes[0], P.HolesText(holes[1..]);
      HolesBegin(holes[1..], behind);
      OneHole(s, i, h, rest, behind);
      var k := i + 3 + |h.expr| + |h.behind|;
      HolesGo(s, k, holes[1..], j, behind);
      GoesOn(s, i, Template, k, Template, j, Code);
    }
  }

  lemma Closing(s: string, i: nat, behind: string)
    requires From(s, i, "`" + behind)
    ensures Goes(s, i, Template, i + 1, Code)
  {
    FromHead(s, i, "`" + behind);
  }

  lemma HoleOpens(s: string, i: nat, rest: string)
    requires From(s, i, "${" + rest)
    ensures Goes(s, i, Template, i + 2, Expr(1)) && From(s, i + 2, rest)
  {
    FromHead(s, i, "${" + rest);
    FromPart(s, i, "${", rest);
  }

  lemma ExprCloses(s: string, i: nat, expr: string, rest: string)
    requires From(s, i, expr + ("}" + rest)) && P.Nested(expr, 0)
    ensures var k := i + |expr| + 1; Goes(s, i, Expr(1), k, Template) && From(s, k, rest)
  {
    ExprGoes(s, i, expr, 0, i + |expr|, rest);
    FromPart(s, i, expr, "}" + rest);
    FromPart(s, i + |expr|, "}", rest);
  }

  lemma HolesBegin(holes: seq<P.Hole>, behind: string)
    ensures var t := P.HolesText(holes) + behind; t != "" && t[0] != '{'
  {
  }

  lemma OneHole(s: string, i: nat, h: P.Hole, rest: string, behind: string)
    requires From(s, i, "${" + (h.expr + ("}" + (h.behind + rest))) + behind)
    requires P.Nested(h.expr, 0) && P.IsChunk(h.behind) && (rest + behind) != "" && (rest + behind)[0] != '{'
    ensures var k := i + 3 + |h.expr| + |h.behind|; Goes(s, i, Template, k, Template) && From(s, k, rest + behind)
  {
    hide From, P.IsChunk, P.Nested, Goes;
    var e, k := i + 3 + |h.expr|, i + 3 + |h.expr| + |h.behind|;
    Regroup("${", h.expr + ("}" + (h.behind + rest)), behind);
    Regroup(h.expr, "}" + (h.behind + rest), behind);
    Regroup("}", h.behind + rest, behind);
    Regroup(h.behind, rest, behind);
    HoleOpens(s, i, h.expr + ("}" + (h.behind + (rest + behind))));
    ExprCloses(s, i + 2, h.expr, h.behind + (rest + behind));
    ChunkGoes(s, e, h.behind, k, rest + behind);
    FromPart(s, e, h.behind, rest + behind);
    GoesOn(s, i, Template, i + 2, Expr(1), e, Template);
    GoesOn(s, i, Template, e, Template, k, Template);
  }

  /** From the quote in code at `i` the turns lead to code at `j` again. */
  ghost predicate Crosses(s: string, i: nat, j: nat) {
    i < j <= |s| && IsQuote(s[i]) && Goes(s, i + 1, Then(i, Code, s), j, Code)
  }

  lemma LiteralCrosses(s: string, i: nat, p: P.Piece, j: nat, behind: string)
    requires From(s, i, p.Text() + behind) && p.Fits(behind) && (p.Str? || p.Template?) && j == i + |p.Text()|
    ensures Crosses(s, i, j)
  {
    if p.Str? {
      StringCrosses(s, i, p.quote, p.body, j, behind);
    } else {
      TemplateCrosses(s, i, p.first, p.holes, j, behind);
    }
  }

  lemma StringCrosses(s: string, i: nat, q: char, body: string, j: nat, behind: string)
    requires From(s, i, ([q] + (body + [q])) + behind) && JsOptions.Body(q, body) && (q == '\'' || q == '"')
    requires j == i + |body| + 2
    ensures Crosses(s, i, j)
  {
    hide From, JsOptions.Body;
    Regroup([q], body + [q], behind);
    Regroup(body, [q], behind);
    FromHead(s, i, [q] + (body + ([q] + behind)));
    FromPart(s, i, [q], body + ([q] + behind));
    StringGoes(s, i + 1, q, body, j - 1, behind);
    GoesForward(s, i + 1, ModeFor(q), j, Code);
  }

  lemma TemplateCrosses(s: string, i: nat, first: string, holes: seq<P.Hole>, j: nat, behind: string)
    requires From(s, i, ("`" + (first + P.HolesText(holes))) + behind) && P.IsChunk(first) && P.AllHoles(holes)
    requires j == i + 1 + |first| + |P.HolesText(holes)|
    ensures Crosses(s, i, j)
  {
    hide From, P.IsChunk, P.AllHoles, P.HolesText, Goes;
    var rest, k := P.HolesText(holes) + behind, i + 1 + |first|;
    Regroup("`", first + P.HolesText(holes), behind);
    Regroup(first, P.HolesText(holes), behind);
    FromHead(s, i, "`" + (first + rest));
    FromPart(s, i, "`", first + rest);
    FromPart(s, i + 1, first, rest);
    HolesBegin(holes, behind);
    ChunkGoes(s, i + 1, first, k, rest);
    HolesGo(s, k, holes, j, behind);
    GoesOn(s, i + 1, Template, k, Template, j, Code);
    GoesForward(s, i + 1, Template, j, Code);
  }

  // ---------------------------------------------------------------- what the scanners do on the way

  lemma {:induction false} GoesStripped(s: string, i: nat, m: Mode, j: nat, m': Mode)
    requires Goes(s, i, m, j, m')
    ensures i <= j <= |s| && Stripped(s, i, m) == s[i..j] + Stripped(s, j, m')
    decreases |s| - i
  {
    hide Stripped;
    if i == j && m == m' {
      assert s[i..j] == "" && "" + Stripped(s, j, m') == Stripped(s, j, m');
    } else {
      GoesStripped(s, After(i, m, s), Then(i, m, s), j, m');
      KeptTurn(s, i, m);
      Regroup(s[i..After(i, m, s)], s[After(i, m, s)..j], Stripped(s, j, m'));
      assert s[i..j] == s[i..After(i, m, s)] + s[After(i, m, s)..j];
    }
  }

  lemma KeptTurn(s: string, i: nat, m: Mode)
    requires i < |s| && !m.Code? && !m.LineComment? && !m.BlockComment? && After(i, m, s) <= |s|
    ensures Stripped(s, i, m) == s[i..After(i, m, s)] + Stripped(s, After(i, m, s), Then(i, m, s))
  {
    StrippedTurn(s, i, m);
    WrittenIs(s, i, m);
  }

  lemma CrossesStripped(s: string, i: nat, j: nat)
    requires Crosses(s, i, j)
    ensures Stripped(s, i, Code) == s[i..j] + Stripped(s, j, Code)
  {
    hide Stripped;
    StrippedTurn(s, i, Code);
    WrittenIs(s, i, Code);
    GoesStripped(s, i + 1, Then(i, Code, s), j, Code);
    Regroup([s[i]], s[i + 1..j], Stripped(s, j, Code));
    assert s[i..j] == [s[i]] + s[i + 1..j];
  }

  lemma {:induction false} GoesMatched(s: string, i: nat, m: Mode, j: nat, m': Mode, d: int)
    requires Goes(s, i, m, j, m')
    ensures MatchFrom(s, i, m, d) == MatchFrom(s, j, m', d)
    decreases |s| - i
  {
    if !(i == j && m == m') { GoesMatched(s, After(i, m, s), Then(i, m, s), j, m', d); }
  }

  lemma {:induction false} GoesBalanced(s: string, i: nat, m: Mode, j: nat, m': Mode, d: nat)
    requires Goes(s, i, m, j, m')
    ensures Balanced(s, i, m, d) <==> Balanced(s, j, m', d)
    decreases |s| - i
  {
    if !(i == j && m == m') { GoesBalanced(s, After(i, m, s), Then(i, m, s), j, m', d); }
  }

  lemma {:induction false} GoesCut(s: string, i: nat, m: Mode, j: nat, m': Mode, d: int, cur: string)
    requires Goes(s, i, m, j, m')
    ensures i <= j <= |s| && Pieces(s, i, m, d, cur) == Pieces(s, j, m', d, cur + s[i..j])
    decreases |s| - i
  {
    if i == j && m == m' {
      assert cur + s[i..j] == cur;
    } else {
      var k := After(i, m, s);
      GoesForward(s, k, Then(i, m, s), j, m');
      GoesCut(s, k, Then(i, m, s), j, m', d, cur + s[i..k]);
      Regroup(cur, s[i..k], s[k..j]);
      assert s[i..j] == s[i..k] + s[k..j];
    }
  }

  lemma CrossesMatched(s: string, i: nat, j: nat, d: int)
    requires Crosses(s, i, j)
    ensures MatchFrom(s, i, Code, d) == MatchFrom(s, j, Code, d)
  {
    hide Goes;
    GoesMatched(s, i + 1, Then(i, Code, s), j, Code, d);
  }

  lemma CrossesBalanced(s: string, i: nat, j: nat, d: nat)
    requires Crosses(s, i, j)
    ensures Balanced(s, i, Code, d) <==> Balanced(s, j, Code, d)
  {
    hide Goes;
    GoesBalanced(s, i + 1, Then(i, Code, s), j, Code, d);
  }

  lemma CrossesCut(s: string, i: nat, j: nat, d: int, cur: string)
    requires Crosses(s, i, j)
    ensures Pieces(s, i, Code, d, cur) == Pieces(s, j, Code, d, cur + s[i..j])
  {
    hide Goes;
    GoesCut(s, i + 1, Then(i, Code, s), j, Code, d, cur + s[i..i + 1]);
    Regroup(cur, s[i..i + 1], s[i + 1..j]);
    assert s[i..j] == s[i..i + 1] + s[i + 1..j];
  }

  // ---------------------------------------------------------------- code and comments

  /** The first character of code. */
  lemma CodeTurn(s: string, i: nat, code: string, behind: string)
    requires From(s, i, code + behind) && code != "" && G.IsCode(code, behind)
    ensures i < |s| && s[i] == code[0] && !IsQuote(s[i]) && !OpensComment(Code, s[i], CharAt(s, i + 1))
    ensures From(s, i + 1, code[1..] + behind) && G.IsCode(code[1..], behind)
  {
    FromHead(s, i, code + behind);
    assert (code + behind)[1..] == code[1..] + behind;
  }

  lemma {:induction false} CodeStripped(s: string, i: nat, code: string, behind: string)
    requires From(s, i, code + behind) && G.IsCode(code, behind)
    ensures Stripped(s, i, Code) == code + Stripped(s, i + |code|, Code)
    decreases |code|
  {
    hide Stripped, G.IsCode;
    if code == "" {
      assert "" + Stripped(s, i, Code) == Stripped(s, i, Code);
    } else {
      CodeTurn(s, i, code, behind);
      StrippedTurn(s, i, Code);
      CodeStripped(s, i + 1, code[1..], behind);
      Regroup([code[0]], code[1..], Stripped(s, i + |code|, Code));
      assert code == [code[0]] + code[1..];
    }
  }

  lemma {:induction false} CodeMatched(s: string, i: nat, code: string, behind: string, d: int)
    requires From(s, i, code + behind) && G.IsCode(code, behind)
    ensures MatchFrom(s, i, Code, d)
         == match P.ClosesAt(code, d)
            case Some(k) => Some(i + k)
            case None => MatchFrom(s, i + |code|, Code, d + Rise(code))
    decreases |code|
  {
    hide G.IsCode;
    if code != "" {
      CodeTurn(s, i, code, behind);
      CodeMatched(s, i + 1, code[1..], behind, d + Lift(code[0]));
    }
  }

  lemma {:induction false} CodeBalanced(s: string, i: nat, code: string, behind: string, d: nat)
    requires From(s, i, code + behind) && G.IsCode(code, behind)
    ensures var n := P.Nesting(code, d);
      Balanced(s, i, Code, d) <==> n.Some? && Balanced(s, i + |code|, Code, n.value)
    decreases |code|
  {
    hide G.IsCode;
    if code != "" {
      CodeTurn(s, i, code, behind);
      if d + Lift(code[0]) >= 0 {
        CodeBalanced(s, i + 1, code[1..], behind, d + Lift(code[0]));
      }
    }
  }

  lemma CutTurn(s: string, i: nat, d: int, cur: string)
    requires i < |s| && !IsQuote(s[i])
    ensures Pieces(s, i, Code, d, cur)
         == if d == 0 && s[i] == ',' then [cur] + Pieces(s, i + 1, Code, 0, "")
            else Pieces(s, i + 1, Code, d + Lift(s[i]), cur + [s[i]])
  {
    assert s[i..i + 1] == [s[i]];
  }

  lemma {:induction false} CodeCut(s: string, i: nat, code: string, behind: string, d: int, cur: string)
    requires From(s, i, code + behind) && G.IsCode(code, behind)
    ensures var c := P.CutCode(code, d, cur);
      Pieces(s, i, Code, d, cur) == c.done + Pieces(s, i + |code|, Code, d + Rise(code), c.last)
    decreases |code|
  {
    hide G.IsCode, Pieces, From;
    if code == "" {
      assert [] + Pieces(s, i, Code, d, cur) == Pieces(s, i, Code, d, cur);
    } else {
      CodeTurn(s, i, code, behind);
      CutTurn(s, i, d, cur);
      if d == 0 && code[0] == ',' {
        CodeCut(s, i + 1, code[1..], behind, 0, "");
        var c := P.CutCode(code[1..], 0, "");
        Regroup([cur], c.done, Pieces(s, i + |code|, Code, Rise(code[1..]), c.last));
        assert Rise(code) == Rise(code[1..]);
      } else {
        CodeCut(s, i + 1, code[1..], behind, d + Lift(code[0]), cur + [code[0]]);
      }
    }
  }

  lemma {:induction false} BlankFirst(c: char, s: string)
    ensures Blank([c] + s) == [if c == '\n' then c else ' '] + Blank(s)
    decreases |s|
  {
    if s != "" {
      var n := |s| - 1;
      BlankFirst(c, s[..n]);
      assert ([c] + s)[..n + 1] == [c] + s[..n];
      Regroup([if c == '\n' then c else ' '], Blank(s[..n]), [if s[n] == '\n' then '\n' else ' ']);
    }
  }

  /** A turn inside a comment. */
  lemma NoteTurn(s: string, i: nat, m: Mode)
    requires i < |s| && (m.LineComment? || (m.BlockComment? && !(s[i] == '*' && CharAt(s, i + 1) == Some('/'))))
    ensures var c := [if s[i] == '\n' then '\n' else ' '];
      Stripped(s, i, m) == c + Stripped(s, i + 1, if s[i] == '\n' && m.LineComment? then Code else m)
  {
    StrippedTurn(s, i, m);
    WrittenIs(s, i, m);
  }

  lemma {:induction false} LineStripped(s: string, i: nat, body: string, behind: string)
    requires From(s, i, body + behind) && '\n' !in body && (behind == "" || behind[0] == '\n')
    ensures Stripped(s, i, LineComment) == Blank(body) + Stripped(s, i + |body|, Code)
    decreases |body|
  {
    hide Stripped, Blank;
    if body == "" {
      LineEnds(s, i, behind);
    } else {
      FromHead(s, i, body + behind);
      assert (body + behind)[1..] == body[1..] + behind && body[0] in body;
      NoteTurn(s, i, LineComment);
      LineStripped(s, i + 1, body[1..], behind);
      BlankFirst(body[0], body[1..]);
      Regroup(" ", Blank(body[1..]), Stripped(s, i + |body|, Code));
      assert body == [body[0]] + body[1..];
    }
  }

  /** A line comment ends in front of the line feed. */
  lemma LineEnds(s: string, i: nat, behind: string)
    requires From(s, i, "" + behind) && (behind == "" || behind[0] == '\n')
    ensures Stripped(s, i, LineComment) == Blank("") + Stripped(s, i, Code)
  {
    hide Stripped;
    assert "" + behind == behind;
    if behind != "" { FromHead(s, i, behind); }
    LineFeedTurn(s, i);
    assert "" + Stripped(s, i, Code) == Stripped(s, i, Code);
  }

  lemma LineFeedTurn(s: string, i: nat)
    requires i < |s| ==> s[i] == '\n'
    ensures Stripped(s, i, LineComment) == Stripped(s, i, Code)
  {
    hide Stripped;
    if i < |s| {
      StrippedTurn(s, i, LineComment);
      StrippedTurn(s, i, Code);
    } else {
      StrippedEnd(s, i, LineComment);
      StrippedEnd(s, i, Code);
    }
  }

  lemma StrippedEnd(s: string, i: nat, m: Mode)
    requires i >= |s|
    ensures Stripped(s, i, m) == ""
  {
  }

  lemma {:induction false} BlockStripped(s: string, i: nat, body: string, behind: string)
    requires From(s, i, body + ("*/" + behind)) && G.NoEnd(body)
    ensures Stripped(s, i, BlockComment) == Blank(body) + ("  " + Stripped(s, i + |body| + 2, Code))
    decreases |body|
  {
    hide Stripped, Blank;
    if body == "" {
      BlockCloses(s, i, behind);
    } else {
      FromHead(s, i, body + ("*/" + behind));
      assert (body + ("*/" + behind))[1..] == body[1..] + ("*/" + behind);
      NoteTurn(s, i, BlockComment);
      BlockStripped(s, i + 1, body[1..], behind);
      BlankFirst(body[0], body[1..]);
      Regroup([if body[0] == '\n' then '\n' else ' '], Blank(body[1..]), "  " + Stripped(s, i + |body| + 2, Code));
      assert body == [body[0]] + body[1..];
    }
  }

  lemma BlockCloses(s: string, i: nat, behind: string)
    requires From(s, i, "" + ("*/" + behind))
    ensures Stripped(s, i, BlockComment) == Blank("") + ("  " + Stripped(s, i + 2, Code))
  {
    FromHead(s, i, "" + ("*/" + behind));
    StrippedTurn(s, i, BlockComment);
    assert "" + ("  " + Stripped(s, i + 2, Code)) == "  " + Stripped(s, i + 2, Code);
  }

  /** The opener, in code. */
  lemma NoteOpens(s: string, i: nat, second: char, rest: string)
    requires From(s, i, ['/', second] + rest) && (second == '/' || second == '*')
    ensures From(s, i + 2, rest)
    ensures Stripped(s, i, Code) == "  " + Stripped(s, i + 2, if second == '/' then LineComment else BlockComment)
  {
    FromHead(s, i, ['/', second] + rest);
    FromPart(s, i, ['/', second], rest);
    StrippedTurn(s, i, Code);
  }

  lemma LineNoteStripped(s: string, i: nat, body: string, behind: string)
    requires From(s, i, ("//" + body) + behind) && '\n' !in body && (behind == "" || behind[0] == '\n')
    ensures Stripped(s, i, Code) == Blank("//" + body) + Stripped(s, i + 2 + |body|, Code)
  {
    hide Stripped, Blank, From;
    Regroup("//", body, behind);
    NoteOpens(s, i, '/', body + behind);
    LineStripped(s, i + 2, body, behind);
    BlankOpener('/', body);
    Regroup("  ", Blank(body), Stripped(s, i + 2 + |body|, Code));
  }

  lemma BlankOpener(second: char, s: string)
    requires second != '\n'
    ensures Blank(['/', second] + s) == "  " + Blank(s)
  {
    hide Blank;
    BlankFirst(second, s);
    BlankFirst('/', [second] + s);
    assert ['/'] + ([second] + s) == ['/', second] + s;
    assert " " + (" " + Blank(s)) == "  " + Blank(s);
  }

  lemma BlockNoteStripped(s: string, i: nat, body: string, behind: string)
    requires From(s, i, ("/*" + (body + "*/")) + behind) && G.NoEnd(body)
    ensures Stripped(s, i, Code) == Blank("/*" + (body + "*/")) + Stripped(s, i + 4 + |body|, Code)
  {
    hide Stripped, Blank, From, G.NoEnd;
    Regroup("/*", body + "*/", behind);
    Regroup(body, "*/", behind);
    NoteOpens(s, i, '*', body + ("*/" + behind));
    BlockStripped(s, i + 2, body, behind);
    BlankOpener('*', body + "*/");
    BlankLast(body, '*');
    BlankLast(body + "*", '/');
    assert (body + "*") + "/" == body + "*/" && (Blank(body) + " ") + " " == Blank(body) + "  ";
    Regroup(Blank(body), "  ", Stripped(s, i + 4 + |body|, Code));
    Regroup("  ", Blank(body) + "  ", Stripped(s, i + 4 + |body|, Code));
  }

  lemma BlankLast(s: string, c: char)
    requires c != '\n'
    ensures Blank(s + [c]) == Blank(s) + " "
  {
    assert (s + [c])[..|s|] == s;
  }

  // ---------------------------------------------------------------- the scanners on printed texts

  lemma PlainIs(p: P.Piece, behind: string)
    requires p.Plain? && p.Fits(behind)
    ensures p.Text() == p.body && G.IsCode(p.body, behind)
  {
  }

  lemma NoteStripped(s: string, i: nat, p: P.Piece, behind: string)
    requires From(s, i, p.Text() + behind) && p.Fits(behind) && p.IsNote()
    ensures Stripped(s, i, Code) == Blank(p.Text()) + Stripped(s, i + |p.Text()|, Code)
  {
    hide Stripped, Blank, From, G.NoEnd;
    if p.LineNote? {
      LineNoteStripped(s, i, p.body, behind);
    } else {
      BlockNoteStripped(s, i, p.body, behind);
    }
  }

  lemma PieceStripped(s: string, i: nat, p: P.Piece, behind: string)
    requires From(s, i, p.Text() + behind) && p.Fits(behind)
    ensures var t := p.Text();
      Stripped(s, i, Code) == (if p.IsNote() then Blank(t) else t) + Stripped(s, i + |t|, Code)
  {
    hide Stripped, Blank, P.Piece.Text, P.Piece.Fits, G.IsCode, Crosses;
    FromPart(s, i, p.Text(), behind);
    if p.Plain? {
      PlainIs(p, behind);
      CodeStripped(s, i, p.body, behind);
    } else if p.IsNote() {
      NoteStripped(s, i, p, behind);
    } else {
      LiteralCrosses(s, i, p, i + |p.Text()|, behind);
      CrossesStripped(s, i, i + |p.Text()|);
    }
  }

  lemma {:induction false} StrippedPrinted(s: string, i: nat, ps: seq<P.Piece>)
    requires From(s, i, P.Print(ps)) && P.WellFormed(ps)
    ensures Stripped(s, i, Code) == P.PrintBlanked(ps)
    decreases |ps|
  {
    hide Stripped, Blank, P.Piece.Text, P.Piece.Fits;
    if ps == [] {
      AtEnd(s, i, 0, 0, "");
    } else {
      FromPart(s, i, ps[0].Text(), P.Print(ps[1..]));
      PieceStripped(s, i, ps[0], P.Print(ps[1..]));
      StrippedPrinted(s, i + |ps[0].Text()|, ps[1..]);
    }
  }

  lemma AtEnd(s: string, i: nat, d: int, n: nat, cur: string)
    requires From(s, i, "")
    ensures i == |s| && Stripped(s, i, Code) == "" && MatchFrom(s, i, Code, d) == None
    ensures Pieces(s, i, Code, d, cur) == [cur] && (Balanced(s, i, Code, n) <==> n == 0)
  {
    assert |s[i..]| == |s| - i;
  }

  lemma {:induction false} MatchedPrinted(s: string, i: nat, ps: seq<P.Piece>, d: int)
    requires From(s, i, P.Print(ps)) && P.WellFormed(ps) && P.NoNotes(ps)
    ensures MatchFrom(s, i, Code, d) == P.CloseOf(ps, i, d)
    decreases |ps|
  {
    hide MatchFrom, P.Piece.Text, P.Piece.Fits, P.ClosesAt, G.IsCode, Crosses;
    if ps == [] {
      AtEnd(s, i, d, 0, "");
    } else {
      var p, behind := ps[0], P.Print(ps[1..]);
      var j := i + |p.Text()|;
      FromPart(s, i, p.Text(), behind);
      if p.Plain? {
        PlainIs(p, behind);
        CodeMatched(s, i, p.body, behind, d);
      } else {
        LiteralCrosses(s, i, p, j, behind);
        CrossesMatched(s, i, j, d);
      }
      MatchedPrinted(s, j, ps[1..], if p.Plain? then d + Rise(p.body) else d);
    }
  }

  lemma {:induction false} BalancedPrinted(s: string, i: nat, ps: seq<P.Piece>, d: nat)
    requires From(s, i, P.Print(ps)) && P.WellFormed(ps) && P.NoNotes(ps)
    ensures Balanced(s, i, Code, d) <==> P.NestedPrint(ps, d)
    decreases |ps|
  {
    hide Balanced, P.Piece.Text, P.Piece.Fits, P.Nesting, G.IsCode, Crosses;
    if ps == [] {
      AtEnd(s, i, 0, d, "");
    } else {
      var p, behind := ps[0], P.Print(ps[1..]);
      var j := i + |p.Text()|;
      FromPart(s, i, p.Text(), behind);
      if !p.Plain? {
        LiteralCrosses(s, i, p, j, behind);
        CrossesBalanced(s, i, j, d);
        BalancedPrinted(s, j, ps[1..], d);
      } else {
        PlainIs(p, behind);
        CodeBalanced(s, i, p.body, behind, d);
        if P.Nesting(p.body, d).Some? { BalancedPrinted(s, j, ps[1..], P.Nesting(p.body, d).value); }
      }
    }
  }

  lemma {:induction false} CutsPrinted(s: string, i: nat, ps: seq<P.Piece>, d: int, cur: string)
    requires From(s, i, P.Print(ps)) && P.WellFormed(ps) && P.NoNotes(ps)
    ensures Pieces(s, i, Code, d, cur) == P.CutPrinted(ps, d, cur)
    decreases |ps|
  {
    hide Pieces, P.Piece.Text, P.Piece.Fits, P.CutCode, G.IsCode, Crosses;
    if ps == [] {
      AtEnd(s, i, d, 0, cur);
    } else {
      var p, behind := ps[0], P.Print(ps[1..]);
      var j := i + |p.Text()|;
      FromPart(s, i, p.Text(), behind);
      if p.Plain? {
        PlainIs(p, behind);
        CodeCut(s, i, p.body, behind, d, cur);
        CutsPrinted(s, j, ps[1..], d + Rise(p.body), P.CutCode(p.body, d, cur).last);
      } else {
        LiteralCrosses(s, i, p, j, behind);
        CrossesCut(s, i, j, d, cur);
        CutsPrinted(s, j, ps[1..], d, cur + p.Text());
      }
    }
  }

  /**
   For every printed text: code, strings and templates are kept, whatever they hold, and comments are blanked,
   with their line feeds kept.
   */
  lemma StripOfPrinted(ps: seq<P.Piece>)
    requires P.WellFormed(ps)
    ensures Stripped(P.Print(ps), 0, Code) == P.PrintBlanked(ps)
  {
    assert P.Print(ps)[0..] == P.Print(ps);
    StrippedPrinted(P.Print(ps), 0, ps);
  }

  /**
   For every printed text without comments, brackets and commas count in plain code alone: there is where
   `match_paren` finds the closing parenthesis, and where the arguments are split.
   */
  lemma ScanOfPrinted(ps: seq<P.Piece>)
    requires P.WellFormed(ps) && P.NoNotes(ps)
    ensures MatchFrom(P.Print(ps), 0, Code, 0) == P.CloseOf(ps, 0, 0)
    ensures Pieces(P.Print(ps), 0, Code, 0, "") == P.CutPrinted(ps, 0, "")
    ensures Balanced(P.Print(ps), 0, Code, 0) <==> P.NestedPrint(ps, 0)
  {
    assert P.Print(ps)[0..] == P.Print(ps);
    MatchedPrinted(P.Print(ps), 0, ps, 0);
    CutsPrinted(P.Print(ps), 0, ps, 0, "");
    BalancedPrinted(P.Print(ps), 0, ps, 0);
  }

  /**
   A string or template without holes, whatever stands between its quotes: it is kept as it is, it is balanced, it
   is one argument, and a parenthesis in it closes no call.
   */
  lemma LiteralIsKept(q: char, body: string, before: string, after: string)
    requires IsQuote(q) && JsOptions.Body(q, body) && (q == '`' ==> P.IsChunk(body))
    ensures var t := [q] + body + [q];
      && Stripped(t, 0, Code) == t && Balanced(t, 0, Code, 0)
      && Pieces(t, 0, Code, 0, "") == [t]
      && MatchFrom(before + "(" + t + ")" + after, |before|, Code, 0) == Some(|before| + 1 + |t|)
  {
    hide Stripped, Pieces, Balanced, MatchFrom, JsOptions.Body, P.IsChunk;
    var t := [q] + body + [q];
    Regroup([q], body, [q]);
    var p := if q == '`' then P.Template(body, []) else P.Str(q, body);
    OnePiece(p, t);
    StripOfPrinted([p]);
    ScanOfPrinted([p]);
    assert Join([t], ',') == t;
    MatchPrinted(before, [t], after);
  }

  lemma OnePiece(p: P.Piece, t: string)
    requires p.Text() == t && p.Fits("") && !p.Plain? && !p.IsNote()
    ensures P.Print([p]) == t && P.WellFormed([p]) && P.NoNotes([p]) && P.PrintBlanked([p]) == t
    ensures P.NestedPrint([p], 0) && P.CutPrinted([p], 0, "") == [t]
  {
    hide P.Piece.Text, P.Piece.Fits;
    assert [p][1..] == [] && t + "" == t && "" + t == t;
  }
}
