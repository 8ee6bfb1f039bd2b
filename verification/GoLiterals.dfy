/**
 The two Go lexers of scripts/check_module_isolation.py: `string_literals`, which yields each string
 literal with its line, and `strip_go_code_noise`, which blanks comments and strings in place.
 */
module GoLiterals {
  import opened PyText
  import P = GoPieces

  datatype Kind = Code | LineComment | BlockComment | Raw | Interpreted | Rune

  /** A token [from, to); `close` is where its terminator starts. `to` can pass the end of an unclosed text. */
  datatype Token = Token(kind: Kind, from: nat, close: nat, to: nat)

  // ---------------------------------------------------------------- where each kind ends

  function BlockClose(src: string, j: nat): (k: nat)
    requires j <= |src|
    ensures j <= k <= |src| && (k + 1 < |src| ==> src[k] == '*' && src[k + 1] == '/')
    decreases |src| - j
  {
    if j + 1 < |src| && !(src[j] == '*' && src[j + 1] == '/') then BlockClose(src, j + 1) else j
  }

  function RawClose(src: string, j: nat): (k: nat)
    requires j <= |src|
    ensures j <= k <= |src| && (k < |src| ==> src[k] == '`')
    decreases |src| - j
  {
    if j < |src| && src[j] != '`' then RawClose(src, j + 1) else j
  }

  /** A quote, or the line's end when the string is left open; a backslash takes the next character along. */
  function TextClose(src: string, j: nat): (k: nat)
    requires j <= |src|
    ensures j <= k <= |src| && (k < |src| ==> src[k] == '"' || src[k] == '\n')
    decreases |src| - j
  {
    if j == |src| || src[j] == '"' then j
    else if src[j] == '\\' && j + 1 < |src| then TextClose(src, j + 2)
    else if src[j] == '\n' then j
    else TextClose(src, j + 1)
  }

  function RuneClose(src: string, j: nat): (k: nat)
    requires j <= |src|
    ensures j <= k <= |src| && (k < |src| ==> src[k] == '\'')
    decreases |src| - j
  {
    if j == |src| || src[j] == '\'' then j
    else if src[j] == '\\' && j + 1 < |src| then RuneClose(src, j + 2)
    else RuneClose(src, j + 1)
  }

  predicate Pair(src: string, i: nat, c: char, d: char) {
    At(src, i, c) && At(src, i + 1, d)
  }

  function TokenAt(src: string, i: nat): (t: Token)
    requires i < |src|
    ensures t.from == i < t.to && i < t.close <= |src|
  {
    if Pair(src, i, '/', '/') then var k := LineEnd(src, i + 2); Token(LineComment, i, k, k)
    else if Pair(src, i, '/', '*') then var k := BlockClose(src, i + 2); Token(BlockComment, i, k, k + 2)
    else if src[i] == '`' then var k := RawClose(src, i + 1); Token(Raw, i, k, k + 1)
    else if src[i] == '"' then var k := TextClose(src, i + 1); Token(Interpreted, i, k, k + 1)
    else if src[i] == '\'' then var k := RuneClose(src, i + 1); Token(Rune, i, k, k + 1)
    else Token(Code, i, i + 1, i + 1)
  }

  predicate IsString(t: Token) {
    t.kind == Raw || t.kind == Interpreted
  }

  function Min(a: nat, b: nat): nat { if a < b then a else b }

  // ---------------------------------------------------------------- string_literals

  /** A reported literal: its start line and what stands between its quotes. */
  datatype Literal = Literal(line: int, content: string)

  /** The newlines of src[a..b]. */
  function Newlines(src: string, a: nat, b: nat): int
    requires a <= |src| && b <= |src|
  {
    CountBefore(src, '\n', b) - CountBefore(src, '\n', a)
  }

  /** The newlines of a token that the running line number takes into account. */
  function Counted(src: string, t: Token): int
    requires t.from < |src| && t.close <= |src|
  {
    match t.kind
    case Code => if src[t.from] == '\n' then 1 else 0
    case BlockComment => Newlines(src, Min(t.from + 2, |src|), t.close)
    case Raw => Newlines(src, t.from + 1, t.close)
    case _ => 0
  }

  /** What the token at `i` adds to the report when the line number stands at `line`. */
  function Own(src: string, i: nat, line: int): seq<Literal>
    requires i < |src|
  {
    var t := TokenAt(src, i);
    if IsString(t) then [Literal(line, src[i + 1..t.close])] else []
  }

  /** What the lexer reports from offset `i` on when its line number stands at `line`. */
  function Literals(src: string, i: nat, line: int): seq<Literal>
    decreases |src| - i, 1
  {
    if i >= |src| then [] else Own(src, i, line) + After(src, i, line)
  }

  /** The same from behind the token at `i` on. */
  function After(src: string, i: nat, line: int): seq<Literal>
    requires i < |src|
    decreases |src| - i, 0
  {
    var t := TokenAt(src, i);
    Literals(src, t.to, line + Counted(src, t))
  }

  method RawString(src: string, i: nat, line: int) returns (j: nat, buf: string, after: int)
    requires i < |src|
    ensures j == RawClose(src, i + 1) && buf == src[i + 1..j] && after == line + Newlines(src, i + 1, j)
  {
    j, buf, after := i + 1, "", line;
    while j < |src| && src[j] != '`'
      invariant i + 1 <= j <= |src| && RawClose(src, j) == RawClose(src, i + 1)
      invariant buf == src[i + 1..j] && after == line + Newlines(src, i + 1, j)
    {
      if src[j] == '\n' {
        after := after + 1;
      }
      buf := buf + [src[j]];
      j := j + 1;
    }
  }

  method InterpretedString(src: string, i: nat) returns (j: nat, buf: string)
    requires i < |src|
    ensures j == TextClose(src, i + 1) && buf == src[i + 1..j]
  {
    j, buf := i + 1, "";
    while j < |src| && src[j] != '"'
      invariant i + 1 <= j <= |src| && TextClose(src, j) == TextClose(src, i + 1)
      invariant buf == src[i + 1..j]
    {
      if src[j] == '\\' && j + 1 < |src| {
        assert src[i + 1..j] + src[j..j + 2] == src[i + 1..j + 2];
        buf := buf + src[j..j + 2];
        j := j + 2;
        continue;
      }
      if src[j] == '\n' {
        break;
      }
      assert src[i + 1..j] + [src[j]] == src[i + 1..j + 1];
      buf := buf + [src[j]];
      j := j + 1;
    }
  }

  method RuneLiteral(src: string, i: nat) returns (j: nat)
    requires i < |src|
    ensures j == RuneClose(src, i + 1)
  {
    j := i + 1;
    while j < |src| && src[j] != '\''
      invariant i + 1 <= j <= |src| && RuneClose(src, j) == RuneClose(src, i + 1)
    {
      if src[j] == '\\' && j + 1 < |src| {
        j := j + 2;
        continue;
      }
      j := j + 1;
    }
  }

  method SkipBlock(src: string, i: nat, line: int) returns (j: nat, after: int)
    requires Pair(src, i, '/', '*')
    ensures j == BlockClose(src, i + 2) && after == line + Newlines(src, i + 2, j)
  {
    j, after := i + 2, line;
    while j + 1 < |src| && !(src[j] == '*' && src[j + 1] == '/')
      invariant i + 2 <= j <= |src| && BlockClose(src, j) == BlockClose(src, i + 2)
      invariant after == line + Newlines(src, i + 2, j)
    {
      if src[j] == '\n' {
        after := after + 1;
      }
      j := j + 1;
    }
  }

  method SkipLine(src: string, i: nat) returns (j: nat)
    requires i <= |src|
    ensures j == LineEnd(src, i)
  {
    j := i;
    while j < |src| && src[j] != '\n'
      invariant i <= j <= |src| && LineEnd(src, j) == LineEnd(src, i)
    {
      j := j + 1;
    }
  }

  /** One turn of the lexer's loop. */
  method ReadToken(src: string, i: nat, line: int) returns (own: seq<Literal>, j: nat, after: int)
    requires i < |src|
    ensures own == Own(src, i, line) && j == TokenAt(src, i).to && after == line + Counted(src, TokenAt(src, i))
  {
    own, j, after := [], i, line;
    var c := src[i];
    if c == '\n' {
      after := after + 1;
      j := j + 1;
    } else if Pair(src, i, '/', '/') {
      j := SkipLine(src, j + 2);
    } else if Pair(src, i, '/', '*') {
      j, after := SkipBlock(src, i, line);
      j := j + 2;
    } else if c == '`' {
      var buf;
      j, buf, after := RawString(src, i, line);
      own := [Literal(line, buf)];
      j := j + 1;
    } else if c == '"' {
      var buf;
      j, buf := InterpretedString(src, i);
      own := [Literal(line, buf)];
      j := j + 1;
    } else if c == '\'' {
      j := RuneLiteral(src, i);
      j := j + 1;
    } else {
      j := j + 1;
    }
  }

  lemma Reported(src: string, i: nat, line: int, out: seq<Literal>, all: seq<Literal>)
    requires i < |src| && out + Literals(src, i, line) == all
    ensures (out + Own(src, i, line)) + After(src, i, line) == all
  {
    Regroup(out, Own(src, i, line), After(src, i, line));
  }

  method StringLiterals(src: string) returns (out: seq<Literal>)
    ensures out == Literals(src, 0, 1)
  {
    out := [];
    var i, line := 0, 1;
    ghost var all := Literals(src, 0, 1);
    assert out + all == all;
    while i < |src|
      invariant out + Literals(src, i, line) == all
      decreases |src| - i
    {
      var own, j, after := ReadToken(src, i, line);
      Reported(src, i, line, out, all);
      out, i, line := out + own, j, after;
    }
    assert out + [] == out;
  }

  // ---------------------------------------------------------------- the reported lines

  /** Offsets of the opening quotes of the string literals from `i` on. */
  function Openings(src: string, i: nat): (r: seq<nat>)
    ensures forall m | 0 <= m < |r| :: i <= r[m] < |src|
    decreases |src| - i
  {
    if i >= |src| then []
    else
      var t := TokenAt(src, i);
      (if IsString(t) then [i] else []) + Openings(src, t.to)
  }

  /** No interpreted string or rune literal that starts in [i, k) holds a newline. */
  predicate Tidy(src: string, i: nat, k: nat)
    decreases |src| - i
  {
    i >= |src| || i >= k ||
    var t := TokenAt(src, i);
    (t.kind == Interpreted || t.kind == Rune ==> '\n' !in src[i..Min(t.to, |src|)]) && Tidy(src, t.to, k)
  }

  /** The newlines inside the interpreted strings and rune literals that start in [i, k). */
  function Swallowed(src: string, i: nat, k: nat): int
    decreases |src| - i
  {
    if i >= |src| || i >= k then 0
    else
      var t := TokenAt(src, i);
      (if t.kind == Interpreted || t.kind == Rune then Newlines(src, i, Min(t.to, |src|)) else 0)
      + Swallowed(src, t.to, k)
  }

  lemma {:induction false} NewlinesFound(src: string, a: nat, b: nat)
    requires a <= b <= |src|
    ensures Newlines(src, a, b) >= 0
    ensures Newlines(src, a, b) == 0 <==> '\n' !in src[a..b]
  {
    if a < b {
      NewlinesFound(src, a, b - 1);
      assert src[a..b] == src[a..b - 1] + [src[b - 1]];
    }
  }

  lemma {:induction false} SwallowedIffUntidy(src: string, i: nat, k: nat)
    ensures Swallowed(src, i, k) >= 0
    ensures Swallowed(src, i, k) == 0 <==> Tidy(src, i, k)
    decreases |src| - i
  {
    if i < |src| && i < k {
      var t := TokenAt(src, i);
      SwallowedIffUntidy(src, t.to, k);
      NewlinesFound(src, i, Min(t.to, |src|));
    }
  }

  /** A closed token hides no newline from the line number unless it is an interpreted string or a rune. */
  lemma TokenLines(src: string, i: nat)
    requires i < |src| && TokenAt(src, i).to <= |src|
    ensures var t := TokenAt(src, i);
      Newlines(src, i, t.to)
      == Counted(src, t) + if t.kind == Interpreted || t.kind == Rune then Newlines(src, i, t.to) else 0
  {
    var t := TokenAt(src, i);
    assert CountBefore(src, '\n', i + 1) == CountBefore(src, '\n', i) + if src[i] == '\n' then 1 else 0;
    match t.kind
    case LineComment => NewlinesFound(src, i, t.to);
    case BlockComment =>
      assert CountBefore(src, '\n', i + 2) == CountBefore(src, '\n', i + 1);
      assert CountBefore(src, '\n', t.close + 1) == CountBefore(src, '\n', t.close);
      assert CountBefore(src, '\n', t.close + 2) == CountBefore(src, '\n', t.close + 1);
    case Raw =>
      assert CountBefore(src, '\n', t.close + 1) == CountBefore(src, '\n', t.close);
    case _ =>
  }

  lemma {:induction false} LiteralsCount(src: string, i: nat, line: int)
    ensures |Literals(src, i, line)| == |Openings(src, i)|
    decreases |src| - i
  {
    if i < |src| {
      var t := TokenAt(src, i);
      LiteralsCount(src, t.to, line + Counted(src, t));
      assert |Literals(src, i, line)| == |Own(src, i, line)| + |After(src, i, line)|;
      assert |Openings(src, i)| == |Own(src, i, line)| + |Openings(src, t.to)|;
    }
  }

  lemma BehindOwn<T>(own: seq<T>, rest: seq<T>, m: nat)
    requires |own| <= m < |own + rest|
    ensures (own + rest)[m] == rest[m - |own|]
  {
  }

  /** Past its first token the report goes on as the report from there. */
  lemma NextLiteral(src: string, i: nat, line: int, m: nat)
    requires i < |src| && |Own(src, i, line)| <= m < |Literals(src, i, line)|
    ensures var k := m - |Own(src, i, line)|;
      k < |After(src, i, line)| && Literals(src, i, line)[m] == After(src, i, line)[k]
  {
    BehindOwn(Own(src, i, line), After(src, i, line), m);
  }

  lemma NextOpening(src: string, i: nat, own: nat, m: nat)
    requires i < |src| && own == (if IsString(TokenAt(src, i)) then 1 else 0) <= m < |Openings(src, i)|
    ensures var rest := Openings(src, TokenAt(src, i).to);
      m - own < |rest| && Openings(src, i)[m] == rest[m - own]
  {
    BehindOwn(if IsString(TokenAt(src, i)) then [i] else [], Openings(src, TokenAt(src, i).to), m);
  }

  /** The lines of one token, seen from a later opening quote. */
  lemma TokenSwallows(src: string, i: nat, open: nat)
    requires i < |src| && TokenAt(src, i).to <= open < |src|
    ensures var t := TokenAt(src, i);
      Newlines(src, i, open) - Swallowed(src, i, open)
      == Counted(src, t) + Newlines(src, t.to, open) - Swallowed(src, t.to, open)
  {
    TokenLines(src, i);
  }

  /**
   The start line of every literal is one plus the newlines before its opening quote, less those that
   earlier interpreted strings and rune literals swallowed.
   */
  lemma {:induction false} LineLaw(src: string, i: nat, line: int, m: nat)
    requires i < |src| && m < |Openings(src, i)| == |Literals(src, i, line)|
    ensures var open := Openings(src, i)[m];
      Literals(src, i, line)[m].line == line + Newlines(src, i, open) - Swallowed(src, i, open)
    decreases |src| - i
  {
    hide TokenAt, CountBefore, Counted;
    var t := TokenAt(src, i);
    if m > 0 || !IsString(t) {
      var k := if IsString(t) then m - 1 else m;
      LiteralsCount(src, t.to, line + Counted(src, t));
      NextLiteral(src, i, line, m);
      NextOpening(src, i, m - k, m);
      LineLaw(src, t.to, line + Counted(src, t), k);
      TokenSwallows(src, i, Openings(src, i)[m]);
    }
  }

  /** The reported line is the literal's line exactly when no earlier token swallowed a newline. */
  lemma LineIsRight(src: string, m: nat)
    requires m < |Openings(src, 0)|
    ensures |Literals(src, 0, 1)| == |Openings(src, 0)|
    ensures var open := Openings(src, 0)[m];
      Literals(src, 0, 1)[m].line == 1 + CountBefore(src, '\n', open) <==> Tidy(src, 0, open)
  {
    assert src != "";
    LiteralsCount(src, 0, 1);
    LineLaw(src, 0, 1, m);
    SwallowedIffUntidy(src, 0, Openings(src, 0)[m]);
  }

  /** Not every line is right: behind a rune literal broken over two lines the report is one too small. */
  lemma SwallowedExample() returns (src: string)
    ensures |src| == 5 && Openings(src, 0) == [3] && |Literals(src, 0, 1)| == 1
    ensures Literals(src, 0, 1)[0].line == 1 < 1 + CountBefore(src, '\n', 3)
  {
    src := "'\n'\"\"";
    assert RuneClose(src, 1) == RuneClose(src, 2) == 2;
    assert TokenAt(src, 0) == Token(Rune, 0, 2, 3);
    assert TextClose(src, 4) == 4;
    assert TokenAt(src, 3) == Token(Interpreted, 3, 4, 5);
    assert Openings(src, 5) == [] && Openings(src, 3) == [3];
    assert Openings(src, 0) == [3];
    LineIsRight(src, 0);
    LineLaw(src, 0, 1, 0);
    assert '\n' == src[0..3][1];
    assert CountBefore(src, '\n', 1) == 0 && CountBefore(src, '\n', 2) == 1 && CountBefore(src, '\n', 3) == 1;
  }

  // ---------------------------------------------------------------- printed sources

  function CountNewlines(s: string): nat {
    if s == "" then 0 else (if s[0] == '\n' then 1 else 0) + CountNewlines(s[1..])
  }

  /** The literals of a printed source that begins on the given line: what stands between the quotes, and where. */
  function LiteralsOf(ps: seq<P.Piece>, line: int): seq<Literal> {
    if ps == [] then []
    else
      OwnOf(ps[0], line) + LiteralsOf(ps[1..], line + CountNewlines(ps[0].Text()))
  }

  lemma {:induction false} NewlinesAre(src: string, i: nat, s: string)
    requires i + |s| <= |src| && src[i..i + |s|] == s
    ensures Newlines(src, i, i + |s|) == CountNewlines(s)
    decreases |s|
  {
    if s != "" {
      assert src[i] == src[i..i + |s|][0] == s[0];
      assert src[i + 1..i + 1 + |s[1..]|] == src[i..i + |s|][1..] == s[1..];
      NewlinesAre(src, i + 1, s[1..]);
    }
  }

  lemma {:induction false} NoNewlines(s: string)
    requires '\n' !in s
    ensures CountNewlines(s) == 0
  {
    if s != "" { NoNewlines(s[1..]); }
  }

  lemma {:induction false} NewlinesJoin(a: string, b: string)
    ensures CountNewlines(a + b) == CountNewlines(a) + CountNewlines(b)
  {
    if a == "" {
      assert a + b == b;
    } else {
      assert (a + b)[0] == a[0] && (a + b)[1..] == a[1..] + b;
      NewlinesJoin(a[1..], b);
    }
  }

  lemma {:induction false} TextEnds(src: string, j: nat, body: string, behind: string)
    requires From(src, j, body + ("\"" + behind)) && P.Closed('"', body) && '\n' !in body
    ensures TextClose(src, j) == j + |body|
    decreases |body|
  {
    FromHead(src, j, body + ("\"" + behind));
    if body != "" {
      var w := if body[0] == '\\' then 2 else 1;
      assert body == body[..w] + body[w..] && body[0] in body;
      Regroup(body[..w], body[w..], "\"" + behind);
      FromPart(src, j, body[..w], body[w..] + ("\"" + behind));
      TextEnds(src, j + w, body[w..], behind);
    }
  }

  lemma {:induction false} RuneEnds(src: string, j: nat, body: string, behind: string)
    requires From(src, j, body + ("'" + behind)) && P.Closed('\'', body)
    ensures RuneClose(src, j) == j + |body|
    decreases |body|
  {
    FromHead(src, j, body + ("'" + behind));
    if body != "" {
      var w := if body[0] == '\\' then 2 else 1;
      assert body == body[..w] + body[w..];
      Regroup(body[..w], body[w..], "'" + behind);
      FromPart(src, j, body[..w], body[w..] + ("'" + behind));
      RuneEnds(src, j + w, body[w..], behind);
    }
  }

  lemma {:induction false} RawEnds(src: string, j: nat, body: string, behind: string)
    requires From(src, j, body + ("`" + behind)) && '`' !in body
    ensures RawClose(src, j) == j + |body|
    decreases |body|
  {
    FromHead(src, j, body + ("`" + behind));
    if body != "" {
      assert body == body[..1] + body[1..] && body[0] in body;
      Regroup(body[..1], body[1..], "`" + behind);
      FromPart(src, j, body[..1], body[1..] + ("`" + behind));
      RawEnds(src, j + 1, body[1..], behind);
    }
  }

  lemma {:induction false} BlockEnds(src: string, j: nat, body: string, behind: string)
    requires From(src, j, body + ("*/" + behind)) && P.NoEnd(body)
    ensures BlockClose(src, j) == j + |body|
    decreases |body|
  {
    FromHead(src, j, body + ("*/" + behind));
    if body != "" {
      assert body == body[..1] + body[1..];
      Regroup(body[..1], body[1..], "*/" + behind);
      FromPart(src, j, body[..1], body[1..] + ("*/" + behind));
      BlockEnds(src, j + 1, body[1..], behind);
    }
  }

  lemma {:induction false} LineEnds(src: string, j: nat, body: string, behind: string)
    requires From(src, j, body + behind) && '\n' !in body && (behind == "" || behind[0] == '\n')
    ensures LineEnd(src, j) == j + |body|
    decreases |body|
  {
    if body == "" {
      assert body + behind == behind;
      if behind != "" { FromHead(src, j, behind); }
    } else {
      FromHead(src, j, body + behind);
      assert body == body[..1] + body[1..] && body[0] in body;
      Regroup(body[..1], body[1..], behind);
      FromPart(src, j, body[..1], body[1..] + behind);
      LineEnds(src, j + 1, body[1..], behind);
    }
  }

  /** The token that a piece other than plain code is. */
  function TokenOf(p: P.Piece, i: nat): Token
    requires !p.Plain?
  {
    var n := i + |p.Text()|;
    match p
    case Quoted(_) => Token(Interpreted, i, n - 1, n)
    case Rune(_) => Token(Kind.Rune, i, n - 1, n)
    case RawText(_) => Token(Raw, i, n - 1, n)
    case LineNote(_) => Token(LineComment, i, n, n)
    case BlockNote(_) => Token(BlockComment, i, n - 2, n)
  }

  /** Where the parts of a literal or comment stand. */
  lemma Wrapped(src: string, i: nat, open: string, body: string, close: string, behind: string)
    requires From(src, i, (open + body + close) + behind) && open != ""
    ensures i < |src| && src[i] == open[0] && (|open| > 1 ==> i + 1 < |src| && src[i + 1] == open[1])
    ensures From(src, i + |open|, body + (close + behind)) && src[i + |open|..i + |open| + |body|] == body
    ensures From(src, i + |open| + |body| + |close|, behind)
  {
    Regroup(open + body, close, behind);
    Regroup(open, body, close + behind);
    FromHead(src, i, open + (body + (close + behind)));
    FromPart(src, i, open, body + (close + behind));
    FromPart(src, i + |open|, body, close + behind);
    FromPart(src, i + |open| + |body|, close, behind);
  }

  /** The token at `i` is the piece. */
  ghost predicate IsToken(src: string, i: nat, p: P.Piece, behind: string)
    requires !p.Plain?
  {
    i < |src| && TokenAt(src, i) == TokenOf(p, i) && From(src, i + |p.Text()|, behind)
  }

  lemma QuotedToken(src: string, i: nat, body: string, behind: string)
    requires From(src, i, ("\"" + body + "\"") + behind) && P.Closed('"', body) && '\n' !in body
    ensures IsToken(src, i, P.Quoted(body), behind)
  {
    Wrapped(src, i, "\"", body, "\"", behind);
    TextEnds(src, i + 1, body, behind);
  }

  lemma RuneToken(src: string, i: nat, body: string, behind: string)
    requires From(src, i, ("'" + body + "'") + behind) && P.Closed('\'', body)
    ensures IsToken(src, i, P.Rune(body), behind)
  {
    Wrapped(src, i, "'", body, "'", behind);
    RuneEnds(src, i + 1, body, behind);
  }

  lemma RawToken(src: string, i: nat, body: string, behind: string)
    requires From(src, i, ("`" + body + "`") + behind) && '`' !in body
    ensures IsToken(src, i, P.RawText(body), behind)
  {
    Wrapped(src, i, "`", body, "`", behind);
    RawEnds(src, i + 1, body, behind);
  }

  lemma LineToken(src: string, i: nat, body: string, behind: string)
    requires From(src, i, ("//" + body) + behind) && '\n' !in body && (behind == "" || behind[0] == '\n')
    ensures IsToken(src, i, P.LineNote(body), behind)
  {
    Regroup("//", body, behind);
    FromHead(src, i, "//" + (body + behind));
    FromPart(src, i, "//", body + behind);
    FromPart(src, i + 2, body, behind);
    LineEnds(src, i + 2, body, behind);
  }

  lemma BlockToken(src: string, i: nat, body: string, behind: string)
    requires From(src, i, ("/*" + body + "*/") + behind) && P.NoEnd(body)
    ensures IsToken(src, i, P.BlockNote(body), behind)
  {
    Wrapped(src, i, "/*", body, "*/", behind);
    BlockEnds(src, i + 2, body, behind);
  }

  /** The token of the piece counts its newlines. */
  ghost predicate CountsAll(src: string, i: nat, p: P.Piece)
    requires !p.Plain? && i < |src|
  {
    TokenOf(p, i).close <= |src| && Counted(src, TokenOf(p, i)) == CountNewlines(p.Text())
  }

  lemma LineLikeCounts(src: string, i: nat, p: P.Piece)
    requires p.Quoted? || p.Rune? || p.LineNote?
    requires i + |p.Text()| <= |src| && '\n' !in p.body
    ensures CountsAll(src, i, p)
  {
    NoNewlines(p.body);
    match p
    case Quoted(body) => QuotesCount("\"", body, "\"");
    case Rune(body) => QuotesCount("'", body, "'");
    case LineNote(body) => NewlinesJoin("//", body); NoNewlines("//");
  }

  lemma RawCounts(src: string, i: nat, body: string)
    requires i + |body| + 2 <= |src| && src[i + 1..i + 1 + |body|] == body
    ensures CountsAll(src, i, P.RawText(body))
  {
    hide CountNewlines, CountBefore;
    QuotesCount("`", body, "`");
    NewlinesAre(src, i + 1, body);
  }

  lemma BlockCounts(src: string, i: nat, body: string)
    requires i + |body| + 4 <= |src| && src[i + 2..i + 2 + |body|] == body
    ensures CountsAll(src, i, P.BlockNote(body))
  {
    hide CountNewlines, CountBefore;
    QuotesCount("/*", body, "*/");
    NewlinesAre(src, i + 2, body);
  }

  lemma PieceToken(src: string, i: nat, p: P.Piece, behind: string)
    requires From(src, i, p.Text() + behind) && p.Fits(behind) && !p.Plain?
    ensures IsToken(src, i, p, behind)
  {
    match p
    case Quoted(body) => QuotedToken(src, i, body, behind);
    case Rune(body) => RuneToken(src, i, body, behind);
    case RawText(body) => RawToken(src, i, body, behind);
    case LineNote(body) => LineToken(src, i, body, behind);
    case BlockNote(body) => BlockToken(src, i, body, behind);
  }

  lemma PieceCounts(src: string, i: nat, p: P.Piece, behind: string)
    requires From(src, i, p.Text() + behind) && p.Fits(behind) && !p.Plain?
    ensures i < |src| && CountsAll(src, i, p)
    ensures p.Quoted? || p.RawText? ==> i + 1 + |p.body| <= |src| && src[i + 1..i + 1 + |p.body|] == p.body
  {
    FromPart(src, i, p.Text(), behind);
    match p
    case Quoted(body) => Wrapped(src, i, "\"", body, "\"", behind); LineLikeCounts(src, i, p);
    case RawText(body) => Wrapped(src, i, "`", body, "`", behind); RawCounts(src, i, body);
    case BlockNote(body) => Wrapped(src, i, "/*", body, "*/", behind); BlockCounts(src, i, body);
    case _ => LineLikeCounts(src, i, p);
  }

  lemma CodeToken(src: string, i: nat, code: string, behind: string)
    requires From(src, i, code + behind) && code != "" && P.IsCode(code, behind)
    ensures i < |src| && TokenAt(src, i) == Token(Code, i, i + 1, i + 1) && src[i] == code[0]
    ensures From(src, i + 1, code[1..] + behind) && P.IsCode(code[1..], behind)
  {
    FromHead(src, i, code + behind);
    assert (code + behind)[1..] == code[1..] + behind;
  }

  /** From `i`, on the given line, the lexer reports `own` and goes on at `j` on line `line'`. */
  ghost predicate Reports(src: string, i: nat, line: int, own: seq<Literal>, j: nat, line': int) {
    Literals(src, i, line) == own + Literals(src, j, line')
  }

  lemma {:induction false} CodeReport(src: string, i: nat, code: string, behind: string, line: int)
    requires From(src, i, code + behind) && P.IsCode(code, behind)
    ensures Reports(src, i, line, [], i + |code|, line + CountNewlines(code))
    decreases |code|
  {
    hide TokenAt, Literals, P.IsCode;
    if code == "" {
      NothingReported(src, i, line);
    } else {
      CodeToken(src, i, code, behind);
      var next := line + if code[0] == '\n' then 1 else 0;
      CodeReport(src, i + 1, code[1..], behind, next);
      CodeTurn(src, i, line, next);
    }
  }

  lemma NothingReported(src: string, i: nat, line: int)
    ensures Reports(src, i, line, [], i, line)
  {
    assert [] + Literals(src, i, line) == Literals(src, i, line);
  }

  lemma CodeTurn(src: string, i: nat, line: int, next: int)
    requires i < |src| && TokenAt(src, i) == Token(Code, i, i + 1, i + 1)
    requires next == line + if src[i] == '\n' then 1 else 0
    ensures Literals(src, i, line) == Literals(src, i + 1, next)
  {
    assert Own(src, i, line) == [];
  }

  lemma QuotesCount(open: string, body: string, close: string)
    requires '\n' !in open && '\n' !in close
    ensures CountNewlines(open + body + close) == CountNewlines(body)
  {
    NewlinesJoin(open, body);
    NewlinesJoin(open + body, close);
    NoNewlines(open);
    NoNewlines(close);
  }

  /** What a piece adds to the report. */
  function OwnOf(p: P.Piece, line: int): seq<Literal> {
    if p.Quoted? || p.RawText? then [Literal(line, p.body)] else []
  }

  lemma PieceReport(src: string, i: nat, p: P.Piece, behind: string, line: int)
    requires From(src, i, p.Text() + behind) && p.Fits(behind)
    ensures Reports(src, i, line, OwnOf(p, line), i + |p.Text()|, line + CountNewlines(p.Text()))
  {
    hide P.Piece.Text, P.Piece.Fits, P.IsCode, OwnOf, CountNewlines, CountsAll, TokenAt, Literals;
    if p.Plain? {
      PlainReport(src, i, p, behind, line);
    } else {
      PieceToken(src, i, p, behind);
      PieceCounts(src, i, p, behind);
      TokenReport(src, i, p, line);
    }
  }

  lemma PlainReport(src: string, i: nat, p: P.Piece, behind: string, line: int)
    requires From(src, i, p.Text() + behind) && p.Fits(behind) && p.Plain?
    ensures Reports(src, i, line, OwnOf(p, line), i + |p.Text()|, line + CountNewlines(p.Text()))
  {
    hide P.IsCode, CountNewlines, Literals;
    CodeReport(src, i, p.body, behind, line);
  }

  lemma TokenReport(src: string, i: nat, p: P.Piece, line: int)
    requires !p.Plain? && i < |src| && TokenAt(src, i) == TokenOf(p, i) && CountsAll(src, i, p)
    requires p.Quoted? || p.RawText? ==> i + 1 + |p.body| <= |src| && src[i + 1..i + 1 + |p.body|] == p.body
    ensures Reports(src, i, line, OwnOf(p, line), i + |p.Text()|, line + CountNewlines(p.Text()))
  {
    hide P.Piece.Text, Literals, OwnOf, TokenAt, CountNewlines;
    OwnIs(src, i, p, line);
    TurnReports(src, i, line, OwnOf(p, line), CountNewlines(p.Text()));
  }

  lemma OwnIs(src: string, i: nat, p: P.Piece, line: int)
    requires !p.Plain? && i < |src| && TokenAt(src, i) == TokenOf(p, i)
    requires p.Quoted? || p.RawText? ==> i + 1 + |p.body| <= |src| && src[i + 1..i + 1 + |p.body|] == p.body
    ensures Own(src, i, line) == OwnOf(p, line)
  {
    hide TokenAt, P.Piece.Text;
    TextLength(p);
  }

  lemma TextLength(p: P.Piece)
    ensures p.Quoted? || p.RawText? ==> |p.Text()| == |p.body| + 2
  {
  }

  lemma TurnReports(src: string, i: nat, line: int, own: seq<Literal>, counted: int)
    requires i < |src| && Own(src, i, line) == own && Counted(src, TokenAt(src, i)) == counted
    ensures Reports(src, i, line, own, TokenAt(src, i).to, line + counted)
  {
  }

  lemma EndReported(src: string, i: nat, line: int)
    requires From(src, i, "")
    ensures Literals(src, i, line) == []
  {
    assert |src[i..]| == |src| - i;
  }

  lemma {:induction false} ReportPrinted(src: string, i: nat, ps: seq<P.Piece>, line: int)
    requires From(src, i, P.Print(ps)) && P.WellFormed(ps)
    ensures Literals(src, i, line) == LiteralsOf(ps, line)
    decreases |ps|
  {
    hide P.Piece.Text, P.Piece.Fits, OwnOf, CountNewlines, Literals;
    if ps == [] {
      EndReported(src, i, line);
    } else {
      var p, behind := ps[0], P.Print(ps[1..]);
      FromPart(src, i, p.Text(), behind);
      PieceReport(src, i, p, behind, line);
      ReportPrinted(src, i + |p.Text()|, ps[1..], line + CountNewlines(p.Text()));
    }
  }

  /**
   For every printed source: the report is its interpreted and raw strings in order, each with what stands
   between its quotes and the line it begins on.
   */
  lemma LiteralsOfPrinted(ps: seq<P.Piece>)
    requires P.WellFormed(ps)
    ensures Literals(P.Print(ps), 0, 1) == LiteralsOf(ps, 1)
  {
    assert P.Print(ps)[0..] == P.Print(ps);
    ReportPrinted(P.Print(ps), 0, ps, 1);
  }
}
