/**
 The Go text helpers of scripts/check_image_tags.py: removing comments while copying literals,
 finding the literals of comment-free code, and testing an offset against them.
 */
module GoComments {
  import opened PyText
  import P = GoPieces

  /** `_skip_literal` from inside: the index behind a literal opened with `q`. */
  function LiteralFrom(text: string, q: char, j: nat): (e: nat)
    ensures e <= |text| && (j <= |text| ==> j <= e)
    decreases |text| - j
  {
    if j >= |text| then |text|
    else if q != '`' && text[j] == '\\' then LiteralFrom(text, q, j + 2)
    else if text[j] == q then j + 1
    else if q != '`' && text[j] == '\n' then j
    else LiteralFrom(text, q, j + 1)
  }

  /** Length of the literal that `text` starts with. */
  function LiteralLength(text: string): (e: nat)
    requires text != "" && IsQuote(text[0])
    ensures 1 <= e <= |text|
  {
    LiteralFrom(text, text[0], 1)
  }

  method SkipLiteral(text: string, i: nat) returns (j: nat)
    requires i < |text| && IsQuote(text[i])
    ensures j == i + LiteralLength(text[i..])
  {
    var q := text[i];
    ghost var t := text[i..];
    j := i + 1;
    while j < |text|
      invariant i < j && LiteralFrom(t, q, 1) == LiteralFrom(t, q, j - i)
      decreases |text| - j
    {
      assert text[j] == t[j - i];
      if q != '`' && text[j] == '\\' {
        j := j + 2;
      } else if text[j] == q {
        return j + 1;
      } else if q != '`' && text[j] == '\n' {
        return j;
      } else {
        j := j + 1;
      }
    }
    return |text|;
  }

  predicate LineComment(text: string) { |text| >= 2 && text[0] == '/' && text[1] == '/' }
  predicate BlockComment(text: string) { |text| >= 2 && text[0] == '/' && text[1] == '*' }

  // Where the closing star-slash is found from `from` on, or the length when there is none.
  function FindClose(text: string, from: nat): (k: nat)
    ensures from <= |text| ==> from <= k <= |text|
    ensures k + 1 < |text| ==> text[k] == '*' && text[k + 1] == '/'
    decreases |text| - from
  {
    if from + 1 >= |text| then |text|
    else if text[from] == '*' && text[from + 1] == '/' then from
    else FindClose(text, from + 1)
  }

  /** Length of the block comment that `text` starts with. */
  function BlockLength(text: string): (e: nat)
    requires BlockComment(text)
    ensures 2 <= e <= |text|
  {
    var k := FindClose(text, 2);
    if k + 1 < |text| then k + 2 else |text|
  }

  /** How many characters one turn of `strip_go_comments` moves past. */
  function Taken(text: string): (n: nat)
    requires text != ""
    ensures 1 <= n <= |text|
  {
    if IsQuote(text[0]) then LiteralLength(text)
    else if LineComment(text) then IndexOf(text, '\n')
    else if BlockComment(text) then BlockLength(text)
    else 1
  }

  /** What that turn copies. */
  function Emitted(text: string): string
    requires text != ""
  {
    if LineComment(text) then "" else if BlockComment(text) then " " else text[..Taken(text)]
  }

  /** `strip_go_comments`. */
  function Uncomment(text: string): string
    decreases |text|
  {
    if text == "" then "" else Emitted(text) + Uncomment(text[Taken(text)..])
  }

  method Turn(text: string, i: nat) returns (j: nat, copied: string)
    requires i < |text|
    ensures j == i + Taken(text[i..]) && copied == Emitted(text[i..])
  {
    var c := text[i];
    if IsQuote(c) {
      j := SkipLiteral(text, i);
      copied := text[i..j];
    } else if c == '/' && i + 1 < |text| && text[i + 1] == '/' {
      j := i + IndexOf(text[i..], '\n');
      copied := "";
    } else if c == '/' && i + 1 < |text| && text[i + 1] == '*' {
      j := i + BlockLength(text[i..]);
      copied := " ";
    } else {
      j := i + 1;
      copied := [c];
    }
  }

  lemma StripMore(total: string, out: string, text: string)
    requires text != "" && total == out + Uncomment(text)
    ensures total == (out + Emitted(text)) + Uncomment(text[Taken(text)..])
  {
  }

  method StripGoComments(text: string) returns (out: string)
    ensures out == Uncomment(text)
  {
    out := "";
    var i := 0;
    assert text[0..] == text;
    ghost var total := Uncomment(text);
    while i < |text|
      invariant i <= |text| && total == out + Uncomment(text[i..])
    {
      var j, copied := Turn(text, i);
      StripMore(total, out, text[i..]);
      assert text[i..][j - i..] == text[j..];
      out := out + copied;
      i := j;
    }
  }

  /** The literals `strip_go_comments` copies, in order. */
  function Copied(text: string): seq<string>
    decreases |text|
  {
    if text == "" then []
    else if IsQuote(text[0]) then [text[..Taken(text)]] + Copied(text[Taken(text)..])
    else Copied(text[Taken(text)..])
  }

  // ---------------------------------------------------------------- literal_spans

  /** How far one turn of `literal_spans` moves. */
  function Step(code: string): (n: nat)
    requires code != ""
    ensures 1 <= n <= |code|
  {
    if IsQuote(code[0]) then LiteralLength(code) else 1
  }

  /** `literal_spans`, for code that starts at offset `at`. */
  function Spans(code: string, at: nat): seq<(nat, nat)>
    decreases |code|
  {
    if code == "" then []
    else if IsQuote(code[0]) then [(at, at + Step(code))] + Spans(code[Step(code)..], at + Step(code))
    else Spans(code[1..], at + 1)
  }

  method LiteralSpans(code: string) returns (spans: seq<(nat, nat)>)
    ensures spans == Spans(code, 0)
  {
    spans := [];
    var i := 0;
    assert code[0..] == code;
    while i < |code|
      invariant i <= |code| && Spans(code, 0) == spans + Spans(code[i..], i)
    {
      ghost var t := code[i..];
      if IsQuote(code[i]) {
        var j := SkipLiteral(code, i);
        spans := spans + [(i, j)];
        assert code[j..] == t[j - i..];
        i := j;
      } else {
        assert code[i + 1..] == t[1..];
        i := i + 1;
      }
    }
  }

  /** The spans are non-empty, ascending and disjoint, inside `[lo, hi)`. */
  ghost predicate Ordered(spans: seq<(nat, nat)>, lo: nat, hi: nat) {
    && (forall k | 0 <= k < |spans| :: lo <= spans[k].0 < spans[k].1 <= hi)
    && (forall j, k | 0 <= j < k < |spans| :: spans[j].1 <= spans[k].0)
  }

  lemma {:induction false} SpansOrdered(code: string, at: nat)
    ensures Ordered(Spans(code, at), at, at + |code|)
    decreases |code|
  {
    if code != "" {
      SpansOrdered(code[Step(code)..], at + Step(code));
    }
  }

  ghost predicate Covered(idx: nat, spans: seq<(nat, nat)>) {
    exists k | 0 <= k < |spans| :: spans[k].0 <= idx < spans[k].1
  }

  /** `in_spans`: the bisection is the membership test. */
  method InSpans(idx: nat, spans: seq<(nat, nat)>) returns (res: bool)
    requires exists lo, hi :: Ordered(spans, lo, hi)
    ensures res <==> Covered(idx, spans)
  {
    var lo, hi := 0, |spans|;
    while lo < hi
      invariant 0 <= lo <= hi <= |spans|
      invariant forall k | 0 <= k < lo :: spans[k].1 <= idx
      invariant forall k | hi <= k < |spans| :: idx < spans[k].0
    {
      var mid := (lo + hi) / 2;
      if idx < spans[mid].0 {
        hi := mid;
      } else if idx >= spans[mid].1 {
        lo := mid + 1;
      } else {
        return true;
      }
    }
    return false;
  }

  // ---------------------------------------------------------------- what stripping keeps

  /** A literal ends where it ended before, if what follows still starts with its line feed or is still nothing. */
  lemma {:induction false} LiteralStable(text: string, rest: string, q: char, j: nat, e: nat)
    requires 1 <= j && e == LiteralFrom(text, q, j)
    requires (e == |text| ==> rest == "") && (e < |text| && text[e] == '\n' ==> rest != "" && rest[0] == '\n')
    ensures LiteralFrom(text[..e] + rest, q, j) == e
    decreases |text| - j
  {
    var t := text[..e] + rest;
    if e == |text| {
      assert t == text;
    } else {
      assert forall k | 0 <= k < e :: t[k] == text[k];
      assert text[e] == '\n' ==> t[e] == '\n';
      if q != '`' && text[j] == '\\' {
        LiteralStable(text, rest, q, j + 2, e);
      } else if text[j] != q && !(q != '`' && text[j] == '\n') {
        LiteralStable(text, rest, q, j + 1, e);
      }
    }
  }

  /** The first character of stripped text is the first character of the text, unless a comment stood there. */
  lemma StripHead(text: string)
    requires text != "" && !LineComment(text) && !BlockComment(text)
    ensures Uncomment(text) != "" && Uncomment(text)[0] == text[0]
  {
  }

  /** A turn that copies something is taken again, with the same copy, on the output. */
  lemma TurnKept(text: string)
    requires text != "" && Emitted(text) != ""
    ensures var out, e := Uncomment(text), |Emitted(text)|;
            && out != "" && !LineComment(out) && !BlockComment(out)
            && Taken(out) == Step(out) == e && out[..e] == Emitted(out) == Emitted(text)
            && out[e..] == Uncomment(text[Taken(text)..]) && (IsQuote(out[0]) <==> IsQuote(text[0]))
  {
    var e := Taken(text);
    if IsQuote(text[0]) {
      if e < |text| && text[e] == '\n' { StripHead(text[e..]); }
      LiteralStable(text, Uncomment(text[e..]), text[0], 1, e);
    } else if !BlockComment(text) && |text| > 1 && text[0] == '/' {
      StripHead(text[1..]);
    }
  }

  /** The spans, which count from offset `at`, read exactly the given texts in `code`. */
  predicate Read(code: string, at: nat, spans: seq<(nat, nat)>, texts: seq<string>)
    decreases |spans|
  {
    if spans == [] then texts == []
    else
      && texts != [] && at <= spans[0].0 <= spans[0].1 <= at + |code|
      && code[spans[0].0 - at..spans[0].1 - at] == texts[0]
      && Read(code, at, spans[1..], texts[1..])
  }

  lemma {:induction false} ReadFurther(code: string, at: nat, e: nat, spans: seq<(nat, nat)>, texts: seq<string>)
    requires e <= |code| && Read(code[e..], at + e, spans, texts)
    ensures Read(code, at, spans, texts)
    decreases |spans|
  {
    if spans != [] {
      var s := spans[0];
      assert code[s.0 - at..s.1 - at] == code[e..][s.0 - at - e..s.1 - at - e];
      ReadFurther(code, at, e, spans[1..], texts[1..]);
    }
  }

  /** The texts of the literals `literal_spans` finds. */
  function Found(code: string): seq<string>
    decreases |code|
  {
    if code == "" then []
    else if IsQuote(code[0]) then [code[..Step(code)]] + Found(code[Step(code)..])
    else Found(code[1..])
  }

  lemma {:induction false} SpansReadFound(code: string, at: nat)
    ensures Read(code, at, Spans(code, at), Found(code))
    decreases |code|
  {
    if code != "" {
      var e := Step(code);
      var rest := Spans(code[e..], at + e);
      SpansReadFound(code[e..], at + e);
      ReadFurther(code, at, e, rest, Found(code[e..]));
      if IsQuote(code[0]) {
        assert ([(at, at + e)] + rest)[1..] == rest;
        assert ([code[..e]] + Found(code[e..]))[1..] == Found(code[e..]);
      }
    }
  }

  lemma {:induction false} FoundIsCopied(text: string)
    ensures Found(Uncomment(text)) == Copied(text)
    decreases |text|
  {
    if text != "" {
      FoundIsCopied(text[Taken(text)..]);
      if Emitted(text) != "" {
        TurnKept(text);
      } else {
        assert Uncomment(text) == Uncomment(text[Taken(text)..]);
      }
    }
  }

  /** The literals `literal_spans` finds in stripped text are those the stripper copied, verbatim and in order. */
  lemma SpansOfStripped(text: string)
    ensures Ordered(Spans(Uncomment(text), 0), 0, |Uncomment(text)|)
    ensures Read(Uncomment(text), 0, Spans(Uncomment(text), 0), Copied(text))
  {
    SpansOrdered(Uncomment(text), 0);
    SpansReadFound(Uncomment(text), 0);
    FoundIsCopied(text);
  }

  /** No turn of `literal_spans` starts at a comment opener. */
  predicate Clean(code: string)
    decreases |code|
  {
    code == "" || (!LineComment(code) && !BlockComment(code) && Clean(code[Step(code)..]))
  }

  lemma {:induction false} StripClean(text: string)
    ensures Clean(Uncomment(text))
    decreases |text|
  {
    if text != "" {
      StripClean(text[Taken(text)..]);
      if Emitted(text) != "" {
        TurnKept(text);
      } else {
        assert Uncomment(text) == Uncomment(text[Taken(text)..]);
      }
    }
  }

  lemma {:induction false} CleanUnchanged(code: string)
    requires Clean(code)
    ensures Uncomment(code) == code
    decreases |code|
  {
    if code != "" {
      CleanUnchanged(code[Step(code)..]);
      assert code == code[..Step(code)] + code[Step(code)..];
    }
  }

  /** Running the stripper twice is the same as running it once, for every text. */
  lemma StripIdempotent(text: string)
    ensures Uncomment(Uncomment(text)) == Uncomment(text)
  {
    StripClean(text);
    CleanUnchanged(Uncomment(text));
  }

  lemma {:induction false} CleanCovers(code: string, at: nat, p: nat)
    requires Clean(code) && p < |code| && (LineComment(code[p..]) || BlockComment(code[p..]))
    ensures Covered(at + p, Spans(code, at))
    decreases |code|
  {
    var e := Step(code);
    if p < e {
      InsideFirst(code, at, p);
    } else {
      assert code[p..] == code[e..][p - e..];
      CleanCovers(code[e..], at + e, p - e);
      CoveredFurther(code, at, at + p);
    }
  }

  /** What a later literal covers. */
  lemma CoveredFurther(code: string, at: nat, idx: nat)
    requires code != "" && Covered(idx, Spans(code[Step(code)..], at + Step(code)))
    ensures Covered(idx, Spans(code, at))
  {
    var e := Step(code);
    if IsQuote(code[0]) { CoveredMore(idx, (at, at + e), Spans(code[e..], at + e)); }
  }

  lemma InsideFirst(out: string, at: nat, p: nat)
    requires out != "" && !LineComment(out) && !BlockComment(out) && p < Step(out)
    requires LineComment(out[p..]) || BlockComment(out[p..])
    ensures Covered(at + p, Spans(out, at))
  {
    assert out[0..] == out;
    assert IsQuote(out[0]);
    assert Spans(out, at)[0] == (at, at + Step(out));
  }

  lemma CoveredMore(p: nat, first: (nat, nat), spans: seq<(nat, nat)>)
    requires Covered(p, spans)
    ensures Covered(p, [first] + spans)
  {
    var k :| 0 <= k < |spans| && spans[k].0 <= p < spans[k].1;
    assert ([first] + spans)[k + 1] == spans[k];
  }

  /** Stripped text has no comment opener outside the spans of its literals. */
  lemma NoOpenerLeft(text: string, p: nat)
    requires p < |Uncomment(text)| && (LineComment(Uncomment(text)[p..]) || BlockComment(Uncomment(text)[p..]))
    ensures Covered(p, Spans(Uncomment(text), 0))
  {
    StripClean(text);
    CleanCovers(Uncomment(text), 0, p);
  }

  // ---------------------------------------------------------------- printed sources

  /** What is left of a piece without its comments: a block comment leaves a space. */
  function Uncommented(p: P.Piece): string {
    match p
    case LineNote(_) => ""
    case BlockNote(_) => " "
    case _ => p.Text()
  }

  function PrintUncommented(ps: seq<P.Piece>): string {
    if ps == [] then "" else Uncommented(ps[0]) + PrintUncommented(ps[1..])
  }

  /** Inside a quoted literal, `done` characters after its quote, with `body` to come. */
  lemma {:induction false} QuotedLength(text: string, q: char, j: nat, body: string, behind: string)
    requires j <= |text| && text[j..] == body + [q] + behind && (q == '"' || q == '\'')
    requires P.Closed(q, body) && '\n' !in body
    ensures LiteralFrom(text, q, j) == j + |body| + 1
    decreases |body|
  {
    assert text[j] == (body + [q] + behind)[0];
    if body != "" {
      assert body[0] in body;
      var w := if body[0] == '\\' then 2 else 1;
      assert text[j + w..] == text[j..][w..] == body[w..] + [q] + behind;
      assert forall c | c in body[w..] :: c in body;
      QuotedLength(text, q, j + w, body[w..], behind);
    }
  }

  lemma {:induction false} RawLength(text: string, j: nat, body: string, behind: string)
    requires j <= |text| && text[j..] == body + "`" + behind && '`' !in body
    ensures LiteralFrom(text, '`', j) == j + |body| + 1
    decreases |body|
  {
    assert text[j] == (body + "`" + behind)[0];
    if body != "" {
      assert body[0] in body;
      assert text[j + 1..] == text[j..][1..] == body[1..] + "`" + behind;
      RawLength(text, j + 1, body[1..], behind);
    }
  }

  lemma {:induction false} BlockEnds(text: string, j: nat, body: string, behind: string)
    requires j <= |text| && text[j..] == body + "*/" + behind && P.NoEnd(body)
    ensures FindClose(text, j) == j + |body|
    decreases |body|
  {
    assert text[j] == (body + "*/" + behind)[0] && text[j + 1] == (body + "*/" + behind)[1];
    if body != "" {
      assert text[j + 1..] == text[j..][1..] == body[1..] + "*/" + behind;
      BlockEnds(text, j + 1, body[1..], behind);
    }
  }

  /** A literal is one turn, and is copied. */
  lemma LiteralTurn(q: char, body: string, behind: string)
    requires if q == '`' then '`' !in body else (q == '"' || q == '\'') && P.Closed(q, body) && '\n' !in body
    ensures Uncomment([q] + body + [q] + behind) == [q] + body + [q] + Uncomment(behind)
  {
    var lit := [q] + body + [q];
    var text := lit + behind;
    assert text[1..] == body + [q] + behind;
    if q == '`' {
      RawLength(text, 1, body, behind);
    } else {
      QuotedLength(text, q, 1, body, behind);
    }
    assert text[..|lit|] == lit && text[|lit|..] == behind;
  }

  lemma {:induction false} CodeTurns(code: string, behind: string)
    requires P.IsCode(code, behind)
    ensures Uncomment(code + behind) == code + Uncomment(behind)
    decreases |code|
  {
    var text := code + behind;
    if code == "" {
      assert text == behind;
    } else {
      assert text[..1] == [code[0]] && text[1..] == code[1..] + behind;
      CodeTurns(code[1..], behind);
      Regroup([code[0]], code[1..], Uncomment(behind));
      assert code == [code[0]] + code[1..];
    }
  }

  lemma LineTurn(body: string, behind: string)
    requires '\n' !in body && (behind == "" || behind[0] == '\n')
    ensures Uncomment("//" + body + behind) == Uncomment(behind)
  {
    var text := "//" + body + behind;
    var n := 2 + |body|;
    FreeAt(body, '\n');
    assert text[n..] == behind && forall k | 2 <= k < n :: text[k] == body[k - 2];
    IndexOfUnique(text, '\n', n);
    assert "" + Uncomment(behind) == Uncomment(behind);
  }

  lemma BlockTurn(body: string, behind: string)
    requires P.NoEnd(body)
    ensures Uncomment("/*" + body + "*/" + behind) == " " + Uncomment(behind)
  {
    hide P.NoEnd, FindClose, Uncomment;
    var text := "/*" + body + "*/" + behind;
    assert text[2..] == body + "*/" + behind;
    BlockEnds(text, 2, body, behind);
    assert text[|body| + 4..] == behind;
    BlockDropped(text, |body| + 2);
  }

  lemma BlockDropped(text: string, k: nat)
    requires |text| > 1 && text[0] == '/' && text[1] == '*' && FindClose(text, 2) == k && k + 2 <= |text|
    ensures Uncomment(text) == " " + Uncomment(text[k + 2..])
  {
    hide Uncomment, FindClose;
    TurnIs(text);
    assert Taken(text) == k + 2;
  }

  lemma TurnIs(text: string)
    requires text != ""
    ensures Uncomment(text) == Emitted(text) + Uncomment(text[Taken(text)..])
  {
    hide Emitted, Taken;
  }

  lemma PieceTurn(p: P.Piece, behind: string)
    requires p.Fits(behind)
    ensures Uncomment(p.Text() + behind) == Uncommented(p) + Uncomment(behind)
  {
    match p
    case Plain(code) => CodeTurns(code, behind);
    case Quoted(body) => LiteralTurn('"', body, behind);
    case Rune(body) => LiteralTurn('\'', body, behind);
    case RawText(body) => LiteralTurn('`', body, behind);
    case LineNote(body) => LineTurn(body, behind);
    case BlockNote(body) => BlockTurn(body, behind);
  }

  /**
   For every printed source: code, line feeds and literals are kept as they are, a line comment leaves nothing,
   a block comment a space.
   */
  lemma {:induction false} UncommentPrinted(ps: seq<P.Piece>)
    requires P.WellFormed(ps)
    ensures Uncomment(P.Print(ps)) == PrintUncommented(ps)
  {
    hide P.Piece.Text, P.Piece.Fits;
    if ps != [] {
      PieceTurn(ps[0], P.Print(ps[1..]));
      UncommentPrinted(ps[1..]);
    }
  }

  /** Where the literals of a printed source stand that begins at offset `at`. */
  function LiteralsOf(ps: seq<P.Piece>, at: nat): seq<(nat, nat)> {
    if ps == [] then []
    else
      var e := at + |ps[0].Text()|;
      (if ps[0].Quoted? || ps[0].Rune? || ps[0].RawText? then [(at, e)] else []) + LiteralsOf(ps[1..], e)
  }

  lemma LiteralSpan(q: char, body: string, behind: string, at: nat)
    requires if q == '`' then '`' !in body else (q == '"' || q == '\'') && P.Closed(q, body) && '\n' !in body
    ensures var lit := [q] + body + [q];
      Spans(lit + behind, at) == [(at, at + |lit|)] + Spans(behind, at + |lit|)
  {
    var lit := [q] + body + [q];
    var text := lit + behind;
    assert text[1..] == body + [q] + behind;
    if q == '`' {
      RawLength(text, 1, body, behind);
    } else {
      QuotedLength(text, q, 1, body, behind);
    }
    assert text[|lit|..] == behind;
  }

  lemma {:induction false} CodeSpans(code: string, behind: string, at: nat)
    requires P.IsCode(code, behind)
    ensures Spans(code + behind, at) == Spans(behind, at + |code|)
    decreases |code|
  {
    if code == "" {
      assert code + behind == behind;
    } else {
      assert (code + behind)[0] == code[0] && (code + behind)[1..] == code[1..] + behind;
      CodeSpans(code[1..], behind, at + 1);
    }
  }

  /** For every printed source without comments: the spans are those of its literals. */
  lemma {:induction false} SpansOfPrinted(ps: seq<P.Piece>, at: nat)
    requires P.WellFormed(ps) && forall p | p in ps :: !p.LineNote? && !p.BlockNote?
    ensures Spans(P.Print(ps), at) == LiteralsOf(ps, at)
  {
    hide P.Piece.Text, P.Piece.Fits, Spans;
    if ps == [] {
      NoSpans(at);
    } else {
      assert ps[0] in ps;
      PieceSpans(ps[0], P.Print(ps[1..]), at);
      SpansOfPrinted(ps[1..], at + |ps[0].Text()|);
    }
  }

  lemma NoSpans(at: nat)
    ensures Spans("", at) == []
  {
  }

  lemma PieceSpans(p: P.Piece, behind: string, at: nat)
    requires p.Fits(behind) && !p.LineNote? && !p.BlockNote?
    ensures var e := at + |p.Text()|;
      Spans(p.Text() + behind, at) == (if p.Plain? then [] else [(at, e)]) + Spans(behind, e)
  {
    hide Spans, P.IsCode, P.Closed;
    match p
    case Plain(code) => CodeSpans(code, behind, at);
    case Quoted(body) => LiteralSpan('"', body, behind, at);
    case Rune(body) => LiteralSpan('\'', body, behind, at);
    case RawText(body) => LiteralSpan('`', body, behind, at);
  }
}
