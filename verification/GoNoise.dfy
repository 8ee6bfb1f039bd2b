/** `strip_go_code_noise` of scripts/check_module_isolation.py, and how it relates to `string_literals`. */
module GoNoise {
  import opened PyText
  import opened GoLiterals
  import P = GoPieces

  /** Where the scan of a quoted text stops: at its quote, or, for `"`, at the line's end. */
  function NoiseClose(src: string, j: nat, quote: char): (k: nat)
    requires j <= |src|
    ensures j <= k <= |src|
    decreases |src| - j
  {
    if j == |src| || src[j] == quote then j
    else if quote == '"' && src[j] == '\\' && j + 1 < |src| && src[j + 1] != '\n' then NoiseClose(src, j + 2, quote)
    else if quote == '"' && src[j] == '\n' then j
    else NoiseClose(src, j + 1, quote)
  }

  predicate Noisy(src: string, i: nat)
    requires i < |src|
  {
    Pair(src, i, '/', '/') || Pair(src, i, '/', '*') || src[i] == '`' || src[i] == '"'
  }

  /** The end of what one turn consumes at `i`. */
  function NoiseEnd(src: string, i: nat): (j: nat)
    requires i < |src|
    ensures i < j <= |src|
  {
    if Pair(src, i, '/', '/') then LineEnd(src, i + 2)
    else if Pair(src, i, '/', '*') then Min(BlockClose(src, i + 2) + 2, |src|)
    else if src[i] == '`' || src[i] == '"' then
      var k := NoiseClose(src, i + 1, src[i]);
      if k < |src| && src[k] == src[i] then k + 1 else k
    else i + 1
  }

  /** What the turn at `i` appends. */
  function Out(src: string, i: nat): string
    requires i < |src|
  {
    if Noisy(src, i) then Blank(src[i..NoiseEnd(src, i)]) else [src[i]]
  }

  /** The result for the text from `i` on. */
  function Noise(src: string, i: nat): string
    requires i <= |src|
    decreases |src| - i
  {
    if i == |src| then "" else Out(src, i) + Noise(src, NoiseEnd(src, i))
  }

  method ScanQuoted(src: string, i: nat) returns (j: nat)
    requires i < |src| && (src[i] == '`' || src[i] == '"')
    requires !Pair(src, i, '/', '/') && !Pair(src, i, '/', '*')
    ensures j == NoiseEnd(src, i)
  {
    var quote := src[i];
    j := i + 1;
    while j < |src| && src[j] != quote
      invariant i + 1 <= j <= |src| && NoiseClose(src, j, quote) == NoiseClose(src, i + 1, quote)
    {
      if quote == '"' && src[j] == '\\' && j + 1 < |src| && src[j + 1] != '\n' {
        j := j + 2;
        continue;
      }
      if quote == '"' && src[j] == '\n' {
        break;
      }
      j := j + 1;
    }
    if j < |src| && src[j] == quote {
      j := j + 1;
    }
  }

  /** One turn of the loop. */
  method Turn(src: string, i: nat) returns (own: string, j: nat)
    requires i < |src|
    ensures own == Out(src, i) && j == NoiseEnd(src, i)
  {
    if Pair(src, i, '/', '/') {
      j := SkipLine(src, i + 2);
      own := Blank(src[i..j]);
    } else if Pair(src, i, '/', '*') {
      var k, _ := SkipBlock(src, i, 0);
      j := if k + 1 < |src| then k + 2 else |src|;
      own := Blank(src[i..j]);
    } else if src[i] == '`' || src[i] == '"' {
      j := ScanQuoted(src, i);
      own := Blank(src[i..j]);
    } else {
      own, j := [src[i]], i + 1;
    }
  }

  /** The loop; `raised` is the final check's exception, which never comes. */
  method StripGoCodeNoise(src: string) returns (res: string, raised: bool)
    ensures res == Noise(src, 0) && !raised
  {
    res := "";
    var i := 0;
    while i < |src|
      invariant i <= |src| && res + Noise(src, i) == Noise(src, 0)
    {
      var own, j := Turn(src, i);
      Regroup(res, own, Noise(src, j));
      res := res + own;
      i := j;
    }
    assert res + "" == res;
    NoiseKeepsLines(src, |src|);
    raised := |res| != |src| || CountBefore(res, '\n', |res|) != CountBefore(src, '\n', |src|);
  }

  // ---------------------------------------------------------------- positions and lines are kept

  /** `w` stands in the place of the source from `i` on and keeps or blanks each of its characters. */
  ghost predicate Kept(src: string, i: nat, w: string) {
    i + |w| <= |src| && forall x | 0 <= x < |w| :: KeptOrBlank(src[i + x], w[x])
  }

  lemma KeptJoin(src: string, i: nat, a: string, b: string)
    requires Kept(src, i, a) && Kept(src, i + |a|, b)
    ensures Kept(src, i, a + b)
  {
    forall x | 0 <= x < |a + b| ensures KeptOrBlank(src[i + x], (a + b)[x]) {
      assert (a + b)[x] == if x < |a| then a[x] else b[x - |a|];
    }
  }

  lemma OutKept(src: string, i: nat)
    requires i < |src|
    ensures |Out(src, i)| == NoiseEnd(src, i) - i && Kept(src, i, Out(src, i))
  {
    var out, j := Out(src, i), NoiseEnd(src, i);
    forall x | 0 <= x < |out| ensures KeptOrBlank(src[i + x], out[x]) {
      if Noisy(src, i) { BlankAt(src[i..j], x); }
    }
  }

  lemma {:induction false} NoiseKept(src: string, i: nat)
    requires i <= |src|
    ensures |Noise(src, i)| == |src| - i && Kept(src, i, Noise(src, i))
    decreases |src| - i
  {
    if i < |src| {
      OutKept(src, i);
      NoiseKept(src, NoiseEnd(src, i));
      KeptJoin(src, i, Out(src, i), Noise(src, NoiseEnd(src, i)));
    }
  }

  /** Every character stays, or is not a newline and becomes a space. */
  lemma KeepOrBlank(src: string, k: nat)
    requires k < |src|
    ensures |Noise(src, 0)| == |src| && KeptOrBlank(src[k], Noise(src, 0)[k])
  {
    NoiseKept(src, 0);
    assert src[0 + k] == src[k];
  }

  /** Any line counted from the result is the line counted from the source. */
  lemma {:induction false} NoiseKeepsLines(src: string, k: nat)
    requires k <= |src|
    ensures |Noise(src, 0)| == |src|
    ensures CountBefore(Noise(src, 0), '\n', k) == CountBefore(src, '\n', k)
  {
    NoiseKept(src, 0);
    if k > 0 {
      NoiseKeepsLines(src, k - 1);
      KeepOrBlank(src, k - 1);
    }
  }

  // ---------------------------------------------------------------- the inverse of string_literals

  predicate IsCode(t: Token) {
    t.kind == Code || t.kind == Rune
  }

  /** The source with every comment and every string literal of the other lexer blanked; runes are code. */
  function Blanked(src: string, i: nat): string
    requires i <= |src|
    decreases |src| - i
  {
    if i == |src| then ""
    else
      var t := TokenAt(src, i);
      var j := Min(t.to, |src|);
      (if IsCode(t) then src[i..j] else Blank(src[i..j])) + Blanked(src, j)
  }

  /** No interpreted string runs over a line break: none has a backslash before one. */
  predicate Unbroken(src: string, i: nat)
    decreases |src| - i
  {
    i >= |src| ||
    var t := TokenAt(src, i);
    (t.kind == Interpreted ==> '\n' !in src[i..t.close]) && Unbroken(src, t.to)
  }

  /** Nothing that the noise lexer reacts to stands in src[i..j]. */
  predicate Quiet(src: string, i: nat, j: nat)
    requires j <= |src|
    decreases j - i
  {
    i >= j || (!Noisy(src, i) && Quiet(src, i + 1, j))
  }

  /** No rune literal holds a quote, a backtick or a comment opener. */
  predicate QuietRunes(src: string, i: nat)
    decreases |src| - i
  {
    i >= |src| ||
    var t := TokenAt(src, i);
    (t.kind == Rune ==> Quiet(src, i, Min(t.to, |src|))) && QuietRunes(src, t.to)
  }

  lemma {:induction false} RawCloses(src: string, j: nat)
    requires j <= |src|
    ensures NoiseClose(src, j, '`') == RawClose(src, j)
    decreases |src| - j
  {
    if j < |src| && src[j] != '`' { RawCloses(src, j + 1); }
  }

  lemma {:induction false} TextCloses(src: string, j: nat)
    requires j <= |src| && forall x | j <= x < TextClose(src, j) :: src[x] != '\n'
    ensures NoiseClose(src, j, '"') == TextClose(src, j)
    decreases |src| - j
  {
    if j < |src| && src[j] != '"' {
      if src[j] == '\\' && j + 1 < |src| {
        TextCloses(src, j + 2);
      } else if src[j] != '\n' {
        TextCloses(src, j + 1);
      }
    }
  }

  /** The two ends are one, or a line break apart. */
  predicate SameEnd(src: string, k: nat, j: nat) {
    k == j || (k + 1 == j <= |src| && src[k] == '\n')
  }

  /** At a string the noise lexer stops where the other one does, or before the line break behind it. */
  lemma TextToken(src: string, i: nat)
    requires i < |src| && TokenAt(src, i).kind == Interpreted && '\n' !in src[i..TokenAt(src, i).close]
    ensures Noisy(src, i) && SameEnd(src, NoiseEnd(src, i), Min(TokenAt(src, i).to, |src|))
  {
    var t := TokenAt(src, i);
    forall x | i + 1 <= x < t.close ensures src[x] != '\n' {
      assert src[x] == src[i..t.close][x - i];
    }
    TextCloses(src, i + 1);
  }

  /** Comments, raw strings and plain code: the two lexers read the same token. */
  lemma SameToken(src: string, i: nat)
    requires i < |src| && TokenAt(src, i).kind != Interpreted && TokenAt(src, i).kind != Rune
    ensures NoiseEnd(src, i) == Min(TokenAt(src, i).to, |src|)
    ensures Noisy(src, i) <==> TokenAt(src, i).kind != Code
  {
    if TokenAt(src, i).kind == Raw { RawCloses(src, i + 1); }
  }

  /** A code character, the line break behind an open string included. */
  lemma NoiseOfCode(src: string, i: nat)
    requires i < |src| && !Noisy(src, i)
    ensures Noise(src, i) == [src[i]] + Noise(src, i + 1)
  {
  }

  lemma BlankMore(s: string, i: nat, k: nat)
    requires i <= k < |s| && s[k] == '\n'
    ensures Blank(s[i..k + 1]) == Blank(s[i..k]) + [s[k]]
  {
    assert s[i..k + 1][..k - i] == s[i..k];
  }

  /** From `i` to `j` the result is blank. */
  ghost predicate BlankedTo(src: string, i: nat, j: nat) {
    i <= j <= |src| && Noise(src, i) == Blank(src[i..j]) + Noise(src, j)
  }

  lemma NoiseOfNoise(src: string, i: nat)
    requires i < |src| && Noisy(src, i)
    ensures BlankedTo(src, i, NoiseEnd(src, i))
  {
  }

  lemma Insert(whole: string, a: string, c: char, rest: string, tail: string)
    requires whole == a + rest && rest == [c] + tail
    ensures whole == (a + [c]) + tail
  {
  }

  /** A string that the line's end leaves open: the other lexer takes the line break along, to no effect. */
  lemma NoiseOfOpenString(src: string, i: nat, k: nat)
    requires i < k < |src| && Noisy(src, i) && NoiseEnd(src, i) == k && src[k] == '\n'
    ensures BlankedTo(src, i, k + 1)
  {
    NoiseOfNoise(src, i);
    NoiseOfCode(src, k);
    BlankMore(src, i, k);
    Insert(Noise(src, i), Blank(src[i..k]), src[k], Noise(src, k), Noise(src, k + 1));
  }

  lemma NoiseOfSpan(src: string, i: nat, j: nat)
    requires i < |src| && Noisy(src, i) && SameEnd(src, NoiseEnd(src, i), j) && j <= |src|
    ensures BlankedTo(src, i, j)
  {
    var k := NoiseEnd(src, i);
    if k == j {
      NoiseOfNoise(src, i);
    } else {
      NoiseOfOpenString(src, i, k);
    }
  }

  /** One token that is no rune: both results go on alike behind it. */
  lemma NoiseOfToken(src: string, i: nat)
    requires i < |src| && TokenAt(src, i).kind != Rune
    requires TokenAt(src, i).kind == Interpreted ==> '\n' !in src[i..TokenAt(src, i).close]
    ensures var t := TokenAt(src, i);
      var j := Min(t.to, |src|);
      Noise(src, i) == (if IsCode(t) then src[i..j] else Blank(src[i..j])) + Noise(src, j)
  {
    if TokenAt(src, i).kind == Interpreted {
      TextToken(src, i);
      NoiseOfSpan(src, i, Min(TokenAt(src, i).to, |src|));
    } else {
      SameToken(src, i);
      assert TokenAt(src, i).kind == Code ==> src[i..i + 1] == [src[i]];
    }
  }

  /** A quiet stretch is kept. */
  lemma {:induction false} NoiseOfQuiet(src: string, i: nat, j: nat)
    requires i <= j <= |src| && Quiet(src, i, j)
    ensures Noise(src, i) == src[i..j] + Noise(src, j)
    decreases j - i
  {
    if i == j {
      assert src[i..j] == "";
    } else {
      NoiseOfQuiet(src, i + 1, j);
      NoiseOfCode(src, i);
      Regroup([src[i]], src[i + 1..j], Noise(src, j));
      assert src[i..j] == [src[i]] + src[i + 1..j];
    }
  }

  /** What the noise lexer reacts to it blanks. */
  lemma NoiseBlanks(src: string, i: nat)
    requires i < |src| && Noisy(src, i)
    ensures |Noise(src, i)| == |src| - i && Noise(src, i)[0] != src[i]
  {
    var span := src[i..NoiseEnd(src, i)];
    NoiseKept(src, i);
    NoiseOfNoise(src, i);
    BlankAt(span, 0);
    Pick(Blank(span), Noise(src, NoiseEnd(src, i)), 0);
  }

  /** In a stretch that is not quiet the first noisy character is blanked. */
  lemma {:induction false} NoiseOfNoisy(src: string, i: nat, j: nat) returns (p: nat)
    requires i <= j <= |src| && !Quiet(src, i, j)
    ensures i <= p < j && |Noise(src, i)| == |src| - i && Noise(src, i)[p - i] != src[p]
    decreases j - i
  {
    if Noisy(src, i) {
      NoiseBlanks(src, i);
      p := i;
    } else {
      p := NoiseOfNoisy(src, i + 1, j);
      NoiseOfCode(src, i);
      Pick([src[i]], Noise(src, i + 1), p - i);
    }
  }

  lemma {:induction false} BlankedLength(src: string, i: nat)
    requires i <= |src|
    ensures |Blanked(src, i)| == |src| - i
    decreases |src| - i
  {
    if i < |src| { BlankedLength(src, Min(TokenAt(src, i).to, |src|)); }
  }

  /** A rune: both results go on alike behind it exactly when it is quiet. */
  lemma NoiseOfRune(src: string, i: nat)
    requires i < |src| && TokenAt(src, i).kind == Rune
    ensures var j := Min(TokenAt(src, i).to, |src|);
      && (Quiet(src, i, j) ==> Noise(src, i) == src[i..j] + Noise(src, j))
      && (!Quiet(src, i, j) ==> Noise(src, i) != Blanked(src, i))
  {
    var j := Min(TokenAt(src, i).to, |src|);
    if Quiet(src, i, j) {
      NoiseOfQuiet(src, i, j);
    } else {
      var p := NoiseOfNoisy(src, i, j);
      BlankedLength(src, i);
      assert Blanked(src, i)[p - i] == src[i..j][p - i] == src[p];
    }
  }

  lemma SameTail(a: string, b: string, c: string)
    ensures a + b == a + c <==> b == c
  {
    assert (a + b)[|a|..] == b && (a + c)[|a|..] == c;
  }

  /**
   On sources whose strings do not run over a line break, the noise lexer blanks exactly what the other
   lexer reads as comments and strings, and keeps the rest, if and only if no rune literal holds a quote,
   a backtick or a comment opener.
   */
  lemma {:induction false} NoiseIsTheInverse(src: string, i: nat)
    requires i <= |src| && Unbroken(src, i)
    ensures Noise(src, i) == Blanked(src, i) <==> QuietRunes(src, i)
    decreases |src| - i
  {
    if i < |src| {
      var t := TokenAt(src, i);
      var j := Min(t.to, |src|);
      NoiseIsTheInverse(src, j);
      assert QuietRunes(src, j) == QuietRunes(src, t.to);
      if t.kind == Rune {
        NoiseOfRune(src, i);
      } else {
        NoiseOfToken(src, i);
      }
      SameTail(if IsCode(t) then src[i..j] else Blank(src[i..j]), Noise(src, j), Blanked(src, j));
    }
  }

  /** The rune literal of a double quote: the noise lexer takes the quote for the start of a string. */
  lemma QuoteRune() returns (src: string)
    ensures |src| == 3 && Unbroken(src, 0) && TokenAt(src, 0) == Token(Rune, 0, 2, 3)
    ensures Noise(src, 0) != Blanked(src, 0)
  {
    src := "'\"'";
    assert RuneClose(src, 1) == RuneClose(src, 2) == 2;
    assert Noisy(src, 1) && !Quiet(src, 0, 3);
    NoiseIsTheInverse(src, 0);
  }

  // ---------------------------------------------------------------- printed sources

  /** Nothing in the body of a rune that the noise lexer reacts to. */
  predicate Hushed(body: string) {
    body == "" || (body[0] != '"' && body[0] != '`' && !P.OpensNote(body) && Hushed(body[1..]))
  }

  /** The printed source with comments and strings blanked, and code and runes kept. */
  function PrintBlanked(ps: seq<P.Piece>): string {
    if ps == [] then ""
    else
      var t := ps[0].Text();
      (if ps[0].Plain? || ps[0].Rune? then t else Blank(t)) + PrintBlanked(ps[1..])
  }

  /** A piece is one token of the other lexer, or the characters of its code. */
  lemma PieceBlanked(src: string, i: nat, p: P.Piece, behind: string)
    requires From(src, i, p.Text() + behind) && p.Fits(behind)
    ensures var t := p.Text();
      i + |t| <= |src|
      && Blanked(src, i) == (if p.Plain? || p.Rune? then t else Blank(t)) + Blanked(src, i + |t|)
  {
    hide P.Piece.Text, P.Piece.Fits, Blanked, Blank, TokenAt, TokenOf, P.IsCode;
    FromPart(src, i, p.Text(), behind);
    if p.Plain? {
      PlainIs(p, behind);
      BlankedCode(src, i, p.body, behind);
    } else {
      PieceToken(src, i, p, behind);
      TokenIs(p, i);
      BlankedToken(src, i);
    }
  }

  lemma TokenIs(p: P.Piece, i: nat)
    requires !p.Plain?
    ensures (IsCode(TokenOf(p, i)) <==> p.Rune?) && TokenOf(p, i).to == i + |p.Text()|
  {
    hide P.Piece.Text;
  }

  lemma PlainIs(p: P.Piece, behind: string)
    requires p.Plain? && p.Fits(behind)
    ensures p.Text() == p.body && P.IsCode(p.body, behind)
  {
  }

  /** From `i` on the other lexer's tokens are the pieces. */
  lemma {:induction false} BlankedPrinted(src: string, i: nat, ps: seq<P.Piece>)
    requires From(src, i, P.Print(ps)) && P.WellFormed(ps)
    ensures Blanked(src, i) == PrintBlanked(ps)
    decreases |ps|
  {
    hide P.Piece.Text, P.Piece.Fits, Blanked;
    if ps == [] {
      BlankedEnd(src, i);
    } else {
      FromPart(src, i, ps[0].Text(), P.Print(ps[1..]));
      PieceBlanked(src, i, ps[0], P.Print(ps[1..]));
      BlankedPrinted(src, i + |ps[0].Text()|, ps[1..]);
    }
  }

  lemma BlankedEnd(src: string, i: nat)
    requires From(src, i, "")
    ensures Blanked(src, i) == ""
  {
    assert |src[i..]| == |src| - i;
  }

  lemma BlankedToken(src: string, i: nat)
    requires i < |src| && TokenAt(src, i).to <= |src|
    ensures var t := TokenAt(src, i);
      Blanked(src, i) == (if IsCode(t) then src[i..t.to] else Blank(src[i..t.to])) + Blanked(src, t.to)
  {
  }

  lemma {:induction false} BlankedCode(src: string, i: nat, code: string, behind: string)
    requires From(src, i, code + behind) && P.IsCode(code, behind)
    ensures i + |code| <= |src| && Blanked(src, i) == code + Blanked(src, i + |code|)
    decreases |code|
  {
    hide Blanked, P.IsCode;
    if code == "" {
      assert code + Blanked(src, i) == Blanked(src, i);
    } else {
      BlankedTurn(src, i, code, behind);
      BlankedCode(src, i + 1, code[1..], behind);
      assert code == [code[0]] + code[1..];
      Regroup([code[0]], code[1..], Blanked(src, i + |code|));
    }
  }

  lemma BlankedTurn(src: string, i: nat, code: string, behind: string)
    requires From(src, i, code + behind) && code != "" && P.IsCode(code, behind)
    ensures i < |src| && Blanked(src, i) == [code[0]] + Blanked(src, i + 1)
    ensures From(src, i + 1, code[1..] + behind) && P.IsCode(code[1..], behind)
  {
    CodeToken(src, i, code, behind);
    BlankedToken(src, i);
    assert src[i..i + 1] == [code[0]];
  }

  lemma {:induction false} UnbrokenPrinted(src: string, i: nat, ps: seq<P.Piece>)
    requires From(src, i, P.Print(ps)) && P.WellFormed(ps)
    ensures Unbroken(src, i)
    decreases |ps|
  {
    hide P.Piece.Text, P.Piece.Fits, Unbroken;
    if ps == [] {
      UnbrokenEnd(src, i);
    } else {
      FromPart(src, i, ps[0].Text(), P.Print(ps[1..]));
      UnbrokenPrinted(src, i + |ps[0].Text()|, ps[1..]);
      PieceUnbroken(src, i, ps[0], P.Print(ps[1..]));
    }
  }

  lemma UnbrokenEnd(src: string, i: nat)
    requires From(src, i, "")
    ensures Unbroken(src, i) && QuietRunes(src, i)
  {
    assert |src[i..]| == |src| - i;
  }

  lemma PieceUnbroken(src: string, i: nat, p: P.Piece, behind: string)
    requires From(src, i, p.Text() + behind) && p.Fits(behind) && Unbroken(src, i + |p.Text()|)
    ensures Unbroken(src, i)
  {
    hide P.Piece.Text, P.Piece.Fits, TokenAt, P.IsCode;
    if p.Plain? {
      PlainIs(p, behind);
      UnbrokenCode(src, i, p.body, behind);
    } else {
      PieceToken(src, i, p, behind);
      if p.Quoted? { QuotedUnbroken(src, i, p, behind); }
    }
  }

  lemma QuotedUnbroken(src: string, i: nat, p: P.Piece, behind: string)
    requires From(src, i, p.Text() + behind) && p.Fits(behind) && p.Quoted?
    ensures i + |p.Text()| <= |src| && '\n' !in src[i..i + |p.Text()| - 1]
  {
    FromPart(src, i, p.Text(), behind);
    assert src[i..i + |p.Text()| - 1] == p.Text()[..|p.Text()| - 1] == "\"" + p.body;
  }

  lemma {:induction false} UnbrokenCode(src: string, i: nat, code: string, behind: string)
    requires From(src, i, code + behind) && P.IsCode(code, behind) && Unbroken(src, i + |code|)
    ensures Unbroken(src, i)
    decreases |code|
  {
    hide TokenAt;
    if code != "" {
      CodeToken(src, i, code, behind);
      UnbrokenCode(src, i + 1, code[1..], behind);
    }
  }

  lemma {:induction false} HushedQuiet(src: string, i: nat, body: string, behind: string)
    requires From(src, i, body + ("'" + behind)) && Hushed(body)
    ensures i + |body| < |src| && Quiet(src, i, i + |body| + 1)
    decreases |body|
  {
    FromHead(src, i, body + ("'" + behind));
    if body != "" {
      assert (body + ("'" + behind))[1..] == body[1..] + ("'" + behind);
      HushedQuiet(src, i + 1, body[1..], behind);
    }
  }

  lemma RuneQuiet(src: string, i: nat, p: P.Piece, behind: string)
    requires From(src, i, p.Text() + behind) && p.Rune? && Hushed(p.body)
    ensures i + |p.Text()| <= |src| && Quiet(src, i, i + |p.Text()|)
  {
    Wrapped(src, i, "'", p.body, "'", behind);
    HushedQuiet(src, i + 1, p.body, behind);
  }

  lemma {:induction false} QuietPrinted(src: string, i: nat, ps: seq<P.Piece>)
    requires From(src, i, P.Print(ps)) && P.WellFormed(ps)
    requires forall p | p in ps :: p.Rune? ==> Hushed(p.body)
    ensures QuietRunes(src, i)
    decreases |ps|
  {
    hide P.Piece.Text, P.Piece.Fits, QuietRunes;
    if ps == [] {
      UnbrokenEnd(src, i);
    } else {
      assert ps[0] in ps;
      FromPart(src, i, ps[0].Text(), P.Print(ps[1..]));
      QuietPrinted(src, i + |ps[0].Text()|, ps[1..]);
      PieceQuiet(src, i, ps[0], P.Print(ps[1..]));
    }
  }

  lemma PieceQuiet(src: string, i: nat, p: P.Piece, behind: string)
    requires From(src, i, p.Text() + behind) && p.Fits(behind) && QuietRunes(src, i + |p.Text()|)
    requires p.Rune? ==> Hushed(p.body)
    ensures QuietRunes(src, i)
  {
    hide P.Piece.Text, P.Piece.Fits, TokenAt, P.IsCode, Hushed, Quiet;
    if p.Plain? {
      PlainIs(p, behind);
      QuietCode(src, i, p.body, behind);
    } else {
      PieceToken(src, i, p, behind);
      if p.Rune? { RuneQuiet(src, i, p, behind); }
    }
  }

  lemma {:induction false} QuietCode(src: string, i: nat, code: string, behind: string)
    requires From(src, i, code + behind) && P.IsCode(code, behind) && QuietRunes(src, i + |code|)
    ensures QuietRunes(src, i)
    decreases |code|
  {
    hide TokenAt, Quiet;
    if code != "" {
      CodeToken(src, i, code, behind);
      QuietCode(src, i + 1, code[1..], behind);
    }
  }

  /**
   For every printed source whose runes hold no double quote, backtick or comment opener: comments and strings
   are blanked, and everything else is kept.
   */
  lemma NoiseOfPrinted(ps: seq<P.Piece>)
    requires P.WellFormed(ps) && forall p | p in ps :: p.Rune? ==> Hushed(p.body)
    ensures Noise(P.Print(ps), 0) == PrintBlanked(ps)
  {
    var src := P.Print(ps);
    assert src[0..] == src;
    BlankedPrinted(src, 0, ps);
    UnbrokenPrinted(src, 0, ps);
    QuietPrinted(src, 0, ps);
    NoiseIsTheInverse(src, 0);
  }
}
