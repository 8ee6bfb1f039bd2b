/** Text files as Python reads and writes them: newline translation, `splitlines`, and `sorted` over strings. */
module PyLines {
  import opened PyText

  // ---------------------------------------------------------------- lines

  /** The characters at which `str.splitlines` breaks. */
  predicate IsBreak(c: char) {
    || '\n' <= c <= '\r' || '\U{1c}' <= c <= '\U{1e}' || c == '\U{85}' || c == '\U{2028}' || c == '\U{2029}'
  }

  predicate NoBreak(s: string) {
    forall i | 0 <= i < |s| :: !IsBreak(s[i])
  }

  /** What reading in text mode does to line ends: `\r\n` and `\r` become `\n`. */
  function Translate(s: string): (r: string)
    ensures '\r' !in r
  {
    if s == "" then ""
    else if s[0] == '\r' then "\n" + Translate(if |s| > 1 && s[1] == '\n' then s[2..] else s[1..])
    else [s[0]] + Translate(s[1..])
  }

  lemma {:induction false} TranslateNothing(s: string)
    requires '\r' !in s
    ensures Translate(s) == s
  {
    if s != "" { TranslateNothing(s[1..]); }
  }

  /** Index of the first line break, or the length. */
  function BreakAt(s: string): (k: nat)
    ensures k <= |s| && (k < |s| ==> IsBreak(s[k]))
    ensures NoBreak(s[..k])
  {
    if s == "" || IsBreak(s[0]) then 0
    else
      var k := 1 + BreakAt(s[1..]);
      assert forall i | 1 <= i < k :: s[..k][i] == s[1..][..k - 1][i - 1];
      k
  }

  lemma {:induction false} BreakAtIs(l: string, rest: string)
    requires NoBreak(l) && (rest == "" || IsBreak(rest[0]))
    ensures BreakAt(l + rest) == |l|
  {
    if l == "" {
      assert l + rest == rest;
    } else {
      assert (l + rest)[1..] == l[1..] + rest && (l + rest)[0] == l[0];
      BreakAtIs(l[1..], rest);
    }
  }

  /** `str.splitlines()` of a text without `\r`. */
  function SplitLines(s: string): seq<string>
    decreases |s|
  {
    if s == "" then []
    else
      var k := BreakAt(s);
      if k == |s| then [s] else [s[..k]] + SplitLines(s[k + 1..])
  }

  predicate Clean(lines: seq<string>) {
    forall i | 0 <= i < |lines| :: NoBreak(lines[i])
  }

  lemma {:induction false} LinesAreClean(s: string)
    ensures Clean(SplitLines(s))
    decreases |s|
  {
    if s != "" {
      var k := BreakAt(s);
      if k == |s| {
        assert s[..k] == s;
      } else {
        LinesAreClean(s[k + 1..]);
      }
    }
  }

  /** What is written back for a list of lines. */
  function Unlines(lines: seq<string>): string {
    Join(lines, '\n') + "\n"
  }

  /** Lines with their ends, one behind the other. */
  function Ended(lines: seq<string>, ends: seq<string>): string
    requires |lines| == |ends|
  {
    if lines == [] then "" else lines[0] + (ends[0] + Ended(lines[1..], ends[1..]))
  }

  /** A carriage return and line feed, or one of the characters that end a line; these two do not meet by chance. */
  predicate IsEnd(e: string, behind: string) {
    || e == "\r\n"
    || (e == "\r" && (behind == "" || behind[0] != '\n'))
    || (|e| == 1 && e[0] in ['\n', '\U{0b}', '\U{0c}', '\U{1c}', '\U{1d}', '\U{1e}', '\U{85}', '\U{2028}', '\U{2029}'])
  }

  predicate AllEnds(lines: seq<string>, ends: seq<string>)
    requires |lines| == |ends|
  {
    lines == [] || (NoBreak(lines[0]) && IsEnd(ends[0], Ended(lines[1..], ends[1..])) && AllEnds(lines[1..], ends[1..]))
  }

  lemma {:induction false} TranslateLine(l: string, rest: string)
    requires NoBreak(l)
    ensures Translate(l + rest) == l + Translate(rest)
  {
    if l == "" {
      assert l + rest == rest && "" + Translate(rest) == Translate(rest);
    } else {
      assert (l + rest)[0] == l[0] && (l + rest)[1..] == l[1..] + rest;
      TranslateLine(l[1..], rest);
      Regroup([l[0]], l[1..], Translate(rest));
      assert l == [l[0]] + l[1..];
    }
  }

  lemma TranslateEnd(e: string, rest: string) returns (c: char)
    requires IsEnd(e, rest)
    ensures IsBreak(c) && Translate(e + rest) == [c] + Translate(rest)
  {
    c := if e[0] == '\r' then '\n' else e[0];
    assert e == "\r\n" ==> (e + rest)[2..] == rest;
    assert |e| == 1 ==> (e + rest)[1..] == rest;
  }

  lemma LineBehind(l: string, c: char, rest: string)
    requires NoBreak(l) && IsBreak(c)
    ensures SplitLines(l + ([c] + rest)) == [l] + SplitLines(rest)
  {
    var s := l + ([c] + rest);
    BreakAtIs(l, [c] + rest);
    assert s[..|l|] == l && s[|l| + 1..] == rest;
  }

  /** A text is read as the lines it was put together from, whatever ends them. */
  lemma {:induction false} LinesOfText(lines: seq<string>, ends: seq<string>)
    requires |lines| == |ends| && AllEnds(lines, ends)
    ensures SplitLines(Translate(Ended(lines, ends))) == lines
  {
    hide IsEnd, NoBreak;
    if lines != [] {
      var rest := Ended(lines[1..], ends[1..]);
      LinesOfText(lines[1..], ends[1..]);
      TranslateLine(lines[0], ends[0] + rest);
      var c := TranslateEnd(ends[0], rest);
      LineBehind(lines[0], c, Translate(rest));
    }
  }

  /** Lines written and read again are the same lines; no line at all is read as one empty line. */
  lemma {:induction false} SplitUnlines(lines: seq<string>)
    requires Clean(lines)
    ensures SplitLines(Unlines(lines)) == if lines == [] then [""] else lines
  {
    if |lines| <= 1 {
      var l := if lines == [] then "" else lines[0];
      LineBehind(l, '\n', "");
      assert Unlines(lines) == l + (['\n'] + "");
    } else {
      SplitUnlines(lines[1..]);
      LineBehind(lines[0], '\n', Unlines(lines[1..]));
      UnlinesMore(lines);
    }
  }

  lemma UnlinesMore(lines: seq<string>)
    requires |lines| > 1
    ensures Unlines(lines) == lines[0] + (['\n'] + Unlines(lines[1..]))
  {
  }

  lemma {:induction false} UnlinesNoReturn(lines: seq<string>)
    requires Clean(lines)
    ensures '\r' !in Unlines(lines)
  {
    if |lines| == 1 {
      assert NoBreak(lines[0]);
    } else if |lines| > 1 {
      UnlinesNoReturn(lines[1..]);
      assert NoBreak(lines[0]);
      assert Unlines(lines) == lines[0] + (['\n'] + Unlines(lines[1..]));
    }
  }

  // ---------------------------------------------------------------- sorted strings

  /** Python's `<=` on strings. */
  predicate Lex(a: string, b: string) {
    a == "" || (b != "" && (a[0] < b[0] || (a[0] == b[0] && Lex(a[1..], b[1..]))))
  }

  lemma {:induction false} LexTotal(a: string, b: string)
    ensures Lex(a, b) || Lex(b, a)
    ensures Lex(a, b) && Lex(b, a) ==> a == b
  {
    if a != "" && b != "" {
      LexTotal(a[1..], b[1..]);
      assert a == [a[0]] + a[1..] && b == [b[0]] + b[1..];
    }
  }

  lemma {:induction false} LexTransitive(a: string, b: string, c: string)
    requires Lex(a, b) && Lex(b, c)
    ensures Lex(a, c)
  {
    if a != "" && a[0] == b[0] == c[0] { LexTransitive(a[1..], b[1..], c[1..]); }
  }

  predicate IsFirst(m: string, s: set<string>) {
    m in s && forall x | x in s :: Lex(m, x)
  }

  lemma {:induction false} HasFirst(s: set<string>)
    requires s != {}
    ensures exists m :: IsFirst(m, s)
    decreases |s|
  {
    var m :| m in s;
    var rest := s - {m};
    assert s == rest + {m};
    LexTotal(m, m);
    if rest == {} {
      assert IsFirst(m, s);
    } else {
      HasFirst(rest);
      var k :| IsFirst(k, rest);
      LexTotal(k, m);
      if Lex(k, m) {
        assert IsFirst(k, s);
      } else {
        forall x | x in s ensures Lex(m, x) {
          if x != m { LexTransitive(m, k, x); }
        }
        assert IsFirst(m, s);
      }
    }
  }

  lemma FirstUnique(s: set<string>)
    ensures forall a, b :: IsFirst(a, s) && IsFirst(b, s) ==> a == b
  {
    forall a, b | IsFirst(a, s) && IsFirst(b, s) ensures a == b { LexTotal(a, b); }
  }

  /** `sorted(s)`: every element once, in order. */
  function SortedKeys(s: set<string>): (r: seq<string>)
    ensures |r| == |s| && forall x :: x in r <==> x in s
    ensures forall i, j | 0 <= i < j < |r| :: Lex(r[i], r[j])
    decreases |s|
  {
    if s == {} then []
    else
      HasFirst(s);
      FirstUnique(s);
      var m :| IsFirst(m, s);
      [m] + SortedKeys(s - {m})
  }
}
