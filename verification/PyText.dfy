/**
 The parts of Python's and Go's text library that the gates rely on: whitespace, `strip`,
 `join`, `split`, ascending `sorted` over integers, and the two bisections of a sorted list.
 */
module PyText {

  datatype Option<+T> = None | Some(value: T)

  // ---------------------------------------------------------------- whitespace

  /** `str.isspace` for one character. */
  predicate IsSpace(c: char) {
    || '\t' <= c <= '\r'
    || '\U{1c}' <= c <= ' '
    || c == '\U{85}' || c == '\U{a0}' || c == '\U{1680}'
    || '\U{2000}' <= c <= '\U{200a}'
    || c == '\U{2028}' || c == '\U{2029}' || c == '\U{202f}' || c == '\U{205f}' || c == '\U{3000}'
  }

  predicate AllSpace(s: string) {
    forall i | 0 <= i < |s| :: IsSpace(s[i])
  }

  /** Non-empty, and neither end is whitespace. */
  predicate Trimmed(s: string) {
    s != "" && !IsSpace(s[0]) && !IsSpace(s[|s| - 1])
  }

  function LStrip(s: string): string {
    if s != "" && IsSpace(s[0]) then LStrip(s[1..]) else s
  }

  function RStrip(s: string): string {
    if s != "" && IsSpace(s[|s| - 1]) then RStrip(s[..|s| - 1]) else s
  }

  /** `str.strip()`. */
  function Strip(s: string): string {
    RStrip(LStrip(s))
  }

  lemma {:induction false} LStripPadding(l: string, s: string)
    requires AllSpace(l)
    ensures LStrip(l + s) == LStrip(s)
  {
    if l == "" {
      assert l + s == s;
    } else {
      assert (l + s)[1..] == l[1..] + s;
      LStripPadding(l[1..], s);
    }
  }

  lemma {:induction false} RStripPadding(s: string, r: string)
    requires AllSpace(r)
    ensures RStrip(s + r) == RStrip(s)
  {
    if r == "" {
      assert s + r == s;
    } else {
      assert (s + r)[..|s + r| - 1] == s + r[..|r| - 1];
      RStripPadding(s, r[..|r| - 1]);
    }
  }

  /** Stripping a padded, trimmed word gives the word back. */
  lemma StripPadded(l: string, w: string, r: string)
    requires AllSpace(l) && AllSpace(r) && Trimmed(w)
    ensures Strip(l + w + r) == w
  {
    assert l + w + r == l + (w + r);
    LStripPadding(l, w + r);
    assert (w + r)[0] == w[0];
    RStripPadding(w, r);
  }

  lemma StripTrimmed(s: string)
    requires Trimmed(s)
    ensures Strip(s) == s
  {
  }

  lemma StripLeft(l: string, w: string)
    requires AllSpace(l) && Trimmed(w)
    ensures Strip(l + w) == w
  {
    LStripPadding(l, w);
  }

  lemma BlankStrips(l: string)
    requires AllSpace(l)
    ensures Strip(l) == ""
  {
    LStripPadding(l, "");
    assert l + "" == l;
  }

  lemma AllSpaceJoin(a: string, b: string)
    requires AllSpace(a) && AllSpace(b)
    ensures AllSpace(a + b)
  {
  }

  lemma {:induction false} LStripSuffix(s: string) returns (l: string)
    ensures AllSpace(l) && s == l + LStrip(s)
    ensures LStrip(s) == "" || !IsSpace(LStrip(s)[0])
  {
    l := "";
    if s != "" && IsSpace(s[0]) {
      var rest := LStripSuffix(s[1..]);
      l := [s[0]] + rest;
      AllSpaceJoin([s[0]], rest);
      Regroup([s[0]], rest, LStrip(s));
      assert s == [s[0]] + s[1..];
    }
  }

  lemma {:induction false} RStripPrefix(s: string) returns (r: string)
    ensures AllSpace(r) && s == RStrip(s) + r
    ensures RStrip(s) == "" || !IsSpace(RStrip(s)[|RStrip(s)| - 1])
  {
    r := "";
    if s != "" && IsSpace(s[|s| - 1]) {
      var n := |s| - 1;
      var rest := RStripPrefix(s[..n]);
      r := rest + [s[n]];
      AllSpaceJoin(rest, [s[n]]);
      Regroup(RStrip(s), rest, [s[n]]);
      assert s == s[..n] + [s[n]];
    }
  }

  /** What `strip` removes is whitespace, and what it leaves is trimmed or empty. */
  lemma StripSplits(s: string) returns (l: string, r: string)
    ensures AllSpace(l) && AllSpace(r) && s == l + Strip(s) + r
    ensures Strip(s) == "" || Trimmed(Strip(s))
  {
    l := LStripSuffix(s);
    r := RStripPrefix(LStrip(s));
    Regroup(l, Strip(s), r);
    SameHead(LStrip(s), Strip(s), r);
  }

  lemma SameHead(s: string, a: string, r: string)
    requires s == a + r
    ensures a != "" ==> s != "" && a[0] == s[0]
  {
  }

  // ---------------------------------------------------------------- characters of program text

  predicate At(text: string, i: nat, c: char) {
    i < |text| && text[i] == c
  }

  predicate IsOpen(c: char) { c == '(' || c == '[' || c == '{' }
  predicate IsClose(c: char) { c == ')' || c == ']' || c == '}' }
  predicate IsQuote(c: char) { c == '"' || c == '\'' || c == '`' }

  /** The next line feed from `j` on, or the end. */
  function LineEnd(text: string, j: nat): (k: nat)
    requires j <= |text|
    ensures j <= k <= |text| && (k < |text| ==> text[k] == '\n')
    ensures forall x | j <= x < k :: text[x] != '\n'
    decreases |text| - j
  {
    if j < |text| && text[j] != '\n' then LineEnd(text, j + 1) else j
  }

  /** A character is kept, or was no line feed and is blanked. */
  predicate KeptOrBlank(given: char, result: char) {
    result == given || (given != '\n' && result == ' ')
  }

  /** A line feed stays, everything else becomes a space. */
  function Blank(s: string): (r: string)
    ensures |r| == |s|
  {
    if s == "" then "" else Blank(s[..|s| - 1]) + [if s[|s| - 1] == '\n' then '\n' else ' ']
  }

  lemma {:induction false} BlankAt(s: string, k: nat)
    requires k < |s|
    ensures Blank(s)[k] == if s[k] == '\n' then '\n' else ' '
  {
    if k < |s| - 1 { BlankAt(s[..|s| - 1], k); }
  }

  /** One for an opening bracket, minus one for a closing one. */
  function Lift(c: char): int {
    if c == '(' || c == '[' || c == '{' then 1 else if c == ')' || c == ']' || c == '}' then -1 else 0
  }

  /** Opening minus closing brackets. */
  function Rise(code: string): int {
    if code == "" then 0 else Lift(code[0]) + Rise(code[1..])
  }

  lemma Regroup<T>(a: seq<T>, b: seq<T>, c: seq<T>)
    ensures a + (b + c) == (a + b) + c
  {
  }

  /** Taking the last element off a concatenation takes it off the second part. */
  lemma Init<T>(a: seq<T>, b: seq<T>)
    requires b != []
    ensures |a + b| > 0 && (a + b)[..|a + b| - 1] == a + b[..|b| - 1] && (a + b)[|a + b| - 1] == b[|b| - 1]
  {
  }

  lemma Pick(a: string, b: string, k: nat)
    requires k < |a| + |b|
    ensures (a + b)[k] == if k < |a| then a[k] else b[k - |a|]
  {
  }

  /** From `j` on the text is `s`. */
  predicate From(text: string, j: nat, s: string) {
    j <= |text| && text[j..] == s
  }

  lemma FromPart(text: string, j: nat, a: string, b: string)
    requires From(text, j, a + b)
    ensures From(text, j + |a|, b) && text[j..j + |a|] == a
  {
    assert text[j..][|a|..] == b && text[j..][..|a|] == a;
  }

  lemma FromHead(text: string, j: nat, s: string)
    requires From(text, j, s) && s != ""
    ensures j < |text| && text[j] == s[0] && From(text, j + 1, s[1..])
    ensures |s| > 1 ==> j + 1 < |text| && text[j + 1] == s[1]
  {
    assert text[j..][0] == s[0] && text[j..][1..] == s[1..];
  }

  // ---------------------------------------------------------------- split and join

  /** `sep.join(parts)` for a one-character separator. */
  function Join(parts: seq<string>, sep: char): string {
    if parts == [] then ""
    else if |parts| == 1 then parts[0]
    else parts[0] + [sep] + Join(parts[1..], sep)
  }

  /** Index of the first `c`, or the length when there is none. */
  function IndexOf(s: string, c: char): (k: nat)
    ensures k <= |s|
    ensures k < |s| ==> s[k] == c
    ensures forall j | 0 <= j < k :: s[j] != c
  {
    if s == "" || s[0] == c then 0 else 1 + IndexOf(s[1..], c)
  }

  lemma IndexOfUnique(s: string, c: char, k: nat)
    requires k <= |s| && (k < |s| ==> s[k] == c) && forall j | 0 <= j < k :: s[j] != c
    ensures IndexOf(s, c) == k
  {
  }

  /** `strings.Split(s, sep)`: never empty; pieces hold no separator. */
  function Split(s: string, sep: char): (parts: seq<string>)
    ensures |parts| > 0
    decreases |s|
  {
    var k := IndexOf(s, sep);
    if k == |s| then [s] else [s[..k]] + Split(s[k + 1..], sep)
  }

  lemma {:induction false} SplitJoin(s: string, sep: char)
    ensures Join(Split(s, sep), sep) == s
    ensures forall p | p in Split(s, sep) :: sep !in p
    decreases |s|
  {
    var k := IndexOf(s, sep);
    if k < |s| {
      SplitJoin(s[k + 1..], sep);
      assert s == s[..k] + [sep] + s[k + 1..];
      assert Split(s, sep)[1..] == Split(s[k + 1..], sep);
    }
  }

  lemma FreeAt(p: string, sep: char)
    requires sep !in p
    ensures forall j | 0 <= j < |p| :: p[j] != sep
  {
    assert forall j | 0 <= j < |p| :: p[j] in p;
  }

  lemma SplitNone(p: string, sep: char)
    requires sep !in p
    ensures Split(p, sep) == [p]
  {
    FreeAt(p, sep);
    IndexOfUnique(p, sep, |p|);
  }

  lemma SplitFirst(p: string, rest: string, sep: char)
    requires sep !in p
    ensures Split(p + [sep] + rest, sep) == [p] + Split(rest, sep)
  {
    var s := p + [sep] + rest;
    FreeAt(p, sep);
    IndexOfUnique(s, sep, |p|);
    assert s[..|p|] == p && s[|p| + 1..] == rest;
  }

  lemma {:induction false} JoinSplit(parts: seq<string>, sep: char)
    requires parts != [] && forall p | p in parts :: sep !in p
    ensures Split(Join(parts, sep), sep) == parts
  {
    assert parts[0] in parts;
    if |parts| == 1 {
      SplitNone(parts[0], sep);
    } else {
      JoinSplit(parts[1..], sep);
      SplitFirst(parts[0], Join(parts[1..], sep), sep);
    }
  }

  // ---------------------------------------------------------------- counting

  /** `s[..k].count(c)`. */
  function CountBefore(s: string, c: char, k: nat): nat
    requires k <= |s|
  {
    if k == 0 then 0 else CountBefore(s, c, k - 1) + (if s[k - 1] == c then 1 else 0)
  }

  lemma SubsetCard<T>(a: set<T>, b: set<T>)
    requires a <= b
    ensures |a| <= |b|
  {
    assert b == a + (b - a);
  }

  // ---------------------------------------------------------------- sorted integers

  ghost predicate Increasing(s: seq<int>) {
    forall i, j | 0 <= i < j < |s| :: s[i] < s[j]
  }

  predicate IsLeast(m: int, s: set<int>) {
    m in s && forall x | x in s :: m <= x
  }

  lemma {:induction false} HasLeast(s: set<int>)
    requires s != {}
    ensures exists m :: IsLeast(m, s)
    decreases |s|
  {
    assert (forall x :: x !in s) ==> s == {};
    var m :| m in s;
    var rest := s - {m};
    assert s == rest + {m};
    if rest == {} {
      assert IsLeast(m, s);
    } else {
      HasLeast(rest);
      var k :| IsLeast(k, rest);
      assert IsLeast(if k < m then k else m, s);
    }
  }

  /** `sorted(s)` for a set of integers. */
  function Sorted(s: set<int>): (r: seq<int>)
    ensures Increasing(r)
    ensures forall x :: x in r <==> x in s
    decreases |s|
  {
    if s == {} then []
    else
      HasLeast(s);
      var m :| m in s && IsLeast(m, s);
      [m] + Sorted(s - {m})
  }

  /** `bisect_left`: how many leading entries lie below `x`. */
  function BisectLeft(s: seq<int>, x: int): (k: nat)
    requires Increasing(s)
    ensures k <= |s|
    ensures forall i | 0 <= i < k :: s[i] < x
    ensures forall i | k <= i < |s| :: s[i] >= x
  {
    if s == [] || s[0] >= x then 0 else 1 + BisectLeft(s[1..], x)
  }

  /** `bisect_right`: how many leading entries lie at or below `x`. */
  function BisectRight(s: seq<int>, x: int): (k: nat)
    requires Increasing(s)
    ensures k <= |s|
    ensures forall i | 0 <= i < k :: s[i] <= x
    ensures forall i | k <= i < |s| :: s[i] > x
  {
    if s == [] || s[0] > x then 0 else 1 + BisectRight(s[1..], x)
  }

  lemma {:induction false} BisectRightIs(s: seq<int>, x: int, k: nat)
    requires Increasing(s) && k <= |s|
    requires (forall i | 0 <= i < k :: s[i] <= x) && forall i | k <= i < |s| :: s[i] > x
    ensures BisectRight(s, x) == k
  {
    if k > 0 { BisectRightIs(s[1..], x, k - 1); }
  }
}
