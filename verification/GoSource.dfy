/**
 `GoSource` of scripts/lint-orgid-queries.py: one pass over a Go file that records raw string
 literals, bracket events, statement boundaries (automatic semicolon insertion) and block
 openers, plus the indexes built on those records.

 The scanner of the source jumps over whole comments and literals. The reference here is a
 character automaton that gives every position a mode, a bracket depth and the last code
 character of its line; the recorded lists are then defined position by position from it.
 */
module GoText {
  import opened PyText

  /** What the character at a position is part of. */
  datatype Mode =
    | Code
    | LineOpen          // second '/' of "//"
    | Line
    | BlockOpen         // '*' of "/*"
    | Block
    | BlockStar         // '*' of the closing "*/"
    | BlockSlash        // '/' of the closing "*/"
    | Raw
    | Quoted(quote: char)
    | Escaped(quote: char)

  /** The quote of a literal that ends on its line. */
  predicate IsLineQuote(c: char) { IsQuote(c) && c != '`' }

  /** The mode of position `i + 1`, given the mode of position `i`. */
  function Next(text: string, i: nat, m: Mode): Mode
    requires i < |text|
  {
    var c := text[i];
    match m
    case Code =>
      if c == '/' && At(text, i + 1, '/') then LineOpen
      else if c == '/' && At(text, i + 1, '*') then BlockOpen
      else if c == '`' then Raw
      else if IsLineQuote(c) then Quoted(c)
      else Code
    case LineOpen => InLine(text, i + 1)
    case Line => InLine(text, i + 1)
    case BlockOpen => InBlock(text, i + 1)
    case Block => InBlock(text, i + 1)
    case BlockStar => BlockSlash
    case BlockSlash => Code
    case Raw => if c == '`' then Code else Raw
    case Quoted(q) => if c == q || c == '\n' then Code else if c == '\\' then Escaped(q) else m
    case Escaped(q) => if c == '\n' then Code else Quoted(q)
  }

  function InLine(text: string, i: nat): Mode {
    if i < |text| && text[i] != '\n' then Line else Code
  }

  function InBlock(text: string, i: nat): Mode {
    if At(text, i, '*') && At(text, i + 1, '/') then BlockStar else Block
  }

  function ModeAt(text: string, i: nat): Mode
    requires i <= |text|
  {
    if i == 0 then Code else Next(text, i - 1, ModeAt(text, i - 1))
  }

  /** Opening minus closing brackets in code before position `i`. */
  function DepthAt(text: string, i: nat): int
    requires i <= |text|
  {
    if i == 0 then 0 else
      DepthAt(text, i - 1) +
      (if ModeAt(text, i - 1) != Code then 0
       else if IsOpen(text[i - 1]) then 1
       else if IsClose(text[i - 1]) then -1
       else 0)
  }

  /** A bracket in code: the positions where the depth changes. */
  predicate Bracket(text: string, i: nat)
    requires i < |text|
  {
    ModeAt(text, i) == Code && (IsOpen(text[i]) || IsClose(text[i]))
  }

  /** A line feed the scanner evaluates: in code, or in a block comment before the file's last character. */
  predicate LineFeed(text: string, i: nat)
    requires i < |text|
  {
    text[i] == '\n' && (ModeAt(text, i) == Code || (ModeAt(text, i) == Block && i + 1 < |text|))
  }

  /** The last code character since the last evaluated line feed. */
  function LastAt(text: string, i: nat): Option<char>
    requires i <= |text|
  {
    if i == 0 then None
    else if LineFeed(text, i - 1) then None
    else if ModeAt(text, i - 1) != Code || IsSpace(text[i - 1])
            || ModeAt(text, i).LineOpen? || ModeAt(text, i).BlockOpen? then
      LastAt(text, i - 1)
    else Some(text[i - 1])
  }

  /** `_asi_terminates`; `alnum` is `str.isalnum` on one character. */
  predicate AsiTerminates(alnum: char -> bool, c: char) {
    alnum(c) || c == '_' || IsClose(c) || IsQuote(c) || c == '+' || c == '-'
  }

  /** A recorded statement boundary: a line feed after a terminating character. */
  predicate BreakAt(alnum: char -> bool, text: string, i: nat)
    requires i < |text|
  {
    LineFeed(text, i) && LastAt(text, i).Some? && AsiTerminates(alnum, LastAt(text, i).value)
  }

  /** One past the closing back-quote, or one past the end of the file plus one when there is none. */
  function RawEnd(text: string, i: nat): (e: nat)
    requires i <= |text|
    ensures i < e <= |text| + 1
    decreases |text| - i
  {
    if i == |text| then i + 1 else if text[i] == '`' then i + 1 else RawEnd(text, i + 1)
  }

  // ---------------------------------------------------------------- the recorded lists

  function EventsTo(text: string, i: nat): seq<int>
    requires i <= |text|
  {
    if i == 0 then []
    else if Bracket(text, i - 1) then EventsTo(text, i - 1) + [i - 1]
    else EventsTo(text, i - 1)
  }

  function DepthsTo(text: string, i: nat): seq<int>
    requires i <= |text|
  {
    if i == 0 then []
    else if Bracket(text, i - 1) then DepthsTo(text, i - 1) + [DepthAt(text, i)]
    else DepthsTo(text, i - 1)
  }

  function BreaksTo(alnum: char -> bool, text: string, i: nat): seq<(nat, int)>
    requires i <= |text|
  {
    if i == 0 then []
    else if BreakAt(alnum, text, i - 1) then BreaksTo(alnum, text, i - 1) + [(i - 1, DepthAt(text, i - 1))]
    else BreaksTo(alnum, text, i - 1)
  }

  function BracesTo(text: string, i: nat): seq<(nat, int)>
    requires i <= |text|
  {
    if i == 0 then []
    else if ModeAt(text, i - 1) == Code && text[i - 1] == '{' then
      BracesTo(text, i - 1) + [(i - 1, DepthAt(text, i - 1))]
    else BracesTo(text, i - 1)
  }

  function RawsTo(text: string, i: nat): seq<(nat, nat)>
    requires i <= |text|
  {
    if i == 0 then []
    else if ModeAt(text, i - 1) == Code && text[i - 1] == '`' then RawsTo(text, i - 1) + [(i - 1, RawEnd(text, i))]
    else RawsTo(text, i - 1)
  }

  function LineStartsTo(text: string, i: nat): seq<int>
    requires i <= |text|
  {
    if i == 0 then [0]
    else if text[i - 1] == '\n' then LineStartsTo(text, i - 1) + [i]
    else LineStartsTo(text, i - 1)
  }

  predicate OutsideCode(text: string, a: nat, b: nat)
    requires a <= b <= |text|
  {
    a == b || (OutsideCode(text, a, b - 1) && ModeAt(text, b - 1) != Code)
  }

  /** Outside code no bracket, brace or literal is recorded. */
  lemma {:induction false} OutsideCodeRun(text: string, a: nat, b: nat)
    requires a <= b <= |text|
    requires OutsideCode(text, a, b)
    ensures EventsTo(text, b) == EventsTo(text, a) && DepthsTo(text, b) == DepthsTo(text, a)
    ensures BracesTo(text, b) == BracesTo(text, a) && RawsTo(text, b) == RawsTo(text, a)
    ensures DepthAt(text, b) == DepthAt(text, a)
    decreases b
  {
    if a < b { OutsideCodeRun(text, a, b - 1); }
  }

  /** Inside a literal or a line comment no boundary is recorded either. */
  predicate Silent(m: Mode) {
    m.LineOpen? || m.Line? || m.Raw? || m.Quoted? || m.Escaped?
  }

  predicate SilentBetween(text: string, a: nat, b: nat)
    requires a <= b <= |text|
  {
    a == b || (SilentBetween(text, a, b - 1) && Silent(ModeAt(text, b - 1)))
  }

  lemma {:induction false} SilentRun(alnum: char -> bool, text: string, a: nat, b: nat)
    requires a <= b <= |text|
    requires SilentBetween(text, a, b)
    ensures OutsideCode(text, a, b)
    ensures BreaksTo(alnum, text, b) == BreaksTo(alnum, text, a) && LastAt(text, b) == LastAt(text, a)
    decreases b
  {
    if a < b { SilentRun(alnum, text, a, b - 1); }
  }

  /** A whole literal leaves every list but that of the raw literals as it was. */
  lemma LiteralRun(alnum: char -> bool, text: string, i: nat, j: nat)
    requires i < j <= |text| && ModeAt(text, i) == Code && IsQuote(text[i])
    requires SilentBetween(text, i + 1, j)
    ensures EventsTo(text, j) == EventsTo(text, i) && DepthsTo(text, j) == DepthsTo(text, i)
    ensures BreaksTo(alnum, text, j) == BreaksTo(alnum, text, i) && BracesTo(text, j) == BracesTo(text, i)
    ensures RawsTo(text, j) == if text[i] == '`' then RawsTo(text, i) + [(i, RawEnd(text, i + 1))] else RawsTo(text, i)
    ensures DepthAt(text, j) == DepthAt(text, i) && LastAt(text, j) == Some(text[i])
  {
    SilentRun(alnum, text, i + 1, j);
    OutsideCodeRun(text, i + 1, j);
  }

  /** The position, or the end of the text when it lies past it. */
  function Clip(text: string, j: nat): nat {
    if j <= |text| then j else |text|
  }

  /** From `i` to `j` the text is one literal: every list but that of the raw literals is as it was. */
  ghost predicate Literal(alnum: char -> bool, text: string, i: nat, j: nat) {
    && i < j && i < |text|
    && var e := Clip(text, j);
    && EventsTo(text, e) == EventsTo(text, i) && DepthsTo(text, e) == DepthsTo(text, i)
    && BreaksTo(alnum, text, e) == BreaksTo(alnum, text, i) && BracesTo(text, e) == BracesTo(text, i)
    && RawsTo(text, e) == (if text[i] == '`' then RawsTo(text, i) + [(i, RawEnd(text, i + 1))] else RawsTo(text, i))
    && DepthAt(text, e) == DepthAt(text, i) && LastAt(text, e) == Some(text[i])
    && (if j < |text| then ModeAt(text, e) == Code else !ModeAt(text, e).Escaped?)
  }

  lemma RawLiteral(alnum: char -> bool, text: string, i: nat, k: nat)
    requires i < k <= |text| && At(text, i, '`') && ModeAt(text, i) == Code
    requires SilentBetween(text, i + 1, k) && ModeAt(text, k) == Raw && (k < |text| ==> text[k] == '`')
    ensures Literal(alnum, text, i, k + 1)
  {
    LiteralRun(alnum, text, i, Clip(text, k + 1));
  }

  lemma QuotedLiteral(alnum: char -> bool, text: string, i: nat, k: nat, q: char)
    requires i < k <= |text| && At(text, i, q) && IsLineQuote(q) && ModeAt(text, i) == Code
    requires SilentBetween(text, i + 1, k)
    requires ModeAt(text, k) == Quoted(q) || (ModeAt(text, k) == Escaped(q) && At(text, k, '\n'))
    requires k < |text| ==> text[k] == q || text[k] == '\n'
    ensures Literal(alnum, text, i, k + 1)
  {
    LiteralRun(alnum, text, i, Clip(text, k + 1));
  }

  /** From `i` to `j` the text is one block comment, of which the lists hold nothing but statement breaks. */
  ghost predicate Comment(text: string, i: nat, j: nat) {
    && i < j && i < |text|
    && var e := Clip(text, j);
    && EventsTo(text, e) == EventsTo(text, i) && DepthsTo(text, e) == DepthsTo(text, i)
    && BracesTo(text, e) == BracesTo(text, i) && RawsTo(text, e) == RawsTo(text, i)
    && DepthAt(text, e) == DepthAt(text, i)
    && (if j < |text| then ModeAt(text, e) == Code else !ModeAt(text, e).Escaped?)
  }

  /** Position `k` of a block comment behind which only its delimiter is left, or its last character. */
  ghost predicate CommentEnds(text: string, i: nat, k: nat) {
    && i + 2 <= k <= |text| && At(text, i, '/') && At(text, i + 1, '*') && ModeAt(text, i) == Code
    && OutsideCode(text, i + 1, k) && ModeAt(text, k) == InBlock(text, k)
    && (k + 1 < |text| ==> text[k] == '*' && text[k + 1] == '/')
  }

  lemma CommentModes(text: string, i: nat, k: nat)
    requires CommentEnds(text, i, k)
    ensures ModeAt(text, i + 1) == BlockOpen && OutsideCode(text, i + 1, Clip(text, k + 2))
    ensures if k + 2 < |text| then ModeAt(text, k + 2) == Code else !ModeAt(text, |text|).Escaped?
    ensures k + 1 < |text| ==> ModeAt(text, k) == BlockStar && ModeAt(text, k + 1) == BlockSlash
  {
    assert ModeAt(text, i + 1) == BlockOpen;
    if k + 1 < |text| {
      assert ModeAt(text, k + 1) == BlockSlash && OutsideCode(text, i + 1, k + 1);
    }
  }

  lemma CommentRun(text: string, i: nat, k: nat)
    requires CommentEnds(text, i, k)
    ensures Comment(text, i, k + 2)
  {
    CommentModes(text, i, k);
    OutsideCodeRun(text, i + 1, Clip(text, k + 2));
  }

  /** The delimiter adds no break. */
  lemma CommentBreaks(alnum: char -> bool, text: string, i: nat, k: nat)
    requires CommentEnds(text, i, k)
    ensures BreaksTo(alnum, text, Clip(text, k + 2)) == BreaksTo(alnum, text, k)
    ensures k + 2 < |text| ==> LastAt(text, k + 2) == LastAt(text, k)
  {
    CommentModes(text, i, k);
  }

  // ---------------------------------------------------------------- the lists are exactly the positions

  lemma {:induction false} EventsExact(text: string, i: nat)
    requires i <= |text|
    ensures Increasing(EventsTo(text, i)) && |EventsTo(text, i)| == |DepthsTo(text, i)|
    ensures forall p: int :: p in EventsTo(text, i) <==> 0 <= p < i && Bracket(text, p)
    ensures forall k | 0 <= k < |EventsTo(text, i)| ::
              && 0 <= EventsTo(text, i)[k] < i
              && DepthsTo(text, i)[k] == DepthAt(text, EventsTo(text, i)[k] + 1)
  {
    if i > 0 { EventsExact(text, i - 1); }
  }

  lemma {:induction false} BreaksExact(alnum: char -> bool, text: string, i: nat)
    requires i <= |text|
    ensures forall b :: b in BreaksTo(alnum, text, i) <==>
              b.0 < i && BreakAt(alnum, text, b.0) && b.1 == DepthAt(text, b.0)
  {
    if i > 0 { BreaksExact(alnum, text, i - 1); }
  }

  lemma {:induction false} BracesExact(text: string, i: nat)
    requires i <= |text|
    ensures forall b :: b in BracesTo(text, i) <==>
              b.0 < i && ModeAt(text, b.0) == Code && text[b.0] == '{' && b.1 == DepthAt(text, b.0)
  {
    if i > 0 { BracesExact(text, i - 1); }
  }

  lemma {:induction false} RawsExact(text: string, i: nat)
    requires i <= |text|
    ensures forall s :: s in RawsTo(text, i) <==>
              s.0 < i && ModeAt(text, s.0) == Code && text[s.0] == '`' && s.1 == RawEnd(text, s.0 + 1)
  {
    if i > 0 { RawsExact(text, i - 1); }
  }

  lemma {:induction false} LineStartsExact(text: string, i: nat)
    requires i <= |text|
    ensures Increasing(LineStartsTo(text, i))
    ensures |LineStartsTo(text, i)| == 1 + CountBefore(text, '\n', i)
    ensures forall k | 0 <= k < |LineStartsTo(text, i)| :: 0 <= LineStartsTo(text, i)[k] <= i
  {
    if i > 0 { LineStartsExact(text, i - 1); }
  }
}

module GoIndex {
  import opened PyText
  import opened GoText

  /** Whether the regex `^[ \t]*(//.*)?$` matches the rest of a line. */
  predicate BlankOrComment(rest: string) {
    if rest == "" then true
    else if rest[0] == ' ' || rest[0] == '\t' then BlankOrComment(rest[1..])
    else At(rest, 0, '/') && At(rest, 1, '/')
  }

  /** A `{` with only blanks or a comment behind it on its line opens a block. */
  predicate OpensBlock(text: string, off: nat)
    requires off < |text|
  {
    BlankOrComment(text[off + 1..if LineEnd(text, off) < off + 1 then off + 1 else LineEnd(text, off)])
  }

  class GoSource {
    const text: string
    const alnum: char -> bool
    var lineStarts: seq<int>
    var rawSpans: seq<(nat, nat)>
    var evOff: seq<int>
    var evDepth: seq<int>
    var breaks: seq<(nat, int)>
    var blockOpens: seq<(nat, int)>

    constructor (text: string, alnum: char -> bool)
      ensures this.text == text && this.alnum == alnum
      ensures Recorded(0)
    {
      this.text, this.alnum := text, alnum;
      lineStarts, rawSpans, evOff, evDepth, breaks, blockOpens := [0], [], [], [], [], [];
    }

    /** The lists hold exactly what lies before position `i`. */
    ghost predicate Recorded(i: nat)
      reads this
    {
      && i <= |text|
      && rawSpans == RawsTo(text, i)
      && evOff == EventsTo(text, i) && evDepth == DepthsTo(text, i)
      && breaks == BreaksTo(alnum, text, i)
      && blockOpens == BracesTo(text, i)
    }

    /** The scanner stands in front of position `i`, in code, and has kept its records up to there. */
    ghost predicate InStep(i: nat, depth: int, last: Option<char>)
      reads this
    {
      && (i < |text| ==> Recorded(i) && ModeAt(text, i) == Code && depth == DepthAt(text, i) && last == LastAt(text, i))
      && (i >= |text| ==> Recorded(|text|) && !ModeAt(text, |text|).Escaped?)
    }

    /** The nested `newline`: a line feed after a terminating character is a statement boundary. */
    method Newline(off: nat, depth: int, last: Option<char>)
      requires off < |text| && breaks == BreaksTo(alnum, text, off)
      requires LineFeed(text, off) && depth == DepthAt(text, off) && last == LastAt(text, off)
      modifies `breaks
      ensures breaks == BreaksTo(alnum, text, off + 1)
    {
      if last.Some? && AsiTerminates(alnum, last.value) {
        breaks := breaks + [(off, depth)];
      }
    }

    method SkipLineComment(i: nat, depth: int, last: Option<char>) returns (j: nat)
      requires InStep(i, depth, last) && At(text, i, '/') && At(text, i + 1, '/')
      ensures i < j && InStep(j, depth, last)
    {
      assert ModeAt(text, i + 1) == LineOpen && SilentBetween(text, i + 1, i + 1);
      j := i + 2;
      while j < |text| && text[j] != '\n'
        invariant i + 2 <= j <= |text|
        invariant SilentBetween(text, i + 1, j)
        invariant ModeAt(text, j) == InLine(text, j)
      {
        j := j + 1;
      }
      SilentRun(alnum, text, i + 1, j);
      OutsideCodeRun(text, i + 1, j);
    }

    /** The scanner stands at `j` inside the block comment that opened at `i`. */
    ghost predicate InComment(i: nat, j: nat, last: Option<char>)
      reads this
    {
      && i + 2 <= j <= |text|
      && OutsideCode(text, i + 1, j) && ModeAt(text, j) == InBlock(text, j)
      && breaks == BreaksTo(alnum, text, j) && last == LastAt(text, j)
    }

    /** One character of a block comment. */
    method CommentTurn(i: nat, j: nat, depth: int, last: Option<char>) returns (last': Option<char>)
      requires InComment(i, j, last) && j + 1 < |text| && !(text[j] == '*' && text[j + 1] == '/')
      requires depth == DepthAt(text, i + 1)
      modifies `breaks
      ensures InComment(i, j + 1, last')
    {
      last' := last;
      if text[j] == '\n' {
        OutsideCodeRun(text, i + 1, j);
        Newline(j, depth, last);
        last' := None;
      }
    }

    /** The loop over a block comment, up to its closing delimiter or the end of the text. */
    method CommentBody(i: nat, depth: int, last: Option<char>) returns (j: nat, last': Option<char>)
      requires InComment(i, i + 2, last) && depth == DepthAt(text, i + 1)
      modifies `breaks
      ensures InComment(i, j, last')
      ensures j + 1 < |text| ==> text[j] == '*' && text[j + 1] == '/'
    {
      j, last' := i + 2, last;
      while j + 1 < |text| && !(text[j] == '*' && text[j + 1] == '/')
        invariant InComment(i, j, last')
      {
        last' := CommentTurn(i, j, depth, last');
        j := j + 1;
      }
    }

    method SkipBlockComment(i: nat, depth: int, last: Option<char>) returns (j: nat, last': Option<char>)
      requires InStep(i, depth, last) && At(text, i, '/') && At(text, i + 1, '*')
      modifies `breaks
      ensures i < j && InStep(j, depth, last')
    {
      assert ModeAt(text, i + 1) == BlockOpen && OutsideCode(text, i + 1, i + 1);
      j, last' := CommentBody(i, depth, last);
      CommentRun(text, i, j);
      CommentBreaks(alnum, text, i, j);
      j := j + 2;
    }

    /** From the opening backtick behind the closing one, or past the end. */
    method FindBacktick(i: nat) returns (j: nat)
      requires At(text, i, '`') && ModeAt(text, i) == Code
      ensures Literal(alnum, text, i, j) && j == RawEnd(text, i + 1)
    {
      j := i + 1;
      while j < |text| && text[j] != '`'
        invariant i < j <= |text| && RawEnd(text, j) == RawEnd(text, i + 1)
        invariant SilentBetween(text, i + 1, j)
        invariant ModeAt(text, j) == Raw
      {
        j := j + 1;
      }
      RawLiteral(alnum, text, i, j);
      j := j + 1;
    }

    method SkipRaw(i: nat, depth: int, last: Option<char>) returns (j: nat)
      requires InStep(i, depth, last) && At(text, i, '`')
      modifies `rawSpans
      ensures i < j && InStep(j, depth, Some('`'))
    {
      j := FindBacktick(i);
      rawSpans := rawSpans + [(i, j)];
    }

    /** The same for a literal that ends on its line. */
    method FindQuote(i: nat) returns (ok: bool, j: nat)
      requires i < |text| && IsLineQuote(text[i]) && ModeAt(text, i) == Code
      ensures ok ==> Literal(alnum, text, i, j)
      ensures !ok ==> ModeAt(text, |text|).Escaped?
    {
      var q := text[i];
      j := i + 1;
      while j < |text| && text[j] != q
        invariant i < j <= |text|
        invariant SilentBetween(text, i + 1, j)
        invariant ModeAt(text, j) == Quoted(q)
      {
        if text[j] == '\\' {
          j := j + 1;
          assert ModeAt(text, j) == Escaped(q) && SilentBetween(text, i + 1, j);
        }
        if j == |text| {
          return false, j;
        }
        if text[j] == '\n' { break; }
        j := j + 1;
      }
      QuotedLiteral(alnum, text, i, j, q);
      ok, j := true, j + 1;
    }

    method SkipQuoted(i: nat, depth: int, last: Option<char>) returns (ok: bool, j: nat)
      requires InStep(i, depth, last) && i < |text| && IsLineQuote(text[i])
      ensures ok ==> i < j && InStep(j, depth, Some(text[i]))
      ensures !ok ==> ModeAt(text, |text|).Escaped?
    {
      ok, j := FindQuote(i);
    }

    /** The branches of `_scan` for a single character of code. */
    method CodeTurn(i: nat, depth: int, last: Option<char>) returns (depth': int, last': Option<char>)
      requires InStep(i, depth, last) && i < |text| && !IsQuote(text[i])
      requires text[i] == '/' ==> !At(text, i + 1, '/') && !At(text, i + 1, '*')
      modifies this
      ensures InStep(i + 1, depth', last')
    {
      depth', last' := depth, last;
      var c := text[i];
      if IsOpen(c) {
        if c == '{' {
          blockOpens := blockOpens + [(i, depth)];
        }
        depth' := depth + 1;
        evOff, evDepth := evOff + [i], evDepth + [depth'];
        last' := Some(c);
      } else if IsClose(c) {
        depth' := depth - 1;
        evOff, evDepth := evOff + [i], evDepth + [depth'];
        last' := Some(c);
      } else if c == '\n' {
        Newline(i, depth, last);
        last' := None;
      } else if !IsSpace(c) {
        last' := Some(c);
      }
    }

    /**
     `_scan`. The source raises IndexError when the file ends right after a backslash inside a
     quoted literal; that is `ok == false` here, and it happens in no other case.
     */
    method Scan() returns (ok: bool)
      requires Recorded(0)
      modifies this
      ensures ok <==> !ModeAt(text, |text|).Escaped?
      ensures ok ==> Recorded(|text|)
    {
      var i, depth := 0, 0;
      var last: Option<char> := None;
      while i < |text|
        invariant InStep(i, depth, last)
        decreases |text| - i
      {
        var c := text[i];
        if c == '/' && i + 1 < |text| && text[i + 1] == '/' {
          i := SkipLineComment(i, depth, last);
        } else if c == '/' && i + 1 < |text| && text[i + 1] == '*' {
          i, last := SkipBlockComment(i, depth, last);
        } else if c == '`' {
          i := SkipRaw(i, depth, last);
          last := Some('`');
        } else if IsLineQuote(c) {
          ok, i := SkipQuoted(i, depth, last);
          if !ok { return; }
          last := Some(c);
        } else {
          depth, last := CodeTurn(i, depth, last);
          i := i + 1;
        }
      }
      ok := true;
    }

    /** Everything `__init__` leaves behind: exact records, with only the block-opening braces kept. */
    ghost predicate Valid()
      reads this
    {
      && lineStarts == LineStartsTo(text, |text|)
      && rawSpans == RawsTo(text, |text|)
      && evOff == EventsTo(text, |text|) && evDepth == DepthsTo(text, |text|)
      && breaks == BreaksTo(alnum, text, |text|)
      && (forall b :: b in blockOpens <==> b.0 < |text| && BlockAt(text, b.0) && b.1 == DepthAt(text, b.0))
    }

    /** The rest of `__init__`: scan, then keep only the braces that open a block. */
    method Build() returns (ok: bool)
      requires Recorded(0)
      modifies this
      ensures ok <==> !ModeAt(text, |text|).Escaped?
      ensures ok ==> Valid()
    {
      ok := Scan();
      if ok {
        lineStarts := LineStartsTo(text, |text|);
        BracesExact(text, |text|);
        blockOpens := BlockOnly(text, blockOpens);
      }
    }

    /** `line_of`: the bisection over line starts counts the line feeds before the offset. */
    method LineOf(off: nat) returns (line: nat)
      requires Valid() && off <= |text|
      ensures line == LineNo(text, off)
    {
      LineStartsExact(text, |text|);
      LineStartsSplit(text, off, |text|);
      LineStartsExact(text, off);
      ghost var head := LineStartsTo(text, off);
      assert forall k | 0 <= k < |head| :: lineStarts[k] == head[k] by {
        assert lineStarts[..|head|] == head;
      }
      BisectRightIs(lineStarts, off, |head|);
      line := BisectRight(lineStarts, off);
    }

    /** `depth_at`: the bisection over bracket events gives opens minus closes in code. */
    method DepthOf(off: nat) returns (depth: int)
      requires Valid() && off <= |text|
      ensures depth == DepthAt(text, off)
    {
      EventsExact(text, |text|);
      EventsSplit(text, off, |text|);
      EventsExact(text, off);
      LastEvent(text, off);
      var idx := BisectLeft(evOff, off);
      depth := if idx > 0 then evDepth[idx - 1] else 0;
    }

    /** `block_end`: the event walk stops where a scan over all positions would. */
    method BlockEnd(off: nat, d0: int) returns (stop: nat)
      requires Valid() && off < |text|
      ensures stop == StopFrom(text, off + 1, d0)
    {
      EventsIncrease(text);
      var idx := BisectRight(evOff, off);
      ghost var p := off + 1;
      while idx < |evOff|
        invariant off < p <= |text| && Passed(evOff, p, idx)
        invariant StopFrom(text, off + 1, d0) == StopFrom(text, p, d0)
      {
        EventAt(text, idx);
        NextEvent(text, p, idx, d0);
        if evDepth[idx] < d0 {
          return evOff[idx];
        }
        PassedNext(evOff, p, idx);
        p := evOff[idx] + 1;
        idx := idx + 1;
      }
      NextEvent(text, p, idx, d0);
      return |text|;
    }
  }

  /** The first `idx` entries lie before `p`, the others do not. */
  ghost predicate Passed(ev: seq<int>, p: int, idx: nat) {
    && idx <= |ev|
    && (forall k | 0 <= k < idx :: ev[k] < p)
    && forall k | idx <= k < |ev| :: ev[k] >= p
  }

  lemma PassedNext(ev: seq<int>, p: int, idx: nat)
    requires Increasing(ev) && Passed(ev, p, idx) && idx < |ev|
    ensures Passed(ev, ev[idx] + 1, idx + 1)
  {
  }

  lemma EventsIncrease(text: string)
    ensures Increasing(EventsTo(text, |text|)) && |EventsTo(text, |text|)| == |DepthsTo(text, |text|)|
  {
    EventsExact(text, |text|);
  }

  lemma EventAt(text: string, idx: nat)
    requires idx < |EventsTo(text, |text|)| == |DepthsTo(text, |text|)|
    ensures var e := EventsTo(text, |text|)[idx];
      0 <= e < |text| && Bracket(text, e) && DepthsTo(text, |text|)[idx] == DepthAt(text, e + 1)
  {
    EventsExact(text, |text|);
    assert EventsTo(text, |text|)[idx] in EventsTo(text, |text|);
  }

  /** Nothing happens before the next recorded bracket. */
  lemma NextEvent(text: string, p: nat, idx: nat, d0: int)
    requires p <= |text| && Passed(EventsTo(text, |text|), p, idx)
    ensures var ev := EventsTo(text, |text|);
      var e := if idx < |ev| then ev[idx] else |text|;
      p <= e <= |text| && StopFrom(text, p, d0) == StopFrom(text, e, d0)
  {
    EventsExact(text, |text|);
    var ev := EventsTo(text, |text|);
    var e := if idx < |ev| then ev[idx] else |text|;
    assert forall k | p <= k < e :: k !in ev;
    StopSkips(text, p, e, d0);
  }

  /** The number of the line that the offset lies on. */
  function LineNo(text: string, off: nat): nat
    requires off <= |text|
  {
    1 + CountBefore(text, '\n', off)
  }

  predicate BlockAt(text: string, b: nat)
    requires b < |text|
  {
    ModeAt(text, b) == Code && text[b] == '{' && OpensBlock(text, b)
  }

  function BlockOnly(text: string, opens: seq<(nat, int)>): (kept: seq<(nat, int)>)
    requires forall b | b in opens :: b.0 < |text|
    ensures forall b :: b in kept <==> b in opens && OpensBlock(text, b.0)
  {
    if opens == [] then []
    else if OpensBlock(text, opens[0].0) then [opens[0]] + BlockOnly(text, opens[1..])
    else BlockOnly(text, opens[1..])
  }

  /** The first position from `p` on where the depth falls below `d0`. */
  function StopFrom(text: string, p: nat, d0: int): (stop: nat)
    requires p <= |text|
    ensures p <= stop <= |text|
    decreases |text| - p
  {
    if p == |text| then p
    else if Bracket(text, p) && DepthAt(text, p + 1) < d0 then p
    else StopFrom(text, p + 1, d0)
  }

  lemma {:induction false} StopSkips(text: string, p: nat, e: nat, d0: int)
    requires p <= e <= |text|
    requires forall k | p <= k < e :: !Bracket(text, k)
    ensures StopFrom(text, p, d0) == StopFrom(text, e, d0)
    decreases e - p
  {
    if p < e { StopSkips(text, p + 1, e, d0); }
  }

  /** Up to the stop the depth never falls below `d0`: the region stays inside the block. */
  lemma {:induction false} StaysInBlock(text: string, p: nat, d0: int)
    requires p <= |text| && DepthAt(text, p) >= d0
    ensures forall q | p <= q <= StopFrom(text, p, d0) :: DepthAt(text, q) >= d0
    decreases |text| - p
  {
    if p < |text| && !(Bracket(text, p) && DepthAt(text, p + 1) < d0) {
      StaysInBlock(text, p + 1, d0);
    }
  }

  lemma {:induction false} LineStartsSplit(text: string, off: nat, n: nat)
    requires off <= n <= |text|
    ensures |LineStartsTo(text, off)| <= |LineStartsTo(text, n)|
    ensures LineStartsTo(text, n)[..|LineStartsTo(text, off)|] == LineStartsTo(text, off)
    ensures forall k | |LineStartsTo(text, off)| <= k < |LineStartsTo(text, n)| :: LineStartsTo(text, n)[k] > off
    decreases n - off
  {
    if off < n { LineStartsSplit(text, off, n - 1); }
  }

  lemma {:induction false} EventsSplit(text: string, off: nat, n: nat)
    requires off <= n <= |text|
    ensures |EventsTo(text, off)| <= |EventsTo(text, n)| == |DepthsTo(text, n)|
    ensures |EventsTo(text, off)| == |DepthsTo(text, off)|
    ensures EventsTo(text, n)[..|EventsTo(text, off)|] == EventsTo(text, off)
    ensures DepthsTo(text, n)[..|EventsTo(text, off)|] == DepthsTo(text, off)
    ensures forall k | |EventsTo(text, off)| <= k < |EventsTo(text, n)| :: EventsTo(text, n)[k] >= off
    decreases n - off
  {
    if off < n {
      EventsSplit(text, off, n - 1);
    } else {
      EventCount(text, off);
    }
  }

  lemma {:induction false} EventCount(text: string, i: nat)
    requires i <= |text|
    ensures |EventsTo(text, i)| == |DepthsTo(text, i)|
  {
    if i > 0 { EventCount(text, i - 1); }
  }

  lemma {:induction false} LastEvent(text: string, i: nat)
    requires i <= |text|
    ensures DepthAt(text, i) == if DepthsTo(text, i) == [] then 0 else DepthsTo(text, i)[|DepthsTo(text, i)| - 1]
  {
    if i > 0 { LastEvent(text, i - 1); }
  }

  /** A quote and a backslash: the scanner would read past the end of this text, so that `Scan` fails on it. */
  lemma EndsInBackslash() returns (text: string)
    ensures text == "\"\\" && ModeAt(text, |text|).Escaped?
  {
    text := "\"\\";
    assert ModeAt(text, 0) == Code;
    assert ModeAt(text, 1) == Quoted('"');
    assert ModeAt(text, 2) == Escaped('"');
  }
}
