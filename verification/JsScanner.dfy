/**
 The three JavaScript scanners of scripts/check_fe_csrf.py: `strip_comments`, `match_paren` and
 `split_top_level_args`. All three carry the same string- and template-aware state machine; only
 `strip_comments` also knows comments.
 */
module JsScanner {
  import opened PyText

  /** Scanner state. `Expr(d)` is inside `${ ... }` with `d` unclosed braces. */
  datatype Mode = Code | Single | Double | Template | Expr(braces: int) | LineComment | BlockComment

  function CharAt(s: string, i: nat): Option<char> {
    if i < |s| then Some(s[i]) else None
  }

  /** One turn of the loop: the next state. */
  function Next(m: Mode, ch: char, nxt: Option<char>): Mode {
    match m
    case Code => if ch == '\'' then Single else if ch == '"' then Double else if ch == '`' then Template else Code
    case Single => if ch == '\'' then Code else Single
    case Double => if ch == '"' then Code else Double
    case Template => if ch == '`' then Code else if ch == '$' && nxt == Some('{') then Expr(1) else Template
    case Expr(d) =>
      if ch == '{' then Expr(d + 1) else if ch == '}' then (if d == 1 then Template else Expr(d - 1)) else m
    case LineComment => if ch == '\n' then Code else LineComment
    case BlockComment => if ch == '*' && nxt == Some('/') then Code else BlockComment
  }

  /** One turn of the loop: how far the index moves. */
  function Width(m: Mode, ch: char, nxt: Option<char>): nat {
    if (m.Single? || m.Double? || m.Template?) && ch == '\\' then 2
    else if m.Template? && ch == '$' && nxt == Some('{') then 2
    else if m.BlockComment? && ch == '*' && nxt == Some('/') then 2
    else 1
  }

  /** Where `strip_comments` leaves the shared machine: a comment opens. */
  predicate OpensComment(m: Mode, ch: char, nxt: Option<char>) {
    m == Code && ch == '/' && (nxt == Some('/') || nxt == Some('*'))
  }

  function StripNext(m: Mode, ch: char, nxt: Option<char>): Mode {
    if OpensComment(m, ch, nxt) then (if nxt == Some('/') then LineComment else BlockComment)
    else Next(m, ch, nxt)
  }

  function StripWidth(m: Mode, ch: char, nxt: Option<char>): nat {
    if OpensComment(m, ch, nxt) then 2 else Width(m, ch, nxt)
  }

  // ---------------------------------------------------------------- strip_comments

  /** Whether one turn of `strip_comments` overwrites what it moves past. */
  predicate Blanks(m: Mode, ch: char, nxt: Option<char>) {
    OpensComment(m, ch, nxt) || ((m.LineComment? || m.BlockComment?) && ch != '\n')
  }

  /** What one turn of `strip_comments` leaves in place of the characters it moves past. */
  function Written(src: string, i: nat, m: Mode): string
    requires i < |src|
  {
    var ch, nxt := src[i], CharAt(src, i + 1);
    var w := StripWidth(m, ch, nxt);
    if Blanks(m, ch, nxt) then (if w == 2 then "  " else " ")
    else if w == 2 && i + 1 < |src| then [ch, src[i + 1]]
    else [ch]
  }

  lemma WrittenIs(src: string, i: nat, m: Mode)
    requires i < |src|
    ensures var w := StripWidth(m, src[i], CharAt(src, i + 1));
      && |Written(src, i, m)| == (if i + w <= |src| then w else 1)
      && 1 <= w <= 2
      && forall k | 0 <= k < |Written(src, i, m)| ::
           Written(src, i, m)[k] == if Blanks(m, src[i], CharAt(src, i + 1)) then ' ' else src[i + k]
  {
  }

  /** The text `strip_comments` produces from position `i` on, entered in state `m`. */
  function Stripped(src: string, i: nat, m: Mode): string
    decreases |src| - i
  {
    if i >= |src| then ""
    else
      var ch, nxt := src[i], CharAt(src, i + 1);
      Written(src, i, m) + Stripped(src, i + StripWidth(m, ch, nxt), StripNext(m, ch, nxt))
  }

  /** What is written behind the turn at `i`. */
  function Behind(src: string, i: nat, m: Mode): string
    requires i < |src|
  {
    Stripped(src, i + StripWidth(m, src[i], CharAt(src, i + 1)), StripNext(m, src[i], CharAt(src, i + 1)))
  }

  lemma StrippedTurn(src: string, i: nat, m: Mode)
    requires i < |src|
    ensures Stripped(src, i, m) == Written(src, i, m) + Behind(src, i, m)
  {
  }

  lemma {:induction false} StrippedLength(src: string, i: nat, m: Mode)
    ensures |Stripped(src, i, m)| == if i <= |src| then |src| - i else 0
    decreases |src| - i
  {
    if i < |src| {
      StrippedTurn(src, i, m);
      WrittenIs(src, i, m);
      StrippedLength(src, i + StripWidth(m, src[i], CharAt(src, i + 1)), StripNext(m, src[i], CharAt(src, i + 1)));
    }
  }

  /** The finished text `s` agrees with what is still to be written from `i` on. */
  ghost predicate Ahead(src: string, s: string, i: nat, m: Mode) {
    |s| == |src| && s[if i <= |src| then i else |src|..] == Stripped(src, i, m)
  }

  /** A text that ends in `w + rest` holds `w`, and then `rest`. */
  lemma EndsIn(s: string, i: nat, w: string, rest: string)
    requires i <= |s| && s[i..] == w + rest
    ensures i + |w| <= |s| && s[i + |w|..] == rest
    ensures forall k | i <= k < i + |w| :: s[k] == w[k - i]
  {
    assert s[i..][|w|..] == rest;
    assert forall k | i <= k < i + |w| :: s[k] == s[i..][k - i];
  }

  /** One loop turn against the finished text. */
  lemma StripTurn(src: string, s: string, i: nat, m: Mode)
    requires i < |src| && Ahead(src, s, i, m)
    ensures var w := StripWidth(m, src[i], CharAt(src, i + 1));
            && Ahead(src, s, i + w, StripNext(m, src[i], CharAt(src, i + 1)))
            && forall k | i <= k < i + w && k < |src| ::
                 s[k] == if Blanks(m, src[i], CharAt(src, i + 1)) then ' ' else src[k]
  {
    StrippedTurn(src, i, m);
    WrittenIs(src, i, m);
    EndsIn(s, i, Written(src, i, m), Behind(src, i, m));
  }

  /** The scanner's two variables, its state word and its template depth, as one mode. */
  datatype Word = InCode | InLine | InBlock | InSingle | InDouble | InTemplate | InExpr

  function ModeOf(state: Word, depth: int): Mode {
    match state
    case InCode => Code
    case InLine => LineComment
    case InBlock => BlockComment
    case InSingle => Single
    case InDouble => Double
    case InTemplate => Template
    case InExpr => Expr(depth)
  }

  /** The branches all three loops share, from the quote tests on. */
  method Turn(state: Word, depth: int, ch: char, nxt: Option<char>) returns (state': Word, depth': int, width: nat)
    requires !state.InLine? && !state.InBlock?
    requires !state.InExpr? ==> depth == 0
    ensures ModeOf(state', depth') == Next(ModeOf(state, depth), ch, nxt)
    ensures width == Width(ModeOf(state, depth), ch, nxt)
    ensures !state'.InLine? && !state'.InBlock? && (!state'.InExpr? ==> depth' == 0)
  {
    state', depth', width := state, depth, 1;
    if state == InCode {
      if ch == '\'' {
        state' := InSingle;
      } else if ch == '"' {
        state' := InDouble;
      } else if ch == '`' {
        state' := InTemplate;
      }
    } else if state == InSingle || state == InDouble {
      if ch == '\\' {
        return state, depth, 2;
      }
      if (state == InSingle && ch == '\'') || (state == InDouble && ch == '"') {
        state' := InCode;
      }
    } else if state == InTemplate {
      if ch == '\\' {
        return state, depth, 2;
      }
      if ch == '`' {
        state' := InCode;
      } else if ch == '$' && nxt == Some('{') {
        return InExpr, depth + 1, 2;
      }
    } else {
      if ch == '{' {
        depth' := depth + 1;
      } else if ch == '}' {
        depth' := depth - 1;
        if depth' == 0 {
          state' := InTemplate;
        }
      }
    }
  }

  /** The comment branches of `strip_comments` in front of the shared ones. */
  method StripStep(state: Word, depth: int, ch: char, nxt: Option<char>)
    returns (state': Word, depth': int, width: nat, blank: bool)
    requires !state.InExpr? ==> depth == 0
    ensures ModeOf(state', depth') == StripNext(ModeOf(state, depth), ch, nxt)
    ensures width == StripWidth(ModeOf(state, depth), ch, nxt) && blank == Blanks(ModeOf(state, depth), ch, nxt)
    ensures !state'.InExpr? ==> depth' == 0
  {
    state', depth', width, blank := state, depth, 1, false;
    if state == InCode && ch == '/' && nxt == Some('/') {
      return InLine, depth, 2, true;
    } else if state == InCode && ch == '/' && nxt == Some('*') {
      return InBlock, depth, 2, true;
    } else if state == InLine {
      if ch == '\n' { state' := InCode; } else { blank := true; }
    } else if state == InBlock {
      if ch == '*' && nxt == Some('/') {
        return InCode, depth, 2, true;
      }
      blank := ch != '\n';
    } else {
      state', depth', width := Turn(state, depth, ch, nxt);
    }
  }

  /** The array half way through the loop: finished before `i`, untouched from there on. */
  ghost predicate Midway(src: string, s: string, out: seq<char>, i: nat) {
    |out| == |s| == |src| && forall k | 0 <= k < |src| :: out[k] == if k < i then s[k] else src[k]
  }

  lemma MidwayTurn(src: string, s: string, out: seq<char>, out': seq<char>, i: nat, m: Mode)
    requires i < |src| && Ahead(src, s, i, m) && Midway(src, s, out, i) && |out'| == |out|
    requires forall k | 0 <= k < |out| ::
      out'[k] == if Blanks(m, src[i], CharAt(src, i + 1)) && i <= k < i + StripWidth(m, src[i], CharAt(src, i + 1))
                 then ' ' else out[k]
    ensures Midway(src, s, out', i + StripWidth(m, src[i], CharAt(src, i + 1)))
    ensures Ahead(src, s, i + StripWidth(m, src[i], CharAt(src, i + 1)), StripNext(m, src[i], CharAt(src, i + 1)))
  {
    StripTurn(src, s, i, m);
  }

  /** The overwrites of one turn. */
  method Overwrite(out: array<char>, i: nat, width: nat)
    requires 1 <= width <= 2 && i + width <= out.Length
    modifies out
    ensures forall k | 0 <= k < out.Length :: out[k] == if i <= k < i + width then ' ' else old(out[k])
  {
    out[i] := ' ';
    if width == 2 {
      out[i + 1] := ' ';
    }
  }

  /** One turn of the loop: the scanner's step, and its overwrites in the array. */
  method ArrayTurn(src: string, out: array<char>, i: nat, state: Word, depth: int, ghost s: string)
    returns (state': Word, depth': int, j: nat)
    requires i < |src| && (!state.InExpr? ==> depth == 0)
    requires Midway(src, s, out[..], i) && Ahead(src, s, i, ModeOf(state, depth))
    modifies out
    ensures i < j && (!state'.InExpr? ==> depth' == 0)
    ensures Midway(src, s, out[..], j) && Ahead(src, s, j, ModeOf(state', depth'))
  {
    ghost var before := out[..];
    var width, blank;
    state', depth', width, blank := StripStep(state, depth, src[i], CharAt(src, i + 1));
    if blank {
      Overwrite(out, i, width);
    }
    MidwayTurn(src, s, before, out[..], i, ModeOf(state, depth));
    j := i + width;
  }

  /** The array loop of the source. */
  method StripComments(src: string) returns (res: string)
    ensures res == Stripped(src, 0, Code)
  {
    var n := |src|;
    var out := new char[n](i requires 0 <= i < n => src[i]);
    var i, state, depth := 0, InCode, 0;
    ghost var s := Stripped(src, 0, Code);
    StrippedLength(src, 0, Code);
    while i < n
      invariant !state.InExpr? ==> depth == 0
      invariant Midway(src, s, out[..], i) && Ahead(src, s, i, ModeOf(state, depth))
      decreases n - i
    {
      state, depth, i := ArrayTurn(src, out, i, state, depth, s);
    }
    res := out[..];
    assert res == s;
  }
}
