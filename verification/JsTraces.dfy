/**
 What `strip_comments` keeps: length, line structure and every character outside comments; a
 second run changes nothing, and on its output the comment-free scanners go through the same states.
 */
module JsTraces {
  import opened PyText
  import opened JsScanner
  import opened JsArgs

  predicate IsComment(m: Mode) { m.LineComment? || m.BlockComment? }

  /** A comment, seen by a scanner that does not know comments any more, is code. */
  function Clean(m: Mode): Mode { if IsComment(m) then Code else m }

  /** The states `strip_comments` goes through, with the positions it is in them. */
  function StripTrace(src: string, i: nat, m: Mode): seq<(nat, Mode)>
    decreases |src| - i
  {
    if i >= |src| then []
    else
      var nxt := CharAt(src, i + 1);
      [(i, m)] + StripTrace(src, i + StripWidth(m, src[i], nxt), StripNext(m, src[i], nxt))
  }

  /** The states `match_paren` and `split_top_level_args` go through. */
  function LexTrace(src: string, i: nat, m: Mode): seq<(nat, Mode)>
    decreases |src| - i
  {
    if i >= |src| then []
    else [(i, m)] + LexTrace(src, i + Width(m, src[i], CharAt(src, i + 1)), Next(m, src[i], CharAt(src, i + 1)))
  }

  lemma StripTraceTurn(src: string, i: nat, m: Mode)
    requires i < |src|
    ensures StripTrace(src, i, m)
         == [(i, m)] + StripTrace(src, i + StripWidth(m, src[i], CharAt(src, i + 1)),
                                  StripNext(m, src[i], CharAt(src, i + 1)))
  {
  }

  lemma LexTraceTurn(src: string, i: nat, m: Mode)
    requires i < |src|
    ensures LexTrace(src, i, m)
         == [(i, m)] + LexTrace(src, i + Width(m, src[i], CharAt(src, i + 1)), Next(m, src[i], CharAt(src, i + 1)))
  {
  }

  /** Overwritten characters become spaces, line feeds are never overwritten, all others stay. */
  lemma {:induction false} OnlyBlanks(src: string, s: string, i: nat, m: Mode)
    requires Ahead(src, s, i, m)
    ensures forall k | i <= k < |src| :: KeptOrBlank(src[k], s[k])
    decreases |src| - i
  {
    if i < |src| {
      BlankTurn(src, s, i, m);
      StripTurn(src, s, i, m);
      OnlyBlanks(src, s, i + StripWidth(m, src[i], CharAt(src, i + 1)), StripNext(m, src[i], CharAt(src, i + 1)));
    }
  }

  lemma BlankTurn(src: string, s: string, i: nat, m: Mode)
    requires i < |src| && Ahead(src, s, i, m)
    ensures forall k | i <= k < i + StripWidth(m, src[i], CharAt(src, i + 1)) && k < |src| :: KeptOrBlank(src[k], s[k])
  {
    StripTurn(src, s, i, m);
  }

  /** `strip_comments` keeps the length and every line feed and writes nothing but spaces. */
  lemma PositionPreserving(src: string)
    ensures var s := Stripped(src, 0, Code);
            && |s| == |src|
            && forall k | 0 <= k < |src| :: && (s[k] == src[k] || s[k] == ' ') && (s[k] == '\n' <==> src[k] == '\n')
  {
    StrippedLength(src, 0, Code);
    OnlyBlanks(src, Stripped(src, 0, Code), 0, Code);
  }

  /** One turn over the stripped text, in the cleaned state, where the source turn is outside comments. */
  lemma SameTurn(src: string, s: string, i: nat, m: Mode)
    requires i < |src| && Ahead(src, s, i, m) && !IsComment(m) && !OpensComment(m, src[i], CharAt(src, i + 1))
    requires forall k | i <= k < |src| :: KeptOrBlank(src[k], s[k])
    ensures s[i] == src[i] && !OpensComment(m, s[i], CharAt(s, i + 1))
    ensures Width(m, s[i], CharAt(s, i + 1)) == StripWidth(m, src[i], CharAt(src, i + 1))
    ensures Next(m, s[i], CharAt(s, i + 1)) == StripNext(m, src[i], CharAt(src, i + 1))
    ensures !IsComment(StripNext(m, src[i], CharAt(src, i + 1)))
  {
    StripTurn(src, s, i, m);
  }

  /** From `i` on, `strip_comments` leaves `s` alone and goes through the same states as the others. */
  ghost predicate Stable(s: string, i: nat, m: Mode) {
    Ahead(s, s, i, m) && StripTrace(s, i, m) == LexTrace(s, i, m)
  }

  /** Every state of the first trace is one of the second. */
  ghost predicate Part(a: seq<(nat, Mode)>, b: seq<(nat, Mode)>) {
    forall v | v in a :: v in b
  }

  lemma PartOf(x: (nat, Mode), tail: seq<(nat, Mode)>)
    ensures x in [x] + tail && Part(tail, [x] + tail)
  {
  }

  lemma PartOfPart(a: seq<(nat, Mode)>, b: seq<(nat, Mode)>, c: seq<(nat, Mode)>)
    requires Part(a, b) && Part(b, c)
    ensures Part(a, c)
  {
  }

  lemma WrittenSame(s: string, i: nat, m: Mode)
    requires i < |s| && !IsComment(m) && !OpensComment(m, s[i], CharAt(s, i + 1))
    ensures var j := i + Width(m, s[i], CharAt(s, i + 1)); Written(s, i, m) == s[i..if j <= |s| then j else |s|]
  {
    var j := i + Width(m, s[i], CharAt(s, i + 1));
    if j == i + 2 && j <= |s| {
      assert s[i..j] == [s[i], s[i + 1]];
    } else {
      assert s[i..i + 1] == [s[i]];
    }
  }

  lemma AheadBack(s: string, i: nat, m: Mode)
    requires i < |s| && !IsComment(m) && !OpensComment(m, s[i], CharAt(s, i + 1))
    requires Ahead(s, s, i + Width(m, s[i], CharAt(s, i + 1)), Next(m, s[i], CharAt(s, i + 1)))
    ensures Ahead(s, s, i, m)
  {
    var j := i + Width(m, s[i], CharAt(s, i + 1));
    var e := if j <= |s| then j else |s|;
    StrippedTurn(s, i, m);
    WrittenSame(s, i, m);
    assert Behind(s, i, m) == s[e..];
    assert s[i..] == s[i..e] + s[e..];
  }

  /** A turn to `(j, m')` that opens no comment extends stability backwards. */
  lemma StableBack(s: string, i: nat, m: Mode, j: nat, m': Mode)
    requires i < |s| && !IsComment(m) && !OpensComment(m, s[i], CharAt(s, i + 1))
    requires j == i + Width(m, s[i], CharAt(s, i + 1)) && m' == Next(m, s[i], CharAt(s, i + 1))
    requires Stable(s, j, m')
    ensures Stable(s, i, m) && (i, m) in LexTrace(s, i, m) && Part(LexTrace(s, j, m'), LexTrace(s, i, m))
  {
    AheadBack(s, i, m);
    StripTraceTurn(s, i, m);
    LexTraceTurn(s, i, m);
    PartOf((i, m), LexTrace(s, j, m'));
  }

  /** One space or line feed of a former comment is code, and code goes through it. */
  lemma SpaceBack(s: string, i: nat)
    requires i < |s| && (s[i] == ' ' || s[i] == '\n') && Stable(s, i + 1, Code)
    ensures Stable(s, i, Code) && (i, Code) in LexTrace(s, i, Code)
    ensures Part(LexTrace(s, i + 1, Code), LexTrace(s, i, Code))
  {
    StableBack(s, i, Code, i + 1, Code);
  }

  /** So are the one or two that a turn has written. */
  lemma SpacesBack(s: string, i: nat, j: nat)
    requires i < j <= i + 2 && j <= |s|
    requires forall k | i <= k < j :: s[k] == ' ' || s[k] == '\n'
    requires Stable(s, j, Code)
    ensures Stable(s, i, Code) && (i, Code) in LexTrace(s, i, Code)
    ensures Part(LexTrace(s, j, Code), LexTrace(s, i, Code))
  {
    if j == i + 2 { SpaceBack(s, i + 1); }
    SpaceBack(s, i);
    PartOfPart(LexTrace(s, j, Code), LexTrace(s, i + 1, Code), LexTrace(s, i, Code));
  }

  ghost predicate SameStates(src: string, s: string, i: nat, m: Mode) {
    forall v | v in StripTrace(src, i, m) :: (v.0, Clean(v.1)) in LexTrace(s, i, Clean(m))
  }

  /** One turn of the first run inside or into a comment, replayed on its output. */
  lemma CommentTurn(src: string, s: string, i: nat, m: Mode)
    requires i < |src| && Ahead(src, s, i, m) && (IsComment(m) || OpensComment(m, src[i], CharAt(src, i + 1)))
    ensures var w := StripWidth(m, src[i], CharAt(src, i + 1));
            && 1 <= w <= 2 && i + w <= |s|
            && Clean(m) == Code == Clean(StripNext(m, src[i], CharAt(src, i + 1)))
            && forall k | i <= k < i + w :: s[k] == ' ' || s[k] == '\n'
  {
    StripTurn(src, s, i, m);
  }

  /** One turn of the first run, to `(j, m')`, replayed on its output. */
  lemma CleanTurn(src: string, s: string, i: nat, m: Mode, j: nat, m': Mode)
    requires i < |src| && Ahead(src, s, i, m)
    requires j == i + StripWidth(m, src[i], CharAt(src, i + 1)) && m' == StripNext(m, src[i], CharAt(src, i + 1))
    requires Stable(s, j, Clean(m'))
    ensures Stable(s, i, Clean(m))
    ensures (i, Clean(m)) in LexTrace(s, i, Clean(m))
    ensures Part(LexTrace(s, j, Clean(m')), LexTrace(s, i, Clean(m)))
  {
    if IsComment(m) || OpensComment(m, src[i], CharAt(src, i + 1)) {
      CommentTurn(src, s, i, m);
      SpacesBack(s, i, j);
    } else {
      OnlyBlanks(src, s, i, m);
      SameTurn(src, s, i, m);
      StableBack(s, i, m, j, m');
    }
  }

  /** Stability and recurrence of states, from any point the first run passes. */
  lemma {:induction false} Agree(src: string, s: string, i: nat, m: Mode)
    requires Ahead(src, s, i, m)
    ensures Stable(s, i, Clean(m)) && SameStates(src, s, i, m)
    decreases |src| - i
  {
    if i < |src| {
      StripTurn(src, s, i, m);
      var j, m' := i + StripWidth(m, src[i], CharAt(src, i + 1)), StripNext(m, src[i], CharAt(src, i + 1));
      Agree(src, s, j, m');
      CleanTurn(src, s, i, m, j, m');
      SameStatesBack(src, s, i, m, j, m');
    }
  }

  lemma SameStatesBack(src: string, s: string, i: nat, m: Mode, j: nat, m': Mode)
    requires i < |src| && SameStates(src, s, j, m')
    requires j == i + StripWidth(m, src[i], CharAt(src, i + 1)) && m' == StripNext(m, src[i], CharAt(src, i + 1))
    requires (i, Clean(m)) in LexTrace(s, i, Clean(m))
    requires Part(LexTrace(s, j, Clean(m')), LexTrace(s, i, Clean(m)))
    ensures SameStates(src, s, i, m)
  {
    StripTraceTurn(src, i, m);
    forall v | v in StripTrace(src, i, m) ensures (v.0, Clean(v.1)) in LexTrace(s, i, Clean(m)) {
      assert v == (i, m) || v in StripTrace(src, j, m');
    }
  }

  /** Running `strip_comments` twice is the same as running it once. */
  lemma StripIdempotent(src: string)
    ensures Stripped(Stripped(src, 0, Code), 0, Code) == Stripped(src, 0, Code)
  {
    var s := Stripped(src, 0, Code);
    StrippedLength(src, 0, Code);
    Agree(src, s, 0, Code);
    assert s[0..] == s;
  }

  /**
   One turn of the source and the finished text: every character the turn moves past, the second of an
   escape or of a template opener included, is a space if the turn is part of a comment, and kept if not.
   */
  ghost predicate TurnKept(src: string, s: string, v: (nat, Mode)) {
    && v.0 < |src| == |s|
    && forall k | v.0 <= k < v.0 + StripWidth(v.1, src[v.0], CharAt(src, v.0 + 1)) && k < |src| ::
         s[k] == if Blanks(v.1, src[v.0], CharAt(src, v.0 + 1)) then ' ' else src[k]
  }

  /** `strip_comments` changes the characters of comments, to spaces, and no others. */
  lemma {:induction false} KeptOutside(src: string, s: string, i: nat, m: Mode)
    requires Ahead(src, s, i, m)
    ensures forall v | v in StripTrace(src, i, m) :: TurnKept(src, s, v)
    decreases |src| - i
  {
    if i < |src| {
      StripTurn(src, s, i, m);
      assert TurnKept(src, s, (i, m));
      KeptOutside(src, s, i + StripWidth(m, src[i], CharAt(src, i + 1)), StripNext(m, src[i], CharAt(src, i + 1)));
    }
  }

  /** The turns of `strip_comments` move past every position, so that each one is kept or blanked by one of them. */
  lemma {:induction false} TurnsCover(src: string, i: nat, m: Mode, k: nat) returns (v: (nat, Mode))
    requires i <= k < |src|
    ensures v in StripTrace(src, i, m) && v.0 <= k < v.0 + StripWidth(v.1, src[v.0], CharAt(src, v.0 + 1))
    decreases |src| - i
  {
    var j := i + StripWidth(m, src[i], CharAt(src, i + 1));
    if k < j {
      v := (i, m);
    } else {
      v := TurnsCover(src, j, StripNext(m, src[i], CharAt(src, i + 1)), k);
    }
  }

  /**
   On stripped text all three scanners are in the same state at the same position. Wherever the first
   run was, its state is met again, comments read as code, and what it moved past outside comments stands.
   */
  lemma ScannersAgree(src: string)
    ensures var s := Stripped(src, 0, Code);
            && StripTrace(s, 0, Code) == LexTrace(s, 0, Code)
            && forall v | v in StripTrace(src, 0, Code) ::
                 (v.0, Clean(v.1)) in LexTrace(s, 0, Code) && TurnKept(src, s, v)
  {
    var s := Stripped(src, 0, Code);
    StrippedLength(src, 0, Code);
    Agree(src, s, 0, Code);
    KeptOutside(src, s, 0, Code);
  }

  // ---------------------------------------------------------------- the scanners on a call

  lemma {:induction false} TraceForward(s: string, i: nat, m: Mode)
    ensures forall v | v in LexTrace(s, i, m) :: v.0 >= i
    decreases |s| - i
  {
    if i < |s| { TraceForward(s, After(i, m, s), Then(i, m, s)); }
  }

  /** From a state the scan passes, the rest of the scan is part of it. */
  lemma {:induction false} TraceTail(s: string, i: nat, m: Mode, p: nat, mp: Mode)
    requires (p, mp) in LexTrace(s, i, m)
    ensures forall v | v in LexTrace(s, p, mp) :: v in LexTrace(s, i, m)
    decreases |s| - i
  {
    if (i, m) != (p, mp) {
      TraceTail(s, After(i, m, s), Then(i, m, s), p, mp);
    }
  }

  /** `match_paren` answers with a position its scan reaches in code. */
  lemma {:induction false} MatchVisits(s: string, i: nat, m: Mode, depth: int)
    ensures MatchFrom(s, i, m, depth).Some? ==>
              && i <= MatchFrom(s, i, m, depth).value < |s|
              && (MatchFrom(s, i, m, depth).value, Code) in LexTrace(s, i, m)
    decreases |s| - i
  {
    if i < |s| {
      if m == Code && IsOpen(s[i]) {
        MatchVisits(s, i + 1, Code, depth + 1);
      } else if m == Code && IsClose(s[i]) {
        MatchVisits(s, i + 1, Code, depth - 1);
      } else {
        MatchVisits(s, After(i, m, s), Then(i, m, s), depth);
      }
    }
  }

  /** One turn inside a cut-out piece whose end the whole scan reaches in code. */
  lemma PieceTurn(s: string, b: nat, e: nat, i: nat, m: Mode)
    requires b + i < e <= |s| && (e, Code) in LexTrace(s, b + i, m)
    ensures s[b..e][i] == s[b + i]
    ensures After(b + i, m, s) == b + After(i, m, s[b..e]) <= e && Then(b + i, m, s) == Then(i, m, s[b..e])
    ensures (e, Code) in LexTrace(s, After(b + i, m, s), Then(b + i, m, s))
  {
    var a := s[b..e];
    TraceForward(s, After(b + i, m, s), Then(b + i, m, s));
    if b + i + 1 < e {
      assert a[i + 1] == s[b + i + 1];
    }
  }

  /** Scanning a cut-out piece goes through the states of the scan it was cut from. */
  lemma {:induction false} PieceState(s: string, b: nat, e: nat, i: nat, m: Mode, v: (nat, Mode))
    requires b + i <= e <= |s| && (e, Code) in LexTrace(s, b + i, m)
    requires v in LexTrace(s[b..e], i, m)
    ensures (b + v.0, v.1) in LexTrace(s, b + i, m)
    decreases e - b - i
  {
    var a := s[b..e];
    if v != (i, m) {
      PieceTurn(s, b, e, i, m);
      PieceState(s, b, e, After(i, m, a), Then(i, m, a), v);
    }
  }

  /** `match_paren` from an opening parenthesis: its answer closes, and its scan passes it in code. */
  lemma MatchFromOpen(s: string, open: nat, close: nat)
    requires open < |s| && s[open] == '(' && MatchFrom(s, open, Code, 0) == Some(close)
    ensures open < close < |s| && s[close] == ')'
    ensures (close, Code) in LexTrace(s, open + 1, Code)
    ensures LexTrace(s, open, Code) == [(open, Code)] + LexTrace(s, open + 1, Code)
  {
    MatchVisits(s, open + 1, Code, 1);
    MatchCloses(s, open + 1, Code, 1);
  }

  lemma ArgumentStates(s: string, open: nat, close: nat)
    requires open < |s| && s[open] == '(' && MatchFrom(s, open, Code, 0) == Some(close)
    ensures open < close < |s| && s[close] == ')'
    ensures forall v | v in LexTrace(s[open + 1..close], 0, Code) :: (open + 1 + v.0, v.1) in LexTrace(s, open, Code)
  {
    MatchFromOpen(s, open, close);
    forall v | v in LexTrace(s[open + 1..close], 0, Code)
      ensures (open + 1 + v.0, v.1) in LexTrace(s, open, Code)
    {
      PieceState(s, open + 1, close, 0, Code, v);
    }
  }

  /** The states `whole` is in include those `scan` is in, moved by `shift`. */
  ghost predicate Within(scan: seq<(nat, Mode)>, shift: nat, whole: seq<(nat, Mode)>) {
    forall v | v in scan :: (shift + v.0, v.1) in whole
  }

  lemma WithinTail(scan: seq<(nat, Mode)>, shift: nat, middle: seq<(nat, Mode)>, whole: seq<(nat, Mode)>)
    requires Within(scan, shift, middle) && forall v | v in middle :: v in whole
    ensures Within(scan, shift, whole)
  {
  }

  /**
   On stripped text, for an opening parenthesis that `strip_comments` sees in code: the states
   `match_paren` goes through up to its answer, and those `split_top_level_args` goes through on
   the text between, are the states `strip_comments` itself is in at the same positions.
   */
  lemma CallStates(src: string, s: string, open: nat, close: nat)
    requires s == Stripped(src, 0, Code) && (open, Code) in StripTrace(s, 0, Code)
    requires open < |s| && s[open] == '(' && MatchFrom(s, open, Code, 0) == Some(close)
    ensures open < close < |s| && s[close] == ')'
    ensures Within(LexTrace(s, open, Code), 0, StripTrace(s, 0, Code))
    ensures Within(LexTrace(s[open + 1..close], 0, Code), open + 1, StripTrace(s, 0, Code))
  {
    ScannersAgree(src);
    ArgumentStates(s, open, close);
    TraceTail(s, 0, Code, open, Code);
    WithinTail(LexTrace(s[open + 1..close], 0, Code), open + 1, LexTrace(s, open, Code), StripTrace(s, 0, Code));
  }

  lemma {:induction false} MatchCloses(s: string, i: nat, m: Mode, depth: int)
    ensures MatchFrom(s, i, m, depth).Some? ==>
              MatchFrom(s, i, m, depth).value < |s| && s[MatchFrom(s, i, m, depth).value] == ')'
    decreases |s| - i
  {
    if i < |s| {
      if m == Code && IsOpen(s[i]) {
        MatchCloses(s, i + 1, Code, depth + 1);
      } else if m == Code && IsClose(s[i]) {
        MatchCloses(s, i + 1, Code, depth - 1);
      } else {
        MatchCloses(s, After(i, m, s), Then(i, m, s), depth);
      }
    }
  }
}
