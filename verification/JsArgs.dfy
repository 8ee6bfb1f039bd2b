/**
 `match_paren` and `split_top_level_args` of scripts/check_fe_csrf.py, and their print/parse
 round trip: printing a call and reading it back returns the argument list.
 */
module JsArgs {
  import opened PyText
  import opened JsScanner

  function After(i: nat, m: Mode, s: string): nat
    requires i < |s|
  {
    i + Width(m, s[i], CharAt(s, i + 1))
  }

  function Then(i: nat, m: Mode, s: string): Mode
    requires i < |s|
  {
    Next(m, s[i], CharAt(s, i + 1))
  }

  // ---------------------------------------------------------------- match_paren

  /** The closing parenthesis `match_paren` finds from `i`, in state `m` with `depth` open brackets. */
  function MatchFrom(s: string, i: nat, m: Mode, depth: int): Option<nat>
    decreases |s| - i
  {
    if i >= |s| then None
    else if m == Code && IsOpen(s[i]) then MatchFrom(s, i + 1, Code, depth + 1)
    else if m == Code && IsClose(s[i]) then
      if depth == 1 && s[i] == ')' then Some(i) else MatchFrom(s, i + 1, Code, depth - 1)
    else MatchFrom(s, After(i, m, s), Then(i, m, s), depth)
  }

  method MatchParen(src: string, openIdx: nat) returns (close: Option<nat>)
    ensures close == MatchFrom(src, openIdx, Code, 0)
  {
    var depth := 0;
    var i, state, tplDepth := openIdx, InCode, 0;
    while i < |src|
      invariant !state.InLine? && !state.InBlock? && (!state.InExpr? ==> tplDepth == 0)
      invariant MatchFrom(src, openIdx, Code, 0) == MatchFrom(src, i, ModeOf(state, tplDepth), depth)
      decreases |src| - i
    {
      if state == InCode && IsOpen(src[i]) {
        depth := depth + 1;
        i := i + 1;
      } else if state == InCode && IsClose(src[i]) {
        depth := depth - 1;
        if depth == 0 && src[i] == ')' {
          return Some(i);
        }
        i := i + 1;
      } else {
        var width;
        state, tplDepth, width := Turn(state, tplDepth, src[i], CharAt(src, i + 1));
        i := i + width;
      }
    }
    return None;
  }

  // ---------------------------------------------------------------- split_top_level_args

  function Deeper(m: Mode, ch: char, depth: int): int {
    if m == Code && IsOpen(ch) then depth + 1 else if m == Code && IsClose(ch) then depth - 1 else depth
  }

  /** Where the characters of this turn end: an escape in last position has no partner. */
  function End(i: nat, m: Mode, s: string): (e: nat)
    requires i < |s|
    ensures i < e <= |s|
  {
    if After(i, m, s) <= |s| then After(i, m, s) else |s|
  }

  /** The characters of this turn. */
  function Taken(i: nat, m: Mode, s: string): (r: string)
    requires i < |s|
    ensures r != ""
  {
    s[i..End(i, m, s)]
  }

  /** The argument pieces from `i` on, untrimmed; `cur` is what the current piece already holds. */
  function Pieces(s: string, i: nat, m: Mode, depth: int, cur: string): (ps: seq<string>)
    ensures |ps| > 0 && |ps[0]| >= |cur|
    decreases |s| - i
  {
    if i >= |s| then [cur]
    else if m == Code && s[i] == ',' && depth == 0 then [cur] + Pieces(s, i + 1, Code, 0, "")
    else Pieces(s, After(i, m, s), Then(i, m, s), Deeper(m, s[i], depth), cur + Taken(i, m, s))
  }

  function StripAll(ps: seq<string>): seq<string> {
    if ps == [] then [] else StripAll(ps[..|ps| - 1]) + [Strip(ps[|ps| - 1])]
  }

  /** Every piece trimmed; a blank last piece is dropped. */
  function Trim(ps: seq<string>): seq<string>
    requires |ps| > 0
  {
    if Strip(ps[|ps| - 1]) == "" then StripAll(ps[..|ps| - 1]) else StripAll(ps)
  }

  lemma StripAllMore(done: seq<string>, piece: string)
    ensures StripAll(done + [piece]) == StripAll(done) + [Strip(piece)]
    ensures Trim(done + [piece]) == if Strip(piece) == "" then StripAll(done) else StripAll(done) + [Strip(piece)]
  {
    assert (done + [piece])[..|done|] == done;
  }

  /** One turn of the argument loop; `ended` says that it stood on a top-level comma. */
  method ArgTurn(s: string, i: nat, state: Word, tplDepth: int, depth: int, current: string)
    returns (ended: bool, i': nat, state': Word, tplDepth': int, depth': int, current': string)
    requires i < |s| && !state.InLine? && !state.InBlock? && (!state.InExpr? ==> tplDepth == 0)
    ensures i < i' && !state'.InLine? && !state'.InBlock? && (!state'.InExpr? ==> tplDepth' == 0)
    ensures var rest := Pieces(s, i', ModeOf(state', tplDepth'), depth', current');
            Pieces(s, i, ModeOf(state, tplDepth), depth, current) == if ended then [current] + rest else rest
  {
    if state == InCode && s[i] == ',' && depth == 0 {
      return true, i + 1, state, tplDepth, depth, "";
    }
    depth' := depth;
    if state == InCode && IsOpen(s[i]) {
      depth' := depth + 1;
    } else if state == InCode && IsClose(s[i]) {
      depth' := depth - 1;
    }
    var width;
    state', tplDepth', width := Turn(state, tplDepth, s[i], CharAt(s, i + 1));
    ended, i', current' := false, i + width, current + s[i..if i + width <= |s| then i + width else |s|];
  }

  /** Of all the pieces the first `k` are returned trimmed, and `todo` is what the loop still has to find. */
  ghost predicate Reached(all: seq<string>, k: nat, args: seq<string>, todo: seq<string>) {
    k <= |all| && args == StripAll(all[..k]) && todo == all[k..]
  }

  lemma Advance(all: seq<string>, k: nat, args: seq<string>, piece: string, rest: seq<string>)
    requires Reached(all, k, args, [piece] + rest)
    ensures Reached(all, k + 1, args + [Strip(piece)], rest)
  {
    assert all[k] == all[k..][0] == piece && all[k + 1..] == all[k..][1..] == rest;
    assert all[..k + 1] == all[..k] + [piece];
    StripAllMore(all[..k], piece);
  }

  lemma Finish(all: seq<string>, k: nat, args: seq<string>, piece: string)
    requires Reached(all, k, args, [piece]) && |all| > 0
    ensures Trim(all) == if Strip(piece) == "" then args else args + [Strip(piece)]
  {
    assert all == all[..k] + [piece];
    StripAllMore(all[..k], piece);
  }

  method SplitTopLevelArgs(arglist: string) returns (args: seq<string>)
    ensures args == Trim(Pieces(arglist, 0, Code, 0, ""))
  {
    args := [];
    var i, state, tplDepth, depth, current := 0, InCode, 0, 0, "";
    ghost var k, all := 0, Pieces(arglist, 0, Code, 0, "");
    while i < |arglist|
      invariant !state.InLine? && !state.InBlock? && (!state.InExpr? ==> tplDepth == 0)
      invariant Reached(all, k, args, Pieces(arglist, i, ModeOf(state, tplDepth), depth, current))
      decreases |arglist| - i
    {
      var ended, piece := false, current;
      ended, i, state, tplDepth, depth, current := ArgTurn(arglist, i, state, tplDepth, depth, current);
      if ended {
        Advance(all, k, args, piece, Pieces(arglist, i, ModeOf(state, tplDepth), depth, current));
        args, k := args + [Strip(piece)], k + 1;
      }
    }
    Finish(all, k, args, current);
    var tail := Strip(current);
    if tail != "" {
      args := args + [tail];
    }
  }

  // ---------------------------------------------------------------- nothing is lost

  /** The text from `i` on. */
  function Rest(s: string, i: nat): string {
    if i <= |s| then s[i..] else ""
  }

  lemma RestTurn(s: string, i: nat, m: Mode, cur: string)
    requires i < |s|
    ensures (cur + Taken(i, m, s)) + Rest(s, After(i, m, s)) == cur + Rest(s, i)
  {
    var e := End(i, m, s);
    assert Rest(s, After(i, m, s)) == s[e..];
    assert s[i..] == s[i..e] + s[e..];
  }

  lemma RestComma(s: string, i: nat, cur: string)
    requires i < |s| && s[i] == ','
    ensures cur + "," + Rest(s, i + 1) == cur + Rest(s, i)
  {
    assert s[i..] == "," + s[i + 1..];
  }

  /** For every text: the pieces, joined by commas, are the text. */
  lemma {:induction false} PiecesJoin(s: string, i: nat, m: Mode, depth: int, cur: string)
    ensures Join(Pieces(s, i, m, depth, cur), ',') == cur + Rest(s, i)
    decreases |s| - i
  {
    if i >= |s| {
      assert cur + Rest(s, i) == cur;
    } else if m == Code && s[i] == ',' && depth == 0 {
      var rest := Pieces(s, i + 1, Code, 0, "");
      PiecesJoin(s, i + 1, Code, 0, "");
      assert "" + Rest(s, i + 1) == Rest(s, i + 1);
      JoinMore(cur, rest);
      RestComma(s, i, cur);
    } else {
      PiecesJoin(s, After(i, m, s), Then(i, m, s), Deeper(m, s[i], depth), cur + Taken(i, m, s));
      RestTurn(s, i, m, cur);
    }
  }

  lemma JoinMore(cur: string, rest: seq<string>)
    requires rest != []
    ensures Join([cur] + rest, ',') == cur + "," + Join(rest, ',')
  {
    assert ([cur] + rest)[1..] == rest;
  }

  // ---------------------------------------------------------------- balanced arguments

  /**
   From `i` on, the text lexes to its end and ends in code; the bracket depth starts at `d`, never
   falls below 0 and ends at 0; no comma lies at depth 0.
   */
  predicate Balanced(a: string, i: nat, m: Mode, d: nat)
    decreases |a| - i
  {
    if i >= |a| then i == |a| && m == Code && d == 0
    else if m == Code && IsOpen(a[i]) then Balanced(a, i + 1, Code, d + 1)
    else if m == Code && IsClose(a[i]) then d > 0 && Balanced(a, i + 1, Code, d - 1)
    else if m == Code && a[i] == ',' then d > 0 && Balanced(a, i + 1, Code, d)
    else Balanced(a, After(i, m, a), Then(i, m, a), d)
  }

  /** In context, a balanced text takes the same turns: its last character never needs a lookahead. */
  lemma SameTurnInContext(p: string, a: string, q: string, i: nat, m: Mode, d: nat)
    requires i < |a| && Balanced(a, i, m, d)
    ensures (p + a + q)[|p| + i] == a[i]
    ensures After(|p| + i, m, p + a + q) == |p| + After(i, m, a) && Then(|p| + i, m, p + a + q) == Then(i, m, a)
  {
    var s := p + a + q;
    if i + 1 < |a| {
      assert s[|p| + i + 1] == a[i + 1];
    }
  }

  /** `match_paren` crosses a balanced text and comes out at the depth it went in with. */
  lemma {:induction false} MatchCrosses(p: string, a: string, q: string, i: nat, m: Mode, d: nat, outer: nat)
    requires Balanced(a, i, m, d) && outer >= 1
    ensures MatchFrom(p + a + q, |p| + i, m, outer + d) == MatchFrom(p + a + q, |p| + |a|, Code, outer)
    decreases |a| - i
  {
    if i < |a| {
      SameTurnInContext(p, a, q, i, m, d);
      if m == Code && IsOpen(a[i]) {
        MatchCrosses(p, a, q, i + 1, Code, d + 1, outer);
      } else if m == Code && IsClose(a[i]) {
        MatchCrosses(p, a, q, i + 1, Code, d - 1, outer);
      } else {
        MatchCrosses(p, a, q, After(i, m, a), Then(i, m, a), d, outer);
      }
    }
  }

  // ---------------------------------------------------------------- print and parse

  /** An argument as it stands in a call, with the whitespace around it. */
  datatype Padded = Padded(left: string, arg: string, right: string) {
    function Whole(): string { left + arg + right }

    predicate Strips() { AllSpace(left) && AllSpace(right) && Trimmed(arg) }

    predicate Printable() { Strips() && Balanced(arg, 0, Code, 0) }
  }

  lemma {:induction false} SpacesBalanced(l: string, i: nat)
    requires AllSpace(l) && i <= |l|
    ensures Balanced(l, i, Code, 0)
    decreases |l| - i
  {
    if i < |l| {
      assert IsSpace(l[i]);
      SpacesBalanced(l, i + 1);
    }
  }

  lemma {:induction false} BalancedConcat(a: string, b: string, i: nat, m: Mode, d: nat)
    requires Balanced(a, i, m, d) && Balanced(b, 0, Code, 0)
    ensures Balanced(a + b, i, m, d)
    decreases |a| - i
  {
    if i < |a| {
      assert "" + a + b == a + b;
      SameTurnInContext("", a, b, i, m, d);
      if m == Code && IsOpen(a[i]) {
        BalancedConcat(a, b, i + 1, Code, d + 1);
      } else if m == Code && IsClose(a[i]) {
        BalancedConcat(a, b, i + 1, Code, d - 1);
      } else {
        BalancedConcat(a, b, After(i, m, a), Then(i, m, a), d);
      }
    } else {
      BalancedSuffix(a, b, 0, Code, 0);
    }
  }

  lemma {:induction false} BalancedSuffix(p: string, b: string, i: nat, m: Mode, d: nat)
    requires Balanced(b, i, m, d)
    ensures Balanced(p + b, |p| + i, m, d)
    decreases |b| - i
  {
    if i < |b| {
      assert p + b + "" == p + b;
      SameTurnInContext(p, b, "", i, m, d);
      if m == Code && IsOpen(b[i]) {
        BalancedSuffix(p, b, i + 1, Code, d + 1);
      } else if m == Code && IsClose(b[i]) {
        BalancedSuffix(p, b, i + 1, Code, d - 1);
      } else {
        BalancedSuffix(p, b, After(i, m, b), Then(i, m, b), d);
      }
    }
  }

  lemma WholeBalanced(x: Padded)
    requires x.Printable()
    ensures Balanced(x.Whole(), 0, Code, 0)
  {
    SpacesBalanced(x.left, 0);
    SpacesBalanced(x.right, 0);
    BalancedConcat(x.left, x.arg, 0, Code, 0);
    BalancedConcat(x.left + x.arg, x.right, 0, Code, 0);
  }

  function Wholes(items: seq<Padded>): seq<string> {
    if items == [] then [] else Wholes(items[..|items| - 1]) + [items[|items| - 1].Whole()]
  }

  function Args(items: seq<Padded>): seq<string> {
    if items == [] then [] else Args(items[..|items| - 1]) + [items[|items| - 1].arg]
  }

  predicate AllPrintable(items: seq<Padded>) {
    items == [] || (AllPrintable(items[..|items| - 1]) && items[|items| - 1].Printable())
  }

  predicate AllBalanced(ws: seq<string>) {
    forall w | w in ws :: Balanced(w, 0, Code, 0)
  }

  lemma {:induction false} WholesFit(items: seq<Padded>)
    requires AllPrintable(items)
    ensures AllBalanced(Wholes(items)) && AllStrip(items)
    decreases |items|
  {
    if items != [] {
      WholesFit(items[..|items| - 1]);
      WholeBalanced(items[|items| - 1]);
    }
  }

  predicate AllStrip(items: seq<Padded>) {
    items == [] || (AllStrip(items[..|items| - 1]) && items[|items| - 1].Strips())
  }

  lemma PaddedStrips(x: Padded)
    requires x.Strips()
    ensures Strip(x.Whole()) == x.arg != ""
  {
    StripPadded(x.left, x.arg, x.right);
  }

  lemma {:induction false} WholesStrip(items: seq<Padded>)
    requires AllStrip(items)
    ensures |Wholes(items)| == |items| && StripAll(Wholes(items)) == Args(items)
    ensures items != [] ==> Trim(Wholes(items)) == Args(items)
    decreases |items|
  {
    if items != [] {
      var init, last := items[..|items| - 1], items[|items| - 1];
      WholesStrip(init);
      PaddedStrips(last);
      StripAllMore(Wholes(init), last.Whole());
    }
  }

  /** What may stand behind the arguments: nothing, or a comma and whitespace. */
  predicate Trailing(rest: seq<string>) {
    rest == [] || (|rest| == 1 && AllSpace(rest[0]))
  }

  /** Trimming the texts of a list gives its arguments. */
  lemma TrailingTrims(items: seq<Padded>, rest: seq<string>)
    requires AllStrip(items) && Trailing(rest) && (items != [] || rest != [])
    ensures Trim(Wholes(items) + rest) == Args(items) && Wholes(items) + rest != []
  {
    WholesStrip(items);
    if rest == [] {
      assert Wholes(items) + rest == Wholes(items);
    } else {
      BlankStrips(rest[0]);
      StripAllMore(Wholes(items), rest[0]);
      assert rest == [rest[0]];
    }
  }

  lemma TrailingBalanced(items: seq<Padded>, rest: seq<string>)
    requires AllPrintable(items) && Trailing(rest)
    ensures AllBalanced(Wholes(items) + rest) && AllStrip(items)
  {
    WholesFit(items);
    if rest != [] {
      SpacesBalanced(rest[0], 0);
    }
  }

  /** The first of several joined texts, and the others as what stands behind its comma. */
  lemma JoinedHead(p: string, ws: seq<string>, q: string)
    requires |ws| > 1
    ensures var rest := Join(ws[1..], ',');
      && p + Join(ws, ',') + q == p + ws[0] + ("," + (rest + q))
      && p + Join(ws, ',') + q == (p + ws[0] + ",") + rest + q
  {
    HeadApart(p, ws[0], Join(ws[1..], ','), q);
  }

  lemma HeadApart(p: string, w: string, rest: string, q: string)
    ensures p + (w + "," + rest) + q == p + w + ("," + (rest + q))
    ensures p + (w + "," + rest) + q == (p + w + ",") + rest + q
  {
    Regroup(p, w + ",", rest);
    Regroup(p, w, ",");
    Regroup(p + w + ",", rest, q);
    Regroup(p + w, ",", rest + q);
  }

  // ---------------------------------------------------------------- when splitting undoes joining

  /** From `i` on, the splitter finds no comma to split at. */
  predicate CommaFree(w: string, i: nat, m: Mode, d: int)
    decreases |w| - i
  {
    i >= |w| || (!(m == Code && w[i] == ',' && d == 0)
                 && CommaFree(w, After(i, m, w), Then(i, m, w), Deeper(m, w[i], d)))
  }

  /** The splitter gets to the end of the text in code, outside all brackets. */
  predicate Closed(w: string, i: nat, m: Mode, d: int)
    decreases |w| - i
  {
    if i >= |w| then i == |w| && m == Code && d == 0
    else Closed(w, After(i, m, w), Then(i, m, w), Deeper(m, w[i], d))
  }

  /** Each text is free of such commas, and all but the last are closed. */
  predicate Separate(ws: seq<string>) {
    ws == [] || (CommaFree(ws[0], 0, Code, 0) && (|ws| == 1 || (Closed(ws[0], 0, Code, 0) && Separate(ws[1..]))))
  }

  /** The last piece: it is the whole text exactly when there is nothing to split at. */
  lemma {:induction false} LastPiece(w: string, i: nat, m: Mode, d: int, cur: string)
    ensures Pieces(w, i, m, d, cur) == [cur + Rest(w, i)] <==> CommaFree(w, i, m, d)
    decreases |w| - i
  {
    if i >= |w| {
      assert cur + Rest(w, i) == cur;
    } else if m == Code && w[i] == ',' && d == 0 {
      assert |cur + Rest(w, i)| > |cur|;
    } else {
      RestTurn(w, i, m, cur);
      LastPiece(w, After(i, m, w), Then(i, m, w), Deeper(m, w[i], d), cur + Taken(i, m, w));
    }
  }

  /** In front of a comma a text takes the turns it takes alone, except that a backslash may take the comma. */
  lemma TurnAtComma(w: string, rest: string, i: nat, m: Mode)
    requires i < |w|
    ensures var s := w + "," + rest;
      s[i] == w[i] && After(i, m, s) == After(i, m, w) && Then(i, m, s) == Then(i, m, w)
  {
    var s := w + "," + rest;
    assert s[i] == w[i] && CharAt(s, i + 1) == if i + 1 < |w| then CharAt(w, i + 1) else Some(',');
  }

  lemma PieceAtComma(w: string, rest: string, m: Mode, d: int, cur: string)
    ensures var ps := Pieces(w + "," + rest, |w|, m, d, cur);
      if m == Code && d == 0 then ps == [cur] + Pieces(w + "," + rest, |w| + 1, Code, 0, "") else |ps[0]| > |cur|
  {
    assert (w + "," + rest)[|w|] == ',';
  }

  /** A backslash in front of the comma takes it into the piece. */
  lemma EscapedComma(w: string, rest: string, i: nat, m: Mode, d: int, cur: string)
    requires i < |w| < After(i, m, w)
    ensures |Pieces(w + "," + rest, i, m, d, cur)[0]| > |cur + w[i..]| && !Closed(w, i, m, d)
  {
    TurnAtComma(w, rest, i, m);
    assert End(i, m, w + "," + rest) == |w| + 1 && m != Code;
    assert |cur + (w + "," + rest)[i..|w| + 1]| > |cur + w[i..]|;
  }

  /** The first of several pieces: it is the first text exactly when that is free of commas and closed. */
  lemma {:induction false} FirstPiece(w: string, rest: string, i: nat, m: Mode, d: int, cur: string)
    requires i <= |w|
    ensures var ps := Pieces(w + "," + rest, i, m, d, cur);
      if CommaFree(w, i, m, d) && Closed(w, i, m, d)
      then ps == [cur + w[i..]] + Pieces(w + "," + rest, |w| + 1, Code, 0, "")
      else ps[0] != cur + w[i..]
    decreases |w| - i
  {
    var s := w + "," + rest;
    if i == |w| {
      assert cur + w[i..] == cur;
      PieceAtComma(w, rest, m, d, cur);
    } else {
      TurnAtComma(w, rest, i, m);
      var j := After(i, m, w);
      if m == Code && w[i] == ',' && d == 0 {
        assert |cur + w[i..]| > |cur|;
      } else if j > |w| {
        EscapedComma(w, rest, i, m, d, cur);
      } else {
        assert s[i..j] == w[i..j] && w[i..] == w[i..j] + w[j..];
        Regroup(cur, w[i..j], w[j..]);
        FirstPiece(w, rest, j, Then(i, m, w), Deeper(m, w[i], d), cur + w[i..j]);
      }
    }
  }

  /** Behind its first `k` characters `t` is `s`. */
  predicate EndsWith(t: string, k: nat, s: string) {
    k + |s| == |t| && t[k..] == s
  }

  /** One turn, at position `i` of `s` and at position `k + i` of `t`. */
  predicate SameTurn(t: string, k: nat, s: string, i: nat, m: Mode) {
    && i < |s| && k + i < |t| && t[k + i] == s[i]
    && After(k + i, m, t) == k + After(i, m, s) && Then(k + i, m, t) == Then(i, m, s)
    && Taken(k + i, m, t) == Taken(i, m, s)
  }

  lemma ShiftTurn(t: string, k: nat, s: string, i: nat, m: Mode)
    requires EndsWith(t, k, s) && i < |s|
    ensures SameTurn(t, k, s, i, m)
  {
    assert t[k + i] == t[k..][i];
    if i + 1 < |s| {
      assert t[k + i + 1] == t[k..][i + 1];
    }
    SliceBehind(t, k, i, End(i, m, s));
  }

  lemma SliceBehind(t: string, k: nat, i: nat, e: nat)
    requires i <= e && k + e <= |t|
    ensures t[k..][i..e] == t[k + i..k + e]
  {
  }

  /** The splitter gets the same pieces. */
  predicate SamePieces(t: string, k: nat, s: string, i: nat, m: Mode, d: int, cur: string) {
    Pieces(t, k + i, m, d, cur) == Pieces(s, i, m, d, cur)
  }

  lemma ShiftOn(t: string, k: nat, s: string, i: nat, m: Mode, d: int, cur: string)
    requires SameTurn(t, k, s, i, m) && !(m == Code && s[i] == ',' && d == 0)
    requires SamePieces(t, k, s, After(i, m, s), Then(i, m, s), Deeper(m, s[i], d), cur + Taken(i, m, s))
    ensures SamePieces(t, k, s, i, m, d, cur)
  {
  }

  lemma ShiftComma(t: string, k: nat, s: string, i: nat, cur: string)
    requires SameTurn(t, k, s, i, Code) && s[i] == ',' && SamePieces(t, k, s, i + 1, Code, 0, "")
    ensures SamePieces(t, k, s, i, Code, 0, cur)
  {
  }

  /** Where a text stands does not matter to how it is split. */
  lemma {:induction false} PiecesShift(t: string, k: nat, s: string, i: nat, m: Mode, d: int, cur: string)
    requires EndsWith(t, k, s)
    ensures SamePieces(t, k, s, i, m, d, cur)
    decreases |s| - i
  {
    if i < |s| {
      ShiftTurn(t, k, s, i, m);
      if m == Code && s[i] == ',' && d == 0 {
        PiecesShift(t, k, s, i + 1, Code, 0, "");
        ShiftComma(t, k, s, i, cur);
      } else {
        PiecesShift(t, k, s, After(i, m, s), Then(i, m, s), Deeper(m, s[i], d), cur + Taken(i, m, s));
        ShiftOn(t, k, s, i, m, d, cur);
      }
    }
  }

  /** For all texts: splitting them, joined by commas, gives them back if and only if they are separate. */
  lemma {:induction false} SplitIsExact(ws: seq<string>)
    requires ws != []
    ensures Pieces(Join(ws, ','), 0, Code, 0, "") == ws <==> Separate(ws)
    decreases |ws|
  {
    var w := ws[0];
    if |ws| == 1 {
      LastPiece(w, 0, Code, 0, "");
      assert "" + Rest(w, 0) == w && ws == [w];
    } else {
      var rest := Join(ws[1..], ',');
      FirstOfJoined(w, rest);
      SplitIsExact(ws[1..]);
      HeadAndTail(Pieces(w + "," + rest, 0, Code, 0, ""), Pieces(rest, 0, Code, 0, ""), ws);
    }
  }

  lemma FirstOfJoined(w: string, rest: string)
    ensures var ps := Pieces(w + "," + rest, 0, Code, 0, "");
      if CommaFree(w, 0, Code, 0) && Closed(w, 0, Code, 0) then ps == [w] + Pieces(rest, 0, Code, 0, "")
      else ps[0] != w
  {
    FirstPiece(w, rest, 0, Code, 0, "");
    assert "" + w[0..] == w;
    PiecesShift(w + "," + rest, |w| + 1, rest, 0, Code, 0, "");
  }

  lemma HeadAndTail(ps: seq<string>, rest: seq<string>, ws: seq<string>)
    requires ps != [] && ws != []
    ensures ps == [ws[0]] + rest ==> (ps == ws <==> rest == ws[1..])
  {
    assert ws == [ws[0]] + ws[1..];
    assert ps == [ws[0]] + rest ==> ps[1..] == rest;
  }

  /** A balanced text is free of commas and closed. */
  lemma {:induction false} BalancedIsSeparate(a: string, i: nat, m: Mode, d: nat)
    requires Balanced(a, i, m, d)
    ensures CommaFree(a, i, m, d) && Closed(a, i, m, d)
    decreases |a| - i
  {
    if i < |a| {
      BalancedIsSeparate(a, After(i, m, a), Then(i, m, a), Deeper(m, a[i], d));
    }
  }

  lemma {:induction false} BalancedAreSeparate(ws: seq<string>)
    requires AllBalanced(ws)
    ensures Separate(ws)
  {
    if ws != [] {
      assert ws[0] in ws;
      BalancedIsSeparate(ws[0], 0, Code, 0);
      BalancedAreSeparate(ws[1..]);
    }
  }

  lemma MatchComma(s: string, k: nat)
    requires k < |s| && s[k] == ','
    ensures MatchFrom(s, k, Code, 1) == MatchFrom(s, k + 1, Code, 1)
  {
  }

  /** `match_paren` crosses a balanced text that it meets at depth 1. */
  lemma MatchCrossesOne(p: string, w: string, q: string)
    requires Balanced(w, 0, Code, 0)
    ensures MatchFrom(p + w + q, |p|, Code, 1) == MatchFrom(p + w + q, |p| + |w|, Code, 1)
  {
    MatchCrosses(p, w, q, 0, Code, 0, 1);
  }

  /** And the comma behind it. */
  lemma MatchCrossesComma(p: string, w: string, tail: string)
    requires Balanced(w, 0, Code, 0) && tail != "" && tail[0] == ','
    ensures MatchFrom(p + w + tail, |p|, Code, 1) == MatchFrom(p + w + tail, |p| + |w| + 1, Code, 1)
  {
    MatchCrossesOne(p, w, tail);
    MatchComma(p + w + tail, |p| + |w|);
  }

  /** The first of several joined texts, and the comma behind it. */
  lemma MatchCrossesHead(p: string, ws: seq<string>, q: string)
    requires |ws| > 1 && Balanced(ws[0], 0, Code, 0)
    ensures var head, rest := p + ws[0] + ",", Join(ws[1..], ',');
      && p + Join(ws, ',') + q == head + rest + q && |p| + |Join(ws, ',')| == |head| + |rest|
      && MatchFrom(p + Join(ws, ',') + q, |p|, Code, 1) == MatchFrom(head + rest + q, |head|, Code, 1)
  {
    JoinedHead(p, ws, q);
    MatchCrossesComma(p, ws[0], "," + (Join(ws[1..], ',') + q));
  }

  lemma {:induction false} MatchCrossesJoined(p: string, ws: seq<string>, q: string)
    requires ws != [] && AllBalanced(ws)
    ensures MatchFrom(p + Join(ws, ',') + q, |p|, Code, 1)
         == MatchFrom(p + Join(ws, ',') + q, |p| + |Join(ws, ',')|, Code, 1)
    decreases |ws|
  {
    var w := ws[0];
    assert w in ws;
    if |ws| == 1 {
      MatchCrossesOne(p, w, q);
    } else {
      MatchCrossesHead(p, ws, q);
      MatchCrossesJoined(p + w + ",", ws[1..], q);
    }
  }

  /** `match_paren` on a printed call returns its closing parenthesis. */
  lemma MatchPrinted(before: string, ws: seq<string>, after: string)
    requires AllBalanced(ws)
    ensures var inner := Join(ws, ',');
            MatchFrom(before + "(" + inner + ")" + after, |before|, Code, 0) == Some(|before| + 1 + |inner|)
  {
    var inner := Join(ws, ',');
    var p, q := before + "(", ")" + after;
    var s := p + inner + q;
    assert before + "(" + inner + ")" + after == s;
    assert s[|before|] == '(' && s[|p| + |inner|] == ')';
    assert MatchFrom(s, |before|, Code, 0) == MatchFrom(s, |p|, Code, 1);
    if ws != [] {
      MatchCrossesJoined(p, ws, q);
    }
  }

  /** Splitting a joined list, if it is separate, and trimming the pieces gives its arguments. */
  lemma SplitPrinted(items: seq<Padded>, rest: seq<string>)
    requires AllStrip(items) && Trailing(rest) && Separate(Wholes(items) + rest)
    ensures Trim(Pieces(Join(Wholes(items) + rest, ','), 0, Code, 0, "")) == Args(items)
  {
    if items != [] || rest != [] {
      TrailingTrims(items, rest);
      SplitIsExact(Wholes(items) + rest);
    } else {
      assert Wholes(items) + rest == [];
    }
  }

  /**
   Print a call with any whitespace around its arguments and with or without a comma behind the last one,
   inside any text: `match_paren` finds its closing parenthesis, and splitting the text between returns the
   arguments.
   */
  lemma CallRoundTrip(before: string, items: seq<Padded>, rest: seq<string>, after: string)
    requires AllPrintable(items) && Trailing(rest)
    ensures var inner := Join(Wholes(items) + rest, ',');
            && MatchFrom(before + "(" + inner + ")" + after, |before|, Code, 0) == Some(|before| + 1 + |inner|)
            && Trim(Pieces(inner, 0, Code, 0, "")) == Args(items)
  {
    var ws := Wholes(items) + rest;
    TrailingBalanced(items, rest);
    MatchPrinted(before, ws, after);
    BalancedAreSeparate(ws);
    SplitPrinted(items, rest);
  }
}
