/**
 `find_suppressions` of scripts/lint-orgid-queries.py: where the opt-out comments of a file stand. What the
 regular expression finds, with its kind and offset, is the input.
 */
module Suppressions {
  import opened PyText
  import opened GoText
  import opened GoIndex
  import opened Governed

  datatype Kind = Global | JoinOk

  /** A hit of the regular expression. */
  datatype Match = Match(kind: Kind, offset: nat)

  datatype OptOut = OptOut(kind: Kind, comment: Governed.Comment)

  predicate Within(text: string, matches: seq<Match>) {
    forall i | 0 <= i < |matches| :: matches[i].offset < |text|
  }

  /** Where the line of an offset begins. */
  function LineStart(text: string, off: nat): (k: nat)
    requires off <= |text|
    ensures k <= off && forall x | k <= x < off :: text[x] != '\n'
  {
    if off == 0 || text[off - 1] == '\n' then off else LineStart(text, off - 1)
  }

  predicate SlashesAt(text: string, q: nat) {
    At(text, q, '/') && At(text, q + 1, '/')
  }

  /** `rfind("//", lo, hi)`. */
  function LastSlashes(text: string, lo: nat, hi: nat): (r: Option<nat>)
    requires hi <= |text|
    ensures r.Some? ==> lo <= r.value && r.value + 2 <= hi && SlashesAt(text, r.value)
    ensures forall q: nat | (if r.Some? then r.value + 1 else lo) <= q && q + 2 <= hi :: !SlashesAt(text, q)
  {
    if hi < lo + 2 then None
    else if SlashesAt(text, hi - 2) then Some(hi - 2)
    else LastSlashes(text, lo, hi - 1)
  }

  /** `in_raw_string`. */
  predicate InRaw(spans: seq<(nat, nat)>, off: nat) {
    exists i | 0 <= i < |spans| :: spans[i].0 < off < spans[i].1
  }

  /** The comment that a hit belongs to: the last `//` in front of it on its line. */
  function Place(text: string, m: Match): Option<OptOut>
    requires m.offset < |text|
  {
    var lo := LineStart(text, m.offset);
    var marker := LastSlashes(text, lo, m.offset);
    if marker.None? then None
    else Some(OptOut(m.kind, Comment(marker.value, LineNo(text, m.offset), Strip(text[lo..marker.value]) == "")))
  }

  /** Every opt-out stands at a comment. */
  predicate Placed(text: string, outs: seq<OptOut>) {
    forall o | o in outs :: At(text, o.comment.offset, '/')
  }

  function OptOuts(text: string, matches: seq<Match>): (outs: seq<OptOut>)
    requires Within(text, matches)
    ensures Placed(text, outs)
  {
    if matches == [] then []
    else
      var m, rest := matches[|matches| - 1], OptOuts(text, matches[..|matches| - 1]);
      if InRaw(RawsTo(text, |text|), m.offset) || Place(text, m).None? then rest else rest + [Place(text, m).value]
  }

  function Unparsed(text: string, matches: seq<Match>): nat
    requires Within(text, matches)
  {
    if matches == [] then 0
    else
      var m, rest := matches[|matches| - 1], Unparsed(text, matches[..|matches| - 1]);
      if !InRaw(RawsTo(text, |text|), m.offset) && Place(text, m).None? then rest + 1 else rest
  }

  lemma {:induction false} LastLineStart(text: string, off: nat)
    requires off <= |text|
    ensures var ls := LineStartsTo(text, off); |ls| > 0 && ls[|ls| - 1] == LineStart(text, off)
  {
    if off > 0 { LastLineStart(text, off - 1); }
  }

  /** The recorded start of the line of an offset. */
  lemma LineStartRecorded(text: string, off: nat)
    requires off <= |text|
    ensures var ls, k := LineStartsTo(text, |text|), LineNo(text, off) - 1;
      k < |ls| && ls[k] == LineStart(text, off)
  {
    LineStartsSplit(text, off, |text|);
    LineStartsExact(text, off);
    LastLineStart(text, off);
    var head, all := LineStartsTo(text, off), LineStartsTo(text, |text|);
    assert all[..|head|][|head| - 1] == all[|head| - 1];
  }

  /** One hit outside raw strings. */
  method PlaceMatch(src: GoSource, m: Match) returns (place: Option<OptOut>)
    requires src.Valid() && m.offset < |src.text|
    ensures place == Place(src.text, m)
  {
    var line := src.LineOf(m.offset);
    LineStartRecorded(src.text, m.offset);
    var lineStart := src.lineStarts[line - 1];
    var marker := LastSlashes(src.text, lineStart, m.offset);
    if marker.None? {
      return None;
    }
    return Some(OptOut(m.kind, Comment(marker.value, line, Strip(src.text[lineStart..marker.value]) == "")));
  }

  method FindSuppressions(src: GoSource, matches: seq<Match>) returns (found: seq<OptOut>, unparsed: nat)
    requires src.Valid() && Within(src.text, matches)
    ensures found == OptOuts(src.text, matches) && unparsed == Unparsed(src.text, matches)
  {
    found, unparsed := [], 0;
    for i := 0 to |matches|
      invariant found == OptOuts(src.text, matches[..i]) && unparsed == Unparsed(src.text, matches[..i])
    {
      assert matches[..i + 1][..i] == matches[..i];
      if InRaw(src.rawSpans, matches[i].offset) {
        continue;
      }
      var place := PlaceMatch(src, matches[i]);
      if place.None? {
        unparsed := unparsed + 1;
      } else {
        found := found + [place.value];
      }
    }
    assert matches[..|matches|] == matches;
  }

  // ---------------------------------------------------------------- none is lost

  /** No `//` is in front of the offset on its line. */
  ghost predicate NoMarker(text: string, off: nat)
    requires off < |text|
  {
    forall q | LineStart(text, off) <= q && q + 2 <= off :: !SlashesAt(text, q)
  }

  ghost predicate IsRaw(text: string, off: nat) {
    InRaw(RawsTo(text, |text|), off)
  }

  /** The hits outside raw strings without a marker. */
  ghost function Unplaced(text: string, matches: seq<Match>): set<nat>
    requires Within(text, matches)
  {
    set i: nat | i < |matches| && !IsRaw(text, matches[i].offset) && NoMarker(text, matches[i].offset)
  }

  ghost function InRaws(text: string, matches: seq<Match>): set<nat>
    requires Within(text, matches)
  {
    set i: nat | i < |matches| && IsRaw(text, matches[i].offset)
  }

  lemma PlaceIsNone(text: string, m: Match)
    requires m.offset < |text|
    ensures Place(text, m).None? <==> NoMarker(text, m.offset)
  {
    var r := LastSlashes(text, LineStart(text, m.offset), m.offset);
    if r.Some? { assert SlashesAt(text, r.value); }
  }

  /** One more hit. */
  lemma SetsMore(text: string, matches: seq<Match>, n: nat)
    requires Within(text, matches) && n + 1 == |matches|
    ensures var off := matches[n].offset;
      && Unplaced(text, matches)
         == Unplaced(text, matches[..n]) + (if !IsRaw(text, off) && NoMarker(text, off) then {n} else {})
      && InRaws(text, matches) == InRaws(text, matches[..n]) + (if IsRaw(text, off) then {n} else {})
      && n !in Unplaced(text, matches[..n]) && n !in InRaws(text, matches[..n])
  {
    hide IsRaw, NoMarker;
  }

  lemma CountsMore(text: string, matches: seq<Match>, n: nat)
    requires Within(text, matches) && n + 1 == |matches|
    ensures var off, before := matches[n].offset, matches[..n];
      && Unparsed(text, matches) == Unparsed(text, before) + (if !IsRaw(text, off) && NoMarker(text, off) then 1 else 0)
      && |OptOuts(text, matches)|
         == |OptOuts(text, before)| + (if !IsRaw(text, off) && !NoMarker(text, off) then 1 else 0)
  {
    hide NoMarker, Place, RawsTo, InRaw;
    PlaceIsNone(text, matches[n]);
  }

  /** Every hit outside raw strings is an opt-out or counted, the latter if and only if it has no marker. */
  lemma {:induction false} EveryHitCounts(text: string, matches: seq<Match>)
    requires Within(text, matches)
    ensures Unparsed(text, matches) == |Unplaced(text, matches)|
    ensures |OptOuts(text, matches)| + |Unplaced(text, matches)| + |InRaws(text, matches)| == |matches|
  {
    if matches == [] {
      assert Unplaced(text, matches) == {} && InRaws(text, matches) == {};
    } else {
      var n := |matches| - 1;
      EveryHitCounts(text, matches[..n]);
      SetsMore(text, matches, n);
      CountsMore(text, matches, n);
    }
  }

  // ---------------------------------------------------------------- where they stand

  lemma {:induction false} SameLine(text: string, a: nat, b: nat)
    requires a <= b <= |text| && forall x | a <= x < b :: text[x] != '\n'
    ensures LineNo(text, a) == LineNo(text, b) && LineStart(text, a) == LineStart(text, b)
    decreases b - a
  {
    if a < b { SameLine(text, a, b - 1); }
  }

  lemma BlankIffSpace(s: string)
    ensures Strip(s) == "" <==> AllSpace(s)
  {
    var l, r := StripSplits(s);
    if Strip(s) == "" {
      assert s == l + "" + r;
      assert l + "" == l;
      AllSpaceJoin(l, r);
    } else {
      assert s[|l|] == Strip(s)[0];
    }
  }

  /** The opt-out stands at a `//`, on that line; it is standalone if nothing but whitespace is left of it. */
  predicate OnItsLine(text: string, c: Governed.Comment) {
    && SlashesAt(text, c.offset) && c.line == LineNo(text, c.offset)
    && (c.standalone <==> AllSpace(text[LineStart(text, c.offset)..c.offset]))
  }

  lemma PlaceOnLine(text: string, m: Match)
    requires m.offset < |text| && Place(text, m).Some?
    ensures var o := Place(text, m).value;
      o.kind == m.kind && OnItsLine(text, o.comment) && o.comment.line == LineNo(text, m.offset)
  {
    var c := Place(text, m).value.comment;
    SameLine(text, LineStart(text, m.offset), c.offset);
    SameLine(text, c.offset, m.offset);
    BlankIffSpace(text[LineStart(text, m.offset)..c.offset]);
  }

  /** The hit lies outside raw strings, and `o` is its opt-out. */
  predicate Gives(text: string, m: Match, o: OptOut) {
    m.offset < |text| && !InRaw(RawsTo(text, |text|), m.offset) && Place(text, m) == Some(o)
  }

  /** The opt-outs are those of the hits outside raw strings that have a `//` in front. */
  lemma {:induction false} OptOutsExact(text: string, matches: seq<Match>, o: OptOut)
    requires Within(text, matches)
    ensures o in OptOuts(text, matches) <==> exists m :: m in matches && Gives(text, m, o)
  {
    if matches != [] {
      var n := |matches| - 1;
      OptOutsExact(text, matches[..n], o);
      assert matches == matches[..n] + [matches[n]];
      assert o in OptOuts(text, matches) <==> o in OptOuts(text, matches[..n]) || Gives(text, matches[n], o);
    }
  }

  /** Every opt-out stands on its line. */
  lemma OptOutsArePlaced(text: string, matches: seq<Match>)
    requires Within(text, matches)
    ensures forall o | o in OptOuts(text, matches) :: OnItsLine(text, o.comment)
  {
    forall o | o in OptOuts(text, matches) ensures OnItsLine(text, o.comment) {
      OptOutsExact(text, matches, o);
      var m :| m in matches && Gives(text, m, o);
      PlaceOnLine(text, m);
    }
  }

  // ---------------------------------------------------------------- hits in comments

  lemma {:induction false} RawInside(text: string, s: nat, q: nat)
    requires s < q < |text| && ModeAt(text, s) == GoText.Code && text[s] == '`' && q < RawEnd(text, s + 1)
    ensures ModeAt(text, q) == Raw && RawEnd(text, q) == RawEnd(text, s + 1)
    decreases q
  {
    if s + 1 < q {
      RawInside(text, s, q - 1);
    }
  }

  lemma {:induction false} LineInside(text: string, p: nat, q: nat)
    requires p + 2 <= q < |text| && ModeAt(text, p) == GoText.Code && SlashesAt(text, p)
    requires forall x | p <= x <= q :: text[x] != '\n'
    ensures ModeAt(text, q) == Line
    decreases q
  {
    assert ModeAt(text, p + 1) == LineOpen;
    if p + 2 < q { LineInside(text, p, q - 1); }
  }

  /** What lies in a line comment lies in no raw string. */
  lemma LineIsNotRaw(text: string, q: nat)
    requires q < |text| && ModeAt(text, q) == Line
    ensures !InRaw(RawsTo(text, |text|), q)
  {
    var raws := RawsTo(text, |text|);
    RawsExact(text, |text|);
    if InRaw(raws, q) {
      var i :| 0 <= i < |raws| && raws[i].0 < q < raws[i].1;
      assert raws[i] in raws;
      RawInside(text, raws[i].0, q);
    }
  }

  /**
   A hit in the line comment that opens at `p` is always found. The opt-out is placed where the comment opens,
   and is standalone if that is alone on its line, if and only if there is no further `//` in front of the hit.
   */
  lemma CommentIsFound(text: string, p: nat, m: Match)
    requires p + 2 <= m.offset < |text| && ModeAt(text, p) == GoText.Code && SlashesAt(text, p)
    requires forall x | p <= x <= m.offset :: text[x] != '\n'
    ensures !InRaw(RawsTo(text, |text|), m.offset) && Place(text, m).Some?
    ensures var c := Place(text, m).value.comment;
      && (c.offset == p <==> forall q | p < q && q + 2 <= m.offset :: !SlashesAt(text, q))
      && (c.standalone <==> c.offset == p && AllSpace(text[LineStart(text, p)..p]))
  {
    LineInside(text, p, m.offset);
    LineIsNotRaw(text, m.offset);
    SameLine(text, p, m.offset);
    assert SlashesAt(text, p);
    var lo, c := LineStart(text, p), Place(text, m).value.comment;
    PlaceOnLine(text, m);
    SameLine(text, p, c.offset);
    if p < c.offset {
      assert text[lo..c.offset][p - lo] == '/';
    }
  }

  /** A hit in a string is taken for an opt-out, if a `//` stands in front of it. */
  lemma StringIsAnOptOut(text: string, m: Match)
    requires text == "\"//orgid-lint:global\"" && m.offset == 3
    ensures ModeAt(text, 3) == Quoted('"') && !InRaw(RawsTo(text, |text|), 3) && Place(text, m).Some?
  {
    assert ModeAt(text, 0) == GoText.Code;
    assert ModeAt(text, 1) == Quoted('"');
    assert ModeAt(text, 2) == Quoted('"');
    assert SlashesAt(text, 1);
    SameLine(text, 0, 3);
    NoBacktick(text, |text|);
  }

  lemma {:induction false} NoBacktick(text: string, i: nat)
    requires i <= |text| && forall k | 0 <= k < i :: text[k] != '`'
    ensures RawsTo(text, i) == []
  {
    if i > 0 { NoBacktick(text, i - 1); }
  }
}
