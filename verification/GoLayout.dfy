/**
 `GoSource` of scripts/lint-orgid-queries.py on printed Go files: which positions it takes for code, which raw
 literals it records, and which line feeds end a statement.
 */
module GoLayout {
  import opened PyText
  import opened GoText
  import GoIndex
  import P = GoPieces

  // ---------------------------------------------------------------- what is read off the pieces

  /** The room a piece takes, whether it is plain code or a raw literal, and how much deeper it leads. */
  datatype Slot = Slot(size: nat, plain: bool, raw: bool, lift: int)

  function SlotOf(p: P.Piece): Slot {
    Slot(|p.Text()|, p.Plain?, p.RawText?, if p.Plain? then Rise(p.body) else 0)
  }

  function Slots(ps: seq<P.Piece>): seq<Slot> {
    if ps == [] then [] else [SlotOf(ps[0])] + Slots(ps[1..])
  }

  /** Position `x` belongs to plain code, opens a literal or comment, or is the end. */
  predicate InCode(slots: seq<Slot>, x: nat) {
    if slots == [] then true
    else if x < slots[0].size then slots[0].plain || x == 0
    else InCode(slots[1..], x - slots[0].size)
  }

  /** The raw literals, each from its first backtick to behind its last. */
  function RawsOf(slots: seq<Slot>, at: nat): seq<(nat, nat)> {
    if slots == [] then []
    else RawOf(slots[0], at) + RawsOf(slots[1..], at + slots[0].size)
  }

  function RawOf(s: Slot, at: nat): seq<(nat, nat)> {
    if s.raw then [(at, at + s.size)] else []
  }

  /** Where the `k`th piece begins, and how deep. */
  function Offset(slots: seq<Slot>, k: nat): nat
    requires k <= |slots|
  {
    if k == 0 then 0 else slots[0].size + Offset(slots[1..], k - 1)
  }

  function Depth(slots: seq<Slot>, k: nat): int
    requires k <= |slots|
  {
    if k == 0 then 0 else slots[0].lift + Depth(slots[1..], k - 1)
  }

  // ---------------------------------------------------------------- literals and comments

  /** From `i` to `j` only position `i` is code, and then `j` again. */
  ghost predicate Closes(text: string, i: nat, j: nat) {
    && i < j <= |text| && ModeAt(text, i) == Code && ModeAt(text, j) == Code
    && forall x | i < x < j :: ModeAt(text, x) != Code
  }

  lemma {:induction false} SilentIsNoCode(text: string, a: nat, b: nat, x: nat)
    requires a <= x < b <= |text| && SilentBetween(text, a, b)
    ensures ModeAt(text, x) != Code
    decreases b
  {
    if x < b - 1 { SilentIsNoCode(text, a, b - 1, x); }
  }

  lemma {:induction false} OutsideIsNoCode(text: string, a: nat, b: nat, x: nat)
    requires a <= x < b <= |text| && OutsideCode(text, a, b)
    ensures ModeAt(text, x) != Code
    decreases b
  {
    if x < b - 1 { OutsideIsNoCode(text, a, b - 1, x); }
  }

  lemma Skip(text: string, j: nat, body: string, w: nat, behind: string)
    requires From(text, j, body + behind) && w <= |body|
    ensures From(text, j + w, body[w..] + behind) && forall c | c in body[w..] :: c in body
  {
    assert body == body[..w] + body[w..];
    Regroup(body[..w], body[w..], behind);
    FromPart(text, j, body[..w], body[w..] + behind);
  }

  lemma {:induction false} QuotedModes(text: string, a: nat, j: nat, k: nat, q: char, body: string, behind: string)
    requires k == j + |body|
    requires a <= j <= |text| && From(text, j, body + ([q] + behind)) && IsLineQuote(q)
    requires ModeAt(text, j) == Quoted(q) && SilentBetween(text, a, j) && P.Closed(q, body) && '\n' !in body
    ensures k < |text| && ModeAt(text, k) == Quoted(q) && ModeAt(text, k + 1) == Code && SilentBetween(text, a, k)
    decreases |body|
  {
    FromHead(text, j, body + ([q] + behind));
    if body != "" {
      assert body[0] in body;
      if body[0] == '\\' {
        EscapeModes(text, a, j, q, body, behind);
        Skip(text, j, body, 2, [q] + behind);
        QuotedModes(text, a, j + 2, k, q, body[2..], behind);
      } else {
        Skip(text, j, body, 1, [q] + behind);
        QuotedModes(text, a, j + 1, k, q, body[1..], behind);
      }
    }
  }

  lemma EscapeModes(text: string, a: nat, j: nat, q: char, body: string, behind: string)
    requires a <= j <= |text| && From(text, j, body + ([q] + behind)) && |body| > 1 && body[0] == '\\'
    requires ModeAt(text, j) == Quoted(q) && q != '\\' && SilentBetween(text, a, j) && '\n' !in body
    ensures j + 2 <= |text| && ModeAt(text, j + 2) == Quoted(q) && SilentBetween(text, a, j + 2)
  {
    FromHead(text, j, body + ([q] + behind));
    assert body[1] in body;
    assert ModeAt(text, j + 1) == Escaped(q) && SilentBetween(text, a, j + 1);
  }

  lemma {:induction false} RawModes(text: string, a: nat, j: nat, body: string, behind: string)
    requires a <= j <= |text| && From(text, j, body + ("`" + behind)) && '`' !in body
    requires ModeAt(text, j) == Raw && SilentBetween(text, a, j)
    ensures var k := j + |body|;
      && k < |text| && ModeAt(text, k) == Raw && ModeAt(text, k + 1) == Code && SilentBetween(text, a, k)
      && RawEnd(text, j) == k + 1
    decreases |body|
  {
    hide From;
    FromHead(text, j, body + ("`" + behind));
    if body != "" {
      assert body[0] in body;
      Skip(text, j, body, 1, "`" + behind);
      RawModes(text, a, j + 1, body[1..], behind);
    }
  }

  lemma {:induction false} LineModes(text: string, a: nat, j: nat, body: string, behind: string)
    requires a <= j <= |text| && From(text, j, body + behind) && '\n' !in body
    requires ModeAt(text, j) == InLine(text, j) && SilentBetween(text, a, j)
    ensures var k := j + |body|;
      k <= |text| && ModeAt(text, k) == InLine(text, k) && SilentBetween(text, a, k)
    decreases |body|
  {
    if body != "" {
      FromHead(text, j, body + behind);
      assert body[0] in body;
      Skip(text, j, body, 1, behind);
      LineModes(text, a, j + 1, body[1..], behind);
    }
  }

  lemma {:induction false} NoteModes(text: string, a: nat, j: nat, k: nat, body: string, behind: string)
    requires k == j + |body|
    requires a <= j <= |text| && From(text, j, body + ("*/" + behind)) && P.NoEnd(body)
    requires OutsideCode(text, a, j) && ModeAt(text, j) == InBlock(text, j)
    ensures k + 2 <= |text| && ModeAt(text, k + 2) == Code && OutsideCode(text, a, k + 2)
    decreases |body|
  {
    if body == "" {
      NoteEnds(text, a, j, behind);
    } else {
      FromHead(text, j, body + ("*/" + behind));
      Skip(text, j, body, 1, "*/" + behind);
      NoteModes(text, a, j + 1, k, body[1..], behind);
    }
  }

  lemma NoteEnds(text: string, a: nat, j: nat, behind: string)
    requires a <= j <= |text| && From(text, j, "" + ("*/" + behind))
    requires OutsideCode(text, a, j) && ModeAt(text, j) == InBlock(text, j)
    ensures j + 2 <= |text| && ModeAt(text, j + 2) == Code && OutsideCode(text, a, j + 2)
  {
    FromHead(text, j, "" + ("*/" + behind));
    assert ModeAt(text, j) == BlockStar && OutsideCode(text, a, j + 1);
    assert ModeAt(text, j + 1) == BlockSlash;
  }

  // ---------------------------------------------------------------- one piece

  lemma QuotedCloses(text: string, i: nat, j: nat, q: char, body: string, behind: string)
    requires From(text, i, [q] + (body + ([q] + behind))) && ModeAt(text, i) == Code && IsLineQuote(q)
    requires P.Closed(q, body) && '\n' !in body
    requires j == i + |body| + 2
    ensures Closes(text, i, j)
  {
    QuoteOpens(text, i, q, body + ([q] + behind));
    QuotedModes(text, i + 1, i + 1, j - 1, q, body, behind);
    EndsSilence(text, i, j);
  }

  lemma QuoteOpens(text: string, i: nat, q: char, rest: string)
    requires From(text, i, [q] + rest) && ModeAt(text, i) == Code && IsLineQuote(q)
    ensures i < |text| && ModeAt(text, i + 1) == Quoted(q) && From(text, i + 1, rest)
  {
    FromHead(text, i, [q] + rest);
    FromPart(text, i, [q], rest);
  }

  /** A silent stretch whose last character ends it. */
  lemma EndsSilence(text: string, i: nat, j: nat)
    requires i + 1 < j <= |text| && ModeAt(text, i) == Code && SilentBetween(text, i + 1, j - 1)
    requires Silent(ModeAt(text, j - 1)) && ModeAt(text, j) == Code
    ensures Closes(text, i, j)
  {
    forall x | i < x < j ensures ModeAt(text, x) != Code {
      if x < j - 1 { SilentIsNoCode(text, i + 1, j - 1, x); }
    }
  }

  lemma RawCloses(text: string, i: nat, j: nat, body: string, behind: string)
    requires From(text, i, "`" + (body + ("`" + behind))) && ModeAt(text, i) == Code && '`' !in body
    requires j == i + |body| + 2
    ensures Closes(text, i, j) && RawEnd(text, i + 1) == j
  {
    FromHead(text, i, "`" + (body + ("`" + behind)));
    FromPart(text, i, "`", body + ("`" + behind));
    RawModes(text, i + 1, i + 1, body, behind);
    EndsSilence(text, i, j);
  }

  lemma LineCloses(text: string, i: nat, j: nat, body: string, behind: string)
    requires From(text, i, "//" + (body + behind)) && ModeAt(text, i) == Code
    requires '\n' !in body && (behind == "" || behind[0] == '\n')
    requires j == i + |body| + 2
    ensures Closes(text, i, j)
  {
    LineOpens(text, i, body + behind);
    LineModes(text, i + 1, i + 2, body, behind);
    FromPart(text, i + 2, body, behind);
    if behind != "" { FromHead(text, j, behind); }
    forall x | i < x < j ensures ModeAt(text, x) != Code {
      SilentIsNoCode(text, i + 1, j, x);
    }
  }

  lemma LineOpens(text: string, i: nat, rest: string)
    requires From(text, i, "//" + rest) && ModeAt(text, i) == Code
    ensures i + 2 <= |text| && ModeAt(text, i + 1) == LineOpen && ModeAt(text, i + 2) == InLine(text, i + 2)
    ensures SilentBetween(text, i + 1, i + 2) && From(text, i + 2, rest)
  {
    FromHead(text, i, "//" + rest);
    FromPart(text, i, "//", rest);
    assert SilentBetween(text, i + 1, i + 1);
  }

  lemma NoteCloses(text: string, i: nat, j: nat, body: string, behind: string)
    requires From(text, i, "/*" + (body + ("*/" + behind))) && ModeAt(text, i) == Code && P.NoEnd(body)
    requires j == i + |body| + 4
    ensures Closes(text, i, j)
  {
    hide From, P.NoEnd, ModeAt, OutsideCode;
    NoteOpens(text, i, body + ("*/" + behind));
    NoteModes(text, i + 1, i + 2, j - 2, body, behind);
    assert ModeAt(text, j) == Code && OutsideCode(text, i + 1, j);
    EndsOutside(text, i, j);
  }

  lemma EndsOutside(text: string, i: nat, j: nat)
    requires i < j <= |text| && ModeAt(text, i) == Code && OutsideCode(text, i + 1, j) && ModeAt(text, j) == Code
    ensures Closes(text, i, j)
  {
    forall x | i < x < j ensures ModeAt(text, x) != Code {
      OutsideIsNoCode(text, i + 1, j, x);
    }
  }

  lemma NoteOpens(text: string, i: nat, rest: string)
    requires From(text, i, "/*" + rest) && ModeAt(text, i) == Code
    ensures i + 2 <= |text| && ModeAt(text, i + 2) == InBlock(text, i + 2) && OutsideCode(text, i + 1, i + 2)
    ensures From(text, i + 2, rest)
  {
    FromHead(text, i, "/*" + rest);
    FromPart(text, i, "/*", rest);
    assert ModeAt(text, i + 1) == BlockOpen && OutsideCode(text, i + 1, i + 1);
  }

  lemma {:induction false} CodeStays(text: string, i: nat, code: string, behind: string)
    requires From(text, i, code + behind) && P.IsCode(code, behind) && ModeAt(text, i) == Code
    ensures i + |code| <= |text| && forall x | i <= x <= i + |code| :: ModeAt(text, x) == Code
    decreases |code|
  {
    if code != "" {
      CodeGoesOn(text, i, code, behind);
      CodeStays(text, i + 1, code[1..], behind);
    }
  }

  lemma CodeGoesOn(text: string, i: nat, code: string, behind: string)
    requires From(text, i, code + behind) && code != "" && P.IsCode(code, behind) && ModeAt(text, i) == Code
    ensures i < |text| && ModeAt(text, i + 1) == Code && From(text, i + 1, code[1..] + behind)
  {
    FromHead(text, i, code + behind);
    assert (code + behind)[1..] == code[1..] + behind;
  }

  lemma Unwrap(text: string, i: nat, open: string, body: string, close: string, behind: string)
    requires From(text, i, (open + body + close) + behind)
    ensures From(text, i, open + (body + (close + behind)))
  {
    Regroup(open + body, close, behind);
    Regroup(open, body, close + behind);
  }

  lemma PieceCloses(text: string, i: nat, j: nat, p: P.Piece, behind: string)
    requires From(text, i, p.Text() + behind) && p.Fits(behind) && ModeAt(text, i) == Code && !p.Plain?
    requires j == i + |p.Text()|
    ensures Closes(text, i, j)
  {
    match p
    case Quoted(body) =>
      Unwrap(text, i, "\"", body, "\"", behind);
      QuotedCloses(text, i, j, '"', body, behind);
    case Rune(body) =>
      Unwrap(text, i, "'", body, "'", behind);
      QuotedCloses(text, i, j, '\'', body, behind);
    case RawText(body) =>
      Unwrap(text, i, "`", body, "`", behind);
      RawCloses(text, i, j, body, behind);
    case LineNote(body) =>
      Regroup("//", body, behind);
      LineCloses(text, i, j, body, behind);
    case BlockNote(body) =>
      Unwrap(text, i, "/*", body, "*/", behind);
      NoteCloses(text, i, j, body, behind);
  }

  // ---------------------------------------------------------------- what a piece adds

  /** Of the `n` positions from `i` on all are code, or only the first is. */
  ghost predicate Charted(text: string, i: nat, n: nat, plain: bool) {
    i + n <= |text| && forall x | i <= x < i + n :: ModeAt(text, x) == Code <==> plain || x == i
  }

  lemma PieceCharted(text: string, i: nat, p: P.Piece, behind: string)
    requires From(text, i, p.Text() + behind) && p.Fits(behind) && ModeAt(text, i) == Code
    ensures Charted(text, i, |p.Text()|, p.Plain?) && ModeAt(text, i + |p.Text()|) == Code
  {
    if p.Plain? {
      CodeStays(text, i, p.body, behind);
    } else {
      PieceCloses(text, i, i + |p.Text()|, p, behind);
    }
  }

  /** No raw literal opens between the two. */
  ghost predicate NoneOpens(text: string, i: nat, j: nat) {
    i <= j <= |text| && forall x | i <= x < j :: ModeAt(text, x) != Code || text[x] != '`'
  }

  lemma {:induction false} NoRaws(text: string, i: nat, j: nat)
    requires NoneOpens(text, i, j)
    ensures RawsTo(text, j) == RawsTo(text, i)
    decreases j
  {
    if i < j { NoRaws(text, i, j - 1); }
  }

  /** A piece whose first character is no backtick, and plain code, open no raw literal. */
  lemma OthersOpenNone(text: string, i: nat, p: P.Piece, behind: string)
    requires From(text, i, p.Text() + behind) && p.Fits(behind) && ModeAt(text, i) == Code && !p.RawText?
    ensures NoneOpens(text, i, i + |p.Text()|)
  {
    PieceCharted(text, i, p, behind);
    if p.Plain? {
      NoBackticks(text, i, p.body, behind);
    } else {
      FromHead(text, i, p.Text() + behind);
    }
  }

  lemma {:induction false} NoBackticks(text: string, i: nat, code: string, behind: string)
    requires From(text, i, code + behind) && P.IsCode(code, behind)
    ensures i + |code| <= |text| && forall x | i <= x < i + |code| :: text[x] != '`'
    decreases |code|
  {
    if code != "" {
      FromHead(text, i, code + behind);
      assert (code + behind)[1..] == code[1..] + behind;
      NoBackticks(text, i + 1, code[1..], behind);
    }
  }

  lemma RawAdded(text: string, i: nat, j: nat, body: string, behind: string)
    requires From(text, i, ("`" + body + "`") + behind) && '`' !in body && ModeAt(text, i) == Code
    requires j == i + |body| + 2
    ensures j <= |text| && RawsTo(text, j) == RawsTo(text, i) + [(i, j)]
  {
    Unwrap(text, i, "`", body, "`", behind);
    RawCloses(text, i, j, body, behind);
    FromHead(text, i, "`" + (body + ("`" + behind)));
    NoRaws(text, i + 1, j);
  }

  lemma {:induction false} CodeLifts(text: string, i: nat, j: nat, code: string, behind: string)
    requires From(text, i, code + behind) && P.IsCode(code, behind) && ModeAt(text, i) == Code && j == i + |code|
    ensures j <= |text| && DepthAt(text, j) == DepthAt(text, i) + Rise(code)
    decreases |code|
  {
    if code == "" {
      assert j == i <= |text|;
    } else {
      FromHead(text, i, code + behind);
      CodeGoesOn(text, i, code, behind);
      CodeLifts(text, i + 1, j, code[1..], behind);
    }
  }

  lemma {:induction false} ClosedLifts(text: string, i: nat, j: nat)
    requires i + 1 <= j <= |text| && forall x | i < x < j :: ModeAt(text, x) != Code
    ensures DepthAt(text, j) == DepthAt(text, i + 1)
    decreases j
  {
    if i + 1 < j { ClosedLifts(text, i, j - 1); }
  }

  lemma NoBracket(text: string, i: nat, p: P.Piece, behind: string)
    requires From(text, i, p.Text() + behind) && !p.Plain?
    ensures i < |text| && DepthAt(text, i + 1) == DepthAt(text, i)
  {
    FromHead(text, i, p.Text() + behind);
  }

  lemma PieceLifts(text: string, i: nat, j: nat, p: P.Piece, behind: string)
    requires From(text, i, p.Text() + behind) && p.Fits(behind) && ModeAt(text, i) == Code && j == i + |p.Text()|
    ensures j <= |text| && DepthAt(text, j) == DepthAt(text, i) + if p.Plain? then Rise(p.body) else 0
  {
    if p.Plain? {
      CodeLifts(text, i, j, p.body, behind);
    } else {
      PieceCloses(text, i, j, p, behind);
      ClosedLifts(text, i, j);
      NoBracket(text, i, p, behind);
    }
  }

  lemma PieceRaws(text: string, i: nat, j: nat, p: P.Piece, behind: string)
    requires From(text, i, p.Text() + behind) && p.Fits(behind) && ModeAt(text, i) == Code && j == i + |p.Text()|
    ensures j <= |text| && RawsTo(text, j) == RawsTo(text, i) + if p.RawText? then [(i, j)] else []
  {
    if p.RawText? {
      RawAdded(text, i, j, p.body, behind);
    } else {
      OthersOpenNone(text, i, p, behind);
      NoRaws(text, i, j);
    }
  }

  // ---------------------------------------------------------------- the whole file

  /** From `i` on, where the scanner is in code, the text is these pieces. */
  ghost predicate Stands(text: string, i: nat, ps: seq<P.Piece>) {
    From(text, i, P.Print(ps)) && P.WellFormed(ps) && ModeAt(text, i) == Code
  }

  /** The first piece takes the room up to `j`, and the others stand there. */
  lemma FirstStands(text: string, i: nat, ps: seq<P.Piece>, j: nat)
    requires Stands(text, i, ps) && ps != [] && j == i + |ps[0].Text()|
    ensures From(text, i, ps[0].Text() + P.Print(ps[1..])) && ps[0].Fits(P.Print(ps[1..]))
    ensures j <= |text| && Stands(text, j, ps[1..])
  {
    hide P.Piece.Text, P.Piece.Fits;
    P.First(ps);
    FromPart(text, i, ps[0].Text(), P.Print(ps[1..]));
    PieceCharted(text, i, ps[0], P.Print(ps[1..]));
  }

  lemma SlotsFirst(ps: seq<P.Piece>)
    requires ps != []
    ensures Slots(ps) != [] && Slots(ps)[0] == SlotOf(ps[0]) && Slots(ps)[1..] == Slots(ps[1..])
  {
  }

  /** The positions from `i` on are code as the slots say. */
  ghost predicate AllCharted(text: string, i: nat, slots: seq<Slot>)
    decreases |slots|
  {
    if slots == [] then i == |text| && ModeAt(text, i) == Code
    else Charted(text, i, slots[0].size, slots[0].plain) && AllCharted(text, i + slots[0].size, slots[1..])
  }

  lemma {:induction false} PrintCharted(text: string, i: nat, ps: seq<P.Piece>)
    requires Stands(text, i, ps)
    ensures AllCharted(text, i, Slots(ps))
    decreases |ps|
  {
    hide P.Piece.Text, P.Piece.Fits, Charted, ModeAt;
    if ps != [] {
      FirstStands(text, i, ps, i + |ps[0].Text()|);
      PieceCharted(text, i, ps[0], P.Print(ps[1..]));
      PrintCharted(text, i + |ps[0].Text()|, ps[1..]);
      SlotsFirst(ps);
    }
  }

  lemma {:induction false} ChartIsCode(text: string, i: nat, slots: seq<Slot>, x: nat)
    requires AllCharted(text, i, slots) && i + x <= |text|
    ensures ModeAt(text, i + x) == Code <==> InCode(slots, x)
    decreases |slots|
  {
    if slots != [] && x >= slots[0].size {
      ChartIsCode(text, i + slots[0].size, slots[1..], x - slots[0].size);
    }
  }

  /** From `i` to `j` the raw literal of the slot is added, if it is one. */
  ghost predicate AddsRaw(text: string, i: nat, j: nat, s: Slot) {
    i <= j <= |text| && RawsTo(text, j) == RawsTo(text, i) + RawOf(s, i)
  }

  ghost predicate AllAddRaws(text: string, i: nat, slots: seq<Slot>)
    decreases |slots|
  {
    if slots == [] then i == |text|
    else AddsRaw(text, i, i + slots[0].size, slots[0]) && AllAddRaws(text, i + slots[0].size, slots[1..])
  }

  lemma {:induction false} PrintAddsRaws(text: string, i: nat, ps: seq<P.Piece>)
    requires Stands(text, i, ps)
    ensures AllAddRaws(text, i, Slots(ps))
    decreases |ps|
  {
    hide P.Piece.Text, P.Piece.Fits, RawsTo, ModeAt;
    if ps != [] {
      FirstStands(text, i, ps, i + |ps[0].Text()|);
      PieceRaws(text, i, i + |ps[0].Text()|, ps[0], P.Print(ps[1..]));
      PrintAddsRaws(text, i + |ps[0].Text()|, ps[1..]);
      SlotsFirst(ps);
    }
  }

  lemma {:induction false} RawsAdd(text: string, i: nat, slots: seq<Slot>)
    requires AllAddRaws(text, i, slots) && i <= |text|
    ensures RawsTo(text, |text|) == RawsTo(text, i) + RawsOf(slots, i)
    decreases |slots|
  {
    hide RawsTo, RawOf;
    if slots == [] {
      assert RawsTo(text, i) + [] == RawsTo(text, i);
    } else {
      var j := i + slots[0].size;
      RawsAdd(text, j, slots[1..]);
      Regroup(RawsTo(text, i), RawOf(slots[0], i), RawsOf(slots[1..], j));
    }
  }

  /** From `i` to `j` the depth changes as the slot says. */
  ghost predicate Lifts(text: string, i: nat, j: nat, s: Slot) {
    i <= j <= |text| && DepthAt(text, j) == DepthAt(text, i) + s.lift
  }

  ghost predicate AllLift(text: string, i: nat, slots: seq<Slot>)
    decreases |slots|
  {
    slots == [] || (Lifts(text, i, i + slots[0].size, slots[0]) && AllLift(text, i + slots[0].size, slots[1..]))
  }

  lemma {:induction false} PrintLifts(text: string, i: nat, ps: seq<P.Piece>)
    requires Stands(text, i, ps)
    ensures AllLift(text, i, Slots(ps))
    decreases |ps|
  {
    hide P.Piece.Text, P.Piece.Fits, DepthAt, ModeAt;
    if ps != [] {
      FirstStands(text, i, ps, i + |ps[0].Text()|);
      PieceLifts(text, i, i + |ps[0].Text()|, ps[0], P.Print(ps[1..]));
      PrintLifts(text, i + |ps[0].Text()|, ps[1..]);
      SlotsFirst(ps);
    }
  }

  lemma {:induction false} LiftsAdd(text: string, i: nat, slots: seq<Slot>, k: nat)
    requires AllLift(text, i, slots) && k <= |slots| && i <= |text|
    ensures i + Offset(slots, k) <= |text| && DepthAt(text, i + Offset(slots, k)) == DepthAt(text, i) + Depth(slots, k)
    decreases k
  {
    if k > 0 { LiftsAdd(text, i + slots[0].size, slots[1..], k - 1); }
  }

  lemma Begins(text: string, ps: seq<P.Piece>)
    requires P.WellFormed(ps) && text == P.Print(ps)
    ensures Stands(text, 0, ps)
  {
    assert text[0..] == text;
  }

  /** For every printed file: the scanner is in code exactly in plain code, and where a literal or comment opens. */
  lemma CodeOfPrinted(text: string, ps: seq<P.Piece>, x: nat)
    requires P.WellFormed(ps) && text == P.Print(ps) && x <= |text|
    ensures ModeAt(text, x) == Code <==> InCode(Slots(ps), x)
  {
    hide *;
    Begins(text, ps);
    PrintCharted(text, 0, ps);
    ChartIsCode(text, 0, Slots(ps), x);
  }

  /** The recorded raw literals are the raw pieces. */
  lemma RawsOfPrinted(text: string, ps: seq<P.Piece>)
    requires P.WellFormed(ps) && text == P.Print(ps)
    ensures RawsTo(text, |text|) == RawsOf(Slots(ps), 0)
  {
    hide Stands, AllAddRaws, Slots, RawsOf, P.Print, P.WellFormed;
    Begins(text, ps);
    PrintAddsRaws(text, 0, ps);
    RawsAdd(text, 0, Slots(ps));
    assert RawsTo(text, 0) == [] && [] + RawsOf(Slots(ps), 0) == RawsOf(Slots(ps), 0);
  }

  /** The depth at a piece is that of the brackets in the plain code before it. */
  lemma DepthOfPrinted(text: string, ps: seq<P.Piece>, k: nat)
    requires P.WellFormed(ps) && text == P.Print(ps) && k <= |Slots(ps)|
    ensures Offset(Slots(ps), k) <= |text| && DepthAt(text, Offset(Slots(ps), k)) == Depth(Slots(ps), k)
  {
    hide Stands, AllLift, Slots, Offset, Depth, P.Print, P.WellFormed;
    Begins(text, ps);
    PrintLifts(text, 0, ps);
    LiftsAdd(text, 0, Slots(ps), k);
  }

  // ---------------------------------------------------------------- where statements end

  /** Behind this literal's closing quote, or behind this character of code, the scanner is in code. */
  ghost predicate LastOfLine(text: string, p: nat, c: char) {
    && p < |text| && text[p] == c && ModeAt(text, p + 1) == Code
    && if c == '`' then ModeAt(text, p) == Raw
       else if c == '"' || c == '\'' then ModeAt(text, p) == Quoted(c)
       else ModeAt(text, p) == Code && !IsSpace(c)
  }

  /** From `p` on blanks, and perhaps a line comment, up to the line feed at `n`. */
  ghost predicate RestOfLine(text: string, p: nat, m: nat, n: nat) {
    && p <= m <= n < |text| && text[n] == '\n' && (forall k | p <= k < m :: text[k] == ' ' || text[k] == '\t')
    && (m == n || (m + 1 < n && text[m] == text[m + 1] == '/' && forall k | m <= k < n :: text[k] != '\n'))
  }

  /** Inside a literal the last character is its opening quote. */
  lemma {:induction false} LastInLiteral(text: string, i: nat)
    requires i <= |text|
    ensures ModeAt(text, i) == Raw ==> LastAt(text, i) == Some('`')
    ensures ModeAt(text, i).Quoted? ==> LastAt(text, i) == Some(ModeAt(text, i).quote)
    ensures ModeAt(text, i).Escaped? ==> LastAt(text, i) == Some(ModeAt(text, i).quote)
  {
    if i > 0 { LastInLiteral(text, i - 1); }
  }

  lemma LastIs(text: string, p: nat, c: char)
    requires LastOfLine(text, p, c)
    ensures LastAt(text, p + 1) == Some(c)
  {
    LastInLiteral(text, p);
  }

  lemma {:induction false} BlanksKeep(text: string, p: nat, m: nat)
    requires p <= m <= |text| && ModeAt(text, p) == Code && forall k | p <= k < m :: text[k] == ' ' || text[k] == '\t'
    ensures ModeAt(text, m) == Code && LastAt(text, m) == LastAt(text, p)
    decreases m
  {
    if p < m { BlanksKeep(text, p, m - 1); }
  }

  lemma {:induction false} CommentStays(text: string, m: nat, k: nat)
    requires m + 2 <= k <= |text| && ModeAt(text, m) == Code && text[m] == text[m + 1] == '/'
    requires forall x | m <= x < k :: text[x] != '\n'
    ensures ModeAt(text, k) == InLine(text, k) && SilentBetween(text, m + 1, k)
    decreases k
  {
    assert ModeAt(text, m + 1) == LineOpen && SilentBetween(text, m + 1, m + 1);
    if k > m + 2 {
      CommentStays(text, m, k - 1);
    } else {
      assert SilentBetween(text, m + 1, m + 2);
    }
  }

  lemma CommentKeeps(alnum: char -> bool, text: string, m: nat, n: nat)
    requires m + 1 < n < |text| && text[n] == '\n' && ModeAt(text, m) == Code && text[m] == text[m + 1] == '/'
    requires forall k | m <= k < n :: text[k] != '\n'
    ensures ModeAt(text, n) == Code && LastAt(text, n) == LastAt(text, m)
  {
    CommentStays(text, m, n);
    SilentRun(alnum, text, m + 1, n);
  }

  /**
   For every text: a line feed that only blanks or a line comment separate from the last character of its line,
   a closing quote or a character of code, ends a statement if and only if that is an alphanumeric, `_`, a
   closing bracket, a quote, `+` or `-`.
   */
  lemma LineFeedEndsStatement(alnum: char -> bool, text: string, p: nat, c: char, m: nat, n: nat)
    requires LastOfLine(text, p, c) && RestOfLine(text, p + 1, m, n)
    ensures BreakAt(alnum, text, n) <==>
              alnum(c) || c in ['_', ')', ']', '}', '"', '\'', '`', '+', '-']
  {
    LastIs(text, p, c);
    BlanksKeep(text, p + 1, m);
    if m < n { CommentKeeps(alnum, text, m, n); }
    assert LineFeed(text, n) && LastAt(text, n) == Some(c);
  }

  /** From the comment opener at `m` to `k` there is neither its end nor a line feed. */
  ghost predicate InNote(text: string, m: nat, k: nat) {
    && m + 2 <= k <= |text| && text[m] == '/' && text[m + 1] == '*'
    && forall x | m + 2 <= x < k :: text[x] != '\n' && !(text[x] == '*' && At(text, x + 1, '/'))
  }

  lemma {:induction false} NoteStays(text: string, m: nat, k: nat)
    requires InNote(text, m, k) && ModeAt(text, m) == Code
    ensures ModeAt(text, k) == InBlock(text, k) && LastAt(text, k) == LastAt(text, m)
    decreases k
  {
    assert ModeAt(text, m + 1) == BlockOpen && LastAt(text, m + 1) == LastAt(text, m);
    if k > m + 2 { NoteStays(text, m, k - 1); }
  }

  lemma NotePasses(text: string, m: nat, k: nat)
    requires InNote(text, m, k) && ModeAt(text, m) == Code && At(text, k, '*') && At(text, k + 1, '/')
    ensures ModeAt(text, k + 2) == Code && LastAt(text, k + 2) == LastAt(text, m)
  {
    NoteStays(text, m, k);
    assert ModeAt(text, k) == BlockStar && LastAt(text, k + 1) == LastAt(text, m);
    assert ModeAt(text, k + 1) == BlockSlash;
  }

  /**
   A block comment behind the last character of its line. If it runs over the line, its first line feed ends a
   statement as if the comment were not there; if not, the line feed behind it does.
   */
  lemma LineFeedAtNote(alnum: char -> bool, text: string, p: nat, c: char, m: nat, k: nat, n: nat)
    requires LastOfLine(text, p, c) && p < m && InNote(text, m, k)
    requires forall x | p < x < m :: text[x] == ' ' || text[x] == '\t'
    requires k <= n && n + 1 < |text| && text[n] == '\n'
    requires n == k || (text[k] == '*' && text[k + 1] == '/' && k + 2 <= n
                        && forall x | k + 2 <= x < n :: text[x] == ' ' || text[x] == '\t')
    ensures BreakAt(alnum, text, n) <==>
              alnum(c) || c in ['_', ')', ']', '}', '"', '\'', '`', '+', '-']
  {
    LastIs(text, p, c);
    BlanksKeep(text, p + 1, m);
    NoteStays(text, m, k);
    if n > k {
      NotePasses(text, m, k);
      BlanksKeep(text, k + 2, n);
    }
    assert LineFeed(text, n) && LastAt(text, n) == Some(c);
  }

  lemma {:induction false} StringStays(text: string, i: nat, k: nat)
    requires i < k <= |text| && IsLineQuote(text[i]) && ModeAt(text, i) == Code
    requires forall x | i < x < k :: text[x] != text[i] && text[x] != '\\' && text[x] != '\n'
    ensures ModeAt(text, k) == Quoted(text[i]) && LastAt(text, k) == Some(text[i])
    decreases k
  {
    if i + 1 < k { StringStays(text, i, k - 1); }
  }

  /** A string or rune that is left open ends with its line, whose line feed ends no statement. */
  lemma OpenStringEnds(alnum: char -> bool, text: string, i: nat, n: nat)
    requires i < n < |text| && text[n] == '\n' && IsLineQuote(text[i]) && ModeAt(text, i) == Code
    requires forall x | i < x < n :: text[x] != text[i] && text[x] != '\\' && text[x] != '\n'
    ensures ModeAt(text, n + 1) == Code && !BreakAt(alnum, text, n)
    ensures n + 1 < |text| && text[n + 1] == '\n' ==> BreakAt(alnum, text, n + 1)
  {
    StringStays(text, i, n);
    assert LastAt(text, n + 1) == Some(text[i]);
  }

  /** A brace opens a block if and only if nothing but blanks and a line comment stand behind it on its line. */
  lemma BraceOpensBlock(text: string, off: nat, m: nat)
    requires off < m <= |text| && text[off] != '\n' && forall k | off < k < m :: text[k] == ' ' || text[k] == '\t'
    requires m < |text| ==> text[m] != ' ' && text[m] != '\t'
    ensures GoIndex.OpensBlock(text, off) <==>
              m == |text| || text[m] == '\n' || (m + 1 < |text| && text[m] == text[m + 1] == '/')
  {
    LineEndBehind(text, off, m);
    var e := LineEnd(text, off);
    BlanksOrComment(text[off + 1..e], m - off - 1);
    if m < |text| && text[m] != '\n' {
      LineEndBehind(text, off, m);
    }
  }

  lemma {:induction false} LineEndBehind(text: string, off: nat, m: nat)
    requires off < m <= |text| && forall k | off <= k < m :: text[k] != '\n'
    ensures LineEnd(text, off) == LineEnd(text, m)
    decreases m - off
  {
    if off + 1 < m { LineEndBehind(text, off + 1, m); }
  }

  lemma {:induction false} BlanksOrComment(rest: string, n: nat)
    requires n <= |rest| && (forall k | 0 <= k < n :: rest[k] == ' ' || rest[k] == '\t')
    requires n < |rest| ==> rest[n] != ' ' && rest[n] != '\t'
    ensures GoIndex.BlankOrComment(rest) <==>
              n == |rest| || (n + 1 < |rest| && rest[n] == rest[n + 1] == '/')
  {
    if n > 0 {
      BlanksOrComment(rest[1..], n - 1);
    }
  }
}
