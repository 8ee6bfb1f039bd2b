/**
 The baseline ratchet of scripts/check_fe_be_fields.py: `read_baseline` and `write_baseline` over the
 text of the baseline file.
 */
module Baseline {
  import opened PyText
  import opened PyLines

  /** The fixed texts: BASELINE_HEADER line by line, REGEN_RULE and NEW_ON_REGEN. */
  datatype Texts = Texts(header: seq<string>, rule: string, reason: string)

  datatype Entry = Entry(key: string, reason: string)

  /** A line's entry; None for a blank line or a comment. */
  function Parse(line: string): Option<Entry> {
    var s := Strip(line);
    if s == "" || s[0] == '#' then None
    else
      var k := IndexOf(s, '#');
      Some(Entry(Strip(s[..k]), if k < |s| then Strip(s[k + 1..]) else ""))
  }

  /** The dictionary after the lines, a later entry for a key replacing an earlier one. */
  function ReadLines(lines: seq<string>): map<string, string> {
    if lines == [] then map[] else Enter(ReadLines(lines[..|lines| - 1]), Parse(lines[|lines| - 1]))
  }

  function Enter(m: map<string, string>, e: Option<Entry>): map<string, string> {
    if e.Some? then m[e.value.key := e.value.reason] else m
  }

  // ---------------------------------------------------------------- what a rewrite yields

  /** A line that is copied through: prose but for the regeneration rule, or an entry that reproduces. */
  predicate Survives(t: Texts, current: set<string>, line: string) {
    var e := Parse(line);
    if e.None? then Strip(line) != t.rule else e.value.key in current
  }

  function Filter(t: Texts, current: set<string>, lines: seq<string>): seq<string> {
    if lines == [] then []
    else
      var n := |lines| - 1;
      if Survives(t, current, lines[n]) then Filter(t, current, lines[..n]) + [lines[n]]
      else Filter(t, current, lines[..n])
  }

  function KeptKeys(current: set<string>, lines: seq<string>): set<string> {
    if lines == [] then {}
    else
      var n := |lines| - 1;
      var e := Parse(lines[n]);
      KeptKeys(current, lines[..n]) + if e.Some? && e.value.key in current then {e.value.key} else {}
  }

  predicate BlankLine(line: string) {
    Strip(line) == ""
  }

  function PopBlank(lines: seq<string>): seq<string> {
    if lines != [] && BlankLine(lines[|lines| - 1]) then PopBlank(lines[..|lines| - 1]) else lines
  }

  function AddedLine(t: Texts, key: string): string {
    key + "  # " + t.reason
  }

  function AddedLines(t: Texts, keys: seq<string>): seq<string> {
    if keys == [] then [] else AddedLines(t, keys[..|keys| - 1]) + [AddedLine(t, keys[|keys| - 1])]
  }

  function Block(t: Texts, added: seq<string>): seq<string> {
    if added == [] then [] else ["", t.rule] + AddedLines(t, added)
  }

  /** The keys that no line of the file carries yet. */
  function Added(current: set<string>, lines: seq<string>): seq<string> {
    SortedKeys(current - KeptKeys(current, lines))
  }

  function Written(t: Texts, current: set<string>, lines: seq<string>): seq<string> {
    PopBlank(Filter(t, current, lines)) + Block(t, Added(current, lines))
  }

  /** Prose that a rewrite never drops for its contents. */
  predicate IsProse(t: Texts, line: string) {
    Parse(line).None? && Strip(line) != t.rule
  }

  predicate AllProse(t: Texts, lines: seq<string>) {
    lines == [] || (IsProse(t, lines[|lines| - 1]) && AllProse(t, lines[..|lines| - 1]))
  }

  /** What the source's texts are: the header and the rule are comments, the reason is a trimmed line. */
  predicate Usable(t: Texts) {
    && AllProse(t, t.header) && Clean(t.header)
    && Trimmed(t.rule) && t.rule[0] == '#' && NoBreak(t.rule)
    && Trimmed(t.reason) && NoBreak(t.reason)
  }

  /** The lines a rewrite starts from: those of the file, or the header when there is no file. */
  function LinesOf(t: Texts, file: Option<string>): seq<string> {
    if file.Some? then SplitLines(Translate(file.value)) else t.header
  }

  function Entries(file: Option<string>): map<string, string> {
    if file.Some? then ReadLines(SplitLines(Translate(file.value))) else map[]
  }

  /** The text of the file after a rewrite. */
  function Rewrite(t: Texts, current: set<string>, file: Option<string>): string {
    Unlines(Written(t, current, LinesOf(t, file)))
  }

  // ---------------------------------------------------------------- the two operations

  class BaselineFile {
    var text: Option<string>

    constructor (given: Option<string>)
      ensures text == given
    {
      text := given;
    }

    method Read() returns (entries: map<string, string>)
      ensures entries == Entries(text)
    {
      entries := map[];
      if text.None? {
        return;
      }
      var lines := SplitLines(Translate(text.value));
      for i := 0 to |lines|
        invariant entries == ReadLines(lines[..i])
      {
        assert lines[..i + 1][..i] == lines[..i];
        var line := Strip(lines[i]);
        if line == "" || line[0] == '#' {
          continue;
        }
        var k := IndexOf(line, '#');
        var reason := if k < |line| then Strip(line[k + 1..]) else "";
        entries := entries[Strip(line[..k]) := reason];
      }
      assert lines[..|lines|] == lines;
    }

    method Write(t: Texts, current: set<string>)
      requires Usable(t)
      modifies this
      ensures text == Some(Rewrite(t, current, old(text)))
    {
      var out := t.header;
      var kept := {};
      if text.Some? {
        out, kept := KeepLines(t, current, SplitLines(Translate(text.value)));
      } else {
        HeaderSurvives(t, current, t.header);
      }
      out := Pop(out);
      out := Append(t, out, SortedKeys(current - kept));
      text := Some(Unlines(out));
    }
  }

  /** The loop over the lines of an existing file. */
  method KeepLines(t: Texts, current: set<string>, lines: seq<string>) returns (out: seq<string>, kept: set<string>)
    ensures out == Filter(t, current, lines) && kept == KeptKeys(current, lines)
  {
    out, kept := [], {};
    for i := 0 to |lines|
      invariant out == Filter(t, current, lines[..i]) && kept == KeptKeys(current, lines[..i])
    {
      assert lines[..i + 1][..i] == lines[..i];
      var s := Strip(lines[i]);
      if s == "" || s[0] == '#' {
        if s == t.rule {
          continue;
        }
        out := out + [lines[i]];
        continue;
      }
      var key := Strip(s[..IndexOf(s, '#')]);
      if key in current {
        out := out + [lines[i]];
        kept := kept + {key};
      }
    }
    assert lines[..|lines|] == lines;
  }

  /** The loop that removes trailing blank lines. */
  method Pop(lines: seq<string>) returns (out: seq<string>)
    ensures out == PopBlank(lines)
  {
    out := lines;
    while out != [] && Strip(out[|out| - 1]) == ""
      invariant PopBlank(out) == PopBlank(lines)
    {
      out := out[..|out| - 1];
    }
  }

  /** The rule and one line for each new key, if there is one. */
  method Append(t: Texts, lines: seq<string>, added: seq<string>) returns (out: seq<string>)
    ensures out == lines + Block(t, added)
  {
    out := lines;
    if added != [] {
      var block := ["", t.rule];
      var extra := [];
      for i := 0 to |added|
        invariant extra == AddedLines(t, added[..i])
      {
        assert added[..i + 1][..i] == added[..i];
        extra := extra + [AddedLine(t, added[i])];
      }
      assert added[..|added|] == added;
      out := out + (block + extra);
    }
  }

  /** A header on its own: nothing to drop and nothing to read. */
  lemma {:induction false} HeaderSurvives(t: Texts, current: set<string>, header: seq<string>)
    requires AllProse(t, header)
    ensures Filter(t, current, header) == header && KeptKeys(current, header) == {} && ReadLines(header) == map[]
  {
    if header != [] {
      var n := |header| - 1;
      HeaderSurvives(t, current, header[..n]);
      assert header == header[..n] + [header[n]];
    }
  }

  // ---------------------------------------------------------------- reading what was written

  /** The entries whose key is current. */
  function Restrict(m: map<string, string>, current: set<string>): map<string, string> {
    map k | k in m && k in current :: m[k]
  }

  /** Every current finding with its old reason, or the reason of new ones. */
  function Expected(t: Texts, current: set<string>, entries: map<string, string>): map<string, string> {
    map k | k in current :: if k in entries then entries[k] else t.reason
  }

  function AllNew(t: Texts, keys: seq<string>): map<string, string> {
    map k | k in keys :: t.reason
  }

  predicate CleanKey(key: string) {
    Trimmed(key) && '#' !in key && NoBreak(key)
  }

  predicate CleanKeys(keys: set<string>) {
    forall k | k in keys :: CleanKey(k)
  }

  lemma {:induction false} ReadFilter(t: Texts, current: set<string>, lines: seq<string>)
    ensures ReadLines(Filter(t, current, lines)) == Restrict(ReadLines(lines), current)
  {
    if lines != [] {
      var n := |lines| - 1;
      ReadFilter(t, current, lines[..n]);
      if Survives(t, current, lines[n]) {
        var f := Filter(t, current, lines[..n]);
        assert (f + [lines[n]])[..|f|] == f;
      }
    }
  }

  lemma {:induction false} KeptAreRead(current: set<string>, lines: seq<string>)
    ensures KeptKeys(current, lines) == ReadLines(lines).Keys * current
  {
    if lines != [] { KeptAreRead(current, lines[..|lines| - 1]); }
  }

  lemma {:induction false} ReadPop(lines: seq<string>)
    ensures ReadLines(PopBlank(lines)) == ReadLines(lines)
  {
    if lines != [] { ReadPop(lines[..|lines| - 1]); }
  }

  lemma EnterBehind(a: map<string, string>, b: map<string, string>, e: Option<Entry>)
    ensures Enter(a + b, e) == a + Enter(b, e)
  {
  }

  lemma {:induction false} ReadAppend(a: seq<string>, b: seq<string>)
    ensures ReadLines(a + b) == ReadLines(a) + ReadLines(b)
  {
    if b == [] {
      assert a + b == a;
    } else {
      var n := |b| - 1;
      ReadAppend(a, b[..n]);
      Init(a, b);
      EnterBehind(ReadLines(a), ReadLines(b[..n]), Parse(b[n]));
    }
  }

  /** The line written for a clean key is read back as that key. */
  lemma ParseAdded(t: Texts, key: string)
    requires CleanKey(key) && Usable(t)
    ensures Parse(AddedLine(t, key)) == Some(Entry(key, t.reason))
  {
    var s := AddedLine(t, key);
    StripTrimmed(s);
    IndexOfUnique(s, '#', |key| + 2);
    assert s[..|key| + 2] == "" + key + "  ";
    StripPadded("", key, "  ");
    assert s[|key| + 3..] == " " + t.reason + "";
    StripPadded(" ", t.reason, "");
  }

  /**
   The forms of a line: a key behind and in front of whitespace, and, if a `#` follows, the rest of the line,
   trimmed, as its reason. A line that is blank or begins with `#` is none.
   */
  lemma LineForms(l: string, key: string, gap: string, rest: string)
    requires AllSpace(l) && AllSpace(gap) && Trimmed(key) && '#' !in key
    ensures Parse(l + key + gap) == Some(Entry(key, ""))
    ensures Trimmed(rest) ==> Parse(l + key + (gap + "# " + rest)) == Some(Entry(key, rest))
    ensures Parse(l) == None && (Trimmed("#" + rest) ==> Parse(l + ("#" + rest)) == None)
  {
    StripPadded(l, key, gap);
    FreeAt(key, '#');
    IndexOfUnique(key, '#', |key|);
    StripTrimmed(key);
    assert key[..|key|] == key;
    BlankStrips(l);
    if Trimmed(rest) { WithReason(l, key, gap, rest); }
    if Trimmed("#" + rest) { StripLeft(l, "#" + rest); }
  }

  lemma WithReason(l: string, key: string, gap: string, rest: string)
    requires AllSpace(l) && AllSpace(gap) && Trimmed(key) && '#' !in key && Trimmed(rest)
    ensures Parse(l + key + (gap + "# " + rest)) == Some(Entry(key, rest))
  {
    hide Strip;
    var tail := gap + "# " + rest;
    var s := key + tail;
    Regroup(l, key, tail);
    assert tail[|tail| - 1] == rest[|rest| - 1];
    StripLeft(l, s);
    FreeAt(key, '#');
    HashIs(key, gap, rest, s);
    StripPadded("", key, gap);
    StripPadded(" ", rest, "");
    assert s[..|key| + |gap|] == "" + key + gap && s[|key| + |gap| + 1..] == " " + rest + "";
  }

  lemma HashIs(key: string, gap: string, rest: string, s: string)
    requires AllSpace(gap) && (forall j | 0 <= j < |key| :: key[j] != '#') && s == key + (gap + "# " + rest)
    ensures IndexOf(s, '#') == |key| + |gap|
  {
    forall j | 0 <= j < |key| + |gap| ensures s[j] != '#' {
      if j >= |key| { assert s[j] == gap[j - |key|] && IsSpace(gap[j - |key|]); }
    }
    IndexOfUnique(s, '#', |key| + |gap|);
  }

  lemma {:induction false} ReadAdded(t: Texts, keys: seq<string>)
    requires Usable(t) && forall k | k in keys :: CleanKey(k)
    ensures ReadLines(AddedLines(t, keys)) == AllNew(t, keys)
  {
    if keys != [] {
      var n := |keys| - 1;
      assert keys == keys[..n] + [keys[n]];
      ReadAdded(t, keys[..n]);
      ParseAdded(t, keys[n]);
      var ls := AddedLines(t, keys[..n]);
      assert (ls + [AddedLine(t, keys[n])])[..|ls|] == ls;
    }
  }

  lemma ReadBlock(t: Texts, keys: seq<string>)
    requires Usable(t) && forall k | k in keys :: CleanKey(k)
    ensures ReadLines(Block(t, keys)) == AllNew(t, keys)
  {
    if keys != [] {
      StripTrimmed(t.rule);
      ReadAppend(["", t.rule], AddedLines(t, keys));
      ReadAdded(t, keys);
      assert ["", t.rule][..1] == [""] && [""][..0] == [];
      assert ReadLines([""]) == map[] && ReadLines(["", t.rule]) == map[];
    }
  }

  lemma Merge(t: Texts, current: set<string>, entries: map<string, string>, added: seq<string>)
    requires forall k :: k in added <==> k in current && k !in entries
    ensures Restrict(entries, current) + AllNew(t, added) == Expected(t, current, entries)
  {
  }

  lemma AddedAre(current: set<string>, lines: seq<string>)
    ensures forall k :: k in Added(current, lines) <==> k in current && k !in ReadLines(lines)
  {
    KeptAreRead(current, lines);
  }

  /** Reading the lines of a rewrite: the current keys, old reasons kept. */
  lemma ReadWritten(t: Texts, current: set<string>, lines: seq<string>)
    requires Usable(t) && CleanKeys(current)
    ensures ReadLines(Written(t, current, lines)) == Expected(t, current, ReadLines(lines))
  {
    var f, added := Filter(t, current, lines), Added(current, lines);
    AddedAre(current, lines);
    ReadAppend(PopBlank(f), Block(t, added));
    ReadPop(f);
    ReadFilter(t, current, lines);
    ReadBlock(t, added);
    Merge(t, current, ReadLines(lines), added);
  }

  // ---------------------------------------------------------------- the round trip through the file

  lemma {:induction false} FilterClean(t: Texts, current: set<string>, lines: seq<string>)
    requires Clean(lines)
    ensures Clean(Filter(t, current, lines))
  {
    if lines != [] { FilterClean(t, current, lines[..|lines| - 1]); }
  }

  lemma {:induction false} PopClean(lines: seq<string>)
    requires Clean(lines)
    ensures Clean(PopBlank(lines))
  {
    if lines != [] { PopClean(lines[..|lines| - 1]); }
  }

  lemma CleanJoin(a: seq<string>, b: seq<string>)
    requires Clean(a) && Clean(b)
    ensures Clean(a + b)
  {
  }

  lemma AddedLineClean(t: Texts, key: string)
    requires Usable(t) && NoBreak(key)
    ensures NoBreak(AddedLine(t, key))
  {
  }

  lemma {:induction false} AddedClean(t: Texts, keys: seq<string>)
    requires Usable(t) && forall k | k in keys :: NoBreak(k)
    ensures Clean(AddedLines(t, keys))
  {
    if keys != [] {
      var n := |keys| - 1;
      AddedClean(t, keys[..n]);
      assert keys[n] in keys;
      AddedLineClean(t, keys[n]);
      CleanJoin(AddedLines(t, keys[..n]), [AddedLine(t, keys[n])]);
    }
  }

  lemma BlockClean(t: Texts, keys: seq<string>)
    requires Usable(t) && forall k | k in keys :: NoBreak(k)
    ensures Clean(Block(t, keys))
  {
    AddedClean(t, keys);
    assert Clean(["", t.rule]);
    CleanJoin(["", t.rule], AddedLines(t, keys));
  }

  lemma WrittenClean(t: Texts, current: set<string>, lines: seq<string>)
    requires Usable(t) && Clean(lines) && forall k | k in current :: NoBreak(k)
    ensures Clean(Written(t, current, lines))
  {
    FilterClean(t, current, lines);
    PopClean(Filter(t, current, lines));
    BlockClean(t, Added(current, lines));
    CleanJoin(PopBlank(Filter(t, current, lines)), Block(t, Added(current, lines)));
  }

  lemma LinesOfClean(t: Texts, file: Option<string>)
    requires Usable(t)
    ensures Clean(LinesOf(t, file))
  {
    if file.Some? { LinesAreClean(Translate(file.value)); }
  }

  /** The lines that a rewritten file is read back as. */
  function ReadBack(lines: seq<string>): seq<string> {
    if lines == [] then [""] else lines
  }

  lemma RewriteReadsBack(t: Texts, current: set<string>, file: Option<string>)
    requires Usable(t) && forall k | k in current :: NoBreak(k)
    ensures LinesOf(t, Some(Rewrite(t, current, file))) == ReadBack(Written(t, current, LinesOf(t, file)))
  {
    var lines := Written(t, current, LinesOf(t, file));
    LinesOfClean(t, file);
    WrittenClean(t, current, LinesOf(t, file));
    UnlinesNoReturn(lines);
    TranslateNothing(Unlines(lines));
    SplitUnlines(lines);
  }

  lemma EmptyLine(t: Texts, current: set<string>)
    requires Usable(t)
    ensures ReadLines([""]) == map[] && Written(t, current, [""]) == Written(t, current, [])
  {
    assert [""][..0] == [] && Parse("").None? && "" != t.rule;
    assert Filter(t, current, [""]) == [""];
    assert PopBlank([""]) == [];
  }

  /** What the gate reads from a file that is there is what it reads from the lines. */
  lemma EntriesAreOfLines(t: Texts, file: Option<string>)
    requires Usable(t)
    ensures Entries(file) == ReadLines(LinesOf(t, file))
  {
    if file.None? { HeaderSurvives(t, {}, t.header); }
  }

  /** A rewrite followed by a read: every current key, its old reason if it had one, and nothing else. */
  lemma ReadAfterWrite(t: Texts, current: set<string>, file: Option<string>)
    requires Usable(t) && CleanKeys(current)
    ensures Entries(Some(Rewrite(t, current, file))) == Expected(t, current, Entries(file))
  {
    RewriteReadsBack(t, current, file);
    EntriesAreOfLines(t, file);
    ReadWritten(t, current, LinesOf(t, file));
    EmptyLine(t, current);
  }

  lemma StripPart(s: string)
    ensures NoBreak(s) ==> NoBreak(Strip(s))
    ensures '#' !in s ==> '#' !in Strip(s)
  {
    var l, r := StripSplits(s);
    assert forall i | 0 <= i < |Strip(s)| :: Strip(s)[i] == s[|l| + i];
  }

  lemma StripNotEmpty(s: string)
    requires s != "" && !IsSpace(s[0])
    ensures Strip(s) != ""
  {
    var l, r := StripSplits(s);
    assert s[0] == (l + Strip(s) + r)[0];
  }

  /** A key that is read from one line is clean. */
  lemma ParsedKeyClean(line: string)
    requires NoBreak(line) && Parse(line).Some?
    ensures CleanKey(Parse(line).value.key)
  {
    var s := Strip(line);
    var k := IndexOf(s, '#');
    StripPart(line);
    var a, b := StripSplits(line);
    StripPart(s[..k]);
    var l, r := StripSplits(s[..k]);
    assert s[..k][0] == s[0];
    StripNotEmpty(s[..k]);
  }

  lemma {:induction false} ReadKeysClean(lines: seq<string>)
    requires Clean(lines)
    ensures CleanKeys(ReadLines(lines).Keys)
  {
    if lines != [] {
      var n := |lines| - 1;
      ReadKeysClean(lines[..n]);
      if Parse(lines[n]).Some? { ParsedKeyClean(lines[n]); }
    }
  }

  /**
   `new` and `stale` are both empty after a rewrite exactly when every current key is trimmed, free of
   `#` and on one line.
   */
  lemma GateIsGreenAfterWrite(t: Texts, current: set<string>, file: Option<string>)
    requires Usable(t)
    ensures var after := Entries(Some(Rewrite(t, current, file))).Keys;
      current - after == {} && after - current == {} <==> CleanKeys(current)
  {
    var text := Rewrite(t, current, file);
    if CleanKeys(current) {
      ReadAfterWrite(t, current, file);
    } else {
      LinesAreClean(Translate(text));
      ReadKeysClean(SplitLines(Translate(text)));
      var k :| k in current && !CleanKey(k);
      assert k in current - Entries(Some(text)).Keys;
    }
  }

  /** A key that holds `#` is not read back: it is new after every rewrite. */
  lemma HashInKey(t: Texts, current: set<string>, file: Option<string>, key: string)
    requires Usable(t) && key in current && '#' in key
    ensures key !in Entries(Some(Rewrite(t, current, file)))
  {
    var text := Rewrite(t, current, file);
    LinesAreClean(Translate(text));
    ReadKeysClean(SplitLines(Translate(text)));
  }

  // ---------------------------------------------------------------- repeating the rewrite

  predicate AllSurvive(t: Texts, current: set<string>, lines: seq<string>) {
    lines == [] || (Survives(t, current, lines[|lines| - 1]) && AllSurvive(t, current, lines[..|lines| - 1]))
  }

  lemma SurviveMore(t: Texts, current: set<string>, lines: seq<string>, line: string)
    requires AllSurvive(t, current, lines) && Survives(t, current, line)
    ensures AllSurvive(t, current, lines + [line])
  {
    assert (lines + [line])[..|lines|] == lines;
  }

  lemma {:induction false} FilterSurvives(t: Texts, current: set<string>, lines: seq<string>)
    ensures AllSurvive(t, current, Filter(t, current, lines))
  {
    if lines != [] {
      var n := |lines| - 1;
      FilterSurvives(t, current, lines[..n]);
      if Survives(t, current, lines[n]) {
        SurviveMore(t, current, Filter(t, current, lines[..n]), lines[n]);
      }
    }
  }

  lemma {:induction false} FilterIsFinal(t: Texts, current: set<string>, lines: seq<string>)
    requires AllSurvive(t, current, lines)
    ensures Filter(t, current, lines) == lines
  {
    if lines != [] {
      FilterIsFinal(t, current, lines[..|lines| - 1]);
    }
  }

  lemma {:induction false} PopSurvives(t: Texts, current: set<string>, lines: seq<string>)
    requires AllSurvive(t, current, lines)
    ensures AllSurvive(t, current, PopBlank(lines)) && PopBlank(PopBlank(lines)) == PopBlank(lines)
  {
    if lines != [] && BlankLine(lines[|lines| - 1]) { PopSurvives(t, current, lines[..|lines| - 1]); }
  }

  lemma NothingAdded(current: set<string>, lines: seq<string>)
    ensures Added(current, lines) == [] <==> current <= ReadLines(lines).Keys
  {
    AddedAre(current, lines);
    assert Added(current, lines) != [] ==> Added(current, lines)[0] in Added(current, lines);
  }

  /** A rewrite that adds no key leaves lines which every further rewrite leaves alone. */
  lemma NoKeyAddedIsFinal(t: Texts, current: set<string>, lines: seq<string>)
    requires current <= ReadLines(lines).Keys
    ensures var once := Written(t, current, lines);
      Written(t, current, once) == once && AllSurvive(t, current, once) && current <= ReadLines(once).Keys
  {
    var f := Filter(t, current, lines);
    var once := PopBlank(f);
    NothingAdded(current, lines);
    assert Written(t, current, lines) == once;
    FilterSurvives(t, current, lines);
    PopSurvives(t, current, f);
    FilterIsFinal(t, current, once);
    ReadPop(f);
    ReadFilter(t, current, lines);
    NothingAdded(current, once);
  }

  lemma {:induction false} SurvivorsHoldNoRule(t: Texts, current: set<string>, lines: seq<string>)
    requires Usable(t) && AllSurvive(t, current, lines)
    ensures t.rule !in lines
  {
    StripTrimmed(t.rule);
    if lines != [] {
      var n := |lines| - 1;
      SurvivorsHoldNoRule(t, current, lines[..n]);
      assert lines == lines[..n] + [lines[n]];
    }
  }

  /** The second rewrite changes the lines of the first exactly when the first added a key. */
  lemma SecondRewrite(t: Texts, current: set<string>, lines: seq<string>)
    requires Usable(t) && CleanKeys(current)
    ensures var once := Written(t, current, lines);
      Written(t, current, once) == once <==> current <= ReadLines(lines).Keys
  {
    var once := Written(t, current, lines);
    if current <= ReadLines(lines).Keys {
      NoKeyAddedIsFinal(t, current, lines);
    } else {
      NothingAdded(current, lines);
      ReadWritten(t, current, lines);
      NoKeyAddedIsFinal(t, current, once);
      SurvivorsHoldNoRule(t, current, Written(t, current, once));
      RuleIsWritten(t, current, lines);
    }
  }

  lemma RuleIsWritten(t: Texts, current: set<string>, lines: seq<string>)
    requires Added(current, lines) != []
    ensures t.rule in Written(t, current, lines)
  {
    var p := PopBlank(Filter(t, current, lines));
    assert Written(t, current, lines)[|p| + 1] == t.rule;
  }

  /** The third rewrite never changes anything. */
  lemma ThirdRewrite(t: Texts, current: set<string>, lines: seq<string>)
    requires Usable(t) && CleanKeys(current)
    ensures var twice := Written(t, current, Written(t, current, lines));
      Written(t, current, twice) == twice
  {
    ReadWritten(t, current, lines);
    SecondRewrite(t, current, Written(t, current, lines));
  }

  /** On the text of the file: from the second application on `--update-baseline` writes the same file. */
  lemma RewriteIsStable(t: Texts, current: set<string>, file: Option<string>)
    requires Usable(t) && CleanKeys(current)
    ensures var second := Some(Rewrite(t, current, Some(Rewrite(t, current, file))));
      Some(Rewrite(t, current, second)) == second
  {
    var first := Some(Rewrite(t, current, file));
    var second := Some(Rewrite(t, current, first));
    var lines := LinesOf(t, file);
    WrittenBack(t, current, file);
    WrittenBack(t, current, first);
    ThirdRewrite(t, current, lines);
  }

  /** Rewriting a rewritten file is rewriting its lines. */
  lemma WrittenBack(t: Texts, current: set<string>, file: Option<string>)
    requires Usable(t) && CleanKeys(current)
    ensures Written(t, current, LinesOf(t, Some(Rewrite(t, current, file))))
         == Written(t, current, Written(t, current, LinesOf(t, file)))
  {
    RewriteReadsBack(t, current, file);
    EmptyLine(t, current);
  }

  // ---------------------------------------------------------------- the prose

  function Prose(t: Texts, lines: seq<string>): seq<string> {
    if lines == [] then []
    else
      var n := |lines| - 1;
      Prose(t, lines[..n]) + ProseOf(t, lines[n])
  }

  function ProseOf(t: Texts, line: string): seq<string> {
    if IsProse(t, line) then [line] else []
  }

  predicate AllBlank(lines: seq<string>) {
    forall i | 0 <= i < |lines| :: BlankLine(lines[i])
  }

  lemma {:induction false} ProseAppend(t: Texts, a: seq<string>, b: seq<string>)
    ensures Prose(t, a + b) == Prose(t, a) + Prose(t, b)
  {
    if b == [] {
      assert a + b == a;
    } else {
      var n := |b| - 1;
      ProseAppend(t, a, b[..n]);
      Init(a, b);
      Regroup(Prose(t, a), Prose(t, b[..n]), ProseOf(t, b[n]));
    }
  }

  lemma {:induction false} FilterKeepsProse(t: Texts, current: set<string>, lines: seq<string>)
    ensures Prose(t, Filter(t, current, lines)) == Prose(t, lines)
  {
    if lines != [] {
      var n := |lines| - 1;
      FilterKeepsProse(t, current, lines[..n]);
      if Survives(t, current, lines[n]) {
        var f := Filter(t, current, lines[..n]);
        assert (f + [lines[n]])[..|f|] == f;
      }
    }
  }

  lemma BlankIsProse(t: Texts, line: string)
    requires Usable(t) && BlankLine(line)
    ensures ProseOf(t, line) == [line]
  {
  }

  lemma BlankMore(tail: seq<string>, line: string)
    requires AllBlank(tail) && BlankLine(line)
    ensures AllBlank(tail + [line])
  {
  }

  lemma {:induction false} PopKeepsProse(t: Texts, lines: seq<string>) returns (tail: seq<string>)
    requires Usable(t)
    ensures Prose(t, lines) == Prose(t, PopBlank(lines)) + tail && AllBlank(tail)
  {
    tail := [];
    if lines != [] && BlankLine(lines[|lines| - 1]) {
      var n := |lines| - 1;
      var init := PopKeepsProse(t, lines[..n]);
      BlankIsProse(t, lines[n]);
      BlankMore(init, lines[n]);
      Regroup(Prose(t, PopBlank(lines)), init, [lines[n]]);
      tail := init + [lines[n]];
    }
  }

  lemma {:induction false} AddedHoldNoProse(t: Texts, keys: seq<string>)
    requires Usable(t) && forall k | k in keys :: CleanKey(k)
    ensures Prose(t, AddedLines(t, keys)) == []
  {
    if keys != [] {
      var n := |keys| - 1;
      AddedHoldNoProse(t, keys[..n]);
      assert keys[n] in keys;
      ParseAdded(t, keys[n]);
      var ls := AddedLines(t, keys[..n]);
      assert (ls + [AddedLine(t, keys[n])])[..|ls|] == ls;
    }
  }

  lemma RuleIsNoProse(t: Texts)
    requires Usable(t)
    ensures Prose(t, ["", t.rule]) == [""]
  {
    StripTrimmed(t.rule);
    assert ["", t.rule][..1] == [""] && [""][..0] == [];
    assert Prose(t, [""]) == [""];
  }

  lemma BlockProse(t: Texts, keys: seq<string>)
    requires Usable(t) && forall k | k in keys :: CleanKey(k)
    ensures Prose(t, Block(t, keys)) == if keys == [] then [] else [""]
  {
    if keys != [] {
      ProseAppend(t, ["", t.rule], AddedLines(t, keys));
      AddedHoldNoProse(t, keys);
      RuleIsNoProse(t);
    }
  }

  /**
   A rewrite keeps the prose: every non-entry line but the regeneration rule is still there, byte for
   byte and in order, except for blank lines at the end; new is at most the blank line before the rule.
   */
  lemma ProseSurvives(t: Texts, current: set<string>, lines: seq<string>) returns (body: seq<string>, tail: seq<string>)
    requires Usable(t) && CleanKeys(current)
    ensures Prose(t, lines) == body + tail && AllBlank(tail)
    ensures Prose(t, Written(t, current, lines)) == body + if current <= ReadLines(lines).Keys then [] else [""]
  {
    var f := Filter(t, current, lines);
    FilterKeepsProse(t, current, lines);
    body := Prose(t, PopBlank(f));
    tail := PopKeepsProse(t, f);
    NothingAdded(current, lines);
    AddedAre(current, lines);
    BlockProse(t, Added(current, lines));
    ProseAppend(t, PopBlank(f), Block(t, Added(current, lines)));
  }
}
