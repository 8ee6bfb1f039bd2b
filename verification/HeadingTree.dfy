/**
 `sections` and `judged` of scripts/check_upgrade_docs.py: the section tree of a Markdown file, and
 which update sections are judged on their own.
 */
module HeadingTree {
  import PyText

  type Level = n: nat | 1 <= n <= 6 witness 1

  /** A line as the fence test and the heading regex classify it, in that order. */
  datatype Line = Fence | Heading(level: Level, text: string) | Other

  datatype Head = Head(line: nat, level: nat, text: string)

  /** `chain` holds level and text of the parent headings and, last, of the heading itself. */
  datatype Section = Section(start: nat, end: nat, chain: seq<(nat, string)>, own: string, level: nat)

  // ---------------------------------------------------------------- specification

  /** Whether line `k` is inside a code block. */
  predicate InFence(lines: seq<Line>, k: nat)
    requires k <= |lines|
  {
    k > 0 && (if lines[k - 1].Fence? then !InFence(lines, k - 1) else InFence(lines, k - 1))
  }

  /** The headings among the first `k` lines; those inside code blocks are none. */
  function HeadsTo(lines: seq<Line>, k: nat): seq<Head>
    requires k <= |lines|
  {
    if k == 0 then []
    else if lines[k - 1].Heading? && !InFence(lines, k - 1) then
      HeadsTo(lines, k - 1) + [Head(k - 1, lines[k - 1].level, lines[k - 1].text)]
    else HeadsTo(lines, k - 1)
  }

  /** Headings as `sections` collects them: ascending lines, levels from 1. */
  ghost predicate Collected(heads: seq<Head>, n: nat) {
    && (forall i | 0 <= i < |heads| :: heads[i].line < n && heads[i].level >= 1)
    && (forall i, j | 0 <= i < j < |heads| :: heads[i].line < heads[j].line)
  }

  lemma {:induction false} HeadsCollected(lines: seq<Line>, k: nat)
    requires k <= |lines|
    ensures Collected(HeadsTo(lines, k), k)
  {
    if k > 0 { HeadsCollected(lines, k - 1); }
  }

  /** The fence lines among the first `k`. */
  function Fences(lines: seq<Line>, k: nat): nat
    requires k <= |lines|
  {
    if k == 0 then 0 else Fences(lines, k - 1) + if lines[k - 1].Fence? then 1 else 0
  }

  lemma {:induction false} FencesAlternate(lines: seq<Line>, k: nat)
    requires k <= |lines|
    ensures InFence(lines, k) <==> Fences(lines, k) % 2 == 1
  {
    if k > 0 { FencesAlternate(lines, k - 1); }
  }

  /** The collected headings are the heading lines with an even number of fence lines above them. */
  lemma {:induction false} HeadsExact(lines: seq<Line>, k: nat, h: Head)
    requires k <= |lines|
    ensures h in HeadsTo(lines, k) <==>
              && h.line < k && lines[h.line].Heading? && lines[h.line].level == h.level && lines[h.line].text == h.text
              && Fences(lines, h.line) % 2 == 0
  {
    if k > 0 {
      HeadsExact(lines, k - 1, h);
      FencesAlternate(lines, k - 1);
    }
  }

  /** The forward scan: the line of the next heading from `k` on that is no deeper, or the end. */
  function EndFrom(heads: seq<Head>, k: nat, level: nat, n: nat): nat
    decreases |heads| - k
  {
    if k >= |heads| then n
    else if heads[k].level <= level then heads[k].line
    else EndFrom(heads, k + 1, level, n)
  }

  function End(heads: seq<Head>, i: nat, n: nat): nat
    requires i < |heads|
  {
    EndFrom(heads, i + 1, heads[i].level, n)
  }

  /** The backward scan over the first `k` headings, outermost first: each one shallower than all after it. */
  function Ancestors(heads: seq<Head>, k: nat, cur: nat): seq<nat>
    requires k <= |heads|
  {
    if k == 0 then []
    else if heads[k - 1].level < cur then Ancestors(heads, k - 1, heads[k - 1].level) + [k - 1]
    else Ancestors(heads, k - 1, cur)
  }

  function Titles(heads: seq<Head>, idx: seq<nat>): seq<(nat, string)>
    requires forall k | 0 <= k < |idx| :: idx[k] < |heads|
  {
    if idx == [] then []
    else
      var h := heads[idx[|idx| - 1]];
      Titles(heads, idx[..|idx| - 1]) + [(h.level, h.text)]
  }

  lemma {:induction false} AncestorsBelow(heads: seq<Head>, k: nat, cur: nat)
    requires k <= |heads|
    ensures forall j | 0 <= j < |Ancestors(heads, k, cur)| :: Ancestors(heads, k, cur)[j] < k
  {
    if k > 0 {
      AncestorsBelow(heads, k - 1, cur);
      AncestorsBelow(heads, k - 1, heads[k - 1].level);
    }
  }

  function SectionOf(heads: seq<Head>, i: nat, n: nat): Section
    requires i < |heads|
  {
    AncestorsBelow(heads, i, heads[i].level);
    var h := heads[i];
    var chain := Titles(heads, Ancestors(heads, i, h.level)) + [(h.level, h.text)];
    Section(h.line, End(heads, i, n), chain, h.text, h.level)
  }

  function SectionsTo(heads: seq<Head>, i: nat, n: nat): (secs: seq<Section>)
    requires i <= |heads|
    ensures |secs| == i && forall k | 0 <= k < i :: secs[k] == SectionOf(heads, k, n)
  {
    if i == 0 then [] else SectionsTo(heads, i - 1, n) + [SectionOf(heads, i - 1, n)]
  }

  function SectionsOf(lines: seq<Line>): seq<Section> {
    var heads := HeadsTo(lines, |lines|);
    if heads == [] then [Section(0, |lines|, [], "", 0)] else SectionsTo(heads, |heads|, |lines|)
  }

  // ---------------------------------------------------------------- the loops of `sections`

  method Heads(lines: seq<Line>) returns (heads: seq<Head>)
    ensures heads == HeadsTo(lines, |lines|)
  {
    heads := [];
    var inFence := false;
    for i := 0 to |lines|
      invariant heads == HeadsTo(lines, i) && inFence == InFence(lines, i)
    {
      if lines[i].Fence? {
        inFence := !inFence;
      } else if !inFence && lines[i].Heading? {
        heads := heads + [Head(i, lines[i].level, lines[i].text)];
      }
    }
  }

  /** Of the titles `all` those of the first `k` headings are still to come, and `chain` holds the others. */
  ghost predicate ChainFrom(heads: seq<Head>, k: nat, cur: nat, chain: seq<(nat, string)>, all: seq<(nat, string)>) {
    && k <= |heads| && (forall j | 0 <= j < |Ancestors(heads, k, cur)| :: Ancestors(heads, k, cur)[j] < |heads|)
    && all == Titles(heads, Ancestors(heads, k, cur)) + chain
  }

  lemma ChainTurn(heads: seq<Head>, k: nat, cur: nat, chain: seq<(nat, string)>, all: seq<(nat, string)>)
    requires k < |heads| && ChainFrom(heads, k + 1, cur, chain, all)
    ensures if heads[k].level < cur
            then ChainFrom(heads, k, heads[k].level, [(heads[k].level, heads[k].text)] + chain, all)
            else ChainFrom(heads, k, cur, chain, all)
  {
    if heads[k].level < cur {
      AncestorsBelow(heads, k, heads[k].level);
      var a, title := Ancestors(heads, k, heads[k].level), (heads[k].level, heads[k].text);
      assert (a + [k])[..|a|] == a;
      PyText.Regroup(Titles(heads, a), [title], chain);
    }
  }

  method Chain(heads: seq<Head>, idx: nat) returns (chain: seq<(nat, string)>)
    requires idx < |heads|
    ensures chain == SectionOf(heads, idx, 0).chain
  {
    chain := [];
    var cur, k := heads[idx].level, idx;
    AncestorsBelow(heads, idx, heads[idx].level);
    ghost var all := Titles(heads, Ancestors(heads, idx, heads[idx].level));
    while k > 0
      invariant k <= idx && ChainFrom(heads, k, cur, chain, all)
    {
      k := k - 1;
      ChainTurn(heads, k, cur, chain, all);
      if heads[k].level < cur {
        chain := [(heads[k].level, heads[k].text)] + chain;
        cur := heads[k].level;
      }
    }
    chain := chain + [(heads[idx].level, heads[idx].text)];
  }

  /** The forward scan for the next heading that is not deeper. */
  method FindEnd(heads: seq<Head>, idx: nat, n: nat) returns (end: nat)
    requires idx < |heads|
    ensures end == End(heads, idx, n)
  {
    end := n;
    var k := idx + 1;
    while k < |heads|
      invariant idx < k <= |heads|
      invariant end == n && End(heads, idx, n) == EndFrom(heads, k, heads[idx].level, n)
    {
      if heads[k].level <= heads[idx].level {
        return heads[k].line;
      }
      k := k + 1;
    }
  }

  method Sections(lines: seq<Line>) returns (secs: seq<Section>)
    ensures secs == SectionsOf(lines)
  {
    var heads := Heads(lines);
    secs := [];
    for idx := 0 to |heads|
      invariant secs == SectionsTo(heads, idx, |lines|)
    {
      var end := FindEnd(heads, idx, |lines|);
      var chain := Chain(heads, idx);
      secs := secs + [Section(heads[idx].line, end, chain, heads[idx].text, heads[idx].level)];
    }
    if heads == [] {
      secs := [Section(0, |lines|, [], "", 0)];
    }
  }

  // ---------------------------------------------------------------- forward and backward scan agree

  lemma {:induction false} AncestorsExact(heads: seq<Head>, i: nat, cur: nat, j: nat)
    requires i <= |heads|
    ensures j in Ancestors(heads, i, cur) <==>
            j < i && heads[j].level < cur && forall k | j < k < i :: heads[j].level < heads[k].level
  {
    if i > 0 {
      AncestorsExact(heads, i - 1, cur, j);
      AncestorsExact(heads, i - 1, heads[i - 1].level, j);
    }
  }

  lemma {:induction false} AncestorsAscend(heads: seq<Head>, k: nat, cur: nat)
    requires k <= |heads|
    ensures PyText.Increasing(Ancestors(heads, k, cur))
  {
    if k > 0 {
      AncestorsAscend(heads, k - 1, cur);
      AncestorsAscend(heads, k - 1, heads[k - 1].level);
      AncestorsBelow(heads, k - 1, heads[k - 1].level);
    }
  }

  lemma {:induction false} TitlesAre(heads: seq<Head>, idx: seq<nat>)
    requires forall k | 0 <= k < |idx| :: idx[k] < |heads|
    ensures |Titles(heads, idx)| == |idx|
    ensures forall k | 0 <= k < |idx| :: Titles(heads, idx)[k] == (heads[idx[k]].level, heads[idx[k]].text)
  {
    if idx != [] { TitlesAre(heads, idx[..|idx| - 1]); }
  }

  /** Heading `j` is above heading `i`: every heading from behind it down to `i` is deeper. */
  predicate IsAbove(heads: seq<Head>, j: int, i: nat)
    requires i < |heads|
  {
    0 <= j < i && forall k | j < k <= i :: heads[j].level < heads[k].level
  }

  lemma AncestorsAre(heads: seq<Head>, i: nat, above: seq<int>)
    requires i < |heads| && above == Ancestors(heads, i, heads[i].level)
    ensures forall j :: j in above <==> IsAbove(heads, j, i)
  {
    hide Ancestors;
    forall j ensures j in above <==> IsAbove(heads, j, i) {
      AncestorsBelow(heads, i, heads[i].level);
      if j >= 0 { AncestorsExact(heads, i, heads[i].level, j); }
    }
  }

  /**
   The chain of a section: the headings `above` it in the order of the file, and its own heading last.
   */
  lemma ChainIs(heads: seq<Head>, i: nat, n: nat) returns (above: seq<nat>)
    requires i < |heads|
    ensures PyText.Increasing(above) && forall j :: j in above <==> IsAbove(heads, j, i)
    ensures var chain := SectionOf(heads, i, n).chain;
      && |chain| == |above| + 1 && chain[|above|] == (heads[i].level, heads[i].text)
      && forall k | 0 <= k < |above| :: above[k] < |heads| && chain[k] == (heads[above[k]].level, heads[above[k]].text)
  {
    hide Ancestors, Titles, IsAbove, End;
    above := Ancestors(heads, i, heads[i].level);
    AncestorsBelow(heads, i, heads[i].level);
    AncestorsAscend(heads, i, heads[i].level);
    TitlesAre(heads, above);
    AncestorsAre(heads, i, above);
  }

  /** A file without headings outside code blocks is one section. */
  lemma WithoutHeadings(lines: seq<Line>)
    requires forall k | 0 <= k < |lines| && lines[k].Heading? :: Fences(lines, k) % 2 == 1
    ensures SectionsOf(lines) == [Section(0, |lines|, [], "", 0)]
  {
    var heads := HeadsTo(lines, |lines|);
    if heads != [] { HeadsExact(lines, |lines|, heads[0]); }
  }

  lemma {:induction false} EndExact(heads: seq<Head>, k: nat, level: nat, n: nat, i: nat)
    requires Collected(heads, n) && k <= i < |heads|
    ensures EndFrom(heads, k, level, n) > heads[i].line <==> forall m | k <= m <= i :: heads[m].level > level
    ensures heads[i].level <= level ==> EndFrom(heads, k, level, n) <= heads[i].line
    decreases |heads| - k
  {
    if heads[k].level > level && k < i {
      EndExact(heads, k + 1, level, n, i);
    } else if heads[k].level > level && k + 1 < |heads| {
      EndExact(heads, k + 1, level, n, k + 1);
      EndBehind(heads, k + 1, level, n);
    }
  }

  lemma {:induction false} EndBehind(heads: seq<Head>, k: nat, level: nat, n: nat)
    requires Collected(heads, n) && 0 < k
    ensures k <= |heads| ==> EndFrom(heads, k, level, n) > heads[k - 1].line
    ensures EndFrom(heads, k, level, n) <= n
    decreases |heads| - k
  {
    if k < |heads| && heads[k].level > level { EndBehind(heads, k + 1, level, n); }
  }

  /** A deeper level ends no later. */
  lemma {:induction false} EndMonotone(heads: seq<Head>, k: nat, level: nat, deeper: nat, n: nat)
    requires Collected(heads, n) && level <= deeper && 0 < k
    ensures EndFrom(heads, k, deeper, n) <= EndFrom(heads, k, level, n)
    decreases |heads| - k
  {
    if k < |heads| {
      if heads[k].level <= deeper {
        EndBehind(heads, k + 1, level, n);
      } else {
        EndMonotone(heads, k + 1, level, deeper, n);
      }
    }
  }

  ghost predicate Inside(inner: Section, outer: Section) {
    outer.start <= inner.start && inner.end <= outer.end
  }

  ghost predicate Disjoint(a: Section, b: Section) {
    a.end <= b.start || b.end <= a.start
  }

  /** Section `j` is in the backward-computed chain of section `i`. */
  ghost predicate InChain(heads: seq<Head>, j: nat, i: nat)
    requires i < |heads|
  {
    j in Ancestors(heads, i, heads[i].level)
  }

  /** An earlier heading is in a section's chain exactly when that section lies inside the earlier one's interval. */
  lemma ChainIsContainment(heads: seq<Head>, n: nat, j: nat, i: nat)
    requires Collected(heads, n) && j < i < |heads|
    ensures InChain(heads, j, i) <==> Inside(SectionOf(heads, i, n), SectionOf(heads, j, n))
    ensures !InChain(heads, j, i) ==> Disjoint(SectionOf(heads, i, n), SectionOf(heads, j, n))
  {
    AncestorsExact(heads, i, heads[i].level, j);
    EndExact(heads, j + 1, heads[j].level, n, i);
    if InChain(heads, j, i) {
      EndTail(heads, j + 1, i + 1, heads[j].level, n);
      EndMonotone(heads, i + 1, heads[j].level, heads[i].level, n);
    } else {
      EndBehind(heads, i + 1, heads[i].level, n);
    }
  }

  lemma {:induction false} EndTail(heads: seq<Head>, k: nat, m: nat, level: nat, n: nat)
    requires k <= m <= |heads| && forall x | k <= x < m :: heads[x].level > level
    ensures EndFrom(heads, k, level, n) == EndFrom(heads, m, level, n)
    decreases m - k
  {
    if k < m { EndTail(heads, k + 1, m, level, n); }
  }

  lemma LaminarHeads(heads: seq<Head>, n: nat, i: nat, j: nat)
    requires Collected(heads, n) && j < i < |heads|
    ensures || Inside(SectionOf(heads, i, n), SectionOf(heads, j, n))
            || Disjoint(SectionOf(heads, i, n), SectionOf(heads, j, n))
    ensures SectionOf(heads, j, n).start < SectionOf(heads, i, n).start < SectionOf(heads, i, n).end <= n
  {
    ChainIsContainment(heads, n, j, i);
    EndBehind(heads, i + 1, heads[i].level, n);
  }

  /** Any two sections of a file are nested or disjoint, and none is empty. */
  lemma Laminar(lines: seq<Line>, secs: seq<Section>, i: nat, j: nat)
    requires secs == SectionsOf(lines) && j < i < |secs|
    ensures Inside(secs[i], secs[j]) || Disjoint(secs[i], secs[j])
    ensures secs[j].start < secs[i].start < secs[i].end <= |lines|
  {
    HeadsCollected(lines, |lines|);
    LaminarHeads(HeadsTo(lines, |lines|), |lines|, i, j);
  }

  // ---------------------------------------------------------------- which sections are judged

  /** `update` is the search for an update word in a heading text. */
  predicate Judged(update: string -> bool, sec: Section, secs: seq<Section>)
    requires |sec.chain| > 0 || sec.level <= 1
  {
    if !update(sec.own) then false
    else if sec.level <= 1 then
      !exists k | 0 <= k < |secs| :: secs[k].start > sec.start && secs[k].end <= sec.end && update(secs[k].own)
    else
      !AnyUpdate(update, sec.chain[..|sec.chain| - 1])
  }

  /** Some parent heading of level two or deeper speaks of an update. */
  predicate AnyUpdate(update: string -> bool, titles: seq<(nat, string)>) {
    titles != [] && (AnyUpdate(update, titles[..|titles| - 1])
                     || (titles[|titles| - 1].0 >= 2 && update(titles[|titles| - 1].1)))
  }

  /** Section `i` of the file is judged. */
  ghost predicate JudgedAt(update: string -> bool, heads: seq<Head>, n: nat, i: nat)
    requires i < |heads|
  {
    Judged(update, SectionOf(heads, i, n), SectionsTo(heads, |heads|, n))
  }

  ghost predicate UpdateParent(update: string -> bool, heads: seq<Head>, j: nat) {
    j < |heads| && heads[j].level >= 2 && update(heads[j].text)
  }

  lemma {:induction false} AnyUpdateExact(update: string -> bool, heads: seq<Head>, idx: seq<nat>)
    requires forall k | 0 <= k < |idx| :: idx[k] < |heads|
    ensures AnyUpdate(update, Titles(heads, idx)) <==> exists j | j in idx :: UpdateParent(update, heads, j)
    decreases |idx|
  {
    if idx != [] {
      var init, last := idx[..|idx| - 1], idx[|idx| - 1];
      var ts := Titles(heads, init);
      AnyUpdateExact(update, heads, init);
      assert idx == init + [last] && Titles(heads, idx)[..|ts|] == ts;
      assert AnyUpdate(update, Titles(heads, idx)) <==> AnyUpdate(update, ts) || UpdateParent(update, heads, last);
    }
  }

  /** A section from level 2 on is judged exactly when no update section from level 2 on contains it. */
  lemma JudgedMeansOutermost(update: string -> bool, heads: seq<Head>, n: nat, i: nat)
    requires Collected(heads, n) && i < |heads| && heads[i].level >= 2 && update(heads[i].text)
    ensures JudgedAt(update, heads, n, i) <==>
            forall j: nat | j < i && InChain(heads, j, i) :: !UpdateParent(update, heads, j)
  {
    AncestorsBelow(heads, i, heads[i].level);
    AnyUpdateExact(update, heads, Ancestors(heads, i, heads[i].level));
    var ts := Titles(heads, Ancestors(heads, i, heads[i].level));
    assert (ts + [(heads[i].level, heads[i].text)])[..|ts|] == ts;
  }

  lemma InsideTitle(heads: seq<Head>, n: nat, i: nat, k: nat)
    requires Collected(heads, n) && i < |heads| && k < |heads| && heads[i].level == 1
    ensures && SectionOf(heads, k, n).start > SectionOf(heads, i, n).start
            && SectionOf(heads, k, n).end <= SectionOf(heads, i, n).end
            <==> i < k && InChain(heads, i, k)
    ensures i < k && InChain(heads, i, k) ==> heads[k].level >= 2
  {
    if i < k {
      ChainIsContainment(heads, n, i, k);
      AncestorsExact(heads, k, heads[k].level, i);
    }
  }

  /** A level-1 update section is judged exactly when it contains no deeper update section. */
  lemma TitleJudged(update: string -> bool, heads: seq<Head>, n: nat, i: nat)
    requires Collected(heads, n) && i < |heads| && heads[i].level == 1 && update(heads[i].text)
    ensures JudgedAt(update, heads, n, i) <==>
            forall j: nat | i < j < |heads| && InChain(heads, i, j) :: !UpdateParent(update, heads, j)
  {
    var secs, sec := SectionsTo(heads, |heads|, n), SectionOf(heads, i, n);
    if j: nat :| i < j < |heads| && InChain(heads, i, j) && UpdateParent(update, heads, j) {
      InsideTitle(heads, n, i, j);
      assert secs[j].start > sec.start && secs[j].end <= sec.end && update(secs[j].own);
    } else if k :| 0 <= k < |secs| && secs[k].start > sec.start && secs[k].end <= sec.end && update(secs[k].own) {
      InsideTitle(heads, n, i, k);
      assert UpdateParent(update, heads, k);
    }
  }

  /** Judged sections are pairwise disjoint. */
  lemma JudgedDisjoint(update: string -> bool, heads: seq<Head>, n: nat, j: nat, i: nat)
    requires Collected(heads, n) && j < i < |heads|
    requires JudgedAt(update, heads, n, i) && JudgedAt(update, heads, n, j)
    ensures Disjoint(SectionOf(heads, i, n), SectionOf(heads, j, n))
  {
    ChainIsContainment(heads, n, j, i);
    AncestorsExact(heads, i, heads[i].level, j);
    if InChain(heads, j, i) {
      if heads[j].level >= 2 {
        JudgedMeansOutermost(update, heads, n, i);
      } else {
        TitleJudged(update, heads, n, j);
      }
    }
  }

  /** Every update section from level 2 on lies inside a judged one. */
  lemma {:induction false} JudgedCovers(update: string -> bool, heads: seq<Head>, n: nat, i: nat) returns (j: nat)
    requires Collected(heads, n) && UpdateParent(update, heads, i)
    ensures j <= i && JudgedAt(update, heads, n, j) && Inside(SectionOf(heads, i, n), SectionOf(heads, j, n))
    decreases i
  {
    if JudgedAt(update, heads, n, i) {
      return i;
    }
    JudgedMeansOutermost(update, heads, n, i);
    var p: nat :| p < i && InChain(heads, p, i) && UpdateParent(update, heads, p);
    ChainIsContainment(heads, n, p, i);
    j := JudgedCovers(update, heads, n, p);
  }

  /** Section `j` is the one judged section that section `i` lies inside, and no other meets it. */
  ghost predicate OnlyJudged(update: string -> bool, heads: seq<Head>, n: nat, i: nat, j: nat)
    requires i < |heads|
  {
    && j < |heads| && JudgedAt(update, heads, n, j) && Inside(SectionOf(heads, i, n), SectionOf(heads, j, n))
    && forall k | 0 <= k < |heads| && k != j && JudgedAt(update, heads, n, k) ::
         !Inside(SectionOf(heads, i, n), SectionOf(heads, k, n))
         && Disjoint(SectionOf(heads, j, n), SectionOf(heads, k, n))
  }

  lemma JudgedOnceAt(update: string -> bool, heads: seq<Head>, n: nat, i: nat) returns (j: nat)
    requires Collected(heads, n) && UpdateParent(update, heads, i)
    ensures OnlyJudged(update, heads, n, i, j)
  {
    j := JudgedCovers(update, heads, n, i);
    EndBehind(heads, i + 1, heads[i].level, n);
    forall k | 0 <= k < |heads| && k != j && JudgedAt(update, heads, n, k)
      ensures !Inside(SectionOf(heads, i, n), SectionOf(heads, k, n))
           && Disjoint(SectionOf(heads, j, n), SectionOf(heads, k, n))
    {
      if k < j {
        JudgedDisjoint(update, heads, n, k, j);
      } else {
        JudgedDisjoint(update, heads, n, j, k);
      }
    }
  }

  /**
   Over the sections of any file: judged sections are disjoint, and every update section from
   level 2 on lies inside exactly one of them.
   */
  lemma JudgedOnce(update: string -> bool, lines: seq<Line>, i: nat)
    requires i < |SectionsOf(lines)| && SectionsOf(lines)[i].level >= 2 && update(SectionsOf(lines)[i].own)
    ensures var secs := SectionsOf(lines);
            exists j | 0 <= j < |secs| ::
              && Judged(update, secs[j], secs) && Inside(secs[i], secs[j])
              && forall k | 0 <= k < |secs| && k != j && Judged(update, secs[k], secs) ::
                   !Inside(secs[i], secs[k]) && Disjoint(secs[j], secs[k])
  {
    var heads, n := HeadsTo(lines, |lines|), |lines|;
    HeadsCollected(lines, n);
    var j := JudgedOnceAt(update, heads, n, i);
    assert Judged(update, SectionsOf(lines)[j], SectionsOf(lines));
  }
}
