/**
 Embedding promotion in `go_structs` of scripts/check_fe_be_fields.py: the json tags of embedded
 structs are added in place, round by round, for at most eight rounds.
 */
module Embedding {

  const MAX_ROUNDS: nat := 8

  /** Struct name to its json tags. */
  type Structs = map<string, set<string>>

  /** `(name, parent)`: struct `name` embeds `parent`. */
  type Edge = (string, string)

  /** The iteration order of the double loop, over structs that exist; parents may be unknown. */
  ghost predicate ValidOrder(structs: Structs, order: seq<Edge>) {
    forall k | 0 <= k < |order| :: order[k].0 in structs
  }

  // ---------------------------------------------------------------- the loop

  function Absorb(st: Structs, e: Edge): (st': Structs)
    requires e.0 in st
    ensures st'.Keys == st.Keys
  {
    if e.1 in st && st[e.1] != {} && !(st[e.1] <= st[e.0]) then st[e.0 := st[e.0] + st[e.1]] else st
  }

  function RoundTo(st: Structs, order: seq<Edge>, j: nat): (st': Structs)
    requires j <= |order| && forall k | 0 <= k < |order| :: order[k].0 in st
    ensures st'.Keys == st.Keys
  {
    if j == 0 then st else Absorb(RoundTo(st, order, j - 1), order[j - 1])
  }

  function Rounds(st: Structs, order: seq<Edge>, r: nat): (st': Structs)
    requires forall k | 0 <= k < |order| :: order[k].0 in st
    ensures st'.Keys == st.Keys
  {
    if r == 0 then st else RoundTo(Rounds(st, order, r - 1), order, |order|)
  }

  lemma RoundAgain(st: Structs, order: seq<Edge>, a: nat, b: nat)
    requires ValidOrder(st, order) && Rounds(st, order, a) == Rounds(st, order, b)
    ensures Rounds(st, order, a + 1) == Rounds(st, order, b + 1)
  {
    RoundIs(st, order, a, Rounds(st, order, a));
    RoundIs(st, order, b, Rounds(st, order, a));
  }

  lemma RoundIs(st: Structs, order: seq<Edge>, r: nat, before: Structs)
    requires ValidOrder(st, order) && before == Rounds(st, order, r)
    ensures Rounds(st, order, r + 1) == RoundTo(before, order, |order|)
  {
  }

  lemma {:induction false} RoundStable(st: Structs, order: seq<Edge>, r: nat, r': nat)
    requires ValidOrder(st, order) && r <= r' && Rounds(st, order, r + 1) == Rounds(st, order, r)
    ensures Rounds(st, order, r') == Rounds(st, order, r)
    decreases r'
  {
    if r < r' {
      RoundStable(st, order, r, r' - 1);
      RoundAgain(st, order, r' - 1, r);
    }
  }

  /** The inner double loop: one round, with its `changed` flag. */
  method PromoteRound(before: Structs, order: seq<Edge>) returns (st: Structs, changed: bool)
    requires ValidOrder(before, order)
    ensures st == RoundTo(before, order, |order|)
    ensures !changed ==> st == before
  {
    st, changed := before, false;
    for j := 0 to |order|
      invariant st == RoundTo(before, order, j)
      invariant !changed ==> st == before
    {
      var (name, parent) := order[j];
      if parent in st && st[parent] != {} && !(st[parent] <= st[name]) {
        st := st[name := st[name] + st[parent]];
        changed := true;
      }
    }
  }

  /** `settled` says that the loop stopped because a round changed nothing. */
  method Promote(structs: Structs, order: seq<Edge>) returns (st: Structs, settled: bool)
    requires ValidOrder(structs, order)
    ensures st == Rounds(structs, order, 8)
    ensures settled ==> RoundTo(st, order, |order|) == st
  {
    st, settled := structs, false;
    for round := 0 to MAX_ROUNDS
      invariant st == Rounds(structs, order, round) && !settled
    {
      var changed;
      st, changed := PromoteRound(st, order);
      if !changed {
        settled := true;
        RoundStable(structs, order, round, MAX_ROUNDS);
        return;
      }
    }
  }

  // ---------------------------------------------------------------- the transitive closure

  /** Tag `t` belongs to `n` through at most `k` embeddings. */
  ghost predicate Reach(structs: Structs, edges: set<Edge>, n: string, k: nat, t: string)
    decreases k
  {
    if k == 0 then n in structs && t in structs[n]
    else Reach(structs, edges, n, k - 1, t) || exists p :: (n, p) in edges && Reach(structs, edges, p, k - 1, t)
  }

  ghost predicate InClosure(structs: Structs, edges: set<Edge>, n: string, t: string) {
    exists k: nat :: Reach(structs, edges, n, k, t)
  }

  function Edges(order: seq<Edge>): set<Edge> {
    set e | e in order
  }

  /** Every tag is in the closure. */
  ghost predicate Sound(structs: Structs, edges: set<Edge>, st: Structs) {
    forall n, t | n in st && t in st[n] :: InClosure(structs, edges, n, t)
  }

  lemma AbsorbSound(structs: Structs, edges: set<Edge>, st: Structs, e: Edge)
    requires Sound(structs, edges, st) && e.0 in st && e in edges
    ensures Sound(structs, edges, Absorb(st, e))
  {
    var st' := Absorb(st, e);
    forall n, t | n in st' && t in st'[n] ensures InClosure(structs, edges, n, t) {
      if t !in st[n] {
        assert InClosure(structs, edges, e.1, t);
        var k: nat :| Reach(structs, edges, e.1, k, t);
        assert Reach(structs, edges, n, k + 1, t);
      }
    }
  }

  lemma {:induction false} RoundSound(structs: Structs, order: seq<Edge>, st: Structs, j: nat)
    requires ValidOrder(st, order) && j <= |order| && Sound(structs, Edges(order), st)
    ensures Sound(structs, Edges(order), RoundTo(st, order, j))
  {
    if j > 0 {
      RoundSound(structs, order, st, j - 1);
      AbsorbSound(structs, Edges(order), RoundTo(st, order, j - 1), order[j - 1]);
    }
  }

  /** Promotion never adds a tag from outside the transitive embedding closure. */
  lemma {:induction false} RoundsSound(structs: Structs, order: seq<Edge>, r: nat)
    requires ValidOrder(structs, order)
    ensures Sound(structs, Edges(order), Rounds(structs, order, r))
  {
    if r == 0 {
      forall n, t | n in structs && t in structs[n] ensures InClosure(structs, Edges(order), n, t) {
        assert Reach(structs, Edges(order), n, 0, t);
      }
    } else {
      RoundsSound(structs, order, r - 1);
      RoundSound(structs, order, Rounds(structs, order, r - 1), |order|);
    }
  }

  /** A round keeps every tag and passes on at least the tags its start state had. */
  lemma {:induction false} RoundPassesOn(st: Structs, order: seq<Edge>, j: nat)
    requires ValidOrder(st, order) && j <= |order|
    ensures forall n | n in st :: st[n] <= RoundTo(st, order, j)[n]
    ensures forall k | 0 <= k < j && order[k].1 in st :: st[order[k].1] <= RoundTo(st, order, j)[order[k].0]
  {
    if j > 0 { RoundPassesOn(st, order, j - 1); }
  }

  /** After `r` rounds every tag within `r` embeddings is there, whatever the order. */
  lemma {:induction false} RoundsComplete(structs: Structs, order: seq<Edge>, r: nat, n: string, t: string)
    requires ValidOrder(structs, order) && Reach(structs, Edges(order), n, r, t)
    ensures n in structs && t in Rounds(structs, order, r)[n]
  {
    if r > 0 {
      var prev := Rounds(structs, order, r - 1);
      RoundPassesOn(prev, order, |order|);
      if Reach(structs, Edges(order), n, r - 1, t) {
        RoundsComplete(structs, order, r - 1, n, t);
      } else {
        var p :| (n, p) in Edges(order) && Reach(structs, Edges(order), p, r - 1, t);
        RoundsComplete(structs, order, r - 1, p, t);
        var k :| 0 <= k < |order| && order[k] == (n, p);
      }
    }
  }

  /** A state that a round does not change holds every tag of the closure. */
  lemma {:induction false} SettledComplete(structs: Structs, order: seq<Edge>, st: Structs,
                                           k: nat, n: string, t: string)
    requires ValidOrder(structs, order) && st.Keys == structs.Keys && RoundTo(st, order, |order|) == st
    requires (forall m | m in structs :: structs[m] <= st[m]) && Reach(structs, Edges(order), n, k, t)
    ensures n in st && t in st[n]
    decreases k
  {
    if k > 0 {
      if Reach(structs, Edges(order), n, k - 1, t) {
        SettledComplete(structs, order, st, k - 1, n, t);
      } else {
        var p :| (n, p) in Edges(order) && Reach(structs, Edges(order), p, k - 1, t);
        SettledComplete(structs, order, st, k - 1, p, t);
        RoundPassesOn(st, order, |order|);
        var i :| 0 <= i < |order| && order[i] == (n, p);
      }
    }
  }

  lemma {:induction false} RoundsGrow(structs: Structs, order: seq<Edge>, r: nat)
    requires ValidOrder(structs, order)
    ensures forall m | m in structs :: structs[m] <= Rounds(structs, order, r)[m]
  {
    if r > 0 {
      RoundsGrow(structs, order, r - 1);
      RoundPassesOn(Rounds(structs, order, r - 1), order, |order|);
    }
  }

  /** `st` is the least fixpoint: exactly the transitive closure. */
  ghost predicate IsClosure(structs: Structs, edges: set<Edge>, st: Structs) {
    st.Keys == structs.Keys && forall n, t | n in st :: t in st[n] <==> InClosure(structs, edges, n, t)
  }

  /** No tag of the closure is more than `r` embeddings away. */
  ghost predicate WithinRounds(structs: Structs, edges: set<Edge>, r: nat) {
    forall n, t | n in structs && InClosure(structs, edges, n, t) :: Reach(structs, edges, n, r, t)
  }

  /** Whatever the order: when the loop settles, or nothing is too far away, it reaches the least fixpoint. */
  lemma ReachesFixpoint(structs: Structs, order: seq<Edge>, st: Structs)
    requires ValidOrder(structs, order) && st == Rounds(structs, order, MAX_ROUNDS)
    requires RoundTo(st, order, |order|) == st || WithinRounds(structs, Edges(order), MAX_ROUNDS)
    ensures IsClosure(structs, Edges(order), st)
  {
    RoundsSound(structs, order, MAX_ROUNDS);
    RoundsGrow(structs, order, MAX_ROUNDS);
    forall n, t | n in st && InClosure(structs, Edges(order), n, t) ensures t in st[n] {
      if RoundTo(st, order, |order|) == st {
        var k: nat :| Reach(structs, Edges(order), n, k, t);
        SettledComplete(structs, order, st, k, n, t);
      } else {
        RoundsComplete(structs, order, MAX_ROUNDS, n, t);
      }
    }
  }

  // ---------------------------------------------------------------- what the limit costs

  /** The state after `r` whole rounds and the first `j` edges of the next one. */
  function After(structs: Structs, order: seq<Edge>, r: nat, j: nat): (st: Structs)
    requires ValidOrder(structs, order) && j <= |order|
    ensures st.Keys == structs.Keys
  {
    RoundTo(Rounds(structs, order, r), order, j)
  }

  /**
   The embeddings at the positions `ks` of the order, one after the other, carry tag `t` from a struct
   that declares it to `n`.
   */
  ghost predicate Path(structs: Structs, order: seq<Edge>, ks: seq<nat>, n: string, t: string) {
    if ks == [] then n in structs && t in structs[n]
    else
      var k := ks[|ks| - 1];
      k < |order| && order[k].0 == n && Path(structs, order, ks[..|ks| - 1], order[k].1, t)
  }

  /** The rounds a path takes: a new one begins wherever the next position does not lie behind the last. */
  function RoundsOf(ks: seq<nat>): nat {
    if |ks| <= 1 then |ks|
    else RoundsOf(ks[..|ks| - 1]) + if ks[|ks| - 2] < ks[|ks| - 1] then 0 else 1
  }

  /** The path is through after `r` whole rounds and `j` more edges. */
  predicate Fits(ks: seq<nat>, r: nat, j: nat) {
    RoundsOf(ks) <= r || (RoundsOf(ks) == r + 1 && ks[|ks| - 1] < j)
  }

  /** Tag `t` has a way to `n` that takes at most `r` rounds. */
  ghost predicate Arrives(structs: Structs, order: seq<Edge>, r: nat, n: string, t: string) {
    exists ks :: Path(structs, order, ks, n, t) && RoundsOf(ks) <= r
  }

  lemma {:induction false} EdgesKeep(structs: Structs, order: seq<Edge>, r: nat, j: nat, j': nat, n: string)
    requires ValidOrder(structs, order) && j <= j' <= |order| && n in structs
    ensures After(structs, order, r, j)[n] <= After(structs, order, r, j')[n]
    decreases j'
  {
    if j < j' { EdgesKeep(structs, order, r, j, j' - 1, n); }
  }

  /** Later states hold every tag of earlier ones. */
  lemma {:induction false} LaterKeeps(structs: Structs, order: seq<Edge>, r: nat, j: nat, r': nat, j': nat, n: string)
    requires ValidOrder(structs, order) && j <= |order| && j' <= |order| && n in structs
    requires r < r' || (r == r' && j <= j')
    ensures After(structs, order, r, j)[n] <= After(structs, order, r', j')[n]
    decreases r'
  {
    if r == r' {
      EdgesKeep(structs, order, r, j, j', n);
    } else {
      LaterKeeps(structs, order, r, j, r' - 1, |order|, n);
      EdgesKeep(structs, order, r', 0, j', n);
    }
  }

  /** One edge more passes on what its source holds by then, and brings nothing else. */
  lemma OneEdge(structs: Structs, order: seq<Edge>, r: nat, k: nat, n: string, t: string)
    requires ValidOrder(structs, order) && k < |order| && n in structs
    ensures t in After(structs, order, r, k + 1)[n] <==>
      || t in After(structs, order, r, k)[n]
      || (order[k].0 == n && order[k].1 in structs && t in After(structs, order, r, k)[order[k].1])
  {
  }

  /** The rounds of a path, from those of the path without its last embedding. */
  lemma RoundsOfMore(ks: seq<nat>, k: nat)
    ensures RoundsOf(ks + [k]) == RoundsOf(ks) + if ks != [] && ks[|ks| - 1] < k then 0 else 1
  {
    assert (ks + [k])[..|ks|] == ks;
  }

  /** A new round begins unless the path's last embedding lies behind the one before. */
  lemma RoundsOfLast(ks: seq<nat>)
    requires ks != []
    ensures var init, k := ks[..|ks| - 1], ks[|ks| - 1];
      RoundsOf(ks) == RoundsOf(init) + if init != [] && init[|init| - 1] < k then 0 else 1
  {
  }

  /** A path delivers its tag with its last embedding. */
  lemma {:induction false} PathDelivers(structs: Structs, order: seq<Edge>, ks: seq<nat>, n: string, t: string)
    requires ValidOrder(structs, order) && Path(structs, order, ks, n, t)
    ensures n in structs
    ensures ks == [] ==> t in structs[n]
    ensures ks != [] ==> RoundsOf(ks) > 0 && ks[|ks| - 1] < |order|
    ensures ks != [] ==> t in After(structs, order, RoundsOf(ks) - 1, ks[|ks| - 1] + 1)[n]
    decreases |ks|
  {
    if ks != [] {
      var init, k := ks[..|ks| - 1], ks[|ks| - 1];
      var p := order[k].1;
      PathDelivers(structs, order, init, p, t);
      RoundsOfLast(ks);
      var r := RoundsOf(ks) - 1;
      if init == [] {
        LaterKeeps(structs, order, 0, 0, r, k, p);
      } else {
        LaterKeeps(structs, order, RoundsOf(init) - 1, init[|init| - 1] + 1, r, k, p);
      }
      OneEdge(structs, order, r, k, n, t);
    }
  }

  /** Some path is through by then. */
  ghost predicate OnPath(structs: Structs, order: seq<Edge>, r: nat, j: nat, n: string, t: string) {
    exists ks :: Path(structs, order, ks, n, t) && Fits(ks, r, j)
  }

  /** What is on a path before edge `k` is due can wait, or take that edge. */
  lemma PathGoesOn(structs: Structs, order: seq<Edge>, r: nat, k: nat, n: string, t: string)
    requires k < |order| && OnPath(structs, order, r, k, n, t)
    ensures OnPath(structs, order, r, k + 1, n, t)
    ensures n == order[k].1 ==> OnPath(structs, order, r, k + 1, order[k].0, t)
  {
    var ks :| Path(structs, order, ks, n, t) && Fits(ks, r, k);
    assert Fits(ks, r, k + 1);
    if n == order[k].1 {
      var more := ks + [k];
      assert more[..|ks|] == ks;
      RoundsOfMore(ks, k);
      assert Path(structs, order, more, order[k].0, t) && Fits(more, r, k + 1);
    }
  }

  lemma RoundEnds(structs: Structs, order: seq<Edge>, r: nat, n: string, t: string)
    requires OnPath(structs, order, r, |order|, n, t)
    ensures OnPath(structs, order, r + 1, 0, n, t)
  {
    var ks :| Path(structs, order, ks, n, t) && Fits(ks, r, |order|);
    assert Fits(ks, r + 1, 0);
  }

  /** Where a tag was before the last edge. */
  lemma LastEdge(structs: Structs, order: seq<Edge>, r: nat, j: nat, n: string, t: string) returns (from: string)
    requires ValidOrder(structs, order) && 0 < j <= |order| && n in structs && t in After(structs, order, r, j)[n]
    ensures from in structs && t in After(structs, order, r, j - 1)[from]
    ensures from == n || (from == order[j - 1].1 && n == order[j - 1].0)
  {
    OneEdge(structs, order, r, j - 1, n, t);
    from := if t in After(structs, order, r, j - 1)[n] then n else order[j - 1].1;
  }

  /** Every tag that has arrived came on a path. */
  lemma {:induction false} ArrivedOnPath(structs: Structs, order: seq<Edge>, r: nat, j: nat, n: string, t: string)
    requires ValidOrder(structs, order) && j <= |order| && n in structs && t in After(structs, order, r, j)[n]
    ensures OnPath(structs, order, r, j, n, t)
    decreases r, j
  {
    if j == 0 && r == 0 {
      assert Path(structs, order, [], n, t) && Fits([], 0, 0);
    } else if j == 0 {
      ArrivedOnPath(structs, order, r - 1, |order|, n, t);
      RoundEnds(structs, order, r - 1, n, t);
    } else {
      var from := LastEdge(structs, order, r, j, n, t);
      ArrivedOnPath(structs, order, r, j - 1, from, t);
      PathGoesOn(structs, order, r, j - 1, from, t);
    }
  }

  lemma WholeRounds(structs: Structs, order: seq<Edge>, r: nat)
    requires ValidOrder(structs, order)
    ensures After(structs, order, r, 0) == Rounds(structs, order, r)
  {
  }

  lemma PathInTime(structs: Structs, order: seq<Edge>, ks: seq<nat>, r: nat, n: string, t: string)
    requires ValidOrder(structs, order) && Path(structs, order, ks, n, t) && RoundsOf(ks) <= r
    ensures n in structs && t in After(structs, order, r, 0)[n]
  {
    PathDelivers(structs, order, ks, n, t);
    if ks == [] {
      LaterKeeps(structs, order, 0, 0, r, 0, n);
    } else {
      LaterKeeps(structs, order, RoundsOf(ks) - 1, ks[|ks| - 1] + 1, r, 0, n);
    }
  }

  /** Whatever the order: a tag is there after `r` rounds exactly when it has a way of at most `r` rounds. */
  lemma RoundsAreExact(structs: Structs, order: seq<Edge>, r: nat, n: string, t: string)
    requires ValidOrder(structs, order) && n in structs
    ensures t in Rounds(structs, order, r)[n] <==> Arrives(structs, order, r, n, t)
  {
    WholeRounds(structs, order, r);
    if t in Rounds(structs, order, r)[n] {
      ArrivedOnPath(structs, order, r, 0, n, t);
      var ks :| Path(structs, order, ks, n, t) && Fits(ks, r, 0);
    }
    if ks :| Path(structs, order, ks, n, t) && RoundsOf(ks) <= r {
      PathInTime(structs, order, ks, r, n, t);
    }
  }

  /**
   Whatever the order: the loop ends in the transitive closure if and only if every tag of the closure
   has a way that takes at most eight rounds.
   */
  lemma LimitIsExact(structs: Structs, order: seq<Edge>)
    requires ValidOrder(structs, order)
    ensures IsClosure(structs, Edges(order), Rounds(structs, order, MAX_ROUNDS)) <==>
            forall n, t | n in structs && InClosure(structs, Edges(order), n, t) ::
              Arrives(structs, order, MAX_ROUNDS, n, t)
  {
    var st := Rounds(structs, order, MAX_ROUNDS);
    RoundsSound(structs, order, MAX_ROUNDS);
    forall n, t | n in structs ensures t in st[n] <==> Arrives(structs, order, MAX_ROUNDS, n, t) {
      RoundsAreExact(structs, order, MAX_ROUNDS, n, t);
    }
  }

  // ---------------------------------------------------------------- the order that helps least

  /** No struct is read after it was extended in the same round. */
  ghost predicate ReadsFirst(order: seq<Edge>) {
    forall i, j | 0 <= i < j < |order| :: order[i].0 != order[j].1
  }

  /** In such an order every embedding of a path takes a round of its own. */
  lemma {:induction false} EveryEdgeItsRound(structs: Structs, order: seq<Edge>, ks: seq<nat>, n: string, t: string)
    requires ReadsFirst(order) && Path(structs, order, ks, n, t)
    ensures RoundsOf(ks) == |ks| && Reach(structs, Edges(order), n, |ks|, t)
    decreases |ks|
  {
    if ks != [] {
      var m := |ks| - 1;
      EveryEdgeItsRound(structs, order, ks[..m], order[ks[m]].1, t);
      assert order[ks[m]] in Edges(order);
    }
  }

  lemma {:induction false} ReachMore(structs: Structs, edges: set<Edge>, n: string, k: nat, k': nat, t: string)
    requires k <= k' && Reach(structs, edges, n, k, t)
    ensures Reach(structs, edges, n, k', t)
    decreases k'
  {
    if k < k' { ReachMore(structs, edges, n, k, k' - 1, t); }
  }

  /** In such an order a round carries every tag exactly one embedding further. */
  lemma RoundsExact(structs: Structs, order: seq<Edge>, r: nat, n: string, t: string)
    requires ValidOrder(structs, order) && ReadsFirst(order) && n in structs
    ensures t in Rounds(structs, order, r)[n] <==> Reach(structs, Edges(order), n, r, t)
  {
    if Reach(structs, Edges(order), n, r, t) {
      RoundsComplete(structs, order, r, n, t);
    }
    if t in Rounds(structs, order, r)[n] {
      RoundsAreExact(structs, order, r, n, t);
      var ks :| Path(structs, order, ks, n, t) && RoundsOf(ks) <= r;
      EveryEdgeItsRound(structs, order, ks, n, t);
      ReachMore(structs, Edges(order), n, |ks|, r, t);
    }
  }

  /** For these orders the round limit is felt exactly when some tag is more than eight embeddings away. */
  lemma LimitIsFelt(structs: Structs, order: seq<Edge>)
    requires ValidOrder(structs, order) && ReadsFirst(order)
    ensures IsClosure(structs, Edges(order), Rounds(structs, order, MAX_ROUNDS)) <==>
            WithinRounds(structs, Edges(order), MAX_ROUNDS)
  {
    LimitIsExact(structs, order);
    forall n, t | n in structs
      ensures Arrives(structs, order, MAX_ROUNDS, n, t) <==> Reach(structs, Edges(order), n, MAX_ROUNDS, t)
    {
      RoundsAreExact(structs, order, MAX_ROUNDS, n, t);
      RoundsExact(structs, order, MAX_ROUNDS, n, t);
    }
  }

  // ---------------------------------------------------------------- a chain that is too long

  /** The name of the struct `i` embeddings below the outermost one. */
  function Name(i: nat): (s: string)
    ensures |s| == i
  {
    if i == 0 then "" else Name(i - 1) + "E"
  }

  /** `m` embeddings, each struct embedding the next, in outer-first order. */
  function OuterFirst(m: nat): (order: seq<Edge>)
    ensures |order| == m
  {
    if m == 0 then [] else OuterFirst(m - 1) + [(Name(m - 1), Name(m))]
  }

  lemma {:induction false} OuterFirstAt(m: nat, i: nat)
    requires i < m
    ensures OuterFirst(m)[i] == (Name(i), Name(i + 1))
  {
    if i < m - 1 { OuterFirstAt(m - 1, i); }
  }

  /** The first `m` structs declare nothing. */
  function Outer(m: nat): (st: Structs)
    ensures forall n :: n in st ==> |n| < m && st[n] == {}
    ensures forall i | 0 <= i < m :: Name(i) in st
  {
    if m == 0 then map[] else Outer(m - 1)[Name(m - 1) := {}]
  }

  /** Only the innermost struct declares a tag. */
  function Nested(m: nat): (st: Structs)
    ensures forall n :: n in st ==> |n| <= m && st[n] == if n == Name(m) then {"id"} else {}
    ensures forall i | 0 <= i <= m :: Name(i) in st
  {
    Outer(m)[Name(m) := {"id"}]
  }

  lemma NextStruct(m: nat, i: nat, p: string)
    requires (Name(i), p) in Edges(OuterFirst(m))
    ensures i < m && p == Name(i + 1)
  {
    var x :| 0 <= x < m && OuterFirst(m)[x] == (Name(i), p);
    OuterFirstAt(m, x);
    assert |Name(x)| == x && |Name(i)| == i;
  }

  lemma Innermost(m: nat, i: nat)
    requires Name(i) in Nested(m) && "id" in Nested(m)[Name(i)]
    ensures i == m
  {
    assert Name(i) == Name(m);
    assert |Name(i)| == i && |Name(m)| == m;
  }

  lemma {:induction false} NestedFar(structs: Structs, edges: set<Edge>, m: nat, i: nat, k: nat)
    requires structs == Nested(m) && edges == Edges(OuterFirst(m)) && Reach(structs, edges, Name(i), k, "id")
    ensures i + k >= m
    decreases k
  {
    if k == 0 {
      Innermost(m, i);
    } else if Reach(structs, edges, Name(i), k - 1, "id") {
      NestedFar(structs, edges, m, i, k - 1);
    } else {
      var p :| (Name(i), p) in edges && Reach(structs, edges, p, k - 1, "id");
      NextStruct(m, i, p);
      NestedFar(structs, edges, m, i + 1, k - 1);
    }
  }

  lemma {:induction false} NestedReached(m: nat, i: nat)
    requires i <= m
    ensures Reach(Nested(m), Edges(OuterFirst(m)), Name(i), m - i, "id")
    decreases m - i
  {
    if i < m {
      NestedReached(m, i + 1);
      OuterFirstAt(m, i);
      assert OuterFirst(m)[i] in Edges(OuterFirst(m));
    }
  }

  lemma OuterFirstReadsFirst(m: nat)
    ensures ReadsFirst(OuterFirst(m)) && ValidOrder(Nested(m), OuterFirst(m)) && Name(0) in Nested(m)
  {
    var order := OuterFirst(m);
    forall i, j | 0 <= i < j < |order| ensures order[i].0 != order[j].1 {
      OuterFirstAt(m, i);
      OuterFirstAt(m, j);
      assert |Name(i)| == i && |Name(j + 1)| == j + 1;
    }
  }

  /** In outer-first order the outermost of `m` nested structs has its tag after `r` rounds only if `m <= r`. */
  lemma NestedRounds(structs: Structs, order: seq<Edge>, m: nat, r: nat)
    requires structs == Nested(m) && order == OuterFirst(m)
    ensures ValidOrder(structs, order) && Name(0) in structs
    ensures InClosure(structs, Edges(order), Name(0), "id")
    ensures "id" in Rounds(structs, order, r)[Name(0)] ==> m <= r
  {
    OuterFirstReadsFirst(m);
    NestedReached(m, 0);
    RoundsExact(structs, order, r, Name(0), "id");
    if Reach(structs, Edges(order), Name(0), r, "id") {
      NestedFar(structs, Edges(order), m, 0, r);
    }
  }

  /** Nine nested embeddings, outermost first: the outermost struct never gets the tag it serialises. */
  lemma NineIsTooMany() returns (structs: Structs, order: seq<Edge>)
    ensures |order| == 9 && ValidOrder(structs, order)
    ensures !IsClosure(structs, Edges(order), Rounds(structs, order, MAX_ROUNDS))
  {
    structs, order := Nested(9), OuterFirst(9);
    NestedRounds(structs, order, 9, MAX_ROUNDS);
  }
}
