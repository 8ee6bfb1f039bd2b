/**
 Route-group prefixes, resolved three ways: the bounded fixpoint of `routes_in_body` and the memoised
 recursion `resolve_group_vars` of scripts/check_openapi_coverage.py, and the chain walk `resolve` of
 scripts/check_routes.py.
 */
module GroupPrefixes {
  import PyText

  /** One `variable := parent.Group("prefix")`. */
  datatype Assign = Assign(name: string, parent: string, prefix: string)

  // ---------------------------------------------------------------- the bounded fixpoint

  /** A derivation of `v`: the assignments from `v` up to a mounted variable. */
  ghost predicate Derives(pending: seq<Assign>, mounts: map<string, string>, v: string, path: seq<Assign>)
    decreases |path|
  {
    if path == [] then v in mounts
    else path[0] in pending && path[0].name == v && Derives(pending, mounts, path[0].parent, path[1..])
  }

  /** What the derivation yields: the mount prefix, then the prefixes on the way down. */
  ghost function Yield(mounts: map<string, string>, v: string, path: seq<Assign>): string
    decreases |path|
  {
    if path == [] then (if v in mounts then mounts[v] else "")
    else Yield(mounts, path[0].parent, path[1..]) + path[0].prefix
  }

  ghost predicate Reachable(pending: seq<Assign>, mounts: map<string, string>, v: string) {
    exists path :: Derives(pending, mounts, v, path)
  }

  /** `m` maps `v` to what one of its derivations yields. */
  ghost predicate Yielded(pending: seq<Assign>, mounts: map<string, string>, v: string, value: string) {
    exists path :: Derives(pending, mounts, v, path) && value == Yield(mounts, v, path)
  }

  /** Every entry is a mount or a derived variable with the value its derivation yields. */
  ghost predicate Justified(pending: seq<Assign>, mounts: map<string, string>, m: map<string, string>) {
    && (forall v | v in mounts :: v in m && m[v] == mounts[v])
    && (forall v | v in m :: Yielded(pending, mounts, v, m[v]))
    && m.Keys <= mounts.Keys + Names(pending)
  }

  /** Nothing can be added any more. */
  ghost predicate Closed(pending: seq<Assign>, m: map<string, string>) {
    forall a | a in pending && a.parent in m :: a.name in m
  }

  /** The first `k` assignments can add nothing. */
  ghost predicate ClosedTo(pending: seq<Assign>, m: map<string, string>, k: nat)
    requires k <= |pending|
  {
    k == 0 || (ClosedTo(pending, m, k - 1) && (pending[k - 1].parent in m ==> pending[k - 1].name in m))
  }

  lemma {:induction false} ClosedToAll(pending: seq<Assign>, m: map<string, string>, k: nat)
    requires k <= |pending|
    ensures ClosedTo(pending, m, k) <==> Closed(pending[..k], m)
  {
    if k > 0 {
      ClosedToAll(pending, m, k - 1);
      assert pending[..k] == pending[..k - 1] + [pending[k - 1]];
    }
  }

  ghost function Names(pending: seq<Assign>): set<string> {
    set a | a in pending :: a.name
  }

  lemma {:induction false} NamesCard(pending: seq<Assign>)
    ensures |Names(pending)| <= |pending|
  {
    if pending != [] {
      NamesCard(pending[1..]);
      assert pending == [pending[0]] + pending[1..];
      assert Names(pending) == {pending[0].name} + Names(pending[1..]);
    }
  }

  /** One more justified entry. */
  lemma JustifyMore(pending: seq<Assign>, mounts: map<string, string>, m: map<string, string>, a: Assign)
    requires Justified(pending, mounts, m) && a in pending && a.parent in m && a.name !in m
    ensures Justified(pending, mounts, m[a.name := m[a.parent] + a.prefix])
  {
    var m' := m[a.name := m[a.parent] + a.prefix];
    forall v | v in m'
      ensures Yielded(pending, mounts, v, m'[v])
    {
      if v == a.name {
        var path :| Derives(pending, mounts, a.parent, path) && m[a.parent] == Yield(mounts, a.parent, path);
        assert ([a] + path)[1..] == path;
        assert Derives(pending, mounts, v, [a] + path) && m'[v] == Yield(mounts, v, [a] + path);
      }
    }
  }

  /** A closed map holds every derivable variable. */
  lemma {:induction false} ClosedHolds(pending: seq<Assign>, mounts: map<string, string>, m: map<string, string>,
                                       v: string, path: seq<Assign>)
    requires Closed(pending, m) && Derives(pending, mounts, v, path) && forall r | r in mounts :: r in m
    ensures v in m
    decreases |path|
  {
    if path != [] { ClosedHolds(pending, mounts, m, path[0].parent, path[1..]); }
  }

  /** The effect of one assignment: add its variable if the parent is known and the variable is not. */
  function Apply(m: map<string, string>, a: Assign): map<string, string> {
    if a.parent in m && a.name !in m then m[a.name := m[a.parent] + a.prefix] else m
  }

  function PassTo(pending: seq<Assign>, m: map<string, string>, k: nat): map<string, string>
    requires k <= |pending|
  {
    if k == 0 then m else Apply(PassTo(pending, m, k - 1), pending[k - 1])
  }

  lemma {:induction false} PassJustified(pending: seq<Assign>, mounts: map<string, string>, m: map<string, string>,
                                         k: nat)
    requires k <= |pending| && Justified(pending, mounts, m)
    ensures Justified(pending, mounts, PassTo(pending, m, k))
  {
    if k > 0 {
      PassJustified(pending, mounts, m, k - 1);
      var m', a := PassTo(pending, m, k - 1), pending[k - 1];
      if a.parent in m' && a.name !in m' { JustifyMore(pending, mounts, m', a); }
    }
  }

  /** A pass that adds nothing has met only assignments that can add nothing; any other one grows the map. */
  lemma {:induction false} PassGrows(pending: seq<Assign>, m: map<string, string>, k: nat)
    requires k <= |pending|
    ensures |PassTo(pending, m, k)| >= |m|
    ensures |PassTo(pending, m, k)| == |m| ==> PassTo(pending, m, k) == m && ClosedTo(pending, m, k)
    ensures ClosedTo(pending, m, k) ==> PassTo(pending, m, k) == m
  {
    if k > 0 { PassGrows(pending, m, k - 1); }
  }

  /** One pass over the assignments. It adds something, or nothing can be added. */
  method Pass(pending: seq<Assign>, mounts: map<string, string>, m: map<string, string>)
    returns (m': map<string, string>)
    requires Justified(pending, mounts, m)
    ensures Justified(pending, mounts, m')
    ensures |m'| > |m| || (m' == m && Closed(pending, m))
    ensures Closed(pending, m) ==> m' == m
  {
    m' := m;
    for k := 0 to |pending|
      invariant m' == PassTo(pending, m, k)
    {
      var a := pending[k];
      if a.parent in m' && a.name !in m' {
        m' := m'[a.name := m'[a.parent] + a.prefix];
      }
    }
    PassJustified(pending, mounts, m, |pending|);
    PassGrows(pending, m, |pending|);
    ClosedToAll(pending, m, |pending|);
    assert pending[..|pending|] == pending;
  }

  lemma MountsJustified(pending: seq<Assign>, mounts: map<string, string>)
    ensures Justified(pending, mounts, mounts)
  {
    forall v | v in mounts ensures Yielded(pending, mounts, v, mounts[v]) {
      assert Derives(pending, mounts, v, []) && mounts[v] == Yield(mounts, v, []);
    }
  }

  /** A justified map cannot have grown by more than one entry per assignment. */
  lemma Bounded(pending: seq<Assign>, mounts: map<string, string>, m: map<string, string>)
    requires Justified(pending, mounts, m)
    ensures |m| <= |mounts| + |pending|
  {
    NamesCard(pending);
    KeysBound(m.Keys, mounts.Keys, Names(pending));
  }

  lemma ClosedIsReachable(pending: seq<Assign>, mounts: map<string, string>, m: map<string, string>)
    requires Justified(pending, mounts, m) && Closed(pending, m)
    ensures forall v :: v in m <==> Reachable(pending, mounts, v)
  {
    forall v | Reachable(pending, mounts, v) ensures v in m {
      var path :| Derives(pending, mounts, v, path);
      ClosedHolds(pending, mounts, m, v, path);
    }
    forall v | v in m ensures Reachable(pending, mounts, v) {
      assert Yielded(pending, mounts, v, m[v]);
    }
  }

  /** The local groups of a function body, for the given mount prefixes of its parameters. */
  method LocalGroups(pending: seq<Assign>, mounts: map<string, string>) returns (prefixes: map<string, string>)
    ensures Justified(pending, mounts, prefixes)
    ensures forall v :: v in prefixes <==> Reachable(pending, mounts, v)
  {
    prefixes := mounts;
    MountsJustified(pending, mounts);
    for pass := 0 to |pending| + 1
      invariant Justified(pending, mounts, prefixes)
      invariant |prefixes| >= |mounts| + pass || Closed(pending, prefixes)
    {
      prefixes := Pass(pending, mounts, prefixes);
    }
    Bounded(pending, mounts, prefixes);
    ClosedIsReachable(pending, mounts, prefixes);
  }

  lemma KeysBound(keys: set<string>, a: set<string>, b: set<string>)
    requires keys <= a + b
    ensures |keys| <= |a| + |b|
  {
    assert |a + b| <= |a| + |b| by {
      assert a + b == a + (b - a) && (b - a) + (b * a) == b;
    }
    assert a + b == keys + ((a + b) - keys);
  }

  // ---------------------------------------------------------------- one assignment per variable

  /** Each variable is assigned once, and no mounted variable is assigned. */
  ghost predicate Unique(pending: seq<Assign>, mounts: map<string, string>) {
    && (forall a, b | a in pending && b in pending && a.name == b.name :: a == b)
    && (forall a | a in pending :: a.name !in mounts)
  }

  lemma {:induction false} OneDerivation(pending: seq<Assign>, mounts: map<string, string>, v: string,
                                         p: seq<Assign>, q: seq<Assign>)
    requires Unique(pending, mounts)
    requires Derives(pending, mounts, v, p) && Derives(pending, mounts, v, q)
    ensures p == q
    decreases |p|
  {
    if p != [] && q != [] {
      OneDerivation(pending, mounts, p[0].parent, p[1..], q[1..]);
      assert p == [p[0]] + p[1..] && q == [q[0]] + q[1..];
    }
  }

  lemma {:induction false} SameDerivation(pending: seq<Assign>, other: seq<Assign>, mounts: map<string, string>,
                                          v: string, p: seq<Assign>)
    requires forall a :: a in pending <==> a in other
    ensures Derives(pending, mounts, v, p) <==> Derives(other, mounts, v, p)
    decreases |p|
  {
    if p != [] { SameDerivation(pending, other, mounts, p[0].parent, p[1..]); }
  }

  lemma SameReach(pending: seq<Assign>, other: seq<Assign>, mounts: map<string, string>, v: string)
    requires forall a :: a in pending <==> a in other
    ensures Reachable(pending, mounts, v) <==> Reachable(other, mounts, v)
  {
    forall p ensures Derives(pending, mounts, v, p) <==> Derives(other, mounts, v, p) {
      SameDerivation(pending, other, mounts, v, p);
    }
  }

  /** With each variable assigned once, the result does not depend on the order of the assignments. */
  lemma OrderIrrelevant(pending: seq<Assign>, other: seq<Assign>, mounts: map<string, string>,
                        m: map<string, string>, m': map<string, string>)
    requires Unique(pending, mounts) && forall a :: a in pending <==> a in other
    requires Justified(pending, mounts, m) && forall v :: v in m <==> Reachable(pending, mounts, v)
    requires Justified(other, mounts, m') && forall v :: v in m' <==> Reachable(other, mounts, v)
    ensures m == m'
  {
    forall v
      ensures v in m <==> v in m'
      ensures v in m ==> v in m' && m[v] == m'[v]
    {
      SameReach(pending, other, mounts, v);
      if v in m {
        assert Yielded(pending, mounts, v, m[v]) && Yielded(other, mounts, v, m'[v]);
        var p :| Derives(pending, mounts, v, p) && m[v] == Yield(mounts, v, p);
        var q :| Derives(other, mounts, v, q) && m'[v] == Yield(mounts, v, q);
        SameDerivation(pending, other, mounts, v, q);
        OneDerivation(pending, mounts, v, p, q);
      }
    }
  }

  // ---------------------------------------------------------------- the chain walk

  /** Variable to parent and prefix, as the assignments of a file leave it. */
  type Groups = map<string, (string, string)>

  /** `v` leads to a variable without an assignment in at most `n` steps. */
  ghost predicate Chain(groups: Groups, v: string, n: nat)
    decreases n
  {
    v !in groups || (n > 0 && Chain(groups, groups[v].0, n - 1))
  }

  ghost predicate Grounded(groups: Groups, v: string) {
    exists n :: Chain(groups, v, n)
  }

  /** The concatenated prefixes of a grounded variable's chain. */
  ghost function Prefix(groups: Groups, v: string, n: nat): string
    requires Chain(groups, v, n)
    decreases n
  {
    if v in groups then Prefix(groups, groups[v].0, n - 1) + groups[v].1 else ""
  }

  /** `s` is one of the variables of the chain. */
  ghost predicate OnChain(groups: Groups, v: string, n: nat, s: string)
    requires Chain(groups, v, n)
    decreases n
  {
    s == v || (v in groups && OnChain(groups, groups[v].0, n - 1, s))
  }

  ghost function Steps(groups: Groups, v: string, n: nat): nat
    requires Chain(groups, v, n)
    decreases n
  {
    if v in groups then 1 + Steps(groups, groups[v].0, n - 1) else 0
  }

  lemma {:induction false} BoundIrrelevant(groups: Groups, v: string, n: nat, n': nat)
    requires Chain(groups, v, n) && Chain(groups, v, n')
    ensures Prefix(groups, v, n) == Prefix(groups, v, n') && Steps(groups, v, n) == Steps(groups, v, n')
    ensures forall s :: OnChain(groups, v, n, s) <==> OnChain(groups, v, n', s)
    decreases n
  {
    if v in groups { BoundIrrelevant(groups, groups[v].0, n - 1, n' - 1); }
  }

  /** Along a chain the number of remaining steps falls, so no variable recurs. */
  lemma {:induction false} StepsFall(groups: Groups, v: string, n: nat, s: string)
    requires Chain(groups, v, n) && OnChain(groups, v, n, s)
    ensures Chain(groups, s, n) && Steps(groups, s, n) <= Steps(groups, v, n)
    decreases n
  {
    if s != v {
      StepsFall(groups, groups[v].0, n - 1, s);
      Longer(groups, s, n - 1);
      BoundIrrelevant(groups, s, n - 1, n);
    }
  }

  lemma {:induction false} Longer(groups: Groups, v: string, n: nat)
    requires Chain(groups, v, n)
    ensures Chain(groups, v, n + 1)
    decreases n
  {
    if v in groups { Longer(groups, groups[v].0, n - 1); }
  }

  lemma NoReturn(groups: Groups, v: string, n: nat)
    requires v in groups && Chain(groups, v, n)
    ensures !OnChain(groups, groups[v].0, n - 1, v)
  {
    if OnChain(groups, groups[v].0, n - 1, v) {
      StepsFall(groups, groups[v].0, n - 1, v);
      BoundIrrelevant(groups, v, n - 1, n);
    }
  }

  /** The walk from `v` upwards, stopping at a variable seen before. */
  function Walk(groups: Groups, v: string, seen: set<string>): string
    decreases groups.Keys - seen
  {
    if v in groups && v !in seen then Walk(groups, groups[v].0, seen + {v}) + groups[v].1 else ""
  }

  /** `resolve` of check_routes.py; it ends on cyclic assignments too. */
  method ChainWalk(groups: Groups, start: string) returns (prefix: string)
    ensures prefix == Walk(groups, start, {})
  {
    prefix := "";
    var seen: set<string>, v := {}, start;
    while v in groups && v !in seen
      invariant Walk(groups, start, {}) == Walk(groups, v, seen) + prefix
      decreases groups.Keys - seen
    {
      seen := seen + {v};
      prefix := groups[v].1 + prefix;
      v := groups[v].0;
    }
  }

  lemma {:induction false} WalkIsPrefix(groups: Groups, v: string, n: nat, seen: set<string>)
    requires Chain(groups, v, n) && forall s | s in seen :: !OnChain(groups, v, n, s)
    ensures Walk(groups, v, seen) == Prefix(groups, v, n)
    decreases n
  {
    if v in groups {
      NoReturn(groups, v, n);
      WalkIsPrefix(groups, groups[v].0, n - 1, seen + {v});
    }
  }

  /** The prefixes one behind the other, the first one in front. */
  function Concat(segs: seq<string>): string {
    if segs == [] then "" else segs[0] + Concat(segs[1..])
  }

  lemma {:induction false} ConcatMore(segs: seq<string>, last: string)
    ensures Concat(segs + [last]) == Concat(segs) + last
  {
    if segs == [] {
      assert [last][1..] == [] && last + "" == last && "" + last == last;
    } else {
      ConcatMore(segs[1..], last);
      assert (segs + [last])[1..] == segs[1..] + [last];
      PyText.Regroup(segs[0], Concat(segs[1..]), last);
    }
  }

  /** `names[0]` has no assignment, and each of the others is the group `segs[k - 1]` of the one in front of it. */
  ghost predicate Line(groups: Groups, names: seq<string>, segs: seq<string>) {
    && |names| == |segs| + 1 && names[0] !in groups
    && forall k | 0 < k < |names| :: names[k] in groups && groups[names[k]] == (names[k - 1], segs[k - 1])
  }

  lemma {:induction false} LinePrefix(groups: Groups, names: seq<string>, segs: seq<string>, k: nat)
    requires Line(groups, names, segs) && k < |names|
    ensures Chain(groups, names[k], k) && Prefix(groups, names[k], k) == Concat(segs[..k])
  {
    if k > 0 {
      LinePrefix(groups, names, segs, k - 1);
      ConcatMore(segs[..k - 1], segs[k - 1]);
      assert segs[..k] == segs[..k - 1] + [segs[k - 1]];
    }
  }

  /** Down any line of groups the prefix is the given ones in a row, from the outermost group to the innermost. */
  lemma OutermostFirst(groups: Groups, names: seq<string>, segs: seq<string>)
    requires Line(groups, names, segs)
    ensures Grounded(groups, names[|segs|]) && Walk(groups, names[|segs|], {}) == Concat(segs)
  {
    LinePrefix(groups, names, segs, |segs|);
    WalkIsPrefix(groups, names[|segs|], |segs|, {});
    assert segs[..|segs|] == segs;
  }

  // ---------------------------------------------------------------- the memoised recursion

  /** `resolve_group_vars`: the memo dictionary and the recursion that fills it. */
  class GroupResolver {
    const raw: Groups
    var resolved: map<string, string>

    constructor (raw: Groups)
      ensures this.raw == raw && resolved == map[]
    {
      this.raw, resolved := raw, map[];
    }

    /** Every memoised grounded variable has its chain's prefix. */
    ghost predicate Valid()
      reads this
    {
      && resolved.Keys <= raw.Keys
      && forall v, n: nat | v in resolved && Chain(raw, v, n) :: resolved[v] == Prefix(raw, v, n)
    }

    /** `resolve(var, seen)`. */
    method Resolve(v: string, seen: set<string>) returns (out: string)
      requires Valid()
      requires forall n: nat, s | Chain(raw, v, n) && s in seen :: !OnChain(raw, v, n, s)
      modifies this
      ensures Valid() && old(resolved.Keys) <= resolved.Keys
      ensures forall n: nat | Chain(raw, v, n) :: out == Prefix(raw, v, n)
      ensures v in raw && v !in seen ==> v in resolved
      decreases raw.Keys - seen
    {
      if v in resolved {
        return resolved[v];
      }
      if v !in raw || v in seen {
        return "";
      }
      var (parent, prefix) := raw[v];
      forall n: nat, s | Chain(raw, parent, n) && s in seen + {v}
        ensures !OnChain(raw, parent, n, s)
      {
        assert Chain(raw, v, n + 1);
        NoReturn(raw, v, n + 1);
      }
      out := Resolve(parent, seen + {v});
      out := out + prefix;
      resolved := resolved[v := out];
    }

    /** The loop over all variables: afterwards every grounded variable maps to its chain's prefix. */
    method ResolveAll()
      requires resolved == map[]
      modifies this
      ensures Valid() && resolved.Keys == raw.Keys
    {
      var todo := raw.Keys;
      while todo != {}
        invariant Valid() && todo <= raw.Keys && raw.Keys - todo <= resolved.Keys
        decreases todo
      {
        var v :| v in todo;
        var _ := Resolve(v, {});
        todo := todo - {v};
      }
    }
  }

  // ---------------------------------------------------------------- the three agree

  /**
   The same unique assignments, once as a list and once as a dictionary, with every variable that
   has no assignment mounted at the empty prefix.
   */
  ghost predicate SameGroups(pending: seq<Assign>, raw: Groups, mounts: map<string, string>) {
    && (forall v :: v in raw <==> exists a | a in pending :: a.name == v)
    && (forall a | a in pending :: raw[a.name] == (a.parent, a.prefix))
    && (forall a | a in pending && a.parent !in raw :: a.parent in mounts)
    && (forall r | r in mounts :: r !in raw && mounts[r] == "")
  }

  lemma AssignedIn(pending: seq<Assign>, raw: Groups, mounts: map<string, string>, a: Assign)
    requires SameGroups(pending, raw, mounts) && a in pending
    ensures a.name in raw && raw[a.name] == (a.parent, a.prefix)
  {
  }

  lemma MountedNotIn(pending: seq<Assign>, raw: Groups, mounts: map<string, string>, r: string)
    requires SameGroups(pending, raw, mounts) && r in mounts
    ensures r !in raw && mounts[r] == ""
  {
  }

  /** One more assignment on both sides. */
  lemma ChainMore(raw: Groups, mounts: map<string, string>, v: string, path: seq<Assign>)
    requires path != [] && v in raw && raw[v] == (path[0].parent, path[0].prefix)
    requires Chain(raw, path[0].parent, |path| - 1)
    requires Yield(mounts, path[0].parent, path[1..]) == Prefix(raw, path[0].parent, |path| - 1)
    ensures Chain(raw, v, |path|) && Yield(mounts, v, path) == Prefix(raw, v, |path|)
  {
  }

  lemma {:induction false} DerivationIsChain(pending: seq<Assign>, raw: Groups, mounts: map<string, string>,
                                             v: string, path: seq<Assign>)
    requires SameGroups(pending, raw, mounts) && Derives(pending, mounts, v, path)
    ensures Chain(raw, v, |path|) && Yield(mounts, v, path) == Prefix(raw, v, |path|)
    decreases |path|
  {
    if path == [] {
      MountedNotIn(pending, raw, mounts, v);
    } else {
      DerivationIsChain(pending, raw, mounts, path[0].parent, path[1..]);
      AssignedIn(pending, raw, mounts, path[0]);
      ChainMore(raw, mounts, v, path);
    }
  }

  lemma {:induction false} ChainIsDerivation(pending: seq<Assign>, raw: Groups, mounts: map<string, string>,
                                             v: string, n: nat)
    returns (path: seq<Assign>)
    requires SameGroups(pending, raw, mounts) && Chain(raw, v, n) && (v in raw || v in mounts)
    ensures Derives(pending, mounts, v, path)
    decreases n
  {
    if v !in raw {
      path := [];
    } else {
      var a :| a in pending && a.name == v;
      var rest := ChainIsDerivation(pending, raw, mounts, a.parent, n - 1);
      path := [a] + rest;
      assert path[1..] == rest;
    }
  }

  /**
   The bounded fixpoint, the chain walk and the memoised recursion give the same prefix to every
   variable whose parent chain ends; the fixpoint holds exactly those variables.
   */
  lemma ThreeWaysAgree(pending: seq<Assign>, raw: Groups, mounts: map<string, string>,
                       prefixes: map<string, string>, resolved: map<string, string>, v: string)
    requires SameGroups(pending, raw, mounts) && v in raw
    requires Justified(pending, mounts, prefixes) && forall w :: w in prefixes <==> Reachable(pending, mounts, w)
    requires resolved.Keys == raw.Keys
    requires forall w, n: nat | w in resolved && Chain(raw, w, n) :: resolved[w] == Prefix(raw, w, n)
    ensures v in prefixes <==> Grounded(raw, v)
    ensures Grounded(raw, v) ==> prefixes[v] == Walk(raw, v, {}) == resolved[v]
  {
    if Grounded(raw, v) {
      var n :| Chain(raw, v, n);
      var path := ChainIsDerivation(pending, raw, mounts, v, n);
      WalkIsPrefix(raw, v, n, {});
      assert Yielded(pending, mounts, v, prefixes[v]);
      var q :| Derives(pending, mounts, v, q) && prefixes[v] == Yield(mounts, v, q);
      DerivationIsChain(pending, raw, mounts, v, q);
      BoundIrrelevant(raw, v, n, |q|);
    } else if v in prefixes {
      var path :| Derives(pending, mounts, v, path);
      DerivationIsChain(pending, raw, mounts, v, path);
      assert false;
    }
  }
}
