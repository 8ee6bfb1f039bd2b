/**
 Redaction of logged request URIs: `sensitivePathParam`, `redactPathParams`, `redactQueryString`
 and `redactURI` of backend/cmd/api/middleware.go. `strings.ToLower` is the parameter `lower`: every
 statement holds whatever it maps.
 */
module Redaction {
  import opened PyText

  const SENSITIVE_QUERY_KEYS :=
    {"token", "access_token", "api_key", "apikey", "key", "secret", "password", "code", "state"}
  const SENSITIVE_PATH_PARTS := ["token", "secret", "password", "apikey"]
  const MASK := "***"

  // ---------------------------------------------------------------- which names are sensitive

  /** `strings.ReplaceAll(s, c, "")`. */
  function Remove(s: string, c: char): string {
    if s == "" then "" else if s[0] == c then Remove(s[1..], c) else [s[0]] + Remove(s[1..], c)
  }

  /** `strings.Contains`. */
  predicate Contains(s: string, part: string) {
    part <= s || (s != "" && Contains(s[1..], part))
  }

  predicate ContainsAny(s: string, parts: seq<string>) {
    exists p | p in parts :: Contains(s, p)
  }

  /** The name without its separators. */
  function Squash(s: string): string {
    Remove(Remove(s, '_'), '-')
  }

  /** A parameter name is secret when some sensitive part occurs in it, case, `_` and `-` aside. */
  predicate SecretName(lower: string -> string, name: string) {
    ContainsAny(Squash(lower(name)), SENSITIVE_PATH_PARTS)
  }

  /** From `k` on, `_` and `-` aside, the text goes on with the word. */
  predicate Spells(s: string, word: string, k: nat)
    decreases |s| - k
  {
    || word == ""
    || (k < |s| && if s[k] == '_' || s[k] == '-' then Spells(s, word, k + 1)
                   else s[k] == word[0] && Spells(s, word[1..], k + 1))
  }

  /** One of the four words stands in the text, `_` and `-` aside. */
  ghost predicate NamesSecret(s: string) {
    exists word, k: nat :: word in ["token", "secret", "password", "apikey"] && Spells(s, word, k)
  }

  lemma SquashTurn(s: string, k: nat)
    requires k < |s|
    ensures Squash(s[k..]) == if s[k] == '_' || s[k] == '-' then Squash(s[k + 1..]) else [s[k]] + Squash(s[k + 1..])
  {
    assert s[k..] == [s[k]] + s[k + 1..];
    SquashJoin([s[k]], s[k + 1..]);
    SquashOne(s[k]);
    assert "" + Squash(s[k + 1..]) == Squash(s[k + 1..]);
  }

  lemma SquashOne(c: char)
    ensures Squash([c]) == if c == '_' || c == '-' then "" else [c]
  {
    assert [c][1..] == "" && Remove("", '_') == "" && Remove("", '-') == "";
    assert Remove([c], '_') == if c == '_' then "" else [c] + "";
    assert [c] + "" == [c] && Remove([c], '-') == if c == '-' then "" else [c] + "";
  }

  /** What the name goes on with is what the squashed rest begins with. */
  lemma {:induction false} SpellsPrefix(s: string, word: string, k: nat)
    requires k <= |s|
    ensures Spells(s, word, k) <==> word <= Squash(s[k..])
    decreases |s| - k
  {
    if k == |s| {
      assert s[k..] == "" && Squash("") == "";
    } else {
      SquashTurn(s, k);
      SpellsPrefix(s, word, k + 1);
      if word != "" {
        SpellsPrefix(s, word[1..], k + 1);
        PrefixTurn(word, s[k], Squash(s[k + 1..]));
      }
    }
  }

  lemma PrefixTurn(word: string, c: char, rest: string)
    requires word != ""
    ensures word <= [c] + rest <==> c == word[0] && word[1..] <= rest
  {
    if c == word[0] && word[1..] <= rest {
      assert word == [c] + word[1..];
    }
    if word <= [c] + rest {
      assert ([c] + rest)[..|word|][1..] == rest[..|word| - 1];
    }
  }

  /** The word is spelled somewhere from `k` on. */
  predicate SpelledFrom(s: string, word: string, k: nat)
    decreases |s| - k
  {
    Spells(s, word, k) || (k < |s| && SpelledFrom(s, word, k + 1))
  }

  lemma {:induction false} ContainsSpelled(s: string, word: string, k: nat)
    requires k <= |s|
    ensures Contains(Squash(s[k..]), word) <==> SpelledFrom(s, word, k)
    decreases |s| - k
  {
    SpellsPrefix(s, word, k);
    if k == |s| {
      assert s[k..] == "" && Squash("") == "";
    } else {
      SquashTurn(s, k);
      ContainsSpelled(s, word, k + 1);
      if s[k] != '_' && s[k] != '-' {
        assert Squash(s[k..])[1..] == Squash(s[k + 1..]);
      }
    }
  }

  lemma {:induction false} SpelledSomewhere(s: string, word: string, k: nat) returns (j: nat)
    requires SpelledFrom(s, word, k)
    ensures Spells(s, word, j)
    decreases |s| - k
  {
    j := k;
    if !Spells(s, word, k) { j := SpelledSomewhere(s, word, k + 1); }
  }

  lemma {:induction false} SpelledBehind(s: string, word: string, k: nat, j: nat)
    requires k <= j && word != "" && Spells(s, word, j)
    ensures SpelledFrom(s, word, k)
    decreases j - k
  {
    if k < j { SpelledBehind(s, word, k + 1, j); }
  }

  /** The name of a parameter is secret if and only if one of the four words stands in it, `_` and `-` aside. */
  lemma SecretMeansNamed(lower: string -> string, name: string)
    ensures SecretName(lower, name) <==> NamesSecret(lower(name))
  {
    var s := lower(name);
    assert s[0..] == s;
    if part :| part in SENSITIVE_PATH_PARTS && Contains(Squash(s), part) {
      ContainsSpelled(s, part, 0);
      var k := SpelledSomewhere(s, part, 0);
    }
    if word, k: nat :| word in ["token", "secret", "password", "apikey"] && Spells(s, word, k) {
      SpelledBehind(s, word, 0, k);
      ContainsSpelled(s, word, 0);
      assert word in SENSITIVE_PATH_PARTS && Contains(Squash(s), word);
    }
  }

  lemma {:induction false} RemoveJoin(l: string, r: string, c: char)
    ensures Remove(l + r, c) == Remove(l, c) + Remove(r, c)
  {
    if l == "" {
      assert l + r == r;
    } else {
      assert (l + r)[0] == l[0] && (l + r)[1..] == l[1..] + r;
      RemoveJoin(l[1..], r, c);
    }
  }

  lemma SquashJoin(l: string, r: string)
    ensures Squash(l + r) == Squash(l) + Squash(r)
  {
    RemoveJoin(l, r, '_');
    RemoveJoin(Remove(l, '_'), Remove(r, '_'), '-');
  }

  /** `reset_token`, `reset-token` and `resettoken` are the same name to the gate. */
  lemma SeparatorsIgnored(lower: string -> string, name: string, other: string, l: string, c: char, r: string)
    requires lower(name) == l + [c] + r && lower(other) == l + r && (c == '_' || c == '-')
    ensures SecretName(lower, name) <==> SecretName(lower, other)
  {
    SquashJoin(l + [c], r);
    SquashJoin(l, [c]);
    SquashJoin(l, r);
    assert Remove("_", '_') == "" && Remove("-", '_') == "-" && Remove("-", '-') == "" && Remove("", '-') == "";
    assert [c] == "_" || [c] == "-";
    assert Squash([c]) == "";
    assert Squash(l) + "" == Squash(l);
  }

  method SensitivePathParam(lower: string -> string, name: string) returns (r: bool)
    ensures r <==> SecretName(lower, name)
    ensures r <==> NamesSecret(lower(name))
  {
    SecretMeansNamed(lower, name);
    var n := lower(name);
    n := Remove(n, '_');
    n := Remove(n, '-');
    for i := 0 to |SENSITIVE_PATH_PARTS|
      invariant !ContainsAny(n, SENSITIVE_PATH_PARTS[..i])
    {
      if Contains(n, SENSITIVE_PATH_PARTS[i]) {
        assert SENSITIVE_PATH_PARTS[i] in SENSITIVE_PATH_PARTS;
        return true;
      }
    }
    return false;
  }

  // ---------------------------------------------------------------- the path

  predicate Starts(s: string, c: char) {
    s != "" && s[0] == c
  }

  /** `strings.Split(strings.TrimPrefix(path, "/"), "/")`. */
  function Segments(path: string): (segs: seq<string>)
    ensures |segs| > 0
  {
    Split(if Starts(path, '/') then path[1..] else path, '/')
  }

  /** How many template segments come before the catch-all. */
  function CatchAll(tmpl: seq<string>): (k: nat)
    ensures k <= |tmpl|
    ensures forall i | 0 <= i < k :: !Starts(tmpl[i], '*')
    ensures k < |tmpl| ==> Starts(tmpl[k], '*')
  {
    if tmpl == [] || Starts(tmpl[0], '*') then 0 else 1 + CatchAll(tmpl[1..])
  }

  /** The template declares segment `i` a secret: it is a secret-named parameter before any catch-all. */
  predicate SecretAt(lower: string -> string, tmpl: seq<string>, i: nat) {
    i < CatchAll(tmpl) && Starts(tmpl[i], ':') && SecretName(lower, tmpl[i][1..])
  }

  function MaskSegments(lower: string -> string, tmpl: seq<string>, segs: seq<string>, upTo: nat): (r: seq<string>)
    ensures |r| == |segs|
    ensures forall i | 0 <= i < |segs| :: r[i] == if i < upTo && SecretAt(lower, tmpl, i) then MASK else segs[i]
  {
    seq(|segs|, i requires 0 <= i < |segs| => if i < upTo && SecretAt(lower, tmpl, i) then MASK else segs[i])
  }

  /** The redacted path: secret segments masked, everything else as it was. */
  function MaskPath(lower: string -> string, route: string, path: string): string {
    if Starts(path, '/')
    then "/" + Join(MaskSegments(lower, Segments(route), Segments(path), |Segments(path)|), '/')
    else path
  }

  /** A template without a colon declares nothing. */
  lemma NoColonNoSecret(lower: string -> string, route: string, i: nat)
    requires ':' !in route
    ensures !SecretAt(lower, Segments(route), i)
  {
    var body := if Starts(route, '/') then route[1..] else route;
    SplitFree(body, '/', ':');
    assert i < |Segments(route)| ==> Segments(route)[i] in Segments(route);
  }

  lemma NoColonUnchanged(lower: string -> string, route: string, path: string)
    requires ':' !in route
    ensures MaskPath(lower, route, path) == path
  {
    forall i: nat ensures !SecretAt(lower, Segments(route), i) { NoColonNoSecret(lower, route, i); }
    MaskNothing(lower, Segments(route), Segments(path), |Segments(path)|);
    MaskPathNothing(lower, route, path);
  }

  lemma MaskNothing(lower: string -> string, tmpl: seq<string>, segs: seq<string>, upTo: nat)
    requires forall i | 0 <= i < |segs| && i < upTo :: !SecretAt(lower, tmpl, i)
    ensures MaskSegments(lower, tmpl, segs, upTo) == segs
  {
  }

  lemma MaskPathNothing(lower: string -> string, route: string, path: string)
    requires MaskSegments(lower, Segments(route), Segments(path), |Segments(path)|) == Segments(path)
    ensures MaskPath(lower, route, path) == path
  {
    if Starts(path, '/') { SplitJoin(path[1..], '/'); }
  }

  lemma MaskBeyond(lower: string -> string, tmpl: seq<string>, segs: seq<string>, n: nat)
    requires n >= |segs| || n >= CatchAll(tmpl)
    ensures MaskSegments(lower, tmpl, segs, n) == MaskSegments(lower, tmpl, segs, |segs|)
  {
  }

  lemma MaskNext(lower: string -> string, tmpl: seq<string>, segs: seq<string>, i: nat)
    requires i < |segs|
    ensures MaskSegments(lower, tmpl, segs, i + 1)
         == if SecretAt(lower, tmpl, i) then MaskSegments(lower, tmpl, segs, i)[i := MASK]
            else MaskSegments(lower, tmpl, segs, i)
  {
  }

  method RedactPathParams(lower: string -> string, routePath: string, path: string) returns (r: string)
    ensures r == MaskPath(lower, routePath, path)
  {
    if routePath == "" || ':' !in routePath {
      NoColonUnchanged(lower, routePath, path);
      return path;
    }
    if !Starts(path, '/') {
      return path;
    }
    var tmpl := Segments(routePath);
    ghost var given := Segments(path);
    var segs := Segments(path);
    var changed := false;
    var i := 0;
    MaskNothing(lower, tmpl, given, 0);
    while i < |tmpl|
      invariant i <= CatchAll(tmpl) && i <= |given|
      invariant segs == MaskSegments(lower, tmpl, given, i)
      invariant !changed ==> segs == given
    {
      if i >= |segs| || Starts(tmpl[i], '*') {
        break;
      }
      MaskNext(lower, tmpl, given, i);
      var secret := false;
      if Starts(tmpl[i], ':') {
        secret := SensitivePathParam(lower, tmpl[i][1..]);
      }
      if secret {
        segs := segs[i := MASK];
        changed := true;
      }
      i := i + 1;
    }
    MaskBeyond(lower, tmpl, given, i);
    if !changed {
      MaskPathNothing(lower, routePath, path);
      return path;
    }
    return "/" + Join(segs, '/');
  }

  // ---------------------------------------------------------------- the query

  /** `strings.Cut(p, "=")` finds the sign, and the key before it is sensitive. */
  predicate SecretParam(lower: string -> string, p: string) {
    var k := IndexOf(p, '=');
    k < |p| && lower(p[..k]) in SENSITIVE_QUERY_KEYS
  }

  function MaskParam(lower: string -> string, p: string): string {
    if SecretParam(lower, p) then p[..IndexOf(p, '=')] + "=" + MASK else p
  }

  function MaskParams(lower: string -> string, params: seq<string>, upTo: nat): (r: seq<string>)
    ensures |r| == |params|
    ensures forall j | 0 <= j < |params| :: r[j] == if j < upTo then MaskParam(lower, params[j]) else params[j]
  {
    seq(|params|, j requires 0 <= j < |params| => if j < upTo then MaskParam(lower, params[j]) else params[j])
  }

  function MaskQuery(lower: string -> string, query: string): string {
    Join(MaskParams(lower, Split(query, '&'), |Split(query, '&')|), '&')
  }

  lemma MaskParamsNext(lower: string -> string, params: seq<string>, j: nat)
    requires j < |params|
    ensures MaskParams(lower, params, j)[j] == params[j]
    ensures MaskParams(lower, params, j + 1) == MaskParams(lower, params, j)[j := MaskParam(lower, params[j])]
  {
  }

  method RedactQueryString(lower: string -> string, query: string) returns (r: string)
    ensures r == MaskQuery(lower, query)
  {
    if query == "" {
      return query;
    }
    var parts := Split(query, '&');
    ghost var given := parts;
    for j := 0 to |parts|
      invariant |parts| == |given|
      invariant parts == MaskParams(lower, given, j)
    {
      MaskParamsNext(lower, given, j);
      var p := parts[j];
      var k := IndexOf(p, '=');
      if k < |p| && lower(p[..k]) in SENSITIVE_QUERY_KEYS {
        parts := parts[j := p[..k] + "=" + MASK];
      }
    }
    return Join(parts, '&');
  }

  // ---------------------------------------------------------------- the whole

  function PathOf(uri: string): string {
    uri[..IndexOf(uri, '?')]
  }

  function QueryOf(uri: string): Option<string> {
    var k := IndexOf(uri, '?');
    if k < |uri| then Some(uri[k + 1..]) else None
  }

  /** A path and the query behind its question mark, if any. */
  function Glue(path: string, query: Option<string>): string {
    if query.Some? then path + "?" + query.value else path
  }

  lemma GluePartsOf(uri: string)
    ensures Glue(PathOf(uri), QueryOf(uri)) == uri && '?' !in PathOf(uri)
  {
  }

  lemma PartsOfGlue(path: string, query: Option<string>)
    requires '?' !in path
    ensures PathOf(Glue(path, query)) == path && QueryOf(Glue(path, query)) == query
  {
    IndexOfUnique(Glue(path, query), '?', |path|);
  }

  function MaskedQueryOf(lower: string -> string, uri: string): Option<string> {
    if QueryOf(uri).Some? then Some(MaskQuery(lower, QueryOf(uri).value)) else None
  }

  function Redact(lower: string -> string, route: string, uri: string): string {
    Glue(MaskPath(lower, route, PathOf(uri)), MaskedQueryOf(lower, uri))
  }

  method RedactURI(lower: string -> string, routePath: string, uri: string) returns (r: string)
    ensures r == Redact(lower, routePath, uri)
  {
    var path, sep, query := uri, "", "";
    var i := IndexOf(uri, '?');
    if i < |uri| {
      path, sep, query := uri[..i], "?", uri[i + 1..];
    }
    var p := RedactPathParams(lower, routePath, path);
    var q := RedactQueryString(lower, query);
    r := p + sep + q;
    assert uri[..i] == PathOf(uri) && (i == |uri| ==> uri[..i] == uri);
    if i == |uri| {
      assert MaskQuery(lower, "") == "";
      assert p + sep + q == p;
    }
  }

  // ---------------------------------------------------------------- taking the redacted text apart

  lemma {:induction false} SplitFree(s: string, sep: char, c: char)
    requires c !in s
    ensures forall p | p in Split(s, sep) :: c !in p
    decreases |s|
  {
    var k := IndexOf(s, sep);
    if k < |s| { SplitFree(s[k + 1..], sep, c); }
  }

  lemma {:induction false} JoinFree(parts: seq<string>, sep: char, c: char)
    requires c != sep && forall p | p in parts :: c !in p
    ensures c !in Join(parts, sep)
  {
    if |parts| > 1 {
      JoinFree(parts[1..], sep, c);
      assert parts[0] in parts;
    } else if |parts| == 1 {
      assert parts[0] in parts;
    }
  }

  lemma MaskFree(lower: string -> string, tmpl: seq<string>, segs: seq<string>, c: char)
    requires c != '*' && forall p | p in segs :: c !in p
    ensures forall p | p in MaskSegments(lower, tmpl, segs, |segs|) :: c !in p
  {
    var masked := MaskSegments(lower, tmpl, segs, |segs|);
    forall p | p in masked ensures c !in p {
      var i :| 0 <= i < |masked| && p == masked[i];
      assert segs[i] in segs;
    }
  }

  /** The redacted path splits into the masked segments. */
  lemma MaskPathSegments(lower: string -> string, route: string, path: string)
    requires Starts(path, '/')
    ensures Starts(MaskPath(lower, route, path), '/')
    ensures Segments(MaskPath(lower, route, path))
         == MaskSegments(lower, Segments(route), Segments(path), |Segments(path)|)
  {
    var masked := MaskSegments(lower, Segments(route), Segments(path), |Segments(path)|);
    SplitJoin(path[1..], '/');
    MaskFree(lower, Segments(route), Segments(path), '/');
    JoinSplit(masked, '/');
    assert MaskPath(lower, route, path)[1..] == Join(masked, '/');
  }

  lemma MaskPathFree(lower: string -> string, route: string, path: string)
    requires '?' !in path
    ensures '?' !in MaskPath(lower, route, path)
  {
    if Starts(path, '/') {
      SplitFree(path[1..], '/', '?');
      MaskFree(lower, Segments(route), Segments(path), '?');
      JoinFree(MaskSegments(lower, Segments(route), Segments(path), |Segments(path)|), '/', '?');
    }
  }

  /** Masking one parameter keeps its key and leaves only the mask behind a sensitive one. */
  lemma MaskParamShape(lower: string -> string, p: string)
    requires '&' !in p
    ensures '&' !in MaskParam(lower, p)
    ensures SecretParam(lower, p) ==> IndexOf(MaskParam(lower, p), '=') == IndexOf(p, '=')
    ensures SecretParam(lower, MaskParam(lower, p)) <==> SecretParam(lower, p)
  {
    if SecretParam(lower, p) {
      var k := IndexOf(p, '=');
      IndexOfUnique(MaskParam(lower, p), '=', k);
      assert MaskParam(lower, p)[..k] == p[..k];
    }
  }

  lemma MaskQueryParams(lower: string -> string, query: string)
    ensures Split(MaskQuery(lower, query), '&') == MaskParams(lower, Split(query, '&'), |Split(query, '&')|)
  {
    var params := Split(query, '&');
    var masked := MaskParams(lower, params, |params|);
    SplitJoin(query, '&');
    forall p | p in masked ensures '&' !in p {
      var j :| 0 <= j < |masked| && p == masked[j];
      assert params[j] in params;
      MaskParamShape(lower, params[j]);
    }
    JoinSplit(masked, '&');
  }

  /** The question mark of the redacted text is the one of the original. */
  lemma RedactParts(lower: string -> string, route: string, uri: string)
    ensures PathOf(Redact(lower, route, uri)) == MaskPath(lower, route, PathOf(uri))
    ensures QueryOf(Redact(lower, route, uri)) == MaskedQueryOf(lower, uri)
  {
    GluePartsOf(uri);
    MaskPathFree(lower, route, PathOf(uri));
    PartsOfGlue(MaskPath(lower, route, PathOf(uri)), MaskedQueryOf(lower, uri));
  }

  // ---------------------------------------------------------------- what an observer of the log learns

  /** The paths differ at most in the contents of segments that the template declares secret. */
  predicate SamePath(lower: string -> string, route: string, p: string, q: string) {
    if Starts(p, '/') && Starts(q, '/') then
      && |Segments(p)| == |Segments(q)|
      && forall i | 0 <= i < |Segments(p)| && !SecretAt(lower, Segments(route), i) :: Segments(p)[i] == Segments(q)[i]
    else p == q
  }

  /** The parameters are equal, or share a sensitive key. */
  predicate SameParam(lower: string -> string, p: string, q: string) {
    p == q || (SecretParam(lower, p) && SecretParam(lower, q) && p[..IndexOf(p, '=')] == q[..IndexOf(q, '=')])
  }

  predicate SameQuery(lower: string -> string, p: string, q: string) {
    var ps, qs := Split(p, '&'), Split(q, '&');
    |ps| == |qs| && forall j | 0 <= j < |ps| :: SameParam(lower, ps[j], qs[j])
  }

  /** The URIs differ in nothing but the contents of secret segments and the values of sensitive keys. */
  predicate SameButSecrets(lower: string -> string, route: string, u: string, v: string) {
    && SamePath(lower, route, PathOf(u), PathOf(v))
    && match (QueryOf(u), QueryOf(v))
       case (Some(p), Some(q)) => SameQuery(lower, p, q)
       case (None, None) => true
       case _ => false
  }

  lemma PathNonInterference(lower: string -> string, route: string, p: string, q: string)
    ensures MaskPath(lower, route, p) == MaskPath(lower, route, q) <==> SamePath(lower, route, p, q)
  {
    if Starts(p, '/') { MaskPathSegments(lower, route, p); }
    if Starts(q, '/') { MaskPathSegments(lower, route, q); }
    if Starts(p, '/') && Starts(q, '/') {
      SegmentsNonInterference(lower, Segments(route), Segments(p), Segments(q));
    }
  }

  lemma SegmentsNonInterference(lower: string -> string, tmpl: seq<string>, a: seq<string>, b: seq<string>)
    ensures MaskSegments(lower, tmpl, a, |a|) == MaskSegments(lower, tmpl, b, |b|)
       <==> |a| == |b| && forall i | 0 <= i < |a| && !SecretAt(lower, tmpl, i) :: a[i] == b[i]
  {
    var x, y := MaskSegments(lower, tmpl, a, |a|), MaskSegments(lower, tmpl, b, |b|);
    if x == y {
      forall i | 0 <= i < |a| && !SecretAt(lower, tmpl, i) ensures a[i] == b[i] {
        assert x[i] == y[i];
      }
    }
  }

  lemma ParamNonInterference(lower: string -> string, p: string, q: string)
    requires '&' !in p && '&' !in q
    ensures MaskParam(lower, p) == MaskParam(lower, q) <==> SameParam(lower, p, q)
  {
    MaskParamShape(lower, p);
    MaskParamShape(lower, q);
    if SecretParam(lower, p) && SecretParam(lower, q) && MaskParam(lower, p) == MaskParam(lower, q) {
      assert MaskParam(lower, p)[..IndexOf(p, '=')] == p[..IndexOf(p, '=')];
      assert MaskParam(lower, q)[..IndexOf(q, '=')] == q[..IndexOf(q, '=')];
    }
  }

  lemma QueryNonInterference(lower: string -> string, p: string, q: string)
    ensures MaskQuery(lower, p) == MaskQuery(lower, q) <==> SameQuery(lower, p, q)
  {
    var ps, qs := Split(p, '&'), Split(q, '&');
    MaskQueryParams(lower, p);
    MaskQueryParams(lower, q);
    SplitJoin(p, '&');
    SplitJoin(q, '&');
    if |ps| == |qs| {
      var x, y := MaskParams(lower, ps, |ps|), MaskParams(lower, qs, |qs|);
      forall j | 0 <= j < |ps| ensures x[j] == y[j] <==> SameParam(lower, ps[j], qs[j]) {
        assert ps[j] in ps && qs[j] in qs;
        ParamNonInterference(lower, ps[j], qs[j]);
      }
      assert MaskQuery(lower, p) == MaskQuery(lower, q) ==> x == y;
      assert (forall j | 0 <= j < |ps| :: x[j] == y[j]) ==> x == y;
    }
  }

  /**
   Two URIs of one route redact to the same log entry exactly when they differ in nothing but secrets:
   the log tells secrets apart never, and everything else always.
   */
  lemma NonInterference(lower: string -> string, route: string, u: string, v: string)
    ensures Redact(lower, route, u) == Redact(lower, route, v) <==> SameButSecrets(lower, route, u, v)
  {
    RedactParts(lower, route, u);
    RedactParts(lower, route, v);
    PathNonInterference(lower, route, PathOf(u), PathOf(v));
    match (QueryOf(u), QueryOf(v))
    case (Some(p), Some(q)) => QueryNonInterference(lower, p, q);
    case _ =>
  }

  /** Redaction changes secrets only. */
  lemma RedactKeepsTheRest(lower: string -> string, route: string, uri: string)
    ensures SameButSecrets(lower, route, uri, Redact(lower, route, uri))
  {
    RedactParts(lower, route, uri);
    if Starts(PathOf(uri), '/') { MaskPathSegments(lower, route, PathOf(uri)); }
    if QueryOf(uri).Some? {
      var q := QueryOf(uri).value;
      var params := Split(q, '&');
      MaskQueryParams(lower, q);
      SplitJoin(q, '&');
      forall j | 0 <= j < |params| ensures SameParam(lower, params[j], MaskParam(lower, params[j])) {
        assert params[j] in params;
        MaskParamShape(lower, params[j]);
        if SecretParam(lower, params[j]) {
          var k := IndexOf(params[j], '=');
          assert MaskParam(lower, params[j])[..k] == params[j][..k];
        }
      }
    }
  }

  lemma RedactIdempotent(lower: string -> string, route: string, uri: string)
    ensures Redact(lower, route, Redact(lower, route, uri)) == Redact(lower, route, uri)
  {
    RedactKeepsTheRest(lower, route, uri);
    NonInterference(lower, route, uri, Redact(lower, route, uri));
  }

  predicate PathHidden(lower: string -> string, route: string, path: string) {
    forall i | 0 <= i < |Segments(path)| && SecretAt(lower, Segments(route), i) :: Segments(path)[i] == MASK
  }

  predicate Masked(lower: string -> string, p: string) {
    SecretParam(lower, p) ==> p[IndexOf(p, '=') + 1..] == MASK
  }

  predicate QueryHidden(lower: string -> string, q: string) {
    forall j | 0 <= j < |Split(q, '&')| :: Masked(lower, Split(q, '&')[j])
  }

  /** Every secret segment and every sensitive value of the URI is already the mask. */
  predicate NothingToHide(lower: string -> string, route: string, uri: string) {
    && (Starts(PathOf(uri), '/') ==> PathHidden(lower, route, PathOf(uri)))
    && (QueryOf(uri).Some? ==> QueryHidden(lower, QueryOf(uri).value))
  }

  lemma MaskedParam(lower: string -> string, p: string)
    ensures MaskParam(lower, p) == p <==> Masked(lower, p)
  {
    var k := IndexOf(p, '=');
    if k < |p| { assert p == p[..k] + "=" + p[k + 1..]; }
    if SecretParam(lower, p) { assert MaskParam(lower, p)[k + 1..] == MASK; }
  }

  lemma QueryUnchanged(lower: string -> string, q: string)
    ensures MaskQuery(lower, q) == q <==> QueryHidden(lower, q)
  {
    var params := Split(q, '&');
    var x := MaskParams(lower, params, |params|);
    MaskQueryParams(lower, q);
    SplitJoin(q, '&');
    forall j | 0 <= j < |params| ensures x[j] == params[j] <==> Masked(lower, params[j]) {
      MaskedParam(lower, params[j]);
    }
    assert MaskQuery(lower, q) == q ==> x == params;
    assert (forall j | 0 <= j < |params| :: x[j] == params[j]) ==> x == params;
  }

  lemma PathUnchanged(lower: string -> string, route: string, path: string)
    requires Starts(path, '/')
    ensures MaskPath(lower, route, path) == path <==> PathHidden(lower, route, path)
  {
    var segs := Segments(path);
    var x := MaskSegments(lower, Segments(route), segs, |segs|);
    MaskPathSegments(lower, route, path);
    if x == segs {
      MaskPathNothing(lower, route, path);
      forall i | 0 <= i < |segs| && SecretAt(lower, Segments(route), i) ensures segs[i] == MASK {
        assert x[i] == MASK;
      }
    }
  }

  /** Redaction is the identity exactly on URIs that show no secret; what it returns never shows one. */
  lemma UnchangedIffNothingToHide(lower: string -> string, route: string, uri: string)
    ensures Redact(lower, route, uri) == uri <==> NothingToHide(lower, route, uri)
    ensures NothingToHide(lower, route, Redact(lower, route, uri))
  {
    UnchangedIff(lower, route, uri);
    RedactIdempotent(lower, route, uri);
    UnchangedIff(lower, route, Redact(lower, route, uri));
  }

  lemma UnchangedIff(lower: string -> string, route: string, uri: string)
    ensures Redact(lower, route, uri) == uri <==> NothingToHide(lower, route, uri)
  {
    RedactParts(lower, route, uri);
    GluePartsOf(uri);
    assert Redact(lower, route, uri) == uri
      <==> MaskPath(lower, route, PathOf(uri)) == PathOf(uri) && MaskedQueryOf(lower, uri) == QueryOf(uri);
    if Starts(PathOf(uri), '/') { PathUnchanged(lower, route, PathOf(uri)); }
    if QueryOf(uri).Some? { QueryUnchanged(lower, QueryOf(uri).value); }
  }

  // ---------------------------------------------------------------- what the log shows of a URI

  /** The template names segment `i` a secret, and no catch-all stands before it. */
  ghost predicate Declared(lower: string -> string, tmpl: seq<string>, i: nat) {
    && i < |tmpl| && (forall j | 0 <= j <= i :: tmpl[j] == "" || tmpl[j][0] != '*')
    && tmpl[i] != "" && tmpl[i][0] == ':' && NamesSecret(lower(tmpl[i][1..]))
  }

  /** What is logged of the parameter `p`: of a sensitive key the value is masked. */
  ghost predicate ParamLogged(lower: string -> string, p: string, logged: string) {
    && ('=' !in p ==> logged == p)
    && forall k, v | '=' !in k && p == k + "=" + v ::
         logged == if lower(k) in {"token", "access_token", "api_key", "apikey", "key", "secret", "password", "code",
                                   "state"} then k + "=***" else p
  }

  function Printed(segs: seq<string>, params: Option<seq<string>>): string {
    "/" + Join(segs, '/') + if params.Some? then "?" + Join(params.value, '&') else ""
  }

  ghost predicate Holds(parts: seq<string>, c: char) {
    exists p :: p in parts && c in p
  }

  lemma {:induction false} CatchAllAt(tmpl: seq<string>, i: nat)
    ensures i < CatchAll(tmpl) <==> i < |tmpl| && forall j | 0 <= j <= i :: tmpl[j] == "" || tmpl[j][0] != '*'
  {
    var k := CatchAll(tmpl);
    assert k < |tmpl| ==> Starts(tmpl[k], '*');
    assert forall j | 0 <= j < k :: !Starts(tmpl[j], '*');
  }

  lemma DeclaredIsSecret(lower: string -> string, tmpl: seq<string>, i: nat)
    ensures SecretAt(lower, tmpl, i) <==> Declared(lower, tmpl, i)
  {
    CatchAllAt(tmpl, i);
    if i < |tmpl| && tmpl[i] != "" { SecretMeansNamed(lower, tmpl[i][1..]); }
  }

  lemma ParamIsLogged(lower: string -> string, p: string)
    ensures ParamLogged(lower, p, MaskParam(lower, p))
  {
    if '=' !in p {
      assert IndexOf(p, '=') == |p|;
    }
    forall k, v | '=' !in k && p == k + "=" + v
      ensures IndexOf(p, '=') == |k| && p[..|k|] == k
    {
      FreeAt(k, '=');
      IndexOfUnique(p, '=', |k|);
    }
  }

  lemma MaskedSegments(lower: string -> string, tmpl: seq<string>, segs: seq<string>) returns (out: seq<string>)
    requires tmpl != [] && segs != [] && !Holds(tmpl, '/') && !Holds(segs, '/')
    ensures MaskPath(lower, "/" + Join(tmpl, '/'), "/" + Join(segs, '/')) == "/" + Join(out, '/')
    ensures |out| == |segs| && forall i | 0 <= i < |segs| ::
              out[i] == if Declared(lower, tmpl, i) then "***" else segs[i]
  {
    JoinSplit(tmpl, '/');
    JoinSplit(segs, '/');
    assert ("/" + Join(tmpl, '/'))[1..] == Join(tmpl, '/') && ("/" + Join(segs, '/'))[1..] == Join(segs, '/');
    out := MaskSegments(lower, tmpl, segs, |segs|);
    forall i | 0 <= i < |segs| ensures out[i] == if Declared(lower, tmpl, i) then "***" else segs[i] {
      DeclaredIsSecret(lower, tmpl, i);
    }
  }

  lemma MaskedParams(lower: string -> string, params: seq<string>) returns (out: seq<string>)
    requires params != [] && !Holds(params, '&')
    ensures MaskQuery(lower, Join(params, '&')) == Join(out, '&')
    ensures |out| == |params| && forall j | 0 <= j < |params| :: ParamLogged(lower, params[j], out[j])
  {
    JoinSplit(params, '&');
    out := MaskParams(lower, params, |params|);
    forall j | 0 <= j < |params| ensures ParamLogged(lower, params[j], out[j]) {
      ParamIsLogged(lower, params[j]);
    }
  }

  /**
   For every template and every URI with a path of these segments and these parameters: the log entry has the
   same segments, those that the template declares secret masked, and the same parameters, the values of
   sensitive keys masked.
   */
  lemma RedactPrinted(lower: string -> string, tmpl: seq<string>, segs: seq<string>, params: Option<seq<string>>)
    returns (out: seq<string>, logged: Option<seq<string>>)
    requires tmpl != [] && segs != [] && !Holds(tmpl, '/') && !Holds(segs, '/') && !Holds(segs, '?')
    requires params.Some? ==> params.value != [] && !Holds(params.value, '&')
    ensures Redact(lower, "/" + Join(tmpl, '/'), Printed(segs, params)) == Printed(out, logged)
    ensures |out| == |segs| && forall i | 0 <= i < |segs| ::
              out[i] == if Declared(lower, tmpl, i) then "***" else segs[i]
    ensures if params.None? then logged.None?
            else logged.Some? && |logged.value| == |params.value|
                 && forall j | 0 <= j < |params.value| :: ParamLogged(lower, params.value[j], logged.value[j])
  {
    var path, query := "/" + Join(segs, '/'), None;
    out := MaskedSegments(lower, tmpl, segs);
    logged := None;
    if params.Some? {
      query := Some(Join(params.value, '&'));
      var l := MaskedParams(lower, params.value);
      logged := Some(l);
    }
    JoinFree(segs, '/', '?');
    PartsOfGlue(path, query);
    GluePrinted(segs, params);
    GluePrinted(out, logged);
  }

  lemma GluePrinted(segs: seq<string>, params: Option<seq<string>>)
    ensures Printed(segs, params) ==
            Glue("/" + Join(segs, '/'), if params.Some? then Some(Join(params.value, '&')) else None)
  {
    if params.Some? {
      Regroup("/" + Join(segs, '/'), "?", Join(params.value, '&'));
    }
  }
}
