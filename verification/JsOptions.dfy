/**
 The options literal of a `fetch` call as JavaScript reads it: which texts are one expression, which
 properties a literal has, and the method that evaluating it yields, whatever the expressions in it do.
 */
module JsOptions {
  import opened PyText

  predicate IsLetter(c: char) { 'a' <= c <= 'z' || 'A' <= c <= 'Z' }
  predicate IsDigit(c: char) { '0' <= c <= '9' }

  function UpperChar(c: char): char {
    if 'a' <= c <= 'z' then c - 'a' + 'A' else c
  }

  function Upper(s: string): string {
    if s == "" then "" else [UpperChar(s[0])] + Upper(s[1..])
  }

  // ---------------------------------------------------------------- expressions

  /** A character of an identifier, a number or an escape in an identifier. */
  predicate IdentChar(c: char) {
    IsLetter(c) || IsDigit(c) || c == '_' || c == '$' || c == '\\' || (c > '\U{7f}' && !IsSpace(c))
  }

  function WordBefore(t: string): string {
    if t != "" && IdentChar(t[|t| - 1]) then WordBefore(t[..|t| - 1]) + [t[|t| - 1]] else ""
  }

  predicate TakesOperand(word: string) {
    word in {"return", "typeof", "instanceof", "in", "of", "new", "delete", "void", "throw", "case", "do", "else",
             "await", "yield"}
  }

  /** What a slash in code is. */
  datatype Slash = Divides | OpensRegex | Unclear

  /**
   What a slash behind the text `t` is, inside the brackets `open`. Behind a word that takes an operand,
   behind most operators, and behind a closing parenthesis or brace inside braces, which may end a statement, it
   is not decided.
   */
  function SlashBehind(t: string, open: string): Slash {
    if t == "" then OpensRegex
    else
      var c := t[|t| - 1];
      if IdentChar(c) then (if TakesOperand(WordBefore(t)) then Unclear else Divides)
      else if IsQuote(c) || c == ']' then Divides
      else if c == ')' || c == '}' then (if '{' in open then Unclear else Divides)
      else if IsOpen(c) || c == ',' || c == ';' || c == ':' || c == '=' || c == '?' || c == '&' || c == '|' then
        OpensRegex
      else if c == '>' && |t| > 1 && t[|t| - 2] == '=' then OpensRegex
      else Unclear
  }

  datatype Lex = AtCode | AtString(quote: char) | AtTemplate | AtRegex | AtClass

  /** The bracket `c` closes the bracket `o`; `$` stands for the opening of a hole in a template. */
  predicate Closes(o: char, c: char) {
    (o == '(' && c == ')') || (o == '[' && c == ']') || ((o == '{' || o == '$') && c == '}')
  }

  /**
   From `i` on, the text is free of comments and is lexed to its end: strings, templates with their holes,
   regular expressions and brackets are all closed, and there is no comma outside brackets.
   */
  predicate Lexes(s: string, i: nat, m: Lex, open: string)
    decreases |s| - i
  {
    if i >= |s| then i == |s| && m == AtCode && open == ""
    else
      var c, n := s[i], |open|;
      match m
      case AtCode =>
        if IsQuote(c) then Lexes(s, i + 1, if c == '`' then AtTemplate else AtString(c), open)
        else if c == '/' then
          var slash := SlashBehind(RStrip(s[..i]), open);
          !At(s, i + 1, '/') && !At(s, i + 1, '*') && slash != Unclear
          && Lexes(s, i + 1, if slash == Divides then AtCode else AtRegex, open)
        else if IsOpen(c) then Lexes(s, i + 1, AtCode, open + [c])
        else if IsClose(c) then
          n > 0 && Closes(open[n - 1], c)
          && Lexes(s, i + 1, if open[n - 1] == '$' then AtTemplate else AtCode, open[..n - 1])
        else (c == ',' ==> n > 0) && Lexes(s, i + 1, AtCode, open)
      case AtString(q) =>
        if c == '\\' then Lexes(s, i + 2, m, open)
        else c != '\n' && Lexes(s, i + 1, if c == q then AtCode else m, open)
      case AtTemplate =>
        if c == '\\' then Lexes(s, i + 2, m, open)
        else if c == '$' && At(s, i + 1, '{') then Lexes(s, i + 2, AtCode, open + "$")
        else Lexes(s, i + 1, if c == '`' then AtCode else m, open)
      case AtRegex =>
        if c == '\\' then Lexes(s, i + 2, m, open)
        else c != '\n' && Lexes(s, i + 1, if c == '/' then AtCode else if c == '[' then AtClass else m, open)
      case AtClass =>
        if c == '\\' then Lexes(s, i + 2, m, open)
        else c != '\n' && Lexes(s, i + 1, if c == ']' then AtRegex else m, open)
  }

  predicate Expression(s: string) {
    Trimmed(s) && Lexes(s, 0, AtCode, "")
  }

  // ---------------------------------------------------------------- properties

  function Colon(gap: string, gap2: string, value: string): string {
    gap + ":" + gap2 + value
  }

  /** An identifier as it is spelled; braces belong to an escape. */
  predicate Identifier(s: string) {
    && s != "" && IdentChar(s[0])
    && forall k | 0 <= k < |s| :: IdentChar(s[k]) || ('\\' in s && (s[k] == '{' || s[k] == '}'))
  }

  predicate Number(s: string) {
    && s != "" && (IsDigit(s[0]) || (s[0] == '.' && |s| > 1 && IsDigit(s[1])))
    && forall k | 0 <= k < |s| :: IdentChar(s[k]) || s[k] == '.' || s[k] == '+' || s[k] == '-'
  }

  /** What stands between the quotes of a string. */
  predicate Body(quote: char, s: string) {
    if s == "" then true
    else if s[0] == '\\' then |s| > 1 && Body(quote, s[2..])
    else s[0] != quote && Body(quote, s[1..])
  }

  /** A property's key. A key without escapes is spelled as its name; what escapes stand for is given. */
  datatype Key =
    | Plain(raw: string, name: string)
    | InQuotes(quote: char, raw: string, name: string)
    | Numeric(raw: string)
    | Brackets(inner: string)
  {
    function Text(): string {
      match this
      case Plain(raw, _) => raw
      case InQuotes(quote, raw, _) => [quote] + raw + [quote]
      case Numeric(raw) => raw
      case Brackets(inner) => "[" + inner + "]"
    }

    predicate WellFormed() {
      match this
      case Plain(raw, name) => Identifier(raw) && Spelled(raw, name)
      case InQuotes(quote, raw, name) => (quote == '\'' || quote == '"') && Body(quote, raw) && Spelled(raw, name)
      case Numeric(raw) => Number(raw)
      case Brackets(inner) => Lexes("[" + inner + "]", 0, AtCode, "")
    }

    predicate Named(s: string) {
      (Plain? || InQuotes?) && name == s
    }
  }

  predicate Spelled(raw: string, name: string) {
    '\\' !in raw ==> name == raw
  }

  /** What stands before the key of a method or accessor. */
  predicate Modifier(word: string, gap: string, key: Key) {
    if word == "" then gap == ""
    else if word == "get" || word == "set" || word == "async" then key.Plain? || key.Numeric? ==> gap != ""
    else word == "*" || (|word| > 5 && word[..5] == "async" && AllSpace(word[5..|word| - 1]) && word[|word| - 1] == '*')
  }

  /** The value of a string literal of letters: its two quotes are the same character. */
  function StringValue(value: string): Option<string> {
    if |value| >= 3 && IsQuote(value[0]) && value[|value| - 1] == value[0]
       && (forall k | 0 < k < |value| - 1 :: IsLetter(value[k]))
    then Some(value[1..|value| - 1])
    else None
  }

  /** What a property can do to the method: hold it, as this word if it is written out, or otherwise. */
  datatype Effect = Nothing | Data(word: Option<string>) | Getter | Setter | Prototype

  /** One property of an options literal, with the whitespace inside it. */
  datatype Entry =
    | Value(key: Key, gap: string, gap2: string, value: string)
    | Short(raw: string, name: string)
    | Spread(gap: string, expr: string)
    | Member(word: string, gap: string, key: Key, gap2: string, tail: string)
  {
    function Text(): string {
      match this
      case Value(key, gap, gap2, value) => key.Text() + Colon(gap, gap2, value)
      case Short(raw, _) => raw
      case Spread(gap, expr) => "..." + (gap + expr)
      case Member(word, gap, key, gap2, tail) => (word + gap) + (key.Text() + (gap2 + tail))
    }

    predicate WellFormed() {
      match this
      case Value(key, gap, gap2, value) => key.WellFormed() && AllSpace(gap) && AllSpace(gap2) && Expression(value)
      case Short(raw, name) => Identifier(raw) && Spelled(raw, name)
      case Spread(gap, expr) => AllSpace(gap) && Expression(expr)
      case Member(word, gap, key, gap2, tail) =>
        && Modifier(word, gap, key) && AllSpace(gap) && key.WellFormed() && AllSpace(gap2)
        && Expression(tail) && tail[0] == '('
    }

    function Effect(): Effect {
      match this
      case Value(key, _, _, value) =>
        if key.Brackets? || key.Named("method") then Data(StringValue(value))
        else if key.Named("__proto__") && StringValue(value).None? then Prototype
        else Nothing
      case Short(_, name) => if name == "method" then Data(None) else Nothing
      case Spread(_, _) => Data(None)
      case Member(word, _, key, _, _) =>
        if !key.Brackets? && !key.Named("method") then Nothing
        else if word == "get" then Getter
        else if word == "set" then Setter
        else Data(None)
    }

    /** Whether it has its effect does not depend on an expression. */
    predicate Sure() {
      Short? || (!Spread? && !key.Brackets? && !key.Named("__proto__"))
    }
  }

  // ---------------------------------------------------------------- evaluation

  /** The property `method` of the object itself. */
  datatype Own = Absent | Holds(verb: string) | Accessor(getter: Option<string>)

  /** What `fetch` can see of an object: its own `method`, or else that of its prototype. */
  datatype Object = Object(own: Own, inherited: Option<string>)

  /** What the expressions of an entry yield: whether it has its effect, and with which method. */
  datatype Unseen = Unseen(sets: bool, verb: string)

  /** The object after one more entry. */
  function Define(o: Object, e: Entry, u: Unseen): Object {
    if !e.Sure() && !u.sets then o
    else
      match e.Effect()
      case Nothing => o
      case Data(word) => o.(own := Holds(if word.Some? then word.value else u.verb))
      case Getter => o.(own := Accessor(Some(u.verb)))
      case Setter => o.(own := Accessor(if o.own.Accessor? then o.own.getter else None))
      case Prototype => o.(inherited := Some(u.verb))
  }

  function Build(entries: seq<Entry>, env: seq<Unseen>): Object
    requires |entries| == |env|
  {
    if entries == [] then Object(Absent, None)
    else
      var n := |entries| - 1;
      Define(Build(entries[..n], env[..n]), entries[n], env[n])
  }

  function Given(verb: Option<string>): string {
    if verb.Some? then verb.value else "GET"
  }

  /** The method of a request: `fetch` takes GET for a property that is not there or reads as undefined. */
  function Method(o: Object): string {
    match o.own
    case Absent => Given(o.inherited)
    case Holds(verb) => verb
    case Accessor(getter) => Given(getter)
  }

  function Eval(entries: seq<Entry>, env: seq<Unseen>): string
    requires |entries| == |env|
  {
    Method(Build(entries, env))
  }

  /** The method is `verb`, up to letter case, whatever the expressions yield. */
  ghost predicate AlwaysYields(entries: seq<Entry>, verb: string) {
    forall env: seq<Unseen> | |env| == |entries| :: Upper(Eval(entries, env)) == verb
  }

  // ---------------------------------------------------------------- which literals are settled

  predicate Says(word: Option<string>, m: string) {
    word.Some? && Upper(word.value) == m
  }

  /** Some entry makes `method` a property of the object itself. */
  predicate Owned(es: seq<Entry>) {
    if es == [] then false
    else
      var e := es[|es| - 1];
      match e.Effect()
      case Nothing => Owned(es[..|es| - 1])
      case Prototype => Owned(es[..|es| - 1])
      case _ => e.Sure() || Owned(es[..|es| - 1])
  }

  /** With a setter behind the entries the method would be `m`: no getter stays in force. */
  predicate Kept(es: seq<Entry>, m: string) {
    if es == [] then m == "GET"
    else
      var e := es[|es| - 1];
      match e.Effect()
      case Data(_) => m == "GET" && (e.Sure() || Kept(es[..|es| - 1], m))
      case Getter => false
      case _ => Kept(es[..|es| - 1], m)
  }

  /** Whatever the entries' expressions yield, the method is `m`: read off the entries, the last one first. */
  predicate Settled(es: seq<Entry>, m: string) {
    if es == [] then m == "GET"
    else
      var e, init := es[|es| - 1], es[..|es| - 1];
      match e.Effect()
      case Nothing => Settled(init, m)
      case Data(word) => Says(word, m) && (e.Sure() || Settled(init, m))
      case Getter => false
      case Setter => Kept(init, m) && (e.Sure() || Settled(init, m))
      case Prototype => Owned(init) && Settled(init, m)
  }

  lemma UpperGet()
    ensures Upper("GET") == "GET"
  {
    assert "GET"[1..] == "ET" && "ET"[1..] == "T" && "T"[1..] == "";
    assert Upper("T") == "T" && Upper("ET") == "ET";
  }

  /** What a setter behind it would leave. */
  function Left(own: Own): string {
    if own.Accessor? then Given(own.getter) else "GET"
  }

  lemma {:induction false} OwnedHolds(es: seq<Entry>, env: seq<Unseen>)
    requires |env| == |es| && Owned(es)
    ensures Build(es, env).own != Absent
    decreases |es|
  {
    var n := |es| - 1;
    if Owned(es[..n]) { OwnedHolds(es[..n], env[..n]); }
  }

  lemma {:induction false} KeptHolds(es: seq<Entry>, m: string, env: seq<Unseen>)
    requires |env| == |es| && Kept(es, m)
    ensures Upper(Left(Build(es, env).own)) == m
    decreases |es|
  {
    UpperGet();
    if es != [] {
      var n := |es| - 1;
      if Kept(es[..n], m) { KeptHolds(es[..n], m, env[..n]); }
    }
  }

  lemma {:induction false} SettledHolds(es: seq<Entry>, m: string, env: seq<Unseen>)
    requires |env| == |es| && Settled(es, m)
    ensures Upper(Eval(es, env)) == m
    decreases |es|
  {
    if es == [] {
      UpperGet();
    } else {
      var n := |es| - 1;
      var init, e := es[..n], es[n];
      if Settled(init, m) { SettledHolds(init, m, env[..n]); }
      if e.Effect().Setter? { KeptHolds(init, m, env[..n]); }
      if e.Effect().Prototype? { OwnedHolds(init, env[..n]); }
    }
  }

  lemma Extend(es: seq<Entry>, env: seq<Unseen>, u: Unseen)
    requires es != [] && |env| == |es| - 1
    ensures Build(es, env + [u]) == Define(Build(es[..|es| - 1], env), es[|es| - 1], u)
  {
    assert (env + [u])[..|es| - 1] == env;
  }

  /** Unless the property is sure to be there, some outcome leaves it out. */
  lemma {:induction false} UnownedFails(es: seq<Entry>) returns (env: seq<Unseen>)
    requires !Owned(es)
    ensures |env| == |es| && Build(es, env).own == Absent
    decreases |es|
  {
    if es == [] {
      env := [];
    } else {
      var init := UnownedFails(es[..|es| - 1]);
      env := init + [Unseen(false, "")];
      Extend(es, init, Unseen(false, ""));
    }
  }

  lemma {:induction false} UnkeptFails(es: seq<Entry>, m: string) returns (env: seq<Unseen>)
    requires !Kept(es, m) && m != ""
    ensures |env| == |es| && Upper(Left(Build(es, env).own)) != m
    decreases |es|
  {
    UpperGet();
    if es == [] {
      env := [];
    } else {
      var n := |es| - 1;
      var u, init := Unseen(true, ""), seq(n, _ => Unseen(true, ""));
      if !es[n].Effect().Getter? && !Kept(es[..n], m) {
        init := UnkeptFails(es[..n], m);
        u := Unseen(!es[n].Effect().Data?, "");
      }
      if es[n].Effect().Data? && m != "GET" {
        u := Unseen(true, "");
      }
      env := init + [u];
      Extend(es, init, u);
    }
  }

  /** Behind `o` the entry can bring the method to something else than `m`. */
  predicate Misses(o: Object, e: Entry, m: string) {
    match e.Effect()
    case Nothing => Upper(Method(o)) != m
    case Data(word) => !Says(word, m)
    case Getter => true
    case Setter => Upper(Left(o.own)) != m
    case Prototype => o.own == Absent
  }

  lemma Undone(o: Object, e: Entry, m: string)
    requires m != "" && Misses(o, e, m)
    ensures Upper(Method(Define(o, e, Unseen(true, "")))) != m
  {
    UpperGet();
  }

  lemma {:induction false} UnsettledFails(es: seq<Entry>, m: string) returns (env: seq<Unseen>)
    requires !Settled(es, m) && m != ""
    ensures |env| == |es| && Upper(Eval(es, env)) != m
    decreases |es|
  {
    UpperGet();
    if es == [] {
      env := [];
    } else {
      var n := |es| - 1;
      var e, rest := es[n], es[..n];
      var u, init := Unseen(true, ""), seq(n, _ => Unseen(true, ""));
      if e.Effect().Prototype? && !Owned(rest) {
        init := UnownedFails(rest);
        Undone(Build(rest, init), e, m);
      } else if e.Effect().Setter? && !Kept(rest, m) {
        init := UnkeptFails(rest, m);
        Undone(Build(rest, init), e, m);
      } else if !e.Effect().Getter? && !(e.Effect().Data? && !Says(e.Effect().word, m)) {
        init := UnsettledFails(rest, m);
        u := Unseen(false, "");
      } else {
        Undone(Build(rest, init), e, m);
      }
      env := init + [u];
      Extend(es, init, u);
    }
  }

  /** A literal yields one and the same method, whatever its expressions do, exactly when it is settled on it. */
  lemma YieldsIffSettled(es: seq<Entry>, m: string)
    requires m != ""
    ensures AlwaysYields(es, m) <==> Settled(es, m)
  {
    if Settled(es, m) {
      forall env: seq<Unseen> | |env| == |es| ensures Upper(Eval(es, env)) == m {
        SettledHolds(es, m, env);
      }
    } else {
      var env := UnsettledFails(es, m);
    }
  }
}
