/**
 `resolve_method` of scripts/check_fe_csrf.py: the HTTP method of a `fetch` call read from the
 text of its options literal, against the method that evaluating the literal yields.
 */
module FetchMethod {
  import opened PyText
  import opened JsScanner
  import opened JsArgs
  import opened JsOptions

  // ---------------------------------------------------------------- the source's function

  predicate StartsWith(s: string, p: string) { p <= s }

  /** `object_properties`: the argument split of what stands between the braces. */
  function ObjectProperties(literal: string): Option<seq<string>> {
    var text := Strip(literal);
    if text != "" && text[0] == '{' && text[|text| - 1] == '}' then
      Some(Trim(Pieces(text[1..if |text| == 1 then 1 else |text| - 1], 0, Code, 0, "")))
    else None
  }

  /** What stands behind a colon, trimmed. */
  function ColonValue(text: string): Option<string> {
    var rest := LStrip(text);
    if rest != "" && rest[0] == ':' then Some(Strip(rest[1..])) else None
  }

  /** `^method\s*:\s*(.*)$`. */
  function MethodValue(text: string): Option<string> {
    if StartsWith(text, "method") then ColonValue(text[6..]) else None
  }

  /** The letters of a quoted word: the regex `^['"`]([A-Za-z]+)['"`]$`. */
  function QuotedWord(value: string): Option<string> {
    if |value| >= 3 && IsQuote(value[0]) && IsQuote(value[|value| - 1])
       && (forall k | 0 < k < |value| - 1 :: IsLetter(value[k]))
    then Some(value[1..|value| - 1])
    else None
  }

  /** Whether the url argument is a string or template literal. */
  predicate LiteralUrl(url: string) {
    LStrip(url) != "" && IsQuote(LStrip(url)[0])
  }

  /** What the property loop has seen so far. */
  datatype Seen = Seen(value: Option<string>, unreadable: bool) | Shorthand

  function See(seen: Seen, prop: string): Seen {
    if seen.Shorthand? then seen
    else
      var text := Strip(prop);
      if StartsWith(text, "...") || StartsWith(text, "[") then Seen(seen.value, true)
      else if MethodValue(text).Some? then Seen(MethodValue(text), seen.unreadable)
      else if text == "method" then Shorthand
      else seen
  }

  function SeeAll(props: seq<string>): Seen {
    if props == [] then Seen(None, false) else See(SeeAll(props[..|props| - 1]), props[|props| - 1])
  }

  function Answer(seen: Seen): Option<string> {
    if seen.Shorthand? then None
    else if seen.value.Some? then
      var word := QuotedWord(seen.value.value);
      if word.Some? then Some(Upper(word.value)) else None
    else if seen.unreadable then None
    else Some("GET")
  }

  function Resolved(requestCtor: bool, urlArg: string, options: string): Option<string> {
    if requestCtor then None
    else if options == "" then (if LiteralUrl(urlArg) then Some("GET") else None)
    else
      var props := ObjectProperties(options);
      if props.None? then None else Answer(SeeAll(props.value))
  }

  lemma SeeMore(props: seq<string>, k: nat)
    requires k < |props|
    ensures SeeAll(props[..k + 1]) == See(SeeAll(props[..k]), props[k])
  {
    assert props[..k + 1][..k] == props[..k];
  }

  /** The property loop: what the options set the method to, or that a shorthand hides it. */
  method ReadProperties(props: seq<string>) returns (seen: Seen)
    ensures seen == SeeAll(props)
  {
    var value: Option<string>, unreadable := None, false;
    for k := 0 to |props|
      invariant SeeAll(props[..k]) == Seen(value, unreadable)
    {
      SeeMore(props, k);
      var t := Strip(props[k]);
      if StartsWith(t, "...") || StartsWith(t, "[") {
        unreadable := true;
      } else if MethodValue(t).Some? {
        value := MethodValue(t);
      } else if t == "method" {
        ShorthandStays(props, k + 1);
        return Shorthand;
      }
    }
    assert props[..|props|] == props;
    return Seen(value, unreadable);
  }

  /** `requestCtor` is the outcome of the search for `new Request(` in the url argument. */
  method ResolveMethod(requestCtor: bool, urlArg: string, options: string) returns (res: Option<string>)
    ensures res == Resolved(requestCtor, urlArg, options)
  {
    if requestCtor {
      return None;
    }
    if options == "" {
      return if LiteralUrl(urlArg) then Some("GET") else None;
    }
    var text := Strip(options);
    if text == "" || text[0] != '{' || text[|text| - 1] != '}' {
      return None;
    }
    var props := SplitTopLevelArgs(text[1..if |text| == 1 then 1 else |text| - 1]);
    var seen := ReadProperties(props);
    if seen.Shorthand? {
      return None;
    }
    if seen.value.Some? {
      var word := QuotedWord(seen.value.value);
      return if word.Some? then Some(Upper(word.value)) else None;
    }
    if seen.unreadable {
      return None;
    }
    return Some("GET");
  }

  lemma {:induction false} ShorthandStays(props: seq<string>, k: nat)
    requires k <= |props| && SeeAll(props[..k]).Shorthand?
    ensures SeeAll(props).Shorthand?
    decreases |props|
  {
    if k == |props| {
      assert props[..k] == props;
    } else {
      assert props[..|props| - 1][..k] == props[..k];
      ShorthandStays(props[..|props| - 1], k);
    }
  }

  // ---------------------------------------------------------------- the text of a property is trimmed

  /** Its first character is `c`, and neither end is whitespace. */
  predicate Opens(text: string, c: char) {
    Trimmed(text) && text[0] == c
  }

  lemma OpensWith(a: string, b: string)
    requires a != "" && !IsSpace(a[0]) && b != "" && !IsSpace(b[|b| - 1])
    ensures Opens(a + b, a[0])
  {
  }

  lemma ColonEnds(gap: string, gap2: string, value: string)
    requires Trimmed(value)
    ensures Colon(gap, gap2, value) != "" && !IsSpace(Colon(gap, gap2, value)[|Colon(gap, gap2, value)| - 1])
  {
  }

  /** A key is a word without whitespace at its ends, and only one in brackets begins with a bracket. */
  lemma KeyOpens(key: Key)
    requires key.WellFormed()
    ensures Trimmed(key.Text()) && (key.Brackets? <==> key.Text()[0] == '[')
    ensures !StartsWith(key.Text(), "..")
  {
    if key.Plain? || key.Numeric? {
      assert !IsSpace(key.raw[|key.raw| - 1]);
    }
  }

  lemma TextOpens(e: Entry)
    requires e.WellFormed()
    ensures Trimmed(e.Text()) && Strip(e.Text()) == e.Text()
    ensures e.Text()[0] == First(e)
  {
    match e {
      case Value(key, gap, gap2, value) =>
        KeyOpens(key);
        ColonEnds(gap, gap2, value);
        OpensWith(key.Text(), Colon(gap, gap2, value));
      case Short(raw, _) => assert !IsSpace(raw[0]) && !IsSpace(raw[|raw| - 1]);
      case Spread(gap, expr) => OpensWith("...", gap + expr);
      case Member(_, _, _, _, _) => MemberOpens(e);
    }
    StripTrimmed(e.Text());
  }

  function First(e: Entry): char
    requires e.WellFormed()
  {
    match e
    case Value(key, _, _, _) => KeyOpens(key); key.Text()[0]
    case Short(raw, _) => raw[0]
    case Spread(_, _) => '.'
    case Member(word, _, key, _, _) => KeyOpens(key); if word == "" then key.Text()[0] else word[0]
  }

  lemma MemberOpens(e: Entry)
    requires e.WellFormed() && e.Member?
    ensures Opens(e.Text(), First(e))
  {
    var inner := e.key.Text() + (e.gap2 + e.tail);
    KeyOpens(e.key);
    OpensWith(e.key.Text(), e.gap2 + e.tail);
    if e.word == "" {
      assert e.word + e.gap == "";
      assert "" + inner == inner;
    } else {
      OpensWith(e.word + e.gap, inner);
    }
  }

  // ---------------------------------------------------------------- what the reader sees of it

  /** Where a key ends and something else begins, the regex reads the key `method` and no other. */
  lemma KeyRead(key: string, rest: string)
    requires Identifier(key) && (rest == "" || !IdentChar(rest[0]))
    ensures MethodValue(key + rest) == if key == "method" then ColonValue(rest) else None
  {
    var text := key + rest;
    if key == "method" {
      assert text[6..] == rest;
    } else if StartsWith(text, "method") {
      KeyIsLonger(key, rest);
      assert text[6..][0] == key[6];
    }
  }

  lemma KeyIsLonger(key: string, rest: string)
    requires Identifier(key) && (rest == "" || !IdentChar(rest[0]))
    requires StartsWith(key + rest, "method") && key != "method"
    ensures |key| > 6
  {
    var text, word := key + rest, "method";
    assert forall k | 0 <= k < 6 :: IdentChar(word[k]) && word[k] == text[k];
    assert text[..|key|] == key && text[..6] == word;
    assert rest != "" ==> text[|key|] == rest[0];
  }

  lemma ColonRead(gap: string, gap2: string, value: string)
    requires AllSpace(gap) && AllSpace(gap2) && Trimmed(value)
    ensures ColonValue(Colon(gap, gap2, value)) == Some(value)
  {
    var rest := ":" + (gap2 + value);
    assert Colon(gap, gap2, value) == gap + rest;
    LStripPadding(gap, rest);
    assert rest[1..] == gap2 + value;
    StripLeft(gap2, value);
  }

  lemma NoColonRead(gap: string, tail: string)
    requires AllSpace(gap) && tail != "" && tail[0] == '('
    ensures ColonValue(gap + tail) == None
  {
    LStripPadding(gap, tail);
  }

  /** The property loop passes over the text. */
  predicate Ignored(text: string) {
    !StartsWith(text, "...") && !StartsWith(text, "[") && MethodValue(text).None? && text != "method"
  }

  lemma IgnoredByFirst(text: string, c: char)
    requires Opens(text, c) && c != '.' && c != '[' && c != 'm'
    ensures Ignored(text)
  {
  }

  /** A word of letters is no text that holds another character. */
  lemma NotTheWord(text: string, k: nat)
    requires k < |text| && !IsLetter(text[k])
    ensures text != "method"
  {
    assert forall i | 0 <= i < 6 :: IsLetter("method"[i]);
  }

  lemma CallIgnored(key: string, gap: string, tail: string)
    requires Identifier(key) && AllSpace(gap) && tail != "" && tail[0] == '('
    ensures Ignored(key + (gap + tail))
  {
    var rest := gap + tail;
    assert IdentChar(key[0]) && !IdentChar(rest[0]);
    assert (key + rest)[0] == key[0] && (key + rest)[|key|] == rest[0];
    KeyRead(key, rest);
    NoColonRead(gap, tail);
    NotTheWord(key + rest, |key|);
  }

  /** A number, in front of anything. */
  lemma NumberIgnored(raw: string, rest: string)
    requires Number(raw)
    ensures Ignored(raw + rest)
  {
    assert (raw + rest)[0] == raw[0] && (|raw| > 1 ==> (raw + rest)[1] == raw[1]);
  }

  /** The reader's four cases, by the form of the entry. */
  predicate Hides(e: Entry) {
    e.Spread? || (e.Value? && e.key.Brackets?) || (e.Member? && e.key.Brackets? && e.word == "")
  }

  predicate IsMethodKey(e: Entry) {
    e.Value? && e.key == Plain("method", "method")
  }

  function SeeEntry(seen: Seen, e: Entry): Seen {
    if seen.Shorthand? then seen
    else if Hides(e) then Seen(seen.value, true)
    else if IsMethodKey(e) then Seen(Some(e.value), seen.unreadable)
    else if e == Short("method", "method") then Shorthand
    else seen
  }

  /** A text that neither hides nor names the method leaves the reader as it is. */
  lemma SeesIgnored(seen: Seen, text: string)
    requires Strip(text) == text && Ignored(text)
    ensures See(seen, text) == seen
  {
  }

  lemma SeesHidden(seen: Seen, text: string)
    requires Strip(text) == text && text != "" && text[0] == '['
    ensures See(seen, text) == if seen.Shorthand? then seen else Seen(seen.value, true)
  {
  }

  lemma SeesPlain(seen: Seen, e: Entry)
    requires e.WellFormed() && e.Value? && e.key.Plain?
    ensures See(seen, e.Text()) == SeeEntry(seen, e)
  {
    TextOpens(e);
    PlainRead(e.key.raw, e.gap, e.gap2, e.value);
  }

  lemma PlainRead(raw: string, gap: string, gap2: string, value: string)
    requires Identifier(raw) && AllSpace(gap) && AllSpace(gap2) && Trimmed(value)
    ensures var text := raw + Colon(gap, gap2, value);
      MethodValue(text) == (if raw == "method" then Some(value) else None) && text != "method"
  {
    var rest := Colon(gap, gap2, value);
    KeyRead(raw, rest);
    ColonRead(gap, gap2, value);
    assert (raw + rest)[|raw| + |gap|] == rest[|gap|] == ':';
    NotTheWord(raw + rest, |raw| + |gap|);
  }

  lemma SeesValue(seen: Seen, e: Entry)
    requires e.WellFormed() && e.Value? && !e.key.Plain?
    ensures See(seen, e.Text()) == SeeEntry(seen, e)
  {
    TextOpens(e);
    if e.key.Brackets? {
      SeesHidden(seen, e.Text());
    } else {
      if e.key.InQuotes? {
        IgnoredByFirst(e.Text(), e.key.quote);
      } else {
        NumberIgnored(e.key.raw, Colon(e.gap, e.gap2, e.value));
      }
      SeesIgnored(seen, e.Text());
    }
  }

  lemma SeesShort(seen: Seen, e: Entry)
    requires e.WellFormed() && e.Short?
    ensures See(seen, e.Text()) == SeeEntry(seen, e)
  {
    TextOpens(e);
    KeyRead(e.raw, "");
    assert e.raw + "" == e.raw;
  }

  lemma MemberIgnored(e: Entry)
    requires e.WellFormed() && e.Member? && !Hides(e)
    ensures Ignored(e.Text())
  {
    TextOpens(e);
    if e.word != "" {
      IgnoredByFirst(e.Text(), e.word[0]);
    } else if e.key.InQuotes? {
      IgnoredByFirst(e.Text(), e.key.quote);
    } else {
      var raw, rest := e.key.Text(), e.gap2 + e.tail;
      assert e.Text() == raw + rest;
      if e.key.Plain? {
        CallIgnored(raw, e.gap2, e.tail);
      } else {
        NumberIgnored(raw, rest);
      }
    }
  }

  lemma SeesEntry(seen: Seen, e: Entry)
    requires e.WellFormed()
    ensures See(seen, e.Text()) == SeeEntry(seen, e)
  {
    TextOpens(e);
    match e {
      case Value(key, _, _, _) => if key.Plain? { SeesPlain(seen, e); } else { SeesValue(seen, e); }
      case Short(_, _) => SeesShort(seen, e);
      case Spread(_, _) =>
      case Member(_, _, _, _, _) =>
        if Hides(e) {
          SeesHidden(seen, e.Text());
        } else {
          MemberIgnored(e);
          SeesIgnored(seen, e.Text());
        }
    }
  }

  function SeeEntries(es: seq<Entry>): Seen {
    if es == [] then Seen(None, false) else SeeEntry(SeeEntries(es[..|es| - 1]), es[|es| - 1])
  }

  // ---------------------------------------------------------------- soundness

  lemma {:induction false} QuotedRun(value: string, i: nat, m: Lex)
    requires 0 < i < |value| && Lexes(value, i, m, "")
    requires m == AtTemplate || (m.AtString? && IsQuote(m.quote))
    requires forall k | i <= k < |value| - 1 :: IsLetter(value[k])
    requires IsQuote(value[|value| - 1])
    ensures value[|value| - 1] == if m == AtTemplate then '`' else m.quote
    decreases |value| - i
  {
    if i < |value| - 1 {
      assert IsLetter(value[i]);
      QuotedRun(value, i + 1, m);
    }
  }

  /** In an expression the word that the regex reads is the value of the string. */
  lemma QuotesMatch(value: string)
    requires Expression(value) && QuotedWord(value).Some?
    ensures StringValue(value) == QuotedWord(value)
  {
    QuotedRun(value, 1, if value[0] == '`' then AtTemplate else AtString(value[0]));
  }

  predicate AllWellFormed(es: seq<Entry>) {
    es == [] || (AllWellFormed(es[..|es| - 1]) && es[|es| - 1].WellFormed())
  }

  /** The last entry that can change the method. */
  function LastSetter(es: seq<Entry>): Option<Entry> {
    if es == [] then None
    else if es[|es| - 1].Effect() != Nothing then Some(es[|es| - 1])
    else LastSetter(es[..|es| - 1])
  }

  /** Nothing that can change the method: nothing is read, and the method is GET. */
  lemma {:induction false} NoSetter(es: seq<Entry>)
    requires LastSetter(es).None?
    ensures SeeEntries(es) == Seen(None, false) && Settled(es, "GET")
    decreases |es|
  {
    if es != [] { NoSetter(es[..|es| - 1]); }
  }

  /** A `method:` key that is the last setter is what the reader ends with, and what settles the method. */
  lemma {:induction false} SetterIsSeen(es: seq<Entry>, m: string)
    requires LastSetter(es).Some? && IsMethodKey(LastSetter(es).value) && !SeeEntries(es).Shorthand?
    ensures SeeEntries(es).value == Some(LastSetter(es).value.value)
    ensures AllWellFormed(es) ==> LastSetter(es).value.WellFormed()
    ensures Says(StringValue(LastSetter(es).value.value), m) ==> Settled(es, m)
    decreases |es|
  {
    var n := |es| - 1;
    if es[n].Effect() == Nothing {
      SetterIsSeen(es[..n], m);
    }
  }

  /** What the reader knows suffices when no entry can change the method, or a `method:` key is the last that can. */
  lemma LastSetterSettles(es: seq<Entry>, m: string)
    requires AllWellFormed(es) && Answer(SeeEntries(es)) == Some(m)
    requires LastSetter(es).None? || IsMethodKey(LastSetter(es).value)
    ensures Settled(es, m)
  {
    if LastSetter(es).None? {
      NoSetter(es);
    } else {
      SetterIsSeen(es, m);
      QuotesMatch(LastSetter(es).value.value);
    }
  }

  lemma AnswerNotEmpty(seen: Seen)
    requires Answer(seen).Some?
    ensures Answer(seen).value != ""
  {
  }

  // ---------------------------------------------------------------- the printed literal

  /** The item is the entry's text, with whitespace around it. */
  predicate Fits(item: Padded, e: Entry) {
    e.WellFormed() && item.arg == e.Text() && AllSpace(item.left) && AllSpace(item.right)
  }

  predicate AllFit(items: seq<Padded>, entries: seq<Entry>)
    requires |items| == |entries|
  {
    items == [] ||
    (AllFit(items[..|items| - 1], entries[..|items| - 1]) && Fits(items[|items| - 1], entries[|items| - 1]))
  }

  /** The whole options literal, printed with any whitespace, and with or without a comma at its end. */
  ghost predicate Prints(options: string, entries: seq<Entry>, items: seq<Padded>, rest: seq<string>,
                         l: string, r: string) {
    && AllSpace(l) && AllSpace(r) && Trailing(rest)
    && options == l + ("{" + Join(Wholes(items) + rest, ',') + "}") + r
    && |items| == |entries| && AllFit(items, entries)
  }

  lemma {:induction false} ItemsStrip(items: seq<Padded>, entries: seq<Entry>)
    requires |items| == |entries| && AllFit(items, entries)
    ensures AllStrip(items)
  {
    if items != [] {
      var n := |items| - 1;
      ItemsStrip(items[..n], entries[..n]);
      TextOpens(entries[n]);
    }
  }

  lemma {:induction false} ItemsWellFormed(items: seq<Padded>, entries: seq<Entry>)
    requires |items| == |entries| && AllFit(items, entries)
    ensures AllWellFormed(entries)
  {
    if items != [] {
      var n := |items| - 1;
      ItemsWellFormed(items[..n], entries[..n]);
    }
  }

  lemma {:induction false} ItemsSeen(items: seq<Padded>, entries: seq<Entry>)
    requires |items| == |entries| && AllFit(items, entries)
    ensures |Args(items)| == |items| && SeeAll(Args(items)) == SeeEntries(entries)
  {
    if items != [] {
      var n := |items| - 1;
      ItemsSeen(items[..n], entries[..n]);
      SeesEntry(SeeEntries(entries[..n]), entries[n]);
      assert Args(items)[..n] == Args(items[..n]);
    }
  }

  /** What stands between the braces, whatever it is. */
  lemma ReadsBraces(options: string, inner: string, l: string, r: string)
    requires AllSpace(l) && AllSpace(r) && options == l + ("{" + inner + "}") + r
    ensures ObjectProperties(options) == Some(Trim(Pieces(inner, 0, Code, 0, "")))
    ensures options != ""
  {
    var body := "{" + inner + "}";
    StripPadded(l, body, r);
    assert body[1..|body| - 1] == inner;
  }

  /** Reading the printed literal, if the splitter can tell its properties apart, sees exactly its entries. */
  lemma ReadsPrinted(options: string, entries: seq<Entry>, items: seq<Padded>, rest: seq<string>, l: string, r: string)
    requires Prints(options, entries, items, rest, l, r) && Separate(Wholes(items) + rest)
    ensures forall url :: Resolved(false, url, options) == Answer(SeeEntries(entries))
    ensures AllWellFormed(entries)
  {
    ReadsBraces(options, Join(Wholes(items) + rest, ','), l, r);
    ItemsStrip(items, entries);
    ItemsWellFormed(items, entries);
    ItemsSeen(items, entries);
    SplitPrinted(items, rest);
  }

  /**
   For every printed options literal whose properties the splitter can tell apart and that `resolve_method`
   gives an answer on: the answer is the method of the evaluated literal, up to letter case and for every
   outcome of its expressions, if and only if the literal is settled on it. It is, if no entry can change the
   method or the last one that can is a `method:` key that the reader knows.
   */
  lemma AnswerIsSound(options: string, url: string, entries: seq<Entry>, items: seq<Padded>, rest: seq<string>,
                      l: string, r: string)
    requires Prints(options, entries, items, rest, l, r) && Separate(Wholes(items) + rest)
    requires Resolved(false, url, options).Some?
    ensures AlwaysYields(entries, Resolved(false, url, options).value)
       <==> Settled(entries, Resolved(false, url, options).value)
    ensures LastSetter(entries).None? || IsMethodKey(LastSetter(entries).value)
        ==> Settled(entries, Resolved(false, url, options).value)
  {
    ReadsPrinted(options, entries, items, rest, l, r);
    var m := Answer(SeeEntries(entries)).value;
    AnswerNotEmpty(SeeEntries(entries));
    YieldsIffSettled(entries, m);
    if LastSetter(entries).None? || IsMethodKey(LastSetter(entries).value) {
      LastSetterSettles(entries, m);
    }
  }

  // ---------------------------------------------------------------- when there is an answer

  /** What the reader has seen of the entries, entry by entry. */
  lemma {:induction false} SeenIs(es: seq<Entry>)
    ensures SeeEntries(es).Shorthand? <==> Short("method", "method") in es
    ensures SeeEntries(es).Seen? ==> (SeeEntries(es).unreadable <==> exists e :: e in es && Hides(e))
    ensures SeeEntries(es).Seen? ==> SeeEntries(es).value == ReadValue(es)
  {
    if es != [] {
      SeenIs(es[..|es| - 1]);
      assert es == es[..|es| - 1] + [es[|es| - 1]];
    }
  }

  /** The value of the last unquoted `method:` key. */
  function ReadValue(es: seq<Entry>): Option<string> {
    if es == [] then None
    else
      var e := es[|es| - 1];
      if e.Value? && e.key == Plain("method", "method") then Some(e.value) else ReadValue(es[..|es| - 1])
  }

  /** The property hides its name: a spread, or a computed key that comes first. */
  predicate HidesName(e: Entry) {
    e.Spread? || (e.Value? && e.key.Brackets?) || (e.Member? && e.key.Brackets? && e.word == "")
  }

  /**
   What is answered for a printed literal: nothing for a `method` shorthand; for unquoted `method:` keys the
   letters in quotes of the last one's value, in capitals, or nothing if it is no such string; without such a
   key GET, or nothing if some property hides its name.
   */
  lemma AnswerIs(options: string, url: string, entries: seq<Entry>, items: seq<Padded>, rest: seq<string>,
                 l: string, r: string)
    requires Prints(options, entries, items, rest, l, r) && Separate(Wholes(items) + rest)
    ensures Resolved(false, url, options) ==
            if Short("method", "method") in entries then None
            else if ReadValue(entries).Some? then
              var word := StringValue(ReadValue(entries).value);
              if word.Some? then Some(Upper(word.value)) else None
            else if exists e :: e in entries && HidesName(e) then None
            else Some("GET")
  {
    ReadsPrinted(options, entries, items, rest, l, r);
    SeenIs(entries);
    if ReadValue(entries).Some? {
      ReadValueIsExpression(entries);
      WordIsString(ReadValue(entries).value);
    }
  }

  lemma {:induction false} ReadValueIsExpression(es: seq<Entry>)
    requires AllWellFormed(es) && ReadValue(es).Some?
    ensures Expression(ReadValue(es).value)
  {
    var e := es[|es| - 1];
    if !(e.Value? && e.key == Plain("method", "method")) { ReadValueIsExpression(es[..|es| - 1]); }
  }

  lemma WordIsString(value: string)
    requires Expression(value)
    ensures StringValue(value) == QuotedWord(value)
  {
    if QuotedWord(value).Some? { QuotesMatch(value); }
  }

  /** A string or template literal behind whitespace. */
  ghost predicate QuotedUrl(url: string) {
    exists l, q, rest :: AllSpace(l) && (q == '\'' || q == '"' || q == '`') && url == l + [q] + rest
  }

  lemma UrlIsQuoted(url: string)
    ensures LiteralUrl(url) <==> QuotedUrl(url)
  {
    var l := LStripSuffix(url);
    if LiteralUrl(url) {
      var s := LStrip(url);
      assert url == l + [s[0]] + s[1..];
    }
    if l, q, rest :| AllSpace(l) && (q == '\'' || q == '"' || q == '`') && url == l + [q] + rest {
      Regroup(l, [q], rest);
      LStripPadding(l, [q] + rest);
    }
  }

  /**
   A call without options is answered if and only if its url is a literal, and the answer is what a request
   without options yields; a call with `new Request` in its url is never answered, nor one whose options are no
   object literal.
   */
  lemma WithoutLiteral(url: string, options: string)
    ensures Resolved(false, url, "").Some? <==> QuotedUrl(url)
    ensures Resolved(false, url, "").Some? ==> AlwaysYields([], Resolved(false, url, "").value)
    ensures Resolved(true, url, options).None?
    ensures options != "" && Resolved(false, url, options).Some? ==>
              var s := Strip(options); s != "" && s[0] == '{' && s[|s| - 1] == '}'
  {
    UrlIsQuoted(url);
    UpperGet();
  }

  // ---------------------------------------------------------------- literals answered wrongly

  /** The entries' texts, and the entries printed without any space around them. */
  function Texts(es: seq<Entry>): seq<string> {
    if es == [] then [] else Texts(es[..|es| - 1]) + [es[|es| - 1].Text()]
  }

  function Bares(es: seq<Entry>): seq<Padded> {
    if es == [] then [] else Bares(es[..|es| - 1]) + [Padded("", es[|es| - 1].Text(), "")]
  }

  lemma {:induction false} BaresFit(es: seq<Entry>)
    requires AllWellFormed(es)
    ensures |Bares(es)| == |es| && AllFit(Bares(es), es) && Wholes(Bares(es)) == Texts(es)
  {
    if es != [] {
      var n := |es| - 1;
      BaresFit(es[..n]);
      BareWhole(es[n]);
      assert Bares(es)[..n] == Bares(es[..n]);
    }
  }

  lemma BareWhole(e: Entry)
    ensures Padded("", e.Text(), "").Whole() == e.Text()
  {
  }

  lemma PrintsBare(options: string, es: seq<Entry>)
    requires AllWellFormed(es) && options == "{" + Join(Texts(es), ',') + "}"
    ensures Prints(options, es, Bares(es), [], "", "") && Wholes(Bares(es)) + [] == Texts(es)
  {
    BaresFit(es);
    assert Wholes(Bares(es)) + [] == Texts(es);
    assert "" + options + "" == options;
  }

  lemma OneEntry(url: string, options: string, e: Entry)
    requires e.WellFormed() && options == "{" + e.Text() + "}" && CommaFree(e.Text(), 0, Code, 0)
    ensures Prints(options, [e], Bares([e]), [], "", "") && SeeEntries([e]) == SeeEntry(Seen(None, false), e)
    ensures Resolved(false, url, options) == Answer(SeeEntries([e]))
  {
    assert [e][..0] == [] && Texts([e]) == [e.Text()];
    assert Join([e.Text()], ',') == e.Text() && Separate([e.Text()]);
    PrintsBare(options, [e]);
    ReadsPrinted(options, [e], Bares([e]), [], "", "");
  }

  lemma JoinTwo(a: string, b: string)
    ensures Join([a, b], ',') == a + "," + b
  {
    assert [a, b][1..] == [b] && Join([b], ',') == b;
  }

  lemma SeparateTwo(a: string, b: string)
    requires CommaFree(a, 0, Code, 0) && Closed(a, 0, Code, 0) && CommaFree(b, 0, Code, 0)
    ensures Separate([a, b])
  {
    assert [a, b][1..] == [b] && Separate([b]);
  }

  lemma TextsMore(es: seq<Entry>, e: Entry)
    ensures Texts(es + [e]) == Texts(es) + [e.Text()] && SeeEntries(es + [e]) == SeeEntry(SeeEntries(es), e)
    ensures AllWellFormed(es) && e.WellFormed() ==> AllWellFormed(es + [e])
  {
    assert (es + [e])[..|es|] == es;
  }

  lemma TextsOfTwo(e: Entry, f: Entry)
    ensures Texts([e, f]) == [e.Text(), f.Text()]
    ensures SeeEntries([e, f]) == SeeEntry(SeeEntry(Seen(None, false), e), f)
    ensures e.WellFormed() && f.WellFormed() ==> AllWellFormed([e, f])
  {
    TextsMore([], e);
    TextsMore([e], f);
    assert [] + [e] == [e] && [e] + [f] == [e, f] && ([] + [e.Text()]) + [f.Text()] == [e.Text(), f.Text()];
  }

  lemma TwoEntries(url: string, options: string, e: Entry, f: Entry)
    requires e.WellFormed() && f.WellFormed() && options == "{" + (e.Text() + "," + f.Text()) + "}"
    requires Separate([e.Text(), f.Text()])
    ensures Prints(options, [e, f], Bares([e, f]), [], "", "")
    ensures SeeEntries([e, f]) == SeeEntry(SeeEntry(Seen(None, false), e), f)
    ensures Resolved(false, url, options) == Answer(SeeEntries([e, f]))
  {
    TextsOfTwo(e, f);
    JoinTwo(e.Text(), f.Text());
    PrintsBare(options, [e, f]);
    ReadsPrinted(options, [e, f], Bares([e, f]), [], "", "");
  }

  /** A character that the splitter moves past. */
  predicate Dull(m: Mode, c: char) {
    !IsQuote(c) && c != '\\' && (m == Code ==> !IsOpen(c) && !IsClose(c) && c != ',')
  }

  lemma {:induction false} DullRun(w: string, i: nat, j: nat, m: Mode, d: int)
    requires i <= j <= |w| && (m == Code || m == Single) && forall k | i <= k < j :: Dull(m, w[k])
    ensures CommaFree(w, i, m, d) == CommaFree(w, j, m, d) && Closed(w, i, m, d) == Closed(w, j, m, d)
    decreases j - i
  {
    if i < j {
      assert Dull(m, w[i]);
      DullRun(w, i + 1, j, m, d);
    }
  }

  /** The same for JavaScript's own lexer: letters and colons. */
  lemma {:induction false} LexRun(s: string, i: nat, j: nat, m: Lex, open: string)
    requires i <= j <= |s| && (m == AtCode || m == AtString('\''))
    requires forall k | i <= k < j :: IsLetter(s[k]) || s[k] == ':'
    ensures Lexes(s, i, m, open) == Lexes(s, j, m, open)
    decreases j - i
  {
    if i < j {
      LexRun(s, i + 1, j, m, open);
    }
  }

  /** A quoted verb, from `i` to `j`. */
  lemma LexVerb(s: string, i: nat, j: nat, open: string)
    requires i + 1 < j <= |s| && s[i] == s[j - 1] == '\'' && forall k | i < k < j - 1 :: IsLetter(s[k])
    ensures Lexes(s, i, AtCode, open) == Lexes(s, j, AtCode, open)
  {
    LexRun(s, i + 1, j - 1, AtString('\''), open);
    assert Lexes(s, j - 1, AtString('\''), open) == Lexes(s, j, AtCode, open);
  }

  lemma DullVerb(s: string, i: nat, j: nat, d: int)
    requires i + 1 < j <= |s| && s[i] == s[j - 1] == '\'' && forall k | i < k < j - 1 :: IsLetter(s[k])
    ensures CommaFree(s, i, Code, d) == CommaFree(s, j, Code, d) && Closed(s, i, Code, d) == Closed(s, j, Code, d)
  {
    DullRun(s, i + 1, j - 1, Single, d);
    assert CommaFree(s, j - 1, Single, d) == CommaFree(s, j, Code, d);
    assert Closed(s, j - 1, Single, d) == Closed(s, j, Code, d);
  }

  predicate Letters(s: string) {
    s != "" && forall k | 0 <= k < |s| :: IsLetter(s[k])
  }

  lemma VerbForm(verb: string, v: string)
    requires Letters(verb) && v == "'" + verb + "'"
    ensures Expression(v) && QuotedWord(v) == StringValue(v) == Some(verb)
  {
    assert forall k | 0 < k < |v| - 1 :: v[k] == verb[k - 1];
    LexVerb(v, 0, |v|, "");
    assert v[1..|v| - 1] == verb;
  }

  /** `name:value`, without any space. */
  function Property(name: string, value: string): Entry {
    Value(Plain(name, name), "", "", value)
  }

  lemma PropertyText(name: string, value: string)
    ensures Property(name, value).Text() == name + ":" + value
  {
    assert Colon("", "", value) == ":" + value;
    Regroup(name, ":", value);
  }

  /** `method:'V'` */
  lemma MethodEntry(verb: string, text: string) returns (e: Entry)
    requires Letters(verb) && text == "method:'" + verb + "'"
    ensures e.WellFormed() && e.Text() == text && IsMethodKey(e) && QuotedWord(e.value) == Some(verb)
    ensures e.Effect() == Data(Some(verb)) && e.Sure()
  {
    var v := "'" + verb + "'";
    VerbForm(verb, v);
    e := Property("method", v);
    PropertyText("method", v);
    assert "method" + ":" + v == text;
  }

  lemma MethodSplits(verb: string, text: string)
    requires Letters(verb) && text == "method:'" + verb + "'"
    ensures CommaFree(text, 0, Code, 0) && Closed(text, 0, Code, 0)
  {
    assert forall k | 7 < k < |text| - 1 :: text[k] == verb[k - 8];
    DullVerb(text, 7, |text|, 0);
    DullRun(text, 0, 7, Code, 0);
  }

  /** A verb of letters is answered in capitals, letter by letter; `post` is POST. */
  lemma VerbInCapitals(url: string, options: string, verb: string) returns (es: seq<Entry>)
    requires Letters(verb) && options == "{method:'" + verb + "'}"
    ensures Prints(options, es, Bares(es), [], "", "") && Resolved(false, url, options).Some?
    ensures var m := Resolved(false, url, options).value;
      && AlwaysYields(es, m) && |m| == |verb|
      && forall k | 0 <= k < |m| :: m[k] == if 'a' <= verb[k] <= 'z' then verb[k] - 'a' + 'A' else verb[k]
    ensures verb == "post" ==> Resolved(false, url, options) == Some("POST")
  {
    hide Resolved, Upper, Settled, AlwaysYields, Prints, Answer, SeeEntry, SeeEntries, CommaFree, Bares, QuotedWord;
    hide Entry.WellFormed, Entry.Text, Entry.Effect, Entry.Sure;
    var text := "method:'" + verb + "'";
    var e := MethodEntry(verb, text);
    MethodSplits(verb, text);
    VerbText(options, verb, text);
    OneEntry(url, options, e);
    es := [e];
    UpperIs(verb);
    PostIs();
    VerbSettles(e, verb);
    YieldsIffSettled(es, Upper(verb));
  }

  lemma PostIs()
    ensures Upper("post") == "POST"
  {
    UpperIs("post");
  }

  lemma VerbText(options: string, verb: string, text: string)
    requires options == "{method:'" + verb + "'}" && text == "method:'" + verb + "'"
    ensures options == "{" + text + "}"
  {
  }

  lemma VerbSettles(e: Entry, verb: string)
    requires e.WellFormed() && IsMethodKey(e) && QuotedWord(e.value) == Some(verb)
    requires e.Effect() == Data(Some(verb)) && e.Sure()
    ensures Settled([e], Upper(verb)) && Answer(SeeEntry(Seen(None, false), e)) == Some(Upper(verb))
  {
  }

  lemma {:induction false} UpperIs(s: string)
    ensures |Upper(s)| == |s|
    ensures forall k | 0 <= k < |s| :: Upper(s)[k] == if 'a' <= s[k] <= 'z' then s[k] - 'a' + 'A' else s[k]
  {
    if s != "" { UpperIs(s[1..]); }
  }

  /** `...o` */
  lemma SpreadEntry() returns (e: Entry)
    ensures e.WellFormed() && e.Text() == "...o" && e.Spread?
    ensures CommaFree(e.Text(), 0, Code, 0)
  {
    e := Spread("", "o");
    LexRun("o", 0, 1, AtCode, "");
    assert "" + "o" == "o";
    DullRun(e.Text(), 0, 4, Code, 0);
  }

  /**
   `{method:'V',...o}` is answered with its verb, whatever it is, and evaluates to any other one when `o` sets
   that.
   */
  lemma SpreadBehindMethod(url: string, options: string, verb: string, other: string)
    returns (es: seq<Entry>, env: seq<Unseen>)
    requires Letters(verb) && options == "{method:'" + verb + "',...o}"
    ensures Prints(options, es, Bares(es), [], "", "") && Resolved(false, url, options) == Some(Upper(verb))
    ensures |env| == |es| && Eval(es, env) == other
  {
    var e, f := SpreadEntries(options, verb);
    TwoEntries(url, options, e, f);
    es := [e, f];
    env := SecondDecides(e, f, other);
  }

  lemma SpreadEntries(options: string, verb: string) returns (e: Entry, f: Entry)
    requires Letters(verb) && options == "{method:'" + verb + "',...o}"
    ensures e.WellFormed() && f.WellFormed() && options == "{" + (e.Text() + "," + f.Text()) + "}"
    ensures Separate([e.Text(), f.Text()]) && IsMethodKey(e) && QuotedWord(e.value) == Some(verb) && f.Spread?
  {
    var text := "method:'" + verb + "'";
    e := MethodEntry(verb, text);
    f := SpreadEntry();
    MethodSplits(verb, text);
    SeparateTwo(text, f.Text());
    SpreadText(options, verb, text);
  }

  lemma SpreadText(options: string, verb: string, text: string)
    requires options == "{method:'" + verb + "',...o}" && text == "method:'" + verb + "'"
    ensures options == "{" + (text + "," + "...o") + "}"
  {
  }

  lemma SecondDecides(e: Entry, f: Entry, other: string) returns (env: seq<Unseen>)
    requires f.Spread?
    ensures |env| == |[e, f]| && Eval([e, f], env) == other
  {
    var u, v := Unseen(false, ""), Unseen(true, other);
    env := [u, v];
    Extend([e, f], [u], v);
    assert [u] + [v] == env;
  }

  /** `'method':'V'` */
  lemma QuotedEntry(verb: string, text: string) returns (e: Entry)
    requires Letters(verb) && text == "'method':'" + verb + "'"
    ensures e.WellFormed() && e.Text() == text && !Hides(e) && !IsMethodKey(e) && !e.Short?
    ensures e.Effect() == Data(Some(verb)) && e.Sure()
  {
    var v := "'" + verb + "'";
    VerbForm(verb, v);
    BodyOfLetters('\'', "method");
    e := Value(InQuotes('\'', "method", "method"), "", "", v);
    QuotedText(e.key, v);
    assert "'method'" + (":" + v) == text;
  }

  lemma QuotedText(key: Key, v: string)
    requires key == InQuotes('\'', "method", "method")
    ensures key.Text() == "'method'" && Colon("", "", v) == ":" + v
  {
  }

  lemma {:induction false} BodyOfLetters(quote: char, s: string)
    requires IsQuote(quote) && forall k | 0 <= k < |s| :: IsLetter(s[k])
    ensures Body(quote, s)
  {
    if s != "" { BodyOfLetters(quote, s[1..]); }
  }

  lemma QuotedSplits(verb: string, text: string)
    requires Letters(verb) && text == "'method':'" + verb + "'"
    ensures CommaFree(text, 0, Code, 0)
  {
    assert forall k | 9 < k < |text| - 1 :: text[k] == verb[k - 10];
    DullVerb(text, 9, |text|, 0);
    DullRun(text, 8, 9, Code, 0);
    DullVerb(text, 0, 8, 0);
  }

  lemma UpperNotEmpty(s: string)
    requires s != ""
    ensures Upper(s) != ""
  {
  }

  /** One entry that the reader passes over. */
  lemma OneUnread(url: string, options: string, e: Entry)
    requires e.WellFormed() && options == "{" + e.Text() + "}" && CommaFree(e.Text(), 0, Code, 0)
    requires !Hides(e) && !IsMethodKey(e) && !e.Short?
    ensures Prints(options, [e], Bares([e]), [], "", "") && Resolved(false, url, options) == Some("GET")
  {
    OneEntry(url, options, e);
  }

  /** `{'method':'V'}` is answered GET, and evaluates to its verb, whatever that is. */
  lemma MethodInQuotes(url: string, options: string, verb: string) returns (es: seq<Entry>)
    requires Letters(verb) && options == "{'method':'" + verb + "'}"
    ensures Prints(options, es, Bares(es), [], "", "") && Resolved(false, url, options) == Some("GET")
    ensures AlwaysYields(es, Upper(verb))
  {
    var e := QuotedOptions(options, verb);
    OneUnread(url, options, e);
    es := [e];
    AlwaysSays(e, verb);
  }

  lemma QuotedOptions(options: string, verb: string) returns (e: Entry)
    requires Letters(verb) && options == "{'method':'" + verb + "'}"
    ensures e.WellFormed() && CommaFree(e.Text(), 0, Code, 0) && options == "{" + e.Text() + "}"
    ensures !Hides(e) && !IsMethodKey(e) && !e.Short? && e.Effect() == Data(Some(verb)) && e.Sure()
  {
    var text := QuotedInner(options, verb);
    e := QuotedEntry(verb, text);
    QuotedSplits(verb, text);
  }

  lemma QuotedInner(options: string, verb: string) returns (t: string)
    requires options == "{'method':'" + verb + "'}"
    ensures t == "'method':'" + verb + "'" && options == "{" + t + "}"
  {
    t := "'method':'" + verb + "'";
  }

  lemma AlwaysSays(e: Entry, verb: string)
    requires e.Effect() == Data(Some(verb)) && e.Sure() && verb != ""
    ensures AlwaysYields([e], Upper(verb))
  {
    UpperNotEmpty(verb);
    YieldsIffSettled([e], Upper(verb));
  }

  lemma ObjectForm(verb: string, v: string)
    requires Letters(verb) && v == "{method:'" + verb + "'}"
    ensures Expression(v) && StringValue(v).None?
  {
    var n := |v| - 1;
    assert forall k | 8 < k < n - 1 :: v[k] == verb[k - 9];
    LexVerb(v, 8, n, "{");
    LexRun(v, 1, 8, AtCode, "{");
    BraceCloses(v, n);
    BraceOpens(v);
  }

  lemma BraceOpens(v: string)
    requires v != "" && v[0] == '{'
    ensures Lexes(v, 0, AtCode, "") == Lexes(v, 1, AtCode, "{")
  {
    assert "" + [v[0]] == "{";
  }

  lemma BraceCloses(v: string, n: nat)
    requires |v| == n + 1 && v[n] == '}'
    ensures Lexes(v, n, AtCode, "{")
  {
    assert "{"[..0] == "";
  }

  /** `__proto__:{method:'V'}` */
  lemma ProtoEntry(verb: string, text: string) returns (e: Entry)
    requires Letters(verb) && text == "__proto__:{method:'" + verb + "'}"
    ensures e.WellFormed() && e.Text() == text && !Hides(e) && !IsMethodKey(e) && !e.Short?
    ensures e.Effect() == Prototype
  {
    var v := "{method:'" + verb + "'}";
    ObjectForm(verb, v);
    e := Property("__proto__", v);
    PropertyText("__proto__", v);
    ProtoText(verb, v);
  }

  lemma ProtoText(verb: string, v: string)
    requires v == "{method:'" + verb + "'}"
    ensures "__proto__" + ":" + v == "__proto__:{method:'" + verb + "'}"
  {
  }

  lemma ProtoSplits(verb: string, text: string)
    requires Letters(verb) && text == "__proto__:{method:'" + verb + "'}"
    ensures CommaFree(text, 0, Code, 0)
  {
    ProtoLetters(verb, text);
    var n := |text| - 1;
    DullVerb(text, 18, n, 1);
    DullRun(text, 11, 18, Code, 1);
    BraceAround(text, 10, n);
    DullRun(text, 0, 10, Code, 0);
  }

  lemma ProtoLetters(verb: string, text: string)
    requires Letters(verb) && text == "__proto__:{method:'" + verb + "'}"
    ensures |text| == 21 + |verb| && text[10] == '{' && text[18] == text[|text| - 2] == '\'' && text[|text| - 1] == '}'
    ensures forall k | 0 <= k < 18 && k != 10 :: Dull(Code, text[k])
    ensures forall k | 18 < k < |text| - 2 :: IsLetter(text[k])
  {
    assert text[..19] == "__proto__:{method:'";
    assert forall k | 18 < k < |text| - 2 :: text[k] == verb[k - 19];
  }

  lemma BraceAround(text: string, i: nat, n: nat)
    requires i + 1 < |text| == n + 1 && text[i] == '{' && text[n] == '}'
    ensures CommaFree(text, n, Code, 1) && CommaFree(text, i, Code, 0) == CommaFree(text, i + 1, Code, 1)
  {
  }

  /** `{__proto__:{method:'V'}}` is answered GET, and evaluates to the verb, which is the prototype's. */
  lemma MethodOfPrototype(url: string, options: string, verb: string) returns (es: seq<Entry>)
    requires Letters(verb) && options == "{__proto__:{method:'" + verb + "'}}"
    ensures Prints(options, es, Bares(es), [], "", "") && Resolved(false, url, options) == Some("GET")
    ensures |es| == 1 && Eval(es, [Unseen(true, verb)]) == verb
  {
    var e := ProtoOptions(options, verb);
    OneUnread(url, options, e);
    es := [e];
    Inherits(e, verb);
  }

  lemma ProtoOptions(options: string, verb: string) returns (e: Entry)
    requires Letters(verb) && options == "{__proto__:{method:'" + verb + "'}}"
    ensures e.WellFormed() && CommaFree(e.Text(), 0, Code, 0) && options == "{" + e.Text() + "}"
    ensures !Hides(e) && !IsMethodKey(e) && !e.Short? && e.Effect() == Prototype
  {
    var text := ProtoInner(options, verb);
    e := ProtoEntry(verb, text);
    ProtoSplits(verb, text);
  }

  lemma ProtoInner(options: string, verb: string) returns (t: string)
    requires options == "{__proto__:{method:'" + verb + "'}}"
    ensures t == "__proto__:{method:'" + verb + "'}" && options == "{" + t + "}"
  {
    t := "__proto__:{method:'" + verb + "'}";
  }

  lemma Inherits(e: Entry, verb: string)
    requires e.Effect() == Prototype
    ensures |[e]| == |[Unseen(true, verb)]| && Eval([e], [Unseen(true, verb)]) == verb
  {
    var u := Unseen(true, verb);
    Extend([e], [], u);
    assert [] + [u] == [u] && [e][..0] == [];
  }

  /** A regular expression of one quote, as a property. */
  lemma RegexEntry(name: string) returns (e: Entry)
    requires name == "a" || name == "b"
    ensures e.WellFormed() && e.Text() == name + ":/'/" && e.Effect() == Nothing
  {
    var v := "/'/";
    assert Lexes(v, 3, AtCode, "");
    assert Lexes(v, 2, AtRegex, "");
    assert Lexes(v, 1, AtRegex, "");
    assert v[..0] == "";
    e := Property(name, v);
    PropertyText(name, v);
    assert name + ":" + v == name + ":/'/";
  }

  /** From the quote at `i` to the one at `j` the splitter is inside a string. */
  lemma StringRun(t: string, i: nat, j: nat)
    requires i < j < |t| && t[i] == t[j] == '\'' && forall k | i < k < j :: Dull(Single, t[k])
    ensures CommaFree(t, i, Code, 0) == CommaFree(t, j + 1, Code, 0)
  {
    DullRun(t, i + 1, j, Single, 0);
    assert CommaFree(t, j, Single, 0) == CommaFree(t, j + 1, Code, 0);
  }

  lemma RegexLetters(verb: string, t: string)
    requires Letters(verb) && t == "a:/'/,method:'" + verb + "',b:/'/"
    ensures |t| == 21 + |verb| && t[3] == t[13] == t[|t| - 7] == t[|t| - 2] == '\'' && t[|t| - 1] == '/'
    ensures forall k | 0 <= k < 13 && k != 3 :: Dull(Single, t[k]) && (k < 3 ==> Dull(Code, t[k]))
    ensures forall k | 13 < k < |t| - 7 :: Dull(Code, t[k])
    ensures forall k | |t| - 7 < k < |t| - 2 :: Dull(Single, t[k])
  {
    assert forall k | 13 < k < |t| - 7 :: t[k] == verb[k - 14];
    assert t[..14] == "a:/'/,method:'" && t[|t| - 7..] == "',b:/'/";
  }

  /** To the splitter the quotes of the two regular expressions are those of strings. */
  lemma RegexHidesCommas(verb: string, t: string)
    requires Letters(verb) && t == "a:/'/,method:'" + verb + "',b:/'/"
    ensures CommaFree(t, 0, Code, 0)
  {
    var n := |t|;
    RegexLetters(verb, t);
    DullRun(t, n - 1, n, Code, 0);
    StringRun(t, n - 7, n - 2);
    DullRun(t, 14, n - 7, Code, 0);
    StringRun(t, 3, 13);
    DullRun(t, 0, 3, Code, 0);
  }

  lemma OnePieceSplits(options: string, t: string)
    requires options == "{" + t + "}" && CommaFree(t, 0, Code, 0) && Trimmed(t)
    ensures ObjectProperties(options) == Some([t]) && options != ""
  {
    assert "" + options + "" == options;
    ReadsBraces(options, t, "", "");
    SplitIsExact([t]);
    assert Join([t], ',') == t && [t][..0] == [];
    StripTrimmed(t);
    assert StripAll([t]) == [t];
  }

  /** A literal that the splitter takes for one property which says nothing about the method. */
  lemma OnePiece(url: string, options: string, t: string)
    requires options == "{" + t + "}" && CommaFree(t, 0, Code, 0) && Opens(t, 'a')
    ensures Resolved(false, url, options) == Some("GET")
  {
    OnePieceSplits(options, t);
    StripTrimmed(t);
    IgnoredByFirst(t, 'a');
    SeesIgnored(Seen(None, false), t);
    assert [t][..0] == [] && SeeAll([]) == Seen(None, false);
    assert SeeAll([t]) == Seen(None, false);
  }

  lemma ThreeTexts(e: Entry, f: Entry, g: Entry)
    ensures Join(Texts([e, f, g]), ',') == e.Text() + "," + (f.Text() + "," + g.Text())
    ensures e.WellFormed() && f.WellFormed() && g.WellFormed() ==> AllWellFormed([e, f, g])
  {
    TextsMore([], e);
    TextsMore([e], f);
    TextsMore([e, f], g);
    assert [] + [e] == [e] && [e] + [f] == [e, f] && [e, f] + [g] == [e, f, g];
    JoinThree(e.Text(), f.Text(), g.Text());
    Gather(e.Text(), f.Text(), g.Text());
  }

  lemma Gather(a: string, b: string, c: string)
    ensures (([] + [a]) + [b]) + [c] == [a, b, c]
  {
  }

  lemma JoinThree(a: string, b: string, c: string)
    ensures Join([a, b, c], ',') == a + "," + (b + "," + c)
  {
    assert [a, b, c][1..] == [b, c];
    JoinTwo(b, c);
  }

  lemma SettledBefore(e: Entry, f: Entry, g: Entry, m: string)
    requires f.Effect().Data? && Says(f.Effect().word, m) && f.Sure() && g.Effect() == Nothing
    ensures Settled([e, f, g], m)
  {
    assert [e, f, g][..2] == [e, f];
    assert Settled([e, f], m);
  }

  lemma RegexInner(options: string, verb: string) returns (t: string)
    requires options == "{a:/'/,method:'" + verb + "',b:/'/}"
    ensures t == "a:/'/,method:'" + verb + "',b:/'/" && options == "{" + t + "}" && Opens(t, 'a')
  {
    t := "a:/'/,method:'" + verb + "',b:/'/";
    assert options == "{" + t + "}";
  }

  lemma RegexLiteral(verb: string, t: string) returns (es: seq<Entry>)
    requires Letters(verb) && t == "a:/'/,method:'" + verb + "',b:/'/"
    ensures AllWellFormed(es) && Join(Texts(es), ',') == t && Settled(es, Upper(verb))
  {
    var text := "method:'" + verb + "'";
    var e := RegexEntry("a");
    var f := MethodEntry(verb, text);
    var g := RegexEntry("b");
    es := [e, f, g];
    ThreeTexts(e, f, g);
    RegexText(verb, text, t);
    SettledBefore(e, f, g, Upper(verb));
  }

  lemma RegexText(verb: string, text: string, t: string)
    requires t == "a:/'/,method:'" + verb + "',b:/'/" && text == "method:'" + verb + "'"
    ensures t == ("a" + ":/'/") + "," + (text + "," + ("b" + ":/'/"))
  {
  }

  /**
   `{a:/'/,method:'V',b:/'/}` is answered GET, and evaluates to its verb, whatever that is: the splitter cannot
   tell its properties apart.
   */
  lemma QuoteInRegex(url: string, options: string, verb: string) returns (es: seq<Entry>)
    requires Letters(verb) && options == "{a:/'/,method:'" + verb + "',b:/'/}"
    ensures Prints(options, es, Bares(es), [], "", "") && Resolved(false, url, options) == Some("GET")
    ensures AlwaysYields(es, Upper(verb))
  {
    var t := RegexInner(options, verb);
    es := RegexLiteral(verb, t);
    RegexHidesCommas(verb, t);
    OnePiece(url, options, t);
    PrintsBare(options, es);
    UpperNotEmpty(verb);
    YieldsIffSettled(es, Upper(verb));
  }
}
