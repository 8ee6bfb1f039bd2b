# Verification model of the gates and of three protocols

This project models, in Dafny 4.11, the parts of the repository whose correctness rests on an argument
rather than on wiring:

- the hand-written Go and JavaScript lexers of the static gates under `scripts/`, and the binding of an
  opt-out comment to one Go statement that `scripts/lint-orgid-queries.py` builds on top of them;
- three computations over trees and graphs: the heading tree of the upgrade documents, route prefixes
  (which the repository resolves in three different ways), and the promotion of embedded struct fields;
- the redaction of logged request URIs;
- two concurrency protocols: the cached AI health probe and the bounded fan-out of the worker sweeps;
- the baseline file that a gate rewrites and reads back.

Loops of the source are methods with loops. Each is proved equal to a specification function, or to
satisfy a specification predicate, and the properties the repository promises are lemmas about that
specification. The specifications of the lexers are in turn measured by sources that are printed from a list
of lexical pieces, a grammar that shares no state and no turn with them. Objects whose methods update their
fields (`GoSource`, the memo dictionary of the prefix resolver, the guarded cache variables, the baseline
file) are classes. The protocols are state machines over the steps of the goroutines, with invariants over
every run.

`dafny verify dfyconfig.toml` checks the whole project.

## Files

| file | what it models |
|---|---|
| `PyText.dfy`, `PyLines.dfy` | the text library of Python and Go that the rest uses: strip, split, join, splitlines, sorted, bisect |
| `GoSource.dfy` | the Go character automaton, and the class `GoSource` with its indexes |
| `GoPieces.dfy`, `GoLayout.dfy` | Go files printed from lexical pieces, which the Go lexers are measured by; what the automaton makes of them, and where statements end |
| `Governed.dfy` | which SQL literals an opt-out comment governs |
| `Suppressions.dfy` | where the opt-out comments of a file stand |
| `OrgidScan.dfy` | the verdict over one Go file, from the opt-outs to the reported rows |
| `Closure.dfy`, `Statements.dfy` | families of files, with arbitrary SQL in them: how far one opt-out reaches |
| `JsScanner.dfy`, `JsTraces.dfy` | `strip_comments`, and the states of the three JavaScript scanners |
| `JsArgs.dfy` | bracket matching and argument splitting |
| `JsPieces.dfy` | JavaScript printed from lexical pieces, and what the three scanners make of it |
| `JsOptions.dfy`, `ResolveMethod.dfy` | options literals as JavaScript reads and evaluates them, and the method the gate reads off one |
| `GoComments.dfy` | comment stripping and literal spans of the image-tag gate |
| `GoLiterals.dfy`, `GoNoise.dfy` | the two Go lexers of the module-isolation gate |
| `HeadingTree.dfy` | sections of a document and which of them are judged |
| `GroupPrefixes.dfy` | route prefixes: bounded fixpoint, chain walk, memoised recursion |
| `Embedding.dfy` | promotion of embedded fields |
| `Redaction.dfy` | redaction of logged URIs |
| `HealthCache.dfy`, `FanOut.dfy` | the two protocols |
| `Baseline.dfy` | the baseline ratchet |

## Where the code does less than its documentation says

Each of these is kept as the code has it, with the exact condition under which the promise holds.

- **One probe per time to live** (`backend/cmd/api/server.go:53`). The lock is dropped between the check
  and the store, so overlapping calls all probe: for every `k` there is a run in which `k` probes start
  at the same instant (`HealthCache.OverlappingCallsAllProbe`). What holds in every run is
  `k * (W / TTL + 1)` starts in a window `W`, where `k` is the largest number of calls that are between
  check and store at once (`HealthCache.ProbesPerWindow`). When every call stores within half the time to
  live of its check, the promise holds exactly when no two calls overlap (`HealthCache.OnePerTTLIffAlone`).
- **Line numbers of `string_literals`.** A newline inside an interpreted string or a rune literal is not
  counted. The reported line is right exactly when no such token before the literal holds a newline
  (`GoLiterals.LineIsRight`); `GoLiterals.SwallowedExample` is an input where it is wrong.
- **The properties of an object literal** (`scripts/check_fe_csrf.py:417`). The splitter knows no regular
  expressions, and in a template hole no strings. Splitting gives the properties of a literal back exactly
  when none of them shows it a comma outside brackets, and each but the last leaves it in code and outside
  brackets (`JsArgs.SplitIsExact`). In `{a:/'/,method:'POST',b:/'/}` the two quotes hide both commas, and the
  literal is answered GET (`FetchMethod.QuoteInRegex`).
- **The method of an options literal** (`scripts/check_fe_csrf.py:498`). What the reader does not know can
  change the method without being noticed: a spread or computed key behind a `method:` entry, a `method` key in
  quotes or with escapes, a method or accessor, a `__proto__:` entry. When the properties are split rightly, an
  answer is right for every outcome of the expressions exactly when the literal is settled on it, which is
  read off the entries, the last one first (`FetchMethod.AnswerIsSound`, `JsOptions.Settled`): an entry that
  cannot change the method is passed over; one that holds it decides, if its value is a string of letters that
  says the same, except that a spread or computed key leaves open what stands before it; a getter never
  settles it; a setter gives GET unless a getter stays in force; a `__proto__:` entry counts unless the object
  has a `method` of its own. In particular an answer is right when no entry can change the method, or the last
  one that can is an unquoted `method:` key. `FetchMethod.SpreadBehindMethod`, `FetchMethod.MethodInQuotes` and
  `FetchMethod.MethodOfPrototype` are texts that are or can be answered wrongly, for every verb but GET.
- **Embedded fields as a fixpoint** (`scripts/check_fe_be_fields.py:176`). The loop stops after eight
  rounds. Whatever the iteration order, the result is the closure exactly when every tag of the closure has
  a path of embeddings that takes at most eight rounds, where a path begins a new round wherever its next
  embedding does not come later in the order than the one before (`Embedding.LimitIsExact`). In the orders
  that move a tag one embedding per round this means: no tag is more than eight embeddings away
  (`Embedding.LimitIsFelt`); with nine nested embeddings, outermost first, the outermost struct misses a tag
  (`Embedding.NineIsTooMany`).
- **One lexer as the inverse of the other** (`scripts/check_module_isolation.py:240`). On sources whose
  strings do not run over a line break, `strip_go_code_noise` blanks exactly what `string_literals` reads as
  comments and strings if and only if no rune literal holds a quote, a backtick or a comment opener
  (`GoNoise.NoiseIsTheInverse`); the rune of a double quote is an input where it does not
  (`GoNoise.QuoteRune`).
- **An opt-out covers one statement** (`scripts/lint-orgid-queries.py:287`). Statement boundaries two or
  more levels below the comment do not count. The comment covers literals of several statements exactly when
  the first SQL literal below it is within the skip limit, and a statement end and a further SQL literal
  follow in the same block before any boundary that counts (`Governed.SeveralIffUncounted`); such a statement
  end lies at least two levels below the comment (`Governed.BreaksLieDeeper`). A comment above a call with a
  closure is such a case: whatever SQL its two statements hold, both go unreported
  (`Closure.ClosureIsExempt`). Above two constants it covers the first alone
  (`Statements.SecondConstIsDue`), above a block its head alone (`Statements.BodyIsNotGoverned`).
- **An opt-out comment is found where it stands** (`scripts/lint-orgid-queries.py:476`). The comment is taken
  to begin at the last `//` in front of the hit. A hit in a line comment is always found, but it is placed at
  the comment, and is standalone if the comment is alone on its line, exactly when there is no further `//`
  between them, such as that of a link (`Suppressions.CommentIsFound`). A hit in an interpreted string that
  holds a `//` is taken for an opt-out as well (`Suppressions.StringIsAnOptOut`).
- **After a rewrite nothing is new and nothing is stale.** This holds exactly when every current key is
  trimmed, free of `#` and on one line (`Baseline.GateIsGreenAfterWrite`), which the keys the gate builds
  are unless a path contains such characters; a key with a `#` is new again after every rewrite
  (`Baseline.HashInKey`).
- **`GoSource._scan`** reads past the end of a file that ends right behind a backslash inside a quoted
  literal; `GoIndex.GoSource.Scan` reports this case, and only this one, as a failure; `GoIndex.EndsInBackslash`
  is such a text.

## Model

| member | source | states |
|---|---|---|
| GoText.EventsExact | scripts/lint-orgid-queries.py:399-414 | the recorded bracket offsets are exactly the brackets in code, ascending, each with the depth behind it |
| GoText.BreaksExact | scripts/lint-orgid-queries.py:357-361 | the recorded statement boundaries are exactly the line feeds behind a token that ends a statement, with their depth |
| GoText.RawsExact | scripts/lint-orgid-queries.py:378-386 | the recorded raw-string spans are exactly the backtick literals that open in code |
| GoLayout.CodeOfPrinted | scripts/lint-orgid-queries.py:350-421 | for every Go file printed from a list of code, strings, runes, raw strings and comments: a position is code for the automaton if and only if it lies in one of the pieces of code, or a literal or comment opens there |
| GoLayout.RawsOfPrinted | scripts/lint-orgid-queries.py:378-386 | for every printed file the recorded raw literals are the raw pieces, each from its first backtick to behind its last |
| GoLayout.DepthOfPrinted | scripts/lint-orgid-queries.py:399-414 | for every printed file the depth in front of a piece is opening minus closing brackets in the pieces of code before it |
| GoLayout.LineFeedEndsStatement | scripts/lint-orgid-queries.py:316-361 | for every text: a line feed that only blanks or a line comment separate from a character of code or a closing quote ends a statement if and only if that is an alphanumeric, `_`, a closing bracket, a quote, a backtick, `+` or `-` |
| GoLayout.LineFeedAtNote | scripts/lint-orgid-queries.py:357-377 | the same with a block comment in between: if it runs over the line, its first line feed ends the statement exactly as if it were not there, and if not, the line feed behind it does |
| GoLayout.OpenStringEnds | scripts/lint-orgid-queries.py:387-398 | a string or rune that is left open ends with its line; that line feed ends no statement, and one right behind it does |
| GoIndex.GoSource.Scan | scripts/lint-orgid-queries.py:350-421 | the scan leaves the exact records of the whole text; it fails if and only if the file ends right behind a backslash in a quoted literal |
| GoIndex.GoSource.Build | scripts/lint-orgid-queries.py:331-348 | after construction every index is exact and only block-opening braces are kept |
| GoIndex.GoSource.LineOf | scripts/lint-orgid-queries.py:423-425 | the bisection over line starts is one plus the newlines before the offset |
| GoIndex.GoSource.DepthOf | scripts/lint-orgid-queries.py:437-440 | the bisection over bracket events is opens minus closes in code before the offset |
| GoIndex.GoSource.BlockEnd | scripts/lint-orgid-queries.py:442-450 | the event walk finds the first later position, of all positions, where the depth falls below the given one |
| GoIndex.StaysInBlock | scripts/lint-orgid-queries.py:442-450 | up to that position the depth never falls below the given one |
| GoIndex.EndsInBackslash | scripts/lint-orgid-queries.py:388-397 | a text on which the scanner would read past the end |
| GoLayout.BraceOpensBlock | scripts/lint-orgid-queries.py:327-348 | a brace opens a block if and only if only blanks stand behind it on its line, or blanks and a line comment |
| Governed.BoundsBelow | scripts/lint-orgid-queries.py:508-529 | the sorted boundary list holds exactly the statement boundaries and block heads inside the comment's block |
| Governed.FirstStatement | scripts/lint-orgid-queries.py:531-539 | the walk over the regions returns exactly the literals of the first region with SQL, within the skip limit |
| Governed.GovernedLiterals | scripts/lint-orgid-queries.py:488-539 | for every text: a standalone opt-out governs exactly the literals in its block, within MAX_SKIPPED_STMTS boundaries, with no boundary to an earlier literal below the comment; a trailing one exactly those on its line |
| Governed.NeverSkipsAStatement | scripts/lint-orgid-queries.py:488-539 | what is governed starts with the first literal below the comment and has no gap: governing a literal means governing every one in between, with no boundary between them |
| Governed.StaysInsideTheBlock | scripts/lint-orgid-queries.py:506-508 | from the comment to a governed literal the bracket depth never falls below that of the comment |
| Governed.SeveralIffUncounted | scripts/lint-orgid-queries.py:488-539 | for every text: a comment governs two literals with a statement end between them if and only if the first SQL literal below it is near enough and a statement end and a further literal follow in the block before any boundary that counts |
| Governed.BreaksLieDeeper | scripts/lint-orgid-queries.py:510-529 | such a statement end lies at least two levels below the comment |
| Governed.SpansLineTouches | scripts/lint-orgid-queries.py:501-507 | a trailing comment covers exactly the literals of which some character is on its line |
| Statements.GovernsOneStatement | scripts/lint-orgid-queries.py:488-539 | a comment above code without brackets in which two SQL literals stand, the first on the next line: for all they hold and whatever follows, the comment governs the first, and the second if and only if no line feed between them ends a statement |
| Statements.SecondConstIsDue | scripts/lint-orgid-queries.py:488-685 | for all SQL in two successive constants and whatever follows: the one global comment above them governs the first literal and not the second, which gets its row if it has to be filtered and is not |
| Statements.BodyIsNotGoverned | scripts/lint-orgid-queries.py:488-539 | a comment above a block governs the SQL in the parentheses of its head, and never the SQL in its body |
| Statements.AtMostFourSkipped | scripts/lint-orgid-queries.py:508-539 | a comment above any number of lines that each are one statement without SQL, brackets included, governs the SQL behind them if and only if they are at most four |
| Suppressions.FindSuppressions | scripts/lint-orgid-queries.py:456-485 | the loop over the hits computes the specified opt-outs and the number of unplaced hits |
| Suppressions.OptOutsExact | scripts/lint-orgid-queries.py:466-485 | the opt-outs are exactly those of the hits that lie in no raw string and have a `//` in front of them on their line |
| Suppressions.OptOutsArePlaced | scripts/lint-orgid-queries.py:471-482 | every opt-out stands at a `//` on the line it names, and is standalone if and only if nothing but whitespace is left of it |
| Suppressions.EveryHitCounts | scripts/lint-orgid-queries.py:456-485 | every hit outside raw strings is an opt-out or counted as unparsed, the latter if and only if no `//` stands in front of it on its line |
| Suppressions.CommentIsFound | scripts/lint-orgid-queries.py:469-482 | a hit in a line comment is always found; it is placed where the comment opens, and is standalone if that is alone on its line, if and only if no further `//` stands in front of the hit |
| Suppressions.StringIsAnOptOut | scripts/lint-orgid-queries.py:469-476 | a text in which a hit inside an interpreted string is taken for an opt-out |
| OrgidScan.ApplyAll | scripts/lint-orgid-queries.py:637-659 | the skip sets are exactly the literals exempted by an opt-out of each kind; stale and redundant opt-outs are counted exactly |
| OrgidScan.Judge | scripts/lint-orgid-queries.py:661-683 | every literal that must be filtered is counted once, as checked or as suppressed |
| OrgidScan.ReportExact | scripts/lint-orgid-queries.py:661-683 | a row is in the report if and only if some literal outside the skip set fails that check |
| OrgidScan.DueIsJudged | scripts/lint-orgid-queries.py:661-683 | the rows that are due are a verdict on every literal that must be filtered: none if a global opt-out governs it; else one for a missing org_id exactly if the body has none; else one for each unscoped join, exactly if no join opt-out governs it; in order, and nothing else |
| OrgidScan.CountersAre | scripts/lint-orgid-queries.py:637-670 | suppressed is the number of literals that must be filtered and that a global opt-out governs; stale counts the opt-outs that govern no SQL, redundant those that govern SQL but none that must be filtered |
| OrgidScan.ScanFile | scripts/lint-orgid-queries.py:618-685 | from the text and the hits of the opt-out pattern: every literal that must be filtered gets its verdict, spelled out row by row as in `DueIsJudged`, in order, and nothing else is reported; suppressed counts exactly those that a global opt-out governs, and checked is the rest |
| OrgidScan.UnreportedIsOptedOut | scripts/lint-orgid-queries.py:456-685 | every row that a literal would get without opt-outs and does not get, for a missing org_id or an unscoped join, is traced to a comment: alone on its line in the same block, within MAX_SKIPPED_STMTS boundaries and with none behind an earlier SQL literal, or else on the literal's line; a global one, or for a join one of either kind |
| Closure.ClosureIsExempt | scripts/lint-orgid-queries.py:488-685 | for all SQL in the two statements of a closure and whatever follows: the one global comment above the call governs both literals, with a statement end between them, and neither gets a row |
| JsScanner.StripComments | scripts/check_fe_csrf.py:224-296 | the in-place loop computes the recursive specification of comment stripping |
| JsPrinted.StripOfPrinted | scripts/check_fe_csrf.py:224-296 | for every text printed from code, strings of both quotes, templates with nested holes, and comments: it strips to the same print with only the comments blanked, their line feeds kept |
| JsTraces.PositionPreserving | scripts/check_fe_csrf.py:224-296 | the length and every newline stay, and nothing is written but spaces |
| JsTraces.KeptOutside | scripts/check_fe_csrf.py:224-296 | every character a turn of the stripper moves past is a space if the turn is part of a comment, but for newlines, and is kept if not, the second one of an escape or a template opener included |
| JsTraces.TurnsCover | scripts/check_fe_csrf.py:224-296 | the turns move past every position |
| JsTraces.StripIdempotent | scripts/check_fe_csrf.py:224-296 | a second run changes nothing, for every input |
| JsTraces.ScannersAgree | scripts/check_fe_csrf.py:224-349 | on stripped text the stripper and the two comment-free scanners are in the same code, string or template state at the same positions, nested template holes included, and those are the states of the source |
| JsTraces.CallStates | scripts/check_fe_csrf.py:299-414 | a call matched in code: the matcher and the splitter started behind its parenthesis read every position in the state the stripper has there |
| JsPrinted.ScanOfPrinted | scripts/check_fe_csrf.py:299-414 | for every such text without comments: brackets and commas count in its code alone; there `match_paren` finds the first closing parenthesis at which the depth falls to zero, there the arguments are cut, and the text is balanced if and only if there the brackets are nested and every comma is in brackets |
| JsPrinted.LiteralIsKept | scripts/check_fe_csrf.py:224-414 | a string, or a template without holes, whatever stands between its quotes: stripping keeps it, it is one argument, and no parenthesis in it closes a call |
| JsArgs.MatchParen | scripts/check_fe_csrf.py:299-349 | the loop returns what the matching specification returns, or nothing when the parenthesis is never closed |
| JsArgs.SplitTopLevelArgs | scripts/check_fe_csrf.py:352-414 | the loop returns the trimmed pieces of the splitting specification, without an empty last one |
| JsArgs.PiecesJoin | scripts/check_fe_csrf.py:352-414 | joining the pieces with commas gives the argument text back, for every text: nothing is lost |
| JsArgs.SplitIsExact | scripts/check_fe_csrf.py:352-414 | for all texts: splitting them, joined by commas, gives them back if and only if none shows the splitter a top-level comma and each but the last leaves it in code outside brackets |
| JsArgs.MatchPrinted | scripts/check_fe_csrf.py:299-349 | on a printed call followed by any text, matching returns exactly the call's closing parenthesis |
| JsArgs.CallRoundTrip | scripts/check_fe_csrf.py:299-414 | printing any list of trimmed, non-empty, balanced arguments with any padding, with or without a comma at the end, then matching and splitting, gives the same list |
| FetchMethod.ResolveMethod | scripts/check_fe_csrf.py:498-552 | the loop over the properties computes the specified answer |
| FetchMethod.ReadsPrinted | scripts/check_fe_csrf.py:417-422 | reading a printed options literal whose properties the splitter can tell apart sees exactly its entries, in order |
| JsOptions.YieldsIffSettled | scripts/check_fe_csrf.py:498-514 | evaluating a literal yields one and the same method, for all values of its expressions, if and only if the literal is settled on it |
| FetchMethod.AnswerIsSound | scripts/check_fe_csrf.py:498-552 | an answer equals the method of the evaluated literal, up to letter case and for all values of its expressions, if and only if the literal is settled on it; it is, if no entry can change the method or the last one that can is an unquoted method key |
| FetchMethod.AnswerIs | scripts/check_fe_csrf.py:523-552 | what is answered for every printed literal, by its entries: nothing for a `method` shorthand; for unquoted method keys the word in quotes of the last one's value, in capitals, or nothing; else GET, or nothing if a spread or a leading computed key hides its name |
| FetchMethod.WithoutLiteral | scripts/check_fe_csrf.py:515-527 | without options there is an answer if and only if the url is a string or template behind whitespace, and it is the method of a literal without entries; with a Request constructor there is none; options that are no braces have none |
| FetchMethod.VerbInCapitals | scripts/check_fe_csrf.py:546-549 | `{method:'V'}` is answered with its verb letter by letter in capitals, which evaluating it always yields |
| FetchMethod.QuotesMatch | scripts/check_fe_csrf.py:546-548 | in an expression the word the regular expression reads is the value of the string literal |
| FetchMethod.SpreadBehindMethod | scripts/check_fe_csrf.py:533-546 | `{method:'V',...o}` is answered with its verb and can evaluate to any other |
| FetchMethod.MethodInQuotes | scripts/check_fe_csrf.py:533-552 | `{'method':'V'}` is answered GET and always evaluates to its verb |
| FetchMethod.MethodOfPrototype | scripts/check_fe_csrf.py:533-552 | `{__proto__:{method:'V'}}` is answered GET and evaluates to its verb |
| FetchMethod.QuoteInRegex | scripts/check_fe_csrf.py:417-552 | `{a:/'/,method:'V',b:/'/}` is answered GET and always evaluates to its verb |
| GoComments.StripGoComments | scripts/check_image_tags.py:253-273 | the loop computes the recursive specification of comment removal |
| GoComments.UncommentPrinted | scripts/check_image_tags.py:253-273 | for every printed Go source: code, line feeds and literals are kept, a line comment leaves nothing and a block comment a space |
| GoComments.StripIdempotent | scripts/check_image_tags.py:253-273 | a second run changes nothing, for every input |
| GoComments.NoOpenerLeft | scripts/check_image_tags.py:253-273 | in the output a comment opener stands only inside a span that `literal_spans` finds there |
| GoComments.LiteralSpans | scripts/check_image_tags.py:276-301 | the loop returns the specified spans |
| GoComments.SpansOfPrinted | scripts/check_image_tags.py:276-301 | for every printed source without comments the spans are those of its strings, runes and raw strings |
| GoComments.SpansOrdered | scripts/check_image_tags.py:276-301 | spans are non-empty, ascending, disjoint and inside the text |
| GoComments.SpansOfStripped | scripts/check_image_tags.py:237-301 | the spans of the stripped text read exactly the literals that the stripper copied, verbatim and in order |
| GoComments.InSpans | scripts/check_image_tags.py:304-315 | the binary search equals linear membership |
| GoLiterals.StringLiterals | scripts/check_module_isolation.py:141-195 | the lexer's loop returns the specified literals with their lines |
| GoLiterals.LiteralsOfPrinted | scripts/check_module_isolation.py:141-195 | for every printed source the report is its interpreted and raw strings in order, each with what stands between its quotes and the line it begins on |
| GoLiterals.LineLaw | scripts/check_module_isolation.py:141-195 | each reported line is one plus the newlines before the opening quote, less those swallowed by earlier interpreted strings and rune literals |
| GoLiterals.LineIsRight | scripts/check_module_isolation.py:141-195 | the reported line is the literal's line if and only if no earlier interpreted string or rune literal holds a newline |
| GoLiterals.SwallowedExample | scripts/check_module_isolation.py:185-192 | a source on which the reported line is one too small |
| GoNoise.StripGoCodeNoise | scripts/check_module_isolation.py:237-308 | the loop computes the specification, and the final check never raises |
| GoNoise.NoiseOfPrinted | scripts/check_module_isolation.py:237-308 | for every printed source whose runes hold no double quote, backtick or comment opener: comments and strings are blanked, everything else is kept |
| GoNoise.KeepOrBlank | scripts/check_module_isolation.py:237-265 | each position keeps its character, or was no newline and becomes a space |
| GoNoise.NoiseKeepsLines | scripts/check_module_isolation.py:245-260 | a line number counted from the result is the one counted from the source, at every position |
| GoNoise.NoiseIsTheInverse | scripts/check_module_isolation.py:141-308 | on sources whose strings do not run over a line break, it blanks exactly what the other lexer reads as comments and strings, and keeps the rest, if and only if no rune literal holds a quote, a backtick or a comment opener |
| GoNoise.QuoteRune | scripts/check_module_isolation.py:279-291 | the rune literal of a double quote is an input where it does not |
| HeadingTree.Sections | scripts/check_upgrade_docs.py:155-206 | the loops compute the specified sections |
| HeadingTree.Chain | scripts/check_upgrade_docs.py:189-203 | the backward scan with its running level computes the chain of ancestors |
| HeadingTree.HeadsExact | scripts/check_upgrade_docs.py:155-179 | the collected headings are exactly the heading lines with an even number of fence lines above them |
| HeadingTree.WithoutHeadings | scripts/check_upgrade_docs.py:155-206 | a document whose headings all stand inside code blocks is one section over all its lines |
| HeadingTree.ChainIs | scripts/check_upgrade_docs.py:189-203 | a section's chain is, in the order of the document, level and text of exactly the earlier headings that every heading from there down to its own is deeper than, and its own last |
| HeadingTree.ChainIsContainment | scripts/check_upgrade_docs.py:181-203 | an earlier heading is in a section's chain if and only if the section lies inside that heading's interval; otherwise the two are disjoint |
| HeadingTree.Laminar | scripts/check_upgrade_docs.py:155-206 | any two sections of a document are nested or disjoint, and none is empty |
| HeadingTree.JudgedMeansOutermost | scripts/check_upgrade_docs.py:209-237 | an update section of level two or deeper is judged if and only if no update section of level two or deeper encloses it |
| HeadingTree.TitleJudged | scripts/check_upgrade_docs.py:222-237 | a level-one update section is judged if and only if it contains no deeper update section |
| HeadingTree.JudgedDisjoint | scripts/check_upgrade_docs.py:209-237 | any two judged sections are disjoint |
| HeadingTree.JudgedOnce | scripts/check_upgrade_docs.py:209-237 | every update section of level two or deeper lies inside exactly one judged section |
| GroupPrefixes.LocalGroups | scripts/check_openapi_coverage.py:239-246 | after the bounded passes the domain is exactly the variables reachable from the mount parameters, each with the prefixes along a derivation |
| GroupPrefixes.Pass | scripts/check_openapi_coverage.py:240-246 | one pass grows the map or finds it closed |
| GroupPrefixes.OrderIrrelevant | scripts/check_openapi_coverage.py:239-246 | with each variable assigned once, every order of the assignments gives the same map |
| GroupPrefixes.ChainWalk | scripts/check_routes.py:205-213 | the seen-set walk ends on every graph, cyclic ones too, with the prefixes it passed |
| GroupPrefixes.WalkIsPrefix | scripts/check_routes.py:205-213 | on a variable whose chain ends it is the concatenation of the prefixes along the chain |
| GroupPrefixes.OutermostFirst | scripts/check_routes.py:205-213 | down any line of nested groups the prefix is the given prefixes in a row, the outermost group's first |
| GroupPrefixes.GroupResolver.Resolve | scripts/check_openapi_coverage.py:159-169 | the memoised recursion ends on every graph and gives the same concatenation; the memo stays right |
| GroupPrefixes.GroupResolver.ResolveAll | scripts/check_openapi_coverage.py:151-171 | every group variable is resolved |
| GroupPrefixes.ThreeWaysAgree | scripts/check_openapi_coverage.py:151-246 | on every uniquely assigned graph the fixpoint has exactly the variables whose chain reaches a mount, and there recursion, walk and fixpoint give the same prefix |
| Embedding.Promote | scripts/check_fe_be_fields.py:176-186 | the in-place loop with its changed flag computes eight rounds, and has settled if it stops early |
| Embedding.RoundsSound | scripts/check_fe_be_fields.py:176-186 | no round adds a tag outside the transitive embedding closure |
| Embedding.RoundsComplete | scripts/check_fe_be_fields.py:176-186 | every tag within as many embeddings as rounds is present, whatever the iteration order |
| Embedding.ReachesFixpoint | scripts/check_fe_be_fields.py:176-186 | the result is the closure if the loop settles or no tag is more than eight embeddings away |
| Embedding.RoundsAreExact | scripts/check_fe_be_fields.py:176-186 | in any iteration order a tag is there after a number of rounds if and only if it has a path of embeddings that takes no more rounds |
| Embedding.LimitIsExact | scripts/check_fe_be_fields.py:176-186 | in any iteration order, cyclic embeddings included, the result is the closure if and only if every tag of the closure has a path of at most eight rounds |
| Embedding.LimitIsFelt | scripts/check_fe_be_fields.py:176-186 | in orders that never read a struct extended in the same round, that means that no tag is more than eight embeddings away |
| Embedding.NineIsTooMany | scripts/check_fe_be_fields.py:176-186 | nine nested embeddings, outermost first, whose outermost struct misses a tag |
| Redaction.SensitivePathParam | backend/cmd/api/middleware.go:208-221 | a name is secret if and only if one of the four sensitive words occurs in it, case, `_` and `-` aside |
| Redaction.SeparatorsIgnored | backend/cmd/api/middleware.go:211-214 | inserting `_` or `-` anywhere in a name does not change the verdict |
| Redaction.RedactPathParams | backend/cmd/api/middleware.go:232-262 | the loop masks exactly the segments that the template declares secret before a catch-all, and nothing else changes |
| Redaction.RedactQueryString | backend/cmd/api/middleware.go:266-278 | the loop masks exactly the values of sensitive keys |
| Redaction.RedactURI | backend/cmd/api/middleware.go:290-296 | the composition at the first question mark |
| Redaction.RedactPrinted | backend/cmd/api/middleware.go:211-296 | for every route template and every URI with a path of given segments and given parameters, in terms of those alone: a segment is logged as `***` if and only if the template's segment there is a colon and a name that spells token, secret, password or apikey, case, `_` and `-` aside, and no catch-all stands up to there; a parameter's value is logged as `***` if and only if its key is one of the nine; all the rest is logged as given |
| Redaction.NonInterference | backend/cmd/api/middleware.go:211-296 | two URIs of one route give the same log entry if and only if they differ in nothing but the contents of secret segments and the values of sensitive keys |
| Redaction.RedactKeepsTheRest | backend/cmd/api/middleware.go:290-296 | number and order of segments and parameters and every non-secret one are kept |
| Redaction.RedactIdempotent | backend/cmd/api/middleware.go:290-296 | redacting twice is redacting once |
| Redaction.UnchangedIffNothingToHide | backend/cmd/api/middleware.go:290-296 | the URI stays as it is if and only if it shows no secret, and the redacted one never shows one |
| HealthCache.AiHealth.Check | backend/cmd/api/server.go:63-69 | the first critical section answers from the cache exactly when a stored result is younger than the time to live, and takes the step of the state machine |
| HealthCache.AiHealth.Store | backend/cmd/api/server.go:80-82 | the second critical section replaces time and result together, as the step of the state machine does |
| HealthCache.RunKeeps | backend/cmd/api/server.go:62-84 | after every run of concurrent calls: time and result in the cache come from one probe, every cached answer was younger than the time to live, and a probe whose check follows a store starts at least the time to live after it |
| HealthCache.AnswersAreTheProviders | backend/cmd/api/server.go:62-84 | in every run of concurrent calls a cached answer is what the provider answered to the one probe it came from, with the milliseconds between that probe's start and its answer |
| HealthCache.ProbesPerWindow | backend/cmd/api/server.go:50-53 | at most `k * (W / TTL + 1)` probes start in a window `W` when at most `k` calls overlap |
| HealthCache.OverlappingCallsAllProbe | backend/cmd/api/server.go:50-53 | for every `k` some run attains the bound: `k` probes at once |
| HealthCache.OnePerTTLIffAlone | backend/cmd/api/server.go:50-53 | for prompt calls, any two probes start at least the time to live apart if and only if no two calls overlap |
| FanOut.RunKeeps | backend/cmd/worker/handlers_shared.go:79-97 | in every interleaving the channel holds exactly one token per goroutine before its receive plus the loop's own, never more than its capacity; no error and no cancellation comes from the group |
| FanOut.AtMostCapInFlight | backend/cmd/worker/handlers_shared.go:80-83 | at most as many bodies run as the channel has room for |
| FanOut.NeverStuck | backend/cmd/worker/handlers_shared.go:79-97 | until Wait has returned some step can be taken: no send and no receive blocks for ever |
| FanOut.EveryRunEnds | backend/cmd/worker/handlers_shared.go:79-97 | every run spends its steps: five for each organisation, one for Wait, one for a cancellation |
| FanOut.EachOrgOnce | backend/cmd/worker/handlers_shared.go:355-368 | when Wait returns it returns nil, and every organisation's body has ended exactly once with what it yields for that organisation |
| FanOut.MaximalRunsAgree | backend/cmd/worker/handlers_shared.go:355-368 | a run that cannot go on is complete, and without an outside cancellation all complete runs end with the same outcomes |
| FanOut.FailureIsIsolated | backend/cmd/worker/handlers_shared.go:355-368 | whatever one organisation's body yields, the same interleavings are possible and every other outcome is the same |
| Baseline.BaselineFile.Read | scripts/check_fe_be_fields.py:495-506 | the loop reads the specified dictionary, a later line for a key replacing an earlier one |
| PyLines.LinesOfText | scripts/check_fe_be_fields.py:500 | a file is read as the lines it was put together from, whatever line break stands behind each |
| Baseline.LineForms | scripts/check_fe_be_fields.py:495-506 | the forms of a line: a key with whitespace around it, then, behind a `#`, its trimmed reason; blank lines and lines that begin with `#` are none |
| Baseline.BaselineFile.Write | scripts/check_fe_be_fields.py:551-597 | the loops write the specified text |
| Baseline.ReadAfterWrite | scripts/check_fe_be_fields.py:495-597 | reading after a rewrite gives exactly the current keys, each with its old reason or the reason of new ones |
| Baseline.GateIsGreenAfterWrite | scripts/check_fe_be_fields.py:628-632 | new and stale are both empty after a rewrite if and only if every current key is trimmed, free of `#` and on one line |
| Baseline.HashInKey | scripts/check_fe_be_fields.py:572-597 | a current key that holds `#` is not read back: it is new after every rewrite |
| Baseline.ProseSurvives | scripts/check_fe_be_fields.py:554-589 | every non-entry line but the regeneration rule survives in order, except for blank lines at the end; at most the blank line before the rule is added |
| Baseline.SecondRewrite | scripts/check_fe_be_fields.py:551-597 | a second rewrite changes the lines if and only if the first one added a key |
| Baseline.RewriteIsStable | scripts/check_fe_be_fields.py:551-597 | from the second application on the file stays the same |

## Left out

- Regular expressions (`leading_dml`, the tenant-table and join patterns, `GROUP_ASSIGN`, `SECTION_PAT`, `REQUEST_CTOR_RE`, `GO_LINT_ANY_RE`): what they find is a parameter, or the input is already parsed.
- The list of opt-outs that cover several literals, which is only printed.
- File walking, reading and printing, `git ls-files`, docker and network calls, YAML and SQL schema parsing.
- `str.isalnum` and `strings.ToLower` are function parameters; every statement holds whatever they map.
- `brace_blocks` and `call_args` of check_image_tags.py: depth counters and an argument splitter over the spans modelled here, of the kind that JsArgs already proves.
- `_segs_match` and `suffix_covered` of check_routes.py, `classify` and `Tally` of check_fe_be_fields.py: single comparisons and counters.
- The header text, the regeneration rule and the reason of new entries are parameters of the baseline model, required only to be comments and a trimmed line as the source's are; the printed summary of a rewrite is not modelled.
- FanOut.NeverStuck: assumes that every body ends, as the step of a running body is always possible; a body that panics is not modelled.
- HealthCache.ProbesPerWindow: times are integers in nanoseconds from a monotone clock; the provider call is a pair of steps with any outcome and any duration.
- FetchMethod.AnswerIsSound: what an escaped key spells is given, not computed; expressions are plain JavaScript without TypeScript or JSX syntax, and a slash in them must be told from a regular expression by what stands before it, which it is not behind an operand-taking word, `+`, `-`, `!`, `<` and other operators, or behind a closing parenthesis or brace inside braces; every expression but a string of letters counts as unseen.
- GoNoise.NoiseIsTheInverse: nothing is stated for sources with a backslash before a line break inside an interpreted string, which is not valid Go.
- `GoIndex.GoSource` and `GoLiterals`: each branch with a loop of its own is a method, called from the loop over the text.
- Statements.GovernsOneStatement: the code around the two literals is without brackets, quotes and slashes; what blocks, closures and further statements do is stated by the laws beside it and by `Closure.ClosureIsExempt`.
- The printed sources of `GoPieces` and `JsPieces` close their literals and comments. What the scanners make of an unclosed one is stated by their specifications, which hold for every text, and for Go by `GoLayout.OpenStringEnds`.
- Texts are sequences of characters; Go's byte strings are read as such, and no encoding is modelled.
- `backend/cmd/api/routes.go`, `main.go`, SQL, alert delivery, LLM calls, the front end and the remaining gates.
