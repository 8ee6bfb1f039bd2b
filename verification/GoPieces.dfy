/**
 Go source text as a list of lexical pieces, printed. It is what the Go lexers of the gates are measured by:
 none of their states, tokens or scanning loops occurs here.
 */
module GoPieces {
  import opened PyText

  datatype Piece =
    | Plain(body: string)       // anything outside comments and literals, line feeds included
    | Quoted(body: string)      // "..."
    | Rune(body: string)        // '...'
    | RawText(body: string)     // `...`
    | LineNote(body: string)    // from two slashes up to the line feed, which belongs to the next piece
    | BlockNote(body: string)
  {
    function Text(): string {
      match this
      case Plain(body) => body
      case Quoted(body) => "\"" + body + "\""
      case Rune(body) => "'" + body + "'"
      case RawText(body) => "`" + body + "`"
      case LineNote(body) => "//" + body
      case BlockNote(body) => "/*" + body + "*/"
    }

    /** It is what it says in front of the text `behind`. */
    predicate Fits(behind: string) {
      match this
      case Plain(body) => IsCode(body, behind)
      case Quoted(body) => Closed('"', body) && '\n' !in body
      case Rune(body) => Closed('\'', body) && '\n' !in body
      case RawText(body) => '`' !in body
      case LineNote(body) => '\n' !in body && (behind == "" || behind[0] == '\n')
      case BlockNote(body) => NoEnd(body)
    }
  }

  /** The text opens a comment. */
  predicate OpensNote(text: string) {
    |text| > 1 && text[0] == '/' && (text[1] == '/' || text[1] == '*')
  }

  /** No quote, and nowhere a comment opener, not even together with what follows. */
  predicate IsCode(code: string, behind: string) {
    code == "" || (code[0] != '"' && code[0] != '\'' && code[0] != '`' && !OpensNote(code + behind)
                   && IsCode(code[1..], behind))
  }

  /** The quote stands only behind a backslash, and the last backslash has its character. */
  predicate Closed(quote: char, body: string) {
    if body == "" then true
    else if body[0] == '\\' then |body| > 1 && Closed(quote, body[2..])
    else body[0] != quote && Closed(quote, body[1..])
  }

  /** The closing delimiter behind the body is the first one. */
  predicate NoEnd(body: string) {
    body == "" || (!(body[0] == '*' && |body| > 1 && body[1] == '/') && NoEnd(body[1..]))
  }

  function Print(ps: seq<Piece>): string {
    if ps == [] then "" else ps[0].Text() + Print(ps[1..])
  }

  predicate WellFormed(ps: seq<Piece>) {
    ps == [] || (ps[0].Fits(Print(ps[1..])) && WellFormed(ps[1..]))
  }

  lemma First(ps: seq<Piece>)
    requires ps != [] && WellFormed(ps)
    ensures Print(ps) == ps[0].Text() + Print(ps[1..]) && ps[0].Fits(Print(ps[1..])) && WellFormed(ps[1..])
  {
    hide Piece.Text, Piece.Fits;
  }
}
