/** A configuration text written row by row, in every way the format offers, and what its rows mean. */
module ConfigPrinter {
  import opened Options

  /** A fragment writes part of a token: as it stands, one character behind a backslash, in single quotes, in double
      quotes (where quotes and backslashes, or all characters, go behind a backslash), or nothing, going on to the next
      line. */
  datatype Fragment =
    | Bare(text: string)
    | Behind(c: char)
    | InSingle(text: string)
    | InDouble(text: string, all: bool)
    | Continued(nl: char)

  /** A word of a row's value and the white space before it. */
  datatype Word = Word(gap: string, token: seq<Fragment>)

  /** A key, the words behind it, white space, perhaps a comment, and the end of the line. A row may have no key: it is
      empty, or starts with white space. */
  datatype Row = Row(key: seq<Fragment>, words: seq<Word>, trailing: string, comment: Option<string>, end: char)

  predicate Space(c: char) {
    c == ' ' || c == '\t'
  }

  predicate NewLine(c: char) {
    c == '\n' || c == '\r'
  }

  predicate Spaces(s: string) {
    forall i :: 0 <= i < |s| ==> Space(s[i])
  }

  predicate Ordinary(c: char) {
    !Space(c) && !NewLine(c) && c != '#' && c != '\\' && c != '"' && c != '\''
  }

  // What is written

  /** Text between double quotes. */
  function Guarded(s: string, all: bool): string {
    if s == "" then ""
    else
      var c := s[|s| - 1];
      Guarded(s[..|s| - 1], all) + if all || c == '"' || c == '\\' then ['\\', c] else [c]
  }

  function PrintFragment(f: Fragment): string {
    match f
    case Bare(text) => text
    case Behind(c) => ['\\', c]
    case InSingle(text) => "'" + text + "'"
    case InDouble(text, all) => "\"" + Guarded(text, all) + "\""
    case Continued(nl) => ['\\', nl]
  }

  function PrintToken(fs: seq<Fragment>): string {
    if fs == [] then "" else PrintToken(fs[..|fs| - 1]) + PrintFragment(fs[|fs| - 1])
  }

  function PrintWords(ws: seq<Word>): string {
    if ws == [] then ""
    else PrintWords(ws[..|ws| - 1]) + ws[|ws| - 1].gap + PrintToken(ws[|ws| - 1].token)
  }

  function PrintEnd(r: Row): string {
    (if r.comment.Some? then "#" + r.comment.value else "") + [r.end]
  }

  function PrintRow(r: Row): string {
    PrintToken(r.key) + PrintWords(r.words) + r.trailing + PrintEnd(r)
  }

  function Print(rows: seq<Row>): string {
    if rows == [] then "" else Print(rows[..|rows| - 1]) + PrintRow(rows[|rows| - 1])
  }

  // What it means

  /** Line ends between quotes are dropped. */
  function OneLine(s: string): string {
    if s == "" then ""
    else OneLine(s[..|s| - 1]) + if NewLine(s[|s| - 1]) then "" else [s[|s| - 1]]
  }

  function FragmentText(f: Fragment): string {
    match f
    case Bare(text) => text
    case Behind(c) => [c]
    case InSingle(text) => OneLine(text)
    case InDouble(text, _) => OneLine(text)
    case Continued(_) => ""
  }

  function TokenText(fs: seq<Fragment>): string {
    if fs == [] then "" else TokenText(fs[..|fs| - 1]) + FragmentText(fs[|fs| - 1])
  }

  /** The words as one value: the white space between them stays, that before the first goes. */
  function Spread(ws: seq<Word>): string
    requires ws != []
  {
    var w := ws[|ws| - 1];
    if |ws| == 1 then TokenText(w.token) else Spread(ws[..|ws| - 1]) + w.gap + TokenText(w.token)
  }

  // What may be written

  predicate LegalFragment(f: Fragment) {
    match f
    case Bare(text) => text != "" && '\0' !in text && forall i :: 0 <= i < |text| ==> Ordinary(text[i])
    case Behind(c) => !NewLine(c) && c != '\0'
    case InSingle(text) => '\0' !in text && '\'' !in text
    case InDouble(text, _) => '\0' !in text
    case Continued(nl) => NewLine(nl)
  }

  predicate LegalToken(fs: seq<Fragment>) {
    fs != [] && forall i :: 0 <= i < |fs| ==> LegalFragment(fs[i])
  }

  predicate LegalWord(w: Word) {
    w.gap != "" && Spaces(w.gap) && LegalToken(w.token)
  }

  /** Whether t ends in a backslash that no backslash before it escapes. */
  predicate Dangling(t: string) {
    t != "" && t[|t| - 1] == '\\' && !Dangling(t[..|t| - 1])
  }

  predicate LegalComment(t: string) {
    !Dangling(t) && forall i :: 0 <= i < |t| ==> !NewLine(t[i])
  }

  predicate LegalRow(r: Row) {
    && (r.key != [] ==> LegalToken(r.key))
    && (forall i :: 0 <= i < |r.words| ==> LegalWord(r.words[i]))
    && Spaces(r.trailing) && NewLine(r.end) && (r.comment.Some? ==> LegalComment(r.comment.value))
  }
}
