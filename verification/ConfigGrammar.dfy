/** What a configuration text means: a lexer over its characters, with no buffer, positions or marks. */
module ConfigGrammar {
  import opened Options

  /** VANESSA_CONFIG_FILE_MULTI_VALUE, _X and _BLANK. */
  datatype Flags = Flags(multi: bool, x: bool, blank: bool)

  /** What a token is made of: characters as they stand, characters behind a backslash, the place where
      a quoted stretch closed, and the place where a line ended behind a backslash. */
  datatype Piece = Plain(c: char) | Escaped(c: char) | QuoteEnd | Joined

  datatype Place = InKey(pieces: seq<Piece>) | InValue(pieces: seq<Piece>) | Gap | InComment

  datatype Quote = Unquoted | Single | Double

  /** The tokens of one logical line. */
  datatype Line = Line(key: Option<seq<Piece>>, values: seq<seq<Piece>>)

  datatype Lexer = Lexer(place: Place, quote: Quote, esc: bool, lines: seq<Line>, line: Line)

  const MAX_LINE_LENGTH := 4096

  const LIMIT := MAX_LINE_LENGTH - 3  // characters of a token that are kept

  predicate Blank(c: char) {
    c == ' ' || c == '\t'
  }

  predicate LineEnd(c: char) {
    c == '\n' || c == '\r'
  }

  function Min(a: nat, b: nat): nat {
    if a < b then a else b
  }

  function Chars(ps: seq<Piece>): string {
    if ps == [] then ""
    else
      var last := ps[|ps| - 1];
      Chars(ps[..|ps| - 1]) + if last.Plain? || last.Escaped? then [last.c] else ""
  }

  function Content(ps: seq<Piece>): (s: string)
    ensures |s| <= LIMIT
  {
    var s := Chars(ps);
    if |s| <= LIMIT then s else s[..LIMIT]
  }

  /** A C string: what comes before the first NUL. */
  function CStr(s: string): (t: string)
    ensures t <= s
  {
    if s == "" || s[0] == '\0' then "" else [s[0]] + CStr(s[1..])
  }

  lemma {:induction false} CStrConcat(a: string, b: string)
    requires '\0' !in a
    ensures CStr(a + b) == a + CStr(b)
  {
    if a == "" {
      assert a + b == b;
    } else {
      assert (a + b)[1..] == a[1..] + b;
      CStrConcat(a[1..], b);
    }
  }

  function TrimRight(s: string): (t: string)
    ensures t <= s
  {
    if s != "" && Blank(s[|s| - 1]) then TrimRight(s[..|s| - 1]) else s
  }

  /** Trims trailing blanks, but none of the first k characters. */
  function TrimFrom(s: string, k: nat): string {
    var m := Min(k, |s|);
    s[..m] + TrimRight(s[m..])
  }

  /** How much of a token trimming must leave alone. Behind the last piece that is not an ordinary blank:
      everything up to an escaped character or a closed quote, everything and one more character after a
      joined line, and nothing otherwise. An escaped backslash protects like an ordinary character. */
  function Kept(ps: seq<Piece>): nat {
    if ps == [] then 0
    else
      var init, last := ps[..|ps| - 1], ps[|ps| - 1];
      match last
      case Plain(c) => if Blank(c) then Kept(init) else 0
      case Escaped(c) => if c == '\\' then 0 else |Content(init)| + 1
      case QuoteEnd => |Content(init)|
      case Joined => |Content(init)| + 1
  }

  function ValueText(ps: seq<Piece>): string {
    TrimFrom(CStr(Content(ps)), Kept(ps))
  }

  /** The dashes put before a key: none, one for a key of one letter or when asked, else two. */
  function Prefix(flags: Flags, content: string): (dashes: string)
    ensures |dashes| <= 2 && (flags.blank <==> dashes == "")
  {
    if flags.blank then ""
    else if flags.x || |content| <= 1 || content[1] == '\0' then "-"
    else "--"
  }

  /** The part of a key that trimming leaves alone is measured from the dashes. */
  function KeyText(flags: Flags, ps: seq<Piece>): string {
    TrimFrom(Prefix(flags, Content(ps)) + CStr(Content(ps)), Kept(ps))
  }

  const NO_TOKENS := Line(None, [])

  const START := Lexer(InKey([]), Unquoted, false, [], NO_TOKENS)

  predicate Open(place: Place) {
    place.InKey? || place.InValue?
  }

  /** Ends the open token, if any. An empty key is no token; an empty value is one. */
  function Close(flags: Flags, lx: Lexer): Lexer {
    match lx.place
    case InKey(ps) =>
      lx.(place := Gap, line := if Content(ps) == "" then lx.line else lx.line.(key := Some(ps)))
    case InValue(ps) => lx.(place := Gap, line := lx.line.(values := lx.line.values + [ps]))
    case _ => lx
  }

  /** Adds to the open token, opening a value when between tokens. */
  function Put(lx: Lexer, ps: seq<Piece>): Lexer {
    lx.(place := match lx.place
                 case InKey(qs) => InKey(qs + ps)
                 case InValue(qs) => InValue(qs + ps)
                 case Gap => InValue(ps)
                 case InComment => InComment)
  }

  function EndLine(flags: Flags, lx: Lexer): Lexer {
    var closed := Close(flags, lx);
    closed.(place := InKey([]), lines := closed.lines + [closed.line], line := NO_TOKENS)
  }

  function StepPlain(flags: Flags, lx: Lexer, c: char): Lexer {
    if Blank(c) then
      if lx.place.InKey? || (lx.place.InValue? && flags.multi) then Close(flags, lx)
      else if lx.place.InValue? then Put(lx, [Plain(c)])
      else lx
    else if c == '#' then Close(flags, lx).(place := InComment)
    else if c == '\\' then Put(lx, []).(esc := true)
    else if c == '"' then Put(lx, []).(quote := Double)
    else if c == '\'' then Put(lx, []).(quote := Single)
    else Put(lx, [Plain(c)])
  }

  function StepLexer(flags: Flags, lx: Lexer, c: char): Lexer {
    if LineEnd(c) then
      if lx.esc then (if Open(lx.place) then Put(lx, [Joined]) else lx).(esc := false)
      else if lx.quote != Unquoted then lx
      else EndLine(flags, lx)
    else if lx.esc then Put(lx, [Escaped(c)]).(esc := false)
    else if lx.place.InComment? then lx.(esc := c == '\\')
    else if lx.quote == Single then
      if c == '\'' then Put(lx, [QuoteEnd]).(quote := Unquoted) else Put(lx, [Plain(c)])
    else if lx.quote == Double then
      if c == '"' then Put(lx, [QuoteEnd]).(quote := Unquoted)
      else if c == '\\' then lx.(esc := true)
      else Put(lx, [Plain(c)])
    else StepPlain(flags, lx, c)
  }

  function Lex(flags: Flags, input: string): Lexer {
    if input == "" then START else StepLexer(flags, Lex(flags, input[..|input| - 1]), input[|input| - 1])
  }

  // The entries of the array

  /** The empty string that stands in for argv[0], a key, a value, or the NULL after a line. */
  datatype Entry = Dummy | Key(pieces: seq<Piece>) | Value(pieces: seq<Piece>) | Null

  function Begun(line: Line): seq<Entry> {
    (if line.key.Some? then [Key(line.key.value)] else []) + Values(line.values)
  }

  function Values(values: seq<seq<Piece>>): (r: seq<Entry>)
    ensures |r| == |values|
    ensures forall i :: 0 <= i < |r| ==> r[i] == Value(values[i])
  {
    seq(|values|, i requires 0 <= i < |values| => Value(values[i]))
  }

  /** A finished line: with MULTI_VALUE a NULL follows a line that had a key. */
  function Finished(flags: Flags, line: Line): seq<Entry> {
    Begun(line) + if flags.multi && line.key.Some? then [Null] else []
  }

  function AllFinished(flags: Flags, lines: seq<Line>): seq<Entry> {
    if lines == [] then []
    else AllFinished(flags, lines[..|lines| - 1]) + Finished(flags, lines[|lines| - 1])
  }

  /** Without MULTI_VALUE a dummy first entry, then the tokens line by line. */
  function Entries(flags: Flags, lx: Lexer): seq<Entry> {
    (if flags.multi then [] else [Dummy]) + AllFinished(flags, lx.lines) + Begun(lx.line)
  }

  function TextOf(flags: Flags, e: Entry): Option<string> {
    match e
    case Dummy => Some("")
    case Key(ps) => Some(KeyText(flags, ps))
    case Value(ps) => Some(ValueText(ps))
    case Null => None
  }

  function Texts(flags: Flags, es: seq<Entry>): (r: seq<Option<string>>)
    ensures |r| == |es|
    ensures forall i :: 0 <= i < |r| ==> r[i] == TextOf(flags, es[i])
  {
    seq(|es|, i requires 0 <= i < |es| => TextOf(flags, es[i]))
  }

  /** The array the reader returns. */
  function Tokens(flags: Flags, lx: Lexer): seq<Option<string>> {
    Texts(flags, Entries(flags, lx))
  }

  /** What every run of the lexer keeps. */
  ghost predicate WellFormed(lx: Lexer) {
    && (lx.quote != Unquoted ==> Open(lx.place))
    && (lx.quote == Single ==> !lx.esc)
    && (lx.place.Gap? ==> !lx.esc)
    && (lx.place.InKey? ==> lx.line == NO_TOKENS)
  }

  lemma {:induction false} LexWellFormed(flags: Flags, input: string)
    ensures WellFormed(Lex(flags, input))
  {
    if input != "" {
      LexWellFormed(flags, input[..|input| - 1]);
    }
  }
}
