/** The reader's state variables and macros, and why they compute what ConfigGrammar's lexer means. */
module ConfigMachine {
  import opened Options
  import opened ConfigGrammar

  const SINGLE_QUOTE := 1
  const DOUBLE_QUOTE := 2

  /** What an entry was added as. */
  datatype Tag = DummyTag | KeyTag | ValueTag | NullTag

  /** One call of `remove_trailing_whitespace`: where in the token buffer its scan starts, and where the
      terminator of the token stands. */
  datatype Trim = Trim(from: nat, terminator: nat)

  /** `content` stands for the token buffer from its third character up to `token_pos`, which is its length.
      `tags` and `trims` record what ADD_TOKEN was called for and where it trimmed. */
  datatype Machine = Machine(
    inEscape: bool,
    inComment: bool,
    inQuote: nat,
    inKey: bool,
    inValue: bool,
    addedKey: bool,
    lastEscaped: nat,
    content: string,
    tokens: seq<Option<string>>,
    tags: seq<Tag>,
    trims: seq<Trim>)

  function Initial(flags: Flags): Machine {
    var m := Machine(false, false, 0, true, false, false, 0, "", [], [], []);
    if flags.multi then m else m.(tokens := [Some("")], tags := [DummyTag])
  }

  // The macros

  function BeginKey(flags: Flags, m: Machine): Machine {
    if !m.inEscape && !m.inComment && m.inQuote == 0 then
      var n := m.(lastEscaped := 0, inKey := true, addedKey := false);
      if m.addedKey && flags.multi then n.(tokens := m.tokens + [None], tags := m.tags + [NullTag]) else n
    else m.(lastEscaped := 0)
  }

  /** `ADD_TOKEN` of the buffer's content behind the given dashes. */
  function AddToken(m: Machine, dashes: string, tag: Tag): Machine
    requires |dashes| <= 2
  {
    m.(tokens := m.tokens + [Some(TrimFrom(dashes + CStr(m.content), m.lastEscaped))],
       tags := m.tags + [tag],
       trims := m.trims + [Trim(2 - |dashes| + m.lastEscaped, 2 + |m.content|)])
  }

  function EndKey(flags: Flags, m: Machine): Machine {
    if !m.inEscape && m.inKey && m.inQuote == 0 then
      if m.content != ""
      then AddToken(m, Prefix(flags, m.content), KeyTag).(addedKey := true, content := "", inKey := false)
      else m.(inKey := false)
    else m
  }

  function BeginValue(m: Machine): Machine {
    m.(lastEscaped := 0, inValue := m.inValue || (!m.inKey && !m.inComment && m.inQuote == 0))
  }

  function EndValue(m: Machine): Machine {
    if !m.inEscape && m.inValue && m.inQuote == 0
    then AddToken(m, "", ValueTag).(content := "", inValue := false)
    else m
  }

  function EndComment(m: Machine): Machine {
    if !m.inEscape then m.(inComment := false) else m
  }

  function BeginComment(m: Machine): Machine {
    if !m.inEscape && m.inQuote == 0 then m.(inComment := true) else m
  }

  function EndEscape(m: Machine): Machine {
    if m.inEscape then m.(inEscape := false, lastEscaped := |m.content| + 1) else m
  }

  // The cases of the switch, each with whether the character is skipped

  function OnBlank(flags: Flags, m: Machine): Machine {
    var a := EndKey(flags, if flags.multi then EndValue(m) else m);
    EndEscape(if a.inEscape then BeginValue(a) else a)
  }

  function OnLineEnd(flags: Flags, m: Machine): Machine {
    EndEscape(BeginKey(flags, EndValue(EndComment(EndKey(flags, m)))))
  }

  function OnBackslash(m: Machine): Machine {
    BeginValue(if m.inEscape || m.inQuote == SINGLE_QUOTE then EndEscape(m) else m.(inEscape := true))
  }

  function OnHash(flags: Flags, m: Machine): Machine {
    EndEscape(BeginValue(EndValue(EndKey(flags, BeginComment(m)))))
  }

  /** A quote character: `mine` is its own kind, `other` the kind it is plain inside. */
  function OnQuote(m: Machine, mine: nat, other: nat): (Machine, bool) {
    var a := BeginValue(m);
    if !a.inEscape && !a.inComment && a.inQuote == mine
    then (a.(inQuote := 0, lastEscaped := |a.content|), true)
    else if !a.inEscape && !a.inComment && a.inQuote != other
    then (a.(inQuote := mine), true)
    else (EndEscape(a), false)
  }

  function Switch(flags: Flags, m: Machine, c: char): (Machine, bool) {
    if Blank(c) then (OnBlank(flags, m), false)
    else if LineEnd(c) then (OnLineEnd(flags, m), false)
    else if c == '\\' then (OnBackslash(m), false)
    else if c == '#' then (OnHash(flags, m), false)
    else if c == '"' then OnQuote(m, DOUBLE_QUOTE, SINGLE_QUOTE)
    else if c == '\'' then OnQuote(m, SINGLE_QUOTE, DOUBLE_QUOTE)
    else (EndEscape(BeginValue(m)), false)
  }

  /** What happens between two bytes. */
  function Step(flags: Flags, m: Machine, c: char): Machine {
    var (a, skip) := Switch(flags, m, c);
    if (a.inKey || a.inValue) && !LineEnd(c) && !a.inEscape && !skip && |a.content| < LIMIT
    then a.(content := a.content + [c])
    else a
  }

  function Run(flags: Flags, input: string): Machine {
    if input == "" then Initial(flags) else Step(flags, Run(flags, input[..|input| - 1]), input[|input| - 1])
  }

  /** What holds between any two bytes. */
  ghost predicate Invariant(m: Machine) {
    && !(m.inKey && m.inValue)
    && (m.inComment ==> !m.inKey && !m.inValue && m.inQuote == 0)
    && (m.inQuote == 0 || m.inQuote == SINGLE_QUOTE || m.inQuote == DOUBLE_QUOTE)
    && (m.inQuote != 0 ==> m.inKey || m.inValue)
    && (m.inQuote == SINGLE_QUOTE ==> !m.inEscape)
    && (!m.inKey && !m.inValue ==> m.content == "")
    && (m.inKey || m.inValue ==> m.lastEscaped <= |m.content| + 1)
    && |m.content| <= LIMIT
  }

  lemma BlankKeepsInvariant(flags: Flags, m: Machine)
    requires Invariant(m)
    ensures Invariant(OnBlank(flags, m))
  {
    hide TrimFrom, CStr, Prefix;
  }

  lemma LineEndKeepsInvariant(flags: Flags, m: Machine)
    requires Invariant(m)
    ensures Invariant(OnLineEnd(flags, m))
  {
    hide TrimFrom, CStr, Prefix;
  }

  lemma HashKeepsInvariant(flags: Flags, m: Machine)
    requires Invariant(m)
    ensures Invariant(OnHash(flags, m))
  {
    hide TrimFrom, CStr, Prefix;
  }

  lemma OthersKeepInvariant(m: Machine)
    requires Invariant(m)
    ensures Invariant(OnBackslash(m)) && Invariant(EndEscape(BeginValue(m)))
    ensures Invariant(OnQuote(m, SINGLE_QUOTE, DOUBLE_QUOTE).0) && Invariant(OnQuote(m, DOUBLE_QUOTE, SINGLE_QUOTE).0)
  {
  }

  lemma SwitchKeepsInvariant(flags: Flags, m: Machine, c: char)
    requires Invariant(m)
    ensures Invariant(Switch(flags, m, c).0)
  {
    hide Invariant, OnBlank, OnLineEnd, OnHash, OnBackslash, OnQuote, EndEscape, BeginValue;
    BlankKeepsInvariant(flags, m);
    LineEndKeepsInvariant(flags, m);
    HashKeepsInvariant(flags, m);
    OthersKeepInvariant(m);
  }

  lemma StepKeepsInvariant(flags: Flags, m: Machine, c: char)
    requires Invariant(m)
    ensures Invariant(Step(flags, m, c))
  {
    hide Switch;
    SwitchKeepsInvariant(flags, m, c);
  }

  /** Over every input the reader's state satisfies the invariant between bytes. */
  lemma {:induction false} RunInvariant(flags: Flags, input: string)
    ensures Invariant(Run(flags, input))
  {
    if input != "" {
      RunInvariant(flags, input[..|input| - 1]);
      StepKeepsInvariant(flags, Run(flags, input[..|input| - 1]), input[|input| - 1]);
    }
  }

  // Refinement

  function QuoteCode(q: Quote): nat {
    match q
    case Unquoted => 0
    case Single => SINGLE_QUOTE
    case Double => DOUBLE_QUOTE
  }

  function Pieces(place: Place): seq<Piece> {
    match place
    case InKey(ps) => ps
    case InValue(ps) => ps
    case _ => []
  }

  function TagOf(e: Entry): Tag {
    match e
    case Dummy => DummyTag
    case Key(_) => KeyTag
    case Value(_) => ValueTag
    case Null => NullTag
  }

  function Tags(es: seq<Entry>): (r: seq<Tag>)
    ensures |r| == |es|
    ensures forall i :: 0 <= i < |r| ==> r[i] == TagOf(es[i])
  {
    seq(|es|, i requires 0 <= i < |es| => TagOf(es[i]))
  }

  /** Where trimming an entry starts: behind what the token keeps, measured from its dashes. */
  function TrimOf(flags: Flags, e: Entry): seq<Trim> {
    match e
    case Key(ps) => [Trim(2 - |Prefix(flags, Content(ps))| + Kept(ps), 2 + |Content(ps)|)]
    case Value(ps) => [Trim(2 + Kept(ps), 2 + |Content(ps)|)]
    case _ => []
  }

  function Trims(flags: Flags, es: seq<Entry>): seq<Trim> {
    if es == [] then [] else Trims(flags, es[..|es| - 1]) + TrimOf(flags, es[|es| - 1])
  }

  /** The array, its tags and its trims are those of the entries. */
  ghost predicate Logged(flags: Flags, tokens: seq<Option<string>>, tags: seq<Tag>, trims: seq<Trim>, es: seq<Entry>) {
    tokens == Texts(flags, es) && tags == Tags(es) && trims == Trims(flags, es)
  }

  lemma LoggedPush(flags: Flags, tokens: seq<Option<string>>, tags: seq<Tag>, trims: seq<Trim>,
                   es: seq<Entry>, e: Entry)
    requires Logged(flags, tokens, tags, trims, es)
    ensures Logged(flags, tokens + [TextOf(flags, e)], tags + [TagOf(e)], trims + TrimOf(flags, e), es + [e])
  {
    hide TextOf, TrimOf;
    assert (es + [e])[..|es|] == es;
  }

  /** The machine is in the state the lexer describes. Its mark for trimming is right whenever it can be
      used: outside quotes and escapes. */
  ghost predicate Refines(flags: Flags, m: Machine, lx: Lexer) {
    && WellFormed(lx)
    && m.inEscape == lx.esc && m.inQuote == QuoteCode(lx.quote)
    && m.inComment == lx.place.InComment? && m.inKey == lx.place.InKey? && m.inValue == lx.place.InValue?
    && m.addedKey == lx.line.key.Some?
    && m.content == Content(Pieces(lx.place))
    && (Open(lx.place) && !lx.esc && lx.quote == Unquoted ==> m.lastEscaped == Kept(Pieces(lx.place)))
    && Logged(flags, m.tokens, m.tags, m.trims, Entries(flags, lx))
  }

  lemma ContentPush(ps: seq<Piece>, p: Piece)
    ensures Content(ps + [p])
            == if (p.Plain? || p.Escaped?) && |Content(ps)| < LIMIT then Content(ps) + [p.c] else Content(ps)
  {
    assert (ps + [p])[..|ps|] == ps;
  }

  lemma KeptPush(ps: seq<Piece>, p: Piece)
    ensures Kept(ps + [p]) == match p
                              case Plain(c) => if Blank(c) then Kept(ps) else 0
                              case Escaped(c) => if c == '\\' then 0 else |Content(ps)| + 1
                              case QuoteEnd => |Content(ps)|
                              case Joined => |Content(ps)| + 1
  {
    assert (ps + [p])[..|ps|] == ps;
  }

  /** What closing adds: the open token, unless it is an empty key. */
  function Closing(place: Place): seq<Entry> {
    match place
    case InKey(ps) => if Content(ps) == "" then [] else [Key(ps)]
    case InValue(ps) => [Value(ps)]
    case _ => []
  }

  lemma EntriesClose(flags: Flags, lx: Lexer)
    requires WellFormed(lx)
    ensures Entries(flags, Close(flags, lx)) == Entries(flags, lx) + Closing(lx.place)
  {
    hide Content, AllFinished;
    if lx.place.InValue? {
      var ps := lx.place.pieces;
      assert Values(lx.line.values + [ps]) == Values(lx.line.values) + [Value(ps)];
    } else if lx.place.InKey? {
      assert Values([]) == [];
    }
  }

  lemma EntriesEndLine(flags: Flags, lx: Lexer)
    ensures Entries(flags, EndLine(flags, lx)) == Entries(flags, Close(flags, lx))
            + if flags.multi && Close(flags, lx).line.key.Some? then [Null] else []
  {
    hide Close, Finished, Begun;
    var cl := Close(flags, lx);
    FinishedIs(flags, cl.line);
    var lines := cl.lines + [cl.line];
    assert lines[..|lines| - 1] == cl.lines;
  }

  lemma FinishedIs(flags: Flags, line: Line)
    ensures Finished(flags, line) == Begun(line) + if flags.multi && line.key.Some? then [Null] else []
    ensures Begun(NO_TOKENS) == []
  {
  }

  /** The entries depend on the lines only. */
  lemma SameEntries(flags: Flags, a: Lexer, b: Lexer)
    requires a.lines == b.lines && a.line == b.line
    ensures Entries(flags, a) == Entries(flags, b)
  {
  }

  lemma AddKeyLogged(flags: Flags, m: Machine, es: seq<Entry>, ps: seq<Piece>)
    requires Logged(flags, m.tokens, m.tags, m.trims, es) && m.content == Content(ps) && m.lastEscaped == Kept(ps)
    ensures var n := AddToken(m, Prefix(flags, m.content), KeyTag);
            Logged(flags, n.tokens, n.tags, n.trims, es + [Key(ps)])
  {
    hide Logged, Content, Kept, TrimFrom, CStr;
    LoggedPush(flags, m.tokens, m.tags, m.trims, es, Key(ps));
  }

  lemma AddValueLogged(flags: Flags, m: Machine, es: seq<Entry>, ps: seq<Piece>)
    requires Logged(flags, m.tokens, m.tags, m.trims, es) && m.content == Content(ps) && m.lastEscaped == Kept(ps)
    ensures var n := AddToken(m, "", ValueTag);
            Logged(flags, n.tokens, n.tags, n.trims, es + [Value(ps)])
  {
    hide Logged, Content, Kept, TrimFrom, CStr;
    assert "" + CStr(m.content) == CStr(m.content);
    LoggedPush(flags, m.tokens, m.tags, m.trims, es, Value(ps));
  }

  /** Outside quotes and escapes the two END macros close whichever token is open. */
  lemma CloseRefines(flags: Flags, m: Machine, lx: Lexer)
    requires Refines(flags, m, lx) && !lx.esc && lx.quote == Unquoted
    ensures Refines(flags, EndValue(EndKey(flags, m)), Close(flags, lx))
    ensures !Open(Close(flags, lx).place)
    ensures Content([]) == "" && Kept([]) == 0 && EndValue(EndKey(flags, m)).content == ""
  {
    hide TrimFrom, CStr, Prefix, Entries, Logged;
    assert Content([]) == "" && Kept([]) == 0;
    hide Content, Kept;
    EntriesClose(flags, lx);
    var es := Entries(flags, lx);
    assert es + [] == es;
    match lx.place
    case InKey(ps) => AddKeyLogged(flags, m, es, ps);
    case InValue(ps) => AddValueLogged(flags, m, es, ps);
    case _ =>
  }

  /** Adding one piece to the token that is open, or that opens with it. */
  lemma PutPiece(lx: Lexer, p: Piece)
    requires !lx.place.InComment?
    ensures var t := Put(lx, [p]);
            && t == lx.(place := t.place)
            && (t.place.InKey? <==> lx.place.InKey?) && (t.place.InValue? <==> !lx.place.InKey?)
    ensures var ps, qs := Pieces(lx.place), Pieces(Put(lx, [p]).place);
            && Content(qs)
               == (if (p.Plain? || p.Escaped?) && |Content(ps)| < LIMIT then Content(ps) + [p.c] else Content(ps))
            && Kept(qs) == match p
                           case Plain(c) => if Blank(c) then Kept(ps) else 0
                           case Escaped(c) => if c == '\\' then 0 else |Content(ps)| + 1
                           case QuoteEnd => |Content(ps)|
                           case Joined => |Content(ps)| + 1
  {
    hide Content, Kept;
    var ps := Pieces(lx.place);
    ContentPush(ps, p);
    KeptPush(ps, p);
    assert [] + [p] == [p];
  }

  lemma EndLineLogged(flags: Flags, n: Machine, lx: Lexer)
    requires Logged(flags, n.tokens, n.tags, n.trims, Entries(flags, Close(flags, lx)))
    requires !n.inEscape && n.inQuote == 0 && n.addedKey == Close(flags, lx).line.key.Some?
    ensures var m := BeginKey(flags, n.(inComment := false));
            Logged(flags, m.tokens, m.tags, m.trims, Entries(flags, EndLine(flags, lx)))
  {
    hide Entries, Logged, Close;
    EntriesEndLine(flags, lx);
    var es := Entries(flags, Close(flags, lx));
    if flags.multi && n.addedKey {
      LoggedPush(flags, n.tokens, n.tags, n.trims, es, Null);
      assert n.trims + [] == n.trims;
    } else {
      assert es + [] == es;
    }
  }

  // One lemma for each way the lexer moves

  /** A line end behind a backslash or inside quotes ends no line. */
  lemma EscapedLineEndStepIs(flags: Flags, m: Machine, c: char)
    requires LineEnd(c) && (m.inEscape || (m.inQuote != 0 && !m.inComment))
    ensures Step(flags, m, c)
            == if m.inEscape then m.(inEscape := false, lastEscaped := |m.content| + 1) else m.(lastEscaped := 0)
  {
    hide AddToken;
  }

  lemma RefinesEscapedLineEnd(flags: Flags, m: Machine, lx: Lexer, c: char)
    requires Refines(flags, m, lx) && LineEnd(c) && (lx.esc || lx.quote != Unquoted)
    ensures Refines(flags, Step(flags, m, c), StepLexer(flags, lx, c))
  {
    hide Entries, Logged, Content, Kept, Close, Step;
    EscapedLineEndStepIs(flags, m, c);
    SameEntries(flags, lx, StepLexer(flags, lx, c));
    if lx.esc && Open(lx.place) {
      PutPiece(lx, Joined);
    }
  }

  lemma RefinesLineEnd(flags: Flags, m: Machine, lx: Lexer, c: char)
    requires Refines(flags, m, lx) && LineEnd(c) && !lx.esc && lx.quote == Unquoted
    ensures Refines(flags, Step(flags, m, c), StepLexer(flags, lx, c))
  {
    hide TrimFrom, CStr, Prefix, Entries, Logged, Content, Close, Kept;
    var n := EndValue(EndKey(flags, m));
    CloseRefines(flags, m, lx);
    LineEndStepIs(flags, m, c);
    hide Step, EndKey, EndValue;
    EndLineLogged(flags, n, lx);
  }

  lemma LineEndStepIs(flags: Flags, m: Machine, c: char)
    requires !m.inEscape && m.inQuote == 0 && LineEnd(c)
    ensures Step(flags, m, c) == BeginKey(flags, EndValue(EndKey(flags, m)).(inComment := false))
  {
    hide TrimFrom, CStr, Prefix;
  }

  /** A character behind a backslash is taken as it is, whatever it would otherwise do. */
  lemma EscapedStepIs(flags: Flags, m: Machine, c: char)
    requires m.inEscape && m.inQuote != SINGLE_QUOTE && !LineEnd(c)
    ensures var opens := !m.inKey && !m.inComment && m.inQuote == 0;
            Step(flags, m, c)
            == m.(inEscape := false, inValue := m.inValue || opens,
                  lastEscaped := if c == '\\' then 0 else |m.content| + 1,
                  content := m.content
                             + if (m.inKey || m.inValue || opens) && |m.content| < LIMIT then [c] else [])
  {
    hide Switch;
    EscapedSwitch(flags, m, c);
  }

  lemma EscapedSwitch(flags: Flags, m: Machine, c: char)
    requires m.inEscape && m.inQuote != SINGLE_QUOTE && !LineEnd(c)
    ensures Switch(flags, m, c) == (if c == '\\' then BeginValue(EndEscape(m)) else EndEscape(BeginValue(m)), false)
  {
    hide EndEscape;
  }

  lemma PutInComment(lx: Lexer, ps: seq<Piece>)
    requires lx.place.InComment?
    ensures Put(lx, ps) == lx
  {
  }

  lemma RefinesEscaped(flags: Flags, m: Machine, lx: Lexer, c: char)
    requires Refines(flags, m, lx) && !LineEnd(c) && lx.esc
    ensures Refines(flags, Step(flags, m, c), StepLexer(flags, lx, c))
  {
    hide TrimFrom, CStr, Prefix, Entries, Logged, Content, Kept, Close, Put, Step;
    EscapedStepIs(flags, m, c);
    if lx.place.InComment? {
      PutInComment(lx, [Escaped(c)]);
    } else {
      PutPiece(lx, Escaped(c));
    }
    SameEntries(flags, lx, StepLexer(flags, lx, c));
  }

  lemma RefinesComment(flags: Flags, m: Machine, lx: Lexer, c: char)
    requires Refines(flags, m, lx) && !LineEnd(c) && !lx.esc && lx.place.InComment?
    ensures Refines(flags, Step(flags, m, c), StepLexer(flags, lx, c))
  {
    hide TrimFrom, CStr, Prefix, Entries, Logged, Content, Kept, Close;
    SameEntries(flags, lx, StepLexer(flags, lx, c));
  }

  /** Inside quotes everything but the closing quote, and inside double quotes the backslash, is text. */
  lemma QuotedStepIs(flags: Flags, m: Machine, c: char)
    requires !m.inEscape && !m.inComment && !LineEnd(c) && (m.inKey || m.inValue)
    requires m.inQuote == SINGLE_QUOTE || m.inQuote == DOUBLE_QUOTE
    ensures Step(flags, m, c)
            == if c == (if m.inQuote == SINGLE_QUOTE then '\'' else '"')
               then m.(inQuote := 0, lastEscaped := |m.content|)
               else if c == '\\' && m.inQuote == DOUBLE_QUOTE then m.(inEscape := true, lastEscaped := 0)
               else m.(lastEscaped := if Blank(c) then m.lastEscaped else 0,
                       content := if |m.content| < LIMIT then m.content + [c] else m.content)
  {
    hide EndKey, EndValue, BeginComment, EndEscape;
    QuotedMacros(flags, m);
    QuotedMacros(flags, m.(lastEscaped := 0));
  }

  lemma QuotedMacros(flags: Flags, m: Machine)
    requires !m.inEscape && m.inQuote != 0
    ensures EndKey(flags, m) == m && EndValue(m) == m && BeginComment(m) == m && EndEscape(m) == m
    ensures BeginValue(m) == m.(lastEscaped := 0)
  {
  }

  lemma RefinesQuoted(flags: Flags, m: Machine, lx: Lexer, c: char)
    requires Refines(flags, m, lx) && !LineEnd(c) && !lx.esc && lx.quote != Unquoted
    ensures Refines(flags, Step(flags, m, c), StepLexer(flags, lx, c))
  {
    hide Entries, Logged, Content, Kept, Close, Put, Step;
    QuotedStepIs(flags, m, c);
    PutPiece(lx, Plain(c));
    PutPiece(lx, QuoteEnd);
    SameEntries(flags, lx, StepLexer(flags, lx, c));
  }

  /** Outside quotes and escapes a character that closes nothing opens a value, if nothing is open. */
  lemma PlainStepIs(flags: Flags, m: Machine, c: char)
    requires !m.inEscape && m.inQuote == 0 && !m.inComment && !LineEnd(c) && c != '#'
    requires Blank(c) ==> !m.inKey && !flags.multi
    ensures Step(flags, m, c)
            == if Blank(c) then (if m.inValue && |m.content| < LIMIT then m.(content := m.content + [c]) else m)
               else
                 var n := m.(lastEscaped := 0, inValue := m.inValue || !m.inKey);
                 if c == '\\' then n.(inEscape := true)
                 else if c == '"' then n.(inQuote := DOUBLE_QUOTE)
                 else if c == '\'' then n.(inQuote := SINGLE_QUOTE)
                 else if |m.content| < LIMIT then n.(content := m.content + [c])
                 else n
  {
    hide AddToken;
  }

  lemma RefinesPlain(flags: Flags, m: Machine, lx: Lexer, c: char)
    requires Refines(flags, m, lx) && !LineEnd(c) && !lx.esc && lx.quote == Unquoted && !lx.place.InComment?
    requires c != '#' && !(Blank(c) && (lx.place.InKey? || flags.multi))
    ensures Refines(flags, Step(flags, m, c), StepLexer(flags, lx, c))
  {
    hide Entries, Logged, Content, Kept, Close, Step;
    PlainStepIs(flags, m, c);
    SameEntries(flags, lx, StepLexer(flags, lx, c));
    PutPiece(lx, Plain(c));
    PutNothing(lx);
  }

  lemma PutNothing(lx: Lexer)
    requires !lx.place.InComment?
    ensures Pieces(Put(lx, []).place) == Pieces(lx.place)
  {
    assert Pieces(lx.place) + [] == Pieces(lx.place);
  }

  lemma RefinesClosing(flags: Flags, m: Machine, lx: Lexer, c: char)
    requires Refines(flags, m, lx) && !LineEnd(c) && !lx.esc && lx.quote == Unquoted && !lx.place.InComment?
    requires c == '#' || (Blank(c) && (lx.place.InKey? || flags.multi))
    ensures Refines(flags, Step(flags, m, c), StepLexer(flags, lx, c))
  {
    hide TrimFrom, CStr, Prefix, Entries, Logged, Content, Kept;
    CloseRefines(flags, m, lx);
    var n := EndValue(EndKey(flags, m));
    SameEntries(flags, Close(flags, lx), StepLexer(flags, lx, c));
    if c == '#' {
      assert Step(flags, m, c) == n.(inComment := true, lastEscaped := 0);
    } else {
      assert Step(flags, m, c) == n;
    }
  }

  lemma StepRefines(flags: Flags, m: Machine, lx: Lexer, c: char)
    requires Refines(flags, m, lx)
    ensures Refines(flags, Step(flags, m, c), StepLexer(flags, lx, c))
  {
    hide Refines, Step, StepLexer;
    if LineEnd(c) && (lx.esc || lx.quote != Unquoted) {
      RefinesEscapedLineEnd(flags, m, lx, c);
    } else if LineEnd(c) {
      RefinesLineEnd(flags, m, lx, c);
    } else if lx.esc {
      RefinesEscaped(flags, m, lx, c);
    } else if lx.place.InComment? {
      RefinesComment(flags, m, lx, c);
    } else if lx.quote != Unquoted {
      RefinesQuoted(flags, m, lx, c);
    } else if c == '#' || (Blank(c) && (lx.place.InKey? || flags.multi)) {
      RefinesClosing(flags, m, lx, c);
    } else {
      RefinesPlain(flags, m, lx, c);
    }
  }

  /** For every input and every flags the reader's state is the one the lexer describes: its array is the
      lexer's tokens, each added as the key, value or NULL it is and trimmed from where its pieces say. */
  lemma {:induction false} RunRefines(flags: Flags, input: string)
    ensures Refines(flags, Run(flags, input), Lex(flags, input))
    ensures Run(flags, input).tokens == Tokens(flags, Lex(flags, input))
    ensures Run(flags, input).tags == Tags(Entries(flags, Lex(flags, input)))
    ensures Run(flags, input).trims == Trims(flags, Entries(flags, Lex(flags, input)))
  {
    if input == "" {
      assert Begun(NO_TOKENS) == [];
    } else {
      var n := |input| - 1;
      RunRefines(flags, input[..n]);
      StepRefines(flags, Run(flags, input[..n]), Lex(flags, input[..n]), input[n]);
    }
  }
}
