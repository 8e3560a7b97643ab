/** How the lexer reads what the printer writes, fragment by fragment and row by row. */
module ConfigReading {
  import opened Options
  import opened ConfigGrammar
  import opened ConfigMachine
  import opened ConfigValues
  import opened ConfigLaws
  import opened ConfigPrinter

  function Plains(s: string): (ps: seq<Piece>)
    ensures |ps| == |s|
    ensures forall i {:trigger ps[i]} :: 0 <= i < |s| ==> ps[i] == Plain(s[i])
  {
    seq(|s|, i requires 0 <= i < |s| => Plain(s[i]))
  }

  lemma PlainsPush(s: string, c: char)
    ensures Plains(s + [c]) == Plains(s) + [Plain(c)] && Plains("") == []
  {
  }

  lemma {:induction false} CharsOfPlains(s: string)
    ensures Chars(Plains(s)) == s
  {
    if s != "" {
      var init, c := s[..|s| - 1], s[|s| - 1];
      assert s == init + [c];
      CharsOfPlains(init);
      PlainsPush(init, c);
      CharsPush(Plains(init), Plain(c));
    }
  }

  function GuardedPiece(c: char, all: bool): seq<Piece> {
    if all || c == '"' || c == '\\' then [if NewLine(c) then Joined else Escaped(c)]
    else if NewLine(c) then []
    else [Plain(c)]
  }

  function GuardedPieces(s: string, all: bool): seq<Piece> {
    if s == "" then [] else GuardedPieces(s[..|s| - 1], all) + GuardedPiece(s[|s| - 1], all)
  }

  function FragmentPieces(f: Fragment): seq<Piece> {
    match f
    case Bare(text) => Plains(text)
    case Behind(c) => [Escaped(c)]
    case InSingle(text) => Plains(OneLine(text)) + [QuoteEnd]
    case InDouble(text, all) => GuardedPieces(text, all) + [QuoteEnd]
    case Continued(_) => [Joined]
  }

  function TokenPieces(fs: seq<Fragment>): seq<Piece> {
    if fs == [] then [] else TokenPieces(fs[..|fs| - 1]) + FragmentPieces(fs[|fs| - 1])
  }

  // The characters of a token

  lemma {:induction false} CharsOfGuarded(s: string, all: bool)
    ensures Chars(GuardedPieces(s, all)) == OneLine(s)
  {
    if s != "" {
      hide Chars;
      var init, c := s[..|s| - 1], s[|s| - 1];
      var ps := GuardedPieces(init, all);
      CharsOfGuarded(init, all);
      CharsPush(ps, Escaped(c));
      CharsPush(ps, Plain(c));
      CharsPush(ps, Joined);
      assert ps + [] == ps && OneLine(init) + "" == OneLine(init);
    } else {
      assert Chars([]) == "";
    }
  }

  lemma CharsOfFragment(f: Fragment)
    ensures Chars(FragmentPieces(f)) == FragmentText(f)
  {
    hide Chars, Protected;
    match f
    case Bare(text) => CharsOfPlains(text);
    case Behind(c) => OneChar(Escaped(c));
    case InSingle(text) =>
      CharsOfPlains(OneLine(text));
      CharsPush(Plains(OneLine(text)), QuoteEnd);
    case InDouble(text, all) =>
      CharsOfGuarded(text, all);
      CharsPush(GuardedPieces(text, all), QuoteEnd);
    case Continued(_) => OneChar(Joined);
  }

  lemma OneChar(p: Piece)
    ensures Chars([p]) == if p.Plain? || p.Escaped? then [p.c] else ""
  {
    assert [p][..0] == [] && Chars([]) == "";
  }

  lemma {:induction false} CharsOfToken(fs: seq<Fragment>)
    ensures Chars(TokenPieces(fs)) == TokenText(fs)
  {
    if fs != [] {
      hide FragmentPieces, FragmentText;
      var init, f := fs[..|fs| - 1], fs[|fs| - 1];
      CharsOfToken(init);
      CharsOfFragment(f);
      CharsConcat(TokenPieces(init), FragmentPieces(f));
    }
  }

  // Reading one fragment

  predicate Ready(lx: Lexer) {
    lx.quote == Unquoted && !lx.esc && !lx.place.InComment?
  }

  lemma PutConcat(lx: Lexer, a: seq<Piece>, b: seq<Piece>)
    requires !lx.place.InComment?
    ensures Put(Put(lx, a), b) == Put(lx, a + b)
    ensures var t := Put(lx, a); t == lx.(place := t.place) && Open(t.place)
  {
    if Open(lx.place) {
      assert (lx.place.pieces + a) + b == lx.place.pieces + (a + b);
    }
  }

  lemma OrdinaryStep(flags: Flags, lx: Lexer, c: char)
    requires Ready(lx) && Ordinary(c)
    ensures StepLexer(flags, lx, c) == Put(lx, [Plain(c)])
  {
  }

  lemma NoStep(flags: Flags, lx: Lexer)
    ensures LexFrom(flags, lx, "") == lx
  {
  }

  lemma {:induction false} BareRun(flags: Flags, lx: Lexer, s: string)
    requires Ready(lx) && s != "" && forall i :: 0 <= i < |s| ==> Ordinary(s[i])
    ensures LexFrom(flags, lx, s) == Put(lx, Plains(s))
  {
    hide LexFrom, StepLexer, Put, Ordinary;
    var init, c := s[..|s| - 1], s[|s| - 1];
    assert s == init + [c];
    OneStep(flags, lx, init, c);
    PlainsPush(init, c);
    if init == "" {
      NoStep(flags, lx);
      OrdinaryStep(flags, lx, c);
      assert [] + [Plain(c)] == [Plain(c)];
    } else {
      BareRun(flags, lx, init);
      PutConcat(lx, Plains(init), [Plain(c)]);
      OrdinaryStep(flags, Put(lx, Plains(init)), c);
    }
  }

  lemma BehindRun(flags: Flags, lx: Lexer, c: char)
    requires Ready(lx)
    ensures LexFrom(flags, lx, ['\\', c]) == Put(lx, [if NewLine(c) then Joined else Escaped(c)])
  {
    hide LexFrom;
    TwoSteps(flags, lx, '\\', c);
    var p := if NewLine(c) then Joined else Escaped(c);
    PutConcat(lx, [], [p]);
    assert [] + [p] == [p];
  }

  /** In single quotes every character but the quote stands for itself, and line ends are dropped. */
  lemma {:induction false} SingleRun(flags: Flags, lx: Lexer, s: string)
    requires lx.quote == Single && !lx.esc && Open(lx.place) && '\'' !in s
    ensures LexFrom(flags, lx, s) == Put(lx, Plains(OneLine(s)))
  {
    if s == "" {
      PutNothing(lx);
      PlainsPush("", 'x');
      PutPlace(lx, []);
    } else {
      var init, c := s[..|s| - 1], s[|s| - 1];
      assert s == init + [c] && c in s;
      SingleRun(flags, lx, init);
      hide LexFrom, Put;
      OneStep(flags, lx, init, c);
      PutConcat(lx, Plains(OneLine(init)), [Plain(c)]);
      if NewLine(c) {
        assert OneLine(s) == OneLine(init) + "" == OneLine(init);
      } else {
        PlainsPush(OneLine(init), c);
      }
    }
  }

  lemma PutPlace(lx: Lexer, ps: seq<Piece>)
    requires Open(lx.place) && ps == []
    ensures Put(lx, ps) == lx
  {
    assert lx.place.pieces + ps == lx.place.pieces;
  }

  /** So they do in double quotes, where a backslash hides any character. */
  lemma {:induction false} DoubleRun(flags: Flags, lx: Lexer, s: string, all: bool)
    requires lx.quote == Double && !lx.esc && Open(lx.place)
    ensures LexFrom(flags, lx, Guarded(s, all)) == Put(lx, GuardedPieces(s, all))
  {
    if s == "" {
      PutPlace(lx, []);
    } else {
      var init, c := s[..|s| - 1], s[|s| - 1];
      DoubleRun(flags, lx, init, all);
      hide LexFrom, Put, StepLexer, GuardedPiece;
      var guard := if all || c == '"' || c == '\\' then ['\\', c] else [c];
      PutConcat(lx, GuardedPieces(init, all), GuardedPiece(c, all));
      DoubleStep(flags, Put(lx, GuardedPieces(init, all)), c, all);
      LexFromConcat(flags, lx, Guarded(init, all), guard);
    }
  }

  lemma DoubleStep(flags: Flags, lx: Lexer, c: char, all: bool)
    requires lx.quote == Double && !lx.esc && Open(lx.place)
    ensures LexFrom(flags, lx, if all || c == '"' || c == '\\' then ['\\', c] else [c]) == Put(lx, GuardedPiece(c, all))
  {
    hide LexFrom;
    TwoSteps(flags, lx, '\\', c);
    FirstStep(flags, lx, c);
    PutPlace(lx, []);
  }

  lemma QuotedRun(flags: Flags, lx: Lexer, q: char, quote: Quote, s: string, ps: seq<Piece>)
    requires Ready(lx) && ((q == '\'' && quote == Single) || (q == '"' && quote == Double))
    requires LexFrom(flags, Put(lx, []).(quote := quote), s) == Put(Put(lx, []).(quote := quote), ps)
    ensures LexFrom(flags, lx, [q] + s + [q]) == Put(lx, ps + [QuoteEnd])
  {
    hide LexFrom;
    var open := Put(lx, []).(quote := quote);
    FirstStep(flags, lx, q);
    LexFromConcat(flags, lx, [q], s);
    OneStep(flags, lx, [q] + s, q);
    PutConcat(lx, [], ps);
    assert [] + ps == ps;
    PutConcat(open, ps, [QuoteEnd]);
    PutConcat(lx, ps, [QuoteEnd]);
    assert StepLexer(flags, Put(open, ps), q) == Put(Put(open, ps), [QuoteEnd]).(quote := Unquoted);
    assert Put(lx, []) == lx.(place := open.place);
    PutConcat(lx, [], ps + [QuoteEnd]);
    assert [] + (ps + [QuoteEnd]) == ps + [QuoteEnd];
  }

  lemma FragmentRun(flags: Flags, lx: Lexer, f: Fragment)
    requires Ready(lx) && LegalFragment(f)
    ensures LexFrom(flags, lx, PrintFragment(f)) == Put(lx, FragmentPieces(f))
  {
    hide LexFrom, Guarded, GuardedPieces, OneLine;
    PutConcat(lx, [], []);
    match f
    case Bare(text) => BareRun(flags, lx, text);
    case Behind(c) => BehindRun(flags, lx, c);
    case Continued(nl) => BehindRun(flags, lx, nl);
    case InSingle(text) =>
      SingleRun(flags, Put(lx, []).(quote := Single), text);
      assert "'" == ['\''];
      QuotedRun(flags, lx, '\'', Single, text, Plains(OneLine(text)));
    case InDouble(text, all) =>
      DoubleRun(flags, Put(lx, []).(quote := Double), text, all);
      assert "\"" == ['"'];
      QuotedRun(flags, lx, '"', Double, Guarded(text, all), GuardedPieces(text, all));
  }

  // Reading a token

  lemma {:induction false} TokenRun(flags: Flags, lx: Lexer, fs: seq<Fragment>)
    requires Ready(lx) && fs != [] && forall i :: 0 <= i < |fs| ==> LegalFragment(fs[i])
    ensures LexFrom(flags, lx, PrintToken(fs)) == Put(lx, TokenPieces(fs))
  {
    hide LexFrom, Put, FragmentPieces, PrintFragment, LegalFragment;
    var init, f := fs[..|fs| - 1], fs[|fs| - 1];
    FragmentRun(flags, lx, f);
    if init == [] {
      assert PrintToken(fs) == "" + PrintFragment(f) == PrintFragment(f);
      assert TokenPieces(fs) == [] + FragmentPieces(f) == FragmentPieces(f);
    } else {
      TokenRun(flags, lx, init);
      PutConcat(lx, TokenPieces(init), FragmentPieces(f));
      LexFromConcat(flags, lx, PrintToken(init), PrintFragment(f));
      FragmentRun(flags, Put(lx, TokenPieces(init)), f);
    }
  }

  // The line a printed row is read as

  function WordPieces(ws: seq<Word>): (r: seq<seq<Piece>>)
    ensures |r| == |ws| && forall i {:trigger r[i]} :: 0 <= i < |r| ==> r[i] == TokenPieces(ws[i].token)
  {
    seq(|ws|, i requires 0 <= i < |ws| => TokenPieces(ws[i].token))
  }

  function SpreadPieces(ws: seq<Word>): seq<Piece>
    requires ws != []
  {
    var w := ws[|ws| - 1];
    if |ws| == 1 then TokenPieces(w.token)
    else SpreadPieces(ws[..|ws| - 1]) + Plains(w.gap) + TokenPieces(w.token)
  }

  function RowKey(r: Row): Option<seq<Piece>> {
    if TokenText(r.key) == "" then None else Some(TokenPieces(r.key))
  }

  function RowValues(flags: Flags, r: Row): seq<seq<Piece>> {
    if flags.multi then WordPieces(r.words)
    else if r.words == [] then []
    else [SpreadPieces(r.words) + Plains(r.trailing)]
  }

  function RowLine(flags: Flags, r: Row): Line {
    Line(RowKey(r), RowValues(flags, r))
  }

  // Reading a row

  /** White space ends a key, with MULTI_VALUE a value, and is otherwise part of an open value. */
  function Across(flags: Flags, lx: Lexer, gap: string): Lexer {
    if lx.place.InValue? && !flags.multi then Put(lx, Plains(gap)) else Close(flags, lx)
  }

  lemma SpaceStep(flags: Flags, lx: Lexer, c: char)
    requires Ready(lx) && Space(c)
    ensures StepLexer(flags, lx, c)
            == if lx.place.InValue? && !flags.multi then Put(lx, [Plain(c)]) else Close(flags, lx)
    ensures var cl := Close(flags, lx); cl.place.Gap? && Ready(cl) && Close(flags, cl) == cl
  {
    hide Content;
  }

  lemma {:induction false} GapRun(flags: Flags, lx: Lexer, gap: string)
    requires Ready(lx) && gap != "" && Spaces(gap)
    ensures LexFrom(flags, lx, gap) == Across(flags, lx, gap)
  {
    hide LexFrom, StepLexer, Put, Close;
    var init, c := gap[..|gap| - 1], gap[|gap| - 1];
    assert gap == init + [c];
    OneStep(flags, lx, init, c);
    PlainsPush(init, c);
    SpaceStep(flags, lx, c);
    if init == "" {
      NoStep(flags, lx);
      assert [] + [Plain(c)] == [Plain(c)];
    } else {
      GapRun(flags, lx, init);
      PutConcat(lx, Plains(init), [Plain(c)]);
      SpaceStep(flags, Across(flags, lx, init), c);
      PutKeepsKind(lx, Plains(init));
    }
  }

  lemma PutKeepsKind(lx: Lexer, ps: seq<Piece>)
    requires !lx.place.InComment?
    ensures Put(lx, ps).place.InKey? <==> lx.place.InKey?
    ensures Put(lx, ps).place.InValue? <==> !lx.place.InKey?
  {
  }

  /** One word behind an open key or value. */
  lemma WordRun(flags: Flags, lx: Lexer, w: Word)
    requires Ready(lx) && Open(lx.place) && LegalWord(w)
    ensures LexFrom(flags, lx, w.gap + PrintToken(w.token)) == Put(Across(flags, lx, w.gap), TokenPieces(w.token))
    ensures Ready(Across(flags, lx, w.gap))
  {
    hide LexFrom, Put, LegalFragment, Content;
    LexFromConcat(flags, lx, w.gap, PrintToken(w.token));
    GapRun(flags, lx, w.gap);
    PutConcat(lx, Plains(w.gap), []);
    TokenRun(flags, Across(flags, lx, w.gap), w.token);
  }

  /** Where the lexer stands behind the words of a row whose key it has just read. */
  function AfterWords(flags: Flags, lx: Lexer, ws: seq<Word>): Lexer
    requires ws != []
  {
    var n, closed := |ws| - 1, Close(flags, lx);
    if flags.multi
    then closed.(place := InValue(TokenPieces(ws[n].token)), line := Line(closed.line.key, WordPieces(ws[..n])))
    else closed.(place := InValue(SpreadPieces(ws)))
  }

  lemma AfterFirst(flags: Flags, lx: Lexer, w: Word)
    requires Ready(lx) && lx.place.InKey? && lx.line == NO_TOKENS
    ensures Put(Across(flags, lx, w.gap), TokenPieces(w.token)) == AfterWords(flags, lx, [w])
  {
    hide TokenPieces, Content;
    assert WordPieces([]) == [];
  }

  lemma AfterNext(flags: Flags, lx: Lexer, ws: seq<Word>, w: Word)
    requires Ready(lx) && lx.place.InKey? && lx.line == NO_TOKENS && ws != []
    ensures var mid := AfterWords(flags, lx, ws);
            && Ready(mid) && Open(mid.place)
            && Put(Across(flags, mid, w.gap), TokenPieces(w.token)) == AfterWords(flags, lx, ws + [w])
  {
    hide TokenPieces, Content;
    var n := |ws|;
    assert (ws + [w])[..n] == ws && (ws + [w])[n] == w;
    assert WordPieces(ws) == WordPieces(ws[..n - 1]) + [TokenPieces(ws[n - 1].token)];
  }

  lemma {:induction false} WordsRun(flags: Flags, lx: Lexer, ws: seq<Word>)
    requires Ready(lx) && lx.place.InKey? && lx.line == NO_TOKENS && ws != []
    requires forall i :: 0 <= i < |ws| ==> LegalWord(ws[i])
    ensures LexFrom(flags, lx, PrintWords(ws)) == AfterWords(flags, lx, ws)
  {
    hide LexFrom, LegalWord, TokenPieces, PrintToken, Across, AfterWords, Put;
    var n := |ws| - 1;
    var init, w := ws[..n], ws[n];
    var s := PrintWords(init);
    assert PrintWords(ws) == s + (w.gap + PrintToken(w.token));
    LexFromConcat(flags, lx, s, w.gap + PrintToken(w.token));
    if init == [] {
      NoStep(flags, lx);
      WordRun(flags, lx, w);
      AfterFirst(flags, lx, w);
      assert ws == [w];
    } else {
      WordsRun(flags, lx, init);
      AfterNext(flags, lx, init, w);
      WordRun(flags, AfterWords(flags, lx, init), w);
      assert ws == init + [w];
    }
  }

  /** A lexer that ends a row's line here. */
  ghost predicate Ends(flags: Flags, s: Lexer, lx: Lexer, line: Line) {
    && s.quote == Unquoted && !s.esc && WellFormed(s) && s.lines == lx.lines && Close(flags, s).line == line
  }

  lemma KeyRun(flags: Flags, lx: Lexer, key: seq<Fragment>)
    requires AtLineStart(lx) && (key != [] ==> LegalToken(key))
    ensures LexFrom(flags, lx, PrintToken(key)) == lx.(place := InKey(TokenPieces(key)))
    ensures Close(flags, lx.(place := InKey(TokenPieces(key)))).line.key
            == if TokenText(key) == "" then None else Some(TokenPieces(key))
  {
    hide LegalFragment, Chars;
    CharsOfToken(key);
    if key != [] {
      hide LexFrom, TokenPieces;
      TokenRun(flags, lx, key);
      assert [] + TokenPieces(key) == TokenPieces(key);
    }
  }

  lemma WordsEnd(flags: Flags, lx: Lexer, r: Row)
    requires AtLineStart(lx) && LegalRow(r)
    ensures var s := LexFrom(flags, lx, PrintToken(r.key) + PrintWords(r.words));
            && Ready(s) && Open(s.place) && s.lines == lx.lines && WellFormed(s)
            && Ends(flags, s, lx, RowLine(flags, r.(trailing := "")))
            && (s.place.InValue? <==> r.words != [])
            && (r.words != [] && !flags.multi ==> s.place.pieces == SpreadPieces(r.words))
  {
    hide LexFrom, TokenPieces, PrintToken, Content, TokenText, LegalToken, LegalWord, SpreadPieces;
    var keyed := lx.(place := InKey(TokenPieces(r.key)));
    LexFromConcat(flags, lx, PrintToken(r.key), PrintWords(r.words));
    KeyRun(flags, lx, r.key);
    if r.words == [] {
      NoStep(flags, keyed);
    } else {
      WordsRun(flags, keyed, r.words);
      var n := |r.words| - 1;
      assert WordPieces(r.words) == WordPieces(r.words[..n]) + [TokenPieces(r.words[n].token)];
      assert Plains("") == [] && SpreadPieces(r.words) + [] == SpreadPieces(r.words);
      assert [] + [SpreadPieces(r.words)] == [SpreadPieces(r.words)];
    }
  }

  lemma BodyRun(flags: Flags, lx: Lexer, r: Row)
    requires AtLineStart(lx) && LegalRow(r)
    ensures Ends(flags, LexFrom(flags, lx, PrintToken(r.key) + PrintWords(r.words) + r.trailing), lx, RowLine(flags, r))
  {
    hide LexFrom, TokenPieces, PrintToken, PrintWords, Content, TokenText, LegalToken, LegalWord, SpreadPieces;
    var body := PrintToken(r.key) + PrintWords(r.words);
    var s := LexFrom(flags, lx, body);
    WordsEnd(flags, lx, r);
    LexFromConcat(flags, lx, body, r.trailing);
    if r.trailing == "" {
      NoStep(flags, s);
    } else {
      GapRun(flags, s, r.trailing);
      if r.words != [] && !flags.multi {
        assert Close(flags, s).line.values == s.line.values + [SpreadPieces(r.words) + Plains("")];
        assert s.line.values == [] by {
          assert |Close(flags, s).line.values| == 1;
        }
        assert Put(s, Plains(r.trailing)).place == InValue(SpreadPieces(r.words) + Plains(r.trailing));
      }
    }
  }

  lemma EndRun(flags: Flags, s: Lexer, r: Row)
    requires s.quote == Unquoted && !s.esc && WellFormed(s) && LegalRow(r)
    ensures LexFrom(flags, s, PrintEnd(r)) == EndLine(flags, s)
  {
    hide LexFrom, LegalToken, LegalWord, Close;
    if r.comment.Some? {
      assert PrintEnd(r) == Hashed(r.comment.value, r.end);
      HashedRun(flags, s, r.comment.value, r.end);
    } else {
      assert PrintEnd(r) == [r.end];
      FirstStep(flags, s, r.end);
    }
  }

  lemma RowRun(flags: Flags, lx: Lexer, r: Row)
    requires AtLineStart(lx) && LegalRow(r)
    ensures LexFrom(flags, lx, PrintRow(r)) == lx.(lines := lx.lines + [RowLine(flags, r)])
  {
    hide LexFrom, LegalRow, RowLine, PrintToken, PrintWords, PrintEnd, Close;
    var body := PrintToken(r.key) + PrintWords(r.words) + r.trailing;
    BodyRun(flags, lx, r);
    LexFromConcat(flags, lx, body, PrintEnd(r));
    EndRun(flags, LexFrom(flags, lx, body), r);
    CloseKeeps(flags, LexFrom(flags, lx, body));
  }

  lemma CloseKeeps(flags: Flags, lx: Lexer)
    ensures var t := Close(flags, lx); t == lx.(place := t.place, line := t.line)
  {
    hide Content;
  }
}
