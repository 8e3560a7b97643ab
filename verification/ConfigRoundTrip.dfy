/** The reader gives back what the printer wrote. */
module ConfigRoundTrip {
  import opened Options
  import opened ConfigGrammar
  import opened ConfigMachine
  import opened ConfigValues
  import opened ConfigLaws
  import opened ConfigTrims
  import opened ConfigPrinter
  import opened ConfigReading

  // What printed rows should come back as

  /** Keys and values are no longer than is kept. */
  predicate Fits(flags: Flags, r: Row) {
    && |TokenText(r.key)| <= 4093
    && (flags.multi ==> forall i :: 0 <= i < |r.words| ==> |TokenText(r.words[i].token)| <= 4093)
    && (!flags.multi && r.words != [] ==> |Spread(r.words)| <= 4093)
  }

  predicate Printable(flags: Flags, rows: seq<Row>) {
    forall i :: 0 <= i < |rows| ==> LegalRow(rows[i]) && Fits(flags, rows[i])
  }

  predicate EndsBlank(s: string) {
    s != "" && Space(s[|s| - 1])
  }

  /** Whether the token's last line is continued, and so nothing on it belongs to the token. */
  predicate EndsContinued(fs: seq<Fragment>) {
    fs != [] && fs[|fs| - 1].Continued?
  }

  /** Trimming takes nothing from the key: it ends in no blank, takes no dashes, or takes one and ends continued. */
  predicate KeyWhole(flags: Flags, key: seq<Fragment>) {
    !EndsBlank(TokenText(key)) || flags.blank || (EndsContinued(key) && (flags.x || |TokenText(key)| == 1))
  }

  /** Trimming leaves nothing of the white space behind the value: there is none, the value ends on its line, or nothing
      more is kept. */
  predicate ValueWhole(flags: Flags, r: Row) {
    || flags.multi || r.words == [] || r.trailing == ""
    || !EndsContinued(r.words[|r.words| - 1].token) || |Spread(r.words)| == 4093
  }

  /** No key and no value ends continued. */
  predicate Tidy(flags: Flags, r: Row) {
    && !EndsContinued(r.key)
    && (forall i :: 0 <= i < |r.words| && (flags.multi || i == |r.words| - 1) ==> !EndsContinued(r.words[i].token))
  }

  /** A key takes no dashes with BLANK, one with X or when it is a single letter, and else two. */
  function Dashed(flags: Flags, key: string): string {
    if flags.blank then key else if flags.x || |key| == 1 then "-" + key else "--" + key
  }

  function KeyPart(flags: Flags, key: string): seq<Option<string>> {
    if key == "" then [] else [Some(Dashed(flags, key))]
  }

  function WordTexts(ws: seq<Word>): seq<Option<string>> {
    seq(|ws|, i requires 0 <= i < |ws| => Some(TokenText(ws[i].token)))
  }

  /** With MULTI_VALUE every word is an entry, else all words are one. */
  function ValuePart(flags: Flags, ws: seq<Word>): seq<Option<string>> {
    if flags.multi then WordTexts(ws) else if ws == [] then [] else [Some(Spread(ws))]
  }

  function EndPart(flags: Flags, key: string): seq<Option<string>> {
    if flags.multi && key != "" then [None] else []
  }

  function RowTokens(flags: Flags, r: Row): seq<Option<string>> {
    KeyPart(flags, TokenText(r.key)) + (ValuePart(flags, r.words) + EndPart(flags, TokenText(r.key)))
  }

  function Expected(flags: Flags, rows: seq<Row>): seq<Option<string>> {
    if rows == [] then if flags.multi then [] else [Some("")]
    else Expected(flags, rows[..|rows| - 1]) + RowTokens(flags, rows[|rows| - 1])
  }

  // What a printed token's text is

  /** Trimming takes nothing from the token: all of it is left alone, or its last character is no blank. */
  predicate Firm(ps: seq<Piece>) {
    || Kept(ps) == |Content(ps)|
    || (Kept(ps) == 0 && Content(ps) != "" && !Blank(Content(ps)[|Content(ps)| - 1]))
  }

  /** A line joined at the end protects one character more than there is. */
  predicate Overfirm(ps: seq<Piece>) {
    Kept(ps) == |Content(ps)| + 1
  }

  lemma FirmPiece(ps: seq<Piece>, p: Piece)
    requires |Chars(ps + [p])| <= LIMIT && (p.Plain? ==> Ordinary(p.c))
    ensures if p.Joined? then Overfirm(ps + [p]) else Firm(ps + [p])
  {
    hide Content, Kept, Chars, Protected;
    CharsPush(ps, p);
    ContentLength(ps);
    ContentPush(ps, p);
    KeptPush(ps, p);
  }

  lemma FirmFragment(ps: seq<Piece>, f: Fragment)
    requires LegalFragment(f) && |Chars(ps + FragmentPieces(f))| <= LIMIT
    ensures if f.Continued? then Overfirm(ps + FragmentPieces(f)) else Firm(ps + FragmentPieces(f))
  {
    hide Firm, Overfirm, Chars, OneLine, GuardedPieces;
    var qs := FragmentPieces(f);
    assert ps + qs == (ps + qs[..|qs| - 1]) + [qs[|qs| - 1]];
    FirmPiece(ps + qs[..|qs| - 1], qs[|qs| - 1]);
  }

  lemma FirmToken(ps: seq<Piece>, fs: seq<Fragment>)
    requires LegalToken(fs) && |Chars(ps + TokenPieces(fs))| <= LIMIT
    ensures if EndsContinued(fs) then Overfirm(ps + TokenPieces(fs)) else Firm(ps + TokenPieces(fs))
  {
    hide Firm, Overfirm, Chars, FragmentPieces, LegalFragment;
    var init, f := fs[..|fs| - 1], fs[|fs| - 1];
    assert ps + TokenPieces(fs) == (ps + TokenPieces(init)) + FragmentPieces(f);
    FirmFragment(ps + TokenPieces(init), f);
  }

  lemma {:induction false} CharsOfSpread(ws: seq<Word>)
    requires ws != []
    ensures Chars(SpreadPieces(ws)) == Spread(ws)
  {
    hide Chars, TokenPieces, TokenText;
    var init, w := ws[..|ws| - 1], ws[|ws| - 1];
    CharsOfToken(w.token);
    if init != [] {
      CharsOfSpread(init);
      CharsOfPlains(w.gap);
      CharsConcat(SpreadPieces(init), Plains(w.gap));
      CharsConcat(SpreadPieces(init) + Plains(w.gap), TokenPieces(w.token));
    }
  }

  lemma FirmSpread(ws: seq<Word>)
    requires ws != [] && LegalWord(ws[|ws| - 1]) && |Spread(ws)| <= LIMIT
    ensures var ps := SpreadPieces(ws); if EndsContinued(ws[|ws| - 1].token) then Overfirm(ps) else Firm(ps)
  {
    hide Firm, Overfirm, EndsContinued, Chars, TokenPieces, Spread, LegalToken;
    CharsOfSpread(ws);
    var w := ws[|ws| - 1];
    if |ws| == 1 {
      assert [] + TokenPieces(w.token) == TokenPieces(w.token);
      FirmToken([], w.token);
    } else {
      FirmToken(SpreadPieces(ws[..|ws| - 1]) + Plains(w.gap), w.token);
    }
  }

  /** White space behind a token adds to its content, but not to what is trimmed or left alone. */
  lemma {:induction false} BlanksBehind(ps: seq<Piece>, gap: string)
    requires Spaces(gap)
    ensures var qs := ps + Plains(gap);
            Kept(qs) == Kept(ps) && Content(ps) <= Content(qs) && TrimRight(Content(qs)) == TrimRight(Content(ps))
  {
    hide Kept, Content, TrimRight;
    if gap == "" {
      assert ps + Plains(gap) == ps;
    } else {
      var init, c := gap[..|gap| - 1], gap[|gap| - 1];
      BlanksBehind(ps, init);
      assert gap == init + [c];
      PlainsPush(init, c);
      var rs := ps + Plains(init);
      assert ps + Plains(gap) == rs + [Plain(c)];
      KeptPush(rs, Plain(c));
      ContentPush(rs, Plain(c));
      TrimRightPush(Content(rs), c);
    }
  }

  lemma TrimFromFirm(s: string, t: string, k: nat)
    requires s <= t && TrimRight(t) == TrimRight(s)
    requires k == |s| || (k == 0 && s != "" && !Blank(s[|s| - 1]))
    ensures TrimFrom(t, k) == s
  {
    hide TrimFrom, TrimRight;
    TrimFromIs(t, k);
    TrimRightLength(s);
    assert TrimRight(s) <= s;
  }

  /** A firm token without NUL, with white space behind it, is the value it spells. */
  lemma ValueOfFirm(ps: seq<Piece>, gap: string)
    requires Firm(ps) && Spaces(gap) && '\0' !in Chars(ps) && |Chars(ps)| <= LIMIT
    ensures ValueText(ps + Plains(gap)) == Chars(ps)
    ensures !Overreaches(ps + Plains(gap))
  {
    hide Kept, Chars, TrimFrom, TrimRight, CStr, Overreaches;
    var qs := ps + Plains(gap);
    BlanksBehind(ps, gap);
    TrimFromFirm(Content(ps), Content(qs), Kept(qs));
    CleanContent(ps, gap);
    KeptOverreaches(qs);
  }

  lemma CleanContent(ps: seq<Piece>, gap: string)
    requires Spaces(gap) && '\0' !in Chars(ps) && |Chars(ps)| <= LIMIT
    ensures CStr(Content(ps + Plains(gap))) == Content(ps + Plains(gap)) && Content(ps) == Chars(ps)
    ensures |Content(ps + Plains(gap))| == Min(|Chars(ps)| + |gap|, LIMIT)
  {
    hide Chars, CStr;
    CharsConcat(ps, Plains(gap));
    CharsOfPlains(gap);
    CStrWhole(Content(ps + Plains(gap)));
  }

  /** One whose last line is continued keeps one more character when there is one. */
  lemma ValueOfOverfirm(ps: seq<Piece>, gap: string)
    requires Overfirm(ps) && Spaces(gap) && '\0' !in Chars(ps) && |Chars(ps)| <= LIMIT
    ensures ValueText(ps + Plains(gap)) == Chars(ps) <==> gap == "" || |Chars(ps)| == LIMIT
  {
    hide Kept, Chars, TrimFrom, TrimRight, CStr;
    var qs := ps + Plains(gap);
    BlanksBehind(ps, gap);
    CleanContent(ps, gap);
    TrimFromIs(Content(qs), Kept(qs));
    TrimRightLength(Content(ps));
  }

  /** It is the key it spells, behind the dashes, exactly when its last character is no blank or there are no dashes. */
  lemma KeyOfFirm(flags: Flags, ps: seq<Piece>)
    requires Firm(ps) && '\0' !in Chars(ps) && 0 < |Chars(ps)| <= LIMIT
    ensures KeyText(flags, ps) == Dashed(flags, Chars(ps)) <==> !EndsBlank(Chars(ps)) || flags.blank
    ensures !Overreaches(ps)
  {
    hide Kept, Chars, TrimFrom, CStr, Overreaches;
    KeyIsTrimmed(flags, ps);
    KeptOverreaches(ps);
  }

  lemma KeyIsTrimmed(flags: Flags, ps: seq<Piece>)
    requires '\0' !in Chars(ps) && 0 < |Chars(ps)| <= LIMIT
    ensures Content(ps) == Chars(ps)
    ensures KeyText(flags, ps) == Dashed(flags, Chars(ps))
            <==> !EndsBlank(Chars(ps)) || Kept(ps) >= |Dashed(flags, Chars(ps))|
  {
    hide Kept, Chars, TrimFrom, CStr;
    var s := Content(ps);
    assert s == Chars(ps);
    CStrWhole(s);
    assert Prefix(flags, s) + s == Dashed(flags, s);
    TrimsNothing(Prefix(flags, s) + s, Kept(ps));
  }

  lemma KeyOfOverfirm(flags: Flags, ps: seq<Piece>)
    requires Overfirm(ps) && '\0' !in Chars(ps) && 0 < |Chars(ps)| <= LIMIT
    ensures KeyText(flags, ps) == Dashed(flags, Chars(ps))
            <==> !EndsBlank(Chars(ps)) || flags.blank || flags.x || |Chars(ps)| == 1
  {
    hide Kept, Chars, TrimFrom, CStr, KeyText;
    KeyIsTrimmed(flags, ps);
  }

  lemma {:induction false} NoNul(fs: seq<Fragment>)
    requires forall i :: 0 <= i < |fs| ==> LegalFragment(fs[i])
    ensures '\0' !in TokenText(fs)
  {
    if fs != [] {
      hide FragmentText, LegalFragment;
      NoNul(fs[..|fs| - 1]);
      FragmentNoNul(fs[|fs| - 1]);
    }
  }

  lemma FragmentNoNul(f: Fragment)
    requires LegalFragment(f)
    ensures '\0' !in FragmentText(f)
  {
    match f
    case InSingle(text) => OneLineNoNul(text);
    case InDouble(text, _) => OneLineNoNul(text);
    case _ =>
  }

  lemma {:induction false} OneLineNoNul(s: string)
    requires '\0' !in s
    ensures '\0' !in OneLine(s)
  {
    if s != "" {
      OneLineNoNul(s[..|s| - 1]);
    }
  }

  lemma {:induction false} SpreadNoNul(ws: seq<Word>)
    requires ws != [] && forall i :: 0 <= i < |ws| ==> LegalWord(ws[i])
    ensures '\0' !in Spread(ws)
  {
    hide TokenText, LegalFragment;
    NoNul(ws[|ws| - 1].token);
    if |ws| > 1 {
      SpreadNoNul(ws[..|ws| - 1]);
    }
  }

  // What a printed row does come back as

  function KeyActual(flags: Flags, r: Row): seq<Option<string>> {
    if TokenText(r.key) == "" then [] else [Some(KeyText(flags, TokenPieces(r.key)))]
  }

  lemma KeyIsExpected(flags: Flags, r: Row)
    requires LegalRow(r) && Fits(flags, r)
    ensures KeyActual(flags, r) == KeyPart(flags, TokenText(r.key)) <==> KeyWhole(flags, r.key)
    ensures |KeyActual(flags, r)| == |KeyPart(flags, TokenText(r.key))|
    ensures RowKey(r).Some? && !EndsContinued(r.key) ==> !Overreaches(RowKey(r).value)
  {
    if TokenText(r.key) != "" {
      hide TokenPieces, Firm, Overfirm, Chars, KeyText, Overreaches, EndsBlank, Dashed, LegalFragment, LegalWord,
        TokenText, EndsContinued;
      assert r.key != [] by {
        assert TokenText([]) == "";
      }
      var ps := TokenPieces(r.key);
      NoNul(r.key);
      CharsOfToken(r.key);
      assert [] + ps == ps;
      FirmToken([], r.key);
      if EndsContinued(r.key) {
        KeyOfOverfirm(flags, ps);
      } else {
        KeyOfFirm(flags, ps);
      }
    } else {
      assert !EndsBlank(TokenText(r.key));
    }
  }

  function ValueActual(flags: Flags, r: Row): seq<Option<string>> {
    Texts(flags, Values(RowValues(flags, r)))
  }

  lemma ValuesAreExpected(flags: Flags, r: Row)
    requires LegalRow(r) && Fits(flags, r)
    ensures ValueActual(flags, r) == ValuePart(flags, r.words) <==> ValueWhole(flags, r)
    ensures |ValueActual(flags, r)| == |ValuePart(flags, r.words)|
    ensures Tidy(flags, r) ==> forall v :: v in RowValues(flags, r) ==> !Overreaches(v)
  {
    hide Firm, Overfirm, Chars, ValueText, KeyText, Overreaches, TokenText, TokenPieces, Spread, SpreadPieces,
      LegalToken, EndsContinued;
    if flags.multi {
      forall i | 0 <= i < |r.words|
        ensures ValueText(TokenPieces(r.words[i].token)) == TokenText(r.words[i].token)
        ensures !EndsContinued(r.words[i].token) ==> !Overreaches(TokenPieces(r.words[i].token))
      {
        WordIsExpected(r.words[i]);
      }
    } else if r.words != [] {
      var ps, s := SpreadPieces(r.words), Spread(r.words);
      SpreadNoNul(r.words);
      CharsOfSpread(r.words);
      FirmSpread(r.words);
      if EndsContinued(r.words[|r.words| - 1].token) {
        ValueOfOverfirm(ps, r.trailing);
      } else {
        ValueOfFirm(ps, r.trailing);
      }
      assert ValueActual(flags, r)[0] == Some(ValueText(ps + Plains(r.trailing)));
      assert ValueActual(flags, r) == [Some(ValueText(ps + Plains(r.trailing)))];
    }
  }

  lemma WordIsExpected(w: Word)
    requires LegalWord(w) && |TokenText(w.token)| <= LIMIT
    ensures ValueText(TokenPieces(w.token)) == TokenText(w.token)
    ensures !EndsContinued(w.token) ==> !Overreaches(TokenPieces(w.token))
  {
    hide Firm, Overfirm, Chars, ValueText, Overreaches, TokenText, TokenPieces, LegalFragment, EndsContinued;
    var ps := TokenPieces(w.token);
    NoNul(w.token);
    CharsOfToken(w.token);
    assert [] + ps == ps && ps + Plains("") == ps;
    FirmToken([], w.token);
    if EndsContinued(w.token) {
      ValueOfOverfirm(ps, "");
    } else {
      ValueOfFirm(ps, "");
    }
  }

  lemma TextsConcat(flags: Flags, a: seq<Entry>, b: seq<Entry>)
    ensures Texts(flags, a + b) == Texts(flags, a) + Texts(flags, b)
  {
    hide TextOf;
  }

  function RowActual(flags: Flags, r: Row): seq<Option<string>> {
    KeyActual(flags, r) + (ValueActual(flags, r) + EndPart(flags, TokenText(r.key)))
  }

  /** The entries of a printed row. */
  lemma RowTexts(flags: Flags, r: Row)
    ensures Texts(flags, Finished(flags, RowLine(flags, r))) == RowActual(flags, r)
  {
    hide TokenText, RowKey, RowValues, KeyActual, EndPart, TextOf, Texts;
    var key := if RowKey(r).Some? then [Key(RowKey(r).value)] else [];
    var values := Values(RowValues(flags, r));
    var end := if flags.multi && RowKey(r).Some? then [Null] else [];
    assert Finished(flags, RowLine(flags, r)) == key + (values + end);
    TextsConcat(flags, key, values + end);
    TextsConcat(flags, values, end);
    PartTexts(flags, r);
  }

  lemma RowDoesNotOverrun(flags: Flags, r: Row)
    requires LegalRow(r) && Fits(flags, r) && Tidy(flags, r)
    ensures forall e :: e in Finished(flags, RowLine(flags, r)) ==> !Overruns(flags, e)
  {
    hide RowKey, RowValues, Overreaches, LegalRow, Fits, KeyActual, KeyPart, ValueActual, ValuePart, KeyWhole,
      ValueWhole;
    KeyIsExpected(flags, r);
    ValuesAreExpected(flags, r);
  }

  lemma PartTexts(flags: Flags, r: Row)
    ensures Texts(flags, if RowKey(r).Some? then [Key(RowKey(r).value)] else []) == KeyActual(flags, r)
    ensures Texts(flags, if flags.multi && RowKey(r).Some? then [Null] else []) == EndPart(flags, TokenText(r.key))
  {
    hide TokenText, TokenPieces, KeyText;
  }

  function Actual(flags: Flags, rows: seq<Row>): seq<Option<string>> {
    if rows == [] then if flags.multi then [] else [Some("")]
    else Actual(flags, rows[..|rows| - 1]) + RowActual(flags, rows[|rows| - 1])
  }

  predicate AllTidy(flags: Flags, rows: seq<Row>) {
    forall i :: 0 <= i < |rows| ==> Tidy(flags, rows[i])
  }

  /** One more row. */
  lemma RowsPush(flags: Flags, rows: seq<Row>, r: Row)
    ensures Print(rows + [r]) == Print(rows) + PrintRow(r)
    ensures Actual(flags, rows + [r]) == Actual(flags, rows) + RowActual(flags, r)
    ensures Expected(flags, rows + [r]) == Expected(flags, rows) + RowTokens(flags, r)
    ensures Printable(flags, rows + [r]) ==> Printable(flags, rows) && LegalRow(r) && Fits(flags, r)
    ensures AllTidy(flags, rows + [r]) ==> AllTidy(flags, rows) && Tidy(flags, r)
  {
    hide PrintRow, RowActual, RowTokens, LegalRow, Fits, Tidy;
    var all := rows + [r];
    assert all[..|rows|] == rows && all[|rows|] == r;
    forall i | 0 <= i < |rows| ensures all[i] == rows[i] {
    }
  }

  lemma LineEntries(flags: Flags, p: string, r: Row)
    requires AtLineStart(Lex(flags, p)) && LegalRow(r)
    ensures var lx, es := Lex(flags, p + PrintRow(r)), Entries(flags, Lex(flags, p));
            AtLineStart(lx) && Entries(flags, lx) == es + Finished(flags, RowLine(flags, r))
  {
    hide PrintRow, Lex, Entries, RowLine, LegalRow, Finished;
    LexConcat(flags, p, PrintRow(r));
    RowRun(flags, Lex(flags, p), r);
    EntriesLine(flags, Lex(flags, p), RowLine(flags, r));
  }

  lemma NoRows(flags: Flags)
    ensures AtLineStart(Lex(flags, Print([]))) && Texts(flags, Entries(flags, START)) == Actual(flags, [])
    ensures Lex(flags, Print([])) == START && forall e :: e in Entries(flags, START) ==> !Overruns(flags, e)
  {
    assert Begun(NO_TOKENS) == [];
    assert Texts(flags, [Dummy]) == [Some("")] && Texts(flags, []) == [];
  }

  lemma {:induction false} PrintedRun(flags: Flags, rows: seq<Row>)
    requires Printable(flags, rows)
    ensures var lx := Lex(flags, Print(rows));
            && AtLineStart(lx) && Texts(flags, Entries(flags, lx)) == Actual(flags, rows)
            && (AllTidy(flags, rows) ==> forall e :: e in Entries(flags, lx) ==> !Overruns(flags, e))
  {
    hide *;
    if rows == [] {
      NoRows(flags);
    } else {
      var init, r := rows[..|rows| - 1], rows[|rows| - 1];
      assert rows == init + [r];
      RowsPush(flags, init, r);
      PrintedRun(flags, init);
      LineEntries(flags, Print(init), r);
      RowTexts(flags, r);
      TextsConcat(flags, Entries(flags, Lex(flags, Print(init))), Finished(flags, RowLine(flags, r)));
      if AllTidy(flags, rows) {
        RowDoesNotOverrun(flags, r);
      }
    }
  }

  /** Two concatenations of like lengths are equal exactly when their parts are. */
  lemma ConcatEqual<T>(a: seq<T>, x: seq<T>, b: seq<T>, y: seq<T>)
    requires |a| == |b|
    ensures a + x == b + y <==> a == b && x == y
  {
    assert a == (a + x)[..|a|] && b == (b + y)[..|b|];
    assert x == (a + x)[|a|..] && y == (b + y)[|b|..];
  }

  predicate RowWhole(flags: Flags, r: Row) {
    KeyWhole(flags, r.key) && ValueWhole(flags, r)
  }

  lemma RowIsExpected(flags: Flags, r: Row)
    requires LegalRow(r) && Fits(flags, r)
    ensures |RowActual(flags, r)| == |RowTokens(flags, r)|
    ensures RowActual(flags, r) == RowTokens(flags, r) <==> RowWhole(flags, r)
  {
    hide KeyActual, KeyPart, ValueActual, ValuePart, EndPart, TokenText, LegalRow, Fits, KeyWhole, ValueWhole;
    KeyIsExpected(flags, r);
    ValuesAreExpected(flags, r);
    var key, end := TokenText(r.key), EndPart(flags, TokenText(r.key));
    ConcatEqual(ValueActual(flags, r), end, ValuePart(flags, r.words), end);
    ConcatEqual(KeyActual(flags, r), ValueActual(flags, r) + end,
                KeyPart(flags, key), ValuePart(flags, r.words) + end);
  }

  predicate AllWhole(flags: Flags, rows: seq<Row>) {
    forall i :: 0 <= i < |rows| ==> RowWhole(flags, rows[i])
  }

  lemma AllWholePush(flags: Flags, rows: seq<Row>, r: Row)
    ensures AllWhole(flags, rows + [r]) <==> AllWhole(flags, rows) && RowWhole(flags, r)
  {
    hide RowWhole;
    var all := rows + [r];
    assert all[|rows|] == r;
    forall i | 0 <= i < |rows| ensures all[i] == rows[i] {
    }
  }

  lemma {:induction false} ActualIsExpected(flags: Flags, rows: seq<Row>)
    requires Printable(flags, rows)
    ensures |Actual(flags, rows)| == |Expected(flags, rows)|
    ensures Actual(flags, rows) == Expected(flags, rows) <==> AllWhole(flags, rows)
  {
    if rows == [] {
      assert Actual(flags, []) == Expected(flags, []);
    } else {
      hide *;
      var init, r := rows[..|rows| - 1], rows[|rows| - 1];
      assert rows == init + [r];
      RowsPush(flags, init, r);
      ActualIsExpected(flags, init);
      RowIsExpected(flags, r);
      ConcatEqual(Actual(flags, init), RowActual(flags, r), Expected(flags, init), RowTokens(flags, r));
      AllWholePush(flags, init, r);
    }
  }

  /** Reading what was printed gives the keys and values back in order: each key behind no dashes with BLANK, one with
      X or when it is a single letter, and else two; with MULTI_VALUE each word as a value of its own and a NULL behind
      each line that had a key, else the words of a line as one value, and "" first. It does so exactly when trimming
      takes nothing from a key and leaves nothing of the white space behind a value. When no key and no value ends
      continued, every trim starts inside its token, and so stays in the buffer. */
  lemma RoundTrip(flags: Flags, rows: seq<Row>)
    requires Printable(flags, rows)
    ensures Run(flags, Print(rows)).tokens == Expected(flags, rows)
            <==> forall i :: 0 <= i < |rows| ==> KeyWhole(flags, rows[i].key) && ValueWhole(flags, rows[i])
    ensures (forall i :: 0 <= i < |rows| ==> Tidy(flags, rows[i])) ==>
              && AllInside(Run(flags, Print(rows)).trims)
              && forall z :: z < 4096 ==> Sheltered(flags, Entries(flags, Lex(flags, Print(rows))), z)
  {
    hide ConfigMachine.Run, Lex, Entries, Refines, Overruns, AllInside, AllInBuffer, Sheltered, KeyWhole, ValueWhole,
      Tidy, Printable;
    PrintedRun(flags, rows);
    RunRefines(flags, Print(rows));
    TrimsInside(flags, Print(rows));
    forall z | z < 4096 && AllTidy(flags, rows)
      ensures Sheltered(flags, Entries(flags, Lex(flags, Print(rows))), z)
    {
      ShelteredBounds(flags, Entries(flags, Lex(flags, Print(rows))), z);
    }
    ActualIsExpected(flags, rows);
  }

  // What is not written to its end

  /** Text behind the last line end that does not end its token adds nothing, wherever it stands. */
  lemma UnfinishedIsDropped(flags: Flags, p: string, fs: seq<Fragment>)
    requires Ready(Lex(flags, p)) && fs != [] && forall i :: 0 <= i < |fs| ==> LegalFragment(fs[i])
    ensures Run(flags, p + PrintToken(fs)).tokens == Run(flags, p).tokens
  {
    hide ConfigMachine.Run, Lex, Refines, Entries, PrintToken, TokenPieces, LegalFragment;
    var lx := Lex(flags, p);
    LexConcat(flags, p, PrintToken(fs));
    TokenRun(flags, lx, fs);
    PutConcat(lx, TokenPieces(fs), []);
    SameEntries(flags, lx, Put(lx, TokenPieces(fs)));
    RunRefines(flags, p + PrintToken(fs));
    RunRefines(flags, p);
  }
}
