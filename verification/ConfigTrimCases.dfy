/** Inputs whose trims start behind a token, behind the buffer, or behind a token but before the last NUL. */
module ConfigTrimCases {
  import opened Options
  import opened ConfigGrammar
  import opened ConfigMachine
  import opened ConfigValues
  import opened ConfigLaws
  import opened ConfigTrims
  import opened ConfigPrinter
  import opened ConfigReading

  const K := [Plain('k')]

  lemma KeyContent()
    ensures Content(K) == "k" && Kept(K) == 0 && !Overreaches(K)
  {
    assert [] + K == K && K[..0] == [] && "" + ['k'] == "k";
    EmptyMarks();
    ContentPush([], Plain('k'));
    KeptPush([], Plain('k'));
    KeptOverreaches(K);
  }

  /** The key k and a blank. */
  lemma KeyThenBlank(flags: Flags, lx: Lexer)
    requires AtLineStart(lx)
    ensures LexFrom(flags, lx, "k ") == lx.(place := Gap, line := Line(Some(K), []))
  {
    hide LexFrom, Content;
    assert "k " == ['k', ' '];
    TwoSteps(flags, lx, 'k', ' ');
    assert [] + K == K;
    KeyContent();
  }

  /** A line with the key k and the given value. */
  function KLine(value: seq<Piece>): Line {
    Line(Some(K), [value])
  }

  lemma ValueEnds(flags: Flags, lx: Lexer, value: seq<Piece>)
    requires AtLineStart(lx)
    ensures EndLine(flags, lx.(place := InValue(value), line := Line(Some(K), [])))
            == lx.(lines := lx.lines + [KLine(value)])
  {
    assert [] + [value] == [value];
  }

  lemma JoinedValueMarks()
    ensures Content([Plain('v'), Joined]) == "v" && Kept([Plain('v'), Joined]) == 2
  {
    hide Content, Kept;
    var v, joined := [Plain('v')], [Plain('v'), Joined];
    assert [] + v == v && v + [Joined] == joined && "" + ['v'] == "v";
    EmptyMarks();
    ContentPush([], Plain('v'));
    ContentPush(v, Joined);
    KeptPush(v, Joined);
  }

  /** The value v, a backslash and two line ends. */
  lemma JoinedValueRun(flags: Flags, gap: Lexer)
    requires gap.place.Gap? && gap.quote == Unquoted && !gap.esc
    ensures LexFrom(flags, gap, "v\\" + "\n\n")
            == EndLine(flags, gap.(place := InValue([Plain('v'), Joined])))
  {
    hide LexFrom, Content;
    var v, joined := [Plain('v')], [Plain('v'), Joined];
    var open := gap.(place := InValue(v), esc := true);
    LexFromConcat(flags, gap, "v\\", "\n\n");
    TwoSteps(flags, gap, 'v', '\\');
    assert v + [] == v && v + [Joined] == joined;
    TwoSteps(flags, open, '\n', '\n');
  }

  /** The line `k v`, joined with an empty one. */
  lemma JoinedLine(flags: Flags, lx: Lexer)
    requires AtLineStart(lx)
    ensures LexFrom(flags, lx, "k v\\\n\n") == lx.(lines := lx.lines + [KLine([Plain('v'), Joined])])
  {
    hide LexFrom, EndLine;
    KeyThenBlank(flags, lx);
    LexFromConcat(flags, lx, "k ", "v\\" + "\n\n");
    assert "k " + ("v\\" + "\n\n") == "k v\\\n\n";
    JoinedValueRun(flags, LexFrom(flags, lx, "k "));
    ValueEnds(flags, lx, [Plain('v'), Joined]);
  }

  /** The line `k` and an ordinary value. */
  lemma OrdinaryLine(flags: Flags, lx: Lexer, s: string)
    requires AtLineStart(lx) && s != "" && forall i :: 0 <= i < |s| ==> Ordinary(s[i])
    ensures LexFrom(flags, lx, "k " + s + "\n") == lx.(lines := lx.lines + [KLine(Plains(s))])
  {
    hide LexFrom, EndLine;
    KeyThenBlank(flags, lx);
    LexFromConcat(flags, lx, "k ", s);
    BareRun(flags, LexFrom(flags, lx, "k "), s);
    assert "\n" == ['\n'];
    OneStep(flags, lx, "k " + s, '\n');
    ValueEnds(flags, lx, Plains(s));
  }

  /** The line `k`, an ordinary value and a character behind a backslash. */
  lemma EscapedLine(flags: Flags, lx: Lexer, s: string, x: char)
    requires AtLineStart(lx) && s != "" && (forall i :: 0 <= i < |s| ==> Ordinary(s[i])) && !LineEnd(x)
    ensures LexFrom(flags, lx, "k " + s + ['\\', x] + "\n")
            == lx.(lines := lx.lines + [KLine(Plains(s) + [Escaped(x)])])
  {
    hide LexFrom, EndLine;
    KeyThenBlank(flags, lx);
    LexFromConcat(flags, lx, "k ", s);
    var gap := LexFrom(flags, lx, "k ");
    BareRun(flags, gap, s);
    LexFromConcat(flags, lx, "k " + s, ['\\', x]);
    TwoSteps(flags, gap.(place := InValue(Plains(s))), '\\', x);
    assert Plains(s) + [] == Plains(s);
    assert "\n" == ['\n'];
    OneStep(flags, lx, "k " + s + ['\\', x], '\n');
    ValueEnds(flags, lx, Plains(s) + [Escaped(x)]);
  }

  // What such lines trim

  lemma FinishedKLine(flags: Flags, value: seq<Piece>)
    ensures Finished(flags, KLine(value)) == [Key(K), Value(value)] + if flags.multi then [Null] else []
  {
  }

  lemma {:induction false} TrimInTrims(flags: Flags, es: seq<Entry>, e: Entry)
    requires e in es
    ensures forall t :: t in TrimOf(flags, e) ==> t in Trims(flags, es)
  {
    hide TrimOf;
    if e != es[|es| - 1] {
      TrimInTrims(flags, es[..|es| - 1], e);
    }
  }

  /** What a single line trims. */
  lemma ValueTrims(flags: Flags, input: string, value: seq<Piece>)
    requires Lex(flags, input) == START.(lines := [KLine(value)])
    ensures Trim(2 + Kept(value), 2 + |Content(value)|) in Run(flags, input).trims
  {
    hide Lex, ConfigMachine.Run, Refines, Kept, Content, Trims, Entries, KLine;
    RunRefines(flags, input);
    assert [] + [KLine(value)] == [KLine(value)];
    EntriesLine(flags, START, KLine(value));
    FinishedKLine(flags, value);
    var es := Entries(flags, Lex(flags, input));
    assert Value(value) in [Key(K), Value(value)];
    assert Value(value) in es;
    TrimInTrims(flags, es, Value(value));
    assert TrimOf(flags, Value(value)) == [Trim(2 + Kept(value), 2 + |Content(value)|)];
  }

  /** A line with the key k keeps all tokens sheltered unless its value overreaches and none before it is longer. */
  lemma ShelteredLine(flags: Flags, es: seq<Entry>, value: seq<Piece>, z: int)
    ensures Sheltered(flags, es + Finished(flags, KLine(value)), z)
            <==> Sheltered(flags, es, z)
                 && (Overreaches(value) ==> Longer(es + [Key(K), Value(value)], |es| + 1) || z > 2 + |Content(value)|)
  {
    hide Sheltered, Overreaches, Content, Longer, Finished, K;
    FinishedKLine(flags, value);
    KeyContent();
    var a, b := es + [Key(K)], es + [Key(K), Value(value)];
    ShelteredPush(flags, es, Key(K), z);
    assert a + [Value(value)] == b;
    ShelteredPush(flags, a, Value(value), z);
    if flags.multi {
      ShelteredPush(flags, b, Null, z);
      assert es + ([Key(K), Value(value)] + [Null]) == b + [Null];
    } else {
      assert es + ([Key(K), Value(value)] + []) == b;
    }
  }

  lemma EmptySheltered(flags: Flags, z: int)
    ensures Entries(flags, START) == (if flags.multi then [] else [Dummy])
    ensures Sheltered(flags, Entries(flags, START), z)
  {
    hide Content, Longer, Overreaches;
    assert Begun(NO_TOKENS) == [];
  }

  // The inputs

  /** A value line that ends behind a backslash and an empty line: the scan starts behind the terminator, where
      nothing has been written, and so leaves a buffer that held no NUL. */
  lemma JoinedLineTrimsBehind(flags: Flags)
    ensures Trim(4, 3) in Run(flags, "k v\\\n\n").trims
    ensures !Sheltered(flags, Entries(flags, Lex(flags, "k v\\\n\n")), -1)
  {
    hide Lex, ConfigMachine.Run, Entries, Trims, LexFrom, Content, Kept, Sheltered, Overreaches, Finished, KLine;
    var joined, first := [Plain('v'), Joined], Entries(flags, START);
    LexIsLexFrom(flags, "k v\\\n\n");
    JoinedLine(flags, START);
    assert [] + [KLine(joined)] == [KLine(joined)];
    JoinedValueMarks();
    ValueTrims(flags, "k v\\\n\n", joined);
    EntriesLine(flags, START, KLine(joined));
    ShelteredLine(flags, first, joined, -1);
    KeptOverreaches(joined);
    EmptySheltered(flags, -1);
    KeyContent();
    assert !Longer(first + [Key(K), Value(joined)], |first| + 1);
  }

  lemma PlainsDoNotOverreach(s: string)
    requires |s| <= LIMIT
    ensures !Overreaches(Plains(s)) && Content(Plains(s)) == s
  {
    hide Overreaches;
    CharsOfPlains(s);
    FittingDoesNotOverreach(Plains(s));
  }

  /** The value of one line stands before that of the next. */
  lemma ValueAt(flags: Flags, es: seq<Entry>, first: seq<Piece>, second: seq<Piece>)
    requires |Content(first)| > |Content(second)|
    ensures var all := es + Finished(flags, KLine(first)) + [Key(K), Value(second)];
            Longer(all, |all| - 1)
  {
    hide Content;
    FinishedKLine(flags, first);
    var all := es + Finished(flags, KLine(first)) + [Key(K), Value(second)];
    assert all[|es| + 1] == Value(first) && all[|all| - 1] == Value(second);
  }

  /** The same behind a line with a longer value: the scan starts behind the terminator, but ends at the last NUL,
      whatever the buffer held at first. */
  lemma LongerLineShelters(flags: Flags, s: string)
    requires 1 < |s| <= LIMIT && forall i :: 0 <= i < |s| ==> Ordinary(s[i])
    ensures var input := ("k " + s + "\n") + "k v\\\n\n";
            !AllInside(Run(flags, input).trims) && Sheltered(flags, Entries(flags, Lex(flags, input)), -1)
  {
    hide Lex, ConfigMachine.Run, Entries, Trims, LexFrom, Chars, Kept, Sheltered, Overreaches, AllInside, AllInBuffer,
      Finished, KLine;
    var a, b, joined := "k " + s + "\n", "k v\\\n\n", [Plain('v'), Joined];
    LexConcat(flags, a, b);
    LexIsLexFrom(flags, a);
    OrdinaryLine(flags, START, s);
    JoinedLine(flags, Lex(flags, a));
    EntriesLine(flags, START, KLine(Plains(s)));
    EntriesLine(flags, Lex(flags, a), KLine(joined));
    var es := Entries(flags, Lex(flags, a));
    EmptySheltered(flags, -1);
    PlainsDoNotOverreach(s);
    ShelteredLine(flags, Entries(flags, START), Plains(s), -1);
    ShelteredLine(flags, es, joined, -1);
    JoinedValueMarks();
    KeptOverreaches(joined);
    FinishedKLine(flags, Plains(s));
    FinishedKLine(flags, joined);
    TrimsInside(flags, a + b);
    assert Value(joined) in [Key(K), Value(joined)] && Overruns(flags, Value(joined));
    assert Value(joined) in Finished(flags, KLine(joined));
    assert Value(joined) in Entries(flags, Lex(flags, a + b));
    ValueAt(flags, Entries(flags, START), Plains(s), joined);
  }

  /** A full value and one more character behind a backslash: the scan starts behind the buffer. */
  lemma FullValueTrimsOutside(flags: Flags, s: string, x: char)
    requires |s| == 4093 && (forall i :: 0 <= i < |s| ==> Ordinary(s[i])) && !NewLine(x) && x != '\\'
    ensures Trim(4096, 4095) in Run(flags, "k " + s + ['\\', x] + "\n").trims
  {
    hide Lex, ConfigMachine.Run, Entries, Trims, LexFrom, Chars, Kept, KLine;
    var ps := Plains(s) + [Escaped(x)];
    LexIsLexFrom(flags, "k " + s + ['\\', x] + "\n");
    EscapedLine(flags, START, s, x);
    assert [] + [KLine(ps)] == [KLine(ps)];
    CharsOfPlains(s);
    ContentPush(Plains(s), Escaped(x));
    KeptPush(Plains(s), Escaped(x));
    ValueTrims(flags, "k " + s + ['\\', x] + "\n", ps);
  }

  /** Of a longer value 4093 characters are kept. */
  lemma LongValueIsCut(flags: Flags, s: string)
    requires |s| > 4093 && '\0' !in s && forall i :: 0 <= i < |s| ==> Ordinary(s[i])
    ensures var tokens, i := Run(flags, "k " + s + "\n").tokens, if flags.multi then 1 else 2;
            i < |tokens| && tokens[i] == Some(s[..4093])
  {
    hide Lex, ConfigMachine.Run, Entries, Refines, LexFrom, ValueText, KLine;
    var input, first := "k " + s + "\n", Entries(flags, START);
    LexIsLexFrom(flags, input);
    OrdinaryLine(flags, START, s);
    EntriesLine(flags, START, KLine(Plains(s)));
    FinishedKLine(flags, Plains(s));
    EmptySheltered(flags, -1);
    RunRefines(flags, input);
    var es, i := Entries(flags, Lex(flags, input)), if flags.multi then 1 else 2;
    assert es[i] == Value(Plains(s));
    LongValue(s);
  }

  lemma LongValue(s: string)
    requires |s| > 4093 && '\0' !in s && forall i :: 0 <= i < |s| ==> Ordinary(s[i])
    ensures ValueText(Plains(s)) == s[..4093]
  {
    hide Chars, TrimFrom, CStr;
    var n := |s| - 1;
    CharsOfPlains(s);
    CStrWhole(s[..4093]);
    TrimFromSolid(s[..4093], Kept(Plains(s)));
  }
}
