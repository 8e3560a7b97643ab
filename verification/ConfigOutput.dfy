/** The shape of the array the reader returns, for every input. */
module ConfigOutput {
  import opened Options
  import opened ConfigGrammar
  import opened ConfigMachine

  /** A NULL entry is exactly one added as a NULL. */
  ghost predicate Describes(tags: seq<Tag>, tokens: seq<Option<string>>) {
    && |tags| == |tokens|
    && forall i :: 0 <= i < |tags| ==> (tokens[i] == None <==> tags[i] == NullTag)
  }

  function Keys(tags: seq<Tag>): nat {
    if tags == [] then 0 else Keys(tags[..|tags| - 1]) + if tags[|tags| - 1] == KeyTag then 1 else 0
  }

  function Nulls(tags: seq<Tag>): nat {
    if tags == [] then 0 else Nulls(tags[..|tags| - 1]) + if tags[|tags| - 1] == NullTag then 1 else 0
  }

  /** The entry at i is not first and not after a NULL, and up to it there are as many keys as NULLs. */
  ghost predicate Balances(tags: seq<Tag>, i: nat) {
    0 < i < |tags| && tags[i - 1] != NullTag && Keys(tags[..i + 1]) == Nulls(tags[..i + 1])
  }

  /** Never a NULL first or after a NULL; up to each NULL there are as many keys as NULLs, so each NULL closes
      a segment with exactly one key. */
  ghost predicate Segmented(tags: seq<Tag>) {
    forall i {:trigger Balances(tags, i)} :: 0 <= i < |tags| && tags[i] == NullTag ==> Balances(tags, i)
  }

  lemma {:induction false} CountConcat(a: seq<Tag>, b: seq<Tag>)
    ensures Keys(a + b) == Keys(a) + Keys(b) && Nulls(a + b) == Nulls(a) + Nulls(b)
  {
    if b == [] {
      assert a + b == a;
    } else {
      assert (a + b)[..|a + b| - 1] == a + b[..|b| - 1];
      CountConcat(a, b[..|b| - 1]);
    }
  }

  lemma TagsConcat(a: seq<Entry>, b: seq<Entry>)
    ensures Tags(a + b) == Tags(a) + Tags(b)
  {
  }

  lemma {:induction false} CountValues(values: seq<seq<Piece>>)
    ensures Keys(Tags(Values(values))) == 0 && Nulls(Tags(Values(values))) == 0
  {
    if values != [] {
      var n := |values| - 1;
      CountValues(values[..n]);
      assert Tags(Values(values))[..n] == Tags(Values(values[..n]));
    }
  }

  lemma BegunCounts(line: Line)
    ensures NullTag !in Tags(Begun(line))
    ensures Keys(Tags(Begun(line))) == (if line.key.Some? then 1 else 0) && Nulls(Tags(Begun(line))) == 0
  {
    CountValues(line.values);
    var head := if line.key.Some? then [Key(line.key.value)] else [];
    TagsConcat(head, Values(line.values));
    CountConcat(Tags(head), Tags(Values(line.values)));
    assert head != [] ==> Tags(head) == [KeyTag];
  }

  lemma CountNull()
    ensures Keys([NullTag]) == 0 && Nulls([NullTag]) == 1
  {
  }

  /** Entries without a NULL, then at most one NULL that balances the keys, keep an array segmented. */
  lemma SegmentedPush(a: seq<Tag>, b: seq<Tag>, closed: bool)
    requires Segmented(a) && Keys(a) == Nulls(a) && NullTag !in b && Keys(b) <= 1 && Nulls(b) == 0
    requires closed ==> Keys(b) == 1
    ensures Segmented(a + b + if closed then [NullTag] else [])
  {
    hide Segmented, Keys, Nulls;
    CountConcat(a, b);
    SegmentedPlain(a, b);
    if closed {
      NoKeys();
      assert (a + b)[|a + b| - 1] == b[|b| - 1] && b[|b| - 1] in b;
      SegmentedNull(a + b);
    } else {
      assert a + b + [] == a + b;
    }
  }

  lemma NoKeys()
    ensures Keys([]) == 0
  {
  }

  lemma SegmentedPlain(a: seq<Tag>, b: seq<Tag>)
    requires Segmented(a) && NullTag !in b
    ensures Segmented(a + b)
  {
    hide Balances;
    var r := a + b;
    forall i | |a| <= i < |r| ensures r[i] != NullTag {
      assert r[i] == b[i - |a|] && b[i - |a|] in b;
    }
    forall i | 0 <= i < |a| && r[i] == NullTag ensures Balances(r, i) {
      assert r[i] == a[i] && Balances(a, i);
      BalancesPrefix(a, r, i);
    }
  }

  lemma SegmentedNull(a: seq<Tag>)
    requires Segmented(a) && a != [] && a[|a| - 1] != NullTag && Keys(a) == Nulls(a) + 1
    ensures Segmented(a + [NullTag])
  {
    hide Balances;
    var r := a + [NullTag];
    forall i | 0 <= i < |r| && r[i] == NullTag ensures Balances(r, i) {
      if i < |a| {
        assert r[i] == a[i] && Balances(a, i);
        BalancesPrefix(a, r, i);
      } else {
        NullBalances(a);
      }
    }
  }

  lemma BalancesPrefix(a: seq<Tag>, r: seq<Tag>, i: nat)
    requires Balances(a, i) && a <= r
    ensures Balances(r, i)
  {
    hide Keys, Nulls;
    assert r[..i + 1] == a[..i + 1];
  }

  lemma NullBalances(a: seq<Tag>)
    requires a != [] && a[|a| - 1] != NullTag && Keys(a) == Nulls(a) + 1
    ensures Balances(a + [NullTag], |a|)
  {
    hide Keys, Nulls;
    var r := a + [NullTag];
    CountNull();
    CountConcat(a, [NullTag]);
    assert r[..|a| + 1] == r;
  }

  /** A finished line behind a segmented array. */
  lemma SegmentedLine(a: seq<Tag>, b: seq<Tag>, line: seq<Tag>, closed: bool)
    requires Segmented(a) && Keys(a) == Nulls(a) && NullTag !in b && Nulls(b) == 0
    requires Keys(b) == (if closed then 1 else 0) && Keys(line) == Nulls(line)
    requires line == b + if closed then [NullTag] else []
    ensures Segmented(a + line) && Keys(a + line) == Nulls(a + line)
  {
    hide Segmented, Keys, Nulls;
    SegmentedPush(a, b, closed);
    CountConcat(a, line);
    assert a + line == a + b + if closed then [NullTag] else [];
  }

  lemma {:induction false} AllSegmented(flags: Flags, lines: seq<Line>)
    requires flags.multi
    ensures var tags := Tags(AllFinished(flags, lines)); Segmented(tags) && Keys(tags) == Nulls(tags)
  {
    if lines != [] {
      hide Segmented, Keys, Nulls, Begun, Finished, TagOf;
      var n := |lines| - 1;
      var a, line := AllFinished(flags, lines[..n]), lines[n];
      AllSegmented(flags, lines[..n]);
      FinishedTags(flags, line);
      BegunCounts(line);
      SegmentedLine(Tags(a), Tags(Begun(line)), Tags(Finished(flags, line)), line.key.Some?);
      TagsConcat(a, Finished(flags, line));
    }
  }

  /** With MULTI_VALUE a finished line has as many NULLs as keys. */
  lemma FinishedTags(flags: Flags, line: Line)
    requires flags.multi
    ensures Tags(Finished(flags, line)) == Tags(Begun(line)) + if line.key.Some? then [NullTag] else []
    ensures Keys(Tags(Finished(flags, line))) == Nulls(Tags(Finished(flags, line)))
  {
    hide Begun;
    BegunCounts(line);
    if line.key.Some? {
      TagsConcat(Begun(line), [Null]);
      CountConcat(Tags(Begun(line)), [NullTag]);
      assert Tags([Null]) == [NullTag];
      CountNull();
    } else {
      assert Finished(flags, line) == Begun(line);
    }
  }

  lemma EntriesSegmented(flags: Flags, lx: Lexer)
    requires flags.multi
    ensures Segmented(Tags(Entries(flags, lx)))
  {
    hide Segmented, Keys, Nulls, AllFinished, Begun;
    AllSegmented(flags, lx.lines);
    BegunCounts(lx.line);
    TagsConcat(AllFinished(flags, lx.lines), Begun(lx.line));
    SegmentedPush(Tags(AllFinished(flags, lx.lines)), Tags(Begun(lx.line)), false);
    assert Tags(Entries(flags, lx)) + [] == Tags(Entries(flags, lx));
    assert [] + AllFinished(flags, lx.lines) == AllFinished(flags, lx.lines);
  }

  /** With MULTI_VALUE, for every input: the array never starts with NULL, never has two NULLs in a row, and each
      NULL closes a segment in which exactly one entry was added as a key. */
  lemma MultiValueOutput(flags: Flags, input: string)
    requires flags.multi
    ensures Describes(Run(flags, input).tags, Run(flags, input).tokens)
    ensures Segmented(Run(flags, input).tags)
  {
    hide Lex, ConfigMachine.Run, Segmented, Refines, Entries;
    RunRefines(flags, input);
    EntriesSegmented(flags, Lex(flags, input));
  }

  // Without MULTI_VALUE

  /** A value ends only at a comment or the end of its line, so a line has at most one. */
  ghost predicate OneValue(lx: Lexer) {
    && (lx.line.values != [] ==> |lx.line.values| == 1 && lx.place.InComment?)
    && (forall i :: 0 <= i < |lx.lines| ==> |lx.lines[i].values| <= 1)
  }

  lemma StepOneValue(flags: Flags, lx: Lexer, c: char)
    requires !flags.multi && OneValue(lx) && WellFormed(lx)
    ensures OneValue(StepLexer(flags, lx, c))
  {
    hide Content;
  }

  lemma {:induction false} LexOneValue(flags: Flags, input: string)
    requires !flags.multi
    ensures OneValue(Lex(flags, input))
  {
    if input != "" {
      var n := |input| - 1;
      LexOneValue(flags, input[..n]);
      LexWellFormed(flags, input[..n]);
      StepOneValue(flags, Lex(flags, input[..n]), input[n]);
    }
  }

  /** The entries of lines, one after another. */
  function AllBegun(lines: seq<Line>): (r: seq<Entry>)
    ensures Null !in r
  {
    if lines == [] then [] else AllBegun(lines[..|lines| - 1]) + Begun(lines[|lines| - 1])
  }

  lemma {:induction false} AllFinishedPlain(flags: Flags, lines: seq<Line>)
    requires !flags.multi
    ensures AllFinished(flags, lines) == AllBegun(lines)
  {
    if lines != [] {
      AllFinishedPlain(flags, lines[..|lines| - 1]);
    }
  }

  /** Without MULTI_VALUE, for every input: a leading "", no NULL, and for each logical line at most one entry
      added as a key, then at most one added as a value. */
  lemma SingleValueOutput(flags: Flags, input: string)
    requires !flags.multi
    ensures var m, lx := Run(flags, input), Lex(flags, input);
            var lines := lx.lines + [lx.line];
            && (forall i :: 0 <= i < |lines| ==> |lines[i].values| <= 1)
            && m.tags == [DummyTag] + Tags(AllBegun(lines))
            && m.tokens == [Some("")] + Texts(flags, AllBegun(lines)) && None !in m.tokens
  {
    hide Lex, ConfigMachine.Run, Refines, Entries, AllBegun, TagOf, TextOf;
    var lx := Lex(flags, input);
    RunRefines(flags, input);
    LexOneValue(flags, input);
    EntriesPlain(flags, lx);
    DummyFirst(flags, AllBegun(lx.lines + [lx.line]));
  }

  lemma DummyFirst(flags: Flags, all: seq<Entry>)
    requires Null !in all
    ensures Texts(flags, [Dummy] + all) == [Some("")] + Texts(flags, all) && None !in Texts(flags, [Dummy] + all)
    ensures Tags([Dummy] + all) == [DummyTag] + Tags(all)
  {
    hide KeyText, ValueText;
    forall i | 0 <= i < |all| ensures Texts(flags, all)[i] != None {
      assert all[i] in all;
    }
  }

  lemma EntriesPlain(flags: Flags, lx: Lexer)
    requires !flags.multi
    ensures Entries(flags, lx) == [Dummy] + AllBegun(lx.lines + [lx.line])
  {
    hide Begun, AllFinished;
    AllFinishedPlain(flags, lx.lines);
    assert (lx.lines + [lx.line])[..|lx.lines|] == lx.lines;
    assert [Dummy] + AllBegun(lx.lines) + Begun(lx.line) == [Dummy] + (AllBegun(lx.lines) + Begun(lx.line));
  }

  // The keys

  /** The keys of all lines have text. */
  ghost predicate KeysHaveText(lx: Lexer) {
    && (lx.line.key.Some? ==> Content(lx.line.key.value) != "")
    && forall l :: l in lx.lines ==> l.key.Some? ==> Content(l.key.value) != ""
  }

  lemma CloseKeys(flags: Flags, lx: Lexer)
    requires KeysHaveText(lx)
    ensures KeysHaveText(Close(flags, lx)) && KeysHaveText(EndLine(flags, lx))
  {
    hide Content;
  }

  /** A step closes the token, ends the line, or leaves the lines as they are. */
  lemma StepLines(flags: Flags, lx: Lexer, c: char)
    ensures var n, cl, el := StepLexer(flags, lx, c), Close(flags, lx), EndLine(flags, lx);
            || (n.lines == lx.lines && n.line == lx.line)
            || (n.lines == cl.lines && n.line == cl.line) || (n.lines == el.lines && n.line == el.line)
  {
    hide Close, EndLine;
  }

  lemma {:induction false} LexKeys(flags: Flags, input: string)
    ensures KeysHaveText(Lex(flags, input))
  {
    if input != "" {
      hide Content, StepLexer, Close, EndLine;
      var n := |input| - 1;
      LexKeys(flags, input[..n]);
      CloseKeys(flags, Lex(flags, input[..n]));
      StepLines(flags, Lex(flags, input[..n]), input[n]);
    }
  }

  lemma {:induction false} FinishedKeys(flags: Flags, lines: seq<Line>)
    requires forall l :: l in lines ==> l.key.Some? ==> Content(l.key.value) != ""
    ensures forall e :: e in AllFinished(flags, lines) && e.Key? ==> Content(e.pieces) != ""
  {
    if lines != [] {
      hide Content;
      FinishedKeys(flags, lines[..|lines| - 1]);
      assert lines[|lines| - 1] in lines;
    }
  }

  /** Over every input an entry added as a key has text, and stands behind no dashes with BLANK, behind one with X or
      when at most one character of it comes before a NUL, and else behind two. */
  lemma DashesOfRun(flags: Flags, input: string, i: nat)
    requires i < |Run(flags, input).tags| && Run(flags, input).tags[i] == KeyTag
    ensures var m, es := Run(flags, input), Entries(flags, Lex(flags, input));
            && i < |m.tokens| && i < |es| && es[i].Key? && Content(es[i].pieces) != ""
            && var key := Content(es[i].pieces);
            var dashes := if flags.blank then "" else if flags.x || |key| == 1 || key[1] == '\0' then "-" else "--";
            m.tokens[i] == Some(TrimFrom(dashes + CStr(key), Kept(es[i].pieces)))
  {
    hide ConfigMachine.Run, Lex, Refines, Content, Kept, TrimFrom, CStr, Entries;
    RunRefines(flags, input);
    KeysOfEntries(flags, input);
    var es := Entries(flags, Lex(flags, input));
    assert TagOf(es[i]) == KeyTag;
    assert es[i] in es;
  }

  lemma KeysOfEntries(flags: Flags, input: string)
    ensures forall e :: e in Entries(flags, Lex(flags, input)) && e.Key? ==> Content(e.pieces) != ""
  {
    hide Lex, Content, AllFinished;
    LexKeys(flags, input);
    FinishedKeys(flags, Lex(flags, input).lines);
  }
}
