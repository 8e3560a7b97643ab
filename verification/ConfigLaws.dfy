/** Laws of the configuration reader that hold whatever follows: reading in pieces and comment erasure. */
module ConfigLaws {
  import opened ConfigGrammar
  import opened ConfigMachine
  import opened ConfigValues
  import opened ConfigPrinter

  // Reading in pieces

  function LexFrom(flags: Flags, lx: Lexer, s: string): Lexer {
    if s == "" then lx else StepLexer(flags, LexFrom(flags, lx, s[..|s| - 1]), s[|s| - 1])
  }

  lemma {:induction false} LexFromConcat(flags: Flags, lx: Lexer, a: string, b: string)
    ensures LexFrom(flags, lx, a + b) == LexFrom(flags, LexFrom(flags, lx, a), b)
  {
    if b == "" {
      assert a + b == a;
    } else {
      assert (a + b)[..|a + b| - 1] == a + b[..|b| - 1];
      LexFromConcat(flags, lx, a, b[..|b| - 1]);
    }
  }

  lemma {:induction false} LexIsLexFrom(flags: Flags, s: string)
    ensures Lex(flags, s) == LexFrom(flags, START, s)
  {
    if s != "" {
      LexIsLexFrom(flags, s[..|s| - 1]);
    }
  }

  lemma LexConcat(flags: Flags, a: string, b: string)
    ensures Lex(flags, a + b) == LexFrom(flags, Lex(flags, a), b)
  {
    LexIsLexFrom(flags, a + b);
    LexIsLexFrom(flags, a);
    LexFromConcat(flags, START, a, b);
  }

  /** A blank at the start of a line ends the empty key, so the text behind it is read as a value. */
  lemma LeadingBlankStartsValue(flags: Flags, p: string, b: char, c: char)
    requires Lex(flags, p).place == InKey([]) && Lex(flags, p).quote == Unquoted && !Lex(flags, p).esc
    requires Space(b) && Ordinary(c)
    ensures Lex(flags, p + [b, c]) == Lex(flags, p).(place := InValue([Plain(c)]))
  {
    LexConcat(flags, p, [b, c]);
    TwoSteps(flags, Lex(flags, p), b, c);
    assert Content([]) == "";
  }

  // Comment erasure

  lemma {:induction false} CommentRun(flags: Flags, lx: Lexer, t: string)
    requires lx.place.InComment? && lx.quote == Unquoted && !lx.esc
    requires forall i :: 0 <= i < |t| ==> !LineEnd(t[i])
    ensures LexFrom(flags, lx, t) == lx.(esc := Dangling(t))
  {
    if t != "" {
      CommentRun(flags, lx, t[..|t| - 1]);
    }
  }

  function Hashed(t: string, nl: char): string {
    ['#'] + t + [nl]
  }

  lemma HashedRun(flags: Flags, lx: Lexer, t: string, nl: char)
    requires WellFormed(lx) && lx.quote == Unquoted && !lx.esc && LineEnd(nl)
    requires forall i :: 0 <= i < |t| ==> !LineEnd(t[i])
    ensures LexFrom(flags, lx, Hashed(t, nl))
            == if Dangling(t) then Close(flags, lx).(place := InComment) else StepLexer(flags, lx, nl)
  {
    var c := StepLexer(flags, lx, '#');
    assert c == Close(flags, lx).(place := InComment);
    FirstStep(flags, lx, '#');
    LexFromConcat(flags, lx, ['#'], t);
    CommentRun(flags, c, t);
    var s := Hashed(t, nl);
    assert s[..|s| - 1] == ['#'] + t;
  }

  /** After any text p that ends outside quotes and escapes, a comment and the end of its line read like the end
      of the line alone, whatever follows - exactly when the comment does not end in a dangling backslash. */
  lemma CommentErasure(flags: Flags, p: string, t: string, nl: char)
    requires NewLine(nl) && forall i :: 0 <= i < |t| ==> !NewLine(t[i])
    requires Lex(flags, p).quote == Unquoted && !Lex(flags, p).esc
    ensures (forall r :: Run(flags, p + Hashed(t, nl) + r).tokens == Run(flags, p + [nl] + r).tokens) <==> !Dangling(t)
  {
    var lx := Lex(flags, p);
    LexWellFormed(flags, p);
    HashedRun(flags, lx, t, nl);
    LexConcat(flags, p, Hashed(t, nl));
    LexConcat(flags, p, [nl]);
    FirstStep(flags, lx, nl);
    if !Dangling(t) {
      forall r ensures Run(flags, p + Hashed(t, nl) + r).tokens == Run(flags, p + [nl] + r).tokens {
        LexConcat(flags, p + Hashed(t, nl), r);
        LexConcat(flags, p + [nl], r);
        RunRefines(flags, p + Hashed(t, nl) + r);
        RunRefines(flags, p + [nl] + r);
      }
    } else {
      DanglingDiffers(flags, p, t, nl);
    }
  }

  /** A line `a` after a comment that continues is part of the comment; after the line end it is a key. */
  lemma DanglingDiffers(flags: Flags, p: string, t: string, nl: char)
    requires LineEnd(nl) && Lex(flags, p).quote == Unquoted && !Lex(flags, p).esc && WellFormed(Lex(flags, p))
    requires Lex(flags, p + Hashed(t, nl)) == Close(flags, Lex(flags, p)).(place := InComment)
    requires Lex(flags, p + [nl]) == StepLexer(flags, Lex(flags, p), nl)
    ensures Run(flags, p + Hashed(t, nl) + "a\n").tokens != Run(flags, p + [nl] + "a\n").tokens
  {
    hide ConfigMachine.Run, Lex, LexFrom, Refines, Entries, StepLexer, Close, EndLine;
    var a, b := p + Hashed(t, nl), p + [nl];
    LexConcat(flags, a, "a\n");
    LexConcat(flags, b, "a\n");
    RunRefines(flags, a + "a\n");
    RunRefines(flags, b + "a\n");
    LineEndStep(flags, Lex(flags, p), nl);
    CommentedAndFresh(flags, Lex(flags, p));
  }

  lemma LineEndStep(flags: Flags, lx: Lexer, nl: char)
    requires LineEnd(nl) && lx.quote == Unquoted && !lx.esc
    ensures StepLexer(flags, lx, nl) == EndLine(flags, lx)
  {
  }

  lemma CommentedAndFresh(flags: Flags, lx: Lexer)
    requires WellFormed(lx) && lx.quote == Unquoted && !lx.esc
    ensures |Entries(flags, LexFrom(flags, Close(flags, lx).(place := InComment), "a\n"))|
            < |Entries(flags, LexFrom(flags, EndLine(flags, lx), "a\n"))|
  {
    hide LexFrom, Entries, Content;
    CommentedLine(flags, Close(flags, lx).(place := InComment));
    FreshLine(flags, lx);
    SameEntries(flags, Close(flags, lx), Close(flags, lx).(place := InComment));
  }

  predicate AtLineStart(lx: Lexer) {
    lx.place == InKey([]) && lx.quote == Unquoted && !lx.esc && lx.line == NO_TOKENS
  }

  /** One more finished line. */
  lemma EntriesLine(flags: Flags, lx: Lexer, line: Line)
    requires lx.line == NO_TOKENS
    ensures Entries(flags, lx.(lines := lx.lines + [line])) == Entries(flags, lx) + Finished(flags, line)
  {
    hide Finished;
    assert (lx.lines + [line])[..|lx.lines|] == lx.lines;
    assert Begun(NO_TOKENS) == [];
  }

  lemma OneStep(flags: Flags, lx: Lexer, s: string, c: char)
    ensures LexFrom(flags, lx, s + [c]) == StepLexer(flags, LexFrom(flags, lx, s), c)
  {
    assert (s + [c])[..|s|] == s;
  }

  lemma FirstStep(flags: Flags, lx: Lexer, c: char)
    ensures LexFrom(flags, lx, [c]) == StepLexer(flags, lx, c)
  {
    assert [c][..0] == "";
  }

  lemma TwoSteps(flags: Flags, lx: Lexer, c: char, d: char)
    ensures LexFrom(flags, lx, [c, d]) == StepLexer(flags, StepLexer(flags, lx, c), d)
  {
    FirstStep(flags, lx, c);
    assert [c, d][..1] == [c];
  }

  lemma CommentedLine(flags: Flags, cm: Lexer)
    requires cm.place.InComment? && cm.quote == Unquoted && !cm.esc
    ensures Entries(flags, LexFrom(flags, cm, "a\n"))
            == Entries(flags, cm) + if flags.multi && cm.line.key.Some? then [Null] else []
  {
    hide Entries;
    TwoSteps(flags, cm, 'a', '\n');
    assert LexFrom(flags, cm, "a\n") == EndLine(flags, cm);
    EntriesEndLine(flags, cm);
  }

  /** After a line end the line `a` adds a key to what the line end left. */
  lemma FreshLine(flags: Flags, lx: Lexer)
    requires WellFormed(lx) && lx.quote == Unquoted && !lx.esc
    ensures var closed := Close(flags, lx);
            |Entries(flags, LexFrom(flags, EndLine(flags, lx), "a\n"))|
            > |Entries(flags, closed)| + if flags.multi && closed.line.key.Some? then 1 else 0
  {
    hide Entries, Content, LexFrom;
    var next := EndLine(flags, lx);
    EntriesEndLine(flags, lx);
    TwoSteps(flags, next, 'a', '\n');
    assert [] + [Plain('a')] == [Plain('a')];
    var keyed := next.(place := InKey([Plain('a')]));
    EntriesEndLine(flags, keyed);
    OneLetter(flags, keyed);
    SameEntries(flags, keyed, next);
  }

  lemma OneLetter(flags: Flags, lx: Lexer)
    requires lx.place == InKey([Plain('a')]) && WellFormed(lx)
    ensures |Entries(flags, Close(flags, lx))| == |Entries(flags, lx)| + 1
  {
    hide Entries, Close;
    assert Chars([Plain('a')]) == "a" by {
      CharsPush([], Plain('a'));
      assert [] + [Plain('a')] == [Plain('a')];
    }
    EntriesClose(flags, lx);
  }
}
