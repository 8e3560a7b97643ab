/** Where trimming a token starts - inside the token, behind it, or behind the buffer - and when it stays inside. */
module ConfigTrims {
  import opened Options
  import opened ConfigGrammar
  import opened ConfigMachine
  import opened ConfigValues

  ghost predicate AllInside(trims: seq<Trim>) {
    forall t :: t in trims ==> t.from <= t.terminator
  }

  ghost predicate AllInBuffer(trims: seq<Trim>) {
    forall t :: t in trims ==> t.from < MAX_LINE_LENGTH
  }

  /** The greatest place that holds a terminator after the trims, in a buffer whose last NUL was at z. */
  function High(trims: seq<Trim>, z: int): (h: int)
    ensures h >= z
  {
    if trims == [] then z
    else
      var t := trims[|trims| - 1];
      var h := High(trims[..|trims| - 1], z);
      if t.terminator > h then t.terminator else h
  }

  /** Each trim starts no later than the last NUL there then was. */
  ghost predicate Safe(trims: seq<Trim>, z: int) {
    trims == [] || (Safe(trims[..|trims| - 1], z) && trims[|trims| - 1].from <= High(trims, z))
  }

  lemma SafePush(trims: seq<Trim>, t: Trim, z: int)
    ensures High(trims + [t], z) == if t.terminator > High(trims, z) then t.terminator else High(trims, z)
    ensures Safe(trims + [t], z) <==> Safe(trims, z) && t.from <= High(trims + [t], z)
  {
    assert (trims + [t])[..|trims|] == trims;
  }

  /** The pieces without the ordinary blanks at their end. */
  function Solid(ps: seq<Piece>): (r: seq<Piece>)
    ensures r <= ps
  {
    if ps != [] && ps[|ps| - 1].Plain? && Blank(ps[|ps| - 1].c) then Solid(ps[..|ps| - 1]) else ps
  }

  /** Before the ordinary blanks at the end of the token comes a line joined with no blank behind it, or, where
      the token is already full, a joined line or an escaped character other than a backslash. */
  predicate Overreaches(ps: seq<Piece>) {
    var s := Solid(ps);
    s != [] &&
    var full, last := |Content(s[..|s| - 1])| == LIMIT, s[|s| - 1];
    if last.Joined? then full || s == ps else full && last.Escaped? && last.c != '\\'
  }

  /** What is kept is at most one character longer than the token, and longer at all exactly when it overreaches. */
  lemma {:induction false} KeptOverreaches(ps: seq<Piece>)
    ensures Kept(ps) <= |Content(ps)| + 1
    ensures Kept(ps) > |Content(ps)| <==> Overreaches(ps)
  {
    hide Content;
    if ps != [] {
      var init, last := ps[..|ps| - 1], ps[|ps| - 1];
      assert ps == init + [last];
      ContentPush(init, last);
      if last.Plain? && Blank(last.c) {
        KeptOverreaches(init);
        OverreachesPush(init, last.c);
      }
    }
  }

  /** A blank still stored behind the token ends the overreach; one dropped changes nothing. */
  lemma OverreachesPush(ps: seq<Piece>, c: char)
    requires Blank(c)
    ensures Overreaches(ps + [Plain(c)]) <==> |Content(ps)| == LIMIT && Overreaches(ps)
  {
    hide Content;
    var qs := ps + [Plain(c)];
    assert qs[..|ps|] == ps && Solid(qs) == Solid(ps);
    var s := Solid(ps);
    if s != [] {
      var n := |s| - 1;
      assert s[..n] == ps[..n];
      ContentGrows(ps, n);
      if s == ps && s[n].Joined? {
        ContentPush(s[..n], Joined);
        assert s == s[..n] + [Joined];
      }
    }
  }

  /** A value, or a key without dashes, that overreaches. */
  predicate Overruns(flags: Flags, e: Entry) {
    (e.Value? || (e.Key? && flags.blank)) && Overreaches(e.pieces)
  }

  lemma TrimOfEntry(flags: Flags, e: Entry)
    ensures AllInside(TrimOf(flags, e)) <==> !Overruns(flags, e)
    ensures AllInBuffer(TrimOf(flags, e)) <==> !(Overruns(flags, e) && |Content(e.pieces)| == LIMIT)
  {
    hide Overreaches, Content, Kept;
    if e.Key? || e.Value? {
      KeptOverreaches(e.pieces);
      var dashes := if e.Key? then Prefix(flags, Content(e.pieces)) else "";
      assert TrimOf(flags, e) == [Trim(2 - |dashes| + Kept(e.pieces), 2 + |Content(e.pieces)|)];
      assert TrimOf(flags, e)[0] in TrimOf(flags, e);
    }
  }

  lemma {:induction false} TrimsOfEntries(flags: Flags, es: seq<Entry>)
    ensures AllInside(Trims(flags, es)) <==> forall e :: e in es ==> !Overruns(flags, e)
    ensures AllInBuffer(Trims(flags, es))
            <==> forall e :: e in es ==> !(Overruns(flags, e) && |Content(e.pieces)| == LIMIT)
  {
    if es != [] {
      hide Overruns, TrimOf, Content;
      var init, last := es[..|es| - 1], es[|es| - 1];
      TrimsOfEntries(flags, init);
      TrimOfEntry(flags, last);
      assert es == init + [last];
      forall t ensures t in Trims(flags, es) <==> t in Trims(flags, init) || t in TrimOf(flags, last) {
      }
    }
  }

  /** For every input: each trim starts inside its token exactly when no token overruns, and inside the buffer
      exactly when none of LIMIT characters does. */
  lemma TrimsInside(flags: Flags, input: string)
    ensures AllInside(Run(flags, input).trims)
            <==> forall e :: e in Entries(flags, Lex(flags, input)) ==> !Overruns(flags, e)
    ensures AllInBuffer(Run(flags, input).trims)
            <==> forall e :: e in Entries(flags, Lex(flags, input)) ==>
                   !(Overruns(flags, e) && |Content(e.pieces)| == LIMIT)
  {
    hide Lex, ConfigMachine.Run, Refines, Overruns, Content, Entries, AllInside, AllInBuffer;
    RunRefines(flags, input);
    TrimsOfEntries(flags, Entries(flags, Lex(flags, input)));
  }

  // When trims stay in the buffer

  predicate IsToken(e: Entry) {
    e.Key? || e.Value?
  }

  /** A strictly longer token comes before entry i. */
  predicate Longer(es: seq<Entry>, i: nat)
    requires i < |es| && IsToken(es[i])
  {
    exists j :: 0 <= j < i && IsToken(es[j]) && |Content(es[j].pieces)| > |Content(es[i].pieces)|
  }

  /** Every token that overruns comes after a strictly longer one, or the buffer held a NUL behind it. */
  ghost predicate Sheltered(flags: Flags, es: seq<Entry>, z: int) {
    forall i {:trigger es[i]} :: 0 <= i < |es| && Overruns(flags, es[i]) ==>
      Longer(es, i) || z > 2 + |Content(es[i].pieces)|
  }

  lemma TrimIs(flags: Flags, e: Entry)
    requires IsToken(e)
    ensures |TrimOf(flags, e)| == 1 && TrimOf(flags, e)[0].terminator == 2 + |Content(e.pieces)|
    ensures Overruns(flags, e) ==> TrimOf(flags, e)[0].from == 3 + |Content(e.pieces)|
    ensures !Overruns(flags, e) ==> TrimOf(flags, e)[0].from <= 2 + |Content(e.pieces)|
  {
    hide Overreaches, Content, Kept;
    KeptOverreaches(e.pieces);
  }

  /** The last NUL lies at n or behind it when it did at first, or some token's terminator does. */
  lemma {:induction false} HighReaches(flags: Flags, es: seq<Entry>, z: int, n: int)
    ensures High(Trims(flags, es), z) >= n
            <==> z >= n || exists j :: 0 <= j < |es| && IsToken(es[j]) && 2 + |Content(es[j].pieces)| >= n
  {
    if es != [] {
      hide High, TrimOf, Content;
      var init, last := es[..|es| - 1], es[|es| - 1];
      assert es == init + [last];
      HighReaches(flags, init, z, n);
      if IsToken(last) {
        TrimIs(flags, last);
        assert TrimOf(flags, last) == [TrimOf(flags, last)[0]];
        SafePush(Trims(flags, init), TrimOf(flags, last)[0], z);
      } else {
        assert Trims(flags, es) == Trims(flags, init);
      }
    }
  }

  lemma LongerPush(es: seq<Entry>, e: Entry, i: nat)
    requires i < |es| && IsToken(es[i])
    ensures Longer(es + [e], i) <==> Longer(es, i)
  {
    hide Content;
    var r := es + [e];
    assert r[i] == es[i];
    forall j | 0 <= j < i ensures r[j] == es[j] {
    }
  }

  lemma ShelteredPush(flags: Flags, es: seq<Entry>, e: Entry, z: int)
    ensures Sheltered(flags, es + [e], z)
            <==> Sheltered(flags, es, z)
                 && (Overruns(flags, e) ==> Longer(es + [e], |es|) || z > 2 + |Content(e.pieces)|)
  {
    hide Content, Longer, Overreaches;
    var r := es + [e];
    assert r[|es|] == e;
    forall i | 0 <= i < |es| && Overruns(flags, es[i]) ensures r[i] == es[i] && (Longer(r, i) <==> Longer(es, i)) {
      LongerPush(es, e, i);
    }
    if Sheltered(flags, r, z) {
      forall i | 0 <= i < |es| && Overruns(flags, es[i]) ensures Longer(es, i) || z > 2 + |Content(es[i].pieces)| {
        assert r[i] == es[i];
      }
    }
  }

  /** A token's trim starts no later than the last NUL unless it overruns and none before it is longer. */
  lemma TokenSafe(flags: Flags, es: seq<Entry>, e: Entry, z: int)
    requires IsToken(e)
    ensures Safe(Trims(flags, es + [e]), z)
            <==> Safe(Trims(flags, es), z)
                 && (Overruns(flags, e) ==> Longer(es + [e], |es|) || z > 2 + |Content(e.pieces)|)
  {
    hide Content, Overruns, High, Safe, TrimOf;
    var r := es + [e];
    assert r[..|es|] == es && r[|es|] == e;
    TrimIs(flags, e);
    var t := TrimOf(flags, e)[0];
    assert TrimOf(flags, e) == [t];
    SafePush(Trims(flags, es), t, z);
    HighReaches(flags, es, z, 3 + |Content(e.pieces)|);
    forall j | 0 <= j < |es| ensures r[j] == es[j] {
    }
  }

  lemma {:induction false} SafeIsSheltered(flags: Flags, es: seq<Entry>, z: int)
    ensures Safe(Trims(flags, es), z) <==> Sheltered(flags, es, z)
  {
    if es != [] {
      hide Content, Longer, Safe, TrimOf, Sheltered, Overreaches;
      var init, last := es[..|es| - 1], es[|es| - 1];
      assert es == init + [last];
      SafeIsSheltered(flags, init, z);
      ShelteredPush(flags, init, last, z);
      if IsToken(last) {
        TokenSafe(flags, init, last, z);
      } else {
        NoTrim(flags, init, last);
      }
    }
  }

  lemma NoTrim(flags: Flags, es: seq<Entry>, e: Entry)
    requires !IsToken(e)
    ensures Trims(flags, es + [e]) == Trims(flags, es)
  {
    assert (es + [e])[..|es|] == es;
  }

  /** For every input, and a buffer whose last NUL was at z: all trims start no later than the last NUL exactly when
      every token that overruns is sheltered. */
  lemma TrimsSafe(flags: Flags, input: string, z: int)
    ensures Safe(Run(flags, input).trims, z) <==> Sheltered(flags, Entries(flags, Lex(flags, input)), z)
  {
    hide Lex, ConfigMachine.Run, Refines, Safe, Sheltered, Entries;
    RunRefines(flags, input);
    SafeIsSheltered(flags, Entries(flags, Lex(flags, input)), z);
  }

  /** The place of the last NUL, -1 when there is none. */
  function LastNul(s: string): (z: int)
    ensures -1 <= z < |s|
  {
    if s == "" then -1 else if s[|s| - 1] == '\0' then |s| - 1 else LastNul(s[..|s| - 1])
  }

  lemma {:induction false} LastNulIs(s: string)
    ensures LastNul(s) >= 0 ==> s[LastNul(s)] == '\0'
    ensures forall j :: LastNul(s) < j < |s| ==> s[j] != '\0'
  {
    if s != "" && s[|s| - 1] != '\0' {
      LastNulIs(s[..|s| - 1]);
    }
  }

  lemma ShelteredMore(flags: Flags, es: seq<Entry>, y: int, z: int)
    requires Sheltered(flags, es, y) && y <= z
    ensures Sheltered(flags, es, z)
  {
    hide Content, Longer, Overruns;
  }

  /** For every input: whatever was in the buffer at first no trim leaves it, if and only if every token that overruns
      comes after a strictly longer one. */
  lemma SafeForEveryBuffer(flags: Flags, input: string)
    ensures (forall initial: string :: |initial| == MAX_LINE_LENGTH ==> Safe(Run(flags, input).trims, LastNul(initial)))
            <==> Sheltered(flags, Entries(flags, Lex(flags, input)), -1)
  {
    hide Lex, ConfigMachine.Run, Safe, Sheltered, Entries, LastNul;
    var es := Entries(flags, Lex(flags, input));
    if Sheltered(flags, es, -1) {
      forall initial: string | |initial| == MAX_LINE_LENGTH ensures Safe(Run(flags, input).trims, LastNul(initial)) {
        ShelteredMore(flags, es, -1, LastNul(initial));
        TrimsSafe(flags, input, LastNul(initial));
      }
    } else {
      TrimsSafe(flags, input, -1);
      var full := seq(MAX_LINE_LENGTH, _ => '-');
      LastNulIs(full);
      assert LastNul(full) == -1;
    }
  }

  /** None that overruns shelters all; one of LIMIT characters that overruns is never sheltered. */
  lemma ShelteredBounds(flags: Flags, es: seq<Entry>, z: int)
    requires z < MAX_LINE_LENGTH
    ensures (forall e :: e in es ==> !Overruns(flags, e)) ==> Sheltered(flags, es, z)
    ensures Sheltered(flags, es, z) ==> forall e :: e in es ==> !(Overruns(flags, e) && |Content(e.pieces)| == LIMIT)
  {
    hide Overreaches, Content;
  }

  /** A token that fits and joins no lines does not overreach. */
  lemma FittingDoesNotOverreach(ps: seq<Piece>)
    requires Joined !in ps && |Chars(ps)| <= LIMIT
    ensures !Overreaches(ps)
  {
    hide Solid, Chars, Content, Protected;
    var s := Solid(ps);
    if s != [] {
      var n := |s| - 1;
      assert s[n] == ps[n] && ps[n] in ps;
      if s[n].Escaped? {
        assert s[..n] + [s[n]] == s && s + ps[n + 1..] == ps;
        CharsPush(s[..n], s[n]);
        CharsConcat(s, ps[n + 1..]);
        ContentLength(s[..n]);
      }
    }
  }

  lemma ContentLength(ps: seq<Piece>)
    ensures |Content(ps)| == Min(|Chars(ps)|, LIMIT)
  {
    hide Chars;
  }

  // Inputs without a backslash

  predicate NoEscapes(ps: seq<Piece>) {
    forall p :: p in ps ==> p.Plain? || p.QuoteEnd?
  }

  ghost predicate PlainLine(line: Line) {
    && (line.key.Some? ==> NoEscapes(line.key.value))
    && (forall v :: v in line.values ==> NoEscapes(v))
  }

  ghost predicate PlainLexer(lx: Lexer) {
    !lx.esc && NoEscapes(Pieces(lx.place)) && PlainLine(lx.line) && forall l :: l in lx.lines ==> PlainLine(l)
  }

  lemma {:induction false} LexPlain(flags: Flags, input: string)
    requires '\\' !in input
    ensures PlainLexer(Lex(flags, input))
  {
    if input != "" {
      LexPlain(flags, input[..|input| - 1]);
      assert input[|input| - 1] in input;
      PlainStep(flags, Lex(flags, input[..|input| - 1]), input[|input| - 1]);
    }
  }

  lemma PlainStep(flags: Flags, lx: Lexer, c: char)
    requires PlainLexer(lx) && c != '\\'
    ensures PlainLexer(StepLexer(flags, lx, c))
  {
    hide PlainLexer, Close, Put, EndLine;
    PlainMoves(flags, lx, c);
    PlainMarks(lx);
    PlainMarks(Put(lx, []));
    PlainMarks(Put(lx, [QuoteEnd]));
    PlainMarks(Close(flags, lx));
  }

  lemma PlainMoves(flags: Flags, lx: Lexer, c: char)
    requires PlainLexer(lx)
    ensures PlainLexer(Close(flags, lx)) && PlainLexer(EndLine(flags, lx))
    ensures PlainLexer(Put(lx, [Plain(c)])) && PlainLexer(Put(lx, [QuoteEnd])) && PlainLexer(Put(lx, []))
  {
    hide Content;
  }

  /** Quotes and comments add no pieces. */
  lemma PlainMarks(lx: Lexer)
    requires PlainLexer(lx)
    ensures !lx.esc && forall q :: PlainLexer(lx.(quote := q))
    ensures PlainLexer(lx.(place := InComment)) && PlainLexer(lx.(esc := false))
  {
  }

  lemma {:induction false} FinishedPlain(flags: Flags, lines: seq<Line>)
    requires forall l :: l in lines ==> PlainLine(l)
    ensures forall e :: e in AllFinished(flags, lines) ==> (e.Key? || e.Value? ==> NoEscapes(e.pieces))
  {
    if lines != [] {
      hide NoEscapes;
      FinishedPlain(flags, lines[..|lines| - 1]);
      assert PlainLine(lines[|lines| - 1]);
    }
  }

  /** Without a backslash in the input every trim starts inside its token. */
  lemma NoBackslashInside(flags: Flags, input: string)
    requires '\\' !in input
    ensures AllInside(Run(flags, input).trims)
  {
    hide Lex, ConfigMachine.Run, AllInside, NoEscapes, Overreaches, Entries;
    LexPlain(flags, input);
    EntriesPlain(flags, Lex(flags, input));
    TrimsInside(flags, input);
    forall e | e in Entries(flags, Lex(flags, input)) ensures !Overruns(flags, e) {
      if e.Key? || e.Value? {
        NoEscapesInside(e.pieces);
      }
    }
  }

  lemma EntriesPlain(flags: Flags, lx: Lexer)
    requires PlainLexer(lx)
    ensures forall e :: e in Entries(flags, lx) ==> (e.Key? || e.Value? ==> NoEscapes(e.pieces))
  {
    hide NoEscapes, AllFinished;
    FinishedPlain(flags, lx.lines);
  }

  lemma NoEscapesInside(ps: seq<Piece>)
    requires NoEscapes(ps)
    ensures !Overreaches(ps)
  {
    hide Solid, Content;
    var s := Solid(ps);
    if s != [] {
      var n := |s| - 1;
      assert s[n] == ps[n] && ps[n] in ps;
    }
  }
}
