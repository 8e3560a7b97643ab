/** What a value token is: its content less trailing blanks, save those behind a backslash or inside quotes. */
module ConfigValues {
  import opened Options
  import opened ConfigGrammar
  import opened ConfigMachine

  // Trimming

  /** Trimming from k on only ever keeps more than trimming everything. */
  lemma TrimFromIs(s: string, k: nat)
    ensures TrimFrom(s, k) == if |TrimRight(s)| >= k then TrimRight(s) else s[..Min(k, |s|)]
  {
    var m := Min(k, |s|);
    assert s == s[..m] + s[m..];
    TrimRightConcat(s[..m], s[m..]);
    TrimRightLength(s[..m]);
    if TrimRight(s[m..]) == "" && |TrimRight(s)| >= k {
      assert TrimRight(s) == s[..m];
    }
  }

  lemma {:induction false} TrimRightConcat(a: string, b: string)
    ensures TrimRight(a + b) == if TrimRight(b) == "" then TrimRight(a) else a + TrimRight(b)
  {
    if b == "" {
      assert a + b == a;
    } else if Blank(b[|b| - 1]) {
      assert (a + b)[..|a + b| - 1] == a + b[..|b| - 1];
      TrimRightConcat(a, b[..|b| - 1]);
    }
  }

  lemma TrimRightLength(s: string)
    ensures |TrimRight(s)| <= |s|
    ensures s != "" && !Blank(s[|s| - 1]) <==> s != "" && TrimRight(s) == s
  {
  }

  lemma TrimFromSolid(s: string, k: nat)
    requires s != "" && !Blank(s[|s| - 1])
    ensures TrimFrom(s, k) == s
  {
    TrimFromIs(s, k);
  }

  lemma {:induction false} CStrWhole(s: string)
    ensures CStr(s) == s <==> '\0' !in s
  {
    if s != "" && s[0] != '\0' {
      CStrWhole(s[1..]);
    }
  }

  // The description

  /** How many pieces lie up to the last escaped character or closing quote. */
  function Protected(ps: seq<Piece>): (k: nat)
    ensures k <= |ps|
  {
    if ps == [] then 0
    else if ps[|ps| - 1].Escaped? || ps[|ps| - 1].QuoteEnd? then |ps|
    else Protected(ps[..|ps| - 1])
  }

  /** How much of the content lies up to there. */
  function Mark(ps: seq<Piece>): nat {
    |Content(ps[..Protected(ps)])|
  }

  /** The content without trailing blanks, but with all of it up to the last escaped character or closing quote. */
  function Described(ps: seq<Piece>): string {
    TrimFrom(Content(ps), Mark(ps))
  }

  lemma {:induction false} CharsConcat(a: seq<Piece>, b: seq<Piece>)
    ensures Chars(a + b) == Chars(a) + Chars(b)
  {
    if b == [] {
      assert a + b == a;
    } else {
      assert (a + b)[..|a + b| - 1] == a + b[..|b| - 1];
      CharsConcat(a, b[..|b| - 1]);
    }
  }

  /** A token that fits: its characters up to that point, and the others without trailing blanks. */
  lemma DescribedIs(ps: seq<Piece>)
    requires |Chars(ps)| <= LIMIT
    ensures Described(ps) == Chars(ps[..Protected(ps)]) + TrimRight(Chars(ps[Protected(ps)..]))
  {
    hide Chars, TrimFrom, TrimRight, Protected;
    var k := Protected(ps);
    CharsSplit(ps, k);
    TrimFromFirst(Chars(ps[..k]), Chars(ps[k..]));
  }

  lemma CharsSplit(ps: seq<Piece>, k: nat)
    requires k <= |ps|
    ensures Chars(ps) == Chars(ps[..k]) + Chars(ps[k..]) && |Chars(ps[..k])| <= |Chars(ps)|
  {
    CharsConcat(ps[..k], ps[k..]);
    assert ps[..k] + ps[k..] == ps;
  }

  lemma TrimFromFirst(a: string, b: string)
    ensures TrimFrom(a + b, |a|) == a + TrimRight(b)
  {
    assert (a + b)[..|a|] == a && (a + b)[|a|..] == b;
  }

  lemma {:induction false} ContentGrows(ps: seq<Piece>, n: nat)
    requires n <= |ps|
    ensures |Content(ps[..n])| <= |Content(ps)|
  {
    if n < |ps| {
      hide Content;
      var init := ps[..|ps| - 1];
      assert ps == init + [ps[|ps| - 1]];
      ContentPush(init, ps[|ps| - 1]);
      ContentGrows(init, n);
      assert init[..n] == ps[..n];
    } else {
      assert ps[..n] == ps;
    }
  }

  lemma MarkPush(ps: seq<Piece>, p: Piece)
    ensures Mark(ps + [p]) == if p.Escaped? || p.QuoteEnd? then |Content(ps + [p])| else Mark(ps)
    ensures Mark(ps) <= |Content(ps)|
  {
    hide Content;
    var qs := ps + [p];
    assert qs[..|ps|] == ps && qs[..|qs|] == qs;
    assert qs[..Protected(ps)] == ps[..Protected(ps)];
    ContentGrows(ps, Protected(ps));
  }

  lemma CharsPush(ps: seq<Piece>, p: Piece)
    ensures Chars(ps + [p]) == Chars(ps) + if p.Plain? || p.Escaped? then [p.c] else ""
    ensures Protected(ps + [p]) == if p.Escaped? || p.QuoteEnd? then |ps| + 1 else Protected(ps)
  {
    assert (ps + [p])[..|ps|] == ps;
  }

  // Where the tokens are as described

  /** A joined line stands before the ordinary blanks that end the token. */
  predicate TailJoined(ps: seq<Piece>) {
    ps != [] &&
    match ps[|ps| - 1]
    case Plain(c) => Blank(c) && TailJoined(ps[..|ps| - 1])
    case Joined => true
    case _ => false
  }

  /** Nothing, a plain character or an escaped backslash stands there. */
  predicate Unmarked(ps: seq<Piece>) {
    ps == [] ||
    match ps[|ps| - 1]
    case Plain(c) => Blank(c) ==> Unmarked(ps[..|ps| - 1])
    case Escaped(c) => c == '\\'
    case _ => false
  }

  /** The last character kept is a blank. */
  predicate BlankLast(ps: seq<Piece>) {
    ps != [] &&
    var init := ps[..|ps| - 1];
    match ps[|ps| - 1]
    case Plain(c) => if |Content(init)| < LIMIT then Blank(c) else BlankLast(init)
    case Escaped(c) => if |Content(init)| < LIMIT then Blank(c) else BlankLast(init)
    case _ => BlankLast(init)
  }

  /** It is a blank with no escaped character and no closing quote behind it, nor is it escaped. */
  predicate LooseBlank(ps: seq<Piece>) {
    ps != [] &&
    var init := ps[..|ps| - 1];
    match ps[|ps| - 1]
    case Plain(c) => if |Content(init)| < LIMIT then Blank(c) else LooseBlank(init)
    case Joined => LooseBlank(init)
    case _ => false
  }

  /** Among the blanks that end what is kept is one that is escaped, or has an escaped character or a closing quote
      behind it. */
  predicate GuardedBlank(ps: seq<Piece>) {
    ps != [] &&
    var init := ps[..|ps| - 1];
    match ps[|ps| - 1]
    case Plain(c) => (|Content(init)| < LIMIT ==> Blank(c)) && GuardedBlank(init)
    case Escaped(c) => if |Content(init)| < LIMIT then Blank(c) else BlankLast(init)
    case QuoteEnd => BlankLast(init)
    case Joined => GuardedBlank(init)
  }

  /** How long the token is that keeps k characters. */
  function Length(s: string, k: nat): nat {
    if |TrimRight(s)| >= k then |TrimRight(s)| else Min(k, |s|)
  }

  lemma SameLength(s: string, k: nat, m: nat)
    ensures TrimFrom(s, k) == TrimFrom(s, m) <==> Length(s, k) == Length(s, m)
  {
    hide TrimFrom, TrimRight;
    TrimFromIs(s, k);
    TrimFromIs(s, m);
    assert TrimRight(s) == s[..|TrimRight(s)|];
  }

  lemma TrimRightPush(s: string, c: char)
    ensures TrimRight(s + [c]) == if Blank(c) then TrimRight(s) else s + [c]
  {
    assert (s + [c])[..|s|] == s;
  }

  lemma PiecePush(ps: seq<Piece>, p: Piece)
    ensures Content(ps + [p])
            == if (p.Plain? || p.Escaped?) && |Content(ps)| < LIMIT then Content(ps) + [p.c] else Content(ps)
    ensures Mark(ps + [p]) == if p.Escaped? || p.QuoteEnd? then |Content(ps + [p])| else Mark(ps)
    ensures Mark(ps) <= |Content(ps)|
    ensures (p.Plain? || p.Escaped?) && |Content(ps)| < LIMIT ==>
              TrimRight(Content(ps + [p])) == if Blank(p.c) then TrimRight(Content(ps)) else Content(ps + [p])
  {
    hide Content, Mark, TrimRight;
    ContentPush(ps, p);
    MarkPush(ps, p);
    if p.Plain? || p.Escaped? {
      TrimRightPush(Content(ps), p.c);
    }
  }

  /** The three predicates tell where the blanks that end the content, the mark and the content lie. */
  lemma {:induction false} BlanksAre(ps: seq<Piece>)
    ensures var r, m, n := |TrimRight(Content(ps))|, Mark(ps), |Content(ps)|;
            && r <= n && m <= n && (BlankLast(ps) <==> r < n)
            && (LooseBlank(ps) <==> r < n && m < n) && (GuardedBlank(ps) <==> r < m)
  {
    TrimRightLength(Content(ps));
    if ps == [] {
      EmptyMarks();
    } else {
      hide Content, Mark, TrimRight;
      var init, last := ps[..|ps| - 1], ps[|ps| - 1];
      assert ps == init + [last];
      PiecePush(init, last);
      BlanksAre(init);
    }
  }

  /** What the code keeps lies before, behind or at the mark. */
  lemma {:induction false} KeptIs(ps: seq<Piece>)
    ensures Unmarked(ps) ==> Kept(ps) == 0
    ensures TailJoined(ps) ==> Kept(ps) > Mark(ps) && Kept(ps) > |TrimRight(Content(ps))|
    ensures !Unmarked(ps) && !TailJoined(ps) ==>
              Min(Kept(ps), |Content(ps)|) == Mark(ps) && (Kept(ps) <= |Content(ps)| || |Content(ps)| == LIMIT)
  {
    if ps == [] {
      EmptyMarks();
    } else {
      hide Content, Mark, TrimRight, Kept;
      var init, last := ps[..|ps| - 1], ps[|ps| - 1];
      assert ps == init + [last];
      PiecePush(init, last);
      KeptPush(init, last);
      TrimRightLength(Content(init));
      if last.Plain? && Blank(last.c) {
        KeptIs(init);
      }
    }
  }

  /** The text of a value without NUL is its content without trailing blanks, save those up to the last escaped
      character or closing quote. It is so exactly when neither of two things is: a loose blank ends the content and a
      joined line stands before the token's last ordinary blanks; or a guarded blank does and nothing there guards it.
      The second happens only when characters were dropped. */
  lemma ValueByPieces(ps: seq<Piece>)
    requires '\0' !in Content(ps)
    ensures ValueText(ps) == Described(ps)
            <==> !(TailJoined(ps) && LooseBlank(ps)) && !(Unmarked(ps) && GuardedBlank(ps))
  {
    hide Content, Kept, Mark, TrimRight, TrimFrom, TailJoined, LooseBlank, Unmarked, GuardedBlank, BlankLast;
    CStrWhole(Content(ps));
    SameLength(Content(ps), Kept(ps), Mark(ps));
    BlanksAre(ps);
    KeptIs(ps);
  }

  /** Among the ordinary blanks and joined lines that end the token there is a blank. */
  predicate TailBlank(ps: seq<Piece>) {
    ps != [] &&
    match ps[|ps| - 1]
    case Plain(c) => Blank(c)
    case Joined => TailBlank(ps[..|ps| - 1])
    case _ => false
  }

  lemma {:induction false} FittingTails(ps: seq<Piece>)
    requires |Chars(ps)| <= LIMIT
    ensures LooseBlank(ps) <==> TailBlank(ps)
    ensures !(Unmarked(ps) && GuardedBlank(ps))
  {
    if ps != [] {
      hide Chars, Protected;
      var init, last := ps[..|ps| - 1], ps[|ps| - 1];
      assert ps == init + [last];
      CharsPush(init, last);
      FittingTails(init);
    }
  }

  /** For a value that fits: exactly when blanks and joined lines do not both stand at its end. The description is then
      its characters up to the last escaped character or closing quote, and the others without trailing blanks. */
  lemma ValueIsDescribed(ps: seq<Piece>)
    requires |Chars(ps)| <= LIMIT && '\0' !in Chars(ps)
    ensures Described(ps) == Chars(ps[..Protected(ps)]) + TrimRight(Chars(ps[Protected(ps)..]))
    ensures ValueText(ps) == Described(ps) <==> !(TailBlank(ps) && TailJoined(ps))
  {
    hide Chars, Protected, Described, TailBlank, TailJoined, LooseBlank, Unmarked, GuardedBlank, TrimRight;
    DescribedIs(ps);
    FittingTails(ps);
    ValueByPieces(ps);
  }

  /** With a NUL in the content the token is a C string that ends there. It is then the description cut at the
      NUL exactly when nothing before the NUL is left to trim. */
  lemma ValueWithNul(ps: seq<Piece>)
    requires '\0' in Content(ps)
    ensures var t := CStr(Content(ps));
            ValueText(ps) == CStr(Described(ps)) <==> t == "" || !Blank(t[|t| - 1]) || Kept(ps) >= |t|
  {
    hide Content, Kept, Mark, CStr, TrimFrom, TrimRight;
    NulSurvives(Content(ps), Mark(ps));
    TrimsNothing(CStr(Content(ps)), Kept(ps));
  }

  lemma TrimsNothing(t: string, k: nat)
    ensures TrimFrom(t, k) == t <==> t == "" || !Blank(t[|t| - 1]) || k >= |t|
  {
    TrimFromIs(t, k);
    if t != "" {
      TrimRightLength(t);
    }
  }

  /** A string with a NUL continues at its C-string end with the NUL. */
  lemma {:induction false} CStrCut(s: string)
    requires '\0' in s
    ensures |CStr(s)| < |s| && s[|CStr(s)|] == '\0'
  {
    if s[0] != '\0' {
      CStrCut(s[1..]);
    }
  }

  /** Trimming blanks does not reach back over a NUL. */
  lemma NulSurvives(s: string, k: nat)
    requires '\0' in s
    ensures CStr(TrimFrom(s, k)) == CStr(s)
  {
    hide TrimFrom, TrimRight, CStr;
    CStrCut(s);
    TrimFromIs(s, k);
    TrimRightReaches(s, |CStr(s)|);
    var n := |TrimFrom(s, k)|;
    assert s[..n] == TrimFrom(s, k);
    CStrPrefix(s, n);
  }

  lemma {:induction false} TrimRightReaches(s: string, z: nat)
    requires z < |s| && !Blank(s[z])
    ensures |TrimRight(s)| > z
  {
    if Blank(s[|s| - 1]) {
      TrimRightReaches(s[..|s| - 1], z);
    }
  }

  lemma {:induction false} CStrClean(s: string)
    ensures '\0' !in CStr(s)
  {
    if s != "" && s[0] != '\0' {
      CStrClean(s[1..]);
    }
  }

  lemma CStrPrefix(s: string, n: nat)
    requires '\0' in s && |CStr(s)| < n <= |s|
    ensures CStr(s[..n]) == CStr(s)
  {
    hide CStr;
    var m := |CStr(s)|;
    CStrCut(s);
    CStrClean(s);
    assert s[..m] == CStr(s) && s[..n] == s[..m] + s[m..n] && s[m..n][0] == '\0';
    CStrConcat(s[..m], s[m..n]);
    CStrOfNul(s[m..n]);
    assert CStr(s) + "" == CStr(s);
  }

  lemma CStrOfNul(s: string)
    requires s != "" && s[0] == '\0'
    ensures CStr(s) == ""
  {
  }

  // Instances where the two differ

  /** a, an escaped blank, NUL, b. */
  lemma NulCounterexample()
    ensures var ps := [Plain('a'), Escaped(' '), Plain('\0'), Plain('b')];
            ValueText(ps) == "a" && CStr(Described(ps)) == "a "
  {
    hide TrimFrom, CStr;
    var a := [Plain('a')];
    var b := a + [Escaped(' ')];
    var c := b + [Plain('\0')];
    var ps := c + [Plain('b')];
    assert ps == [Plain('a'), Escaped(' '), Plain('\0'), Plain('b')] && ps[..2] == b && c[..2] == b && b[..2] == b;
    assert Chars(a) == "a" && Protected(a) == 0;
    CharsPush(a, Escaped(' '));
    CharsPush(b, Plain('\0'));
    CharsPush(c, Plain('b'));
    assert Chars(ps) == "a " + "\0b" && Kept(ps) == 0 && Protected(ps) == 2;
    CutAtNul();
    NulSurvives(Content(ps), Mark(ps));
  }

  lemma CutAtNul()
    ensures CStr("a " + "\0b") == "a " && TrimFrom("a ", 0) == "a"
  {
    CStrWhole("a ");
    CStrConcat("a ", "\0b");
    assert "a "[..1] == "a";
    TrimFromIs("a ", 0);
  }

  /** v, a joined line, a blank: the blank at the end of the continued line stays. */
  lemma JoinedCounterexample()
    ensures var ps := [Plain('v'), Joined, Plain(' ')];
            ValueText(ps) == "v " && Described(ps) == "v"
  {
    var ps := [Plain('v'), Joined, Plain(' ')];
    JoinedMarks();
    hide TrimFrom, CStr, TrimRight, Content, Kept, Mark;
    CStrWhole("v ");
    TrimsNothing("v ", 2);
    TrimRightPush("v", ' ');
    TrimRightPush("", 'v');
    assert "" + ['v'] == "v" && "v" + [' '] == "v ";
    TrimFromIs("v ", 0);
  }

  lemma JoinedMarks()
    ensures var ps := [Plain('v'), Joined, Plain(' ')];
            Content(ps) == "v " && Kept(ps) == 2 && Mark(ps) == 0
  {
    hide Content, Kept, Mark;
    var a, b := [Plain('v')], [Plain('v'), Joined];
    var ps := [Plain('v'), Joined, Plain(' ')];
    assert a == [] + [Plain('v')] && b == a + [Joined] && ps == b + [Plain(' ')];
    EmptyMarks();
    ContentPush([], Plain('v'));
    ContentPush(a, Joined);
    ContentPush(b, Plain(' '));
    KeptPush(a, Joined);
    KeptPush(b, Plain(' '));
    MarkPush([], Plain('v'));
    MarkPush(a, Joined);
    MarkPush(b, Plain(' '));
    assert "" + ['v'] == "v" && "v" + [' '] == "v ";
  }

  lemma EmptyMarks()
    ensures Content([]) == "" && Kept([]) == 0 && Mark([]) == 0
  {
  }

  // On the entries of a run

  /** Over every input the entries added as values are the texts of the lexer's values, so they are as described
      under the conditions above. */
  lemma ValuesOfRun(flags: Flags, input: string, i: nat)
    requires i < |Run(flags, input).tags| && Run(flags, input).tags[i] == ValueTag
    ensures var m, es := Run(flags, input), Entries(flags, Lex(flags, input));
            && i < |m.tokens| && i < |es| && es[i].Value?
            && m.tokens[i] == Some(ValueText(es[i].pieces))
            && ('\0' !in Content(es[i].pieces) ==>
                  var ps := es[i].pieces;
                  m.tokens[i] == Some(Described(ps))
                  <==> !(TailJoined(ps) && LooseBlank(ps)) && !(Unmarked(ps) && GuardedBlank(ps)))
  {
    hide ConfigMachine.Run, Lex, Entries, Refines, ValueText, Described, TailJoined, LooseBlank, Unmarked, GuardedBlank,
      Content;
    RunRefines(flags, input);
    var es := Entries(flags, Lex(flags, input));
    assert TagOf(es[i]) == ValueTag;
    if '\0' !in Content(es[i].pieces) {
      ValueByPieces(es[i].pieces);
    }
  }
}
