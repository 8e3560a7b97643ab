/** The reader itself: the byte loop over its state variables and fixed token buffer. */
module ConfigFile {
  import opened Options
  import opened ConfigGrammar
  import opened ConfigMachine
  import opened ConfigTrims

  function Concat(chunks: seq<string>): string {
    if chunks == [] then "" else Concat(chunks[..|chunks| - 1]) + chunks[|chunks| - 1]
  }

  lemma ConcatPush(chunks: seq<string>, k: nat)
    requires k < |chunks|
    ensures Concat(chunks[..k + 1]) == Concat(chunks[..k]) + chunks[k]
  {
    assert chunks[..k + 1][..k] == chunks[..k];
  }

  lemma {:induction false} CStrIs(s: string, n: nat)
    requires n <= |s| && '\0' !in s[..n] && (n < |s| ==> s[n] == '\0')
    ensures CStr(s) == s[..n]
  {
    if n > 0 {
      assert s[0] == s[..n][0];
      assert s[1..][..n - 1] == s[..n][1..];
      CStrIs(s[1..], n - 1);
    }
  }

  /** strlen: the first NUL of s at or after `from`, |s| when there is none. */
  function NulFrom(s: string, from: nat): (e: nat)
    requires from <= |s|
    ensures from <= e <= |s| && (e < |s| ==> s[e] == '\0')
    ensures forall j :: from <= j < e ==> s[j] != '\0'
    decreases |s| - from
  {
    if from == |s| || s[from] == '\0' then from else NulFrom(s, from + 1)
  }

  lemma NulFromIs(s: string, from: nat, e: nat)
    requires from <= e < |s| && s[e] == '\0' && forall j :: from <= j < e ==> s[j] != '\0'
    ensures NulFrom(s, from) == e
  {
    var n := NulFrom(s, from);
    assert !(n < e) && !(e < n);
  }

  /** Where the string ends when its last blanks, but none of the first m characters, are dropped up to n. */
  function TrimEnd(t: string, m: nat, n: nat): (e: nat)
    requires n <= |t|
    ensures e <= n && (m <= n ==> m <= e)
    ensures forall j :: e <= j < n ==> Blank(t[j])
  {
    if n > m && Blank(t[n - 1]) then TrimEnd(t, m, n - 1) else n
  }

  /** s with everything from t to e overwritten. */
  function Blanked(s: string, t: nat, e: nat): (r: string)
    requires t <= e <= |s|
    ensures |r| == |s|
    ensures forall j {:trigger r[j]} :: 0 <= j < |s| ==> r[j] == if t <= j < e then '\0' else s[j]
  {
    s[..t] + seq(e - t, _ => '\0') + s[e..]
  }

  /** What `remove_trailing_whitespace` leaves of s when the string at `from` ends inside it. */
  function Overwritten(s: string, from: nat): (r: string)
    requires from <= |s|
    ensures |r| == |s|
    ensures forall j {:trigger r[j]} :: 0 <= j < |s| ==> r[j] == s[j] || (from <= j && Blank(s[j]) && r[j] == '\0')
    ensures forall j {:trigger r[j]} :: NulFrom(s, from) <= j < |s| ==> r[j] == s[j]
  {
    var e := NulFrom(s, from);
    Blanked(s, TrimEnd(s, from, e), e)
  }

  lemma {:induction false} TrimEndIs(t: string, m: nat, n: nat)
    requires m <= n <= |t|
    ensures TrimRight(t[m..n]) == t[m..TrimEnd(t, m, n)]
  {
    var r := t[m..n];
    if n > m {
      assert r[|r| - 1] == t[n - 1] && r[..|r| - 1] == t[m..n - 1];
      if Blank(t[n - 1]) {
        TrimEndIs(t, m, n - 1);
      }
    }
  }

  lemma Slices(t: string, a: nat, m: nat, n: nat)
    requires a <= m <= n <= |t|
    ensures t[a..m] + t[m..n] == t[a..n] && t[a..n][..m - a] == t[a..m] && t[a..n][m - a..] == t[m..n]
  {
  }

  /** The trimmed part of the string that ends at e. */
  lemma OverwrittenIs(was: string, from: nat, e: nat)
    requires from <= e < |was| && e == NulFrom(was, from)
    ensures var t, now := TrimEnd(was, from, e), Overwritten(was, from);
            now[..t] == was[..t] && now[t] == '\0'
  {
    hide NulFrom, TrimEnd;
  }

  /** A trim that starts inside the string at `start`, which ends at e, makes it the trimmed string. */
  lemma TrimmedInside(was: string, start: nat, k: nat, e: nat)
    requires start + k <= e < |was| && e == NulFrom(was, start)
    ensures var now := Overwritten(was, start + k);
            NulFrom(now, start) < |now| && now[start..NulFrom(now, start)] == TrimFrom(was[start..e], k)
  {
    hide NulFrom, TrimEnd, Overwritten, TrimFrom;
    var from := start + k;
    NulFromIs(was, from, e);
    OverwrittenIs(was, from, e);
    var t, now := TrimEnd(was, from, e), Overwritten(was, from);
    assert now[start..t] == now[..t][start..] == was[..t][start..] == was[start..t];
    SamePrefix(was, now, t);
    NulFromIs(now, start, t);
    TrimFromSlice(was, start, k, e);
  }

  lemma SamePrefix(was: string, now: string, t: nat)
    requires t <= |was| && t <= |now| && was[..t] == now[..t]
    ensures forall j :: 0 <= j < t ==> now[j] == was[j]
  {
    forall j | 0 <= j < t ensures now[j] == was[j] {
      assert now[..t][j] == was[..t][j];
    }
  }

  lemma TrimFromSlice(was: string, start: nat, k: nat, e: nat)
    requires start + k <= e <= |was|
    ensures TrimFrom(was[start..e], k) == was[start..TrimEnd(was, start + k, e)]
  {
    hide TrimEnd, TrimRight;
    TrimEndIs(was, start + k, e);
    Slices(was, start, start + k, e);
    Slices(was, start, start + k, TrimEnd(was, start + k, e));
  }

  /** A trim that starts behind the end e of the string at `start` leaves the string alone. */
  lemma TrimmedBehind(was: string, start: nat, k: nat, e: nat)
    requires start <= e < start + k <= |was| && e < |was| && e == NulFrom(was, start)
    ensures var now := Overwritten(was, start + k);
            NulFrom(now, start) == e && now[start..e] == TrimFrom(was[start..e], k)
  {
    hide NulFrom, Overwritten;
    var now := Overwritten(was, start + k);
    NulFromIs(now, start, e);
    assert now[start..e] == was[start..e];
    TrimFromBeyond(was[start..e], k);
  }

  lemma TrimFromBeyond(s: string, k: nat)
    requires k >= |s|
    ensures TrimFrom(s, k) == s
  {
    assert s[..|s|] + "" == s && s[|s|..] == "";
  }

  /** Whether or not the trim stays in the buffer, the string at `start` is the trimmed token, and the
      terminator still stands. */
  lemma AddedString(was: string, start: nat, k: nat, z: nat)
    requires start <= z < |was| && was[z] == '\0'
    ensures start + k <= z ==> NulFrom(was, start + k) < |was|
    ensures var inside := start + k <= |was| && NulFrom(was, start + k) < |was|;
            var now := if inside then Overwritten(was, start + k) else was;
            && NulFrom(now, start) < |now| && now[z] == '\0'
            && now[start..NulFrom(now, start)] == TrimFrom(CStr(was[start..z]), k)
  {
    hide NulFrom, Overwritten, TrimFrom, CStr;
    var e := NulFrom(was, start);
    assert e <= z;
    CStrUpTo(was, start, e, z);
    if start + k <= e {
      NulFromIs(was, start + k, e);
      TrimmedInside(was, start, k, e);
    } else {
      TrimFromBeyond(was[start..e], k);
      if start + k <= |was| {
        TrimmedBehind(was, start, k, e);
      }
    }
  }

  lemma CStrUpTo(was: string, start: nat, e: nat, z: nat)
    requires start <= e <= z < |was| && was[z] == '\0' && e == NulFrom(was, start)
    ensures CStr(was[start..z]) == was[start..e]
  {
    hide NulFrom, CStr;
    assert was[start..z][..e - start] == was[start..e];
    CStrIs(was[start..z], e - start);
  }

  // The last NUL in the buffer

  /** The buffer's last NUL behind the open token, which reaches up to p, is where the trims so far say; and they have
      all stayed in the buffer exactly when each started no later than the last NUL. */
  ghost predicate Charted(s: string, z: int, trims: seq<Trim>, p: nat, defined: bool) {
    var h := High(trims, z);
    && h < |s| && (p <= h ==> s[h] == '\0') && (forall j :: 0 <= j < |s| && h < j && p < j ==> s[j] != '\0')
    && (defined <==> Safe(trims, z))
  }

  lemma ChartedFirst(s: string)
    ensures Charted(s, LastNul(s), [], 2, true)
  {
    LastNulIs(s);
  }

  /** Storing a token's next character, or its terminator. */
  lemma ChartedStore(s: string, z: int, trims: seq<Trim>, p: nat, defined: bool, c: char)
    requires Charted(s, z, trims, p, defined) && p < |s|
    ensures Charted(s[p := c], z, trims, p + 1, defined)
    ensures Charted(s[p := '\0'], z, trims, p, defined)
  {
    hide Safe, High;
  }

  /** The scan of a trim ends in the buffer exactly when it starts no later than the last NUL, and leaves that there. */
  lemma ChartedTrim(s: string, z: int, trims: seq<Trim>, p: nat, defined: bool, from: nat)
    requires Charted(s, z, trims, p, defined) && p < |s| && s[p] == '\0'
    ensures var inside := from <= |s| && NulFrom(s, from) < |s|;
            var now := if inside then Overwritten(s, from) else s;
            && Charted(now, z, trims + [Trim(from, p)], p, defined && inside)
            && Charted(now, z, trims + [Trim(from, p)], 2, defined && inside)
  {
    hide Safe, High, NulFrom, Overwritten;
    SafePush(trims, Trim(from, p), z);
    var h := High(trims + [Trim(from, p)], z);
    assert s[h] == '\0';
    if from <= h {
      assert NulFrom(s, from) <= h;
    }
  }

  lemma StepPush(flags: Flags, input: string, c: char)
    ensures Run(flags, input + [c]) == Step(flags, Run(flags, input), c)
  {
    assert (input + [c])[..|input|] == input;
  }

  lemma EmptyConcat()
    ensures Concat([]) == ""
  {
  }

  class Reader {
    const flags: Flags
    const buffer: array<char>  // token_buffer: two dashes, then the token
    ghost const initial: string  // what the buffer held at first
    var inEscape: bool
    var inComment: bool
    var inQuote: nat
    var inKey: bool
    var inValue: bool
    var addedKey: bool
    var lastEscaped: nat
    var tokenPos: nat
    var tokens: seq<Option<string>>
    ghost var tags: seq<Tag>
    ghost var trims: seq<Trim>
    ghost var defined: bool  // no trim has run off the buffer
    ghost var input: string  // every byte read so far

    ghost predicate Shaped()
      reads this, buffer
    {
      && buffer.Length == MAX_LINE_LENGTH && buffer[0] == '-' && buffer[1] == '-' && tokenPos <= LIMIT
      && Charted(buffer[..], LastNul(initial), trims, 2 + tokenPos, defined)
    }

    ghost function View(): Machine
      requires Shaped()
      reads this, buffer
    {
      Machine(inEscape, inComment, inQuote, inKey, inValue, addedKey, lastEscaped, buffer[2..2 + tokenPos],
              tokens, tags, trims)
    }

    /** The state is where the bytes read so far lead. */
    ghost predicate Valid()
      reads this, buffer
    {
      Shaped() && View() == Run(flags, input)
    }

    /** What holds between any two bytes: the machine's invariant, the lexer's tokens in the array, and every trim
        within the buffer if and only if every token so far that overruns is sheltered. */
    lemma BetweenBytes()
      requires Valid()
      ensures Invariant(View())
      ensures tokens == Run(flags, input).tokens == Tokens(flags, Lex(flags, input))
      ensures defined <==> Sheltered(flags, Entries(flags, Lex(flags, input)), LastNul(initial))
    {
      hide Refines, Invariant, ConfigMachine.Run, Lex, Tokens, Entries, Sheltered, Safe;
      RunInvariant(flags, input);
      RunRefines(flags, input);
      TrimsSafe(flags, input, LastNul(initial));
    }

    /** The buffer starts with whatever was in memory. */
    constructor (flags: Flags)
      ensures Valid() && this.flags == flags && input == "" && fresh(buffer)
      ensures initial == buffer[..] && buffer.Length == MAX_LINE_LENGTH
    {
      this.flags := flags;
      var b := new char[MAX_LINE_LENGTH];
      b[0], b[1] := '-', '-';
      buffer := b;
      initial := b[..];
      inEscape, inComment, inQuote, inKey, inValue, addedKey := false, false, 0, true, false, false;
      lastEscaped, tokenPos := 0, 0;
      tokens, tags := if flags.multi then [] else [Some("")], if flags.multi then [] else [DummyTag];
      trims, defined := [], true;
      input := "";
      new;
      ChartedFirst(initial);
      assert buffer[2..2] == "";
    }

    /** The C string at `start`. */
    method StringAt(start: nat) returns (text: string)
      requires start <= buffer.Length && NulFrom(buffer[..], start) < buffer.Length
      ensures text == buffer[..][start..NulFrom(buffer[..], start)]
    {
      hide NulFrom;
      var end := start;
      while buffer[end] != '\0'
        invariant start <= end <= NulFrom(buffer[..], start)
        decreases buffer.Length - end
      {
        assert buffer[..][end] == buffer[end];
        end := end + 1;
      }
      assert buffer[..][end] == buffer[end];
      text := buffer[start..end];
    }

    /** Overwrites the blanks that end the string at `from`, wherever in the buffer that is. When no NUL follows
        `from` in the buffer, C reads and may write behind it; the model then leaves the buffer alone. */
    method RemoveTrailingWhitespace(from: nat) returns (inside: bool)
      modifies buffer
      ensures inside <==> from <= buffer.Length && NulFrom(old(buffer[..]), from) < buffer.Length
      ensures buffer[..] == if inside then Overwritten(old(buffer[..]), from) else old(buffer[..])
    {
      hide Blanked;
      ghost var was := buffer[..];
      if from >= buffer.Length {
        return false;
      }
      var end := from;
      while end < buffer.Length && buffer[end] != '\0'
        invariant from <= end <= NulFrom(was, from)
      {
        assert was[end] == buffer[end];
        end := end + 1;
      }
      if end == buffer.Length {
        return false;
      }
      assert was[end] == buffer[end];
      var trimmed := end;
      while trimmed > from && Blank(buffer[trimmed - 1])
        invariant from <= trimmed <= end
        invariant TrimEnd(was, from, trimmed) == TrimEnd(was, from, end)
        invariant buffer[..] == Blanked(was, trimmed, end)
      {
        assert buffer[..][trimmed - 1] == was[trimmed - 1];
        trimmed := trimmed - 1;
        buffer[trimmed] := '\0';
      }
      assert trimmed > from ==> buffer[..][trimmed - 1] == was[trimmed - 1];
      return true;
    }

    /** `ADD_TOKEN`: trims at `start` and `last_escaped`, wherever that is, and appends the C string at `start`. */
    method AddToken(start: nat, ghost tag: Tag)
      requires Shaped() && start <= 2 && buffer[tokenPos + 2] == '\0'
      modifies this`tokens, this`tags, this`trims, this`defined, buffer
      ensures Shaped() && Rewindable()
      ensures tokens == old(tokens) + [Some(TrimFrom(CStr(old(buffer[start..tokenPos + 2])), lastEscaped))]
      ensures tags == old(tags) + [tag] && trims == old(trims) + [Trim(start + lastEscaped, 2 + tokenPos)]
    {
      hide TrimFrom, CStr, Charted;
      var text, inside := TrimmedAt(start);
      tokens, tags := tokens + [Some(text)], tags + [tag];
      trims, defined := trims + [Trim(start + lastEscaped, 2 + tokenPos)], defined && inside;
    }

    /** The next token may start. */
    ghost predicate Rewindable()
      reads this, buffer
    {
      Charted(buffer[..], LastNul(initial), trims, 2, defined)
    }

    /** Trims at `start` and `last_escaped`, and takes the C string at `start`. */
    method TrimmedAt(start: nat) returns (text: string, inside: bool)
      requires Shaped() && start <= 2 && buffer[tokenPos + 2] == '\0'
      modifies buffer
      ensures buffer[0] == '-' && buffer[1] == '-'
      ensures text == TrimFrom(CStr(old(buffer[start..tokenPos + 2])), lastEscaped)
      ensures var all := trims + [Trim(start + lastEscaped, 2 + tokenPos)];
              && Charted(buffer[..], LastNul(initial), all, 2 + tokenPos, defined && inside)
              && Charted(buffer[..], LastNul(initial), all, 2, defined && inside)
    {
      hide TrimFrom, CStr, NulFrom, Overwritten, Charted;
      ghost var was := buffer[..];
      assert was[start..tokenPos + 2] == buffer[start..tokenPos + 2];
      AddedString(was, start, lastEscaped, tokenPos + 2);
      ChartedTrim(was, LastNul(initial), trims, 2 + tokenPos, defined, start + lastEscaped);
      inside := RemoveTrailingWhitespace(start + lastEscaped);
      assert buffer[..][0] == '-' && buffer[..][1] == '-';
      text := StringAt(start);
    }

    method BeginKey()
      requires Shaped()
      modifies this`lastEscaped, this`tokens, this`tags, this`inKey, this`addedKey
      ensures Shaped() && View() == ConfigMachine.BeginKey(flags, old(View()))
    {
      hide Charted;
      lastEscaped := 0;
      if !inEscape && !inComment && inQuote == 0 {
        if addedKey && flags.multi {
          tokens, tags := tokens + [None], tags + [NullTag];
        }
        inKey := true;
        addedKey := false;
      }
    }

    /** Stores the terminator behind the token. */
    method Terminate()
      requires Shaped()
      modifies buffer
      ensures Shaped() && buffer[tokenPos + 2] == '\0' && buffer[2..tokenPos + 2] == old(buffer[2..tokenPos + 2])
    {
      hide Charted;
      ChartedStore(buffer[..], LastNul(initial), trims, 2 + tokenPos, defined, '\0');
      ghost var was := buffer[..];
      buffer[tokenPos + 2] := '\0';
      assert buffer[..] == was[tokenPos + 2 := '\0'];
      assert buffer[2..tokenPos + 2] == was[2..tokenPos + 2];
    }

    /** Terminates a key that is not empty and appends it behind its dashes. */
    method EmitKey()
      requires Shaped() && tokenPos != 0
      modifies this`tokens, this`tags, this`trims, this`defined, buffer
      ensures Shaped() && Rewindable()
      ensures var content := old(buffer[2..2 + tokenPos]);
              tokens == old(tokens) + [Some(TrimFrom(Prefix(flags, content) + CStr(content), lastEscaped))]
              && trims == old(trims) + [Trim(2 - |Prefix(flags, content)| + lastEscaped, 2 + tokenPos)]
      ensures var key := old(buffer[2..2 + tokenPos]);
              var dashes := if flags.blank then "" else if flags.x || |key| == 1 || key[1] == '\0' then "-" else "--";
              tokens == old(tokens) + [Some(TrimFrom(dashes + CStr(key), lastEscaped))]
      ensures tags == old(tags) + [KeyTag]
    {
      hide Charted, TrimFrom, CStr;
      ghost var content := buffer[2..2 + tokenPos];
      Terminate();
      var start := 0;
      if flags.blank {
        start := 2;
      } else if flags.x || buffer[3] == '\0' {
        start := 1;
      }
      ghost var dashes := Prefix(flags, content);
      assert dashes == buffer[start..2];
      assert buffer[start..tokenPos + 2] == dashes + content;
      CStrConcat(dashes, content);
      AddToken(start, KeyTag);
    }

    /** Ends a key. Without text it is none; else it goes behind no dashes with BLANK, behind one with X or when its
        second character is the terminator or a NUL, and else behind two. */
    method EndKey()
      requires Shaped()
      modifies this`tokens, this`tags, this`trims, this`defined, this`tokenPos, this`inKey, this`addedKey, buffer
      ensures Shaped() && View() == ConfigMachine.EndKey(flags, old(View()))
      ensures !inEscape && old(inKey) && inQuote == 0 && old(tokenPos) != 0 ==>
                var key := old(buffer[2..2 + tokenPos]);
                var dashes := if flags.blank then "" else if flags.x || |key| == 1 || key[1] == '\0' then "-" else "--";
                tokens == old(tokens) + [Some(TrimFrom(dashes + CStr(key), lastEscaped))]
    {
      hide Charted, TrimFrom, CStr, Prefix;
      if !inEscape && inKey && inQuote == 0 {
        if inKey && tokenPos != 0 {
          EmitKey();
          addedKey := true;
        }
        tokenPos := 0;
        inKey := false;
        assert buffer[2..2] == "";
      }
    }

    method BeginValue()
      requires Shaped()
      modifies this`lastEscaped, this`inValue
      ensures Shaped() && View() == ConfigMachine.BeginValue(old(View()))
    {
      hide Charted;
      lastEscaped := 0;
      if !inKey && !inComment && inQuote == 0 {
        inValue := true;
      }
    }

    /** Terminates a value and appends it. */
    method EmitValue()
      requires Shaped()
      modifies this`tokens, this`tags, this`trims, this`defined, buffer
      ensures Shaped() && Rewindable()
      ensures tokens == old(tokens) + [Some(TrimFrom(CStr(old(buffer[2..2 + tokenPos])), lastEscaped))]
      ensures tags == old(tags) + [ValueTag] && trims == old(trims) + [Trim(2 + lastEscaped, 2 + tokenPos)]
    {
      hide Charted, TrimFrom, CStr;
      Terminate();
      AddToken(2, ValueTag);
    }

    method EndValue()
      requires Shaped()
      modifies this`tokens, this`tags, this`trims, this`defined, this`tokenPos, this`inValue, buffer
      ensures Shaped() && View() == ConfigMachine.EndValue(old(View()))
    {
      hide Charted, TrimFrom, CStr;
      if !inEscape && inValue && inQuote == 0 {
        ghost var content := buffer[2..2 + tokenPos];
        assert "" + CStr(content) == CStr(content);
        EmitValue();
        tokenPos := 0;
        inValue := false;
        assert buffer[2..2] == "";
      }
    }

    method EndComment()
      requires Shaped()
      modifies this`inComment
      ensures Shaped() && View() == ConfigMachine.EndComment(old(View()))
    {
      hide Charted;
      if !inEscape {
        inComment := false;
      }
    }

    method BeginComment()
      requires Shaped()
      modifies this`inComment
      ensures Shaped() && View() == ConfigMachine.BeginComment(old(View()))
    {
      hide Charted;
      if !inEscape && inQuote == 0 {
        inComment := true;
      }
    }

    method EndEscape()
      requires Shaped()
      modifies this`inEscape, this`lastEscaped
      ensures Shaped() && View() == ConfigMachine.EndEscape(old(View()))
    {
      hide Charted;
      if inEscape {
        inEscape := false;
        lastEscaped := tokenPos + 1;
      }
    }

    /** The cases for the two quote characters. */
    method Quote(mine: nat, other: nat) returns (skip: bool)
      requires Shaped()
      modifies this`inEscape, this`lastEscaped, this`inValue, this`inQuote
      ensures Shaped() && (View(), skip) == OnQuote(old(View()), mine, other)
    {
      hide Charted;
      skip := false;
      BeginValue();
      if !inEscape && !inComment {
        if inQuote == mine {
          inQuote := 0;
          lastEscaped := tokenPos;
          skip := true;
        } else if inQuote != other {
          inQuote := mine;
          skip := true;
        }
      }
      EndEscape();
    }

    method Blanks()
      requires Shaped()
      modifies this, buffer
      ensures Shaped() && View() == OnBlank(flags, old(View())) && input == old(input)
    {
      hide Charted, TrimFrom, CStr, Prefix, ConfigMachine.EndKey, ConfigMachine.EndValue, ConfigMachine.BeginKey,
        ConfigMachine.BeginValue, ConfigMachine.EndEscape;
      if flags.multi {
        EndValue();
      }
      EndKey();
      if inEscape {
        BeginValue();
      }
      EndEscape();
    }

    method LineEnds()
      requires Shaped()
      modifies this, buffer
      ensures Shaped() && View() == OnLineEnd(flags, old(View())) && input == old(input)
    {
      hide Charted, TrimFrom, CStr, Prefix, ConfigMachine.EndKey, ConfigMachine.EndValue, ConfigMachine.BeginKey,
        ConfigMachine.BeginValue, ConfigMachine.EndEscape;
      EndKey();
      EndComment();
      EndValue();
      BeginKey();
      EndEscape();
    }

    method Backslash()
      requires Shaped()
      modifies this`inEscape, this`lastEscaped, this`inValue
      ensures Shaped() && View() == OnBackslash(old(View()))
    {
      hide Charted;
      if inEscape || inQuote == SINGLE_QUOTE {
        EndEscape();
      } else {
        inEscape := true;
      }
      BeginValue();
    }

    method Hash()
      requires Shaped()
      modifies this, buffer
      ensures Shaped() && View() == OnHash(flags, old(View())) && input == old(input)
    {
      hide Charted, TrimFrom, CStr, Prefix, ConfigMachine.EndKey, ConfigMachine.EndValue, ConfigMachine.BeginKey,
        ConfigMachine.BeginValue, ConfigMachine.EndEscape;
      BeginComment();
      EndKey();
      EndValue();
      BeginValue();
      EndEscape();
    }

    /** The switch; the result says whether the character is skipped. */
    method Dispatch(c: char) returns (skip: bool)
      requires Shaped()
      modifies this, buffer
      ensures Shaped() && (View(), skip) == Switch(flags, old(View()), c) && input == old(input)
    {
      hide Charted, OnBlank, OnLineEnd, OnBackslash, OnHash, OnQuote, ConfigMachine.BeginValue, ConfigMachine.EndEscape;
      skip := false;
      if c == ' ' || c == '\t' {
        Blanks();
      } else if c == '\n' || c == '\r' {
        LineEnds();
      } else if c == '\\' {
        Backslash();
      } else if c == '#' {
        Hash();
      } else if c == '"' {
        skip := Quote(DOUBLE_QUOTE, SINGLE_QUOTE);
      } else if c == '\'' {
        skip := Quote(SINGLE_QUOTE, DOUBLE_QUOTE);
      } else {
        BeginValue();
        EndEscape();
      }
    }

    method Store(c: char)
      requires Shaped() && tokenPos < LIMIT
      modifies this`tokenPos, buffer
      ensures Shaped() && View() == old(View()).(content := old(View()).content + [c])
    {
      hide Charted;
      ChartedStore(buffer[..], LastNul(initial), trims, 2 + tokenPos, defined, c);
      ghost var was, content := buffer[..], buffer[2..2 + tokenPos];
      buffer[tokenPos + 2] := c;
      assert buffer[..] == was[tokenPos + 2 := c];
      tokenPos := tokenPos + 1;
      assert buffer[2..2 + tokenPos] == content + [c];
    }

    /** One turn of the byte loop: the switch, then the store unless the character is skipped. */
    method Turn(c: char)
      requires Shaped()
      modifies this, buffer
      ensures Shaped() && View() == Step(flags, old(View()), c) && input == old(input)
    {
      hide Charted, Switch;
      var skip := Dispatch(c);
      if (inKey || inValue) && c != '\n' && c != '\r' && !inEscape && !skip && tokenPos < LIMIT {
        Store(c);
      }
    }

    method Feed(c: char)
      requires Valid()
      modifies this, buffer
      ensures Valid() && input == old(input) + [c]
      ensures View() == Step(flags, old(View()), c)
    {
      hide Step, ConfigMachine.Run;
      StepPush(flags, input, c);
      Turn(c);
      input := input + [c];
    }
  }

  /** `vanessa_config_file_read_fd` on a file that read() delivers in the given chunks: the array depends on
      the bytes alone, not on where the chunks divide them, and is the lexer's. No trim leaves the buffer if and only if
      every token that overruns comes after a strictly longer one, or the buffer held a NUL behind it at first. */
  method ReadFile(flags: Flags, chunks: seq<string>)
    returns (a: seq<Option<string>>, ghost initial: string, ghost defined: bool)
    requires forall i :: 0 <= i < |chunks| ==> 0 < |chunks[i]| <= MAX_LINE_LENGTH
    ensures a == Run(flags, Concat(chunks)).tokens
    ensures a == Tokens(flags, Lex(flags, Concat(chunks)))
    ensures |initial| == MAX_LINE_LENGTH
    ensures defined <==> Sheltered(flags, Entries(flags, Lex(flags, Concat(chunks))), LastNul(initial))
  {
    hide Lex, Tokens, ConfigMachine.Run, Concat, Reader.Valid, Reader.View, Step, Refines, Entries, Sheltered, LastNul;
    var reader := new Reader(flags);
    initial := reader.initial;
    assert Concat(chunks[..0]) == "" by {
      EmptyConcat();
    }
    for k := 0 to |chunks|
      invariant reader.Valid() && reader.flags == flags && fresh(reader) && fresh(reader.buffer)
      invariant reader.input == Concat(chunks[..k])
    {
      var chunk := chunks[k];
      ConcatPush(chunks, k);
      assert reader.input == Concat(chunks[..k]) + chunk[..0];
      for readPos := 0 to |chunk|
        invariant reader.Valid() && reader.flags == flags && fresh(reader) && fresh(reader.buffer)
        invariant reader.input == Concat(chunks[..k]) + chunk[..readPos]
      {
        reader.Feed(chunk[readPos]);
        assert chunk[..readPos + 1] == chunk[..readPos] + [chunk[readPos]];
      }
      assert chunk[..|chunk|] == chunk;
    }
    assert chunks[..|chunks|] == chunks;
    reader.BetweenBytes();
    a, defined := reader.tokens, reader.defined;
  }
}
