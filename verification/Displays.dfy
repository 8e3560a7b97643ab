/** Displaying elements into a buffer sized by a length callback that need not agree with the display callback. */
module Displays {
  import opened Options
  import opened Text

  function Somes<T>(xs: seq<T>): (r: seq<Option<T>>)
    ensures |r| == |xs|
    ensures forall i {:trigger r[i]} :: 0 <= i < |r| ==> r[i] == Some(xs[i])
  {
    seq(|xs|, i requires 0 <= i < |xs| => Some(xs[i]))
  }

  /** What the callbacks for strings write, and how long they say it is. */
  function Itself(s: string): string {
    s
  }

  function StrLen(s: string): nat {
    |s|
  }

  function Sum(ns: seq<nat>): nat {
    if ns == [] then 0 else ns[0] + Sum(ns[1..])
  }

  /** What the length callback says of each element; a NULL element has no length. */
  function Lengths<T>(elements: seq<Option<T>>, length: T -> nat): (r: seq<nat>)
    ensures |r| == |elements|
    ensures forall i :: 0 <= i < |r| ==> r[i] == if elements[i].Some? then length(elements[i].value) else 0
  {
    seq(|elements|, i requires 0 <= i < |elements| => if elements[i].Some? then length(elements[i].value) else 0)
  }

  /** What the display callback writes for each element; nothing for a NULL element. */
  function Shown<T>(elements: seq<Option<T>>, show: T -> string): (r: seq<string>)
    ensures |r| == |elements|
    ensures forall i :: 0 <= i < |r| ==> r[i] == if elements[i].Some? then show(elements[i].value) else ""
  {
    seq(|elements|, i requires 0 <= i < |elements| => if elements[i].Some? then show(elements[i].value) else "")
  }

  function Clip(text: string, len: nat): (r: string)
    ensures r <= text && (len <= |text| ==> |r| == len)
  {
    if len <= |text| then text[..len] else text
  }

  /** The texts as far as the lengths go. */
  function Clipped(lengths: seq<nat>, texts: seq<string>): (r: seq<string>)
    requires |lengths| == |texts|
    ensures |r| == |texts|
    ensures forall i :: 0 <= i < |r| ==> r[i] == Clip(texts[i], lengths[i])
  {
    seq(|texts|, i requires 0 <= i < |texts| => Clip(texts[i], lengths[i]))
  }

  /** No length is greater than its text. */
  ghost predicate Covered(lengths: seq<nat>, texts: seq<string>) {
    |lengths| == |texts| && forall i :: 0 <= i < |texts| ==> lengths[i] <= |texts[i]|
  }

  /** What writing a text leaves in the characters it is given: as much of it as goes in, or all of it, its terminator
      and whatever was there. */
  ghost predicate Leaves(segment: string, text: string, len: nat) {
    |segment| == len && if len <= |text| then segment == text[..len] else segment[..|text| + 1] == text + ['\0']
  }

  ghost predicate Left(segments: seq<string>, lengths: seq<nat>, texts: seq<string>) {
    && |segments| <= |texts| == |lengths|
    && forall i :: 0 <= i < |segments| ==> Leaves(segments[i], texts[i], lengths[i])
  }

  /** With no length greater than its text, that is the texts as far as the lengths go. */
  lemma LeftIsClipped(segments: seq<string>, lengths: seq<nat>, texts: seq<string>)
    requires Left(segments, lengths, texts) && |segments| == |texts| && Covered(lengths, texts)
    ensures segments == Clipped(lengths, texts)
  {
    forall i | 0 <= i < |texts| ensures segments[i] == Clip(texts[i], lengths[i]) {
      assert Leaves(segments[i], texts[i], lengths[i]);
    }
  }

  /** The first k texts, where they are written, lie with their terminators within `size` characters. */
  ghost predicate FitsUpTo(lengths: seq<nat>, texts: seq<string>, size: int, k: nat) {
    && k <= |texts| == |lengths|
    && forall i :: 0 <= i < k && lengths[i] > 0 ==> Sum(lengths[..i]) + i + |texts[i]| < size
  }

  ghost predicate Fits(lengths: seq<nat>, texts: seq<string>, size: int) {
    FitsUpTo(lengths, texts, size, |texts|)
  }

  lemma FitsNone(lengths: seq<nat>, texts: seq<string>, size: int)
    requires |lengths| == |texts|
    ensures FitsUpTo(lengths, texts, size, 0)
  {
  }

  lemma FitsStep(lengths: seq<nat>, texts: seq<string>, size: int, k: nat)
    requires FitsUpTo(lengths, texts, size, k) && k < |texts|
    ensures |lengths| == |texts|
    ensures FitsUpTo(lengths, texts, size, k + 1)
            <==> (lengths[k] > 0 ==> Sum(lengths[..k]) + k + |texts[k]| < size)
    ensures !FitsUpTo(lengths, texts, size, k + 1) ==> !Fits(lengths, texts, size)
  {
    hide Sum;
  }

  /** One more summand. */
  lemma {:induction false} SumStep(ns: seq<nat>, i: nat)
    requires i < |ns|
    ensures Sum(ns[..i + 1]) == Sum(ns[..i]) + ns[i] <= Sum(ns)
  {
    assert ns[..i + 1][0] == ns[0] && ns[..i + 1][1..] == ns[1..][..i];
    if i > 0 {
      assert ns[..i][1..] == ns[1..][..i - 1];
      SumStep(ns[1..], i - 1);
    }
  }

  lemma {:induction false} TotalIsSum(texts: seq<string>, lengths: seq<nat>)
    requires |lengths| == |texts| && forall i :: 0 <= i < |texts| ==> lengths[i] == |texts[i]|
    ensures TotalLength(texts) == Sum(lengths)
  {
    if texts != [] {
      TotalIsSum(texts[1..], lengths[1..]);
    }
  }

  /** When every length is that of its text, nothing is clipped, and everything fits where there is room for the
      texts and a delimiter each. */
  lemma ExactFits(lengths: seq<nat>, texts: seq<string>, size: int)
    requires |lengths| == |texts| && forall i :: 0 <= i < |texts| ==> lengths[i] == |texts[i]|
    requires size >= Sum(lengths) + |texts|
    ensures Fits(lengths, texts, size) && Covered(lengths, texts) && Clipped(lengths, texts) == texts
  {
    forall i | 0 <= i < |texts| && lengths[i] > 0 ensures Sum(lengths[..i]) + i + |texts[i]| < size {
      SumStep(lengths, i);
    }
    assert forall i :: 0 <= i < |texts| ==> texts[i][..|texts[i]|] == texts[i];
  }

  /** What a display has written: what each text left, and a delimiter behind it. */
  ghost predicate Written(text: string, segments: seq<string>, lengths: seq<nat>, texts: seq<string>, d: char) {
    && Left(segments, lengths, texts)
    && text == Terminated(segments, d) && |text| == Sum(lengths[..|segments|]) + |segments|
  }

  lemma WrittenNone(lengths: seq<nat>, texts: seq<string>, d: char)
    requires |lengths| == |texts|
    ensures Written("", [], lengths, texts, d)
  {
    assert lengths[..0] == [];
  }

  /** There is room for the next text as far as its length goes, and a delimiter. */
  lemma RoomForNext(text: string, segments: seq<string>, lengths: seq<nat>, texts: seq<string>, d: char)
    requires Written(text, segments, lengths, texts, d) && |segments| < |texts|
    ensures |text| == Sum(lengths[..|segments|]) + |segments|
    ensures |text| + lengths[|segments|] < Sum(lengths) + |texts|
  {
    hide Terminated, Sum, Leaves;
    SumStep(lengths, |segments|);
  }

  /** One element further. */
  lemma WrittenStep(text: string, segments: seq<string>, lengths: seq<nat>, texts: seq<string>, d: char, next: string)
    requires Written(text, segments, lengths, texts, d) && |segments| < |texts|
    requires Leaves(next, texts[|segments|], lengths[|segments|])
    ensures Written(text + next + [d], segments + [next], lengths, texts, d)
  {
    hide Terminated, Sum, Leaves;
    SumStep(lengths, |segments|);
    TerminatedPush(segments, next, d);
    LeftPush(segments, lengths, texts, next);
    hide Left;
    LeavesLength(next, texts[|segments|], lengths[|segments|]);
    assert |text + next + [d]| == |text| + |next| + 1;
  }

  lemma LeavesLength(segment: string, text: string, len: nat)
    requires Leaves(segment, text, len)
    ensures |segment| == len
  {
  }

  lemma LeftPush(segments: seq<string>, lengths: seq<nat>, texts: seq<string>, next: string)
    requires Left(segments, lengths, texts) && |segments| < |texts|
    requires Leaves(next, texts[|segments|], lengths[|segments|])
    ensures Left(segments + [next], lengths, texts)
  {
    hide Leaves;
  }

  /** In the end: all that was left, joined, and one more delimiter. */
  lemma WrittenAll(text: string, segments: seq<string>, lengths: seq<nat>, texts: seq<string>, d: char)
    requires Written(text, segments, lengths, texts, d) && |segments| == |texts| > 0
    ensures |lengths| == |texts| && Left(segments, lengths, texts)
    ensures text == Join(segments, d) + [d] && |text| == Sum(lengths) + |texts|
  {
    hide Sum, Leaves, Join, Terminated;
    assert lengths[..|texts|] == lengths;
    TerminatedIsJoin(segments, d);
  }

  /** The joined texts are as long as the lengths and a delimiter between each two. */
  lemma ClippedLength(lengths: seq<nat>, texts: seq<string>, d: char)
    requires Covered(lengths, texts) && texts != []
    ensures |Join(Clipped(lengths, texts), d)| == Sum(lengths) + |texts| - 1
  {
    var clipped := Clipped(lengths, texts);
    TotalIsSum(clipped, lengths);
    JoinLength(clipped, d);
  }

  /** strcpy, or sprintf of a string: the text and its terminator. */
  method WriteString(buffer: array<char>, pos: nat, text: string)
    requires pos + |text| < buffer.Length
    modifies buffer
    ensures buffer[..pos + |text|] == old(buffer[..pos]) + text
    ensures buffer[pos + |text|] == '\0'
  {
    forall i | 0 <= i < |text| {
      buffer[pos + i] := text[i];
    }
    buffer[pos + |text|] := '\0';
  }

  /** One element of a display: its text when it has a length, then the delimiter behind that length. */
  method WriteElement(buffer: array<char>, pos: nat, text: string, len: nat, delimiter: char)
    returns (next: nat, ghost segment: string)
    requires pos + len < buffer.Length && (len > 0 ==> pos + |text| < buffer.Length)
    modifies buffer
    ensures next == pos + len + 1 <= buffer.Length && Leaves(segment, text, len)
    ensures buffer[..next] == old(buffer[..pos]) + segment + [delimiter]
  {
    next := pos;
    if len != 0 {
      WriteString(buffer, next, text);
      LeftInBuffer(buffer[..], old(buffer[..pos]), text, len);
      next := next + len;
    }
    segment := buffer[pos..next];
    assert buffer[..next] == old(buffer[..pos]) + segment;
    buffer[next] := delimiter;
    next := next + 1;
  }

  /** One turn of a display's loop; false when the text does not fit the buffer. */
  method WriteNext(buffer: array<char>, pos: nat, text: string, len: nat, delimiter: char,
                   ghost segments: seq<string>, ghost lengths: seq<nat>, ghost texts: seq<string>)
    returns (next: nat, inBounds: bool, ghost all: seq<string>)
    requires pos <= buffer.Length && Written(buffer[..pos], segments, lengths, texts, delimiter)
    requires |segments| < |texts| && |lengths| == |texts| && text == texts[|segments|] && len == lengths[|segments|]
    requires buffer.Length >= Sum(lengths) + |texts| && FitsUpTo(lengths, texts, buffer.Length, |segments|)
    modifies buffer
    ensures !inBounds ==> !Fits(lengths, texts, buffer.Length)
    ensures inBounds ==>
              && next <= buffer.Length && Written(buffer[..next], all, lengths, texts, delimiter)
              && |all| == |segments| + 1 && FitsUpTo(lengths, texts, buffer.Length, |all|)
  {
    hide Sum, Written, Fits, FitsUpTo, Leaves;
    FitsStep(lengths, texts, buffer.Length, |segments|);
    RoomForNext(buffer[..pos], segments, lengths, texts, delimiter);
    if len > 0 && pos + |text| >= buffer.Length {
      return pos, false, segments;
    }
    ghost var was := buffer[..pos];
    ghost var segment;
    next, segment := WriteElement(buffer, pos, text, len, delimiter);
    WrittenStep(was, segments, lengths, texts, delimiter, segment);
    inBounds, all := true, segments + [segment];
  }

  lemma LeftInBuffer(now: string, before: string, text: string, len: nat)
    requires |before| + len < |now| && |before| + |text| < |now|
    requires now[..|before| + |text|] == before + text && now[|before| + |text|] == '\0'
    ensures now[..|before|] == before && Leaves(now[|before|..|before| + len], text, len)
  {
    var k, n := |before|, |before| + |text|;
    Slices(now, 0, k, n);
    Slices(now, 0, k, k);
    assert now[0..n] == before + text;
    if len <= |text| {
      Slices(now, k, k + len, n);
    } else {
      Slices(now, k, n + 1, k + len);
      assert now[k..n + 1] == now[k..n] + [now[n]];
    }
  }

  lemma Slices(s: string, a: nat, b: nat, c: nat)
    requires a <= b <= c <= |s|
    ensures s[a..c][..b - a] == s[a..b] && s[a..c][b - a..] == s[b..c] && s[..c] == s[0..c]
  {
  }
}
