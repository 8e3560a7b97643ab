/** The block-wise growing array, and the string and int operations built on it. */
module DynamicArrays {
  import opened Options
  import opened Sorting
  import opened Text
  import opened Displays
  import ElementOps
  import Modulo

  const DEFAULT_BLOCK_SIZE := 7
  const SSIZE_MAX := 0x7fff_ffff_ffff_ffff

  ghost predicate IsMultiple(a: nat, b: nat)
    requires b > 0
  {
    a % b == 0
  }

  /** a is the least multiple of b that is at least n. */
  ghost predicate LeastMultiple(a: nat, b: nat, n: nat)
    requires b > 0
  {
    && IsMultiple(a, b) && n <= a
    && forall m: nat :: IsMultiple(m, b) && n <= m ==> a <= m
  }

  lemma LessThanABlock(a: nat, b: nat, n: nat)
    requires b > 0 && IsMultiple(a, b) && n <= a < n + b
    ensures LeastMultiple(a, b, n)
  {
    forall m: nat | IsMultiple(m, b) && n <= m ensures a <= m {
      if m < a {
        Modulo.CongruentApart(m, a, b);
      }
    }
  }

  lemma NextBlock(a: nat, b: nat)
    requires b > 0 && IsMultiple(a, b)
    ensures IsMultiple(a + b, b)
  {
    Modulo.ShiftMod(a, b);
  }

  lemma PreviousBlock(a: nat, b: nat)
    requires b > 0 && IsMultiple(a, b) && a >= b
    ensures IsMultiple(a - b, b)
  {
    Modulo.ShiftMod(a - b, b);
  }

  lemma AtLeastABlock(a: nat, b: nat)
    requires b > 0 && IsMultiple(a, b) && a > 0
    ensures a >= b
  {
    if a < b {
      Modulo.CongruentApart(0, a, b);
    }
  }

  class DynamicArray<T> {
    var vector: array<Option<T>>
    var count: nat
    var allocatedSize: nat
    const blockSize: nat

    /** Storage is whole blocks, with less than one block to spare; an empty array may keep its last block. */
    ghost predicate Valid()
      reads this, vector
    {
      && blockSize > 0 && vector.Length == allocatedSize && IsMultiple(allocatedSize, blockSize)
      && count <= allocatedSize && count <= SSIZE_MAX
      && (allocatedSize < count + blockSize || (count == 0 && allocatedSize == blockSize))
    }

    ghost function Contents(): (s: seq<Option<T>>)
      requires Valid()
      reads this, vector
      ensures |s| == count
    {
      vector[..count]
    }

    /** Capacity is the least multiple of the block size holding the elements; 0 or one block when empty. */
    lemma CapacityIsLeast()
      requires Valid()
      ensures count > 0 ==> LeastMultiple(allocatedSize, blockSize, count)
      ensures count == 0 ==> allocatedSize == 0 || allocatedSize == blockSize
    {
      if count > 0 {
        LessThanABlock(allocatedSize, blockSize, count);
      } else if allocatedSize > 0 {
        AtLeastABlock(allocatedSize, blockSize);
      }
    }

    constructor (blockSize: nat)
      ensures Valid() && Contents() == [] && fresh(vector)
      ensures count == allocatedSize == 0 && this.blockSize == if blockSize == 0 then 7 else blockSize
    {
      this.blockSize := if blockSize == 0 then DEFAULT_BLOCK_SIZE else blockSize;
      vector := new Option<T>[0];
      count, allocatedSize := 0, 0;
    }

    /** realloc: a new vector with as many of the old elements as fit. */
    method Resize(size: nat)
      modifies this`vector, this`allocatedSize
      ensures fresh(vector) && vector.Length == allocatedSize == size
      ensures forall i :: 0 <= i < size && i < old(vector.Length) ==> vector[i] == old(vector[i])
    {
      var was := vector;
      vector := new Option<T>[size](_ => None);
      allocatedSize := size;
      var i := 0;
      while i < size && i < was.Length
        invariant 0 <= i <= size && i <= was.Length && fresh(vector) && vector.Length == allocatedSize == size
        invariant forall j :: 0 <= j < i ==> vector[j] == old(was[j])
        invariant forall j :: 0 <= j < was.Length ==> was[j] == old(was[j])
      {
        vector[i] := was[i];
        i := i + 1;
      }
    }

    /** Appends; refuses only when the count could no longer be reported. */
    method Add(e: Option<T>) returns (ok: bool)
      requires Valid()
      modifies this, vector
      ensures Valid() && (vector == old(vector) || fresh(vector))
      ensures ok == (old(count) < SSIZE_MAX)
      ensures Contents() == old(Contents()) + if ok then [e] else []
    {
      if count >= SSIZE_MAX {
        return false;
      }
      if count == allocatedSize {
        NextBlock(allocatedSize, blockSize);
        Resize(allocatedSize + blockSize);
      }
      vector[count] := e;
      count := count + 1;
      return true;
    }

    method ShuffleUp(index: nat)
      requires index < count <= vector.Length
      modifies vector
      ensures forall j :: 0 <= j < index ==> vector[j] == old(vector[j])
      ensures forall j :: index <= j < count - 1 ==> vector[j] == old(vector[j + 1])
    {
      var i := index + 1;
      while i < count
        invariant index < i <= count
        invariant forall j :: 0 <= j < index ==> vector[j] == old(vector[j])
        invariant forall j :: index <= j < i - 1 ==> vector[j] == old(vector[j + 1])
        invariant forall j :: i - 1 <= j < count ==> vector[j] == old(vector[j])
      {
        vector[i - 1] := vector[i];
        i := i + 1;
      }
    }

    /** Removes the element at index, shuffling later ones up, and gives back a block when one is spare, but never the
        last one. */
    method Delete(index: nat)
      requires Valid() && index < count
      modifies this, vector
      ensures Valid() && (vector == old(vector) || fresh(vector))
      ensures Contents() == old(Contents())[..index] + old(Contents())[index + 1..]
      ensures count == 0 ==> allocatedSize == blockSize
    {
      hide IsMultiple;
      ShuffleUp(index);
      count := count - 1;
      assert vector[..count] == old(Contents())[..index] + old(Contents())[index + 1..];
      AtLeastABlock(allocatedSize, blockSize);
      if count != 0 && count <= allocatedSize - blockSize {
        PreviousBlock(allocatedSize, blockSize);
        Resize(allocatedSize - blockSize);
      }
    }

    /** Swaps from both ends. */
    method ReverseInPlace()
      requires Valid()
      modifies vector
      ensures Valid() && Contents() == Reverse(old(Contents()))
    {
      hide IsMultiple, Reverse;
      ghost var was, reversed := Contents(), Reverse(Contents());
      ReverseAt(was);
      if count == 0 {
        return;
      }
      var begin, end := 0, count - 1;
      while begin < end
        invariant 0 <= begin <= end + 1 <= count && begin + end == count - 1
        invariant forall j :: 0 <= j < begin || end < j < count ==> vector[j] == reversed[j]
        invariant forall j :: begin <= j <= end ==> vector[j] == was[j]
        decreases end - begin
      {
        assert reversed[begin] == was[end] && reversed[end] == was[begin];
        var tmp := vector[begin];
        vector[begin] := vector[end];
        vector[end] := tmp;
        begin, end := begin + 1, end - 1;
      }
      assert begin == end ==> reversed[begin] == was[begin];
    }

    method Duplicate() returns (copy: DynamicArray<T>)
      requires Valid()
      ensures copy.Valid() && fresh(copy) && fresh(copy.vector)
      ensures copy.blockSize == blockSize && copy.Contents() == Contents()
      ensures count == 0 ==> copy.allocatedSize == 0
    {
      copy := new DynamicArray(blockSize);
      var i := 0;
      while i < count
        invariant 0 <= i <= count && copy.Valid() && fresh(copy) && fresh(copy.vector) && copy.blockSize == blockSize
        invariant copy.Contents() == Contents()[..i] && (i == 0 ==> copy.allocatedSize == 0)
      {
        var ok := copy.Add(vector[i]);
        i := i + 1;
      }
    }

    /** The computed length: the elements' lengths and a delimiter each, counting the delimiters between twice. */
    method Length(length: T -> nat) returns (len: nat)
      requires Valid()
      ensures len == if count == 0 then 0 else Sum(Lengths(Contents(), length)) + 2 * (count - 1)
    {
      if count == 0 {
        return 0;
      }
      ghost var lengths := Lengths(Contents(), length);
      len := count - 1;
      var i := 0;
      while i < count
        invariant 0 <= i <= count
        invariant len == count - 1 + Sum(lengths[..i]) + i
      {
        SumStep(lengths, i);
        if vector[i].Some? {
          len := len + length(vector[i].value);
        }
        len := len + 1;
        i := i + 1;
      }
      assert lengths[..i] == lengths;
      len := len - 1;
    }

    /** The display's loop: each text that has a length, then the delimiter behind that length. Stops where a text does
        not fit the buffer. */
    method WriteElements(buffer: array<char>, show: T -> string, length: T -> nat, delimiter: char)
      returns (end: nat, inBounds: bool, ghost segments: seq<string>)
      requires Valid() && buffer.Length >= Sum(Lengths(Contents(), length)) + count
      modifies buffer
      ensures inBounds <==> Fits(Lengths(Contents(), length), Shown(Contents(), show), buffer.Length)
      ensures inBounds ==> end <= buffer.Length && |segments| == count
      ensures inBounds ==>
                Written(buffer[..end], segments, Lengths(Contents(), length), Shown(Contents(), show), delimiter)
    {
      hide IsMultiple, Sum, FitsUpTo, Written;
      ghost var lengths, texts := Lengths(Contents(), length), Shown(Contents(), show);
      WrittenNone(lengths, texts, delimiter);
      FitsNone(lengths, texts, buffer.Length);
      end, segments := 0, [];
      assert buffer[..0] == "";
      for i := 0 to count
        invariant end <= buffer.Length && |segments| == i
        invariant Written(buffer[..end], segments, lengths, texts, delimiter)
        invariant FitsUpTo(lengths, texts, buffer.Length, i)
      {
        var text, len := "", 0;
        if vector[i].Some? {
          text, len := show(vector[i].value), length(vector[i].value);
        }
        end, inBounds, segments := WriteNext(buffer, end, text, len, delimiter, segments, lengths, texts);
        if !inBounds {
          return;
        }
      }
      inBounds := true;
    }

    /** Writes the texts into a buffer sized by Length; `inBounds` says whether every text fits there, where C would
        otherwise overrun it. Then the buffer holds what each text left, joined by the delimiter, and a terminator. None
        for an empty array. */
    method Display(show: T -> string, length: T -> nat, delimiter: char)
      returns (buffer: array?<char>, n: nat, inBounds: bool, ghost segments: seq<string>)
      requires Valid()
      ensures buffer == null <==> count == 0
      ensures var lengths := Lengths(Contents(), length);
              inBounds <==> Fits(lengths, Shown(Contents(), show), Sum(lengths) + 2 * count - 1)
      ensures buffer != null ==> fresh(buffer)
      ensures buffer != null && inBounds ==>
                && n < buffer.Length && buffer[n] == '\0' && buffer.Length == n + count
                && Left(segments, Lengths(Contents(), length), Shown(Contents(), show)) && |segments| == count
                && buffer[..n] == Join(segments, delimiter)
    {
      hide IsMultiple, Written, Sum, Join, FitsUpTo;
      ghost var lengths, texts := Lengths(Contents(), length), Shown(Contents(), show);
      if count == 0 {
        FitsNone(lengths, texts, Sum(lengths) - 1);
        return null, 0, true, [];
      }
      var len := Length(length);
      var b := new char[len + 1];
      var end;
      end, inBounds, segments := WriteElements(b, show, length, delimiter);
      n := 0;
      if inBounds {
        WrittenAll(b[..end], segments, lengths, texts, delimiter);
        n := end - 1;
        assert b[..n] == b[..end][..n];
        b[n] := '\0';
      }
      buffer := b;
    }
  }

  /** With a length callback that agrees with the display callback everything fits and nothing is clipped. */
  lemma ExactDisplay<T>(elements: seq<Option<T>>, show: T -> string, length: T -> nat)
    requires elements != []
    requires forall i :: 0 <= i < |elements| && elements[i].Some? ==>
               length(elements[i].value) == |show(elements[i].value)|
    ensures var lengths, texts := Lengths(elements, length), Shown(elements, show);
            && Fits(lengths, texts, Sum(lengths) + 2 * |elements| - 1)
            && Clipped(lengths, texts) == texts
  {
    var lengths, texts := Lengths(elements, length), Shown(elements, show);
    ExactFits(lengths, texts, Sum(lengths) + 2 * |elements| - 1);
  }

  /** Then the length of the display is the computed length less the delimiters counted twice. */
  lemma DisplayLength<T>(elements: seq<Option<T>>, show: T -> string, length: T -> nat, d: char)
    requires elements != []
    requires forall i :: 0 <= i < |elements| && elements[i].Some? ==>
               length(elements[i].value) == |show(elements[i].value)|
    ensures |Join(Shown(elements, show), d)| + |elements| - 1
            == Sum(Lengths(elements, length)) + 2 * (|elements| - 1)
  {
    ExactDisplay(elements, show, length);
    ClippedLength(Lengths(elements, length), Shown(elements, show), d);
  }

  // Splitting

  /** strchr: the first d at or after `from` in the string that ends at n, n when there is none. */
  method StrChr(s: array<char>, from: nat, d: char, ghost n: nat) returns (at: nat)
    requires from <= n < s.Length && s[n] == '\0' && d != '\0'
    requires forall j :: from <= j < n ==> s[j] != '\0'
    ensures from <= at <= n
    ensures at == from + IndexOfChar(s[from..n], d)
  {
    at := from;
    while s[at] != d && s[at] != '\0'
      invariant from <= at <= n
      invariant forall j :: from <= j < at ==> s[j] != d
      decreases n - at
    {
      at := at + 1;
    }
    IndexOfCharUnique(s[from..n], d, at - from);
  }

  lemma IndexOfCharUnique(s: string, d: char, i: nat)
    requires i <= |s| && (i < |s| ==> s[i] == d) && forall j :: 0 <= j < i ==> s[j] != d
    ensures IndexOfChar(s, d) == i
  {
    var k := IndexOfChar(s, d);
    assert !(k < i) && !(i < k);
  }

  function Cut(s: string, d: char): (r: string)
    ensures |r| == |s|
    ensures forall i :: 0 <= i < |s| ==> r[i] == if s[i] == d then '\0' else s[i]
  {
    seq(|s|, i requires 0 <= i < |s| => if s[i] == d then '\0' else s[i])
  }

  lemma SomesUnique<T>(xs: seq<T>, ys: seq<T>)
    ensures Somes(xs) == Somes(ys) <==> xs == ys
  {
    if Somes(xs) == Somes(ys) {
      forall i | 0 <= i < |xs| ensures xs[i] == ys[i] {
        assert Somes(xs)[i] == Somes(ys)[i];
      }
    }
  }

  lemma SomesMember<T>(xs: seq<T>, x: T)
    ensures Some(x) in Somes(xs) <==> x in xs
  {
    if x in xs {
      var i :| 0 <= i < |xs| && xs[i] == x;
      assert Somes(xs)[i] == Some(x);
    }
  }

  lemma SomesPush<T>(xs: seq<T>, x: T)
    ensures Somes(xs + [x]) == Somes(xs) + [Some(x)]
  {
  }

  /** The first d at or after `start` in the text is at `sub`, the end when there is none. */
  ghost predicate NextAt(text: string, d: char, start: nat, sub: nat) {
    start <= sub <= |text| && sub == start + IndexOfChar(text[start..], d)
  }

  /** The fields before `start` are done. */
  ghost predicate SplitUpTo(text: string, d: char, done: seq<string>, start: nat) {
    start <= |text| && Split(text, d) == done + Split(text[start..], d)
  }

  lemma SplitStarts(text: string, d: char)
    ensures SplitUpTo(text, d, [], 0)
  {
    assert text[0..] == text;
  }

  lemma SplitProgress(text: string, d: char, done: seq<string>, start: nat, sub: nat)
    requires NextAt(text, d, start, sub) && sub < |text|
    requires SplitUpTo(text, d, done, start)
    ensures start <= sub && SplitUpTo(text, d, done + [text[start..sub]], sub + 1)
  {
    hide IndexOfChar, Split;
    SplitStep(text[start..], d, sub - start);
    TailSlices(text, start, sub);
    AppendFirst(done, text[start..sub], Split(text[sub + 1..], d));
  }

  lemma TailSlices(text: string, start: nat, sub: nat)
    requires start <= sub < |text|
    ensures text[start..][..sub - start] == text[start..sub] && text[start..][sub - start + 1..] == text[sub + 1..]
  {
  }

  lemma AppendFirst<T>(a: seq<T>, x: T, b: seq<T>)
    ensures a + ([x] + b) == (a + [x]) + b
  {
  }

  lemma SplitEnd(text: string, d: char, done: seq<string>, start: nat)
    requires NextAt(text, d, start, |text|) && SplitUpTo(text, d, done, start)
    ensures start <= |text|
    ensures Split(text, d) == if start == |text| then done else done + [text[start..]]
  {
  }

  /** The buffer holds the C string `text`, its delimiters overwritten up to `start`. */
  ghost predicate CutUpTo(s: array<char>, text: string, d: char, start: nat)
    reads s
  {
    && start <= |text| < s.Length && s[|text|] == '\0' && '\0' !in text && d != '\0'
    && s[..start] == Cut(text, d)[..start]
    && (forall j :: start <= j < |text| ==> s[j] == text[j])
  }

  method FindDelimiter(s: array<char>, ghost text: string, d: char, start: nat) returns (sub: nat)
    requires CutUpTo(s, text, d, start)
    ensures start <= sub <= |text| && NextAt(text, d, start, sub)
    ensures sub < s.Length && (s[sub] == d <==> sub < |text|)
  {
    assert s[start..|text|] == text[start..];
    sub := StrChr(s, start, d, |text|);
  }

  /** Terminates the field from `start` to the delimiter at `sub`. */
  method TakeField(s: array<char>, ghost text: string, d: char, start: nat, sub: nat) returns (field: string)
    requires CutUpTo(s, text, d, start)
    requires NextAt(text, d, start, sub) && start <= sub < |text|
    modifies s
    ensures CutUpTo(s, text, d, sub + 1) && field == text[start..sub]
  {
    hide IndexOfChar;
    CutStep(text, d, start, sub);
    assert s[start..sub] == text[start..sub];
    ghost var before := s[..start];
    s[sub] := '\0';
    field := s[start..sub];
    assert s[..sub + 1] == before + field + ['\0'];
  }

  /** What is left after the last delimiter; empty when the string ended with one. */
  method TakeRest(s: array<char>, ghost text: string, d: char, start: nat) returns (field: string)
    requires CutUpTo(s, text, d, start) && NextAt(text, d, start, |text|) && start <= |text|
    ensures field == text[start..] && |text| < s.Length && s[..|text|] == Cut(text, d)
    ensures start < s.Length && (s[start] == '\0' <==> start == |text|)
  {
    hide IndexOfChar;
    CutStep(text, d, start, |text|);
    var end := start;
    while s[end] != '\0'
      invariant start <= end <= |text|
      decreases |text| - end
    {
      end := end + 1;
    }
    field := s[start..end];
    assert s[..|text|] == s[..start] + text[start..];
  }

  /** Splits the C string `text` in `s`, overwriting each delimiter with a terminator. */
  method SplitStr(s: array<char>, ghost text: string, delimiter: char) returns (a: DynamicArray<string>)
    requires CutUpTo(s, text, delimiter, 0) && |text| < SSIZE_MAX
    modifies s
    ensures a.Valid() && fresh(a) && fresh(a.vector)
    ensures a.Contents() == Somes(Split(text, delimiter))
    ensures |text| < s.Length && s[..|text|] == Cut(text, delimiter)
  {
    hide NextAt, SplitUpTo, Split, CutUpTo, Cut, Somes, DynamicArray.Valid, DynamicArray.Contents;
    ghost var done: seq<string> := [];
    a := new DynamicArray(0);
    assert a.Contents() == Somes(done);
    var start := 0;
    var sub := FindDelimiter(s, text, delimiter, start);
    SplitStarts(text, delimiter);
    while s[sub] == delimiter
      invariant CutUpTo(s, text, delimiter, start)
      invariant start <= sub <= |text| && NextAt(text, delimiter, start, sub)
      invariant sub < s.Length && (s[sub] == delimiter <==> sub < |text|)
      invariant a.Valid() && fresh(a) && fresh(a.vector) && |done| <= start
      invariant a.Contents() == Somes(done)
      invariant SplitUpTo(text, delimiter, done, start)
      decreases |text| - start
    {
      SplitProgress(text, delimiter, done, start, sub);
      var field := TakeField(s, text, delimiter, start, sub);
      Append(a, done, field);
      done := done + [field];
      start := sub + 1;
      sub := FindDelimiter(s, text, delimiter, start);
    }
    SplitEnd(text, delimiter, done, start);
    var field := TakeRest(s, text, delimiter, start);
    if s[start] != '\0' {
      Append(a, done, field);
    }
  }

  /** The same loop, storing what `atoi` makes of each field. */
  method SplitStrToInt(s: array<char>, ghost text: string, delimiter: char, atoi: string -> int)
    returns (a: DynamicArray<int>)
    requires CutUpTo(s, text, delimiter, 0) && |text| < SSIZE_MAX
    modifies s
    ensures a.Valid() && fresh(a) && fresh(a.vector)
    ensures a.Contents() == Somes(Map(Split(text, delimiter), atoi))
    ensures |text| < s.Length && s[..|text|] == Cut(text, delimiter)
  {
    hide NextAt, SplitUpTo, Split, CutUpTo, Cut, Map, Somes, DynamicArray.Valid, DynamicArray.Contents;
    ghost var done: seq<string> := [];
    a := new DynamicArray(0);
    assert a.Contents() == Somes(Map(done, atoi));
    var start := 0;
    var sub := FindDelimiter(s, text, delimiter, start);
    SplitStarts(text, delimiter);
    while s[sub] == delimiter
      invariant CutUpTo(s, text, delimiter, start)
      invariant start <= sub <= |text| && NextAt(text, delimiter, start, sub)
      invariant sub < s.Length && (s[sub] == delimiter <==> sub < |text|)
      invariant a.Valid() && fresh(a) && fresh(a.vector) && |done| <= start
      invariant a.Contents() == Somes(Map(done, atoi))
      invariant SplitUpTo(text, delimiter, done, start)
      decreases |text| - start
    {
      SplitProgress(text, delimiter, done, start, sub);
      var field := TakeField(s, text, delimiter, start, sub);
      AppendInt(a, done, field, atoi);
      done := done + [field];
      start := sub + 1;
      sub := FindDelimiter(s, text, delimiter, start);
    }
    SplitEnd(text, delimiter, done, start);
    var field := TakeRest(s, text, delimiter, start);
    if s[start] != '\0' {
      AppendInt(a, done, field, atoi);
    }
  }

  method AppendInt(a: DynamicArray<int>, ghost done: seq<string>, field: string, atoi: string -> int)
    requires a.Valid() && a.Contents() == Somes(Map(done, atoi)) && |done| < SSIZE_MAX
    modifies a, a.vector
    ensures a.Valid() && (a.vector == old(a.vector) || fresh(a.vector))
    ensures a.Contents() == Somes(Map(done + [field], atoi))
  {
    var i := atoi(field);
    MapPush(done, field, atoi);
    Append(a, Map(done, atoi), i);
  }

  method Append<T>(a: DynamicArray<T>, ghost done: seq<T>, x: T)
    requires a.Valid() && a.Contents() == Somes(done) && |done| < SSIZE_MAX
    modifies a, a.vector
    ensures a.Valid() && (a.vector == old(a.vector) || fresh(a.vector))
    ensures a.Contents() == Somes(done + [x])
  {
    var ok := a.Add(Some(x));
    SomesPush(done, x);
  }

  lemma FieldHasNone(text: string, d: char, start: nat, sub: nat)
    requires NextAt(text, d, start, sub)
    ensures forall j :: start <= j < sub ==> text[j] != d
    ensures sub < |text| ==> text[sub] == d
  {
    forall j | start <= j < sub ensures text[j] != d {
      assert text[start..][j - start] == text[j];
    }
  }

  /** Between two delimiters nothing is cut. */
  lemma CutStep(text: string, d: char, start: nat, sub: nat)
    requires NextAt(text, d, start, sub)
    ensures sub < |text| ==> Cut(text, d)[..sub + 1] == Cut(text, d)[..start] + text[start..sub] + ['\0']
    ensures sub == |text| ==> Cut(text, d) == Cut(text, d)[..start] + text[start..]
  {
    hide IndexOfChar;
    FieldHasNone(text, d, start, sub);
    var c := Cut(text, d);
    assert c[start..sub] == text[start..sub];
    if sub < |text| {
      assert c[..sub + 1] == c[..start] + c[start..sub] + [c[sub]];
    }
  }

  // Display and split undo each other

  lemma ShownSomes<T>(xs: seq<T>, show: T -> string)
    ensures Shown(Somes(xs), show) == Map(xs, show)
  {
  }

  /** What displaying a split string shows: the string, less one trailing delimiter. strlen is exact. */
  lemma DisplayAfterSplit(text: string, d: char)
    requires text != ""
    ensures var fields := Somes(Split(text, d));
            var lengths, texts := Lengths(fields, StrLen), Shown(fields, Itself);
            && fields != [] && Fits(lengths, texts, Sum(lengths) + 2 * |fields| - 1)
            && Join(Clipped(lengths, texts), d) == LessLast(text, d)
  {
    hide Fits, Clipped, Sum, Split, Join, LessLast;
    var fields := Split(text, d);
    JoinSplit(text, d);
    ExactDisplay(Somes(fields), Itself, StrLen);
    ShownSomes(fields, Itself);
    assert Map(fields, Itself) == fields;
  }

  lemma {:induction false} JoinWithoutNul(texts: seq<string>, d: char)
    requires d != '\0' && forall i :: 0 <= i < |texts| ==> '\0' !in texts[i]
    ensures '\0' !in Join(texts, d)
  {
    if |texts| > 1 {
      JoinWithoutNul(texts[1..], d);
    }
  }

  // Ints

  /** Where C defines it, `atoi` is Atoi: on text whose number is an int. */
  ghost predicate LawfulAtoi(atoi: string -> int) {
    forall s :: IsInt(Atoi(s)) ==> atoi(s) == Atoi(s)
  }

  predicate Ints(xs: seq<int>) {
    forall i :: 0 <= i < |xs| ==> IsInt(xs[i])
  }

  /** What `vanessa_length_int` says of each. */
  function IntLengths(xs: seq<int>): (r: seq<nat>)
    ensures |r| == |xs|
    ensures forall i :: 0 <= i < |r| ==> r[i] == ElementOps.IntLength(xs[i])
  {
    Lengths(Somes(xs), ElementOps.IntLength)
  }

  /** What displaying ints leaves of each: all of its decimal text, but two characters of INT_MIN's. */
  ghost function IntTexts(xs: seq<int>): (r: seq<string>)
    requires Ints(xs)
    ensures |r| == |xs|
    ensures forall i :: 0 <= i < |r| ==> r[i] == if xs[i] == INT_MIN then "-2" else Decimal(xs[i])
    ensures Covered(IntLengths(xs), Shown(Somes(xs), Decimal))
    ensures r == Clipped(IntLengths(xs), Shown(Somes(xs), Decimal))
  {
    hide Decimal, ElementOps.IntLength;
    forall i | 0 <= i < |xs|
      ensures ElementOps.IntLength(xs[i]) <= |Decimal(xs[i])|
      ensures Clip(Decimal(xs[i]), ElementOps.IntLength(xs[i])) == if xs[i] == INT_MIN then "-2" else Decimal(xs[i])
    {
      ElementOps.IntLengthIs(xs[i]);
    }
    Clipped(IntLengths(xs), Shown(Somes(xs), Decimal))
  }

  predicate Separates(d: char) {
    d != '\0' && d != '-' && !IsDigit(d)
  }

  lemma IntTextsAre(xs: seq<int>, d: char, i: nat)
    requires Ints(xs) && i < |xs| && Separates(d)
    ensures IntTexts(xs)[i] != "" && d !in IntTexts(xs)[i] && '\0' !in IntTexts(xs)[i]
    ensures Atoi(IntTexts(xs)[i]) == if xs[i] == INT_MIN then -2 else xs[i]
  {
    hide IntTexts, Decimal;
    DecimalHasNo(xs[i], '\0');
    DecimalHasNo(xs[i], d);
    AtoiDecimal(xs[i]);
    AtoiDecimal(-2);
    assert Decimal(-2) == "-2" by {
      MinusTwo();
    }
  }

  lemma MinusTwo()
    ensures Decimal(-2) == "-2"
  {
  }

  /** Displaying ints with a delimiter that no number contains, then splitting to ints, gives the elements back -
      exactly when none of them is INT_MIN. The displayed text is a C string, as splitting needs. */
  lemma IntDisplayThenSplit(xs: seq<int>, d: char, atoi: string -> int)
    requires Ints(xs) && Separates(d) && LawfulAtoi(atoi)
    ensures '\0' !in Join(IntTexts(xs), d)
    ensures Map(Split(Join(IntTexts(xs), d), d), atoi) == xs <==> INT_MIN !in xs
  {
    hide IntTexts, Atoi, Split, Join;
    var texts := IntTexts(xs);
    forall i | 0 <= i < |xs|
      ensures d !in texts[i] && texts[i] != "" && '\0' !in texts[i]
      ensures atoi(texts[i]) == if xs[i] == INT_MIN then -2 else xs[i]
    {
      IntTextsAre(xs, d, i);
    }
    JoinWithoutNul(texts, d);
    SplitJoin(texts, d);
    if Map(texts, atoi) == xs {
      forall i | 0 <= i < |xs| ensures xs[i] != INT_MIN {
        assert Map(texts, atoi)[i] == atoi(texts[i]);
      }
    }
  }

  /** Behind every INT_MIN the buffer has room for the nine characters that its length leaves out: the elements behind
      it and the delimiters that were counted twice. */
  ghost predicate RoomForIntMin(xs: seq<int>) {
    forall i {:trigger xs[i]} :: 0 <= i < |xs| && xs[i] == INT_MIN ==>
      Sum(IntLengths(xs)[i + 1..]) + 2 * |xs| - i > 10
  }

  lemma {:induction false} SumSplit(ns: seq<nat>, i: nat)
    requires i <= |ns|
    ensures Sum(ns) == Sum(ns[..i]) + Sum(ns[i..])
  {
    if i == 0 {
      assert ns[0..] == ns && ns[..0] == [];
    } else {
      assert ns[..i][0] == ns[0] && ns[..i][1..] == ns[1..][..i - 1] && ns[1..][i - 1..] == ns[i..];
      SumSplit(ns[1..], i - 1);
    }
  }

  /** One int's write is in bounds: always, unless it is INT_MIN, and then when there is room behind it. */
  lemma IntFits(xs: seq<int>, i: nat)
    requires Ints(xs) && i < |xs|
    ensures var lengths := IntLengths(xs);
            lengths[i] > 0
            && (Sum(lengths[..i]) + i + |Decimal(xs[i])| < Sum(lengths) + 2 * |xs| - 1
                <==> xs[i] != INT_MIN || Sum(lengths[i + 1..]) + 2 * |xs| - i > 10)
  {
    hide Decimal, ElementOps.IntLength, Sum, IntLengths;
    ElementOps.IntLengthIs(xs[i]);
    ElementOps.IntLengthPositive(xs[i]);
    var lengths := IntLengths(xs);
    SumSplit(lengths, i + 1);
    SumStep(lengths, i);
  }

  /** The display of ints fits its buffer if and only if there is room behind every INT_MIN. */
  lemma IntsFitExactly(xs: seq<int>)
    requires Ints(xs)
    ensures Fits(IntLengths(xs), Shown(Somes(xs), Decimal), Sum(IntLengths(xs)) + 2 * |xs| - 1) <==> RoomForIntMin(xs)
  {
    hide Decimal, ElementOps.IntLength, Sum, IntLengths;
    var lengths, texts := IntLengths(xs), Shown(Somes(xs), Decimal);
    forall i | 0 <= i < |xs|
      ensures texts[i] == Decimal(xs[i]) && lengths[i] > 0
      ensures Sum(lengths[..i]) + i + |texts[i]| < Sum(lengths) + 2 * |xs| - 1
              <==> xs[i] != INT_MIN || Sum(lengths[i + 1..]) + 2 * |xs| - i > 10
    {
      IntFits(xs, i);
    }
  }

  /** So it fits without INT_MIN. */
  lemma IntsFit(xs: seq<int>)
    requires Ints(xs) && INT_MIN !in xs
    ensures Fits(IntLengths(xs), Shown(Somes(xs), Decimal), Sum(IntLengths(xs)) + 2 * |xs| - 1)
  {
    hide Decimal, ElementOps.IntLength, Fits, Sum, IntLengths;
    IntsFitExactly(xs);
  }

  /** INT_MIN alone does not fit: twelve characters are written to a buffer of three. */
  lemma IntMinDoesNotFit()
    ensures var lengths, texts := IntLengths([INT_MIN]), Shown(Somes([INT_MIN]), Decimal);
            && Sum(lengths) + 2 * 1 - 1 == 3 && |texts[0]| + 1 == 12
            && !Fits(lengths, texts, 3)
            && IntTexts([INT_MIN]) == ["-2"]
  {
    hide Decimal, IntTexts, Fits;
    ElementOps.IntLengthIs(INT_MIN);
    IntsFitExactly([INT_MIN]);
    var lengths := IntLengths([INT_MIN]);
    assert lengths == [2] && lengths[1..] == [] && [INT_MIN][0] == INT_MIN;
    assert Sum([2]) == 2 + Sum([]);
  }

  /** Before three zeros it fits, into twelve. */
  lemma IntMinCanFit()
    ensures var xs := [INT_MIN, 0, 0, 0];
            && Sum(IntLengths(xs)) + 2 * |xs| - 1 == 12
            && Fits(IntLengths(xs), Shown(Somes(xs), Decimal), 12)
  {
    hide Decimal, Fits;
    var xs, lengths := [INT_MIN, 0, 0, 0], IntLengths([INT_MIN, 0, 0, 0]);
    ElementOps.IntLengthIs(INT_MIN);
    assert ElementOps.IntLength(0) == 1;
    assert lengths[1..] == [1, 1, 1] && [1, 1, 1][1..] == [1, 1] && [1, 1][1..] == [1];
    assert Sum([1]) == 1 && Sum([1, 1]) == 2 && Sum([1, 1, 1]) == 3;
    assert lengths[0] == 2 && Sum(lengths) == 2 + Sum(lengths[1..]);
    IntsFitExactly(xs);
  }

  function Held<T>(elements: seq<Option<T>>): (xs: seq<T>)
    requires forall i :: 0 <= i < |elements| ==> elements[i].Some?
    ensures Somes(xs) == elements
  {
    seq(|elements|, i requires 0 <= i < |elements| => elements[i].value)
  }

  /** The two calls in a row. When there is room behind every INT_MIN, the elements come back exactly when none of them
      is INT_MIN; otherwise the display overruns its buffer, and the result is null. */
  method DisplayAndSplit(a: DynamicArray<int>, d: char, atoi: string -> int) returns (b: DynamicArray?<int>)
    requires a.Valid() && a.count > 0 && Separates(d) && LawfulAtoi(atoi)
    requires forall i :: 0 <= i < a.count ==> a.Contents()[i].Some? && IsInt(a.Contents()[i].value)
    requires a.count + Sum(Lengths(a.Contents(), ElementOps.IntLength)) < SSIZE_MAX
    ensures b != null <==> RoomForIntMin(Held(a.Contents()))
    ensures b != null ==> b.Valid() && (b.Contents() == a.Contents() <==> Some(INT_MIN) !in a.Contents())
  {
    hide IsMultiple, Split, Decimal, ElementOps.IntLength, Sum, Join, Fits, Left, LawfulAtoi, RoomForIntMin;
    ghost var xs := Held(a.Contents());
    assert Ints(xs);
    IntsFitExactly(xs);
    var buffer, n, inBounds, segments := a.Display(Decimal, ElementOps.IntLength, d);
    if !inBounds {
      return null;
    }
    ghost var text := Join(segments, d);
    IntDisplaySplits(xs, segments, d, atoi);
    assert buffer[..n] == text;
    b := SplitStrToInt(buffer, text, d, atoi);
  }

  /** Splitting what a display of ints leaves. */
  lemma IntDisplaySplits(xs: seq<int>, segments: seq<string>, d: char, atoi: string -> int)
    requires Ints(xs) && xs != [] && Separates(d) && LawfulAtoi(atoi)
    requires Left(segments, IntLengths(xs), Shown(Somes(xs), Decimal)) && |segments| == |xs|
    ensures '\0' !in Join(segments, d) && |Join(segments, d)| == Sum(IntLengths(xs)) + |xs| - 1
    ensures Somes(Map(Split(Join(segments, d), d), atoi)) == Somes(xs) <==> Some(INT_MIN) !in Somes(xs)
  {
    hide Split, Decimal, IntLengths, Sum, Join, Left, LawfulAtoi, IntTexts;
    IntDisplayThenSplit(xs, d, atoi);
    LeftIsClipped(segments, IntLengths(xs), Shown(Somes(xs), Decimal));
    ClippedLength(IntLengths(xs), Shown(Somes(xs), Decimal), d);
    SomesMember(xs, INT_MIN);
    SomesUnique(Map(Split(Join(segments, d), d), atoi), xs);
  }
}
