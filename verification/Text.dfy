/** Delimited text: joining, splitting, and the decimal form of integers. */
module Text {

  /** The texts with one delimiter between each two. */
  function Join(texts: seq<string>, d: char): string {
    if texts == [] then ""
    else if |texts| == 1 then texts[0]
    else texts[0] + [d] + Join(texts[1..], d)
  }

  function Map<S, T>(xs: seq<S>, f: S -> T): (r: seq<T>)
    ensures |r| == |xs|
    ensures forall i {:trigger r[i]} :: 0 <= i < |r| ==> r[i] == f(xs[i])
  {
    seq(|xs|, i requires 0 <= i < |xs| => f(xs[i]))
  }

  lemma MapPush<S, T>(xs: seq<S>, x: S, f: S -> T)
    ensures Map(xs + [x], f) == Map(xs, f) + [f(x)]
  {
  }

  /** The sum of the lengths of the texts. */
  function TotalLength(texts: seq<string>): nat {
    if texts == [] then 0 else |texts[0]| + TotalLength(texts[1..])
  }

  lemma {:induction false} JoinLength(texts: seq<string>, d: char)
    requires texts != []
    ensures |Join(texts, d)| == TotalLength(texts) + |texts| - 1
  {
    if |texts| > 1 {
      JoinLength(texts[1..], d);
    }
  }

  /** The texts each followed by a delimiter: what a display loop has written before it drops the last one. */
  function Terminated(texts: seq<string>, d: char): string {
    if texts == [] then "" else texts[0] + [d] + Terminated(texts[1..], d)
  }

  lemma {:induction false} TerminatedIsJoin(texts: seq<string>, d: char)
    requires texts != []
    ensures Terminated(texts, d) == Join(texts, d) + [d]
  {
    if |texts| > 1 {
      TerminatedIsJoin(texts[1..], d);
    } else {
      assert Terminated(texts, d) == texts[0] + [d] + "";
    }
  }

  lemma {:induction false} TerminatedPush(texts: seq<string>, t: string, d: char)
    ensures Terminated(texts + [t], d) == Terminated(texts, d) + t + [d]
  {
    if texts == [] {
      assert texts + [t] == [t];
      assert Terminated([t], d) == t + [d] + "";
    } else {
      assert (texts + [t])[1..] == texts[1..] + [t];
      TerminatedPush(texts[1..], t, d);
    }
  }

  // Splitting

  /** The position of the first d in s, |s| when there is none. */
  function IndexOfChar(s: string, d: char): (i: nat)
    ensures i <= |s|
    ensures i < |s| ==> s[i] == d
    ensures forall j :: 0 <= j < i ==> s[j] != d
  {
    if s == "" || s[0] == d then 0 else 1 + IndexOfChar(s[1..], d)
  }

  /** The fields between delimiters; an empty last field is dropped. */
  function Split(s: string, d: char): seq<string>
    decreases |s|
  {
    var i := IndexOfChar(s, d);
    if i < |s| then [s[..i]] + Split(s[i + 1..], d)
    else if s == "" then [] else [s]
  }

  /** The field before the first delimiter, then the split of what follows. */
  lemma SplitStep(s: string, d: char, i: nat)
    requires i == IndexOfChar(s, d) < |s|
    ensures s[i] == d && Split(s, d) == [s[..i]] + Split(s[i + 1..], d)
  {
  }

  lemma SplitLast(s: string, d: char)
    requires IndexOfChar(s, d) == |s|
    ensures Split(s, d) == (if s == "" then [] else [s]) && (s != "" ==> s[|s| - 1] != d)
  {
  }

  /** A string around its character i. */
  lemma Around(s: string, i: nat)
    requires i < |s|
    ensures var rest := s[i + 1..];
            && s == s[..i] + [s[i]] + rest
            && (rest == "" ==> s[|s| - 1] == s[i] && s[..|s| - 1] == s[..i])
            && (rest != "" ==> s[|s| - 1] == rest[|rest| - 1]
                               && s[..|s| - 1] == s[..i] + [s[i]] + rest[..|rest| - 1])
  {
  }

  function LessLast(s: string, d: char): string {
    if s != "" && s[|s| - 1] == d then s[..|s| - 1] else s
  }

  lemma LessLastAround(s: string, d: char, i: nat)
    requires i < |s| && s[i] == d
    ensures LessLast(s, d) == if s[i + 1..] == "" then s[..i] else s[..i] + [d] + LessLast(s[i + 1..], d)
  {
    Around(s, i);
  }

  /** Joining what was split gives the string back, less one trailing delimiter. */
  lemma {:induction false} JoinSplit(s: string, d: char)
    ensures Join(Split(s, d), d) == LessLast(s, d)
    ensures s != "" ==> Split(s, d) != []
    decreases |s|
  {
    var i := IndexOfChar(s, d);
    hide IndexOfChar, Split, Join, LessLast;
    if i < |s| {
      SplitStep(s, d, i);
      JoinSplit(s[i + 1..], d);
      JoinCons(s[..i], Split(s[i + 1..], d), d);
      LessLastAround(s, d, i);
      EmptySplit(d);
    } else {
      SplitLast(s, d);
      JoinOne(s, d);
      Untouched(s, d);
    }
  }

  lemma EmptySplit(d: char)
    ensures Split("", d) == []
  {
  }

  lemma JoinOne(t: string, d: char)
    ensures Join([t], d) == t && Join([], d) == ""
  {
  }

  lemma Untouched(s: string, d: char)
    requires s != "" ==> s[|s| - 1] != d
    ensures LessLast(s, d) == s
  {
  }

  lemma JoinCons(t: string, rest: seq<string>, d: char)
    ensures Join([t] + rest, d) == if rest == [] then t else t + [d] + Join(rest, d)
  {
    assert ([t] + rest)[1..] == rest;
  }

  lemma {:induction false} IndexOfCharIs(a: string, d: char, b: string)
    requires d !in a
    ensures IndexOfChar(a + [d] + b, d) == |a|
  {
    if a == "" {
      assert a + [d] + b == [d] + b;
    } else {
      assert (a + [d] + b)[1..] == a[1..] + [d] + b;
      IndexOfCharIs(a[1..], d, b);
    }
  }

  /** Splitting what was joined gives the texts back, when none holds the delimiter and the last is not empty. */
  lemma {:induction false} SplitJoin(texts: seq<string>, d: char)
    requires forall i :: 0 <= i < |texts| ==> d !in texts[i]
    requires texts != [] ==> texts[|texts| - 1] != ""
    ensures Split(Join(texts, d), d) == texts
  {
    if |texts| == 1 {
    } else if texts != [] {
      var rest := Join(texts[1..], d);
      IndexOfCharIs(texts[0], d, rest);
      assert Join(texts, d)[..|texts[0]|] == texts[0];
      assert Join(texts, d)[|texts[0]| + 1..] == rest;
      SplitJoin(texts[1..], d);
    }
  }

  // Decimal text of C ints

  const INT_MIN := -0x8000_0000
  const INT_MAX := 0x7fff_ffff

  predicate IsInt(x: int) {
    INT_MIN <= x <= INT_MAX
  }

  function Digit(n: nat): char
    requires n < 10
  {
    '0' + n as char
  }

  predicate IsDigit(c: char) {
    '0' <= c <= '9'
  }

  function DigitValue(c: char): nat
    requires IsDigit(c)
  {
    (c - '0') as nat
  }

  function DecimalNat(n: nat): (s: string)
    ensures s != "" && forall i :: 0 <= i < |s| ==> IsDigit(s[i])
  {
    if n < 10 then [Digit(n)] else DecimalNat(n / 10) + [Digit(n % 10)]
  }

  /** What `%d` prints. */
  function Decimal(i: int): (s: string)
    ensures s != ""
  {
    if i < 0 then "-" + DecimalNat(-i) else DecimalNat(i)
  }

  predicate IsSpace(c: char) {
    c == ' ' || '\t' <= c <= '\r'
  }

  /** The number the leading digits of s continue, having read n so far. */
  function ReadDigits(s: string, n: nat): nat {
    if s == "" || !IsDigit(s[0]) then n else ReadDigits(s[1..], 10 * n + DigitValue(s[0]))
  }

  function Negate(n: int): int {
    -n
  }

  /** C's atoi: skip white space, take an optional sign, then digits up to the first other character. */
  function Atoi(s: string): int {
    if s != "" && IsSpace(s[0]) then Atoi(s[1..])
    else if s != "" && s[0] == '-' then Negate(ReadDigits(s[1..], 0))
    else if s != "" && s[0] == '+' then ReadDigits(s[1..], 0)
    else ReadDigits(s, 0)
  }

  lemma {:induction false} ReadDigitsConcat(a: string, b: string, n: nat)
    requires forall i :: 0 <= i < |a| ==> IsDigit(a[i])
    ensures ReadDigits(a + b, n) == ReadDigits(b, ReadDigits(a, n))
  {
    if a == "" {
      assert a + b == b;
    } else {
      assert (a + b)[1..] == a[1..] + b;
      ReadDigitsConcat(a[1..], b, 10 * n + DigitValue(a[0]));
    }
  }

  lemma {:induction false} ReadDecimalNat(n: nat)
    ensures ReadDigits(DecimalNat(n), 0) == n
  {
    if n >= 10 {
      ReadDecimalNat(n / 10);
      ReadDigitsConcat(DecimalNat(n / 10), [Digit(n % 10)], 0);
    }
    assert ReadDigits([Digit(n % 10)], n / 10) == 10 * (n / 10) + n % 10;
  }

  /** atoi inverts %d. */
  lemma AtoiDecimal(i: int)
    ensures Atoi(Decimal(i)) == i
  {
    if i < 0 {
      ReadDecimalNat(-i);
      assert Decimal(i)[1..] == DecimalNat(-i);
    } else {
      ReadDecimalNat(i);
      assert IsDigit(Decimal(i)[0]);
    }
  }

  lemma {:induction false} AtoiSkips(space: string, s: string)
    requires forall j :: 0 <= j < |space| ==> space[j] == ' ' || '\t' <= space[j] <= '\r'
    ensures Atoi(space + s) == Atoi(s)
  {
    if space == "" {
      assert space + s == s;
    } else {
      assert (space + s)[1..] == space[1..] + s;
      AtoiSkips(space[1..], s);
    }
  }

  lemma AtoiNat(n: nat, rest: string)
    requires rest == "" || !('0' <= rest[0] <= '9')
    ensures var s := DecimalNat(n) + rest; Atoi(s) == n && Atoi("+" + s) == n && Atoi("-" + s) == 0 - n
  {
    hide DecimalNat;
    var s := DecimalNat(n) + rest;
    ReadDecimalNat(n);
    ReadDigitsConcat(DecimalNat(n), rest, 0);
    assert IsDigit(s[0]) && ("+" + s)[1..] == s && ("-" + s)[1..] == s;
  }

  lemma SignedDecimal(i: int, rest: string)
    ensures Decimal(i) + rest == if i < 0 then "-" + (DecimalNat(-i) + rest) else DecimalNat(i) + rest
  {
    hide DecimalNat;
  }

  /** White space before a number, a plus sign, and what follows its digits make no difference. */
  lemma AtoiReads(space: string, i: int, rest: string)
    requires forall j :: 0 <= j < |space| ==> space[j] == ' ' || '\t' <= space[j] <= '\r'
    requires rest == "" || !('0' <= rest[0] <= '9')
    ensures Atoi(space + (Decimal(i) + rest)) == i
    ensures i >= 0 ==> Atoi(space + ("+" + (Decimal(i) + rest))) == i
  {
    hide *;
    AtoiSkips(space, Decimal(i) + rest);
    AtoiSkips(space, "+" + (Decimal(i) + rest));
    SignedDecimal(i, rest);
    AtoiNat(if i < 0 then -i else i, rest);
  }

  lemma DecimalHasNo(i: int, d: char)
    requires !IsDigit(d) && d != '-'
    ensures d !in Decimal(i)
  {
  }
}
