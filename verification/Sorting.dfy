/** Stable sorting by a three-way comparator, as a specification. */
module Sorting {

  predicate Le<T>(cmp: (T, T) -> int, a: T, b: T) {
    cmp(a, b) <= 0
  }

  /** The laws a caller's comparator must obey for "sorted" to mean anything. */
  ghost predicate TotalPreorder<T(!new)>(cmp: (T, T) -> int) {
    && (forall a, b {:trigger Le(cmp, a, b)} :: Le(cmp, a, b) <==> cmp(b, a) >= 0)
    && (forall a, b, c {:trigger Le(cmp, a, b), Le(cmp, b, c)} :: Le(cmp, a, b) && Le(cmp, b, c) ==> Le(cmp, a, c))
  }

  lemma Flip<T(!new)>(cmp: (T, T) -> int, a: T, b: T)
    requires TotalPreorder(cmp)
    ensures cmp(a, b) <= 0 <==> cmp(b, a) >= 0
    ensures cmp(a, b) >= 0 <==> cmp(b, a) <= 0
  {
    assert Le(cmp, a, b) <==> cmp(b, a) >= 0;
    assert Le(cmp, b, a) <==> cmp(a, b) >= 0;
  }

  /** Transitivity, strict when either step is. */
  lemma Trans<T(!new)>(cmp: (T, T) -> int, a: T, b: T, c: T)
    requires TotalPreorder(cmp) && cmp(a, b) <= 0 && cmp(b, c) <= 0
    ensures cmp(a, c) <= 0
    ensures cmp(a, b) < 0 || cmp(b, c) < 0 ==> cmp(a, c) < 0
  {
    assert Le(cmp, a, b) && Le(cmp, b, c) && Le(cmp, a, c);
    Flip(cmp, a, b);
    Flip(cmp, b, c);
    Flip(cmp, a, c);
    if cmp(a, c) == 0 {
      assert Le(cmp, c, a) && Le(cmp, c, b) && Le(cmp, b, a);
    }
  }

  ghost predicate Sorted<T>(cmp: (T, T) -> int, s: seq<T>) {
    forall i, j :: 0 <= i < j < |s| ==> cmp(s[i], s[j]) <= 0
  }

  /** Puts x before the first element strictly greater than it. */
  function InsertAfterEquals<T>(cmp: (T, T) -> int, s: seq<T>, x: T): (r: seq<T>)
    ensures |r| == |s| + 1
  {
    if s == [] || cmp(x, s[0]) < 0 then [x] + s
    else [s[0]] + InsertAfterEquals(cmp, s[1..], x)
  }

  /** Insertion sort in input order. */
  function StableSort<T>(cmp: (T, T) -> int, s: seq<T>): (r: seq<T>)
    ensures |r| == |s|
  {
    if s == [] then [] else InsertAfterEquals(cmp, StableSort(cmp, s[..|s| - 1]), s[|s| - 1])
  }

  lemma StableSortPush<T>(cmp: (T, T) -> int, s: seq<T>, x: T)
    ensures StableSort(cmp, s + [x]) == InsertAfterEquals(cmp, StableSort(cmp, s), x)
  {
    assert (s + [x])[..|s|] == s;
  }

  /** The elements of s that compare equal to x, in order. */
  ghost function EqualsOf<T>(cmp: (T, T) -> int, s: seq<T>, x: T): seq<T> {
    if s == [] then []
    else (if cmp(x, s[0]) == 0 then [s[0]] else []) + EqualsOf(cmp, s[1..], x)
  }

  lemma {:induction false} EqualsOfAbsent<T>(cmp: (T, T) -> int, s: seq<T>, x: T)
    requires forall i :: 0 <= i < |s| ==> cmp(x, s[i]) != 0
    ensures EqualsOf(cmp, s, x) == []
  {
    if s != [] {
      EqualsOfAbsent(cmp, s[1..], x);
    }
  }

  lemma {:induction false} InsertMembers<T>(cmp: (T, T) -> int, s: seq<T>, y: T)
    ensures multiset(InsertAfterEquals(cmp, s, y)) == multiset(s) + multiset{y}
  {
    if s != [] && cmp(y, s[0]) >= 0 {
      InsertMembers(cmp, s[1..], y);
      assert s == [s[0]] + s[1..];
    }
  }

  /** Where InsertAfterEquals puts y: before the first element strictly greater. */
  function PositionOf<T>(cmp: (T, T) -> int, s: seq<T>, y: T): (k: nat)
    ensures k <= |s|
    ensures forall i :: 0 <= i < k ==> cmp(y, s[i]) >= 0
    ensures k < |s| ==> cmp(y, s[k]) < 0
  {
    if s == [] || cmp(y, s[0]) < 0 then 0 else 1 + PositionOf(cmp, s[1..], y)
  }

  /** In a sorted sequence that is after every element not greater and before every greater one. */
  lemma InsertPosition<T(!new)>(cmp: (T, T) -> int, s: seq<T>, y: T) returns (k: nat)
    requires TotalPreorder(cmp) && Sorted(cmp, s)
    ensures k <= |s| && InsertAfterEquals(cmp, s, y) == s[..k] + [y] + s[k..]
    ensures forall i :: 0 <= i < k ==> cmp(s[i], y) <= 0
    ensures forall i :: k <= i < |s| ==> cmp(y, s[i]) < 0
  {
    hide InsertAfterEquals;
    k := PositionOf(cmp, s, y);
    InsertBetween(cmp, s[..k], s[k..], y);
    assert s == s[..k] + s[k..];
    forall i | 0 <= i < k ensures cmp(s[i], y) <= 0 {
      Flip(cmp, s[i], y);
    }
    forall i | k < i < |s| ensures cmp(y, s[i]) < 0 {
      Trans(cmp, y, s[k], s[i]);
    }
  }

  lemma InsertSorted<T(!new)>(cmp: (T, T) -> int, s: seq<T>, y: T)
    requires TotalPreorder(cmp) && Sorted(cmp, s)
    ensures Sorted(cmp, InsertAfterEquals(cmp, s, y))
  {
    var k := InsertPosition(cmp, s, y);
    var r := s[..k] + [y] + s[k..];
    forall i, j | 0 <= i < j < |r| ensures cmp(r[i], r[j]) <= 0 {
    }
  }

  lemma EqualsOfCons<T>(cmp: (T, T) -> int, a: T, s: seq<T>, x: T)
    ensures EqualsOf(cmp, [a] + s, x) == (if cmp(x, a) == 0 then [a] else []) + EqualsOf(cmp, s, x)
  {
    assert ([a] + s)[1..] == s;
  }

  lemma {:induction false} EqualsOfConcat<T>(cmp: (T, T) -> int, s: seq<T>, t: seq<T>, x: T)
    ensures EqualsOf(cmp, s + t, x) == EqualsOf(cmp, s, x) + EqualsOf(cmp, t, x)
  {
    if s == [] {
      assert s + t == t;
    } else {
      hide EqualsOf;
      var a, r := s[0], s[1..];
      EqualsOfConcat(cmp, r, t, x);
      EqualsOfCons(cmp, a, r, x);
      EqualsOfCons(cmp, a, r + t, x);
      assert s == [a] + r && s + t == [a] + (r + t);
    }
  }

  /** Insertion puts y last among its equals and disturbs no other class. */
  lemma InsertEquals<T(!new)>(cmp: (T, T) -> int, s: seq<T>, y: T, x: T)
    requires TotalPreorder(cmp) && Sorted(cmp, s)
    ensures EqualsOf(cmp, InsertAfterEquals(cmp, s, y), x) == EqualsOf(cmp, s + [y], x)
  {
    hide EqualsOf, InsertAfterEquals, Sorted, TotalPreorder;
    var k := InsertPosition(cmp, s, y);
    var a, b := s[..k], s[k..];
    assert s == a + b;
    EqualsOfConcat(cmp, a + [y], b, x);
    EqualsOfConcat(cmp, a, [y], x);
    EqualsOfConcat(cmp, s, [y], x);
    EqualsOfConcat(cmp, a, b, x);
    if cmp(x, y) == 0 {
      forall i | 0 <= i < |b| ensures cmp(x, b[i]) != 0 {
        Trans(cmp, x, y, b[i]);
      }
      EqualsOfAbsent(cmp, b, x);
    } else {
      EqualsOfAbsent(cmp, [y], x);
    }
  }

  /** StableSort sorts, permutes, and keeps the input order of elements that compare equal. */
  lemma {:induction false} StableSortIsStable<T(!new)>(cmp: (T, T) -> int, s: seq<T>, x: T)
    requires TotalPreorder(cmp)
    ensures Sorted(cmp, StableSort(cmp, s))
    ensures multiset(StableSort(cmp, s)) == multiset(s)
    ensures EqualsOf(cmp, StableSort(cmp, s), x) == EqualsOf(cmp, s, x)
  {
    if s != [] {
      var init, y := s[..|s| - 1], s[|s| - 1];
      assert s == init + [y];
      StableSortIsStable(cmp, init, x);
      var t := StableSort(cmp, init);
      InsertSorted(cmp, t, y);
      InsertMembers(cmp, t, y);
      InsertEquals(cmp, t, y, x);
      EqualsOfConcat(cmp, t, [y], x);
      EqualsOfConcat(cmp, init, [y], x);
    }
  }

  function Reverse<T>(s: seq<T>): (r: seq<T>)
    ensures |r| == |s|
  {
    if s == [] then [] else Reverse(s[1..]) + [s[0]]
  }

  lemma {:induction false} ReverseAt<T>(s: seq<T>)
    ensures forall i :: 0 <= i < |s| ==> Reverse(s)[i] == s[|s| - 1 - i]
  {
    if s != [] {
      ReverseAt(s[1..]);
    }
  }

  lemma ReverseTwice<T>(s: seq<T>)
    ensures Reverse(Reverse(s)) == s
  {
    ReverseAt(s);
    ReverseAt(Reverse(s));
  }

  lemma ReversePush<T>(x: T, s: seq<T>)
    ensures Reverse([x] + s) == Reverse(s) + [x]
  {
    assert ([x] + s)[1..] == s;
  }

  /** How many leading elements compare equal to x. */
  function LeadingEquals<T>(cmp: (T, T) -> int, s: seq<T>, x: T): (n: nat)
    ensures n <= |s|
    ensures forall i :: 0 <= i < n ==> cmp(x, s[i]) == 0
    ensures n < |s| ==> cmp(x, s[n]) != 0
  {
    if s == [] || cmp(x, s[0]) != 0 then 0 else 1 + LeadingEquals(cmp, s[1..], x)
  }

  /** Reverses each maximal run of equal elements in place. */
  function ReverseRuns<T>(cmp: (T, T) -> int, s: seq<T>): (r: seq<T>)
    ensures |r| == |s|
  {
    if s == [] then []
    else
      var n := 1 + LeadingEquals(cmp, s[1..], s[0]);
      Reverse(s[..n]) + ReverseRuns(cmp, s[n..])
  }

  /** Inserting after a prefix of no greater elements, before a strictly greater rest. */
  lemma {:induction false} InsertBetween<T>(cmp: (T, T) -> int, a: seq<T>, b: seq<T>, x: T)
    requires forall i :: 0 <= i < |a| ==> cmp(x, a[i]) >= 0
    requires b != [] ==> cmp(x, b[0]) < 0
    ensures InsertAfterEquals(cmp, a + b, x) == a + [x] + b
  {
    if a == [] {
      assert a + b == b;
    } else {
      assert (a + b)[1..] == a[1..] + b;
      InsertBetween(cmp, a[1..], b, x);
    }
  }

  lemma {:induction false} ReverseRunsMembers<T>(cmp: (T, T) -> int, s: seq<T>)
    ensures multiset(ReverseRuns(cmp, s)) == multiset(s)
  {
    if s != [] {
      hide Reverse, LeadingEquals, ReverseRuns;
      var n := 1 + LeadingEquals(cmp, s[1..], s[0]);
      ReverseRunsStep(cmp, s, n);
      ReverseRunsMembers(cmp, s[n..]);
      ReverseMembers(s[..n]);
      SplitMembers(s, n, Reverse(s[..n]), ReverseRuns(cmp, s[n..]));
    }
  }

  lemma ReverseRunsStep<T>(cmp: (T, T) -> int, s: seq<T>, n: nat)
    requires s != [] && n == 1 + LeadingEquals(cmp, s[1..], s[0])
    ensures n <= |s| && ReverseRuns(cmp, s) == Reverse(s[..n]) + ReverseRuns(cmp, s[n..])
  {
    hide Reverse, LeadingEquals;
  }

  lemma SplitMembers<T>(s: seq<T>, n: nat, c: seq<T>, d: seq<T>)
    requires n <= |s| && multiset(s[..n]) == multiset(c) && multiset(s[n..]) == multiset(d)
    ensures multiset(s) == multiset(c + d)
  {
    assert s == s[..n] + s[n..];
  }

  lemma {:induction false} ReverseMembers<T>(s: seq<T>)
    ensures multiset(Reverse(s)) == multiset(s)
  {
    if s != [] {
      ReverseMembers(s[1..]);
      assert s == [s[0]] + s[1..];
    }
  }

  /** Everything in ReverseRuns(s) comes from s. */
  lemma ReverseRunsGreater<T(!new)>(cmp: (T, T) -> int, s: seq<T>, x: T)
    requires forall i :: 0 <= i < |s| ==> cmp(x, s[i]) < 0
    ensures forall i :: 0 <= i < |s| ==> cmp(x, ReverseRuns(cmp, s)[i]) < 0
  {
    ReverseRunsMembers(cmp, s);
    var r := ReverseRuns(cmp, s);
    forall i | 0 <= i < |s| ensures cmp(x, r[i]) < 0 {
      assert r[i] in multiset(s);
      assert r[i] in s;
    }
  }

  /** LeadingEquals is the only count that fits its description. */
  lemma {:induction false} LeadingEqualsIs<T>(cmp: (T, T) -> int, s: seq<T>, x: T, n: nat)
    requires n <= |s|
    requires forall i :: 0 <= i < n ==> cmp(x, s[i]) == 0
    requires n < |s| ==> cmp(x, s[n]) != 0
    ensures LeadingEquals(cmp, s, x) == n
  {
    if n > 0 {
      LeadingEqualsIs(cmp, s[1..], x, n - 1);
    }
  }

  lemma EqualsAgree<T(!new)>(cmp: (T, T) -> int, x: T, y: T, z: T)
    requires TotalPreorder(cmp) && cmp(x, y) == 0
    ensures cmp(y, z) == 0 <==> cmp(x, z) == 0
    ensures cmp(y, z) < 0 <==> cmp(x, z) < 0
    ensures cmp(y, x) == 0
  {
    Flip(cmp, x, y);
    Flip(cmp, x, z);
    Flip(cmp, y, z);
    if cmp(x, z) <= 0 {
      Trans(cmp, y, x, z);
    }
    if cmp(x, z) >= 0 {
      Trans(cmp, z, x, y);
    }
  }

  /** One run of equals, then a different element: ReverseRuns reverses the run and goes on. */
  lemma ReverseRunsSplit<T>(cmp: (T, T) -> int, a: seq<T>, b: seq<T>)
    requires a != []
    requires forall i :: 1 <= i < |a| ==> cmp(a[0], a[i]) == 0
    requires b != [] ==> cmp(a[0], b[0]) != 0
    ensures ReverseRuns(cmp, a + b) == Reverse(a) + ReverseRuns(cmp, b)
  {
    LeadingEqualsIs(cmp, (a + b)[1..], a[0], |a| - 1);
    assert (a + b)[..|a|] == a && (a + b)[|a|..] == b;
  }

  /** A sorted sequence is its first run of equals, then strictly greater elements. */
  lemma FirstRun<T(!new)>(cmp: (T, T) -> int, s: seq<T>) returns (a: seq<T>, b: seq<T>)
    requires TotalPreorder(cmp) && Sorted(cmp, s) && s != []
    ensures a != [] && s == a + b && Sorted(cmp, b)
    ensures forall i :: 0 <= i < |a| ==> cmp(s[0], a[i]) == 0
    ensures forall i :: 0 <= i < |b| ==> cmp(s[0], b[i]) < 0
  {
    var n := LeadingEquals(cmp, s, s[0]);
    Flip(cmp, s[0], s[0]);
    a, b := s[..n], s[n..];
    forall i | 0 <= i < |b| ensures cmp(s[0], b[i]) < 0 {
      if i > 0 {
        Trans(cmp, s[0], s[n], s[n + i]);
      }
    }
  }

  /** The same for a run known to equal x before elements greater than x; the run may be empty. */
  lemma RunThenRest<T(!new)>(cmp: (T, T) -> int, x: T, a: seq<T>, b: seq<T>)
    requires TotalPreorder(cmp)
    requires forall i :: 0 <= i < |a| ==> cmp(x, a[i]) == 0
    requires forall i :: 0 <= i < |b| ==> cmp(x, b[i]) < 0
    ensures ReverseRuns(cmp, a + b) == Reverse(a) + ReverseRuns(cmp, b)
  {
    if a == [] {
      assert a + b == b && Reverse(a) + ReverseRuns(cmp, b) == ReverseRuns(cmp, b);
    } else {
      forall i | 1 <= i < |a| ensures cmp(a[0], a[i]) == 0 {
        EqualsAgree(cmp, x, a[0], a[i]);
      }
      if b != [] {
        EqualsAgree(cmp, x, a[0], b[0]);
      }
      ReverseRunsSplit(cmp, a, b);
    }
  }

  lemma InsertBehindRun<T(!new)>(cmp: (T, T) -> int, x: T, c: seq<T>, b: seq<T>)
    requires forall i :: 0 <= i < |c| ==> cmp(x, c[i]) == 0
    requires forall i :: 0 <= i < |b| ==> cmp(x, b[i]) < 0
    ensures InsertAfterEquals(cmp, Reverse(c) + ReverseRuns(cmp, b), x) == Reverse([x] + c) + ReverseRuns(cmp, b)
  {
    ReverseRunsGreater(cmp, b, x);
    ReverseAt(c);
    InsertBetween(cmp, Reverse(c), ReverseRuns(cmp, b), x);
    ReversePush(x, c);
  }

  /** Putting x before the rest c of its run is inserting it behind c reversed. */
  lemma ReverseRunsPush<T(!new)>(cmp: (T, T) -> int, x: T, c: seq<T>, b: seq<T>)
    requires TotalPreorder(cmp)
    requires forall i :: 0 <= i < |c| ==> cmp(x, c[i]) == 0
    requires forall i :: 0 <= i < |b| ==> cmp(x, b[i]) < 0
    ensures InsertAfterEquals(cmp, ReverseRuns(cmp, c + b), x) == ReverseRuns(cmp, ([x] + c) + b)
  {
    Flip(cmp, x, x);
    RunThenRest(cmp, x, [x] + c, b);
    RunThenRest(cmp, x, c, b);
    InsertBehindRun(cmp, x, c, b);
  }

  lemma SortedTail<T>(cmp: (T, T) -> int, s: seq<T>)
    requires Sorted(cmp, s) && s != []
    ensures Sorted(cmp, s[1..])
  {
  }

  /** Sorting the reverse of a sorted sequence reverses each run of equals. */
  lemma {:induction false} SortReverseIsReverseRuns<T(!new)>(cmp: (T, T) -> int, s: seq<T>)
    requires TotalPreorder(cmp) && Sorted(cmp, s)
    ensures StableSort(cmp, Reverse(s)) == ReverseRuns(cmp, s)
    decreases |s|
  {
    if s != [] {
      hide StableSort, ReverseRuns, InsertAfterEquals, Reverse, TotalPreorder, Sorted;
      SortedTail(cmp, s);
      SortReverseIsReverseRuns(cmp, s[1..]);
      var c, b := RestOfFirstRun(cmp, s);
      SortReverseStep(cmp, s[0], s[1..], c, b);
      assert [s[0]] + s[1..] == s;
    }
  }

  lemma RestOfFirstRun<T(!new)>(cmp: (T, T) -> int, s: seq<T>) returns (c: seq<T>, b: seq<T>)
    requires TotalPreorder(cmp) && Sorted(cmp, s) && s != []
    ensures s[1..] == c + b
    ensures forall i :: 0 <= i < |c| ==> cmp(s[0], c[i]) == 0
    ensures forall i :: 0 <= i < |b| ==> cmp(s[0], b[i]) < 0
  {
    hide Sorted, TotalPreorder;
    var a;
    a, b := FirstRun(cmp, s);
    c := a[1..];
  }

  lemma SortReverseStep<T(!new)>(cmp: (T, T) -> int, x: T, rest: seq<T>, c: seq<T>, b: seq<T>)
    requires TotalPreorder(cmp) && rest == c + b
    requires forall i :: 0 <= i < |c| ==> cmp(x, c[i]) == 0
    requires forall i :: 0 <= i < |b| ==> cmp(x, b[i]) < 0
    requires StableSort(cmp, Reverse(rest)) == ReverseRuns(cmp, rest)
    ensures StableSort(cmp, Reverse([x] + rest)) == ReverseRuns(cmp, [x] + rest)
  {
    hide StableSort, ReverseRuns, InsertAfterEquals, Reverse, TotalPreorder;
    StableSortPush(cmp, Reverse(rest), x);
    ReversePush(x, rest);
    ReverseRunsPush(cmp, x, c, b);
    assert [x] + rest == ([x] + c) + b;
  }

  /** Reversing the runs of a sorted sequence twice restores it. */
  lemma {:induction false} ReverseRunsTwice<T(!new)>(cmp: (T, T) -> int, s: seq<T>)
    requires TotalPreorder(cmp) && Sorted(cmp, s)
    ensures ReverseRuns(cmp, ReverseRuns(cmp, s)) == s
    decreases |s|
  {
    if s != [] {
      var x := s[0];
      var a, b := FirstRun(cmp, s);
      var rest := ReverseRuns(cmp, b);
      RunThenRest(cmp, x, a, b);
      ReverseRunsGreater(cmp, b, x);
      ReverseAt(a);
      RunThenRest(cmp, x, Reverse(a), rest);
      ReverseRunsTwice(cmp, b);
      ReverseTwice(a);
    }
  }
}
