/** The order of a list: it stays the stable sort of what was added and not removed, and what a copy does to it. */
module ListOrder {
  import opened Options
  import opened ListModel
  import opened Sorting

  // Sorted lists

  function ByValue<V>(cmp: (V, V) -> int): (Item<V>, Item<V>) -> int {
    (x: Item<V>, y: Item<V>) => cmp(x.value, y.value)
  }

  /** Everything added in a run, in order. */
  ghost function Log<V, K>(ops: seq<Op<V, K>>): seq<Item<V>> {
    if ops == [] then []
    else
      var log := Log(ops[..|ops| - 1]);
      if ops[|ops| - 1].Add? then log + [Item(|log| + 1, ops[|ops| - 1].value)] else log
  }

  /** The entries of the log that are among the stored items, in the order they were added. */
  ghost function StillPresent<V(!new)>(log: seq<Item<V>>, items: seq<Item<V>>): (r: seq<Item<V>>)
    ensures forall x :: x in r <==> x in log && x in items
  {
    if log == [] then []
    else
      var n := |log| - 1;
      StillPresent(log[..n], items) + (if log[n] in items then [log[n]] else [])
  }

  /** Smaller value first; between equal values the one added first. */
  ghost predicate Before<V>(cmp: (V, V) -> int, x: Item<V>, y: Item<V>) {
    cmp(x.value, y.value) < 0 || (cmp(x.value, y.value) == 0 && x.id < y.id)
  }

  ghost predicate Ordered<V>(cmp: (V, V) -> int, s: seq<Item<V>>) {
    forall i, j :: 0 <= i < j < |s| ==> Before(cmp, s[i], s[j])
  }

  /** The walk back stops right behind the last element the new value may follow. */
  lemma {:induction false} WalkBackStops<V>(cmp: (V, V) -> int, items: seq<Item<V>>, v: V, p: int)
    requires -1 <= p < |items|
    ensures var q := WalkBack(cmp, items, v, p);
            && (q >= 0 ==> cmp(v, items[q].value) >= 0)
            && (forall i :: q < i <= p ==> cmp(v, items[i].value) < 0)
    decreases p + 1
  {
    if p >= 0 && cmp(v, items[p].value) < 0 {
      WalkBackStops(cmp, items, v, p - 1);
    }
  }

  /** Where an add puts the new element, in every mode: second without a comparator, and with one behind the first
      element, walking back from `last`, that is not greater. `last` moves on when the element goes before its node or
      right behind it. */
  lemma AddPlaces<V, K>(cfg: Config<V, K>, s: State<V>, v: V) returns (pos: nat)
    requires Wf(s)
    ensures pos <= |s.items|
    ensures AddTo(cfg, s, v).items == s.items[..pos] + [Item(s.adds + 1, v)] + s.items[pos..]
    ensures AddTo(cfg, s, v).last == if s.last >= pos - 1 then s.last + 1 else s.last
    ensures cfg.sort.None? ==> pos == if s.items == [] then 0 else 1
    ensures cfg.sort.Some? ==>
              && pos <= s.last + 1
              && (pos > 0 ==> cfg.sort.value(v, s.items[pos - 1].value) >= 0)
              && forall i :: pos <= i <= s.last ==> cfg.sort.value(v, s.items[i].value) < 0
  {
    pos := Predecessor(cfg, s, v) + 1;
    if cfg.sort.Some? {
      WalkBackStops(cfg.sort.value, s.items, v, s.last);
    }
  }

  lemma InsertKeepsOrdered<V(!new)>(cmp: (V, V) -> int, s: seq<Item<V>>, k: nat, x: Item<V>)
    requires TotalPreorder(cmp) && Ordered(cmp, s) && k <= |s|
    requires forall i :: 0 <= i < |s| ==> s[i].id < x.id
    requires k > 0 ==> cmp(s[k - 1].value, x.value) <= 0
    requires forall i :: k <= i < |s| ==> cmp(x.value, s[i].value) < 0
    ensures Ordered(cmp, InsertAt(s, k, x))
  {
    var r := InsertAt(s, k, x);
    forall i | 0 <= i < k ensures Before(cmp, s[i], x) {
      if i < k - 1 {
        assert Before(cmp, s[i], s[k - 1]);
        Trans(cmp, s[i].value, s[k - 1].value, x.value);
      }
    }
    forall i, j | 0 <= i < j < |r| ensures Before(cmp, r[i], r[j]) {
    }
  }

  lemma AddKeepsOrdered<V(!new), K>(cfg: Config<V, K>, cmp: (V, V) -> int, s: State<V>, v: V)
    requires Wf(s) && cfg.sort == Some(cmp) && TotalPreorder(cmp)
    requires s.last == |s.items| - 1 && Ordered(cmp, s.items)
    ensures Ordered(cmp, AddTo(cfg, s, v).items)
  {
    WalkBackStops(cmp, s.items, v, s.last);
    var k := Predecessor(cfg, s, v) + 1;
    hide TotalPreorder, Ordered, InsertAt, WalkBack;
    if k > 0 {
      Flip(cmp, s.items[k - 1].value, v);
    }
    InsertKeepsOrdered(cmp, s.items, k, Item(s.adds + 1, v));
  }

  lemma DropKeepsOrdered<V>(cmp: (V, V) -> int, s: seq<Item<V>>, i: nat)
    requires Ordered(cmp, s) && i < |s|
    ensures Ordered(cmp, s[..i] + s[i + 1..])
  {
  }

  lemma StepKeepsOrdered<V(!new), K>(cfg: Config<V, K>, cmp: (V, V) -> int, s: State<V>, op: Op<V, K>)
    requires Wf(s) && cfg.norecent >= 0 && cfg.sort == Some(cmp) && TotalPreorder(cmp)
    requires s.last == |s.items| - 1 && Ordered(cmp, s.items)
    ensures Ordered(cmp, Step(cfg, s, op).items)
  {
    hide Wf, Ordered, AddTo, Find, TotalPreorder;
    match op
    case Add(v) => AddKeepsOrdered(cfg, cmp, s, v);
    case Get(k) =>
    case Remove(k) =>
      var found := Find(cfg, s, k);
      if found.Some? {
        DropKeepsOrdered(cmp, s.items, found.value);
      }
  }

  /** Every run leaves the list ordered, holding only what was added. */
  lemma {:induction false} RunOrdered<V(!new), K>(cfg: Config<V, K>, cmp: (V, V) -> int, ops: seq<Op<V, K>>)
    requires cfg.norecent >= 0 && cfg.sort == Some(cmp) && TotalPreorder(cmp)
    ensures Ordered(cmp, Run(cfg, ops).items)
  {
    if ops != [] {
      hide Wf, Ordered, Step, TotalPreorder;
      var before := ops[..|ops| - 1];
      RunOrdered(cfg, cmp, before);
      LastIsTail(cfg, before);
      StepKeepsOrdered(cfg, cmp, Run(cfg, before), ops[|ops| - 1]);
    }
  }

  // What a step brings in and loses, in every mode

  ghost predicate Takes<V(!new), K>(cfg: Config<V, K>, key: K, before: multiset<Item<V>>, after: multiset<Item<V>>) {
    exists x :: x in before && cfg.matches(x.value, key) && before == after + multiset{x}
  }

  ghost predicate SomeMatch<V(!new), K>(cfg: Config<V, K>, key: K, items: multiset<Item<V>>) {
    exists x :: x in items && cfg.matches(x.value, key)
  }

  /** An add brings in one element, a lookup none; a removal takes out one that matches, if there is any. */
  ghost predicate ItemStep<V(!new), K>(cfg: Config<V, K>, adds: nat, before: multiset<Item<V>>, op: Op<V, K>,
                                       after: multiset<Item<V>>)
  {
    match op
    case Add(v) => after == before + multiset{Item(adds + 1, v)}
    case Get(_) => after == before
    case Remove(k) => if SomeMatch(cfg, k, before) then Takes(cfg, k, before, after) else after == before
  }

  lemma StepItems<V(!new), K>(cfg: Config<V, K>, s: State<V>, op: Op<V, K>)
    requires Wf(s)
    ensures ItemStep(cfg, s.adds, multiset(s.items), op, multiset(Step(cfg, s, op).items))
    ensures Step(cfg, s, op).adds == if op.Add? then s.adds + 1 else s.adds
  {
    hide Wf, Find, AddTo, MoveToFront, RemoveAt, SomeMatch, Takes;
    match op
    case Add(v) => AddItems(cfg, s, v);
    case Get(k) => GetItems(cfg, s, k);
    case Remove(k) =>
      GetItems(cfg, s, k);
      var (t, found) := GetFrom(cfg, s, k);
      if found.Some? {
        RemoveItems(t, found.value);
        TakesOne(cfg, k, multiset(t.items), multiset(RemoveAt(t, found.value).items), t.items[found.value]);
      }
  }

  lemma TakesOne<V(!new), K>(cfg: Config<V, K>, key: K, before: multiset<Item<V>>, after: multiset<Item<V>>, x: Item<V>)
    requires cfg.matches(x.value, key) && before == after + multiset{x}
    ensures SomeMatch(cfg, key, before) && Takes(cfg, key, before, after)
  {
    assert x in before;
  }

  lemma AddItems<V, K>(cfg: Config<V, K>, s: State<V>, v: V)
    requires Wf(s)
    ensures multiset(AddTo(cfg, s, v).items) == multiset(s.items) + multiset{Item(s.adds + 1, v)}
    ensures AddTo(cfg, s, v).adds == s.adds + 1
  {
    var pos := AddToItems(cfg, s, v);
    hide AddTo, Wf, InsertAt;
    InsertAtMembers(s.items, pos, Item(s.adds + 1, v));
  }

  lemma AddToItems<V, K>(cfg: Config<V, K>, s: State<V>, v: V) returns (pos: nat)
    requires Wf(s)
    ensures pos <= |s.items| && AddTo(cfg, s, v).items == InsertAt(s.items, pos, Item(s.adds + 1, v))
    ensures AddTo(cfg, s, v).adds == s.adds + 1
  {
    pos := Predecessor(cfg, s, v) + 1;
    hide Wf, InsertAt, Predecessor;
  }

  lemma FoundOrNoMatch<V(!new), K>(cfg: Config<V, K>, s: State<V>, k: K)
    ensures Find(cfg, s, k).Some? <==> SomeMatch(cfg, k, multiset(s.items))
    ensures Find(cfg, s, k).Some? ==> cfg.matches(s.items[Find(cfg, s, k).value].value, k)
  {
    hide Find;
    FindAgreesWithScan(cfg, s, k);
    var found := Find(cfg, s, k);
    if found.Some? {
      assert s.items[found.value] in multiset(s.items);
    } else {
      forall x | x in multiset(s.items) ensures !cfg.matches(x.value, k) {
        assert x in s.items;
      }
    }
  }

  /** A lookup keeps the elements, and finds a matching one when there is any. */
  lemma GetItems<V(!new), K>(cfg: Config<V, K>, s: State<V>, k: K)
    requires Wf(s)
    ensures var (t, found) := GetFrom(cfg, s, k);
            && multiset(t.items) == multiset(s.items) && t.adds == s.adds
            && (found.Some? <==> SomeMatch(cfg, k, multiset(s.items)))
            && (found.Some? ==> cfg.matches(t.items[found.value].value, k))
  {
    hide Wf, Find, SomeMatch;
    FoundOrNoMatch(cfg, s, k);
    var found := Find(cfg, s, k);
    if found.Some? && found.value != 0 {
      MovedItems(s.items, found.value);
    }
  }

  lemma MovedItems<T>(s: seq<T>, i: nat)
    requires i < |s|
    ensures multiset([s[i]] + s[..i] + s[i + 1..]) == multiset(s)
  {
    assert s == s[..i] + [s[i]] + s[i + 1..];
  }

  lemma RemoveItems<V>(s: State<V>, i: nat)
    requires Wf(s) && i < |s.items|
    ensures multiset(s.items) == multiset(RemoveAt(s, i).items) + multiset{s.items[i]}
    ensures RemoveAt(s, i).adds == s.adds
  {
    hide Wf;
    assert s.items == s.items[..i] + [s.items[i]] + s.items[i + 1..];
  }

  /** Only an add brings in an element, and it brings in one. */
  lemma StepMembers<V(!new), K>(cfg: Config<V, K>, s: State<V>, op: Op<V, K>)
    requires Wf(s)
    ensures forall x :: x in Step(cfg, s, op).items ==> x in s.items || (op.Add? && x == Item(s.adds + 1, op.value))
    ensures Step(cfg, s, op).adds == if op.Add? then s.adds + 1 else s.adds
  {
    hide Wf, Step, ItemStep;
    StepItems(cfg, s, op);
    var t := Step(cfg, s, op);
    forall x | x in t.items ensures x in s.items || (op.Add? && x == Item(s.adds + 1, op.value)) {
      assert x in multiset(t.items);
      ItemStepMember(cfg, s.adds, multiset(s.items), op, multiset(t.items), x);
    }
  }

  lemma ItemStepMember<V(!new), K>(cfg: Config<V, K>, adds: nat, before: multiset<Item<V>>, op: Op<V, K>,
                                   after: multiset<Item<V>>, x: Item<V>)
    requires ItemStep(cfg, adds, before, op, after)
    ensures x in after ==> x in before || (op.Add? && x == Item(adds + 1, op.value))
    ensures x in before && x !in after ==> op.Remove? && cfg.matches(x.value, op.key)
  {
    hide SomeMatch;
  }

  /** An element that a step loses was taken out by a removal whose key it matches. */
  lemma StepLoses<V(!new), K>(cfg: Config<V, K>, s: State<V>, op: Op<V, K>, x: Item<V>)
    requires Wf(s) && x in s.items && x !in Step(cfg, s, op).items
    ensures op.Remove? && cfg.matches(x.value, op.key)
  {
    hide Wf, Step, ItemStep;
    StepItems(cfg, s, op);
    var t := Step(cfg, s, op);
    assert x in multiset(s.items) && x !in multiset(t.items);
    ItemStepMember(cfg, s.adds, multiset(s.items), op, multiset(t.items), x);
  }

  /** In every run and every mode: what was added and is no longer there was taken out by a removal whose key it
      matches. */
  lemma {:induction false} LostByRemoval<V(!new), K>(cfg: Config<V, K>, ops: seq<Op<V, K>>, x: Item<V>) returns (i: nat)
    requires x in Log(ops) && x !in Run(cfg, ops).items
    ensures i < |ops| && ops[i].Remove? && cfg.matches(x.value, ops[i].key)
    ensures x in Run(cfg, ops[..i]).items && x !in Run(cfg, ops[..i + 1]).items
  {
    hide Wf, Step, Run, Log;
    EmptyLog<V, K>();
    var n := |ops| - 1;
    var before, op := ops[..n], ops[n];
    assert ops == before + [op] && ops[..n + 1] == ops;
    RunPush(cfg, before, op);
    LogPush(before, op);
    if x in Run(cfg, before).items {
      StepLoses(cfg, Run(cfg, before), op, x);
      i := n;
    } else {
      if x !in Log(before) {
        RunFromLog(cfg, before);
        AddedIsThere(cfg, Run(cfg, before), op.value);
        assert false;
      }
      i := LostByRemoval(cfg, before, x);
      assert before[..i] == ops[..i] && before[..i + 1] == ops[..i + 1];
    }
  }

  lemma AddedIsThere<V(!new), K>(cfg: Config<V, K>, s: State<V>, v: V)
    requires Wf(s)
    ensures Item(s.adds + 1, v) in Step(cfg, s, Op.Add(v)).items
  {
    hide Wf, AddTo;
    AddItems(cfg, s, v);
    assert Item(s.adds + 1, v) in multiset(AddTo(cfg, s, v).items);
  }

  lemma EmptyLog<V, K>()
    ensures Log<V, K>([]) == []
  {
  }

  lemma LogPush<V, K>(ops: seq<Op<V, K>>, op: Op<V, K>)
    ensures Log(ops + [op]) == if op.Add? then Log(ops) + [Item(|Log(ops)| + 1, op.value)] else Log(ops)
  {
    var all := ops + [op];
    assert all != [] && all[..|all| - 1] == ops && all[|all| - 1] == op;
  }

  /** What is stored was added, under its add number. */
  ghost predicate FromLog<V>(log: seq<Item<V>>, s: State<V>) {
    && |log| == s.adds
    && (forall x :: x in s.items ==> x in log)
    && (forall i {:trigger log[i]} :: 0 <= i < |log| ==> log[i].id == i + 1)
  }

  lemma {:induction false} RunFromLog<V(!new), K>(cfg: Config<V, K>, ops: seq<Op<V, K>>)
    ensures FromLog(Log(ops), Run(cfg, ops))
  {
    if ops != [] {
      hide Wf, Step, Run, Log, FromLog;
      var before, op := ops[..|ops| - 1], ops[|ops| - 1];
      assert ops == before + [op];
      RunFromLog(cfg, before);
      RunPush(cfg, before, op);
      LogPush(before, op);
      FromLogStep(cfg, Log(before), Run(cfg, before), op);
    }
  }

  lemma FromLogStep<V(!new), K>(cfg: Config<V, K>, log: seq<Item<V>>, s: State<V>, op: Op<V, K>)
    requires Wf(s) && FromLog(log, s)
    ensures FromLog(if op.Add? then log + [Item(|log| + 1, op.value)] else log, Step(cfg, s, op))
  {
    hide Wf, Step;
    StepMembers(cfg, s, op);
  }

  ghost predicate Increasing<V>(s: seq<Item<V>>, bound: nat) {
    && (forall i :: 0 <= i < |s| ==> s[i].id <= bound)
    && (forall i, j :: 0 <= i < j < |s| ==> s[i].id < s[j].id)
  }

  lemma {:induction false} StillPresentIncreasing<V(!new)>(log: seq<Item<V>>, items: seq<Item<V>>)
    requires forall i :: 0 <= i < |log| ==> log[i].id == i + 1
    ensures Increasing(StillPresent(log, items), |log|)
  {
    if log != [] {
      StillPresentIncreasing(log[..|log| - 1], items);
    }
  }

  lemma {:induction false} SortOrdered<V(!new)>(cmp: (V, V) -> int, s: seq<Item<V>>, bound: nat)
    requires TotalPreorder(cmp) && Increasing(s, bound)
    ensures Ordered(cmp, StableSort(ByValue(cmp), s))
    ensures multiset(StableSort(ByValue(cmp), s)) == multiset(s)
  {
    if s != [] {
      var init, x := s[..|s| - 1], s[|s| - 1];
      assert s == init + [x];
      SortOrdered(cmp, init, bound);
      var t := StableSort(ByValue(cmp), init);
      InsertMembers(ByValue(cmp), t, x);
      forall i | 0 <= i < |t| ensures t[i].id < x.id {
        assert t[i] in multiset(init);
      }
      var k := InsertPositionOrdered(cmp, t, x);
      InsertKeepsOrdered(cmp, t, k, x);
    }
  }

  lemma {:induction false} InsertPositionOrdered<V(!new)>(cmp: (V, V) -> int, s: seq<Item<V>>, x: Item<V>)
    returns (k: nat)
    requires TotalPreorder(cmp) && Ordered(cmp, s)
    ensures k <= |s| && InsertAfterEquals(ByValue(cmp), s, x) == InsertAt(s, k, x)
    ensures k > 0 ==> cmp(s[k - 1].value, x.value) <= 0
    ensures forall i :: k <= i < |s| ==> cmp(x.value, s[i].value) < 0
  {
    hide TotalPreorder, InsertAt;
    if s == [] || cmp(x.value, s[0].value) < 0 {
      k := 0;
      InsertFirst(s, x);
      forall i | 0 < i < |s| ensures cmp(x.value, s[i].value) < 0 {
        assert Before(cmp, s[0], s[i]);
        Trans(cmp, x.value, s[0].value, s[i].value);
      }
    } else {
      OrderedTail(cmp, s);
      var j := InsertPositionOrdered(cmp, s[1..], x);
      k := j + 1;
      Flip(cmp, s[0].value, x.value);
      InsertLater(s, j, x);
      forall i | k <= i < |s| ensures cmp(x.value, s[i].value) < 0 {
        assert s[1..][i - 1] == s[i];
      }
    }
  }

  lemma InsertFirst<T>(s: seq<T>, x: T)
    ensures InsertAt(s, 0, x) == [x] + s
  {
  }

  lemma InsertLater<T>(s: seq<T>, j: nat, x: T)
    requires j < |s|
    ensures [s[0]] + InsertAt(s[1..], j, x) == InsertAt(s, j + 1, x)
  {
    assert s[..j + 1] == [s[0]] + s[1..][..j];
  }

  lemma OrderedTail<V>(cmp: (V, V) -> int, s: seq<Item<V>>)
    requires Ordered(cmp, s) && s != []
    ensures Ordered(cmp, s[1..])
  {
  }

  /** An ordered sequence is determined by its elements. */
  lemma {:induction false} OrderedUnique<V(!new)>(cmp: (V, V) -> int, a: seq<Item<V>>, b: seq<Item<V>>)
    requires TotalPreorder(cmp) && Ordered(cmp, a) && Ordered(cmp, b)
    requires forall x :: x in a <==> x in b
    ensures a == b
  {
    assert forall i :: 0 <= i < |a| ==> a[i] in b;
    assert forall i :: 0 <= i < |b| ==> b[i] in a;
    if a != [] && b != [] {
      if a[0] != b[0] {
        assert Before(cmp, a[0], b[0]) && Before(cmp, b[0], a[0]);
        Flip(cmp, a[0].value, b[0].value);
        assert false;
      }
      assert !Before(cmp, a[0], a[0]) by { Flip(cmp, a[0].value, a[0].value); }
      assert a[0] !in a[1..] && b[0] !in b[1..];
      forall x ensures x in a[1..] <==> x in b[1..] {
        assert x in a <==> x == a[0] || x in a[1..];
        assert x in b <==> x == b[0] || x in b[1..];
      }
      OrderedUnique(cmp, a[1..], b[1..]);
    }
  }

  lemma SameMembers<T(!new)>(a: seq<T>, b: seq<T>)
    requires multiset(a) == multiset(b)
    ensures forall x :: x in a <==> x in b
  {
    forall x ensures x in a <==> x in b {
      assert x in a <==> x in multiset(a);
    }
  }

  /** An ordered list of log entries is the stable sort of those entries. */
  lemma OrderedIsStableSort<V(!new)>(cmp: (V, V) -> int, log: seq<Item<V>>, items: seq<Item<V>>)
    requires TotalPreorder(cmp) && Ordered(cmp, items)
    requires forall x :: x in items ==> x in log
    requires forall i :: 0 <= i < |log| ==> log[i].id == i + 1
    ensures items == StableSort(ByValue(cmp), StillPresent(log, items))
  {
    var present := StillPresent(log, items);
    StillPresentIncreasing(log, items);
    SortOrdered(cmp, present, |log|);
    SameMembers(StableSort(ByValue(cmp), present), present);
    OrderedUnique(cmp, items, StableSort(ByValue(cmp), present));
  }

  /** Outside move-to-front mode, and with a lawful comparator, every run of adds, lookups and removals
      leaves exactly the stable sort of the added values still present, in the order they were added. */
  lemma RunIsStableSort<V(!new), K>(cfg: Config<V, K>, cmp: (V, V) -> int, ops: seq<Op<V, K>>)
    requires cfg.norecent >= 0 && cfg.sort == Some(cmp) && TotalPreorder(cmp)
    ensures Run(cfg, ops).items == StableSort(ByValue(cmp), StillPresent(Log(ops), Run(cfg, ops).items))
  {
    RunOrdered(cfg, cmp, ops);
    RunFromLog(cfg, ops);
    OrderedIsStableSort(cmp, Log(ops), Run(cfg, ops).items);
  }

  // Copies

  /** Adds the values one after another. */
  ghost function AddAll<V, K>(cfg: Config<V, K>, s: State<V>, vs: seq<V>): (r: State<V>)
    requires Wf(s)
    ensures Wf(r)
  {
    if vs == [] then s else AddTo(cfg, AddAll(cfg, s, vs[..|vs| - 1]), vs[|vs| - 1])
  }

  /** What duplicating copies: the values from the first element to the one `last` points to. */
  function Copied<V>(s: State<V>): seq<V>
    requires -1 <= s.last < |s.items|
  {
    Values(s.items)[..s.last + 1]
  }

  ghost function Duplicated<V, K>(cfg: Config<V, K>, s: State<V>): (r: State<V>)
    requires Wf(s)
    ensures Wf(r)
  {
    AddAll(cfg, Empty(), Reverse(Copied(s)))
  }

  lemma AddAllPush<V, K>(cfg: Config<V, K>, s: State<V>, vs: seq<V>, v: V)
    requires Wf(s)
    ensures AddAll(cfg, s, vs + [v]) == AddTo(cfg, AddAll(cfg, s, vs), v)
  {
    assert (vs + [v])[..|vs|] == vs;
  }

  lemma AddValues<V, K>(cfg: Config<V, K>, s: State<V>, v: V)
    requires Wf(s)
    ensures Values(AddTo(cfg, s, v).items) == InsertAt(Values(s.items), Predecessor(cfg, s, v) + 1, v)
  {
    ValuesInsert(s.items, Predecessor(cfg, s, v) + 1, Item(s.adds + 1, v));
    hide InsertAt, Wf;
  }

  lemma ValuesInsert<V>(items: seq<Item<V>>, pos: nat, x: Item<V>)
    requires pos <= |items|
    ensures Values(InsertAt(items, pos, x)) == InsertAt(Values(items), pos, x.value)
  {
    hide InsertAt;
    InsertAtPoints(items, pos, x);
    InsertAtPoints(Values(items), pos, x.value);
  }

  /** A list built by adds alone has `last` at its tail in every mode. */
  lemma {:induction false} AddAllLast<V, K>(cfg: Config<V, K>, vs: seq<V>)
    ensures AddAll(cfg, Empty(), vs).last == |vs| - 1 == |AddAll(cfg, Empty(), vs).items| - 1
  {
    if vs != [] {
      AddAllLast(cfg, vs[..|vs| - 1]);
    }
  }

  function RotateRight<T>(s: seq<T>): (r: seq<T>)
    ensures |r| == |s|
  {
    if s == [] then [] else [s[|s| - 1]] + s[..|s| - 1]
  }

  /** The place behind the first element, or the only place there is. */
  lemma SecondPlace<T>(s: seq<T>, x: T)
    ensures InsertAt(s, if s == [] then 0 else 1, x) == if s == [] then [x] else [s[0]] + [x] + s[1..]
  {
    if s != [] {
      assert s[..1] == [s[0]];
    }
  }

  /** Without a comparator a new value goes second, behind the first, not to the front. */
  lemma UnsortedAddIsSecond<V, K>(cfg: Config<V, K>, s: State<V>, v: V)
    requires Wf(s) && cfg.sort == None
    ensures var vs := Values(s.items);
            Values(AddTo(cfg, s, v).items) == if vs == [] then [v] else [vs[0]] + [v] + vs[1..]
  {
    hide AddTo, Wf, InsertAt;
    AddValues(cfg, s, v);
    SecondPlace(Values(s.items), v);
  }

  // The order of unsorted lists

  /** Behind the first element the later added comes first. */
  ghost predicate NewestFirst<V>(items: seq<Item<V>>) {
    forall i, j {:trigger items[i].id, items[j].id} :: 1 <= i < j < |items| ==> items[i].id > items[j].id
  }

  lemma AddNewestFirst<V, K>(cfg: Config<V, K>, s: State<V>, v: V)
    requires Wf(s) && cfg.sort == None && NewestFirst(s.items)
    ensures NewestFirst(AddTo(cfg, s, v).items)
    ensures s.items != [] ==> AddTo(cfg, s, v).items[0] == s.items[0]
  {
    var pos := AddPlaces(cfg, s, v);
  }

  lemma RemoveNewestFirst<V, K>(cfg: Config<V, K>, s: State<V>, key: K)
    requires Wf(s) && cfg.norecent >= 0 && NewestFirst(s.items)
    ensures NewestFirst(RemoveFrom(cfg, s, key).items)
    ensures s.items != [] && s.items[0] in RemoveFrom(cfg, s, key).items ==>
              RemoveFrom(cfg, s, key).items[0] == s.items[0]
  {
    hide RemoveFrom, Find, Answers;
    RemoveAnswers(cfg, s, key);
  }

  lemma StepNewestFirst<V, K>(cfg: Config<V, K>, s: State<V>, op: Op<V, K>)
    requires Wf(s) && cfg.norecent >= 0 && cfg.sort == None && NewestFirst(s.items)
    ensures var t := Step(cfg, s, op);
            && NewestFirst(t.items)
            && (s.items != [] && s.items[0] in t.items ==> t.items[0] == s.items[0])
  {
    hide Wf, NewestFirst, AddTo, RemoveFrom, Find;
    match op
    case Add(v) => AddNewestFirst(cfg, s, v);
    case Get(k) =>
    case Remove(k) => RemoveNewestFirst(cfg, s, k);
  }

  /** Over every run of an unsorted list outside move-to-front mode the elements behind the first are in the order they
      were added, the newest first. */
  lemma {:induction false} RunNewestFirst<V, K>(cfg: Config<V, K>, ops: seq<Op<V, K>>)
    requires cfg.norecent >= 0 && cfg.sort == None
    ensures NewestFirst(Run(cfg, ops).items)
  {
    if ops != [] {
      hide Wf, NewestFirst, Step;
      RunNewestFirst(cfg, ops[..|ops| - 1]);
      StepNewestFirst(cfg, Run(cfg, ops[..|ops| - 1]), ops[|ops| - 1]);
    }
  }

  /** The first element stays first as long as it is there. */
  lemma {:induction false} FirstStays<V(!new), K>(cfg: Config<V, K>, ops: seq<Op<V, K>>, i: nat, x: Item<V>)
    requires cfg.norecent >= 0 && cfg.sort == None && i <= |ops|
    requires Run(cfg, ops[..i]).items != [] && Run(cfg, ops[..i]).items[0] == x
    ensures x in Run(cfg, ops).items <==> Run(cfg, ops).items != [] && Run(cfg, ops).items[0] == x
    ensures x.id <= Run(cfg, ops).adds
  {
    hide Step, NewestFirst;
    if i == |ops| {
      assert ops[..i] == ops;
    } else {
      var before, op := ops[..|ops| - 1], ops[|ops| - 1];
      assert before[..i] == ops[..i];
      FirstStays(cfg, before, i, x);
      RunNewestFirst(cfg, before);
      StepMembers(cfg, Run(cfg, before), op);
      StepNewestFirst(cfg, Run(cfg, before), op);
    }
  }

  /** So the first is the oldest of all exactly when it is older than the last. */
  lemma OldestFirst<V>(items: seq<Item<V>>)
    requires NewestFirst(items) && |items| >= 2
    ensures (forall i :: 1 <= i < |items| ==> items[0].id < items[i].id) <==> items[0].id < items[|items| - 1].id
  {
    if items[0].id < items[|items| - 1].id {
      forall i | 1 <= i < |items| ensures items[0].id < items[i].id {
        assert i < |items| - 1 ==> items[i].id > items[|items| - 1].id;
      }
    }
  }

  /** Removing the first of three or more puts a newer element before the oldest. */
  lemma HeadRemoved<V, K>(cfg: Config<V, K>, s: State<V>, key: K)
    requires Wf(s) && cfg.norecent >= 0 && NewestFirst(s.items) && |s.items| >= 3 && Answers(cfg, s, key, 0)
    ensures var items := RemoveFrom(cfg, s, key).items;
            items == s.items[1..] && items[0].id > items[|items| - 1].id
  {
    hide RemoveFrom, Find, Answers, NoneMatches;
    FindIs(cfg, s, key, 0);
    RemoveAnswers(cfg, s, key);
    assert s.items[1].id > s.items[|s.items| - 1].id;
  }

  /** Copying an unsorted list rotates the part from the first element to `last` right by one. */
  lemma DuplicateRotates<V, K>(cfg: Config<V, K>, s: State<V>)
    requires Wf(s) && cfg.sort == None
    ensures var vs := Values(s.items)[..s.last + 1];
            Values(Duplicated(cfg, s).items) == if vs == [] then [] else [vs[|vs| - 1]] + vs[..|vs| - 1]
  {
    AddReverseRotates(cfg, Copied(s));
  }

  lemma {:induction false} AddReverseRotates<V, K>(cfg: Config<V, K>, vs: seq<V>)
    requires cfg.sort == None
    ensures Values(AddAll(cfg, Empty(), Reverse(vs)).items) == RotateRight(vs)
  {
    if vs != [] {
      hide AddTo, Wf, RotateRight, AddAll, Reverse;
      var v, rest := vs[0], vs[1..];
      AddReverseRotates(cfg, rest);
      var s := AddAll(cfg, Empty(), Reverse(rest));
      assert [v] + rest == vs;
      ReversePush(v, rest);
      AddAllPush(cfg, Empty(), Reverse(rest), v);
      UnsortedAddIsSecond(cfg, s, v);
      RotateRightPush(v, rest);
    }
  }

  lemma RotateRightPush<T>(x: T, s: seq<T>)
    ensures var r := RotateRight(s);
            RotateRight([x] + s) == if r == [] then [x] else [r[0]] + [x] + r[1..]
  {
    if s != [] {
      assert RotateRight(s)[1..] == s[..|s| - 1];
      assert ([x] + s)[..|s|] == [x] + s[..|s| - 1];
    }
  }

  /** In a sorted sequence what may precede v's predecessor may precede v. */
  lemma NotGreaterBefore<V(!new)>(cmp: (V, V) -> int, vs: seq<V>, v: V, p: nat)
    requires TotalPreorder(cmp) && Sorted(cmp, vs) && p <= |vs| && (p > 0 ==> cmp(v, vs[p - 1]) >= 0)
    ensures forall i :: 0 <= i < p ==> cmp(v, vs[i]) >= 0
  {
    forall i | 0 <= i < p ensures cmp(v, vs[i]) >= 0 {
      Flip(cmp, vs[p - 1], v);
      if i < p - 1 {
        Trans(cmp, vs[i], vs[p - 1], v);
      }
      Flip(cmp, vs[i], v);
    }
  }

  lemma AddInsertsValue<V(!new), K>(cfg: Config<V, K>, cmp: (V, V) -> int, s: State<V>, v: V)
    requires Wf(s) && cfg.sort == Some(cmp) && TotalPreorder(cmp)
    requires s.last == |s.items| - 1 && Sorted(cmp, Values(s.items))
    ensures Values(AddTo(cfg, s, v).items) == InsertAfterEquals(cmp, Values(s.items), v)
  {
    hide AddTo, Wf, InsertAfterEquals, Sorted, TotalPreorder;
    var vs, p := Values(s.items), Predecessor(cfg, s, v) + 1;
    AddValues(cfg, s, v);
    WalkBackStops(cmp, s.items, v, s.last);
    NotGreaterBefore(cmp, vs, v, p);
    InsertBetween(cmp, vs[..p], vs[p..], v);
    assert vs == vs[..p] + vs[p..];
  }

  /** Adding values one by one to a sorted list is stable insertion sort. */
  lemma {:induction false} AddAllSorts<V(!new), K>(cfg: Config<V, K>, cmp: (V, V) -> int, vs: seq<V>)
    requires cfg.sort == Some(cmp) && TotalPreorder(cmp)
    ensures Values(AddAll(cfg, Empty(), vs).items) == StableSort(cmp, vs)
  {
    if vs != [] {
      var init := vs[..|vs| - 1];
      AddAllSorts(cfg, cmp, init);
      AddAllLast(cfg, init);
      StableSortIsStable(cmp, init, vs[0]);
      AddInsertsValue(cfg, cmp, AddAll(cfg, Empty(), init), vs[|vs| - 1]);
    }
  }

  /** With a comparator a copy is, in every mode and whatever the order of the list, the stable sort of the part up to
      `last` read backwards. */
  lemma DuplicateSorts<V(!new), K>(cfg: Config<V, K>, cmp: (V, V) -> int, s: State<V>)
    requires Wf(s) && cfg.sort == Some(cmp) && TotalPreorder(cmp)
    ensures Values(Duplicated(cfg, s).items) == StableSort(cmp, Reverse(Values(s.items)[..s.last + 1]))
  {
    AddAllSorts(cfg, cmp, Reverse(Copied(s)));
  }

  /** Copying a sorted list sorts the part up to `last` and reverses each run of equal values. */
  lemma DuplicateReversesRuns<V(!new), K>(cfg: Config<V, K>, cmp: (V, V) -> int, s: State<V>)
    requires Wf(s) && cfg.sort == Some(cmp) && TotalPreorder(cmp)
    requires Sorted(cmp, Values(s.items))
    ensures Values(Duplicated(cfg, s).items) == ReverseRuns(cmp, Values(s.items)[..s.last + 1])
    ensures Sorted(cmp, Values(Duplicated(cfg, s).items))
  {
    var vs := Copied(s);
    AddAllSorts(cfg, cmp, Reverse(vs));
    SortReverseIsReverseRuns(cmp, vs);
    if vs != [] {
      StableSortIsStable(cmp, Reverse(vs), vs[0]);
    }
  }

  /** Copying the copy of a sorted list whose `last` is its tail restores the original order. */
  lemma DuplicateTwiceRestores<V(!new), K>(cfg: Config<V, K>, cmp: (V, V) -> int, s: State<V>)
    requires Wf(s) && cfg.sort == Some(cmp) && TotalPreorder(cmp)
    requires Sorted(cmp, Values(s.items)) && s.last == |s.items| - 1
    ensures Values(Duplicated(cfg, Duplicated(cfg, s)).items) == Values(s.items)
  {
    hide *;
    var t := Duplicated(cfg, s);
    CopiedWhole(s);
    DuplicateReversesRuns(cfg, cmp, s);
    DuplicateLast(cfg, s);
    CopiedWhole(t);
    DuplicateReversesRuns(cfg, cmp, t);
    ReverseRunsTwice(cmp, Values(s.items));
  }

  lemma CopiedWhole<V>(s: State<V>)
    requires s.last == |s.items| - 1
    ensures Values(s.items)[..s.last + 1] == Values(s.items)
  {
  }

  lemma DuplicateLast<V, K>(cfg: Config<V, K>, s: State<V>)
    requires Wf(s)
    ensures Duplicated(cfg, s).last == |Duplicated(cfg, s).items| - 1
  {
    AddAllLast(cfg, Reverse(Copied(s)));
  }

  lemma RunSorted<V(!new), K>(cfg: Config<V, K>, cmp: (V, V) -> int, ops: seq<Op<V, K>>)
    requires cfg.norecent >= 0 && cfg.sort == Some(cmp) && TotalPreorder(cmp)
    ensures Sorted(cmp, Values(Run(cfg, ops).items))
  {
    hide Wf, Run;
    RunOrdered(cfg, cmp, ops);
    var items := Run(cfg, ops).items;
    forall i, j | 0 <= i < j < |items| ensures cmp(items[i].value, items[j].value) <= 0 {
      assert Before(cmp, items[i], items[j]);
    }
  }

  /** After every run outside move-to-front mode, a copy of an unsorted list is the list rotated right by one. */
  lemma CopyOfRunRotates<V, K>(cfg: Config<V, K>, ops: seq<Op<V, K>>)
    requires cfg.norecent >= 0 && cfg.sort == None
    ensures var vs := Values(Run(cfg, ops).items);
            Values(Duplicated(cfg, Run(cfg, ops)).items) == if vs == [] then [] else [vs[|vs| - 1]] + vs[..|vs| - 1]
  {
    hide *;
    var s := Run(cfg, ops);
    LastIsTail(cfg, ops);
    DuplicateRotates(cfg, s);
    assert Values(s.items)[..s.last + 1] == Values(s.items);
  }

  /** After every run outside move-to-front mode, a copy of a sorted list is the list with each run of
      equal values reversed, and a copy of the copy is the list again. */
  lemma CopyOfRunReversesRuns<V(!new), K>(cfg: Config<V, K>, cmp: (V, V) -> int, ops: seq<Op<V, K>>)
    requires cfg.norecent >= 0 && cfg.sort == Some(cmp) && TotalPreorder(cmp)
    ensures var s := Run(cfg, ops);
            && Values(Duplicated(cfg, s).items) == ReverseRuns(cmp, Values(s.items))
            && Values(Duplicated(cfg, Duplicated(cfg, s)).items) == Values(s.items)
  {
    hide Wf, Run, Duplicated;
    var s := Run(cfg, ops);
    LastIsTail(cfg, ops);
    RunSorted(cfg, cmp, ops);
    DuplicateReversesRuns(cfg, cmp, s);
    DuplicateTwiceRestores(cfg, cmp, s);
    assert Copied(s) == Values(s.items);
  }

  /** In every mode a copy holds exactly the values from the first element to `last`. */
  lemma DuplicateMembers<V, K>(cfg: Config<V, K>, s: State<V>)
    requires Wf(s)
    ensures multiset(Values(Duplicated(cfg, s).items)) == multiset(Values(s.items)[..s.last + 1])
    ensures |Duplicated(cfg, s).items| == s.last + 1
  {
    AddAllLast(cfg, Reverse(Copied(s)));
    AddAllMembers(cfg, Reverse(Copied(s)));
    ReverseMembers(Copied(s));
  }

  /** An unsorted list in move-to-front mode, after a lookup has moved the tail of three or more from where it was
      `last`: a copy has just two elements, the old head's value and the value found. */
  lemma CopyAfterTailMoved<V, K>(cfg: Config<V, K>, s: State<V>, key: K)
    requires Wf(s) && cfg.norecent == -1 && cfg.sort == None
    requires |s.items| >= 3 && s.last == |s.items| - 1 && Answers(cfg, s, key, s.last)
    ensures Values(Duplicated(cfg, GetFrom(cfg, s, key).0).items) == [s.items[0].value, s.items[s.last].value]
  {
    hide Duplicated, GetFrom, Find, Wf;
    GetAnswers(cfg, s, key);
    FindIs(cfg, s, key, s.last);
    var t := GetFrom(cfg, s, key).0;
    DuplicateRotates(cfg, t);
    assert Values(t.items)[..2] == [s.items[s.last].value, s.items[0].value];
  }

  /** When the found element and then the old head are removed, `last` is NULL although elements are left, and a copy is
      empty. */
  lemma LastIsLost<V, K>(cfg: Config<V, K>, s: State<V>, key: K, head: K)
    requires Wf(s) && cfg.norecent == -1
    requires |s.items| >= 3 && s.last == |s.items| - 1 && Answers(cfg, s, key, s.last)
    requires Answers(cfg, RemoveFrom(cfg, GetFrom(cfg, s, key).0, key), head, 0)
    ensures var t := RemoveFrom(cfg, RemoveFrom(cfg, GetFrom(cfg, s, key).0, key), head);
            t.items == s.items[1..|s.items| - 1] && t.last == -1 && Duplicated(cfg, t).items == []
  {
    hide Duplicated, GetFrom, RemoveFrom, Find, Wf, Answers, NoneMatches;
    GetAnswers(cfg, s, key);
    FindIs(cfg, s, key, s.last);
    var t := GetFrom(cfg, s, key).0;
    MatchAnswers(cfg, t, key);
    RemoveAnswers(cfg, t, key);
    FindIs(cfg, t, key, 0);
    var u := RemoveFrom(cfg, t, key);
    RemoveAnswers(cfg, u, head);
    FindIs(cfg, u, head, 0);
    DuplicateMembers(cfg, RemoveFrom(cfg, u, head));
  }

  /** In move-to-front mode a head that matches answers. */
  lemma MatchAnswers<V, K>(cfg: Config<V, K>, s: State<V>, key: K)
    requires cfg.norecent == -1 && s.items != []
    ensures Answers(cfg, s, key, 0) <==> cfg.matches(s.items[0].value, key)
  {
  }

  lemma {:induction false} AddAllMembers<V, K>(cfg: Config<V, K>, vs: seq<V>)
    ensures multiset(Values(AddAll(cfg, Empty(), vs).items)) == multiset(vs)
  {
    if vs != [] {
      var init, v := vs[..|vs| - 1], vs[|vs| - 1];
      AddAllMembers(cfg, init);
      var s := AddAll(cfg, Empty(), init);
      AddValues(cfg, s, v);
      InsertAtMembers(Values(s.items), Predecessor(cfg, s, v) + 1, v);
      assert vs == init + [v];
    }
  }

  lemma InsertAtMembers<T>(s: seq<T>, pos: nat, x: T)
    requires pos <= |s|
    ensures multiset(InsertAt(s, pos, x)) == multiset(s) + multiset{x}
  {
    assert s == s[..pos] + s[pos..];
  }
}
