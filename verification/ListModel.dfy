/** What each list operation does to the sequence of stored elements, and what every run of them keeps.
    The heap version of the same operations, proved equal to this one, is in LinkedList.dfy. */
module ListModel {
  import opened Options
  import opened Modulo

  // The `norecent` argument that asks for move-to-front instead of a ring.
  const REORDER := -1

  /** What `vanessa_list_create` fixes for the life of a list. `sort` is None for a NULL comparator. */
  datatype Config<!V, !K> = Config(norecent: int, matches: (V, K) -> bool, sort: Option<(V, V) -> int>)

  predicate Legal<V, K>(cfg: Config<V, K>) {
    cfg.norecent >= 0 || cfg.norecent == REORDER
  }

  /** A stored element, identified by the number of the add that created it, counting from 1. */
  datatype Item<V> = Item(id: nat, value: V)

  /** `last` is the position the C field `last` points to, -1 when it is NULL. */
  datatype State<V> = State(items: seq<Item<V>>, adds: nat, last: int)

  datatype Op<V, K> = Add(value: V) | Get(key: K) | Remove(key: K)

  ghost predicate Wf<V>(s: State<V>) {
    && -1 <= s.last < |s.items|
    && (forall i {:trigger s.items[i].id} :: 0 <= i < |s.items| ==> 1 <= s.items[i].id <= s.adds)
    && (forall i, j {:trigger s.items[i].id, s.items[j].id} ::
          0 <= i < j < |s.items| ==> s.items[i].id != s.items[j].id)
  }

  function Empty<V>(): (s: State<V>)
    ensures Wf(s)
  {
    State([], 0, -1)
  }

  function Values<V>(items: seq<Item<V>>): (vs: seq<V>)
    ensures |vs| == |items|
    ensures forall i :: 0 <= i < |vs| ==> vs[i] == items[i].value
  {
    seq(|items|, i requires 0 <= i < |items| => items[i].value)
  }

  // Add

  /** Where the walk back from position p stops: the nearest element the new value may follow. */
  function WalkBack<V>(cmp: (V, V) -> int, items: seq<Item<V>>, v: V, p: int): (q: int)
    requires -1 <= p < |items|
    ensures -1 <= q <= p
    decreases p + 1
  {
    if p >= 0 && cmp(v, items[p].value) < 0 then WalkBack(cmp, items, v, p - 1) else p
  }

  /** The position of the element that will precede the new one, -1 for none. */
  function Predecessor<V, K>(cfg: Config<V, K>, s: State<V>, v: V): (p: int)
    requires -1 <= s.last < |s.items|
    ensures -1 <= p < |s.items|
  {
    match cfg.sort
    case None => if s.items == [] then -1 else 0
    case Some(cmp) => WalkBack(cmp, s.items, v, s.last)
  }

  function InsertAt<T>(s: seq<T>, pos: nat, x: T): seq<T>
    requires pos <= |s|
  {
    s[..pos] + [x] + s[pos..]
  }

  lemma InsertAtPoints<T>(s: seq<T>, pos: nat, x: T)
    requires pos <= |s|
    ensures |InsertAt(s, pos, x)| == |s| + 1
    ensures forall i {:trigger InsertAt(s, pos, x)[i]} :: 0 <= i <= |s| ==>
              InsertAt(s, pos, x)[i] == if i < pos then s[i] else if i == pos then x else s[i - 1]
  {
  }

  /** A new item, wherever it goes, keeps the ids distinct and in range. */
  lemma InsertAtIds<V>(s: State<V>, pos: nat, v: V)
    requires Wf(s) && pos <= |s.items|
    ensures var t := InsertAt(s.items, pos, Item(s.adds + 1, v));
            && (forall i {:trigger t[i].id} :: 0 <= i < |t| ==> 1 <= t[i].id <= s.adds + 1)
            && (forall i, j {:trigger t[i].id, t[j].id} :: 0 <= i < j < |t| ==> t[i].id != t[j].id)
  {
    hide InsertAt;
    var x := Item(s.adds + 1, v);
    var t := InsertAt(s.items, pos, x);
    InsertAtPoints(s.items, pos, x);
    forall i | 0 <= i < |t| ensures 1 <= t[i].id <= s.adds + 1 {
      assert t[i] == x || t[i] == s.items[if i < pos then i else i - 1];
    }
    forall i, j | 0 <= i < j < |t| ensures t[i].id != t[j].id {
      assert i != pos ==> t[i] == s.items[if i < pos then i else i - 1];
      assert j != pos ==> t[j] == s.items[if j < pos then j else j - 1];
    }
  }

  ghost function AddTo<V, K>(cfg: Config<V, K>, s: State<V>, v: V): (r: State<V>)
    requires Wf(s)
    ensures Wf(r)
  {
    var pos := Predecessor(cfg, s, v) + 1;
    InsertAtIds(s, pos, v);
    State(InsertAt(s.items, pos, Item(s.adds + 1, v)),
          s.adds + 1,
          if pos - 1 == s.last then pos else if s.last >= pos then s.last + 1 else s.last)
  }

  // The ring of recently added elements

  /** The slot the add with this number writes: counting round a ring of n slots. */
  function SlotOf(adds: nat, n: nat): (j: nat)
    requires n > 0
    ensures j < n
  {
    if adds == 0 then 0
    else if SlotOf(adds - 1, n) + 1 == n then 0
    else SlotOf(adds - 1, n) + 1
  }

  /** The latest add, up to `adds`, that wrote slot j of a ring of n slots; 0 when there is none. */
  function Latest(adds: nat, n: nat, j: nat): (k: nat)
    requires n > 0
    ensures k <= adds
  {
    if adds == 0 then 0 else if SlotOf(adds, n) == j then adds else Latest(adds - 1, n, j)
  }

  function IndexOf<V>(items: seq<Item<V>>, id: nat): (r: Option<nat>)
    ensures r.Some? ==> r.value < |items| && items[r.value].id == id
    ensures r.None? ==> forall i :: 0 <= i < |items| ==> items[i].id != id
  {
    if items == [] then None
    else if items[|items| - 1].id == id then Some(|items| - 1)
    else IndexOf(items[..|items| - 1], id)
  }

  /** The position of the element slot j of a ring of n slots refers to, None for an empty slot. */
  function Slot<V>(s: State<V>, n: nat, j: nat): (r: Option<nat>)
    requires n > 0
    ensures r.Some? ==> r.value < |s.items|
  {
    IndexOf(s.items, Latest(s.adds, n, j))
  }

  // Lookup

  predicate Hit<V, K>(cfg: Config<V, K>, s: State<V>, key: K, j: nat)
    requires cfg.norecent > 0
  {
    var r := Slot(s, cfg.norecent, j);
    r.Some? && cfg.matches(s.items[r.value].value, key)
  }

  function RingFind<V, K>(cfg: Config<V, K>, s: State<V>, key: K, j: nat): (r: Option<nat>)
    ensures r.Some? ==> r.value < |s.items|
    decreases cfg.norecent - j
  {
    if j >= cfg.norecent then None
    else if Hit(cfg, s, key, j) then Slot(s, cfg.norecent, j)
    else RingFind(cfg, s, key, j + 1)
  }

  /** The first position from i on that matches. */
  function ScanFind<V, K>(cfg: Config<V, K>, items: seq<Item<V>>, key: K, i: nat): (r: Option<nat>)
    requires i <= |items|
    ensures r.Some? ==> i <= r.value < |items| && cfg.matches(items[r.value].value, key)
    ensures forall j :: i <= j < (if r.Some? then r.value else |items|) ==> !cfg.matches(items[j].value, key)
    decreases |items| - i
  {
    if i == |items| then None
    else if cfg.matches(items[i].value, key) then Some(i)
    else ScanFind(cfg, items, key, i + 1)
  }

  function Find<V, K>(cfg: Config<V, K>, s: State<V>, key: K): (r: Option<nat>)
    ensures r.Some? ==> r.value < |s.items|
  {
    var hit := RingFind(cfg, s, key, 0);
    if hit.Some? then hit else ScanFind(cfg, s.items, key, 0)
  }

  ghost function MoveToFront<V>(s: State<V>, i: nat): (r: State<V>)
    requires Wf(s) && 0 < i < |s.items|
    ensures Wf(r)
  {
    s.(items := [s.items[i]] + s.items[..i] + s.items[i + 1..],
       last := if s.last == i then 1 else if 0 <= s.last < i then s.last + 1 else s.last)
  }

  /** What a lookup leaves behind, and where the found element is then. */
  ghost function GetFrom<V, K>(cfg: Config<V, K>, s: State<V>, key: K): (r: (State<V>, Option<nat>))
    requires Wf(s)
    ensures Wf(r.0)
    ensures r.1.Some? ==> r.1.value < |r.0.items|
  {
    var found := Find(cfg, s, key);
    if found.Some? && cfg.norecent == REORDER && found.value != 0
    then (MoveToFront(s, found.value), Some(0))
    else (s, found)
  }

  ghost function RemoveAt<V>(s: State<V>, i: nat): (r: State<V>)
    requires Wf(s) && i < |s.items|
    ensures Wf(r)
  {
    s.(items := s.items[..i] + s.items[i + 1..], last := if s.last >= i then s.last - 1 else s.last)
  }

  ghost function RemoveFrom<V, K>(cfg: Config<V, K>, s: State<V>, key: K): (r: State<V>)
    requires Wf(s)
    ensures Wf(r)
  {
    var (t, found) := GetFrom(cfg, s, key);
    if found.Some? then RemoveAt(t, found.value) else t
  }

  // Runs

  ghost function Step<V, K>(cfg: Config<V, K>, s: State<V>, op: Op<V, K>): (r: State<V>)
    requires Wf(s)
    ensures Wf(r)
  {
    match op
    case Add(v) => AddTo(cfg, s, v)
    case Get(k) => GetFrom(cfg, s, k).0
    case Remove(k) => RemoveFrom(cfg, s, k)
  }

  /** The state every run of operations on a fresh list ends in. */
  ghost function Run<V, K>(cfg: Config<V, K>, ops: seq<Op<V, K>>): (s: State<V>)
    ensures Wf(s)
  {
    if ops == [] then Empty() else Step(cfg, Run(cfg, ops[..|ops| - 1]), ops[|ops| - 1])
  }

  lemma RunPush<V, K>(cfg: Config<V, K>, ops: seq<Op<V, K>>, op: Op<V, K>)
    ensures Run(cfg, ops + [op]) == Step(cfg, Run(cfg, ops), op)
  {
    assert (ops + [op])[..|ops|] == ops;
  }

  /** Outside move-to-front mode `last` is the tail after every run, NULL only when the list is empty. */
  lemma {:induction false} LastIsTail<V, K>(cfg: Config<V, K>, ops: seq<Op<V, K>>)
    requires cfg.norecent >= 0
    ensures Run(cfg, ops).last == |Run(cfg, ops).items| - 1
  {
    if ops != [] {
      LastIsTail(cfg, ops[..|ops| - 1]);
    }
  }

  // Properties of the ring

  /** Counting round the ring is taking the add number modulo its size. */
  lemma SlotOfIsMod(adds: nat, n: nat)
    requires n > 0
    ensures SlotOf(adds, n) == adds % n
  {
    SlotOfIsRemainder(adds, n);
  }

  lemma {:induction false} SlotOfIsRemainder(adds: nat, n: nat)
    requires n > 0
    ensures SlotOf(adds, n) == Mod(adds, n)
  {
    hide Mod;
    if adds == 0 {
      ModStep(0, n);
    } else {
      SlotOfIsRemainder(adds - 1, n);
      ModStep(adds - 1, n);
    }
  }

  /** Latest is the greatest add number up to `adds` congruent to j modulo n. */
  lemma {:induction false} LatestIsGreatest(adds: nat, n: nat, j: nat)
    requires j < n
    ensures var k := Latest(adds, n, j);
            && (k != 0 ==> k % n == j)
            && (forall m: nat :: k < m <= adds ==> m % n != j)
  {
    SlotOfIsMod(adds, n);
    if adds != 0 && adds % n != j {
      LatestIsGreatest(adds - 1, n, j);
    }
  }

  /** Advancing the ring offset, as a whole number of slots round. */
  lemma NextOffset(adds: nat, n: nat)
    requires n > 0
    ensures (SlotOf(adds, n) + 1) % n == SlotOf(adds + 1, n)
  {
    NextMod(adds, n);
    SlotOfIsMod(adds, n);
    SlotOfIsMod(adds + 1, n);
    NextMod(SlotOf(adds, n), n);
    SlotOfIsMod(SlotOf(adds, n), n);
    SlotOfSmall(SlotOf(adds, n), n);
  }

  lemma {:induction false} SlotOfSmall(j: nat, n: nat)
    requires j < n
    ensures SlotOf(j, n) == j
  {
    if j > 0 {
      SlotOfSmall(j - 1, n);
    }
  }

  /** An element is in the ring exactly when it is one of the last n added: the ring is the
      survivors among the last n adds, each in the slot of its add number. */
  lemma RingIsLastAdds<V>(s: State<V>, n: nat, i: nat)
    requires Wf(s) && n > 0 && i < |s.items|
    ensures (exists j: nat :: j < n && Slot(s, n, j) == Some(i)) <==> s.items[i].id + n > s.adds
    ensures s.items[i].id + n > s.adds ==> Slot(s, n, s.items[i].id % n) == Some(i)
  {
    var id := s.items[i].id;
    if id + n > s.adds {
      var j := id % n;
      var k := Latest(s.adds, n, j);
      LatestIsGreatest(s.adds, n, j);
      if k > id {
        CongruentApart(id, k, n);
        assert false;
      }
      assert Slot(s, n, j) == Some(i);
    } else {
      forall j: nat | j < n
        ensures Slot(s, n, j) != Some(i)
      {
        LatestIsGreatest(s.adds, n, j);
        ShiftMod(id, n);
      }
    }
  }

  lemma {:induction false} RingFindIsHit<V, K>(cfg: Config<V, K>, s: State<V>, key: K, j: nat)
    ensures var r := RingFind(cfg, s, key, j);
            r.Some? ==> cfg.matches(s.items[r.value].value, key)
    decreases cfg.norecent - j
  {
    if j < cfg.norecent && !Hit(cfg, s, key, j) {
      RingFindIsHit(cfg, s, key, j + 1);
    }
  }

  /** Consulting the ring first never changes whether a match is found, and changes which one only
      when several elements match. */
  lemma FindAgreesWithScan<V, K>(cfg: Config<V, K>, s: State<V>, key: K)
    ensures Find(cfg, s, key).Some? <==> ScanFind(cfg, s.items, key, 0).Some?
    ensures Find(cfg, s, key).Some? <==> exists i :: 0 <= i < |s.items| && cfg.matches(s.items[i].value, key)
    ensures Find(cfg, s, key).Some? ==> cfg.matches(s.items[Find(cfg, s, key).value].value, key)
    ensures (forall i, j | 0 <= i < j < |s.items| ::
               !(cfg.matches(s.items[i].value, key) && cfg.matches(s.items[j].value, key)))
            ==> Find(cfg, s, key) == ScanFind(cfg, s.items, key, 0)
  {
    RingFindIsHit(cfg, s, key, 0);
  }

  // Properties of move-to-front

  /** Move-to-front puts the found element before the others, whose order it keeps. */
  lemma MoveToFrontReorders<V, K>(cfg: Config<V, K>, s: State<V>, key: K)
    requires Wf(s) && cfg.norecent == REORDER
    ensures var (t, found) := GetFrom(cfg, s, key);
            var first := ScanFind(cfg, s.items, key, 0);
            match first
            case None => t == s && found == None
            case Some(i) => found == Some(0) && t.items == [s.items[i]] + s.items[..i] + s.items[i + 1..]
  {
    if ScanFind(cfg, s.items, key, 0) == Some(0) {
      assert s.items == [s.items[0]] + s.items[..0] + s.items[1..];
    }
  }

  /** From every state: after a lookup `last` is the tail exactly when it was and nothing or another node moved, or it
      was one of two nodes and moved, or the tail moved and it stood next to the tail. */
  lemma MoveToFrontLast<V, K>(cfg: Config<V, K>, s: State<V>, key: K)
    requires Wf(s) && cfg.norecent == REORDER
    ensures var t, first, n := GetFrom(cfg, s, key).0, ScanFind(cfg, s.items, key, 0), |s.items|;
            t.last == |t.items| - 1
            <==> if first.None? || first.value == 0 then s.last == n - 1
                 else if first.value == s.last then n == 2
                 else s.last == n - 1 || (first.value == n - 1 && s.last == n - 2)
  {
    assert RingFind(cfg, s, key, 0) == None;
  }

  /** When `last` is the tail, a lookup keeps it so unless it moves the tail of three or more. */
  lemma MoveToFrontAndLast<V, K>(cfg: Config<V, K>, s: State<V>, key: K)
    requires Wf(s) && cfg.norecent == REORDER && s.last == |s.items| - 1
    ensures var t := GetFrom(cfg, s, key).0;
            t.last == |t.items| - 1
            <==> !(|s.items| >= 3 && ScanFind(cfg, s.items, key, 0) == Some(|s.items| - 1))
    ensures |s.items| >= 3 && ScanFind(cfg, s.items, key, 0) == Some(|s.items| - 1)
            ==> GetFrom(cfg, s, key).0.last == 1 && GetFrom(cfg, s, key).0.items[1] == s.items[0]
  {
    MoveToFrontLast(cfg, s, key);
    assert RingFind(cfg, s, key, 0) == None;
  }

  /** Removal in move-to-front mode leaves the sequence that removing the first match leaves. */
  lemma MoveToFrontRemoval<V, K>(cfg: Config<V, K>, s: State<V>, key: K)
    requires Wf(s) && cfg.norecent == REORDER
    ensures RemoveFrom(cfg, s, key).items == RemoveFrom(cfg.(norecent := 0), s, key).items
    ensures var first := ScanFind(cfg, s.items, key, 0);
            RemoveFrom(cfg, s, key).items
            == if first.None? then s.items else s.items[..first.value] + s.items[first.value + 1..]
  {
    ScanIgnoresMode(cfg, s.items, key, 0);
    FindIsScan(cfg, s, key);
    FindIsScan(cfg.(norecent := 0), s, key);
    hide Wf, Find, ScanFind;
    var first := Find(cfg, s, key);
    if first.Some? && first.value != 0 {
      DropFront(s.items, first.value);
    }
  }

  /** Without a ring a lookup is the scan. */
  lemma FindIsScan<V, K>(cfg: Config<V, K>, s: State<V>, key: K)
    requires cfg.norecent <= 0
    ensures Find(cfg, s, key) == ScanFind(cfg, s.items, key, 0)
  {
  }

  lemma DropFront<T>(s: seq<T>, i: nat)
    requires i < |s|
    ensures var moved := [s[i]] + s[..i] + s[i + 1..]; moved[..0] + moved[1..] == s[..i] + s[i + 1..]
  {
  }

  lemma {:induction false} ScanIgnoresMode<V, K>(cfg: Config<V, K>, items: seq<Item<V>>, key: K, i: nat)
    requires i <= |items|
    ensures ScanFind(cfg, items, key, i) == ScanFind(cfg.(norecent := 0), items, key, i)
    decreases |items| - i
  {
    if i < |items| {
      ScanIgnoresMode(cfg, items, key, i + 1);
    }
  }

  // Which element a lookup answers with

  /** Element i matches and is one of the last n added, n being the size of the ring. */
  ghost predicate RecentMatch<V, K>(cfg: Config<V, K>, s: State<V>, key: K, i: int) {
    && 0 <= i < |s.items| && cfg.matches(s.items[i].value, key)
    && cfg.norecent > 0 && s.items[i].id + cfg.norecent > s.adds
  }

  /** Among the matches of a number of recent adds the one whose add number is least round the ring, else the first
      match from the front. */
  ghost predicate Answers<V, K>(cfg: Config<V, K>, s: State<V>, key: K, i: int) {
    && 0 <= i < |s.items| && cfg.matches(s.items[i].value, key)
    && if exists j :: RecentMatch(cfg, s, key, j)
       then RecentMatch(cfg, s, key, i)
            && forall j :: RecentMatch(cfg, s, key, j) ==> s.items[i].id % cfg.norecent <= s.items[j].id % cfg.norecent
       else forall j :: 0 <= j < i ==> !cfg.matches(s.items[j].value, key)
  }

  ghost predicate NoneMatches<V, K>(cfg: Config<V, K>, s: State<V>, key: K) {
    forall i :: 0 <= i < |s.items| ==> !cfg.matches(s.items[i].value, key)
  }

  /** Element i of s before the others in move-to-front mode, else s as it was. */
  ghost predicate Brought<V, K>(cfg: Config<V, K>, s: State<V>, i: int, t: State<V>) {
    && 0 <= i < |s.items| && t.adds == s.adds
    && t.items == (if cfg.norecent == -1 then [s.items[i]] + s.items[..i] + s.items[i + 1..] else s.items)
    && t.last == (if cfg.norecent != -1 || i == 0 then s.last
                  else if s.last == i then 1
                  else if 0 <= s.last < i then s.last + 1
                  else s.last)
  }

  /** The ring is left at the first slot that matches. */
  lemma {:induction false} RingFindStops<V, K>(cfg: Config<V, K>, s: State<V>, key: K, j: nat) returns (k: nat)
    requires j <= cfg.norecent
    ensures j <= k <= cfg.norecent && forall i :: j <= i < k ==> !Hit(cfg, s, key, i)
    ensures RingFind(cfg, s, key, j).None? <==> k == cfg.norecent
    ensures k < cfg.norecent ==> Hit(cfg, s, key, k) && RingFind(cfg, s, key, j) == Slot(s, cfg.norecent, k)
    decreases cfg.norecent - j
  {
    k := j;
    if j < cfg.norecent && !Hit(cfg, s, key, j) {
      k := RingFindStops(cfg, s, key, j + 1);
    }
  }

  /** The element in a slot has an add number that belongs there. */
  lemma SlotIndex<V>(s: State<V>, n: nat, j: nat)
    requires Wf(s) && j < n
    ensures match Slot(s, n, j)
            case None => true
            case Some(i) => s.items[i].id % n == j && s.items[i].id + n > s.adds
  {
    LatestIsGreatest(s.adds, n, j);
    var r := Slot(s, n, j);
    if r.Some? {
      assert s.items[r.value].id == Latest(s.adds, n, j);
      RingIsLastAdds(s, n, r.value);
    }
  }

  /** A recent match hits its slot. */
  lemma RecentHits<V, K>(cfg: Config<V, K>, s: State<V>, key: K, i: int)
    requires Wf(s) && RecentMatch(cfg, s, key, i)
    ensures 0 <= s.items[i].id % cfg.norecent < cfg.norecent && Hit(cfg, s, key, s.items[i].id % cfg.norecent)
  {
    hide Slot;
    RingIsLastAdds(s, cfg.norecent, i);
  }

  /** What a lookup finds is the element that answers, and it finds none only when nothing matches. */
  lemma FindAnswers<V, K>(cfg: Config<V, K>, s: State<V>, key: K)
    requires Wf(s)
    ensures match Find(cfg, s, key)
            case None => NoneMatches(cfg, s, key)
            case Some(i) => Answers(cfg, s, key, i) && !NoneMatches(cfg, s, key)
  {
    hide Wf, RingFind, Slot, Hit, ScanFind;
    RingFindIsHit(cfg, s, key, 0);
    if cfg.norecent > 0 {
      var n := cfg.norecent;
      var k := RingFindStops(cfg, s, key, 0);
      forall j | RecentMatch(cfg, s, key, j) ensures k < n && k <= s.items[j].id % n {
        RecentHits(cfg, s, key, j);
      }
      if k < n {
        SlotIndex(s, n, k);
        assert RecentMatch(cfg, s, key, RingFind(cfg, s, key, 0).value);
      }
    } else {
      assert RingFind(cfg, s, key, 0) == None by {
        NoRing(cfg, s, key);
      }
    }
  }

  lemma NoRing<V, K>(cfg: Config<V, K>, s: State<V>, key: K)
    requires cfg.norecent <= 0
    ensures RingFind(cfg, s, key, 0) == None
  {
  }

  /** At most one element answers. */
  lemma OneAnswers<V, K>(cfg: Config<V, K>, s: State<V>, key: K, i: int, j: int)
    requires Wf(s) && Answers(cfg, s, key, i) && Answers(cfg, s, key, j)
    ensures i == j
  {
    if exists k :: RecentMatch(cfg, s, key, k) {
      var n := cfg.norecent;
      RingIsLastAdds(s, n, i);
      RingIsLastAdds(s, n, j);
      assert s.items[i].id % n == s.items[j].id % n;
    }
  }

  /** So it is what a lookup finds. */
  lemma FindIs<V, K>(cfg: Config<V, K>, s: State<V>, key: K, i: int)
    requires Wf(s) && Answers(cfg, s, key, i)
    ensures Find(cfg, s, key) == Some(i) && 0 <= i < |s.items| && cfg.matches(s.items[i].value, key)
  {
    hide Wf, Find;
    FindAnswers(cfg, s, key);
    OneAnswers(cfg, s, key, i, Find(cfg, s, key).value);
  }

  /** What a lookup leaves, whatever the mode. */
  lemma GetAnswers<V, K>(cfg: Config<V, K>, s: State<V>, key: K)
    requires Wf(s)
    ensures var (t, found) := GetFrom(cfg, s, key);
            match Find(cfg, s, key)
            case None => t == s && found == None && NoneMatches(cfg, s, key)
            case Some(i) =>
              Answers(cfg, s, key, i) && Brought(cfg, s, i, t) && found.Some? && t.items[found.value] == s.items[i]
  {
    hide Wf, Find, Answers, NoneMatches;
    FindAnswers(cfg, s, key);
    if Find(cfg, s, key) == Some(0) {
      assert s.items == [s.items[0]] + s.items[..0] + s.items[1..];
    }
  }

  /** What a removal leaves, whatever the mode: the sequence without the element that answers, and `last` where it was
      or, when its node is gone, before it or, when that node had first been moved, at the head. */
  lemma RemoveAnswers<V, K>(cfg: Config<V, K>, s: State<V>, key: K)
    requires Wf(s)
    ensures var t := RemoveFrom(cfg, s, key);
            match Find(cfg, s, key)
            case None => t == s && NoneMatches(cfg, s, key)
            case Some(i) =>
              && Answers(cfg, s, key, i) && !NoneMatches(cfg, s, key) && t.adds == s.adds
              && t.items == s.items[..i] + s.items[i + 1..]
              && t.last == (if s.last < i then s.last
                            else if s.last > i then s.last - 1
                            else if cfg.norecent == -1 && i > 0 then 0
                            else i - 1)
  {
    hide Wf, Find, Answers, NoneMatches;
    FindAnswers(cfg, s, key);
    var found := Find(cfg, s, key);
    if found.Some? {
      DropFront(s.items, found.value);
    }
  }
}
