/** The hash: an array of lists made on demand, proved to be a flat multiset of values. */
module HashTable {
  import opened Options
  import opened ListModel
  import opened ListOrder
  import opened LinkedList

  /** What the hash asks of its callbacks: a value can only match a key with the same hash. */
  ghost predicate Lawful<V(!new)>(matches: (V, V) -> bool, hash: V -> nat) {
    forall v, k :: matches(v, k) ==> hash(v) == hash(k)
  }

  function Sum<V>(bags: seq<multiset<V>>): multiset<V> {
    if bags == [] then multiset{} else Sum(bags[..|bags| - 1]) + bags[|bags| - 1]
  }

  lemma {:induction false} SumUpdate<V>(bags: seq<multiset<V>>, i: nat, m: multiset<V>)
    requires i < |bags|
    ensures Sum(bags[i := m]) + bags[i] == Sum(bags) + m
  {
    var n := |bags| - 1;
    if i < n {
      SumUpdate(bags[..n], i, m);
      assert bags[i := m][..n] == bags[..n][i := m];
      var a, b, x := Sum(bags[..n][i := m]), Sum(bags[..n]), bags[n];
      assert (a + x) + bags[i] == (a + bags[i]) + x == (b + m) + x == (b + x) + m;
    } else {
      assert bags[i := m][..n] == bags[..n];
    }
  }

  lemma Cancel<V(!new)>(a: multiset<V>, b: multiset<V>, c: multiset<V>)
    requires a + c == b + c
    ensures a == b
  {
    forall v: V ensures a[v] == b[v] {
      assert (a + c)[v] == (b + c)[v];
    }
  }

  lemma SumAdd<V(!new)>(bags: seq<multiset<V>>, i: nat, x: multiset<V>)
    requires i < |bags|
    ensures Sum(bags[i := bags[i] + x]) == Sum(bags) + x
  {
    SumUpdate(bags, i, bags[i] + x);
    assert (Sum(bags) + x) + bags[i] == Sum(bags) + (bags[i] + x);
    Cancel(Sum(bags[i := bags[i] + x]), Sum(bags) + x, bags[i]);
  }

  lemma {:induction false} SumEmpty<V>(bags: seq<multiset<V>>)
    requires forall i :: 0 <= i < |bags| ==> bags[i] == multiset{}
    ensures Sum(bags) == multiset{}
  {
    if bags != [] {
      SumEmpty(bags[..|bags| - 1]);
    }
  }

  lemma {:induction false} SumMember<V>(bags: seq<multiset<V>>, v: V)
    ensures v in Sum(bags) <==> exists i :: 0 <= i < |bags| && v in bags[i]
  {
    if bags != [] {
      var n := |bags| - 1;
      SumMember(bags[..n], v);
      if v in Sum(bags[..n]) {
        var i :| 0 <= i < n && v in bags[..n][i];
        assert v in bags[i];
      }
    }
  }

  lemma {:induction false} SumSize<V>(bags: seq<multiset<V>>)
    ensures |Sum(bags)| == Sizes(bags)
  {
    if bags != [] {
      SumSize(bags[..|bags| - 1]);
    }
  }

  function Sizes<V>(bags: seq<multiset<V>>): nat {
    if bags == [] then 0 else Sizes(bags[..|bags| - 1]) + |bags[|bags| - 1]|
  }

  function NoChains<V>(n: nat): (r: seq<seq<V>>)
    ensures |r| == n
    ensures forall i {:trigger r[i]} :: 0 <= i < n ==> r[i] == []
  {
    seq(n, _ => [])
  }

  ghost function Bag<V>(s: State<V>): multiset<V> {
    multiset(Values(s.items))
  }

  // What an operation does to the flat multiset

  datatype FlatOp<V> = Insert(value: V) | Lookup(key: V) | Delete(key: V)

  ghost predicate HasMatch<V(!new)>(matches: (V, V) -> bool, c: multiset<V>, key: V) {
    exists v :: v in c && matches(v, key)
  }

  ghost predicate TakesOut<V(!new)>(matches: (V, V) -> bool, c: multiset<V>, d: multiset<V>, key: V) {
    exists v :: v in c && matches(v, key) && c == d + multiset{v}
  }

  ghost predicate FlatStep<V(!new)>(matches: (V, V) -> bool, c: multiset<V>, op: FlatOp<V>, d: multiset<V>) {
    match op
    case Insert(v) => d == c + multiset{v}
    case Lookup(_) => d == c
    case Delete(k) => if HasMatch(matches, c, k) then TakesOut(matches, c, d, k) else d == c
  }

  /** The contents, before the first operation and after each, of a run from the empty hash. */
  ghost predicate FlatRun<V(!new)>(matches: (V, V) -> bool, ops: seq<FlatOp<V>>, trace: seq<multiset<V>>) {
    && |trace| == |ops| + 1 && trace[0] == multiset{}
    && (forall i :: 0 <= i < |ops| ==> FlatStep(matches, trace[i], ops[i], trace[i + 1]))
  }

  ghost function Added<V>(ops: seq<FlatOp<V>>): nat {
    if ops == [] then 0 else Added(ops[..|ops| - 1]) + if ops[|ops| - 1].Insert? then 1 else 0
  }

  /** How many deletes of a run found something to take out. */
  ghost function Removed<V(!new)>(matches: (V, V) -> bool, ops: seq<FlatOp<V>>, trace: seq<multiset<V>>): nat
    requires |trace| == |ops| + 1
  {
    if ops == [] then 0
    else
      var n := |ops| - 1;
      Removed(matches, ops[..n], trace[..n + 1])
      + if ops[n].Delete? && HasMatch(matches, trace[n], ops[n].key) then 1 else 0
  }

  lemma EmptyRun<V(!new)>(matches: (V, V) -> bool)
    ensures FlatRun(matches, [], [multiset{}])
  {
  }

  lemma FlatRunPush<V(!new)>(matches: (V, V) -> bool, ops: seq<FlatOp<V>>, trace: seq<multiset<V>>,
                             op: FlatOp<V>, d: multiset<V>)
    requires FlatRun(matches, ops, trace) && FlatStep(matches, trace[|ops|], op, d)
    ensures FlatRun(matches, ops + [op], trace + [d])
  {
    hide FlatStep;
    var r, t := ops + [op], trace + [d];
    forall i | 0 <= i < |r| ensures FlatStep(matches, t[i], r[i], t[i + 1]) {
      assert i < |ops| ==> r[i] == ops[i];
    }
  }

  /** Over every run the number of stored values is adds minus successful removals. */
  lemma {:induction false} RunSize<V(!new)>(matches: (V, V) -> bool, ops: seq<FlatOp<V>>, trace: seq<multiset<V>>)
    requires FlatRun(matches, ops, trace)
    ensures |trace[|ops|]| + Removed(matches, ops, trace) == Added(ops)
  {
    if ops != [] {
      hide HasMatch;
      var n := |ops| - 1;
      assert FlatRun(matches, ops[..n], trace[..n + 1]);
      RunSize(matches, ops[..n], trace[..n + 1]);
      assert FlatStep(matches, trace[n], ops[n], trace[n + 1]);
    }
  }

  /** A run that inserts the values of m one after another. */
  lemma {:induction false} InsertRun<V(!new)>(matches: (V, V) -> bool, m: multiset<V>)
    returns (ops: seq<FlatOp<V>>, trace: seq<multiset<V>>)
    ensures FlatRun(matches, ops, trace) && trace[|ops|] == m
    ensures forall op :: op in ops ==> op.Insert?
    decreases |m|
  {
    if m == multiset{} {
      ops, trace := [], [multiset{}];
    } else {
      var v :| v in m;
      ops, trace := InsertRun(matches, m - multiset{v});
      FlatRunPush(matches, ops, trace, Insert(v), m);
      ops, trace := ops + [Insert(v)], trace + [m];
    }
  }

  /** A bucket is a plain unsorted list with these values. */
  ghost predicate Holds<V(!new)>(l: List<V, V>, chain: seq<V>, matches: (V, V) -> bool)
    reads l, l.Repr
  {
    l.Valid() && l.cfg == Config(0, matches, None) && chain == Values(l.model.items)
  }

  /** The values of each chain. */
  ghost function Bags<V>(chains: seq<seq<V>>): (r: seq<multiset<V>>)
    ensures |r| == |chains|
    ensures forall i {:trigger r[i]} :: 0 <= i < |r| ==> r[i] == multiset(chains[i])
  {
    seq(|chains|, i requires 0 <= i < |chains| => multiset(chains[i]))
  }

  lemma BagsUpdate<V>(chains: seq<seq<V>>, i: nat, chain: seq<V>)
    requires i < |chains|
    ensures Bags(chains[i := chain]) == Bags(chains)[i := multiset(chain)]
  {
  }

  // What a bucket's chain does

  /** Element i is the first that matches. */
  ghost predicate FirstMatch<V>(matches: (V, V) -> bool, chain: seq<V>, key: V, i: int) {
    0 <= i < |chain| && matches(chain[i], key) && forall j :: 0 <= j < i ==> !matches(chain[j], key)
  }

  ghost predicate NoMatch<V>(matches: (V, V) -> bool, chain: seq<V>, key: V) {
    forall j :: 0 <= j < |chain| ==> !matches(chain[j], key)
  }

  ghost function AddedSecond<V>(chain: seq<V>, v: V): seq<V> {
    if chain == [] then [v] else [chain[0]] + [v] + chain[1..]
  }

  lemma AddsSecond<V, K>(cfg: Config<V, K>, s: State<V>, v: V)
    requires Wf(s) && cfg.sort == None
    ensures Values(AddTo(cfg, s, v).items) == AddedSecond(Values(s.items), v)
  {
    hide AddTo, Wf, Values;
    UnsortedAddIsSecond(cfg, s, v);
  }

  lemma AddedSecondBag<V>(chain: seq<V>, v: V)
    ensures multiset(AddedSecond(chain, v)) == multiset(chain) + multiset{v}
  {
    if chain != [] {
      assert chain == [chain[0]] + chain[1..];
    }
  }

  lemma RotateRightBag<V>(chain: seq<V>)
    ensures multiset(RotateRight(chain)) == multiset(chain)
  {
    if chain != [] {
      assert chain == chain[..|chain| - 1] + [chain[|chain| - 1]];
    }
  }

  /** The chain without its first match, or as it was when nothing matches. */
  ghost predicate WithoutFirst<V>(matches: (V, V) -> bool, chain: seq<V>, key: V, left: seq<V>) {
    || (NoMatch(matches, chain, key) && left == chain)
    || exists i :: FirstMatch(matches, chain, key, i) && left == chain[..i] + chain[i + 1..]
  }

  /** On a plain list the first match answers. */
  lemma PlainAnswers<V>(cfg: Config<V, V>, s: State<V>, key: V)
    requires cfg.norecent == 0
    ensures NoneMatches(cfg, s, key) <==> NoMatch(cfg.matches, Values(s.items), key)
    ensures forall i :: Answers(cfg, s, key, i) <==> FirstMatch(cfg.matches, Values(s.items), key, i)
  {
    var vs := Values(s.items);
    forall i ensures Answers(cfg, s, key, i) <==> FirstMatch(cfg.matches, vs, key, i) {
      assert forall j :: 0 <= j < |vs| ==> vs[j] == s.items[j].value;
    }
  }

  /** In every mode a lookup keeps the values and finds a match exactly when one is stored. */
  lemma GetBag<V(!new)>(cfg: Config<V, V>, s: State<V>, key: V)
    requires Wf(s)
    ensures var (t, found) := GetFrom(cfg, s, key);
            && Bag(t) == Bag(s)
            && (found.Some? <==> HasMatch(cfg.matches, Bag(s), key))
            && (found.Some? ==> t.items[found.value].value in Bag(s) && cfg.matches(t.items[found.value].value, key))
  {
    hide Wf, Find, HasMatch, Bag;
    FoundInBag(cfg, s, key);
    var found := Find(cfg, s, key);
    if found.Some? && found.value != 0 {
      MovedBag(s, found.value);
    }
  }

  lemma FoundInBag<V(!new)>(cfg: Config<V, V>, s: State<V>, key: V)
    ensures var found := Find(cfg, s, key);
            && (found.Some? <==> HasMatch(cfg.matches, Bag(s), key))
            && (found.Some? ==> s.items[found.value].value in Bag(s) && cfg.matches(s.items[found.value].value, key))
  {
    hide Find;
    FindAgreesWithScan(cfg, s, key);
    var found, vs := Find(cfg, s, key), Values(s.items);
    if found.Some? {
      assert vs[found.value] in Bag(s);
    } else {
      forall v | v in Bag(s) ensures !cfg.matches(v, key) {
        assert v in vs;
      }
    }
  }

  lemma MovedBag<V>(s: State<V>, i: nat)
    requires Wf(s) && 0 < i < |s.items|
    ensures Bag(MoveToFront(s, i)) == Bag(s)
  {
    hide Wf;
    var vs := Values(s.items);
    MovedItems(vs, i);
    assert Values([s.items[i]] + s.items[..i] + s.items[i + 1..]) == [vs[i]] + vs[..i] + vs[i + 1..];
  }

  lemma RemoveAtBag<V>(s: State<V>, i: nat)
    requires Wf(s) && i < |s.items|
    ensures Bag(s) == Bag(RemoveAt(s, i)) + multiset{s.items[i].value}
  {
    hide Wf;
    var vs := Values(s.items);
    var a, b := vs[..i], vs[i + 1..];
    assert vs == a + [vs[i]] + b;
    assert Values(RemoveAt(s, i).items) == a + b;
  }

  /** In every mode removal takes one matching value out of the bag when there is one. */
  lemma RemoveBag<V(!new)>(cfg: Config<V, V>, s: State<V>, key: V)
    requires Wf(s)
    ensures FlatStep(cfg.matches, Bag(s), Delete(key), Bag(RemoveFrom(cfg, s, key)))
  {
    hide GetFrom, RemoveAt, Wf;
    GetBag(cfg, s, key);
    var (t, found) := GetFrom(cfg, s, key);
    if found.Some? {
      RemoveAtBag(t, found.value);
      assert TakesOut(cfg.matches, Bag(s), Bag(RemoveAt(t, found.value)), key);
    }
  }

  lemma PlainRemoval<V(!new)>(cfg: Config<V, V>, s: State<V>, key: V, left: seq<Item<V>>)
    requires cfg.norecent == 0
    requires NoneMatches(cfg, s, key) ==> left == s.items
    requires !NoneMatches(cfg, s, key) ==>
               exists i :: Answers(cfg, s, key, i) && left == s.items[..i] + s.items[i + 1..]
    ensures WithoutFirst(cfg.matches, Values(s.items), key, Values(left))
  {
    var chain := Values(s.items);
    PlainAnswers(cfg, s, key);
    if !NoneMatches(cfg, s, key) {
      var i :| Answers(cfg, s, key, i) && left == s.items[..i] + s.items[i + 1..];
      assert FirstMatch(cfg.matches, chain, key, i);
      assert Values(left) == chain[..i] + chain[i + 1..];
    }
  }

  lemma LeftWasThere<V>(matches: (V, V) -> bool, chain: seq<V>, key: V, left: seq<V>)
    requires WithoutFirst(matches, chain, key, left)
    ensures forall v :: v in left ==> v in chain
  {
  }

  method GetFromBucket<V(!new)>(l: List<V, V>, key: V, ghost chain: seq<V>, ghost matches: (V, V) -> bool)
    returns (r: Option<V>)
    requires Holds(l, chain, matches)
    modifies l.Repr
    ensures Holds(l, chain, matches) && l.Repr == old(l.Repr)
    ensures r.None? ==> NoMatch(matches, chain, key)
    ensures r.Some? ==> exists i :: FirstMatch(matches, chain, key, i) && r.value == chain[i]
  {
    hide List.Valid, Wf, Find, GetFrom, Answers, FirstMatch, NoneMatches, NoMatch;
    PlainAnswers(l.cfg, l.model, key);
    r := l.Get(key);
  }

  method RemoveFromBucket<V(!new)>(l: List<V, V>, key: V, ghost chain: seq<V>, ghost matches: (V, V) -> bool)
    returns (ghost left: seq<V>)
    requires Holds(l, chain, matches)
    modifies l.Repr
    ensures Holds(l, left, matches) && l.Repr == old(l.Repr)
    ensures WithoutFirst(matches, chain, key, left)
    ensures FlatStep(matches, multiset(chain), Delete(key), multiset(left))
  {
    hide List.Valid, Wf, RemoveFrom, FlatStep, WithoutFirst, NoneMatches;
    ghost var before := l.model;
    RemoveBag(l.cfg, before, key);
    l.Remove(key);
    left := Values(l.model.items);
    PlainRemoval(l.cfg, before, key, l.model.items);
  }

  method NewBucket<V(!new)>(matches: (V, V) -> bool) returns (l: List<V, V>)
    ensures Holds(l, [], matches) && fresh(l.Repr) && l in l.Repr
  {
    l := new List(0, matches, None);
    assert Values(l.model.items) == [];
  }

  /** The new value goes second. */
  method AddToBucket<V(!new)>(l: List<V, V>, value: V, ghost chain: seq<V>, ghost matches: (V, V) -> bool)
    requires Holds(l, chain, matches)
    modifies l.Repr
    ensures Holds(l, AddedSecond(chain, value), matches) && fresh(l.Repr - old(l.Repr)) && l in l.Repr
  {
    hide List.Valid, Wf, AddTo, Values, AddedSecond;
    AddsSecond(l.cfg, l.model, value);
    l.Add(value);
  }

  class Hash<V(!new, ==)> {
    const bucket: array<List?<V, V>>
    const matches: (V, V) -> bool
    const hash: V -> nat
    ghost var chains: seq<seq<V>>  // the values of each bucket, in the order of its list
    ghost var history: seq<FlatOp<V>>  // every call so far
    ghost var trace: seq<multiset<V>>  // the contents at first and after each
    ghost var Repr: set<object>

    /** Each bucket is NULL or a list of its own that holds its chain, and no value lies in a wrong bucket. */
    ghost predicate Consistent()
      reads this, Repr
      ensures Consistent() ==> this in Repr && bucket in Repr
    {
      && this in Repr && bucket in Repr && |chains| == bucket.Length
      && Lawful(matches, hash)
      && (forall i :: 0 <= i < bucket.Length && bucket[i] == null ==> chains[i] == [])
      && (forall i :: 0 <= i < bucket.Length && bucket[i] != null ==>
            && bucket[i] in Repr && bucket[i] in bucket[i].Repr && bucket[i].Repr <= Repr
            && this !in bucket[i].Repr && bucket !in bucket[i].Repr
            && Holds(bucket[i], chains[i], matches))
      && (forall i :: 0 <= i < bucket.Length ==> forall v :: v in chains[i] ==> hash(v) == i)
      && (forall i, j :: 0 <= i < j < bucket.Length && bucket[i] != null && bucket[j] != null ==>
            bucket[i].Repr !! bucket[j].Repr)
    }

    ghost function Contents(): multiset<V>
      reads this
    {
      Sum(Bags(chains))
    }

    /** The calls made so far are a run of the flat multiset that ends in the contents. */
    ghost predicate Follows()
      reads this
    {
      FlatRun(matches, history, trace) && trace[|history|] == Contents()
    }

    ghost predicate Valid()
      reads this, Repr
      ensures Valid() ==> this in Repr
    {
      Consistent() && Follows()
    }

    /** After any calls the number of stored values is adds minus successful removals. */
    lemma SizeOfHistory()
      requires Valid()
      ensures |trace| == |history| + 1
      ensures |Contents()| + Removed(matches, history, trace) == Added(history)
    {
      hide Consistent, Sum, Removed, Added;
      RunSize(matches, history, trace);
    }

    /** Notes a call that has taken the contents from the end of the trace to where they are now. */
    ghost method Record(op: FlatOp<V>)
      requires Consistent() && FlatRun(matches, history, trace)
      requires FlatStep(matches, trace[|history|], op, Contents())
      modifies this`history, this`trace
      ensures Valid() && history == old(history) + [op] && trace == old(trace) + [Contents()]
    {
      hide Lawful, Holds, Sum, FlatRun, FlatStep;
      TraceLength(matches, history, trace);
      FlatRunPush(matches, history, trace, op, Contents());
      history, trace := history + [op], trace + [Contents()];
      TraceLength(matches, history, trace);
    }

    constructor (nobucket: nat, matches: (V, V) -> bool, hash: V -> nat)
      requires Lawful(matches, hash)
      ensures Valid() && fresh(Repr)
      ensures bucket.Length == nobucket && this.matches == matches && this.hash == hash
      ensures Contents() == multiset{} && chains == NoChains(nobucket)
      ensures history == [] && trace == [multiset{}]
      ensures forall i :: 0 <= i < nobucket ==> bucket[i] == null
    {
      bucket := new List?<V, V>[nobucket];
      this.matches := matches;
      this.hash := hash;
      new;
      chains := NoChains(nobucket);
      hide Consistent, Lawful, Sum, NoChains, FlatRun;
      forall i | 0 <= i < bucket.Length {
        bucket[i] := null;
      }
      history, trace := [], [multiset{}];
      Repr := {this, bucket};
      SumEmpty(Bags(chains));
      EmptyRun(matches);
      EmptyIsConsistent();
    }

    lemma EmptyIsConsistent()
      requires this in Repr && bucket in Repr && |chains| == bucket.Length && Lawful(matches, hash)
      requires forall i :: 0 <= i < bucket.Length ==> bucket[i] == null
      requires forall i :: 0 <= i < |chains| ==> chains[i] == []
      ensures Consistent()
    {
    }

    /** Puts a list of its own, holding the given values, into a bucket still NULL. */
    method Install(i: nat, l: List<V, V>, ghost chain: seq<V>)
      requires Consistent() && i < bucket.Length && bucket[i] == null
      requires Holds(l, chain, matches) && l in l.Repr && l.Repr !! Repr
      requires forall v :: v in chain ==> hash(v) == i
      modifies this`Repr, this`chains, bucket
      ensures Consistent() && Repr == old(Repr) + l.Repr && chains == old(chains)[i := chain]
      ensures bucket[i] == l && forall j :: 0 <= j < bucket.Length && j != i ==> bucket[j] == old(bucket[j])
    {
      hide Lawful, Holds;
      bucket[i] := l;
      chains := chains[i := chain];
      Repr := Repr + l.Repr;
    }

    /** The list in bucket i, made on demand. */
    method Demand(i: nat) returns (l: List<V, V>)
      requires Consistent() && i < bucket.Length
      modifies this`Repr, this`chains, bucket
      ensures Consistent() && fresh(Repr - old(Repr)) && old(Repr) <= Repr && chains == old(chains)
      ensures l == bucket[i] && forall j :: 0 <= j < bucket.Length && j != i ==> bucket[j] == old(bucket[j])
    {
      hide Lawful, Holds;
      if bucket[i] == null {
        l := NewBucket(matches);
        Install(i, l, []);
      } else {
        l := bucket[i];
      }
    }

    /** Adds to the bucket the value hashes to. */
    method Put(value: V)
      requires Consistent() && hash(value) < bucket.Length
      modifies Repr
      ensures Consistent() && fresh(Repr - old(Repr)) && history == old(history) && trace == old(trace)
      ensures chains == old(chains)[hash(value) := AddedSecond(old(chains)[hash(value)], value)]
    {
      hide Consistent;
      var l := Demand(hash(value));
      Extend(hash(value), l, value);
    }

    /** Adds to the list of bucket i. */
    method Extend(i: nat, l: List<V, V>, value: V)
      requires Consistent() && i < bucket.Length && bucket[i] == l && hash(value) == i
      modifies Repr
      ensures Consistent() && fresh(Repr - old(Repr)) && history == old(history) && trace == old(trace)
      ensures i < |old(chains)| && chains == old(chains)[i := AddedSecond(old(chains)[i], value)]
    {
      hide Lawful, Holds;
      ghost var chain := AddedSecond(chains[i], value);
      AddToBucket(l, value, chains[i], matches);
      chains := chains[i := chain];
      Repr := Repr + l.Repr;
    }

    method Add(value: V)
      requires Valid() && hash(value) < bucket.Length
      modifies Repr
      ensures Valid() && fresh(Repr - old(Repr))
      ensures Contents() == old(Contents()) + multiset{value}
      ensures chains == old(chains)[hash(value) := AddedSecond(old(chains)[hash(value)], value)]
      ensures history == old(history) + [Insert(value)] && trace == old(trace) + [Contents()]
    {
      hide Consistent, Sum, FlatRun;
      BucketExists(hash(value));
      SumAdd(Bags(chains), hash(value), multiset{value});
      AddedSecondBag(chains[hash(value)], value);
      BagsUpdate(chains, hash(value), AddedSecond(chains[hash(value)], value));
      Put(value);
      Record(Insert(value));
    }

    lemma BucketExists(i: nat)
      requires Consistent() && i < bucket.Length
      ensures i < |chains|
    {
    }

    /** A stored value that matches lies in the bucket the key hashes to. */
    lemma MatchInBucket(key: V)
      requires Consistent() && hash(key) < bucket.Length
      ensures hash(key) < |chains|
      ensures HasMatch(matches, Contents(), key) <==> HasMatch(matches, multiset(chains[hash(key)]), key)
      ensures HasMatch(matches, Contents(), key) <==> !NoMatch(matches, chains[hash(key)], key)
    {
      hide Consistent, Sum, HasMatch, NoMatch;
      BucketExists(hash(key));
      var chain := chains[hash(key)];
      forall v ensures v in Contents() && matches(v, key) <==> v in multiset(chain) && matches(v, key) {
        if matches(v, key) {
          OnlyThere(key, v);
        }
      }
      SameMatches(matches, Contents(), multiset(chain), key);
      InChain(matches, chain, key);
    }

    /** A value that matches a key is in the key's own bucket or nowhere. */
    lemma OnlyThere(key: V, v: V)
      requires Consistent() && hash(key) < bucket.Length && matches(v, key)
      ensures v in Contents() <==> v in chains[hash(key)]
    {
      hide Holds, Sum;
      if v in chains[hash(key)] {
        assert v in Bags(chains)[hash(key)];
      }
      SumMember(Bags(chains), v);
      if v in Contents() {
        var i :| 0 <= i < |chains| && v in Bags(chains)[i];
        assert v in chains[i];
      }
    }

    /** The chain of a bucket is what its list stores: behind the first value the later added comes first. */
    lemma ChainOrder(i: nat)
      requires Consistent() && i < bucket.Length && bucket[i] != null
      ensures i < |chains| && chains[i] == Values(bucket[i].model.items) && NewestFirst(bucket[i].model.items)
    {
      hide List.Consistent, NewestFirst, Run;
      assert Holds(bucket[i], chains[i], matches);
      RunNewestFirst(bucket[i].cfg, bucket[i].history);
    }

    method Fetch(key: V) returns (r: Option<V>)
      requires Consistent() && hash(key) < bucket.Length
      modifies Repr
      ensures Consistent() && Repr == old(Repr) && chains == old(chains)
      ensures history == old(history) && trace == old(trace)
      ensures hash(key) < |chains|
      ensures r.None? ==> NoMatch(matches, chains[hash(key)], key)
      ensures r.Some? ==>
                exists i :: FirstMatch(matches, chains[hash(key)], key, i) && r.value == chains[hash(key)][i]
    {
      hide Lawful, Holds, FirstMatch;
      var i := hash(key);
      if bucket[i] == null {
        return None;
      }
      r := GetFromBucket(bucket[i], key, chains[i], matches);
    }

    /** A lookup succeeds exactly when some stored value matches, and then returns the first that does in the list of
        the key's bucket. */
    method Get(key: V) returns (r: Option<V>)
      requires Valid() && hash(key) < bucket.Length
      modifies Repr
      ensures Valid() && Repr == old(Repr) && chains == old(chains)
      ensures Contents() == old(Contents()) && hash(key) < |chains|
      ensures r.Some? <==> HasMatch(matches, Contents(), key)
      ensures r.Some? ==> r.value in Contents() && matches(r.value, key)
      ensures r.Some? ==>
                exists i :: FirstMatch(matches, chains[hash(key)], key, i) && r.value == chains[hash(key)][i]
      ensures history == old(history) + [Lookup(key)] && trace == old(trace) + [Contents()]
    {
      hide Consistent, Sum, FlatRun, HasMatch, NoMatch;
      MatchInBucket(key);
      r := Fetch(key);
      if r.Some? {
        ghost var i :| FirstMatch(matches, chains[hash(key)], key, i) && r.value == chains[hash(key)][i];
        FirstIsStored(chains, hash(key), matches, key, i);
      }
      Record(Lookup(key));
    }

    method Take(key: V) returns (ok: bool)
      requires Consistent() && hash(key) < bucket.Length
      modifies Repr
      ensures Consistent() && Repr == old(Repr) && history == old(history) && trace == old(trace)
      ensures FlatStep(matches, old(Contents()), Delete(key), Contents())
      ensures Taken(old(chains), chains, hash(key), matches, key)
      ensures ok == (bucket[hash(key)] != null)
    {
      hide Lawful, Holds, Sum, HasMatch, TakesOut, WithoutFirst, NoMatch;
      var i := hash(key);
      MatchInBucket(key);
      if bucket[i] == null {
        EmptyHasNoMatch(matches, key);
        return false;
      }
      ghost var left := RemoveFromBucket(bucket[i], key, chains[i], matches);
      LeftWasThere(matches, chains[i], key, left);
      DeleteFromSum(matches, Bags(chains), i, key, multiset(left));
      BagsUpdate(chains, i, left);
      chains := chains[i := left];
      return true;
    }

    /** Removes the first match in the list of the key's bucket when there is one; the result says whether the bucket
        existed. */
    method Remove(key: V) returns (ok: bool)
      requires Valid() && hash(key) < bucket.Length
      modifies Repr
      ensures Valid() && Repr == old(Repr)
      ensures FlatStep(matches, old(Contents()), Delete(key), Contents())
      ensures Taken(old(chains), chains, hash(key), matches, key)
      ensures ok == (bucket[hash(key)] != null)
      ensures history == old(history) + [Delete(key)] && trace == old(trace) + [Contents()]
    {
      hide Consistent, Sum, FlatRun, FlatStep;
      ok := Take(key);
      Record(Delete(key));
    }

    method Count() returns (n: nat)
      requires Valid()
      ensures n == |Contents()|
    {
      hide Lawful, Sum, Holds, Follows;
      n := 0;
      for i := 0 to bucket.Length
        invariant n == Sizes(Bags(chains)[..i])
      {
        assert Bags(chains)[..i + 1][..i] == Bags(chains)[..i];
        if bucket[i] != null {
          var c := CountBucket(bucket[i], chains[i], matches);
          n := n + c;
        }
      }
      assert Bags(chains)[..bucket.Length] == Bags(chains);
      SumSize(Bags(chains));
    }

    /** A copy holds in each bucket what the original holds there, the last value first, as if it had been added. */
    method Duplicate() returns (copy: Hash<V>)
      requires Valid()
      ensures copy.Valid() && fresh(copy.Repr)
      ensures copy.matches == matches && copy.hash == hash && copy.bucket.Length == bucket.Length
      ensures |copy.chains| == |chains| && forall i :: 0 <= i < |chains| ==> copy.chains[i] == RotateRight(chains[i])
      ensures copy.Contents() == Contents()
    {
      hide Holds, Sum, Lawful, Follows;
      copy := new Hash(bucket.Length, matches, hash);
      for i := 0 to bucket.Length
        invariant copy.Consistent() && fresh(copy.Repr)
        invariant copy.matches == matches && copy.hash == hash && copy.bucket.Length == bucket.Length
        invariant forall j :: 0 <= j < i ==> copy.chains[j] == RotateRight(chains[j])
        invariant forall j :: i <= j < bucket.Length ==> copy.bucket[j] == null && copy.chains[j] == []
      {
        if bucket[i] != null {
          var l := DuplicateBucket(bucket[i], chains[i], matches);
          RotateRightBag(chains[i]);
          copy.Install(i, l, RotateRight(chains[i]));
        }
      }
      SameBags(copy.chains, chains);
      copy.Restart();
    }

    /** Starts the history with adds of what is there. */
    ghost method Restart()
      requires Consistent()
      modifies this`history, this`trace
      ensures Valid()
    {
      hide Lawful, Holds, Sum, FlatRun;
      history, trace := InsertRun(matches, Contents());
    }
  }

  lemma TraceLength<V(!new)>(matches: (V, V) -> bool, ops: seq<FlatOp<V>>, trace: seq<multiset<V>>)
    requires FlatRun(matches, ops, trace)
    ensures |trace| == |ops| + 1
  {
  }

  lemma EmptyHasNoMatch<V(!new)>(matches: (V, V) -> bool, key: V)
    ensures !HasMatch(matches, multiset{}, key) && WithoutFirst(matches, [], key, [])
  {
  }

  /** The chain of one bucket loses its first match; the others stay. */
  ghost predicate Taken<V>(before: seq<seq<V>>, after: seq<seq<V>>, i: nat, matches: (V, V) -> bool, key: V) {
    && i < |before| == |after| && after == before[i := after[i]]
    && WithoutFirst(matches, before[i], key, after[i])
  }

  lemma InChain<V(!new)>(matches: (V, V) -> bool, chain: seq<V>, key: V)
    ensures HasMatch(matches, multiset(chain), key) <==> !NoMatch(matches, chain, key)
  {
    if !NoMatch(matches, chain, key) {
      var j :| 0 <= j < |chain| && matches(chain[j], key);
      assert chain[j] in multiset(chain);
    } else {
      forall v | v in multiset(chain) ensures !matches(v, key) {
        assert v in chain;
      }
    }
  }

  lemma SameMatches<V(!new)>(matches: (V, V) -> bool, c: multiset<V>, d: multiset<V>, key: V)
    requires forall v :: v in c && matches(v, key) <==> v in d && matches(v, key)
    ensures HasMatch(matches, c, key) <==> HasMatch(matches, d, key)
  {
  }

  lemma FirstIsStored<V(!new)>(chains: seq<seq<V>>, b: nat, matches: (V, V) -> bool, key: V, i: int)
    requires b < |chains| && FirstMatch(matches, chains[b], key, i)
    ensures 0 <= i < |chains[b]| && chains[b][i] in Sum(Bags(chains)) && matches(chains[b][i], key)
    ensures !NoMatch(matches, chains[b], key)
  {
    SumMember(Bags(chains), chains[b][i]);
    assert chains[b][i] in Bags(chains)[b];
  }

  lemma SameBags<V(!new)>(a: seq<seq<V>>, b: seq<seq<V>>)
    requires |a| == |b| && forall i :: 0 <= i < |a| ==> a[i] == RotateRight(b[i])
    ensures Bags(a) == Bags(b)
  {
    hide RotateRight;
    forall i | 0 <= i < |a| ensures Bags(a)[i] == Bags(b)[i] {
      RotateRightBag(b[i]);
    }
  }

  method CountBucket<V(!new)>(l: List<V, V>, ghost chain: seq<V>, ghost matches: (V, V) -> bool) returns (n: nat)
    requires Holds(l, chain, matches)
    ensures n == |chain|
  {
    n := l.Count();
  }

  method DuplicateBucket<V(!new)>(l: List<V, V>, ghost chain: seq<V>, ghost matches: (V, V) -> bool)
    returns (copy: List<V, V>)
    requires Holds(l, chain, matches)
    ensures Holds(copy, RotateRight(chain), matches) && fresh(copy.Repr) && copy in copy.Repr
  {
    hide Wf, List.Consistent, Run, Duplicated;
    copy := l.Duplicate();
    CopyOfRunRotates(l.cfg, l.history);
  }

  /** Taking a match out of one bucket takes it out of the whole; matches elsewhere there are none. */
  lemma DeleteFromSum<V(!new)>(matches: (V, V) -> bool, bags: seq<multiset<V>>, i: nat, key: V, left: multiset<V>)
    requires i < |bags| && FlatStep(matches, bags[i], Delete(key), left)
    requires HasMatch(matches, Sum(bags), key) <==> HasMatch(matches, bags[i], key)
    ensures FlatStep(matches, Sum(bags), Delete(key), Sum(bags[i := left]))
    ensures left <= bags[i]
  {
    if HasMatch(matches, bags[i], key) {
      var v :| v in bags[i] && matches(v, key) && bags[i] == left + multiset{v};
      var b := bags[i := left];
      SumAdd(b, i, multiset{v});
      assert b[i := bags[i]] == bags;
      SumMember(bags, v);
      assert TakesOut(matches, Sum(bags), Sum(b), key);
    } else {
      assert bags[i := left] == bags;
    }
  }
}
