/** The doubly linked list, spliced in place, proved to do what ListModel says. */
module LinkedList {
  import opened Options
  import opened ListModel
  import opened Sorting
  import opened ListOrder
  import opened Text
  import opened Displays

  class Node<V> {
    var next: Node?<V>
    var prev: Node?<V>
    const value: V
    ghost const id: nat  // the number of the add that created the node

    constructor (prev: Node?<V>, next: Node?<V>, value: V, ghost id: nat)
      ensures this.prev == prev && this.next == next && this.value == value && this.id == id
    {
      this.prev := prev;
      this.next := next;
      this.value := value;
      this.id := id;
    }
  }

  ghost function NodeAt<V>(nodes: seq<Node<V>>, i: int): Node?<V> {
    if 0 <= i < |nodes| then nodes[i] else null
  }

  /** The nodes form an acyclic chain in which `prev` mirrors `next`. */
  ghost predicate Chain<V>(nodes: seq<Node<V>>)
    reads nodes
  {
    && (forall i, j :: 0 <= i < j < |nodes| ==> nodes[i] != nodes[j])
    && (forall i {:trigger nodes[i].next} :: 0 <= i < |nodes| ==> nodes[i].next == NodeAt(nodes, i + 1))
    && (forall i {:trigger nodes[i].prev} :: 0 <= i < |nodes| ==> nodes[i].prev == NodeAt(nodes, i - 1))
  }

  lemma ChainLinks<V>(nodes: seq<Node<V>>, n: Node<V>)
    requires Chain(nodes) && n in nodes
    ensures n.next != null ==> n.next in nodes && n.next.prev == n
    ensures n.prev != null ==> n.prev in nodes && n.prev.next == n
  {
    var i :| 0 <= i < |nodes| && nodes[i] == n;
    assert n.next == NodeAt(nodes, i + 1) && n.prev == NodeAt(nodes, i - 1);
  }

  lemma ChainEnds<V>(nodes: seq<Node<V>>)
    requires Chain(nodes)
    ensures nodes != [] ==> nodes[|nodes| - 1].next == null
    ensures forall i, j :: 0 <= i < j < |nodes| ==> nodes[i] != nodes[j]
  {
  }

  ghost predicate Mirrors<V>(nodes: seq<Node<V>>, items: seq<Item<V>>) {
    && |nodes| == |items|
    && (forall i {:trigger nodes[i].id} :: 0 <= i < |nodes| ==> nodes[i].id == items[i].id)
    && (forall i {:trigger nodes[i].value} :: 0 <= i < |nodes| ==> nodes[i].value == items[i].value)
  }

  /** A ring slot refers to the node with id k, or is NULL when no linked node has that id. */
  ghost predicate SlotHolds<V>(slot: Node?<V>, nodes: seq<Node<V>>, k: nat) {
    if slot == null then forall i {:trigger nodes[i].id} :: 0 <= i < |nodes| ==> nodes[i].id != k
    else slot in nodes && slot.id == k
  }

  /** Each slot holds the latest node added under its number modulo the ring size, if it is still linked. */
  ghost predicate RingHolds<V>(ring: array<Node?<V>>, nodes: seq<Node<V>>, adds: nat)
    reads ring
  {
    forall j :: 0 <= j < ring.Length ==> SlotHolds(ring[j], nodes, Latest(adds, ring.Length, j))
  }

  class List<V(!new), K> {
    const cfg: Config<V, K>
    var first: Node?<V>
    var last: Node?<V>
    const recent: array<Node?<V>>  // empty where C leaves the pointer NULL
    var recentOffset: nat

    ghost var nodes: seq<Node<V>>  // the chain from `first`
    ghost var model: State<V>
    ghost var history: seq<Op<V, K>>  // every call so far
    ghost var Repr: set<object>

    ghost function At(i: int): Node?<V>
      reads this
    {
      NodeAt(nodes, i)
    }

    /** The heap holds the chain, the ring and the positions the model describes. */
    ghost predicate Consistent()
      reads this, Repr
      ensures Consistent() ==> this in Repr && Wf(model) && -1 <= model.last < |nodes| == |model.items|
    {
      && this in Repr && recent in Repr
      && Legal(cfg) && Wf(model)
      && Mirrors(nodes, model.items)
      && (forall i :: 0 <= i < |nodes| ==> nodes[i] in Repr)
      && Chain(nodes) && first == At(0) && last == At(model.last)
      && (if cfg.norecent > 0
          then recent.Length == cfg.norecent && recentOffset == SlotOf(model.adds, cfg.norecent)
               && RingHolds(recent, nodes, model.adds)
          else recent.Length == 0 && recentOffset == 0)
    }

    /** ... and the model is where the calls made so far lead, so whatever holds of every run holds here. */
    ghost predicate Valid()
      reads this, Repr
      ensures Valid() ==> this in Repr && Wf(model)
    {
      Consistent() && model == Run(cfg, history)
    }

    constructor (norecent: int, matches: (V, K) -> bool, sort: Option<(V, V) -> int>)
      ensures Valid() && fresh(Repr)
      ensures history == [] && model == Empty()
      ensures cfg == Config(if norecent > 0 || norecent == -1 then norecent else 0, matches, sort)
    {
      var kept := if norecent > 0 || norecent == REORDER then norecent else 0;
      cfg := Config(kept, matches, sort);
      var slots := new Node?<V>[if norecent < 1 then 0 else kept](_ => null);
      recent := slots;
      recentOffset := 0;
      first, last := null, null;
      nodes, model, history := [], Empty(), [];
      Repr := {this, slots};
    }

    /** What slot j holds is what the model's Slot says. */
    lemma SlotNode(j: nat)
      requires Consistent() && j < cfg.norecent
      ensures recent[j] == (match Slot(model, cfg.norecent, j) case None => null case Some(i) => nodes[i])
    {
      var r := Slot(model, cfg.norecent, j);
      assert SlotHolds(recent[j], nodes, Latest(model.adds, recent.Length, j));
      forall i | 0 <= i < |nodes| ensures model.items[i].id == nodes[i].id {
      }
      if recent[j] != null {
        var i :| 0 <= i < |nodes| && nodes[i] == recent[j];
        assert model.items[i].id == recent[j].id;
      }
    }

    /** The chain from `first` is acyclic and mirrored; `last` is NULL or in it, and outside move-to-front
        mode it is always the tail. */
    lemma ChainFacts()
      requires Valid()
      ensures first == (if nodes == [] then null else nodes[0])
      ensures forall i, j :: 0 <= i < j < |nodes| ==> nodes[i] != nodes[j]
      ensures forall n :: n in nodes && n.next != null ==> n.next in nodes && n.next.prev == n
      ensures forall n :: n in nodes && n.prev != null ==> n.prev in nodes && n.prev.next == n
      ensures last == null || last in nodes
      ensures cfg.norecent >= 0 ==> last == if nodes == [] then null else nodes[|nodes| - 1]
      ensures cfg.norecent >= 0 && last != null ==> last.next == null
    {
      hide Wf, Mirrors, RingHolds, Run, Chain;
      if cfg.norecent >= 0 {
        LastIsTail(cfg, history);
      }
      ChainEnds(nodes);
      forall n | n in nodes
        ensures n.next != null ==> n.next in nodes && n.next.prev == n
        ensures n.prev != null ==> n.prev in nodes && n.prev.next == n
      {
        ChainLinks(nodes, n);
      }
    }

    /** With a lawful comparator, outside move-to-front mode, the values stay in order. */
    lemma StaysSorted(cmp: (V, V) -> int)
      requires Valid() && cfg.norecent >= 0 && cfg.sort == Some(cmp) && TotalPreorder(cmp)
      ensures Sorted(cmp, Values(model.items))
      ensures model.items == StableSort(ByValue(cmp), StillPresent(Log(history), model.items))
    {
      hide Consistent, Run, Wf;
      RunSorted(cfg, cmp, history);
      RunIsStableSort(cfg, cmp, history);
    }

    /** In every mode, what was added and is no longer there was taken out by a removal that it matches. */
    lemma LostWhen(x: Item<V>) returns (i: nat)
      requires Valid() && x in Log(history) && x !in model.items
      ensures i < |history| && history[i].Remove? && cfg.matches(x.value, history[i].key)
      ensures x in Run(cfg, history[..i]).items && x !in Run(cfg, history[..i + 1]).items
    {
      hide Consistent, Run, Wf;
      i := LostByRemoval(cfg, history, x);
    }

    /** Notes a call that has taken the model from `before` to where it is now. */
    ghost method Record(op: Op<V, K>, before: State<V>)
      requires Consistent() && before == Run(cfg, history) && model == Step(cfg, before, op)
      modifies this`history
      ensures Valid() && history == old(history) + [op]
    {
      hide Wf, Mirrors, Chain, RingHolds, SlotOf, Run, Step;
      RunPush(cfg, history, op);
      history := history + [op];
    }

    /** The node the new value goes behind: the head when unsorted, else found walking back from `last`. */
    method FindPredecessor(value: V) returns (prev: Node?<V>, ghost p: int)
      requires Consistent()
      ensures p == Predecessor(cfg, model, value) && prev == At(p)
    {
      if cfg.sort.None? {
        return first, if nodes == [] then -1 else 0;
      }
      prev := last;
      p := model.last;
      while prev != null && cfg.sort.value(value, prev.value) < 0
        invariant -1 <= p <= model.last && prev == At(p)
        invariant WalkBack(cfg.sort.value, model.items, value, p)
                  == WalkBack(cfg.sort.value, model.items, value, model.last)
        decreases p + 1
      {
        prev := prev.prev;
        p := p - 1;
      }
    }

    /** Links e behind prev, or at the front when prev is NULL, turning the chain s into t. */
    method Link(prev: Node?<V>, e: Node<V>, ghost s: seq<Node<V>>, ghost t: seq<Node<V>>, ghost p: int)
      requires Chain(s) && -1 <= p && prev == NodeAt(s, p) && first == NodeAt(s, 0)
      requires e !in s && e.prev == prev && e.next == if prev == null then null else prev.next
      requires Inserts(s, t, p + 1, e)
      modifies this`first, this`last, s, e
      ensures Chain(t) && first == NodeAt(t, 0)
      ensures last == if prev == old(last) then e else old(last)
    {
      if prev != null {
        if prev.next != null {
          prev.next.prev := e;
        }
        prev.next := e;
      }
      if prev == last {
        last := e;
      }
      if prev == null {
        e.next := first;
        if first != null {
          first.prev := e;
        }
        first := e;
      }
    }

    /** Puts the new node e into the next slot of the ring. */
    method Remember(e: Node<V>, ghost s: seq<Node<V>>, ghost t: seq<Node<V>>, ghost pos: nat)
      requires e.id > 0 && recent.Length == cfg.norecent > 0 && recentOffset == SlotOf(e.id - 1, cfg.norecent)
      requires RingHolds(recent, s, e.id - 1) && Inserts(s, t, pos, e) && Chain(t)
      modifies this`recentOffset, recent
      ensures recentOffset == SlotOf(e.id, cfg.norecent)
      ensures RingHolds(recent, t, e.id) && Chain(t)
    {
      NextOffset(e.id - 1, cfg.norecent);
      recentOffset := (recentOffset + 1) % cfg.norecent;
      recent[recentOffset] := e;
      forall j | 0 <= j < recent.Length ensures SlotHolds(recent[j], t, Latest(e.id, recent.Length, j)) {
        if j == recentOffset {
          assert t[pos] == e;
        } else {
          SlotKept(old(recent[j]), s, t, Latest(e.id - 1, recent.Length, j), e, pos);
        }
      }
    }

    method Attach(prev: Node?<V>, e: Node<V>, ghost p: int)
      requires Consistent() && e !in Repr && e.id == model.adds + 1
      requires p == Predecessor(cfg, model, e.value) && prev == At(p)
      requires e.prev == prev && e.next == if prev == null then null else prev.next
      modifies Repr, e
      ensures Consistent() && Repr == old(Repr) + {e} && history == old(history)
      ensures model == AddTo(cfg, old(model), e.value)
    {
      hide AddTo, InsertAt, Wf, Predecessor, SlotHolds, RingHolds, Latest, SlotOf, Mirrors, Chain, Inserts;
      ghost var s := nodes;
      ghost var t := AddMirrors(cfg, model, s, e);
      Link(prev, e, s, t, p);
      if cfg.norecent > 0 {
        Remember(e, s, t, p + 1);
      }
      nodes, model, Repr := t, AddTo(cfg, model, e.value), Repr + {e};
    }

    method Add(value: V)
      requires Valid()
      modifies Repr
      ensures Valid() && fresh(Repr - old(Repr))
      ensures history == old(history) + [Op.Add(value)] && model == AddTo(cfg, old(model), value)
    {
      hide AddTo, Wf, Predecessor, Consistent, Run;
      var prev, p := FindPredecessor(value);
      var e := new Node(prev, if prev == null then null else prev.next, value, model.adds + 1);
      Attach(prev, e, p);
      Record(Op.Add(value), old(model));
    }

    /** The ring, slot by slot. */
    method FindRecent(key: K) returns (e: Node?<V>, ghost found: Option<nat>)
      requires Consistent()
      ensures found == RingFind(cfg, model, key, 0)
      ensures found.Some? ==> found.value < |nodes|
      ensures e == if found.Some? then nodes[found.value] else null
    {
      hide AddTo, InsertAt, Wf, SlotHolds, Latest, SlotOf, Chain;
      var i := 0;
      while i < cfg.norecent
        invariant 0 <= i && RingFind(cfg, model, key, i) == RingFind(cfg, model, key, 0)
      {
        SlotNode(i);
        e := recent[i];
        if e != null && cfg.matches(e.value, key) {
          return e, Slot(model, cfg.norecent, i);
        }
        i := i + 1;
      }
      return null, None;
    }

    /** The chain, from the front. */
    method FindFirst(key: K) returns (e: Node?<V>, ghost found: Option<nat>)
      requires Consistent()
      ensures found == ScanFind(cfg, model.items, key, 0)
      ensures e == if found.Some? then At(found.value) else null
    {
      hide Consistent;
      ghost var k := 0;
      e := First();
      while e != null && !cfg.matches(e.value, key)
        invariant 0 <= k <= |model.items| && e == At(k) && (e == null <==> k == |model.items|)
        invariant ScanFind(cfg, model.items, key, k) == ScanFind(cfg, model.items, key, 0)
        decreases |model.items| - k
      {
        var v := ValueOf(e, k);
        e := Next(e, k);
        k := k + 1;
      }
      if e == null {
        return e, None;
      }
      var v := ValueOf(e, k);
      return e, Some(k);
    }

    /** Consults the ring, then scans; `found` is the position of the node returned. */
    method FindNode(key: K) returns (e: Node?<V>, ghost found: Option<nat>)
      requires Consistent()
      ensures found == Find(cfg, model, key)
      ensures found.Some? ==> found.value < |nodes| && (e == first <==> found.value == 0)
      ensures found.Some? ==> Answers(cfg, model, key, found.value)
      ensures e == null ==> NoneMatches(cfg, model, key)
      ensures e == if found.Some? then nodes[found.value] else null
    {
      hide Wf, Mirrors, RingHolds, RingFind, ScanFind, Answers;
      FindAnswers(cfg, model, key);
      e, found := FindRecent(key);
      if e == null {
        e, found := FindFirst(key);
      }
    }

    method Next(e: Node<V>, ghost k: nat) returns (n: Node?<V>)
      requires Consistent() && e == At(k)
      ensures n == At(k + 1) && k < |model.items| && (n == null <==> k + 1 == |model.items|)
    {
      n := e.next;
    }

    method Previous(e: Node<V>, ghost k: nat) returns (n: Node?<V>)
      requires Consistent() && k < |nodes| && e == At(k)
      ensures n == At(k - 1)
      ensures k < |model.items| && e.value == model.items[k].value
    {
      n := e.prev;
    }

    /** Moves e from position i of the chain s to its front, giving t. */
    method Promote(e: Node<V>, ghost s: seq<Node<V>>, ghost t: seq<Node<V>>, ghost i: nat)
      requires Chain(s) && 0 < i < |s| && e == s[i] && first == s[0]
      requires Moves(s, t, i)
      modifies this`first, this`last, s
      ensures Chain(t) && first == NodeAt(t, 0)
      ensures last == if old(last) == e then t[1] else old(last)
    {
      hide Moves;
      if e.prev != null {
        e.prev.next := e.next;
      }
      if e.next != null {
        e.next.prev := e.prev;
      }
      first.prev := e;
      e.next := first;
      e.prev := null;
      first := e;
      PromotedChain(s, t, i);
      if last == e {
        last := e.next;
      }
    }

    /** `__vanessa_list_get_element`: the node found, moved to the front when the list reorders. */
    method GetNode(key: K) returns (e: Node?<V>)
      requires Consistent()
      modifies Repr
      ensures Consistent() && Repr == old(Repr) && history == old(history)
      ensures model == GetFrom(cfg, old(model), key).0
      ensures var found := GetFrom(cfg, old(model), key).1;
              e == if found.Some? then nodes[found.value] else null
    {
      hide Wf, SlotHolds, RingHolds, Latest, SlotOf, Mirrors, Chain, Moves, MoveToFront, Find;
      ghost var found;
      e, found := FindNode(key);
      if e != null && cfg.norecent == REORDER && first != e {
        ghost var s := nodes;
        ghost var t := MoveMirrors(model, s, found.value);
        Promote(e, s, t, found.value);
        nodes, model := t, MoveToFront(model, found.value);
      }
    }

    lemma NodeValue(i: nat)
      requires Consistent() && i < |model.items|
      ensures i < |nodes| && nodes[i].value == model.items[i].value
    {
    }

    method Get(key: K) returns (r: Option<V>)
      requires Valid()
      modifies Repr
      ensures Valid() && Repr == old(Repr)
      ensures history == old(history) + [Op.Get(key)] && model == GetFrom(cfg, old(model), key).0
      ensures var found := Find(cfg, old(model), key);
              r == if found.Some? then Some(old(model).items[found.value].value) else None
      ensures r.None? ==> NoneMatches(cfg, old(model), key) && model == old(model)
      ensures r.Some? ==>
                exists i :: Answers(cfg, old(model), key, i) && r.value == old(model).items[i].value
                            && Brought(cfg, old(model), i, model)
    {
      hide Wf, Run, Consistent, Find, Answers, NoneMatches, GetFrom;
      GetAnswers(cfg, model, key);
      var e := GetNode(key);
      if e != null {
        NodeValue(GetFrom(cfg, old(model), key).1.value);
      }
      Record(Op.Get(key), old(model));
      if e == null {
        return None;
      }
      return Some(e.value);
    }

    /** Unlinks e, at position i of the chain s, leaving t. */
    method Unlink(e: Node<V>, ghost s: seq<Node<V>>, ghost t: seq<Node<V>>, ghost i: nat)
      requires Chain(s) && i < |s| && e == s[i] && first == s[0]
      requires Deletes(s, t, i)
      modifies this`first, this`last, s
      ensures Chain(t) && first == NodeAt(t, 0)
      ensures last == if old(last) == e then NodeAt(s, i - 1) else old(last)
    {
      hide Deletes;
      if first == e {
        first := e.next;
      }
      if last == e {
        last := e.prev;
      }
      if e.next != null {
        e.next.prev := e.prev;
      }
      if e.prev != null {
        e.prev.next := e.next;
      }
      UnlinkedChain(s, t, i);
    }

    /** Clears every slot that refers to e, whose id no node left in the chain has. */
    method Forget(e: Node<V>, ghost s: seq<Node<V>>, ghost t: seq<Node<V>>, ghost i: nat, ghost adds: nat)
      requires recent.Length == if cfg.norecent > 0 then cfg.norecent else 0
      requires RingHolds(recent, s, adds) && i < |s| && e == s[i] && Deletes(s, t, i) && Chain(t)
      requires forall k {:trigger t[k].id} :: 0 <= k < |t| ==> t[k].id != e.id
      modifies recent
      ensures RingHolds(recent, t, adds) && Chain(t)
    {
      hide Latest, SlotOf;
      var j := 0;
      while j < cfg.norecent
        invariant 0 <= j <= recent.Length
        invariant forall k :: 0 <= k < recent.Length ==>
                    recent[k] == if k < j && old(recent[k]) == e then null else old(recent[k])
      {
        if recent[j] == e {
          recent[j] := null;
        }
        j := j + 1;
      }
      forall k | 0 <= k < recent.Length ensures SlotHolds(recent[k], t, Latest(adds, recent.Length, k)) {
        SlotLeft(old(recent[k]), s, t, Latest(adds, recent.Length, k), e, i);
      }
    }

    method RemoveNode(e: Node<V>, ghost i: nat)
      requires Consistent() && i < |model.items| && e == At(i)
      modifies Repr
      ensures Consistent() && Repr == old(Repr) && history == old(history)
      ensures model == RemoveAt(old(model), i)
    {
      hide Wf, SlotHolds, RingHolds, Latest, SlotOf, Mirrors, Chain, Deletes, RemoveAt;
      ghost var s := nodes;
      ghost var t := RemoveMirrors(model, s, i);
      Unlink(e, s, t, i);
      if cfg.norecent > 0 {
        Forget(e, s, t, i, model.adds);
      }
      nodes, model := t, RemoveAt(model, i);
    }

    method Remove(key: K)
      requires Valid()
      modifies Repr
      ensures Valid() && Repr == old(Repr)
      ensures history == old(history) + [Op.Remove(key)] && model == RemoveFrom(cfg, old(model), key)
      ensures NoneMatches(cfg, old(model), key) ==> model == old(model)
      ensures !NoneMatches(cfg, old(model), key) ==>
                exists i :: Answers(cfg, old(model), key, i)
                            && model.items == old(model).items[..i] + old(model).items[i + 1..]
    {
      hide Wf, Run, Consistent, Find, Answers, NoneMatches;
      RemoveAnswers(cfg, model, key);
      var e := GetNode(key);
      if e != null {
        RemoveNode(e, GetFrom(cfg, old(model), key).1.value);
      }
      Record(Op.Remove(key), old(model));
    }

    method Count() returns (count: nat)
      requires Valid()
      ensures count == |model.items|
    {
      count := 0;
      var e := first;
      while e != null
        invariant count <= |nodes| && e == At(count)
        decreases |nodes| - count
      {
        e := Next(e, count);
        count := count + 1;
      }
    }

    /** The elements' lengths and a delimiter between each two. */
    method Length(length: V -> nat) returns (len: nat)
      requires Valid()
      ensures len == if model.items == [] then 0 else Sum(Lengths(Elements(model), length)) + |model.items| - 1
    {
      hide Wf, Chain, Mirrors, RingHolds, Run, Sum, Elements;
      if first == null {
        return 0;
      }
      ghost var lengths := Lengths(Elements(model), length);
      assert lengths[..0] == [] && Sum([]) == 0 by {
        EmptySum();
      }
      len := 0;
      var e := first;
      ghost var k := 0;
      while e != null
        invariant 0 <= k <= |nodes| && e == At(k)
        invariant len == Sum(lengths[..k]) + k
        decreases |nodes| - k
      {
        SumStep(lengths, k);
        var v := ValueOf(e, k);
        len := len + length(v);
        len := len + 1;
        e := Next(e, k);
        k := k + 1;
      }
      assert lengths[..k] == lengths;
      len := len - 1;
    }

    method ValueOf(e: Node<V>, ghost k: nat) returns (v: V)
      requires Consistent() && k < |model.items| && e == At(k)
      ensures v == e.value == model.items[k].value
    {
      v := e.value;
    }

    lemma LegalMode()
      requires Consistent()
      ensures Legal(cfg)
    {
    }

    method Last() returns (e: Node?<V>)
      requires Consistent()
      ensures e == At(model.last)
    {
      e := last;
    }

    method First() returns (e: Node?<V>)
      requires Consistent()
      ensures e == At(0) && (e == null <==> model.items == [])
    {
      e := first;
    }

    /** The display's loop: every text that has a length, then the delimiter behind that length. Stops where a text does
        not fit the buffer. `len` is the last length. */
    method WriteElements(buffer: array<char>, show: V -> string, length: V -> nat, delimiter: char)
      returns (end: nat, len: nat, inBounds: bool, ghost segments: seq<string>)
      requires Consistent() && model.items != [] && buffer !in Repr
      requires buffer.Length == Sum(Lengths(Elements(model), length)) + |model.items|
      modifies buffer
      ensures inBounds <==> Fits(Lengths(Elements(model), length), Shown(Elements(model), show), buffer.Length)
      ensures inBounds ==>
                && end <= buffer.Length && len == Lengths(Elements(model), length)[|model.items| - 1]
                && |segments| == |model.items|
                && Written(buffer[..end], segments, Lengths(Elements(model), length), Shown(Elements(model), show),
                           delimiter)
    {
      hide Consistent, Sum, Written, Elements, FitsUpTo;
      ghost var lengths, texts := Lengths(Elements(model), length), Shown(Elements(model), show);
      WrittenNone(lengths, texts, delimiter);
      FitsNone(lengths, texts, buffer.Length);
      var e := First();
      end, len, segments := 0, 0, [];
      assert buffer[..0] == "";
      while e != null
        invariant Consistent() && |segments| <= |texts| && e == At(|segments|) && (e == null <==> |segments| == |texts|)
        invariant end <= buffer.Length && Written(buffer[..end], segments, lengths, texts, delimiter)
        invariant FitsUpTo(lengths, texts, buffer.Length, |segments|)
        invariant |segments| > 0 ==> len == lengths[|segments| - 1]
        decreases |texts| - |segments|
      {
        ghost var k := |segments|;
        var v := ValueOf(e, k);
        e := Next(e, k);
        len := length(v);
        end, inBounds, segments := WriteNext(buffer, end, show(v), len, delimiter, segments, lengths, texts);
        if !inBounds {
          return;
        }
      }
      inBounds := true;
    }

    /** Writes the texts into a buffer of Length and one more characters; `inBounds` says whether every text fits there,
        where C would otherwise overrun it. Then it holds what each text left, joined by the delimiter, and at `end` the
        terminator. The last delimiter is overwritten only when the last length is not 0. When it is, `end` lies behind
        the buffer, where C stores all the same and the model does not. */
    method Display(show: V -> string, length: V -> nat, delimiter: char)
      returns (buffer: array?<char>, end: nat, inBounds: bool, ghost segments: seq<string>)
      requires Valid()
      ensures buffer == null <==> model.items == []
      ensures buffer != null ==>
                var lengths, texts := Lengths(Elements(model), length), Shown(Elements(model), show);
                && fresh(buffer) && buffer.Length == Sum(lengths) + |lengths|
                && (inBounds <==> Fits(lengths, texts, buffer.Length))
                && (inBounds ==>
                      && end == DisplayEnd(lengths) && Left(segments, lengths, texts) && |segments| == |texts|
                      && buffer[..] == Join(segments, delimiter) + if end < buffer.Length then ['\0'] else [delimiter])
    {
      hide Consistent, Run, Sum, Written, Join, Elements, FitsUpTo;
      var e := First();
      if e == null {
        return null, 0, true, [];
      }
      ghost var lengths, texts := Lengths(Elements(model), length), Shown(Elements(model), show);
      var nochar := Length(length);
      var b := new char[nochar + 1];
      var len;
      end, len, inBounds, segments := WriteElements(b, show, length, delimiter);
      if inBounds {
        WrittenAll(b[..end], segments, lengths, texts, delimiter);
        assert b[..end] == b[..];
        if len != 0 {
          end := end - 1;
        }
        if end < b.Length {
          b[end] := '\0';
        }
      }
      buffer := b;
    }

    lemma LastNode()
      requires Consistent()
      ensures last == null <==> model.last == -1
      ensures forall k :: 0 <= k < |nodes| && nodes[k] == last ==> k == model.last
    {
      hide Wf, Mirrors, RingHolds;
      ChainEnds(nodes);
    }

    /** A copy holds the values of the nodes from `first` to `last`. */
    lemma CopyReaches(copied: seq<Item<V>>)
      requires Consistent() && copied == Duplicated(cfg, model).items
      ensures last == null ==> copied == []
      ensures forall k :: 0 <= k < |nodes| && nodes[k] == last ==>
                && k < |model.items| && |copied| == k + 1
                && multiset(Values(copied)) == multiset(Values(model.items)[..k + 1])
    {
      hide *;
      LastNode();
      DuplicateMembers(cfg, model);
    }

    /** Copies from `last` back to `first`, adding each value to a fresh list, which then holds the values of the nodes
        from `first` to `last`. */
    method Duplicate() returns (copy: List<V, K>)
      requires Valid()
      ensures copy.Valid() && fresh(copy.Repr) && copy.cfg == cfg
      ensures copy.model == Duplicated(cfg, model)
      ensures last == null ==> copy.model.items == []
      ensures forall k :: 0 <= k < |nodes| && nodes[k] == last ==>
                k < |model.items| && |copy.model.items| == k + 1
                && multiset(Values(copy.model.items)) == multiset(Values(model.items)[..k + 1])
    {
      hide Wf, Consistent, AddTo, Run, AddAll, Reverse;
      copy := new List(cfg.norecent, cfg.matches, cfg.sort);
      LegalMode();
      var e := Last();
      ghost var p, vs := model.last, Reverse(Copied(model));
      ghost var done: seq<V> := [];
      AddNone(cfg);
      ReverseAt(Copied(model));
      while e != null
        invariant -1 <= p < |nodes| && e == At(p)
        invariant copy.Valid() && fresh(copy.Repr) && copy.cfg == cfg
        invariant done == vs[..model.last - p]
        invariant copy.model == AddAll(cfg, Empty(), done)
        decreases p + 1
      {
        copy.Add(e.value);
        AddAllPush(cfg, Empty(), done, e.value);
        var n := Previous(e, p);
        assert e.value == vs[model.last - p];
        done := done + [e.value];
        e := n;
        p := p - 1;
      }
      assert done == vs;
      CopyReaches(copy.model.items);
    }
  }

  /** The elements of a list, none of them NULL. */
  ghost function Elements<V>(s: State<V>): (r: seq<Option<V>>)
    ensures |r| == |s.items|
    ensures forall i :: 0 <= i < |r| ==> r[i] == Some(s.items[i].value)
  {
    Somes(Values(s.items))
  }

  /** Where the list's display stores the terminator. */
  ghost function DisplayEnd(lengths: seq<nat>): (end: nat)
    requires lengths != []
    ensures end < Sum(lengths) + |lengths| <==> lengths[|lengths| - 1] != 0
  {
    Sum(lengths) + |lengths| - if lengths[|lengths| - 1] != 0 then 1 else 0
  }

  lemma EmptySum()
    ensures Sum([]) == 0
  {
  }

  /** The strings "a" and "" fit a buffer of three characters, but the terminator goes to the fourth. */
  lemma EmptyLastText()
    ensures var elements := Somes(["a", ""]);
            var lengths, texts := Lengths(elements, StrLen), Shown(elements, Itself);
            && Sum(lengths) + |elements| == 3 && Fits(lengths, texts, 3) && DisplayEnd(lengths) == 3
  {
    var elements := Somes(["a", ""]);
    var lengths := Lengths(elements, StrLen);
    assert lengths == [1, 0] && [1, 0][1..] == [0] && [0][1..] == [];
    assert Sum([0]) == 0;
    ExactFits(lengths, Shown(elements, Itself), 3);
  }

  lemma AddNone<V, K>(cfg: Config<V, K>)
    ensures AddAll(cfg, Empty(), []) == Empty<V>()
  {
  }

  /** The sequence t is s with x put in at pos. */
  ghost predicate Inserts<T>(s: seq<T>, t: seq<T>, pos: nat, x: T) {
    && pos <= |s| && |t| == |s| + 1
    && (forall i {:trigger t[i]} :: 0 <= i < |t| ==> t[i] == if i < pos then s[i] else if i == pos then x else s[i - 1])
  }

  /** Inserting the node where the model inserts the item keeps chain and items in step, `last` included. */
  lemma AddMirrors<V, K>(cfg: Config<V, K>, s: State<V>, nodes: seq<Node<V>>, e: Node<V>) returns (t: seq<Node<V>>)
    requires Wf(s) && Mirrors(nodes, s.items) && e.id == s.adds + 1 && Chain(nodes)
    ensures Inserts(nodes, t, Predecessor(cfg, s, e.value) + 1, e)
    ensures AddTo(cfg, s, e.value).adds == e.id && Mirrors(t, AddTo(cfg, s, e.value).items)
    ensures forall i :: 0 <= i < |t| ==> t[i] in nodes || t[i] == e
    ensures NodeAt(t, AddTo(cfg, s, e.value).last)
            == if NodeAt(nodes, Predecessor(cfg, s, e.value)) == NodeAt(nodes, s.last) then e else NodeAt(nodes, s.last)
  {
    hide WalkBack;
    var pos := Predecessor(cfg, s, e.value) + 1;
    t := InsertAt(nodes, pos, e);
    assert AddTo(cfg, s, e.value).items == InsertAt(s.items, pos, Item(s.adds + 1, e.value));
    InsertMirrors(nodes, s.items, pos, e);
    hide InsertAt, Mirrors, Predecessor;
    LastAfterInsert(nodes, t, pos, e, s.last);
  }

  lemma InsertMirrors<V>(nodes: seq<Node<V>>, items: seq<Item<V>>, pos: nat, e: Node<V>)
    requires Mirrors(nodes, items) && pos <= |nodes|
    ensures Mirrors(InsertAt(nodes, pos, e), InsertAt(items, pos, Item(e.id, e.value)))
    ensures Inserts(nodes, InsertAt(nodes, pos, e), pos, e)
  {
  }

  lemma LastAfterInsert<V>(nodes: seq<Node<V>>, t: seq<Node<V>>, pos: nat, e: Node<V>, last: int)
    requires Chain(nodes) && -1 <= last < |nodes| && Inserts(nodes, t, pos, e)
    ensures NodeAt(t, if pos - 1 == last then pos else if last >= pos then last + 1 else last)
            == if NodeAt(nodes, pos - 1) == NodeAt(nodes, last) then e else NodeAt(nodes, last)
    ensures forall i :: 0 <= i < |t| ==> t[i] in nodes || t[i] == e
  {
  }

  /** Linking a node with another id changes nothing about a slot. */
  lemma SlotKept<V>(slot: Node?<V>, s: seq<Node<V>>, t: seq<Node<V>>, k: nat, e: Node<V>, pos: nat)
    requires SlotHolds(slot, s, k) && e.id != k && Inserts(s, t, pos, e)
    ensures SlotHolds(slot, t, k)
  {
    if slot != null {
      var i :| 0 <= i < |s| && s[i] == slot;
      assert t[if i < pos then i else i + 1] == slot;
    }
  }

  /** The sequence t is s with its element i moved to the front. */
  ghost predicate Moves<T>(s: seq<T>, t: seq<T>, i: nat) {
    && i < |s| == |t|
    && (forall k {:trigger t[k]} :: 0 <= k < |t| ==> t[k] == if k == 0 then s[i] else if k <= i then s[k - 1] else s[k])
  }

  /** The sequence t is s without its element i. */
  ghost predicate Deletes<T>(s: seq<T>, t: seq<T>, i: nat) {
    && i < |s| == |t| + 1
    && (forall k {:trigger t[k]} :: 0 <= k < |t| ==> t[k] == if k < i then s[k] else s[k + 1])
  }

  /** The links of a chain whose node i has been put before the others are those of the moved chain. */
  lemma PromotedChain<V>(s: seq<Node<V>>, t: seq<Node<V>>, i: nat)
    requires 0 < i < |s| && Moves(s, t, i)
    requires forall j, k :: 0 <= j < k < |s| ==> s[j] != s[k]
    requires forall k {:trigger s[k].next} :: 0 <= k < |s| ==>
               s[k].next == if k == i then s[0] else if k == i - 1 then NodeAt(s, i + 1) else NodeAt(s, k + 1)
    requires forall k {:trigger s[k].prev} :: 0 <= k < |s| ==>
               s[k].prev == if k == i then null else if k == 0 then s[i]
                            else if k == i + 1 then s[i - 1] else NodeAt(s, k - 1)
    ensures |t| == |s| && Chain(t) && t[0] == s[i] && t[1] == s[0]
  {
    forall k | 0 <= k < |t| ensures t[k].next == NodeAt(t, k + 1) && t[k].prev == NodeAt(t, k - 1) {
      assert t[k] == s[if k == 0 then i else if k <= i then k - 1 else k];
    }
  }

  /** The links of a chain that bypass node i are those of the chain without it. */
  lemma UnlinkedChain<V>(s: seq<Node<V>>, t: seq<Node<V>>, i: nat)
    requires i < |s| && Deletes(s, t, i)
    requires forall j, k :: 0 <= j < k < |s| ==> s[j] != s[k]
    requires forall k {:trigger s[k].next} :: 0 <= k < |s| && k != i ==>
               s[k].next == if k == i - 1 then NodeAt(s, i + 1) else NodeAt(s, k + 1)
    requires forall k {:trigger s[k].prev} :: 0 <= k < |s| && k != i ==>
               s[k].prev == if k == i + 1 then NodeAt(s, i - 1) else NodeAt(s, k - 1)
    ensures Chain(t) && NodeAt(t, 0) == if i == 0 then NodeAt(s, 1) else s[0]
  {
    forall k | 0 <= k < |t| ensures t[k].next == NodeAt(t, k + 1) && t[k].prev == NodeAt(t, k - 1) {
      assert t[k] == s[if k < i then k else k + 1];
    }
  }

  lemma MoveMirrors<V>(s: State<V>, nodes: seq<Node<V>>, i: nat) returns (t: seq<Node<V>>)
    requires Wf(s) && Mirrors(nodes, s.items) && 0 < i < |nodes| && Chain(nodes)
    ensures Moves(nodes, t, i)
    ensures MoveToFront(s, i).adds == s.adds && Mirrors(t, MoveToFront(s, i).items)
    ensures forall k :: 0 <= k < |t| ==> t[k] in nodes
    ensures t[0] == nodes[i]
    ensures NodeAt(t, MoveToFront(s, i).last)
            == if NodeAt(nodes, s.last) == nodes[i] then t[1] else NodeAt(nodes, s.last)
  {
    t := [nodes[i]] + nodes[..i] + nodes[i + 1..];
    assert MoveToFront(s, i).items == [s.items[i]] + s.items[..i] + s.items[i + 1..];
    MovedMirrors(nodes, s.items, i);
    hide Mirrors;
  }

  lemma MovedMirrors<V>(nodes: seq<Node<V>>, items: seq<Item<V>>, i: nat)
    requires Mirrors(nodes, items) && 0 < i < |nodes|
    ensures Mirrors([nodes[i]] + nodes[..i] + nodes[i + 1..], [items[i]] + items[..i] + items[i + 1..])
  {
  }

  lemma RemoveMirrors<V>(s: State<V>, nodes: seq<Node<V>>, i: nat) returns (t: seq<Node<V>>)
    requires Wf(s) && Mirrors(nodes, s.items) && i < |nodes| && Chain(nodes)
    ensures Deletes(nodes, t, i)
    ensures RemoveAt(s, i).adds == s.adds && Mirrors(t, RemoveAt(s, i).items)
    ensures forall k :: 0 <= k < |t| ==> t[k] in nodes
    ensures forall k {:trigger t[k].id} :: 0 <= k < |t| ==> t[k].id != nodes[i].id
    ensures NodeAt(t, RemoveAt(s, i).last)
            == if NodeAt(nodes, s.last) == nodes[i] then NodeAt(nodes, i - 1) else NodeAt(nodes, s.last)
  {
    t := nodes[..i] + nodes[i + 1..];
    assert nodes[i].id == s.items[i].id;
  }

  /** Unlinking a node clears the slot that held it and touches no other. */
  lemma SlotLeft<V>(slot: Node?<V>, s: seq<Node<V>>, t: seq<Node<V>>, k: nat, e: Node<V>, i: nat)
    requires SlotHolds(slot, s, k) && Deletes(s, t, i) && e == s[i]
    requires forall j {:trigger t[j].id} :: 0 <= j < |t| ==> t[j].id != e.id
    ensures SlotHolds(if slot == e then null else slot, t, k)
  {
    if slot != null && slot != e {
      var j :| 0 <= j < |s| && s[j] == slot;
      assert t[if j < i then j else j - 1] == slot;
    }
  }
}
