/** The arena-backed doubly-linked list that the LRU, size-bound and TinyLFU
    stores share: a slot vector with a free list, head and tail slots, prev/next
    links between slots, and a map from keys to slots. */
module LinkedArena {
  import opened Machine
  import opened Recency

  datatype Node<+K, +V> = Node(key: K, value: V, prev: Option<nat>, next: Option<nat>)

  type Slots<+K, +V> = seq<Option<Node<K, V>>>

  /** Slot at position `i` of the list, `None` past either end. */
  function SlotAt(order: seq<nat>, i: int): Option<nat> {
    if 0 <= i < |order| then Some(order[i]) else None
  }

  ghost predicate AllOccupied<K, V>(nodes: Slots<K, V>, order: seq<nat>) {
    forall i :: 0 <= i < |order| ==> order[i] < |nodes| && nodes[order[i]].Some?
  }

  /** The node at position `i` points to its two neighbours in `order`. */
  ghost predicate LinkedAt<K, V>(nodes: Slots<K, V>, order: seq<nat>, i: nat)
    requires AllOccupied(nodes, order)
  {
    i < |order| ==>
      && nodes[order[i]].value.prev == SlotAt(order, i - 1)
      && nodes[order[i]].value.next == SlotAt(order, i + 1)
  }

  /** The links spell out `order` and nothing else. */
  ghost predicate Linked<K, V>(nodes: Slots<K, V>, order: seq<nat>) {
    && Distinct(order)
    && AllOccupied(nodes, order)
    && forall i: nat {:trigger LinkedAt(nodes, order, i)} :: LinkedAt(nodes, order, i)
  }

  /** Every slot is exactly one of: linked, detached (between two list
      operations), or on the free list. */
  ghost predicate Partitioned<K, V>(nodes: Slots<K, V>, order: seq<nat>, loose: set<nat>, free: seq<nat>) {
    && Distinct(free)
    && (forall j :: j in loose ==> j < |nodes| && nodes[j].Some? && j !in order)
    && (forall i :: 0 <= i < |free| ==> free[i] < |nodes| && nodes[free[i]].None?)
    && (forall j :: 0 <= j < |nodes| ==> j in free || j in order || j in loose)
  }

  /** A well-formed list over the slots: links, ends and slot partition agree. */
  ghost predicate Shaped<K, V>(nodes: Slots<K, V>, head: Option<nat>, tail: Option<nat>,
                               order: seq<nat>, loose: set<nat>, free: seq<nat>) {
    && Linked(nodes, order)
    && Partitioned(nodes, order, loose, free)
    && head == SlotAt(order, 0)
    && tail == SlotAt(order, |order| - 1)
  }

  /** The key/value entries of the slots listed in `order`. */
  ghost function Project<K, V>(nodes: Slots<K, V>, order: seq<nat>): (r: seq<Entry<K, V>>)
    requires AllOccupied(nodes, order)
    ensures |r| == |order|
    ensures forall i {:trigger r[i]} :: 0 <= i < |r| ==>
              r[i] == Entry(nodes[order[i]].value.key, nodes[order[i]].value.value)
  {
    seq(|order|, i requires 0 <= i < |order| => Entry(nodes[order[i]].value.key, nodes[order[i]].value.value))
  }

  /** Every listed node's key is mapped to that node. */
  ghost predicate Owned<K, V>(nodes: Slots<K, V>, order: seq<nat>, index: map<K, nat>)
    requires AllOccupied(nodes, order)
  {
    forall i :: 0 <= i < |order| ==>
      nodes[order[i]].value.key in index && index[nodes[order[i]].value.key] == order[i]
  }

  /** The key map is a bijection between its keys and the linked slots. */
  ghost predicate Indexed<K, V>(nodes: Slots<K, V>, order: seq<nat>, index: map<K, nat>)
    requires AllOccupied(nodes, order)
  {
    && (forall k :: k in index ==> index[k] in order && nodes[index[k]].value.key == k)
    && Owned(nodes, order, index)
  }

  /** A map from which evicted keys may be missing their node: every listed node
      is mapped, and a mapped key points to its own node or to an empty slot. */
  ghost predicate HalfIndexed<K, V>(nodes: Slots<K, V>, order: seq<nat>, index: map<K, nat>)
    requires AllOccupied(nodes, order)
  {
    && (forall k :: k in index ==>
          index[k] < |nodes| && (nodes[index[k]].Some? ==> index[k] in order && nodes[index[k]].value.key == k))
    && Owned(nodes, order, index)
  }

  /** Position of a listed slot. */
  ghost function PositionIn(order: seq<nat>, idx: nat): (i: nat)
    requires idx in order
    ensures i < |order| && order[i] == idx
  {
    var i: nat :| i < |order| && order[i] == idx;
    i
  }

  /** Same slots occupied, with the same keys and values: only links may differ. */
  ghost predicate SamePayloads<K, V>(was: Slots<K, V>, now: Slots<K, V>) {
    && |was| == |now|
    && forall j :: 0 <= j < |now| ==>
         && (now[j].Some? <==> was[j].Some?)
         && (now[j].Some? ==> now[j].value.key == was[j].value.key && now[j].value.value == was[j].value.value)
  }

  /** Slot conservation: linked, detached and free slots account for the arena. */
  lemma SlotsConserved<K, V>(nodes: Slots<K, V>, order: seq<nat>, loose: set<nat>, free: seq<nat>)
    requires Linked(nodes, order) && Partitioned(nodes, order, loose, free)
    ensures |nodes| == |order| + |loose| + |free|
  {
    var linked, freed := Elements(order), Elements(free);
    var all := Below(|nodes|);
    assert linked + loose + freed <= all;
    assert all == linked + loose + freed;
  }

  ghost function Below(n: nat): (s: set<nat>)
    ensures |s| == n
    ensures forall j: nat :: j in s <==> j < n
  {
    if n == 0 then {} else Below(n - 1) + {n - 1}
  }

  ghost function Elements(s: seq<nat>): (r: set<nat>)
    requires Distinct(s)
    ensures |r| == |s|
    ensures forall j :: j in r <==> j in s
  {
    if s == [] then {} else
      assert s == DropLast(s) + [s[|s| - 1]];
      Elements(DropLast(s)) + {s[|s| - 1]}
  }

  /** The key map has one entry per linked slot. */
  lemma IndexCounts<K, V>(nodes: Slots<K, V>, order: seq<nat>, index: map<K, nat>)
    requires Linked(nodes, order) && Indexed(nodes, order, index)
    ensures |index| == |order|
    ensures DistinctKeys(Project(nodes, order))
    ensures forall k :: k in index <==> Listed(Project(nodes, order), k)
  {
    var s := Project(nodes, order);
    forall k ensures k in index <==> Listed(s, k) {
      if k in index {
        var i :| 0 <= i < |order| && order[i] == index[k];
        assert s[i].key == k;
      }
    }
    KeysCount(s, index.Keys);
  }

  lemma {:induction false} KeysCount<K, V>(s: seq<Entry<K, V>>, keys: set<K>)
    requires DistinctKeys(s)
    requires forall k :: k in keys <==> Listed(s, k)
    ensures |keys| == |s|
  {
    if s == [] {
      assert keys == {};
    } else {
      var last := s[|s| - 1].key;
      var rest := DropLast(s);
      forall k ensures k in keys - {last} <==> Listed(rest, k) {
        if Listed(rest, k) {
          var i :| 0 <= i < |rest| && rest[i].key == k;
        }
      }
      KeysCount(rest, keys - {last});
    }
  }

  // ----- Effect of the link updates on a well-linked arena

  /** The slot vector after the link updates of `unlink`. */
  function Detach<K, V>(nodes: Slots<K, V>, idx: nat): Slots<K, V>
    requires idx < |nodes| && nodes[idx].Some?
    requires var n := nodes[idx].value;
      && (n.prev.Some? ==> n.prev.value < |nodes| && nodes[n.prev.value].Some? && n.prev.value != idx)
      && (n.next.Some? ==> n.next.value < |nodes| && nodes[n.next.value].Some? && n.next.value != idx)
  {
    var n := nodes[idx].value;
    var a := if n.prev.Some? then nodes[n.prev.value := Some(nodes[n.prev.value].value.(next := n.next))] else nodes;
    var b := if n.next.Some? then a[n.next.value := Some(a[n.next.value].value.(prev := n.prev))] else a;
    b[idx := Some(b[idx].value.(prev := None, next := None))]
  }

  lemma DetachKeepsLinks<K, V>(nodes: Slots<K, V>, order: seq<nat>, i: nat)
    requires Linked(nodes, order) && i < |order|
    ensures LinkedAt(nodes, order, i)
    ensures Detach.requires(nodes, order[i])
    ensures SamePayloads(nodes, Detach(nodes, order[i]))
    ensures Linked(Detach(nodes, order[i]), RemoveAt(order, i))
  {
    assert LinkedAt(nodes, order, i);
    var now, rest := Detach(nodes, order[i]), RemoveAt(order, i);
    forall m: nat ensures LinkedAt(now, rest, m) {
      assert LinkedAt(nodes, order, if m < i then m else m + 1);
    }
  }

  /** The slot vector after the link updates of `push_front`. */
  function Attach<K, V>(nodes: Slots<K, V>, head: Option<nat>, idx: nat): Slots<K, V>
    requires idx < |nodes| && nodes[idx].Some?
    requires head.Some? ==> head.value < |nodes| && nodes[head.value].Some?
  {
    var a := nodes[idx := Some(nodes[idx].value.(prev := None, next := head))];
    if head.Some? then a[head.value := Some(a[head.value].value.(prev := Some(idx)))] else a
  }

  lemma AttachKeepsLinks<K, V>(nodes: Slots<K, V>, order: seq<nat>, idx: nat)
    requires Linked(nodes, order)
    requires idx < |nodes| && nodes[idx].Some? && idx !in order
    ensures SamePayloads(nodes, Attach(nodes, SlotAt(order, 0), idx))
    ensures Linked(Attach(nodes, SlotAt(order, 0), idx), [idx] + order)
  {
    var now, longer := Attach(nodes, SlotAt(order, 0), idx), [idx] + order;
    forall m: nat ensures LinkedAt(now, longer, m) {
      if m > 0 {
        assert LinkedAt(nodes, order, m - 1);
      }
    }
  }

  /** Moving a slot between the list and the detached set loses no slot. */
  lemma Repartition<K, V>(was: Slots<K, V>, now: Slots<K, V>, free: seq<nat>,
                          order: seq<nat>, loose: set<nat>, order': seq<nat>, loose': set<nat>)
    requires Partitioned(was, order, loose, free) && SamePayloads(was, now)
    requires forall j :: j in order || j in loose <==> j in order' || j in loose'
    requires forall j :: j in loose' ==> j !in order' && j < |was| && was[j].Some?
    ensures Partitioned(now, order', loose', free)
  {
  }

  lemma HeadStays<T>(s: seq<T>)
    requires s != []
    ensures s == [s[0]] + RemoveAt(s, 0)
  {
  }

  lemma RemoveAtMembers(order: seq<nat>, i: nat)
    requires Distinct(order) && i < |order|
    ensures forall j :: j in order <==> j in RemoveAt(order, i) || j == order[i]
    ensures order[i] !in RemoveAt(order, i)
    ensures SlotAt(RemoveAt(order, i), 0) ==
            if SlotAt(order, i - 1).None? then SlotAt(order, i + 1) else SlotAt(order, 0)
    ensures SlotAt(RemoveAt(order, i), |RemoveAt(order, i)| - 1) ==
            if SlotAt(order, i + 1).None? then SlotAt(order, i - 1) else SlotAt(order, |order| - 1)
  {
    var rest := RemoveAt(order, i);
    forall j | j in order ensures j in rest || j == order[i] {
      var m :| 0 <= m < |order| && order[m] == j;
      assert m < i ==> rest[m] == j;
      assert m > i ==> rest[m - 1] == j;
    }
  }

  /** Everything `unlink` does to a well-formed list. */
  lemma UnlinkEffect<K, V>(nodes: Slots<K, V>, head: Option<nat>, tail: Option<nat>,
                           order: seq<nat>, loose: set<nat>, free: seq<nat>, i: nat)
    requires Shaped(nodes, head, tail, order, loose, free) && i < |order|
    ensures Detach.requires(nodes, order[i])
    ensures var n := nodes[order[i]].value;
            var now, rest := Detach(nodes, order[i]), RemoveAt(order, i);
      && SamePayloads(nodes, now)
      && Shaped(now, if n.prev.None? then n.next else head, if n.next.None? then n.prev else tail,
                rest, loose + {order[i]}, free)
      && Project(now, rest) == RemoveAt(Project(nodes, order), i)
  {
    DetachKeepsLinks(nodes, order, i);
    RemoveAtMembers(order, i);
  }

  lemma ProjectPrepend<K, V>(was: Slots<K, V>, now: Slots<K, V>, order: seq<nat>, idx: nat)
    requires AllOccupied(was, order) && SamePayloads(was, now)
    requires idx < |was| && was[idx].Some?
    ensures AllOccupied(now, [idx] + order)
    ensures Project(now, [idx] + order) ==
            [Entry(was[idx].value.key, was[idx].value.value)] + Project(was, order)
  {
  }

  /** Changing slots outside the list leaves the list as it was. */
  lemma OutsideKeepsLinks<K, V>(was: Slots<K, V>, now: Slots<K, V>, order: seq<nat>)
    requires Linked(was, order)
    requires forall j :: j in order ==> j < |now| && now[j] == was[j]
    ensures Linked(now, order)
    ensures Project(was, order) == Project(now, order)
  {
    forall m: nat ensures LinkedAt(now, order, m) {
      assert LinkedAt(was, order, m);
    }
  }

  class Arena<K(==), V> {
    var nodes: Slots<K, V>
    var free: seq<nat>
    var head: Option<nat>
    var tail: Option<nat>
    var index: map<K, nat>
    /** Slots from head to tail. */
    ghost var order: seq<nat>
    /** Occupied slots that are not linked right now. */
    ghost var loose: set<nat>
    /** Most entries held at once since construction or the last clear. */
    ghost var peak: nat

    ghost predicate ListValid()
      reads this
    {
      Shaped(nodes, head, tail, order, loose, free)
    }

    /** Nothing is detached, and the slot vector has only grown to the high-water mark. */
    ghost predicate Settled()
      reads this
    {
      ListValid() && loose == {} && |order| <= |nodes| == peak
    }

    /** List and key map agree: the state between operations. */
    ghost predicate Valid()
      reads this
    {
      Settled() && Indexed(nodes, order, index)
    }

    /** The weaker state that even a store with stale keys stays in: the list is well
        formed and its nodes are mapped, but other keys may be mapped to any slot. */
    ghost predicate Usable()
      reads this
    {
      Settled() && Owned(nodes, order, index)
    }

    /** Evicted keys may have stayed mapped, to slots that are still empty. */
    ghost predicate HalfValid()
      reads this
    {
      Settled() && HalfIndexed(nodes, order, index)
    }

    /** The recency sequence the arena stands for. */
    ghost function Entries(): seq<Entry<K, V>>
      requires ListValid()
      reads this
    {
      Project(nodes, order)
    }

    constructor ()
      ensures Valid() && Entries() == [] && nodes == [] && index == map[] && peak == 0
    {
      nodes, free, head, tail, index := [], [], None, None, map[];
      order, loose, peak := [], {}, 0;
    }

    method Alloc(node: Node<K, V>) returns (idx: nat)
      requires ListValid()
      modifies this`nodes, this`free, this`loose
      ensures ListValid()
      ensures loose == old(loose) + {idx} && idx !in old(loose) && idx !in order
      ensures idx < |nodes| && nodes[idx] == Some(node)
      ensures |nodes| == if old(free) == [] then |old(nodes)| + 1 else |old(nodes)|
      ensures old(free) != [] ==> idx == old(free)[|old(free)| - 1]
      ensures forall j :: 0 <= j < |old(nodes)| && j != idx ==> nodes[j] == old(nodes)[j]
      ensures Entries() == old(Entries())
    {
      if free != [] {
        idx := free[|free| - 1];
        free := DropLast(free);
        nodes := nodes[idx := Some(node)];
      } else {
        nodes := nodes + [Some(node)];
        idx := |nodes| - 1;
      }
      loose := loose + {idx};
      OutsideKeepsLinks(old(nodes), nodes, order);
    }

    method Dealloc(idx: nat) returns (node: Node<K, V>)
      requires ListValid() && idx in loose
      modifies this`nodes, this`free, this`loose
      ensures ListValid()
      ensures loose == old(loose) - {idx} && free == old(free) + [idx]
      ensures Some(node) == old(nodes)[idx]
      ensures nodes == old(nodes)[idx := None]
      ensures Entries() == old(Entries())
    {
      node := nodes[idx].value;
      nodes := nodes[idx := None];
      free := free + [idx];
      loose := loose - {idx};
      OutsideKeepsLinks(old(nodes), nodes, order);
    }

    /** Detaches the slot at position `i` of the list. */
    method Unlink(idx: nat, ghost i: nat)
      requires ListValid() && i < |order| && order[i] == idx
      modifies this`nodes, this`head, this`tail, this`order, this`loose
      ensures ListValid()
      ensures order == RemoveAt(old(order), i) && loose == old(loose) + {idx}
      ensures SamePayloads(old(nodes), nodes)
      ensures Entries() == RemoveAt(old(Entries()), i)
    {
      UnlinkEffect(nodes, head, tail, order, loose, free, i);
      var prev, next := nodes[idx].value.prev, nodes[idx].value.next;
      match prev {
        case Some(p) => nodes := nodes[p := Some(nodes[p].value.(next := next))];
        case None => head := next;
      }
      match next {
        case Some(n) => nodes := nodes[n := Some(nodes[n].value.(prev := prev))];
        case None => tail := prev;
      }
      nodes := nodes[idx := Some(nodes[idx].value.(prev := None, next := None))];
      order := RemoveAt(order, i);
      loose := loose + {idx};
      assert nodes == Detach(old(nodes), idx);
    }

    /** Attaches a detached slot at the head. */
    method PushFront(idx: nat)
      requires ListValid() && idx in loose
      modifies this`nodes, this`head, this`tail, this`order, this`loose
      ensures ListValid()
      ensures order == [idx] + old(order) && loose == old(loose) - {idx}
      ensures SamePayloads(old(nodes), nodes)
      ensures Entries() == [Entry(nodes[idx].value.key, nodes[idx].value.value)] + old(Entries())
    {
      AttachKeepsLinks(nodes, order, idx);
      ProjectPrepend(nodes, Attach(nodes, head, idx), order, idx);
      Repartition(nodes, Attach(nodes, head, idx), free, order, loose, [idx] + order, loose - {idx});
      var oldHead := head;
      nodes := nodes[idx := Some(nodes[idx].value.(prev := None, next := oldHead))];
      match oldHead {
        case Some(h) => nodes := nodes[h := Some(nodes[h].value.(prev := Some(idx)))];
        case None => tail := Some(idx);
      }
      head := Some(idx);
      assert nodes == Attach(old(nodes), oldHead, idx);
      order := [idx] + order;
      loose := loose - {idx};
    }

    /** Moves the slot at position `i` to the head. */
    method Promote(idx: nat, ghost i: nat)
      requires ListValid() && i < |order| && order[i] == idx
      modifies this`nodes, this`head, this`tail, this`order, this`loose
      ensures ListValid() && loose == old(loose)
      ensures order == [idx] + RemoveAt(old(order), i)
      ensures SamePayloads(old(nodes), nodes)
      ensures Entries() == [old(Entries())[i]] + RemoveAt(old(Entries()), i)
    {
      hide LinkedAt;
      if head == Some(idx) {
        HeadStays(order);
        HeadStays(Entries());
        return;
      }
      Unlink(idx, i);
      PushFront(idx);
    }

    // ----- Operations the stores share, each a fixed sequence of the steps above

    /** Between operations every occupied slot is listed. */
    lemma OccupiedIsListed(idx: nat)
      requires Settled() && idx < |nodes| && nodes[idx].Some?
      ensures idx in order
    {
      assert idx in free || idx in order;
    }

    /** In a valid arena a mapped key's slot is listed where the key is. */
    lemma PositionOf(key: K)
      requires Valid() && key in index
      ensures Usable() && index[key] in order
      ensures PositionIn(order, index[key]) == Locate(Entries(), key) < |Entries()|
    {
      var i := PositionIn(order, index[key]);
      IndexCounts(nodes, order, index);
      assert Entries()[i].key == key;
      LocateIsUnique(Entries(), i);
    }

    lemma MappedIffListed()
      requires Valid()
      ensures |index| == |Entries()| <= peak && index.Keys == Keys(Entries())
      ensures forall k :: k in index <==> Locate(Entries(), k) < |Entries()|
    {
      IndexCounts(nodes, order, index);
      forall k ensures k in index <==> Locate(Entries(), k) < |Entries()| {
        if k in index {
          PositionOf(k);
        }
      }
    }

    lemma FullIsHalfIndexed()
      requires Valid()
      ensures HalfValid()
    {
    }

    lemma ListedNodeIsMapped(k: K)
      requires HalfValid() && k in index
      requires nodes[index[k]].Some?
      ensures k in Keys(Entries())
    {
      var i :| 0 <= i < |order| && order[i] == index[k];
      assert Entries()[i].key == k;
    }

    /** Keys mapped to no node of theirs are mapped to free slots. */
    lemma StaleSlotsAreFree()
      requires HalfValid()
      ensures forall k :: k in index && k !in Keys(Entries()) ==>
        index[k] < |nodes| && nodes[index[k]].None? && index[k] in free
    {
      forall k | k in index && k !in Keys(Entries())
        ensures nodes[index[k]].None? && index[k] in free
      {
        if nodes[index[k]].Some? {
          ListedNodeIsMapped(k);
        }
      }
    }

    /** Unmapping a key that leads to no listed node leaves every listed node mapped. */
    lemma UnmapStale(key: K)
      requires Usable() && key in index
      requires index[key] >= |nodes| || nodes[index[key]].None?
      ensures Owned(nodes, order, index - {key})
    {
    }

    /** When only listed keys are mapped, the half-indexed arena is fully indexed. */
    lemma HalfIndexedIsFull()
      requires HalfValid()
      requires index.Keys == Keys(Entries())
      ensures Valid()
    {
    }

    /** Live and free slots account for the whole arena, whose length is the most
        entries it ever held. */
    lemma FreeSlots()
      requires Settled()
      ensures |nodes| == |Entries()| + |free| == peak
    {
      SlotsConserved(nodes, order, loose, free);
    }

    /** Promotes the node a key is mapped to and returns its value. */
    method Touch(key: K) returns (value: V)
      requires Usable() && key in index && index[key] in order
      modifies this`nodes, this`head, this`tail, this`order, this`loose
      ensures Usable()
      ensures var s, i := old(Entries()), PositionIn(old(order), index[key]);
        value == s[i].value && Entries() == ToFront(s, i, value)
      ensures old(Valid()) ==> Valid()
    {
      hide Distinct, DistinctKeys, LinkedAt, Owned, Indexed, HalfIndexed;
      var idx := index[key];
      ghost var i := PositionIn(order, idx);
      RemoveAtMembers(order, i);
      Promote(idx, i);
      OwnedSurvives(old(nodes), nodes, old(order), order, index);
      value := nodes[idx].value.value;
    }

    /** Overwrites the value of the node a key is mapped to and promotes it. */
    method Replace(key: K, value: V) returns (was: V)
      requires Usable() && key in index && index[key] in order
      modifies this`nodes, this`head, this`tail, this`order, this`loose
      ensures Usable()
      ensures var s, i := old(Entries()), PositionIn(old(order), index[key]);
        was == s[i].value && Entries() == ToFront(s, i, value)
      ensures old(Valid()) ==> Valid()
      ensures old(HalfValid()) ==> HalfValid()
    {
      hide Distinct, DistinctKeys, LinkedAt, Owned, Indexed, HalfIndexed;
      var idx := index[key];
      ghost var i := PositionIn(order, idx);
      was := nodes[idx].value.value;
      nodes := nodes[idx := Some(nodes[idx].value.(value := value))];
      OverwriteEffect(old(nodes), nodes, order, i, index, value);
      RemoveAtMembers(order, i);
      ghost var before := nodes;
      Promote(idx, i);
      OwnedSurvives(before, nodes, old(order), order, index);
    }

    /** Drops the tail of the list and frees its slot; the key map is left alone. */
    method PopTail() returns (evicted: Option<Entry<K, V>>)
      requires Usable()
      modifies this`nodes, this`free, this`head, this`tail, this`order, this`loose
      ensures Usable()
      ensures old(Entries()) == [] ==> evicted == None && Entries() == []
      ensures old(Entries()) != [] ==>
        && evicted == Some(old(Entries())[|old(Entries())| - 1])
        && Entries() == DropLast(old(Entries()))
        && Owned(nodes, order, index - {evicted.value.key})
      ensures old(Valid()) && evicted.Some? ==> Indexed(nodes, order, index - {evicted.value.key})
      ensures old(HalfValid()) ==> HalfValid()
    {
      hide Distinct, DistinctKeys, LinkedAt, Indexed, HalfIndexed;
      if tail == None {
        return None;
      }
      var idx := tail.value;
      ghost var i := |order| - 1;
      RemoveAtMembers(order, i);
      Unlink(idx, i);
      var node := Dealloc(idx);
      evicted := Some(Entry(node.key, node.value));
      OwnedShrinks(old(nodes), nodes, old(order), i, index, node.key);
    }

    /** The least recently used key. */
    method TailKey() returns (key: K)
      requires ListValid() && Entries() != []
      ensures key == Entries()[|Entries()| - 1].key
    {
      key := nodes[tail.value].value.key;
    }

    /** Evicts the tail entry from the list and from the key map. */
    method EvictLast()
      requires Valid()
      modifies this
      ensures Valid() && peak == old(peak)
      ensures Entries() == if old(Entries()) == [] then [] else DropLast(old(Entries()))
      ensures old(Entries()) != [] ==>
        index == old(index) - {old(Entries())[|old(Entries())| - 1].key}
    {
      var evicted := PopTail();
      if evicted.Some? {
        index := index - {evicted.value.key};
      }
    }

    /** Stores a new entry in a free slot at the head and maps its key to it. */
    method Prepend(key: K, value: V)
      requires Settled()
      modifies this
      ensures Settled() && peak == Max(old(peak), |Entries()|)
      ensures Entries() == [Entry(key, value)] + old(Entries())
      ensures old(Valid()) && key !in old(index) ==> Valid()
      ensures old(Usable()) && key !in old(index) ==> Usable()
      ensures key in index && index == old(index)[key := index[key]]
      ensures index[key] < |nodes| && nodes[index[key]].Some? && nodes[index[key]].value.key == key
      ensures nodes[index[key]].value.value == value
      ensures old(free) != [] ==> index[key] == old(free)[|old(free)| - 1]
    {
      FreeSlots();
      var idx := Alloc(Node(key, value, None, None));
      PushFront(idx);
      index := index[key := idx];
      peak := Max(peak, |order|);
      if old(Usable()) && key !in old(index) {
        OwnedGrows(old(nodes), nodes, old(order), old(index), idx, key);
      }
    }

    /** Unmaps a key, and unlinks and frees the node it is mapped to. */
    method Delete(key: K) returns (value: V)
      requires Usable() && key in index && index[key] in order
      modifies this
      ensures Usable() && peak == old(peak)
      ensures var s, i := old(Entries()), PositionIn(old(order), old(index)[key]);
        value == s[i].value && Entries() == RemoveAt(s, i)
      ensures index == old(index) - {key}
      ensures old(Valid()) ==> Valid()
    {
      hide Distinct, DistinctKeys, LinkedAt, Owned, Indexed, HalfIndexed;
      var idx := index[key];
      ghost var i := PositionIn(order, idx);
      index := index - {key};
      RemoveAtMembers(order, i);
      Unlink(idx, i);
      var node := Dealloc(idx);
      OwnedShrinks(old(nodes), nodes, old(order), i, old(index), key);
      value := node.value;
    }

    method Clear()
      modifies this
      ensures Valid() && Entries() == [] && nodes == [] && peak == 0
    {
      nodes, free := [], [];
      head, tail := None, None;
      index := map[];
      order, loose, peak := [], {}, 0;
    }
  }

  // ----- Effect of the shared operations on the key map

  lemma OwnedSurvives<K, V>(was: Slots<K, V>, now: Slots<K, V>, order: seq<nat>, order': seq<nat>, index: map<K, nat>)
    requires AllOccupied(was, order) && AllOccupied(now, order')
    requires SamePayloads(was, now) && Owned(was, order, index)
    requires forall j :: j in order <==> j in order'
    ensures Owned(now, order', index)
    ensures Indexed(was, order, index) ==> Indexed(now, order', index)
    ensures HalfIndexed(was, order, index) ==> HalfIndexed(now, order', index)
  {
    forall i | 0 <= i < |order'|
      ensures now[order'[i]].value.key in index && index[now[order'[i]].value.key] == order'[i]
    {
      assert order'[i] in order;
    }
  }

  lemma OverwriteEffect<K, V>(was: Slots<K, V>, now: Slots<K, V>, order: seq<nat>, i: nat, index: map<K, nat>, value: V)
    requires Linked(was, order) && Owned(was, order, index) && i < |order|
    requires now == was[order[i] := Some(was[order[i]].value.(value := value))]
    ensures Linked(now, order) && Owned(now, order, index)
    ensures Indexed(was, order, index) ==> Indexed(now, order, index)
    ensures HalfIndexed(was, order, index) ==> HalfIndexed(now, order, index)
    ensures RemoveAt(Project(now, order), i) == RemoveAt(Project(was, order), i)
    ensures Project(now, order)[i] == Entry(was[order[i]].value.key, value)
  {
    forall m: nat ensures LinkedAt(now, order, m) {
      assert LinkedAt(was, order, m);
    }
  }

  /** Removing the listed slot that `gone` is mapped to. */
  lemma OwnedShrinks<K, V>(was: Slots<K, V>, now: Slots<K, V>, order: seq<nat>, i: nat, index: map<K, nat>, gone: K)
    requires Linked(was, order) && Owned(was, order, index) && i < |order|
    requires gone in index && index[gone] == order[i]
    requires |was| == |now| && AllOccupied(now, RemoveAt(order, i)) && now[order[i]].None?
    requires forall j :: 0 <= j < |now| && now[j].Some? ==> was[j].Some? && now[j].value.key == was[j].value.key
    ensures Owned(now, RemoveAt(order, i), index) && Owned(now, RemoveAt(order, i), index - {gone})
    ensures Indexed(was, order, index) ==> Indexed(now, RemoveAt(order, i), index - {gone})
    ensures HalfIndexed(was, order, index) ==> HalfIndexed(now, RemoveAt(order, i), index)
  {
    var rest := RemoveAt(order, i);
    RemoveAtMembers(order, i);
    forall m | 0 <= m < |rest|
      ensures now[rest[m]].value.key in index - {gone} && index[now[rest[m]].value.key] == rest[m]
    {
      var n :| 0 <= n < |order| && order[n] == rest[m];
    }
  }

  lemma OwnedGrows<K, V>(was: Slots<K, V>, now: Slots<K, V>, order: seq<nat>, index: map<K, nat>, idx: nat, key: K)
    requires AllOccupied(was, order) && Owned(was, order, index) && key !in index
    requires AllOccupied(now, [idx] + order) && idx !in order
    requires idx < |now| && now[idx].Some? && now[idx].value.key == key
    requires forall j :: j in order ==>
               j < |was| && j < |now| && was[j].Some? && now[j].Some? && now[j].value.key == was[j].value.key
    ensures Owned(now, [idx] + order, index[key := idx])
    ensures Indexed(was, order, index) ==> Indexed(now, [idx] + order, index[key := idx])
  {
  }
}
