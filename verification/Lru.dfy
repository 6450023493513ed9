/** Least-recently-used policy on plain recency sequences. */
module LruPolicy {
  import opened Recency
  import opened CacheApi

  /** Room for one more entry: the last one goes when the shard is full. */
  function MakeRoom<K, V>(s: seq<Entry<K, V>>, cap: nat): seq<Entry<K, V>> {
    if |s| >= cap && s != [] then DropLast(s) else s
  }

  function Step<K(==), V>(s: seq<Entry<K, V>>, cap: nat, op: Op<K, V>): (seq<Entry<K, V>>, Reply<V>) {
    match op
    case Get(k) =>
      var i := Locate(s, k);
      if i < |s| then (ToFront(s, i, s[i].value), Found(Some(s[i].value))) else (s, Found(None))
    case Insert(k, v) =>
      var i := Locate(s, k);
      if i < |s| then (ToFront(s, i, v), Found(Some(s[i].value)))
      else ([Entry(k, v)] + MakeRoom(s, cap), Found(None))
    case Remove(k) => (Without(s, k), Found(Lookup(s, k)))
    case ContainsKey(k) => (s, Has(k in Keys(s)))
    case Clear => ([], Cleared)
  }

  /** State after running `ops` on a fresh shard. */
  function Run<K(==), V>(cap: nat, ops: seq<Op<K, V>>): seq<Entry<K, V>> {
    if ops == [] then [] else Step(Run(cap, DropLast(ops)), cap, ops[|ops| - 1]).0
  }

  /** Reply to the last of `ops`. */
  function LastReply<K(==), V>(cap: nat, ops: seq<Op<K, V>>): Reply<V>
    requires ops != []
  {
    Step(Run(cap, DropLast(ops)), cap, ops[|ops| - 1]).1
  }

  // ----- Well-formedness of every reachable sequence

  lemma WithoutIsClean<K, V>(s: seq<Entry<K, V>>, k: K)
    requires DistinctKeys(s)
    ensures DistinctKeys(Without(s, k)) && Locate(Without(s, k), k) == |Without(s, k)|
    ensures forall x :: x in Keys(Without(s, k)) <==> x in Keys(s) && x != k
  {
    var r, i := Without(s, k), Locate(s, k);
    if i < |s| {
      forall x ensures x in Keys(r) <==> x in Keys(s) && x != k {
        var j := Locate(s, x);
        if j < |s| && x != k {
          assert r[if j < i then j else j - 1].key == x;
        }
      }
    }
  }

  lemma StepKeepsShape<K, V>(s: seq<Entry<K, V>>, cap: nat, op: Op<K, V>)
    requires DistinctKeys(s) && |s| <= cap && cap >= 1
    ensures DistinctKeys(Step(s, cap, op).0) && |Step(s, cap, op).0| <= cap
  {
  }

  /** Every reachable shard has distinct keys and respects its capacity. */
  lemma {:induction false} RunKeepsShape<K, V>(cap: nat, ops: seq<Op<K, V>>)
    requires cap >= 1
    ensures DistinctKeys(Run(cap, ops)) && |Run(cap, ops)| <= cap
  {
    if ops != [] {
      RunKeepsShape(cap, DropLast(ops));
      StepKeepsShape(Run(cap, DropLast(ops)), cap, ops[|ops| - 1]);
    }
  }

  // ----- A larger shard never misses what a smaller one hits

  /** `a` is an order-preserving subsequence of `b`. */
  ghost predicate Subsequence<T>(a: seq<T>, b: seq<T>) {
    a == [] || (b != [] && ((a[0] == b[0] && Subsequence(a[1..], b[1..])) || Subsequence(a, b[1..])))
  }

  lemma {:induction false} SubsequenceLookup<K, V>(a: seq<Entry<K, V>>, b: seq<Entry<K, V>>, k: K)
    requires Subsequence(a, b) && DistinctKeys(b)
    ensures k in Keys(a) ==> k in Keys(b) && Lookup(a, k) == Lookup(b, k)
  {
    if a != [] {
      if a[0] == b[0] && Subsequence(a[1..], b[1..]) {
        SubsequenceLookup(a[1..], b[1..], k);
      } else {
        SubsequenceLookup(a, b[1..], k);
      }
    }
  }

  lemma WithoutCons<K, V>(s: seq<Entry<K, V>>, k: K)
    requires s != []
    ensures Without(s, k) == if s[0].key == k then s[1..] else [s[0]] + Without(s[1..], k)
  {
    var i := Locate(s, k);
    if s[0].key == k {
      assert RemoveAt(s, 0) == s[1..];
    } else if i < |s| {
      assert i == 1 + Locate(s[1..], k);
      assert RemoveAt(s, i) == [s[0]] + RemoveAt(s[1..], i - 1);
    }
  }

  lemma {:induction false} SubsequenceWithout<K, V>(a: seq<Entry<K, V>>, b: seq<Entry<K, V>>, k: K)
    requires Subsequence(a, b) && DistinctKeys(b)
    ensures Subsequence(Without(a, k), Without(b, k))
  {
    if a != [] {
      WithoutCons(a, k);
      WithoutCons(b, k);
      if a[0] == b[0] && Subsequence(a[1..], b[1..]) {
        SubsequenceWithout(a[1..], b[1..], k);
      } else if b[0].key == k {
        SubsequenceLookup(a, b[1..], k);
      } else {
        SubsequenceWithout(a, b[1..], k);
      }
    }
  }

  lemma {:induction false} SubsequenceDropLast<T>(a: seq<T>, b: seq<T>)
    requires Subsequence(a, b) && a != []
    ensures |a| <= |b|
    ensures Subsequence(DropLast(a), b) && Subsequence(DropLast(a), DropLast(b))
  {
    if a[0] == b[0] && Subsequence(a[1..], b[1..]) {
      if |a| > 1 {
        SubsequenceDropLast(a[1..], b[1..]);
        assert DropLast(a)[1..] == DropLast(a[1..]) && DropLast(b)[1..] == DropLast(b[1..]);
      }
    } else {
      SubsequenceDropLast(a, b[1..]);
      assert DropLast(b)[1..] == DropLast(b[1..]);
    }
  }

  /** What relates a small and a large shard after the same calls. */
  ghost predicate Dominates<K, V>(large: seq<Entry<K, V>>, cap': nat, small: seq<Entry<K, V>>, cap: nat) {
    && DistinctKeys(large) && DistinctKeys(small)
    && |large| <= cap' && |small| <= cap
    && Subsequence(small, large)
    && |large| - |small| <= cap' - cap
  }

  lemma GetKeepsDomination<K, V>(large: seq<Entry<K, V>>, cap': nat, small: seq<Entry<K, V>>, cap: nat, k: K)
    requires 1 <= cap <= cap' && Dominates(large, cap', small, cap)
    ensures Subsequence(Step(small, cap, Get(k)).0, Step(large, cap', Get(k)).0)
  {
    SubsequenceLookup(small, large, k);
    SubsequenceWithout(small, large, k);
    if k in Keys(large) {
      var e := large[Locate(large, k)];
      assert ([e] + Without(large, k))[1..] == Without(large, k);
      assert ([e] + Without(small, k))[1..] == Without(small, k);
    }
  }

  lemma InsertKeepsDomination<K, V>(large: seq<Entry<K, V>>, cap': nat, small: seq<Entry<K, V>>, cap: nat, k: K, v: V)
    requires 1 <= cap <= cap' && Dominates(large, cap', small, cap)
    ensures var l, s := Step(large, cap', Insert(k, v)).0, Step(small, cap, Insert(k, v)).0;
      Subsequence(s, l) && |l| - |s| <= cap' - cap
  {
    SubsequenceLookup(small, large, k);
    SubsequenceWithout(small, large, k);
    if k !in Keys(small) {
      RoomKeepsSubsequence(small, cap, if k in Keys(large) then Without(large, k) else large, cap');
    }
  }

  /** Making room on both sides keeps the subsequence: the large shard only drops an
      entry when the small one drops its last too. */
  lemma {:induction false} RoomKeepsSubsequence<K, V>(
      small: seq<Entry<K, V>>, cap: nat, large: seq<Entry<K, V>>, cap': nat)
    requires 1 <= cap <= cap' && Subsequence(small, large)
    requires |small| <= cap && |large| - |small| <= cap' - cap
    ensures Subsequence(MakeRoom(small, cap), large)
    ensures Subsequence(MakeRoom(small, cap), MakeRoom(large, cap'))
  {
    if small != [] {
      SubsequenceDropLast(small, large);
    }
  }

  lemma StepKeepsDomination<K, V>(large: seq<Entry<K, V>>, cap': nat, small: seq<Entry<K, V>>, cap: nat, op: Op<K, V>)
    requires 1 <= cap <= cap' && Dominates(large, cap', small, cap)
    ensures Dominates(Step(large, cap', op).0, cap', Step(small, cap, op).0, cap)
  {
    StepKeepsShape(large, cap', op);
    StepKeepsShape(small, cap, op);
    match op {
      case Get(k) => GetKeepsDomination(large, cap', small, cap, k);
      case Insert(k, v) => InsertKeepsDomination(large, cap', small, cap, k, v);
      case Remove(k) =>
        SubsequenceLookup(small, large, k);
        SubsequenceWithout(small, large, k);
      case ContainsKey(_) =>
      case Clear =>
    }
  }

  /** No Belady anomaly: after any calls, a smaller shard's recency list is a
      subsequence of a larger one's, so every hit in the small shard is the
      same hit in the large one. */
  lemma {:induction false} NoBeladyAnomaly<K, V>(cap: nat, cap': nat, ops: seq<Op<K, V>>)
    requires 1 <= cap <= cap'
    ensures Dominates(Run(cap', ops), cap', Run(cap, ops), cap)
    ensures ops != [] && ops[|ops| - 1].Get? && LastReply(cap, ops) != Found(None) ==>
              LastReply(cap, ops) == LastReply(cap', ops)
  {
    if ops != [] {
      var before, op := DropLast(ops), ops[|ops| - 1];
      NoBeladyAnomaly(cap, cap', before);
      StepKeepsDomination(Run(cap', before), cap', Run(cap, before), cap, op);
      if op.Get? {
        SubsequenceLookup(Run(cap, before), Run(cap', before), op.key);
      }
    }
  }

  // ----- The policy read off the calls and replies alone

  function Log<K(==), V>(cap: nat, ops: seq<Op<K, V>>): (log: seq<Call<K, V>>)
    ensures |log| == |ops|
  {
    if ops == [] then []
    else Log(cap, DropLast(ops)) + [Call(ops[|ops| - 1], LastReply(cap, ops))]
  }

  /** The list is ordered by last access, and holds the latest inserted values. */
  ghost predicate Chronological<K, V>(s: seq<Entry<K, V>>, log: seq<Call<K, V>>) {
    && (forall i :: 0 <= i < |s| ==> LastInserted(log, s[i].key) == Some(s[i].value))
    && (forall i, j :: 0 <= i < j < |s| ==> LastAccess(log, s[i].key) > LastAccess(log, s[j].key))
  }

  /** An entry list inside an older chronological list, none of it touched by the new call. */
  lemma ChronologicalRest<K, V>(s: seq<Entry<K, V>>, log: seq<Call<K, V>>, c: Call<K, V>, k: K)
    requires DistinctKeys(s) && Chronological(s, log)
    requires c.op.Get? || c.op.Insert? ==> c.op.key == k
    ensures Chronological(Without(s, k), log + [c])
  {
    hide DistinctKeys;
    WithoutIsClean(s, k);
    var r := Without(s, k);
    forall i | 0 <= i < |r| ensures r[i].key != k {
      assert r[i].key in Keys(r);
    }
  }

  /** A just-accessed entry in front of a list that does not hold its key. */
  lemma ChronologicalFront<K, V>(e: Entry<K, V>, rest: seq<Entry<K, V>>, log: seq<Call<K, V>>, c: Call<K, V>)
    requires Accesses(c, e.key) && Chronological(rest, log + [c]) && Locate(rest, e.key) == |rest|
    requires LastInserted(log + [c], e.key) == Some(e.value)
    ensures Chronological([e] + rest, log + [c])
  {
  }

  lemma ChronologicalPrefix<K, V>(s: seq<Entry<K, V>>, p: seq<Entry<K, V>>, log: seq<Call<K, V>>)
    requires Chronological(s, log) && p <= s
    ensures Chronological(p, log)
  {
  }

  /** What a prefix leaves out was accessed before everything it keeps. */
  lemma DroppedIsOlder<K, V>(s: seq<Entry<K, V>>, p: seq<Entry<K, V>>, log: seq<Call<K, V>>, x: K, y: K)
    requires Chronological(s, log) && p <= s && x in Keys(s) && x !in Keys(p) && y in Keys(p)
    ensures LastAccess(log, x) < LastAccess(log, y)
  {
    KeysAreLocated(s);
    KeysAreLocated(p);
    var i, j := Locate(s, x), Locate(p, y);
    hide LastAccess, LastInserted, Locate;
    assert s[j] == p[j];
  }

  lemma {:induction false} ChronologicalStep<K, V>(s: seq<Entry<K, V>>, cap: nat, log: seq<Call<K, V>>, op: Op<K, V>)
    requires DistinctKeys(s) && Chronological(s, log)
    ensures var (s', reply) := Step(s, cap, op); Chronological(s', log + [Call(op, reply)])
  {
    var c := Call(op, Step(s, cap, op).1);
    if op.Get? || op.Insert? || op.Remove? {
      ChronologicalRest(s, log, c, op.key);
      ExtendLog(log, c, op.key);
    }
    match op {
      case Get(k) =>
        var i := Locate(s, k);
        if i < |s| {
          ChronologicalFront(s[i], Without(s, k), log, c);
        }
      case Insert(k, v) =>
        var rest := if Locate(s, k) < |s| then Without(s, k) else MakeRoom(s, cap);
        ChronologicalFront(Entry(k, v), rest, log, c);
      case Remove(k) =>
      case ContainsKey(_) =>
        forall x {
          ExtendLog(log, c, x);
        }
      case Clear =>
    }
  }

  /** In every run the list is ordered by last access and holds, for each key,
      the value most recently inserted. */
  lemma {:induction false} RunIsChronological<K, V>(cap: nat, ops: seq<Op<K, V>>)
    requires cap >= 1
    ensures Chronological(Run(cap, ops), Log(cap, ops))
  {
    if ops != [] {
      RunIsChronological(cap, DropLast(ops));
      ChronologicalStep(Run(cap, DropLast(ops)), cap, Log(cap, DropLast(ops)), ops[|ops| - 1]);
    }
  }

  /** `victim` is the listed key whose last access is oldest. */
  ghost predicate LeastRecent<K, V>(s: seq<Entry<K, V>>, log: seq<Call<K, V>>, victim: K) {
    victim in Keys(s) && forall x :: x in Keys(s) && x != victim ==> LastAccess(log, victim) < LastAccess(log, x)
  }

  lemma LastIsLeastRecent<K, V>(s: seq<Entry<K, V>>, log: seq<Call<K, V>>)
    requires s != [] && Chronological(s, log)
    ensures LeastRecent(s, log, s[|s| - 1].key)
  {
  }

  lemma LeastRecentIsLast<K, V>(s: seq<Entry<K, V>>, log: seq<Call<K, V>>, victim: K)
    requires s != [] && Chronological(s, log)
    ensures LeastRecent(s, log, victim) <==> victim == s[|s| - 1].key
  {
    LastIsLeastRecent(s, log);
    hide Chronological, LastAccess, Keys;
  }

  /** After any run: a get answers with the latest inserted value of a held key;
      inserting a new key keeps every held key except, when the shard is full,
      the one whose last access is oldest. */
  lemma {:induction false} InsertEvictsLeastRecent<K, V>(cap: nat, ops: seq<Op<K, V>>, k: K, v: V)
    requires cap >= 1
    ensures var s, log := Run(cap, ops), Log(cap, ops); var s' := Run(cap, ops + [Insert(k, v)]);
      && LastReply(cap, ops + [Get(k)]) == Found(if k in Keys(s) then LastInserted(log, k) else None)
      && (k in Keys(s) || |s| < cap ==> Keys(s') == Keys(s) + {k})
      && (k !in Keys(s) && |s| == cap ==>
            exists victim :: LeastRecent(s, log, victim) && Keys(s') == Keys(s) - {victim} + {k})
  {
    var s := Run(cap, ops);
    RunKeepsShape(cap, ops);
    RunIsChronological(cap, ops);
    assert DropLast(ops + [Get(k)]) == ops && DropLast(ops + [Insert(k, v)]) == ops;
    KeysAreLocated(s);
    assert LastReply(cap, ops + [Get(k)]) == Found(if k in Keys(s) then LastInserted(Log(cap, ops), k) else None);
    hide DistinctKeys, Chronological, LeastRecent;
    InsertKeys(s, cap, k, v);
    if s != [] {
      LastIsLeastRecent(s, Log(cap, ops));
    }
  }

  /** The keys after an insert: the new key joins, and only the last entry of a full
      list can go. */
  lemma InsertKeys<K, V>(s: seq<Entry<K, V>>, cap: nat, k: K, v: V)
    requires DistinctKeys(s) && |s| <= cap && cap >= 1
    ensures var s' := Step(s, cap, Insert(k, v)).0;
      && (k in Keys(s) || |s| < cap ==> Keys(s') == Keys(s) + {k})
      && (k !in Keys(s) && |s| == cap ==> Keys(s') == Keys(s) - {s[|s| - 1].key} + {k})
  {
    var i := Locate(s, k);
    if i < |s| {
      ToFrontIsClean(s, i, v);
    } else {
      KeysOfCons(Entry(k, v), MakeRoom(s, cap));
    }
  }

  lemma KeysOfCons<K, V>(e: Entry<K, V>, s: seq<Entry<K, V>>)
    ensures Keys([e] + s) == Keys(s) + {e.key}
  {
    assert ([e] + s)[0] == e;
    forall i | 0 <= i < |s| ensures s[i].key in Keys([e] + s) {
      assert ([e] + s)[i + 1] == s[i];
    }
  }

  // ----- The shard as a map

  /** Keys an insert evicts: none when the key is held or there is
      room, else the least recently used one. */
  function Evicted<K(==), V>(s: seq<Entry<K, V>>, per: nat, op: Op<K, V>): set<K> {
    if op.Insert? && op.key !in Keys(s) && |s| >= per && s != [] then {s[|s| - 1].key} else {}
  }

  lemma ContentsOfFront<K, V>(e: Entry<K, V>, rest: seq<Entry<K, V>>)
    requires DistinctKeys([e] + rest)
    ensures Contents([e] + rest) == Contents(rest)[e.key := e.value]
  {
    var s := [e] + rest;
    KeysOfCons(e, rest);
    forall k | k in Keys(s) ensures Contents(s)[k] == if k == e.key then e.value else Contents(rest)[k] {
      KeysAreLocated(rest);
      if k == e.key {
        LocateIsUnique(s, 0);
      } else {
        assert s[Locate(rest, k) + 1] == rest[Locate(rest, k)];
        LocateIsUnique(s, Locate(rest, k) + 1);
      }
    }
  }

  lemma WithoutLooksUp<K, V>(s: seq<Entry<K, V>>, k: K, x: K)
    requires DistinctKeys(s) && x in Keys(Without(s, k))
    ensures Locate(s, x) < |s| && Locate(Without(s, k), x) < |Without(s, k)|
    ensures Without(s, k)[Locate(Without(s, k), x)] == s[Locate(s, x)]
  {
    var r, i := Without(s, k), Locate(s, k);
    KeysAreLocated(r);
    var j := Locate(r, x);
    hide Keys;
    assert r[j] == s[if j < i then j else j + 1];
    LocateIsUnique(s, if j < i then j else j + 1);
  }

  lemma ContentsAt<K, V>(s: seq<Entry<K, V>>)
    ensures Contents(s).Keys == Keys(s)
    ensures forall x :: x in Keys(s) ==> Locate(s, x) < |s| && Contents(s)[x] == s[Locate(s, x)].value
  {
    KeysAreLocated(s);
  }

  lemma ContentsWithout<K, V>(s: seq<Entry<K, V>>, k: K)
    requires DistinctKeys(s)
    ensures Contents(Without(s, k)) == Contents(s) - {k}
  {
    hide DistinctKeys, Without, Keys, Contents;
    var r := Without(s, k);
    WithoutIsClean(s, k);
    ContentsAt(s);
    ContentsAt(r);
    assert Contents(r).Keys == Contents(s).Keys - {k};
    forall x | x in Keys(r) ensures Contents(r)[x] == Contents(s)[x] {
      WithoutLooksUp(s, k, x);
    }
  }

  lemma FrontIsWithout<K, V>(s: seq<Entry<K, V>>, i: nat, value: V)
    requires DistinctKeys(s) && i < |s|
    ensures ToFront(s, i, value) == [Entry(s[i].key, value)] + Without(s, s[i].key)
    ensures DistinctKeys([Entry(s[i].key, value)] + Without(s, s[i].key))
  {
    LocateIsUnique(s, i);
    hide Locate;
  }

  lemma Rewritten<K, V>(m: map<K, V>, k: K, v: V)
    ensures (m - {k})[k := v] == m[k := v]
  {
  }

  lemma FrontOnContents<K, V>(s: seq<Entry<K, V>>, i: nat, value: V)
    requires DistinctKeys(s) && i < |s|
    ensures Contents(ToFront(s, i, value)) == Contents(s)[s[i].key := value]
  {
    hide Contents, Keys, DistinctKeys, Without, Locate, ToFront;
    var k := s[i].key;
    FrontIsWithout(s, i, value);
    ContentsWithout(s, k);
    ContentsOfFront(Entry(k, value), Without(s, k));
    Rewritten(Contents(s), k, value);
  }

  lemma RoomOnContents<K, V>(s: seq<Entry<K, V>>, per: nat)
    requires DistinctKeys(s)
    ensures Contents(MakeRoom(s, per)) == Contents(s) - if |s| >= per && s != [] then {s[|s| - 1].key} else {}
  {
    if |s| >= per && s != [] {
      var last := s[|s| - 1].key;
      LocateIsUnique(s, |s| - 1);
      assert Without(s, last) == DropLast(s);
      ContentsWithout(s, last);
    }
  }

  /** One call acts and answers as on the map of the shard's contents, up to its eviction. */
  lemma StepOnContents<K, V>(s: seq<Entry<K, V>>, per: nat, op: Op<K, V>)
    requires DistinctKeys(s) && |s| <= per && per >= 1
    ensures var (s', reply) := Step(s, per, op);
      (Contents(s'), reply) == OnMap(Contents(s), op, Evicted(s, per, op))
  {
    StepKeepsShape(s, per, op);
    hide DistinctKeys;
    match op {
      case Get(k) =>
        if k in Keys(s) {
          FrontOnContents(s, Locate(s, k), s[Locate(s, k)].value);
          assert Contents(s)[k := Contents(s)[k]] == Contents(s);
        }
      case Insert(k, v) =>
        assert Contents(s) - {} == Contents(s);
        if k in Keys(s) {
          FrontOnContents(s, Locate(s, k), v);
        } else {
          RoomOnContents(s, per);
          ContentsOfFront(Entry(k, v), MakeRoom(s, per));
        }
      case Remove(k) => ContentsWithout(s, k);
      case _ =>
    }
  }
}

/** One shard of the LRU cache: `Inner` of src/lru.rs, driven under its lock. */
module LruStore {
  import opened Machine
  import opened Recency
  import opened CacheApi
  import opened LinkedArena
  import opened LruPolicy

  class LruShard<K(==), V> {
    const capacity: nat
    const arena: Arena<K, V>

    ghost predicate Valid()
      reads this, arena
    {
      arena.Valid() && 1 <= capacity && arena.peak <= capacity
    }

    ghost function Entries(): seq<Entry<K, V>>
      requires Valid()
      reads this, arena
    {
      arena.Entries()
    }

    constructor (capacity: nat)
      requires capacity >= 1
      ensures Valid() && fresh(arena) && this.capacity == capacity
      ensures Entries() == [] && arena.peak == 0
    {
      this.capacity := capacity;
      arena := new Arena();
    }

    method Get(key: K) returns (value: Option<V>)
      requires Valid()
      modifies arena
      ensures Valid()
      ensures Entries() == Step(old(Entries()), capacity, Op.Get(key)).0
      ensures Reply.Found(value) == Step(old(Entries()), capacity, Op.Get(key)).1
    {
      hide Shaped, DistinctKeys, Indexed;
      arena.MappedIffListed();
      if key !in arena.index {
        return None;
      }
      arena.PositionOf(key);
      var v := arena.Touch(key);
      value := Some(v);
    }

    method Insert(key: K, value: V) returns (previous: Option<V>)
      requires Valid()
      modifies this, arena
      ensures Valid()
      ensures Entries() == Step(old(Entries()), capacity, Op.Insert(key, value)).0
      ensures Reply.Found(previous) == Step(old(Entries()), capacity, Op.Insert(key, value)).1
      ensures arena.peak == Max(old(arena.peak), |Entries()|)
    {
      hide Shaped, DistinctKeys, Indexed;
      arena.MappedIffListed();
      if key in arena.index {
        arena.PositionOf(key);
        var was := arena.Replace(key, value);
        return Some(was);
      }
      InsertNew(key, value);
      previous := None;
    }

    /** The branch of `insert` for a key that is not held. */
    method InsertNew(key: K, value: V)
      requires Valid() && key !in arena.index
      modifies this, arena
      ensures Valid() && Entries() == [Entry(key, value)] + MakeRoom(old(Entries()), capacity)
      ensures arena.peak == Max(old(arena.peak), |Entries()|)
    {
      hide Shaped, DistinctKeys, Indexed;
      arena.MappedIffListed();
      if |arena.index| >= capacity {
        arena.EvictLast();
      }
      StoreNew(key, value);
    }

    /** Stores an absent key in a shard with room for it. */
    method StoreNew(key: K, value: V)
      requires Valid() && key !in arena.index && |Entries()| < capacity
      modifies this, arena
      ensures Valid() && Entries() == [Entry(key, value)] + old(Entries())
      ensures arena.peak == Max(old(arena.peak), |Entries()|)
    {
      hide Shaped, DistinctKeys, Indexed;
      arena.Prepend(key, value);
    }

    method Remove(key: K) returns (value: Option<V>)
      requires Valid()
      modifies arena
      ensures Valid()
      ensures Entries() == Step(old(Entries()), capacity, Op.Remove(key)).0
      ensures Reply.Found(value) == Step(old(Entries()), capacity, Op.Remove(key)).1
    {
      hide Shaped, DistinctKeys, Indexed;
      arena.MappedIffListed();
      if key !in arena.index {
        return None;
      }
      arena.PositionOf(key);
      var v := arena.Delete(key);
      value := Some(v);
    }

    method ContainsKey(key: K) returns (present: bool)
      requires Valid()
      ensures Entries() == Step(Entries(), capacity, Op.ContainsKey(key)).0
      ensures Reply.Has(present) == Step(Entries(), capacity, Op.ContainsKey(key)).1
    {
      hide Shaped, DistinctKeys, Indexed;
      arena.MappedIffListed();
      present := key in arena.index;
    }

    method Len() returns (n: nat)
      requires Valid()
      ensures n == |Entries()| <= capacity
    {
      hide Shaped, DistinctKeys, Indexed;
      arena.MappedIffListed();
      n := |arena.index|;
    }

    method Clear()
      requires Valid()
      modifies this, arena
      ensures Valid()
      ensures Entries() == Step(old(Entries()), capacity, Op.Clear).0
      ensures Reply.Cleared == Step(old(Entries()), capacity, Op.Clear).1
      ensures arena.peak == 0
    {
      arena.Clear();
    }

    /** Slot conservation for the shard: live entries and free slots fill the arena,
        whose length is the high-water mark of live entries. */
    lemma ArenaAccounted()
      requires Valid()
      ensures |arena.nodes| == |Entries()| + |arena.free| == arena.peak <= capacity
    {
      arena.FreeSlots();
    }
  }
}
