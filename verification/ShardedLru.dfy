/** LRU shards behind a router, on plain values: what the sharded cache keeps over
    any interleaving of locked steps. */
module ShardedLruRuns {
  import opened Recency
  import opened CacheApi
  import opened Machine
  import Sharding
  import ShardedRuns
  import Lru = LruPolicy

  type Shards<+K, +V> = seq<seq<Entry<K, V>>>

  /** Where a key lives. */
  datatype Router<!K> = Router(shards: nat, home: K -> nat)

  ghost predicate Routes<K(!new)>(rt: Router<K>) {
    rt.shards >= 1 && forall k :: rt.home(k) < rt.shards
  }

  /** One locked step: a keyed call on the key's home shard, or the part of `clear`
      that empties shard `at`. */
  datatype Locked<+K, +V> = Locked(at: nat, op: Op<K, V>)

  ghost predicate WellRouted<K, V>(rt: Router<K>, c: Locked<K, V>) {
    c.at < rt.shards && (!c.op.Clear? ==> c.at == rt.home(c.op.key))
  }

  /** The generic sharded system with an LRU shard of capacity `per` at each place. */
  function LruSystem<K(==), V>(per: nat): ShardedRuns.System<seq<Entry<K, V>>, Locked<K, V>, Reply<V>> {
    ShardedRuns.System((s: seq<Entry<K, V>>, c: Locked<K, V>) => Lru.Step(s, per, c.op), (c: Locked<K, V>) => c.at)
  }

  function Step<K(==), V>(shards: Shards<K, V>, per: nat, c: Locked<K, V>): (Shards<K, V>, Reply<V>)
    requires c.at < |shards|
  {
    ShardedRuns.Step(LruSystem(per), shards, c)
  }

  /** Each shard is a clean LRU list within its capacity, holding only its own keys. */
  ghost predicate Housed<K, V>(rt: Router<K>, per: nat, shards: Shards<K, V>) {
    && |shards| == rt.shards
    && forall i :: 0 <= i < |shards| ==> HousedAt(rt, per, shards[i], i)
  }

  ghost predicate HousedAt<K, V>(rt: Router<K>, per: nat, s: seq<Entry<K, V>>, i: nat) {
    && DistinctKeys(s) && |s| <= per
    && forall k :: k in Keys(s) ==> rt.home(k) == i
  }

  lemma StepKeepsHoused<K, V>(rt: Router<K>, per: nat, shards: Shards<K, V>, c: Locked<K, V>)
    requires per >= 1 && Housed(rt, per, shards) && WellRouted(rt, c)
    ensures Housed(rt, per, Step(shards, per, c).0)
  {
  }

  // ----- The shards as one map

  function Union<K(==), V>(shards: Shards<K, V>): map<K, V> {
    if shards == [] then map[] else Union(DropLast(shards)) + Contents(shards[|shards| - 1])
  }

  lemma {:induction false} UnionIsDisjoint<K, V>(rt: Router<K>, per: nat, shards: Shards<K, V>, n: nat, k: K)
    requires Housed(rt, per, shards) && n <= |shards|
    ensures k in Union(shards[..n]) <==>
            rt.home(k) < n && k in Keys(shards[rt.home(k)])
    ensures k in Union(shards[..n]) ==> Union(shards[..n])[k] == Contents(shards[rt.home(k)])[k]
  {
    hide DistinctKeys;
    if n > 0 {
      assert DropLast(shards[..n]) == shards[..n - 1];
      UnionIsDisjoint(rt, per, shards, n - 1, k);
    }
  }

  /** A key is held by the cache exactly when its home shard holds it, with that value. */
  lemma UnionAtHome<K, V>(rt: Router<K>, per: nat, shards: Shards<K, V>, k: K)
    requires Housed(rt, per, shards) && rt.home(k) < rt.shards
    ensures k in Union(shards) <==> k in Contents(shards[rt.home(k)])
    ensures k in Union(shards) ==> Union(shards)[k] == Contents(shards[rt.home(k)])[k]
  {
    assert shards[..|shards|] == shards;
    UnionIsDisjoint(rt, per, shards, |shards|, k);
  }

  /** `StepOnUnion` for one key. */
  lemma StepOnUnionAt<K, V>(rt: Router<K>, per: nat, shards: Shards<K, V>, c: Locked<K, V>, k: K)
    requires per >= 1 && Housed(rt, per, shards) && WellRouted(rt, c) && !c.op.Clear? && rt.home(k) < rt.shards
    ensures var u := Union(Step(shards, per, c).0);
      var goal := OnMap(Union(shards), c.op, Lru.Evicted(shards[c.at], per, c.op)).0;
      (k in u <==> k in goal) && (k in u ==> u[k] == goal[k])
  {
    var shards' := Step(shards, per, c).0;
    StepKeepsHoused(rt, per, shards, c);
    Lru.StepOnContents(shards[c.at], per, c.op);
    UnionAtHome(rt, per, shards, k);
    UnionAtHome(rt, per, shards', k);
    hide Housed, HousedAt, Union, Keys, Lru.Evicted, Lru.Step, Contents, DistinctKeys, OnMap;
  }

  /** A keyed call on its home shard acts on the union of all shards as on one map, up
      to the eviction local to that shard, and answers as that map would. */
  lemma {:induction false} StepOnUnion<K(!new), V>(rt: Router<K>, per: nat, shards: Shards<K, V>, c: Locked<K, V>)
    requires Routes(rt) && per >= 1 && Housed(rt, per, shards) && WellRouted(rt, c) && !c.op.Clear?
    ensures var (shards', reply) := Step(shards, per, c);
      (Union(shards'), reply) == OnMap(Union(shards), c.op, Lru.Evicted(shards[c.at], per, c.op))
  {
    hide HousedAt, Union, Lru.Evicted, Step, DistinctKeys, OnMap;
    var u := Union(Step(shards, per, c).0);
    var goal := OnMap(Union(shards), c.op, Lru.Evicted(shards[c.at], per, c.op));
    ReplyOnUnion(rt, per, shards, c);
    forall k ensures k in u <==> k in goal.0
             ensures k in u ==> u[k] == goal.0[k]
    {
      StepOnUnionAt(rt, per, shards, c, k);
    }
    assert u == goal.0;
  }

  lemma ReplyOnUnion<K, V>(rt: Router<K>, per: nat, shards: Shards<K, V>, c: Locked<K, V>)
    requires per >= 1 && Housed(rt, per, shards) && WellRouted(rt, c) && !c.op.Clear?
    ensures Step(shards, per, c).1 == OnMap(Union(shards), c.op, Lru.Evicted(shards[c.at], per, c.op)).1
  {
    UnionAtHome(rt, per, shards, c.op.key);
  }

  // ----- Runs

  ghost predicate AllRouted<K, V>(rt: Router<K>, calls: seq<Locked<K, V>>) {
    forall i :: 0 <= i < |calls| ==> WellRouted(rt, calls[i])
  }

  function Run<K(==), V>(per: nat, n: nat, calls: seq<Locked<K, V>>): (r: Shards<K, V>)
    requires forall i :: 0 <= i < |calls| ==> calls[i].at < n
    ensures |r| == n
  {
    ShardedRuns.Run(LruSystem(per), seq(n, _ => []), calls)
  }

  /** The operations of an interleaving that lock shard `i`, in order. */
  function OpsAt<K, V>(calls: seq<Locked<K, V>>, i: nat): seq<Op<K, V>> {
    if calls == [] then []
    else OpsAt(DropLast(calls), i) + if calls[|calls| - 1].at == i then [calls[|calls| - 1].op] else []
  }

  /** After any interleaving each shard is exactly the single-shard LRU run of the
      operations that locked it, so everything proved of such runs holds per shard. */
  lemma {:induction false} ShardIsLruRun<K, V>(per: nat, n: nat, calls: seq<Locked<K, V>>, i: nat)
    requires (forall j :: 0 <= j < |calls| ==> calls[j].at < n) && i < n
    ensures Run(per, n, calls)[i] == Lru.Run(per, OpsAt(calls, i))
  {
    if calls != [] {
      var before, c := DropLast(calls), calls[|calls| - 1];
      ShardIsLruRun(per, n, before, i);
      if c.at != i {
        assert OpsAt(before, i) + [] == OpsAt(before, i);
      }
    }
  }

  /** In every interleaving each key lives only in its home shard, and every shard is a
      clean list within its own capacity. */
  lemma {:induction false} KeysStayHome<K, V>(rt: Router<K>, per: nat, calls: seq<Locked<K, V>>)
    requires per >= 1 && AllRouted(rt, calls)
    ensures Housed(rt, per, Run(per, rt.shards, calls))
  {
    if calls != [] {
      KeysStayHome(rt, per, DropLast(calls));
      StepKeepsHoused(rt, per, Run(per, rt.shards, DropLast(calls)), calls[|calls| - 1]);
    }
  }

  // ----- Sizes, and `len` taken shard by shard while others write

  function Total<K, V>(shards: Shards<K, V>): nat {
    if shards == [] then 0 else Total(DropLast(shards)) + |shards[|shards| - 1]|
  }

  lemma {:induction false} TotalIsBounded<K, V>(per: nat, shards: Shards<K, V>)
    requires forall i :: 0 <= i < |shards| ==> |shards[i]| <= per
    ensures Total(shards) <= |shards| * per
  {
    if shards != [] {
      TotalIsBounded(per, DropLast(shards));
    }
  }

  lemma {:induction false} KeysCount<K, V>(s: seq<Entry<K, V>>)
    requires DistinctKeys(s)
    ensures |Keys(s)| == |s|
  {
    if s != [] {
      KeysCount(DropLast(s));
      assert Keys(s) == Keys(DropLast(s)) + {s[|s| - 1].key};
    }
  }

  lemma ContentsCount<K, V>(s: seq<Entry<K, V>>)
    requires DistinctKeys(s)
    ensures |Contents(s)| == |s|
  {
    KeysCount(s);
    Lru.ContentsAt(s);
    hide Keys, Contents, DistinctKeys;
    assert |Contents(s)| == |Contents(s).Keys|;
  }

  /** The total is the number of keys the cache holds: no key is counted twice. */
  lemma {:induction false} TotalCountsKeys<K, V>(rt: Router<K>, per: nat, shards: Shards<K, V>, n: nat)
    requires Housed(rt, per, shards) && n <= |shards|
    ensures Total(shards[..n]) == |Union(shards[..n])|
  {
    if n > 0 {
      TotalCountsKeys(rt, per, shards, n - 1);
      assert DropLast(shards[..n]) == shards[..n - 1];
      var rest, last := Union(shards[..n - 1]), Contents(shards[n - 1]);
      assert HousedAt(rt, per, shards[n - 1], n - 1);
      ContentsCount(shards[n - 1]);
      forall k | k in rest ensures k !in last {
        UnionIsDisjoint(rt, per, shards, n - 1, k);
      }
      hide Housed, HousedAt, Contents, Union, Keys;
      assert Union(shards[..n]) == rest + last by {
        UnionOfLast(shards[..n]);
      }
      assert (rest + last).Keys == rest.Keys + last.Keys && rest.Keys !! last.Keys;
      assert |rest + last| == |(rest + last).Keys| && |rest| == |rest.Keys| && |last| == |last.Keys|;
    }
  }

  lemma UnionOfLast<K, V>(shards: Shards<K, V>)
    requires shards != []
    ensures Union(shards) == Union(DropLast(shards)) + Contents(shards[|shards| - 1])
  {
  }

  /** A `len` in progress: the next shard to visit and the sum so far. */
  datatype Reader = Reader(next: nat, sum: nat)

  /** All shards and every `len` that any thread has in progress or has finished. */
  datatype World<!K, +V> = World(shards: Shards<K, V>, readers: map<nat, Reader>)

  /** A locked step of some writer, or reader `id` locking its next shard. */
  datatype Event<+K, +V> = Write(call: Locked<K, V>) | Visit(id: nat)

  function Advance<K(==), V>(w: World<K, V>, per: nat, e: Event<K, V>): World<K, V>
    requires e.Write? ==> e.call.at < |w.shards|
  {
    match e
    case Write(c) => w.(shards := Step(w.shards, per, c).0)
    case Visit(id) =>
      var r := if id in w.readers then w.readers[id] else Reader(0, 0);
      if r.next < |w.shards| then
        w.(readers := w.readers[id := Reader(r.next + 1, r.sum + |w.shards[r.next]|)])
      else w
  }

  ghost predicate AllWritesRouted<K, V>(rt: Router<K>, es: seq<Event<K, V>>) {
    forall i :: 0 <= i < |es| && es[i].Write? ==> WellRouted(rt, es[i].call)
  }

  function Reach<K(==), V>(per: nat, n: nat, es: seq<Event<K, V>>): (w: World<K, V>)
    requires forall i :: 0 <= i < |es| && es[i].Write? ==> es[i].call.at < n
    ensures |w.shards| == n
  {
    if es == [] then World(seq(n, _ => []), map[])
    else Advance(Reach(per, n, DropLast(es)), per, es[|es| - 1])
  }

  /** The writers' steps of a run, in lock order. */
  function Writes<K, V>(es: seq<Event<K, V>>): seq<Locked<K, V>> {
    if es == [] then []
    else Writes(DropLast(es)) + if es[|es| - 1].Write? then [es[|es| - 1].call] else []
  }

  /** Readers do not disturb writers: the shards of a reachable world are those of the
      writers' interleaving alone. */
  lemma {:induction false} ReachIsWritersRun<K, V>(per: nat, n: nat, es: seq<Event<K, V>>)
    requires forall i :: 0 <= i < |es| && es[i].Write? ==> es[i].call.at < n
    ensures forall i :: 0 <= i < |Writes(es)| ==> Writes(es)[i].at < n
    ensures Reach(per, n, es).shards == Run(per, n, Writes(es))
  {
    if es != [] {
      var before, e := DropLast(es), es[|es| - 1];
      ReachIsWritersRun(per, n, before);
      if e.Write? {
        assert DropLast(Writes(before) + [e.call]) == Writes(before);
        assert (Writes(before) + [e.call])[|Writes(before)|] == e.call;
      } else {
        assert Writes(es) == Writes(before);
      }
      hide Lru.Step;
    }
  }

  /** In every reachable world the shards hold at most `per` entries each, and a `len`
      that has visited `next` shards has counted at most `next * per` entries. */
  lemma {:induction false} ReachIsBounded<K, V>(rt: Router<K>, per: nat, es: seq<Event<K, V>>)
    requires per >= 1 && AllWritesRouted(rt, es)
    ensures var w := Reach(per, rt.shards, es);
      && Housed(rt, per, w.shards)
      && forall id :: id in w.readers ==>
           w.readers[id].next <= rt.shards && w.readers[id].sum <= w.readers[id].next * per
  {
    if es != [] {
      ReachIsBounded(rt, per, DropLast(es));
      var before, e := Reach(per, rt.shards, DropLast(es)), es[|es| - 1];
      match e {
        case Write(c) => StepKeepsHoused(rt, per, before.shards, c);
        case Visit(id) =>
          var r := if id in before.readers then before.readers[id] else Reader(0, 0);
          if r.next < rt.shards {
            assert (r.next + 1) * per == r.next * per + per;
          }
      }
    }
  }

  /** Capacity under concurrency: in every reachable world of a cache sharded for
      `capacity`, the shards hold at most `capacity` entries together, and a finished
      `len` returned at most `capacity`, however writers ran between its visits. */
  lemma LenNeverExceedsCapacity<K, V>(rt: Router<K>, capacity: nat, es: seq<Event<K, V>>)
    requires capacity >= 1 && Sharding.IsShardCount(capacity, rt.shards) && rt.shards >= 1
    requires AllWritesRouted(rt, es)
    ensures var w := Reach(Sharding.PerShardCapacity(capacity, rt.shards), rt.shards, es);
      && Total(w.shards) <= capacity
      && forall id :: id in w.readers && w.readers[id].next == rt.shards ==> w.readers[id].sum <= capacity
  {
    var per := Sharding.PerShardCapacity(capacity, rt.shards);
    var w := Reach(per, rt.shards, es);
    ReachIsBounded(rt, per, es);
    Sharding.ShardsFillCapacity(capacity, rt.shards);
    assert forall i :: 0 <= i < |w.shards| ==> HousedAt(rt, per, w.shards[i], i);
    TotalIsBounded(per, w.shards);
  }

  function Visits<K, V>(id: nat, n: nat): (es: seq<Event<K, V>>)
    ensures |es| == n && forall i :: 0 <= i < n ==> es[i] == Visit(id)
  {
    seq(n, _ => Visit(id))
  }

  /** When nobody writes between its visits, `len` returns the true total. */
  lemma {:induction false} QuietLenIsExact<K, V>(per: nat, n: nat, es: seq<Event<K, V>>, id: nat, m: nat)
    requires forall i :: 0 <= i < |es| && es[i].Write? ==> es[i].call.at < n
    requires id !in Reach(per, n, es).readers && 1 <= m <= n
    ensures var w := Reach(per, n, es + Visits(id, m));
      && w.shards == Reach(per, n, es).shards
      && id in w.readers && w.readers[id] == Reader(m, Total(w.shards[..m]))
  {
    hide Lru.Step, Step;
    var run := es + Visits(id, m);
    assert DropLast(run) == es + Visits(id, m - 1);
    var shards := Reach(per, n, es).shards;
    assert DropLast(shards[..m]) == shards[..m - 1];
    if m > 1 {
      QuietLenIsExact(per, n, es, id, m - 1);
    }
  }
}

/** The LRU cache over its shards: `LruCache` of src/lru.rs on `Sharded` of
    src/sharding.rs, one call at a time. */
module ShardedLruStore {
  import opened Recency
  import opened CacheApi
  import opened Machine
  import opened LinkedArena
  import opened LruStore
  import opened ShardedLruRuns
  import Lru = LruPolicy
  import Sharding

  class LruCache<K(==), V> {
    const capacity: Usize
    const per: nat
    const shards: seq<LruShard<K, V>>
    const mask: bv64
    const hash: K -> bv64

    ghost function Objects(): set<object> {
      (set i | 0 <= i < |shards| :: shards[i] as object) + (set i | 0 <= i < |shards| :: shards[i].arena as object)
    }

    /** The parts that never change. */
    ghost predicate Built() {
      && capacity >= 1 && Sharding.IsShardCount(capacity, |shards|)
      && (|shards| == 1 || |shards| == 2 || |shards| == 4 || |shards| == 8 || |shards| == 16)
      && mask == Sharding.MaskFor(|shards|)
      && per == Sharding.PerShardCapacity(capacity, |shards|)
      && (forall i :: 0 <= i < |shards| ==> shards[i].capacity == per)
      && (forall i, j :: 0 <= i < j < |shards| ==> shards[i] != shards[j] && shards[i].arena != shards[j].arena)
    }

    ghost predicate Valid()
      reads Objects()
    {
      Built() && forall i :: 0 <= i < |shards| ==> shards[i].Valid()
    }

    /** The recency list of every shard. */
    ghost function Model(): (m: Shards<K, V>)
      requires Valid()
      reads Objects()
      ensures |m| == |shards| && forall i :: 0 <= i < |m| ==> m[i] == shards[i].Entries()
    {
      seq(|shards|, i requires 0 <= i < |shards| && shards[i].Valid() reads Objects() => shards[i].Entries())
    }

    function Home(key: K): nat {
      Sharding.Route(hash(key), mask)
    }

    /** A key lives on the shard its hash is routed to: the hash modulo the shard count. */
    lemma HomeIsModulo(key: K)
      requires Built()
      ensures Home(key) == Sharding.Remainder(hash(key), |shards|) as nat < |shards|
    {
      Sharding.RouteIsModulo(hash(key), |shards|, mask);
    }

    lemma HomeInBounds(key: K)
      requires Built()
      ensures Home(key) < |shards|
    {
      HomeIsModulo(key);
    }

    constructor (capacity: Usize, hash: K -> bv64)
      requires capacity >= 1
      ensures Valid() && fresh(Objects()) && this.capacity == capacity && this.hash == hash
      ensures Model() == seq(|shards|, _ => [])
    {
      hide Shaped, Indexed, DistinctKeys, PowerOfTwo;
      this.capacity, this.hash := capacity, hash;
      var n := Sharding.ShardCount(capacity);
      Sharding.ShardCountCases(capacity, n);
      var each := Sharding.PerShardCapacity(capacity, n);
      var built: seq<LruShard<K, V>> := [];
      for i := 0 to n
        invariant |built| == i
        invariant forall j :: 0 <= j < i ==> fresh(built[j]) && fresh(built[j].arena)
        invariant forall j :: 0 <= j < i ==> built[j].Valid() && built[j].capacity == each && built[j].Entries() == []
        invariant forall j, k :: 0 <= j < k < i ==> built[j] != built[k] && built[j].arena != built[k].arena
      {
        var shard := new LruShard<K, V>(each);
        built := built + [shard];
      }
      shards := built;
      mask := Sharding.MaskFor(n);
      per := each;
    }

    method Get(key: K) returns (value: Option<V>)
      requires Valid()
      modifies Objects()
      ensures Valid()
      ensures Home(key) < |shards|
      ensures Model() == Step(old(Model()), per, Locked(Home(key), Op.Get(key))).0
      ensures Reply.Found(value) == Step(old(Model()), per, Locked(Home(key), Op.Get(key))).1
    {
      hide Shaped, Indexed, DistinctKeys, Lru.Step;
      hide Sharding.IsShardCount, Sharding.MaskFor, Sharding.Route, Sharding.Remainder, Sharding.PerShardCapacity;
      HomeInBounds(key);
      value := shards[Home(key)].Get(key);
    }

    method Insert(key: K, value: V) returns (previous: Option<V>)
      requires Valid()
      modifies Objects()
      ensures Valid()
      ensures Home(key) < |shards|
      ensures Model() == Step(old(Model()), per, Locked(Home(key), Op.Insert(key, value))).0
      ensures Reply.Found(previous) == Step(old(Model()), per, Locked(Home(key), Op.Insert(key, value))).1
    {
      hide Shaped, Indexed, DistinctKeys, Lru.Step;
      hide Sharding.IsShardCount, Sharding.MaskFor, Sharding.Route, Sharding.Remainder, Sharding.PerShardCapacity;
      HomeInBounds(key);
      previous := shards[Home(key)].Insert(key, value);
    }

    method Remove(key: K) returns (value: Option<V>)
      requires Valid()
      modifies Objects()
      ensures Valid()
      ensures Home(key) < |shards|
      ensures Model() == Step(old(Model()), per, Locked(Home(key), Op.Remove(key))).0
      ensures Reply.Found(value) == Step(old(Model()), per, Locked(Home(key), Op.Remove(key))).1
    {
      hide Shaped, Indexed, DistinctKeys, Lru.Step;
      hide Sharding.IsShardCount, Sharding.MaskFor, Sharding.Route, Sharding.Remainder, Sharding.PerShardCapacity;
      HomeInBounds(key);
      value := shards[Home(key)].Remove(key);
    }

    method ContainsKey(key: K) returns (present: bool)
      requires Valid()
      ensures Home(key) < |shards|
      ensures Reply.Has(present) == Step(Model(), per, Locked(Home(key), Op.ContainsKey(key))).1
    {
      hide Shaped, Indexed, DistinctKeys, Lru.Step;
      hide Sharding.IsShardCount, Sharding.MaskFor, Sharding.Route, Sharding.Remainder, Sharding.PerShardCapacity;
      HomeInBounds(key);
      present := shards[Home(key)].ContainsKey(key);
    }

    /** Visits the shards one after the other; nobody else runs in between here. */
    method Len() returns (n: nat)
      requires Valid()
      ensures n == Total(Model()) <= capacity
    {
      hide Shaped, Indexed, DistinctKeys, Sharding.MaskFor, Sharding.IsShardCount, Sharding.PerShardCapacity;
      ghost var m := Model();
      n := 0;
      for i := 0 to |shards|
        invariant n == Total(m[..i])
      {
        var part := shards[i].Len();
        assert part == |m[i]|;
        assert DropLast(m[..i + 1]) == m[..i] && m[..i + 1][i] == m[i];
        n := n + part;
      }
      assert m[..|shards|] == m == Model();
      ShardsFit();
    }

    lemma ShardsFit()
      requires Valid()
      ensures Total(Model()) <= capacity
    {
      hide Shaped, Indexed, DistinctKeys, Sharding.MaskFor, PowerOfTwo;
      Sharding.ShardsFillCapacity(capacity, |shards|);
      TotalIsBounded(per, Model());
    }

    method Clear()
      requires Valid()
      modifies Objects()
      ensures Valid()
      ensures Model() == seq(|shards|, _ => [])
    {
      hide Shaped, Indexed, DistinctKeys;
      for i := 0 to |shards|
        invariant Valid()
        invariant forall j :: 0 <= j < i ==> shards[j].Entries() == []
      {
        shards[i].Clear();
      }
    }
  }
}
