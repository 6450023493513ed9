/** TinyLFU policy on plain values: a recency sequence behind an admission filter
    that compares sketch estimates. */
module TinyLfuPolicy {
  import opened Recency
  import opened CacheApi
  import opened SketchModel
  import Lru = LruPolicy

  datatype State<!K, +V> = State(entries: seq<Entry<K, V>>, sketch: Sketch)

  /** Whether the filter turns away `key`: the shard is full and the key's estimate,
      taken after counting this very call, does not exceed the LRU victim's. */
  predicate Rejects<K(==), V>(l: Layout<K>, cap: nat, entries: seq<Entry<K, V>>, sk: Sketch, key: K)
    requires Sized(l, sk)
  {
    && Locate(entries, key) == |entries|
    && |entries| >= cap
    && (entries == [] ||
        SketchModel.Estimate(l, sk.cells, key) <= SketchModel.Estimate(l, sk.cells, entries[|entries| - 1].key))
  }

  function Step<K(==), V>(l: Layout<K>, cap: nat, st: State<K, V>, op: Op<K, V>): (r: (State<K, V>, Reply<V>))
    requires Sized(l, st.sketch)
    ensures Sized(l, r.0.sketch)
  {
    match op
    case Get(k) =>
      var (entries, reply) := Lru.Step(st.entries, cap, op);
      (State(entries, Increment(l, st.sketch, k)), reply)
    case Insert(k, _) =>
      var sk := Increment(l, st.sketch, k);
      if Rejects(l, cap, st.entries, sk, k) then (State(st.entries, sk), Found(None))
      else
        var (entries, reply) := Lru.Step(st.entries, cap, op);
        (State(entries, sk), reply)
    case Clear => (State([], Fresh(l)), Cleared)
    case _ =>
      var (entries, reply) := Lru.Step(st.entries, cap, op);
      (State(entries, st.sketch), reply)
  }

  function Run<K(==), V>(l: Layout<K>, cap: nat, ops: seq<Op<K, V>>): (st: State<K, V>)
    requires l.Valid()
    ensures Sized(l, st.sketch)
  {
    if ops == [] then State([], Fresh(l))
    else Step(l, cap, Run(l, cap, DropLast(ops)), ops[|ops| - 1]).0
  }

  /** The sketch events behind a series of calls. */
  function Events<K, V>(ops: seq<Op<K, V>>): seq<Event<K>> {
    if ops == [] then []
    else
      var before, op := Events(DropLast(ops)), ops[|ops| - 1];
      if op.Get? || op.Insert? then before + [Touch(op.key)]
      else if op.Clear? then before + [Reset]
      else before
  }

  /** In every run keys are distinct and the shard is within capacity. */
  lemma {:induction false} RunKeepsShape<K, V>(l: Layout<K>, cap: nat, ops: seq<Op<K, V>>)
    requires l.Valid() && cap >= 1
    ensures DistinctKeys(Run(l, cap, ops).entries) && |Run(l, cap, ops).entries| <= cap
  {
    if ops != [] {
      hide DistinctKeys;
      RunKeepsShape(l, cap, DropLast(ops));
      Lru.StepKeepsShape(Run(l, cap, DropLast(ops)).entries, cap, ops[|ops| - 1]);
    }
  }

  /** In every run the sketch is that of the gets, inserts and clears made. */
  lemma {:induction false} SketchOfRun<K, V>(l: Layout<K>, cap: nat, ops: seq<Op<K, V>>)
    requires l.Valid()
    ensures Run(l, cap, ops).sketch == SketchModel.Run(l, Events(ops))
  {
    hide BumpRows, Estimate;
    if ops != [] {
      SketchOfRun(l, cap, DropLast(ops));
      assert Events(ops) != Events(DropLast(ops)) ==> DropLast(Events(ops)) == Events(DropLast(ops));
    }
  }

  /** The admission filter is the only difference from an LRU shard. After an insert,
      the new key is held unless it was turned away; a turned-away insert changes no
      entry; any other insert is exactly the LRU insert; no insert shrinks the shard;
      and a held key is never turned away. */
  lemma InsertIsGatedLru<K, V>(l: Layout<K>, cap: nat, st: State<K, V>, k: K, v: V)
    requires Sized(l, st.sketch) && cap >= 1 && DistinctKeys(st.entries) && |st.entries| <= cap
    ensures var (st', reply) := Step(l, cap, st, Insert(k, v));
      var sk := st'.sketch;
      && sk == Increment(l, st.sketch, k)
      && |st.entries| <= |st'.entries| <= cap
      && (k in Keys(st'.entries) <==>
            || k in Keys(st.entries)
            || |st.entries| < cap
            || SketchModel.Estimate(l, sk.cells, k)
             > SketchModel.Estimate(l, sk.cells, st.entries[|st.entries| - 1].key))
      && (k !in Keys(st'.entries) ==> st'.entries == st.entries && reply == Found(None))
      && (k in Keys(st'.entries) ==> (st'.entries, reply) == Lru.Step(st.entries, cap, Insert(k, v)))
  {
    var (entries, reply) := Lru.Step(st.entries, cap, Insert(k, v));
    assert entries[0].key == k;
  }

  /** A turned-away insert never changes an entry and, with a window of two samples or
      more, always changes the sketch. */
  lemma TurnedAwayIsCounted<K, V>(l: Layout<K>, cap: nat, st: State<K, V>, k: K, v: V)
    requires Sized(l, st.sketch) && Rejects(l, cap, st.entries, Increment(l, st.sketch, k), k)
    ensures var (st', reply) := Step(l, cap, st, Insert(k, v));
      && st'.entries == st.entries && reply == Found(None)
      && (l.window >= 2 ==> st'.sketch.samples != st.sketch.samples)
  {
    hide Rejects, BumpRows;
  }

  /** Whether the next call of a run is an insert that is turned away. */
  predicate TurnedAway<K(==), V>(l: Layout<K>, cap: nat, st: State<K, V>, op: Op<K, V>)
    requires Sized(l, st.sketch)
  {
    op.Insert? && Rejects(l, cap, st.entries, Increment(l, st.sketch, op.key), op.key)
  }

  // ----- Whole runs are LRU runs behind the gate

  /** The calls of a run without the inserts turned away. */
  function Gated<K(==), V>(l: Layout<K>, cap: nat, ops: seq<Op<K, V>>): seq<Op<K, V>>
    requires l.Valid()
  {
    if ops == [] then []
    else if TurnedAway(l, cap, Run(l, cap, DropLast(ops)), ops[|ops| - 1]) then Gated(l, cap, DropLast(ops))
    else Gated(l, cap, DropLast(ops)) + [ops[|ops| - 1]]
  }

  /** Reply to the last of `ops`. */
  function LastReply<K(==), V>(l: Layout<K>, cap: nat, ops: seq<Op<K, V>>): Reply<V>
    requires l.Valid() && ops != []
  {
    Step(l, cap, Run(l, cap, DropLast(ops)), ops[|ops| - 1]).1
  }

  /** One call is the LRU call, unless it is turned away. */
  lemma StepIsGated<K, V>(l: Layout<K>, cap: nat, st: State<K, V>, op: Op<K, V>)
    requires Sized(l, st.sketch)
    ensures var (st', reply) := Step(l, cap, st, op);
      (st'.entries, reply) ==
      if TurnedAway(l, cap, st, op) then (st.entries, Found(None)) else Lru.Step(st.entries, cap, op)
  {
    hide Rejects, Increment;
  }

  /** After every run the entries are those of an LRU shard that never saw the inserts
      turned away, and so is every reply, except that such an insert answers nothing. */
  lemma {:induction false} RunIsGatedLru<K, V>(l: Layout<K>, cap: nat, ops: seq<Op<K, V>>)
    requires l.Valid()
    ensures Run(l, cap, ops).entries == Lru.Run(cap, Gated(l, cap, ops))
    ensures ops != [] ==>
      if TurnedAway(l, cap, Run(l, cap, DropLast(ops)), ops[|ops| - 1]) then LastReply(l, cap, ops) == Found(None)
      else Gated(l, cap, ops) != [] && LastReply(l, cap, ops) == Lru.LastReply(cap, Gated(l, cap, ops))
  {
    if ops != [] {
      var before, op := DropLast(ops), ops[|ops| - 1];
      RunIsGatedLru(l, cap, before);
      StepIsGated(l, cap, Run(l, cap, before), op);
      hide TurnedAway, Step, Lru.Step;
      assert DropLast(Gated(l, cap, before) + [op]) == Gated(l, cap, before);
    }
  }

  /** The calls and replies of a run, an insert turned away counting as no call. */
  function Log<K(==), V>(l: Layout<K>, cap: nat, ops: seq<Op<K, V>>): seq<Call<K, V>>
    requires l.Valid()
  {
    if ops == [] then []
    else if TurnedAway(l, cap, Run(l, cap, DropLast(ops)), ops[|ops| - 1]) then Log(l, cap, DropLast(ops))
    else Log(l, cap, DropLast(ops)) + [Call(ops[|ops| - 1], LastReply(l, cap, ops))]
  }

  /** In every run the list is ordered by last access and holds each key's latest inserted
      value, an insert turned away being neither. */
  lemma {:induction false} RunIsChronological<K, V>(l: Layout<K>, cap: nat, ops: seq<Op<K, V>>)
    requires l.Valid() && cap >= 1
    ensures Log(l, cap, ops) == Lru.Log(cap, Gated(l, cap, ops))
    ensures Lru.Chronological(Run(l, cap, ops).entries, Log(l, cap, ops))
  {
    RunIsGatedLru(l, cap, ops);
    Lru.RunIsChronological(cap, Gated(l, cap, ops));
    if ops != [] {
      var before, op := DropLast(ops), ops[|ops| - 1];
      RunIsChronological(l, cap, before);
      assert DropLast(Gated(l, cap, before) + [op]) == Gated(l, cap, before);
      hide TurnedAway, Run, LastReply, Lru.Run, Lru.LastReply, Lru.Chronological;
    }
  }

  /** One call acts and answers as on the map of the shard's contents, up to its eviction;
      an insert turned away changes nothing there and answers nothing. */
  lemma StepOnContents<K, V>(l: Layout<K>, cap: nat, st: State<K, V>, op: Op<K, V>)
    requires Sized(l, st.sketch) && DistinctKeys(st.entries) && |st.entries| <= cap && cap >= 1
    ensures var (st', reply) := Step(l, cap, st, op);
      (Contents(st'.entries), reply) ==
      if TurnedAway(l, cap, st, op) then (Contents(st.entries), Found(None))
      else OnMap(Contents(st.entries), op, Lru.Evicted(st.entries, cap, op))
  {
    Lru.StepOnContents(st.entries, cap, op);
    assert op.Clear? ==> Contents(Step(l, cap, st, op).0.entries) == map[];
    hide Rejects, Increment, Lru.Evicted, Contents, OnMap, DistinctKeys;
  }

  // ----- What admission compares

  /** The run leaves the shard full, `k` not held, and `victim` the held key accessed
      longest ago. */
  ghost predicate Contest<K, V>(l: Layout<K>, cap: nat, ops: seq<Op<K, V>>, k: K, victim: K)
    requires l.Valid()
  {
    var s := Run(l, cap, ops).entries;
    |s| == cap && k !in Keys(s) && Lru.LeastRecent(s, Log(l, cap, ops), victim)
  }

  /** A full shard has a key accessed longest ago, and it is the last of the list. */
  lemma {:induction false} VictimIsLast<K, V>(l: Layout<K>, cap: nat, ops: seq<Op<K, V>>, victim: K)
    requires l.Valid() && cap >= 1 && |Run(l, cap, ops).entries| == cap
    ensures Lru.LeastRecent(Run(l, cap, ops).entries, Log(l, cap, ops), victim) <==>
            victim == Run(l, cap, ops).entries[cap - 1].key
  {
    hide Run, Log, Lru.Log, Lru.Chronological, Lru.LeastRecent, Gated;
    RunIsChronological(l, cap, ops);
    Lru.LeastRecentIsLast(Run(l, cap, ops).entries, Log(l, cap, ops), victim);
  }

  /** After any run, a new key meeting a full shard is admitted exactly when its estimate,
      this call counted, exceeds that of the held key accessed longest ago, which it then
      replaces; otherwise the held keys stay. */
  lemma {:induction false} AdmittedIff<K, V>(
      l: Layout<K>, cap: nat, ops: seq<Op<K, V>>, k: K, v: V, victim: K)
    requires l.Valid() && cap >= 1 && Contest(l, cap, ops, k, victim)
    ensures var keys, ops' := Keys(Run(l, cap, ops).entries), ops + [Insert(k, v)];
      var cells := SketchModel.Run(l, Events(ops')).cells;
      Keys(Run(l, cap, ops').entries) ==
      if SketchModel.Estimate(l, cells, k) > SketchModel.Estimate(l, cells, victim)
      then keys - {victim} + {k} else keys
  {
    hide DistinctKeys, Keys, Estimate, Rejects, Increment, SketchModel.Run, Run, Log, Step, Lru.Step, Lru.LeastRecent;
    var st := Run(l, cap, ops);
    RunSnoc(l, cap, ops, Insert(k, v));
    RunKeepsShape(l, cap, ops);
    SketchOfRun(l, cap, ops + [Insert(k, v)]);
    VictimIsLast(l, cap, ops, victim);
    InsertIsGatedLru(l, cap, st, k, v);
    Lru.InsertKeys(st.entries, cap, k, v);
  }

  /** After any run, a new key meeting a full shard is admitted whenever its exact
      counter beats the ideal counts that collide with the victim in some row. */
  lemma {:induction false} StrongCandidateIsAdmitted<K, V>(
      l: Layout<K>, cap: nat, ops: seq<Op<K, V>>, k: K, v: V, victim: K, keys: seq<K>, d: nat)
    requires l.Valid() && cap >= 1 && d < DEPTH && Contest(l, cap, ops, k, victim)
    requires Covers(keys, Events(ops + [Insert(k, v)]))
    requires var evs := Events(ops + [Insert(k, v)]);
      Mass(l, evs, keys, d, victim) < Exact(l, evs, k) as real
    ensures k in Keys(Run(l, cap, ops + [Insert(k, v)]).entries)
  {
    AdmittedIff(l, cap, ops, k, v, victim);
    Sandwich(l, Events(ops + [Insert(k, v)]), keys, k);
    Sandwich(l, Events(ops + [Insert(k, v)]), keys, victim);
  }

  /** After any run, when a new key is admitted to a full shard, the ideal counts that
      collide with it beat the victim's exact counter in every row. */
  lemma {:induction false} AdmittedOutweighsVictim<K, V>(
      l: Layout<K>, cap: nat, ops: seq<Op<K, V>>, k: K, v: V, victim: K, keys: seq<K>, d: nat)
    requires l.Valid() && cap >= 1 && d < DEPTH && Contest(l, cap, ops, k, victim)
    requires Covers(keys, Events(ops + [Insert(k, v)]))
    requires k in Keys(Run(l, cap, ops + [Insert(k, v)]).entries)
    ensures var evs := Events(ops + [Insert(k, v)]);
      Mass(l, evs, keys, d, k) > Exact(l, evs, victim) as real
  {
    AdmittedIff(l, cap, ops, k, v, victim);
    Sandwich(l, Events(ops + [Insert(k, v)]), keys, k);
    Sandwich(l, Events(ops + [Insert(k, v)]), keys, victim);
  }

  /** Gets and inserts since construction or the last clear. */
  function Calls<K, V>(ops: seq<Op<K, V>>): nat {
    if ops == [] || ops[|ops| - 1].Clear? then 0
    else Calls(DropLast(ops)) + if ops[|ops| - 1].Get? || ops[|ops| - 1].Insert? then 1 else 0
  }

  /** Those of one key, hits or misses, admitted or turned away. */
  function CallsOn<K(==), V>(ops: seq<Op<K, V>>, k: K): nat {
    if ops == [] || ops[|ops| - 1].Clear? then 0
    else
      var op := ops[|ops| - 1];
      CallsOn(DropLast(ops), k) + if (op.Get? || op.Insert?) && op.key == k then 1 else 0
  }

  /** Within one sample window and below saturation, exact and ideal counts are the number
      of gets and inserts. */
  lemma {:induction false} CountsAreCalls<K, V>(l: Layout<K>, ops: seq<Op<K, V>>, k: K)
    requires Calls(ops) < l.window && CallsOn(ops, k) <= 255
    ensures Samples(l, Events(ops)) == Calls(ops)
    ensures Exact(l, Events(ops), k) == CallsOn(ops, k)
    ensures Decayed(l, Events(ops), k) == CallsOn(ops, k) as real
  {
    if ops != [] && !ops[|ops| - 1].Clear? {
      CountsAreCalls(l, DropLast(ops), k);
      assert Events(ops) != Events(DropLast(ops)) ==> DropLast(Events(ops)) == Events(DropLast(ops));
    }
  }

  /** So, within one sample window and below saturation, for a new key and a victim that
      each share some row with no other key used, admission compares the numbers of gets and
      inserts made of them, this one included. */
  lemma {:induction false} AdmissionComparesCalls<K, V>(
      l: Layout<K>, cap: nat, ops: seq<Op<K, V>>, k: K, v: V, victim: K, keys: seq<K>, d: nat, e: nat)
    requires l.Valid() && cap >= 1 && d < DEPTH && e < DEPTH && Contest(l, cap, ops, k, victim)
    requires Calls(ops) + 1 < l.window && CallsOn(ops, k) < 255 && CallsOn(ops, victim) <= 255
    requires Distinct(keys) && Covers(keys, Events(ops + [Insert(k, v)]))
    requires forall x :: x in keys && x != k ==> !Collide(l, d, x, k)
    requires forall x :: x in keys && x != victim ==> !Collide(l, e, x, victim)
    ensures k in Keys(Run(l, cap, ops + [Insert(k, v)]).entries) <==> CallsOn(ops, k) + 1 > CallsOn(ops, victim)
  {
    var ops' := ops + [Insert(k, v)];
    assert DropLast(ops') == ops;
    assert k != victim;
    CountsAreCalls(l, ops', k);
    CountsAreCalls(l, ops', victim);
    LoneKeyIsCounted(l, Events(ops'), keys, d, k);
    LoneKeyIsCounted(l, Events(ops'), keys, e, victim);
    hide Collide, Estimate, Decayed, Exact, Events, Run, Log;
    AdmittedIff(l, cap, ops, k, v, victim);
  }

  /** So the promise that it leaves the cache unchanged is not kept: a call turned away
      once changes a later admission. In a shard of one entry, the same insert of another
      key is turned away the first time and admitted the second, for any keys that do not
      share their first counter. */
  lemma {:induction false} TurnedAwayThenAdmitted<K, V>(l: Layout<K>, a: K, b: K, v: V)
    requires l.Valid() && l.window >= 4 && a != b && !Collide(l, 0, a, b)
    ensures var once := [Op.Insert(a, v)] + [Insert(b, v)];
      && Run(l, 1, once).entries == [Entry(a, v)]
      && b in Keys(Run(l, 1, once + [Insert(b, v)]).entries)
  {
    var ops: seq<Op<K, V>>, add: Op<K, V> := [Insert(a, v)], Insert(b, v);
    var once := ops + [add];
    FirstInsert(l, a, v);
    CallsOfThree(a, b, v);
    EventsOfThree(a, b, v);
    hide Collide, Run, Log, Events, Calls, CallsOn;
    VictimIsLast(l, 1, ops, a);
    AdmissionComparesCalls(l, 1, ops, b, v, a, [a, b], 0, 0);
    InsertIsGatedLru(l, 1, Run(l, 1, ops), b, v);
    RunSnoc(l, 1, ops, add);
    VictimIsLast(l, 1, once, a);
    AdmissionComparesCalls(l, 1, once, b, v, a, [a, b], 0, 0);
  }

  lemma RunSnoc<K, V>(l: Layout<K>, cap: nat, ops: seq<Op<K, V>>, op: Op<K, V>)
    requires l.Valid()
    ensures Run(l, cap, ops + [op]) == Step(l, cap, Run(l, cap, ops), op).0
  {
    assert DropLast(ops + [op]) == ops;
  }

  lemma FirstInsert<K, V>(l: Layout<K>, a: K, v: V)
    requires l.Valid()
    ensures Run(l, 1, [Op.Insert(a, v)]).entries == [Entry(a, v)]
  {
    hide Increment, Estimate;
    assert DropLast([Op.Insert(a, v)]) == [];
  }

  lemma CallsOfThree<K, V>(a: K, b: K, v: V)
    requires a != b
    ensures var ops := [Op.Insert(a, v)]; var once := ops + [Insert(b, v)];
      && Calls(ops) == 1 && CallsOn(ops, a) == 1 && CallsOn(ops, b) == 0
      && Calls(once) == 2 && CallsOn(once, a) == 1 && CallsOn(once, b) == 1
  {
    var ops := [Op.Insert(a, v)];
    assert DropLast(ops) == [] && DropLast(ops + [Insert(b, v)]) == ops;
  }

  lemma EventsOfThree<K, V>(a: K, b: K, v: V)
    ensures var once := [Op.Insert(a, v)] + [Insert(b, v)];
      Covers([a, b], Events(once)) && Covers([a, b], Events(once + [Insert(b, v)]))
  {
    var ops: seq<Op<K, V>>, add: Op<K, V> := [Insert(a, v)], Insert(b, v);
    assert DropLast(ops) == [] && DropLast(ops + [add]) == ops && DropLast(ops + [add] + [add]) == ops + [add];
    assert Events(ops) == [Touch(a)];
    assert Events(ops + [add]) == [Touch(a)] + [Touch(b)];
  }
}

/** One shard of the TinyLFU cache: `Inner` of src/tinylfu.rs, driven under its lock. */
module TinyLfuStore {
  import opened Machine
  import opened Recency
  import opened CacheApi
  import opened LinkedArena
  import opened SketchModel
  import opened SketchStore
  import opened TinyLfuPolicy
  import Lru = LruPolicy

  class TinyLfuShard<K(==), V> {
    const capacity: Usize
    const arena: Arena<K, V>
    const sketch: CountMinSketch<K>

    ghost predicate Valid()
      reads this, arena, sketch, sketch.counters
    {
      && arena.Valid() && sketch.Valid()
      && 1 <= capacity && arena.peak <= capacity
    }

    ghost function State(): State<K, V>
      requires Valid()
      reads this, arena, sketch, sketch.counters
    {
      TinyLfuPolicy.State.State(arena.Entries(), sketch.Value())
    }

    constructor (capacity: Usize, hash: (K, nat) -> nat)
      requires capacity >= 1 && 16 * capacity <= USIZE_MAX + 1
      ensures Valid() && fresh(arena) && fresh(sketch) && fresh(sketch.counters)
      ensures this.capacity == capacity && State() == TinyLfuPolicy.Run(sketch.Layout(), capacity, [])
    {
      this.capacity := capacity;
      arena := new Arena();
      sketch := new CountMinSketch(capacity, hash);
    }

    method Get(key: K) returns (value: Option<V>)
      requires Valid()
      modifies this, arena, sketch, sketch.counters
      ensures Valid()
      ensures State() == Step(sketch.Layout(), capacity, old(State()), Op.Get(key)).0
      ensures Reply.Found(value) == Step(sketch.Layout(), capacity, old(State()), Op.Get(key)).1
    {
      hide Shaped, DistinctKeys, Indexed;
      sketch.Increment(key);
      arena.MappedIffListed();
      if key !in arena.index {
        return None;
      }
      arena.PositionOf(key);
      var v := arena.Touch(key);
      value := Some(v);
    }

    method Insert(key: K, value: V) returns (previous: Option<V>)
      requires Valid()
      modifies this, arena, sketch, sketch.counters
      ensures Valid()
      ensures State() == Step(sketch.Layout(), capacity, old(State()), Op.Insert(key, value)).0
      ensures Reply.Found(previous) == Step(sketch.Layout(), capacity, old(State()), Op.Insert(key, value)).1
      ensures Rejects(sketch.Layout(), capacity, old(arena.Entries()), sketch.Value(), key) ==>
        unchanged(arena)
      ensures arena.peak == Max(old(arena.peak), |arena.Entries()|)
    {
      hide Shaped, DistinctKeys, Indexed, Keys, BumpRows, EstimateRows;
      sketch.Increment(key);
      arena.MappedIffListed();
      if key in arena.index {
        arena.PositionOf(key);
        var was := arena.Replace(key, value);
        return Some(was);
      }
      Admit(key, value);
      previous := None;
    }

    /** The branch of `insert` for a key that is not held. */
    method Admit(key: K, value: V)
      requires Valid() && key !in arena.index
      modifies arena
      ensures Valid()
      ensures if Rejects(sketch.Layout(), capacity, old(arena.Entries()), sketch.Value(), key) then unchanged(arena)
              else arena.Entries() == [Entry(key, value)] + Lru.MakeRoom(old(arena.Entries()), capacity)
      ensures arena.peak == Max(old(arena.peak), |arena.Entries()|)
    {
      hide Shaped, DistinctKeys, Indexed, Keys, BumpRows, EstimateRows;
      arena.MappedIffListed();
      if |arena.index| >= capacity {
        var candidate := sketch.Estimate(key);
        var victimKey := arena.TailKey();
        var victim := sketch.Estimate(victimKey);
        if candidate <= victim {
          return;
        }
        arena.EvictLast();
      }
      arena.Prepend(key, value);
    }

    method Remove(key: K) returns (value: Option<V>)
      requires Valid()
      modifies arena
      ensures Valid()
      ensures State() == Step(sketch.Layout(), capacity, old(State()), Op.Remove(key)).0
      ensures Reply.Found(value) == Step(sketch.Layout(), capacity, old(State()), Op.Remove(key)).1
    {
      hide Shaped, DistinctKeys, Indexed;
      arena.MappedIffListed();
      if key !in arena.index {
        return None;
      }
      arena.PositionOf(key);
      var v := arena.Delete(key);
      value := Some(v);
    }

    method ContainsKey(key: K) returns (present: bool)
      requires Valid()
      ensures State() == Step(sketch.Layout(), capacity, State(), Op.ContainsKey(key)).0
      ensures Reply.Has(present) == Step(sketch.Layout(), capacity, State(), Op.ContainsKey(key)).1
    {
      arena.MappedIffListed();
      present := key in arena.index;
    }

    method Len() returns (n: nat)
      requires Valid()
      ensures n == |State().entries| <= capacity
    {
      arena.MappedIffListed();
      n := |arena.index|;
    }

    method Clear()
      requires Valid()
      modifies this, arena, sketch, sketch.counters
      ensures Valid()
      ensures State() == Step(sketch.Layout(), capacity, old(State()), Op.Clear).0
    {
      arena.Clear();
      sketch.Reset();
    }

    /** Slot conservation: live entries and free slots fill the arena, whose length is
        the most entries held at once since construction or the last clear. */
    lemma ArenaAccounted()
      requires Valid()
      ensures |arena.nodes| == |arena.Entries()| + |arena.free| == arena.peak <= capacity
    {
      arena.FreeSlots();
    }
  }
}
