/** Least-frequently-used policy on plain values: the value map, the priority index
    from (count, age) to key, and the 64-bit clock that stamps accesses. */
module LfuPolicy {
  import opened Machine
  import opened Recency
  import opened CacheApi

  datatype Record<+V> = Record(value: V, count: Usize, age: Usize)

  datatype Priority = Priority(count: Usize, age: Usize)

  datatype State<!K, +V> = State(items: map<K, Record<V>>, byPriority: map<Priority, K>, clock: Usize)

  function PriorityOf<V>(r: Record<V>): Priority { Priority(r.count, r.age) }

  predicate AtMost(a: Priority, b: Priority) {
    a.count < b.count || (a.count == b.count && a.age <= b.age)
  }

  ghost predicate IsFirst(p: Priority, ps: set<Priority>) {
    p in ps && forall q :: q in ps ==> AtMost(p, q)
  }

  lemma {:induction false} FirstExists(ps: set<Priority>)
    requires ps != {}
    ensures exists p :: IsFirst(p, ps)
  {
    var x :| x in ps;
    if ps - {x} != {} {
      FirstExists(ps - {x});
      var p :| IsFirst(p, ps - {x});
      var best := if AtMost(x, p) then x else p;
      forall q | q in ps ensures AtMost(best, q) {
        assert q == x || q in ps - {x};
      }
      assert IsFirst(best, ps);
    } else {
      assert ps == {x};
      assert IsFirst(x, ps);
    }
  }

  /** The least priority of a non-empty index. */
  ghost function First(ps: set<Priority>): (p: Priority)
    requires ps != {}
    ensures IsFirst(p, ps)
  {
    FirstExists(ps);
    var p :| IsFirst(p, ps);
    p
  }

  function Tick(clock: Usize): Usize {
    if clock == USIZE_MAX then 0 else clock + 1
  }

  /** Counts an access to a held key at time `now`, re-filing it in the index. */
  function Bump<K, V>(st: State<K, V>, k: K, value: V, now: Usize): State<K, V>
    requires k in st.items
  {
    var r := Record(value, SatAdd(st.items[k].count, 1), now);
    State(st.items[k := r], (st.byPriority - {PriorityOf(st.items[k])})[PriorityOf(r) := k], now)
  }

  /** Drops the key filed under the least priority. */
  ghost function PopFirst<K, V>(st: State<K, V>): State<K, V> {
    if st.byPriority == map[] then st
    else
      var p := First(st.byPriority.Keys);
      st.(items := st.items - {st.byPriority[p]}, byPriority := st.byPriority - {p})
  }

  function StoreNew<K, V>(st: State<K, V>, k: K, value: V, now: Usize): State<K, V> {
    State(st.items[k := Record(value, 1, now)], st.byPriority[Priority(1, now) := k], now)
  }

  ghost function MakeRoom<K, V>(st: State<K, V>, cap: nat): State<K, V> {
    if |st.items| >= cap then PopFirst(st) else st
  }

  ghost function Step<K, V>(st: State<K, V>, cap: nat, op: Op<K, V>): (State<K, V>, Reply<V>) {
    var now := Tick(st.clock);
    match op
    case Get(k) =>
      if k in st.items then (Bump(st, k, st.items[k].value, now), Found(Some(st.items[k].value)))
      else (st.(clock := now), Found(None))
    case Insert(k, v) =>
      if k in st.items then (Bump(st, k, v, now), Found(Some(st.items[k].value)))
      else (StoreNew(MakeRoom(st, cap), k, v, now), Found(None))
    case Remove(k) =>
      if k in st.items then
        (st.(items := st.items - {k}, byPriority := st.byPriority - {PriorityOf(st.items[k])}),
         Found(Some(st.items[k].value)))
      else (st, Found(None))
    case ContainsKey(k) => (st, Has(k in st.items))
    case Clear => (State(map[], map[], 0), Cleared)
  }

  // ----- The index is the inverse of the map

  /** Every held key is filed under its own priority and nothing else is filed. */
  ghost predicate Inverse<K, V>(items: map<K, Record<V>>, index: map<Priority, K>) {
    && (forall k :: k in items ==> PriorityOf(items[k]) in index && index[PriorityOf(items[k])] == k)
    && (forall p :: p in index ==> index[p] in items && PriorityOf(items[index[p]]) == p)
  }

  /** Ages are distinct stamps of the clock so far. */
  ghost predicate Stamped<K, V>(items: map<K, Record<V>>, clock: Usize) {
    && (forall k :: k in items ==> 1 <= items[k].age <= clock && 1 <= items[k].count)
    && (forall k, x :: k in items && x in items && k != x ==> items[k].age != items[x].age)
  }

  lemma {:induction false} InverseCounts<K, V>(items: map<K, Record<V>>, index: map<Priority, K>)
    requires Inverse(items, index)
    ensures |items| == |index|
  {
    if items != map[] {
      var k :| k in items;
      var p := PriorityOf(items[k]);
      assert (items - {k}).Keys == items.Keys - {k} && (index - {p}).Keys == index.Keys - {p};
      InverseCounts(items - {k}, index - {p});
    } else {
      assert index.Keys == {};
    }
  }

  /** The priority a call is about to file its key under, when it files one. */
  ghost function NewPriority<K, V>(st: State<K, V>, op: Op<K, V>): Priority
    requires op.Get? || op.Insert?
  {
    if op.key in st.items then Priority(SatAdd(st.items[op.key].count, 1), Tick(st.clock))
    else Priority(1, Tick(st.clock))
  }

  /** The call files its key under a priority that some other key, not evicted by
      this very call, already has. */
  ghost predicate Overwrites<K, V>(st: State<K, V>, cap: nat, op: Op<K, V>) {
    match op
    case Get(k) => k in st.items && TakenByOther(st, NewPriority(st, op), k)
    case Insert(k, _) => TakenByOther(if k in st.items then st else MakeRoom(st, cap), NewPriority(st, op), k)
    case _ => false
  }

  ghost predicate TakenByOther<K, V>(st: State<K, V>, p: Priority, k: K) {
    exists x :: x in st.items && x != k && PriorityOf(st.items[x]) == p
  }

  lemma BumpInverseIff<K, V>(st: State<K, V>, k: K, value: V, now: Usize)
    requires Inverse(st.items, st.byPriority) && k in st.items
    ensures Inverse(Bump(st, k, value, now).items, Bump(st, k, value, now).byPriority) <==>
            !TakenByOther(st, Priority(SatAdd(st.items[k].count, 1), now), k)
  {
    var st' := Bump(st, k, value, now);
    var p, p' := PriorityOf(st.items[k]), Priority(SatAdd(st.items[k].count, 1), now);
    if TakenByOther(st, p', k) {
      var x :| x in st.items && x != k && PriorityOf(st.items[x]) == p';
      assert st'.items[x] == st.items[x] && st'.byPriority[p'] == k;
    }
  }

  lemma StoreInverseIff<K, V>(st: State<K, V>, k: K, value: V, now: Usize)
    requires Inverse(st.items, st.byPriority) && k !in st.items
    ensures var st' := StoreNew(st, k, value, now);
      Inverse(st'.items, st'.byPriority) <==> !TakenByOther(st, Priority(1, now), k)
  {
    var st' := StoreNew(st, k, value, now);
    if TakenByOther(st, Priority(1, now), k) {
      var x :| x in st.items && x != k && PriorityOf(st.items[x]) == Priority(1, now);
      assert st'.items[x] == st.items[x] && st'.byPriority[Priority(1, now)] == k;
    }
  }

  /** One call keeps the index the inverse of the map exactly when it does not file
      its key over another one. */
  lemma StepInverseIff<K, V>(st: State<K, V>, cap: nat, op: Op<K, V>)
    requires Inverse(st.items, st.byPriority)
    ensures Inverse(Step(st, cap, op).0.items, Step(st, cap, op).0.byPriority) <==> !Overwrites(st, cap, op)
  {
    var now := Tick(st.clock);
    match op {
      case Get(k) =>
        if k in st.items {
          BumpInverseIff(st, k, st.items[k].value, now);
        }
      case Insert(k, v) =>
        if k in st.items {
          BumpInverseIff(st, k, v, now);
        } else {
          StoreInverseIff(MakeRoom(st, cap), k, v, now);
        }
      case Remove(k) =>
      case ContainsKey(_) =>
      case Clear =>
    }
  }

  lemma StampLatest<K, V>(items: map<K, Record<V>>, clock: Usize, k: K, r: Record<V>)
    requires Stamped(items, clock) && clock < r.age && 1 <= r.count
    ensures Stamped(items[k := r], r.age)
  {
  }

  lemma RoomIsSmaller<K, V>(st: State<K, V>, cap: nat)
    ensures var room := MakeRoom(st, cap);
      room.items.Keys <= st.items.Keys && forall x :: x in room.items ==> room.items[x] == st.items[x]
  {
  }

  /** Until the clock wraps, stamps are new, so nothing is ever overwritten. */
  lemma StepKeepsStamps<K, V>(st: State<K, V>, cap: nat, op: Op<K, V>)
    requires Stamped(st.items, st.clock) && ((op.Get? || op.Insert?) ==> st.clock < USIZE_MAX)
    ensures var st' := Step(st, cap, op).0; Stamped(st'.items, st'.clock)
    ensures !Overwrites(st, cap, op)
  {
    match op {
      case Insert(k, _) =>
        var rest := if k in st.items then st.items else MakeRoom(st, cap).items;
        StampLatest(rest, st.clock, k, Step(st, cap, op).0.items[k]);
      case _ =>
    }
  }

  // ----- The shard as a map

  function Values<K, V>(items: map<K, Record<V>>): map<K, V> {
    map k | k in items :: items[k].value
  }

  /** The key an insert evicts: the first one of the index, when the shard is full. */
  ghost function Evicted<K, V>(st: State<K, V>, cap: nat, op: Op<K, V>): set<K> {
    if op.Insert? && op.key !in st.items && |st.items| >= cap && st.byPriority.Keys != {} then
      {st.byPriority[First(st.byPriority.Keys)]}
    else {}
  }

  /** One call acts on keys and values as on a map that first loses the evicted key. */
  lemma StepOnValues<K, V>(st: State<K, V>, cap: nat, op: Op<K, V>)
    ensures var (st', reply) := Step(st, cap, op);
      (Values(st'.items), reply) == OnMap(Values(st.items), op, Evicted(st, cap, op))
  {
    var st' := Step(st, cap, op).0;
    var goal := OnMap(Values(st.items), op, Evicted(st, cap, op)).0;
    RoomDropsEvicted(st, cap, op);
    hide MakeRoom, Evicted;
    assert Values(st'.items) == goal;
  }

  lemma RoomDropsEvicted<K, V>(st: State<K, V>, cap: nat, op: Op<K, V>)
    ensures op.Insert? && op.key !in st.items ==>
      MakeRoom(st, cap).items == st.items - Evicted(st, cap, op)
    ensures !op.Insert? || op.key in st.items ==> Evicted(st, cap, op) == {}
  {
  }

  // ----- Whole runs

  ghost function Run<K, V>(cap: nat, ops: seq<Op<K, V>>): State<K, V> {
    if ops == [] then State(map[], map[], 0) else Step(Run(cap, DropLast(ops)), cap, ops[|ops| - 1]).0
  }

  ghost function Log<K, V>(cap: nat, ops: seq<Op<K, V>>): (log: seq<Call<K, V>>)
    ensures |log| == |ops|
  {
    if ops == [] then []
    else Log(cap, DropLast(ops)) + [Call(ops[|ops| - 1], Step(Run(cap, DropLast(ops)), cap, ops[|ops| - 1]).1)]
  }

  // ----- Capacity, in runs of any length

  /** Whatever is filed is a held key under its own priority. */
  ghost predicate Filed<K, V>(items: map<K, Record<V>>, index: map<Priority, K>) {
    forall p :: p in index ==> index[p] in items && PriorityOf(items[index[p]]) == p
  }

  /** The shard is within capacity, only held keys are filed, and a full shard has
      something filed to evict. */
  ghost predicate Evictable<K, V>(st: State<K, V>, cap: nat) {
    && Filed(st.items, st.byPriority)
    && |st.items| <= cap
    && (|st.items| == cap ==> st.byPriority != map[])
  }

  /** Making room in a full shard takes exactly one held key. */
  lemma RoomIsMade<K, V>(st: State<K, V>, cap: nat)
    requires cap >= 1 && Evictable(st, cap)
    ensures var room := MakeRoom(st, cap);
      && Filed(room.items, room.byPriority)
      && |room.items| == (if |st.items| == cap then cap - 1 else |st.items|)
      && room.items.Keys <= st.items.Keys
  {
  }

  lemma BumpStaysFiled<K, V>(st: State<K, V>, k: K, value: V, now: Usize)
    requires Filed(st.items, st.byPriority) && k in st.items
    ensures var st' := Bump(st, k, value, now);
      Filed(st'.items, st'.byPriority) && |st'.items| == |st.items| && st'.byPriority != map[]
  {
    var st' := Bump(st, k, value, now);
    assert PriorityOf(st'.items[k]) in st'.byPriority;
    assert st'.items.Keys == st.items.Keys;
  }

  lemma NewStaysFiled<K, V>(st: State<K, V>, k: K, value: V, now: Usize)
    requires Filed(st.items, st.byPriority) && k !in st.items
    ensures var st' := StoreNew(st, k, value, now);
      Filed(st'.items, st'.byPriority) && |st'.items| == |st.items| + 1 && st'.byPriority != map[]
  {
    assert Priority(1, now) in StoreNew(st, k, value, now).byPriority;
  }

  lemma StepKeepsEvictable<K, V>(st: State<K, V>, cap: nat, op: Op<K, V>)
    requires cap >= 1 && Evictable(st, cap)
    ensures Evictable(Step(st, cap, op).0, cap)
  {
    var now := Tick(st.clock);
    match op {
      case Get(k) =>
        if k in st.items {
          BumpStaysFiled(st, k, st.items[k].value, now);
        }
      case Insert(k, v) =>
        RoomIsMade(st, cap);
        hide Filed, MakeRoom, Bump, StoreNew;
        if k in st.items {
          BumpStaysFiled(st, k, v, now);
        } else {
          NewStaysFiled(MakeRoom(st, cap), k, v, now);
        }
      case Remove(k) =>
        assert k in st.items ==> |st.items - {k}| == |st.items| - 1;
      case _ =>
    }
  }

  /** However long a run is, and whatever the clock did, the shard is within capacity,
      and making room in a full one takes exactly one held key. */
  lemma {:induction false} RunStaysBounded<K, V>(cap: nat, ops: seq<Op<K, V>>)
    requires cap >= 1
    ensures var st := Run(cap, ops);
      && Evictable(st, cap) && |st.items| <= cap
      && MakeRoom(st, cap).items.Keys <= st.items.Keys
      && |MakeRoom(st, cap).items| == if |st.items| == cap then cap - 1 else |st.items|
  {
    if ops != [] {
      RunStaysBounded(cap, DropLast(ops));
      StepKeepsEvictable(Run(cap, DropLast(ops)), cap, ops[|ops| - 1]);
    }
    RoomIsMade(Run(cap, ops), cap);
  }

  /** Gets and inserts since construction or the last clear. */
  function Ticks<K, V>(ops: seq<Op<K, V>>): nat {
    if ops == [] || ops[|ops| - 1].Clear? then 0
    else Ticks(DropLast(ops)) + if ops[|ops| - 1].Get? || ops[|ops| - 1].Insert? then 1 else 0
  }

  /** The clock has not wrapped at any point of the run. */
  ghost predicate NeverWraps<K, V>(ops: seq<Op<K, V>>) {
    forall n :: 0 <= n <= |ops| ==> Ticks(ops[..n]) <= USIZE_MAX
  }

  lemma NeverWrapsBefore<K, V>(ops: seq<Op<K, V>>)
    requires NeverWraps(ops)
    ensures Ticks(ops) <= USIZE_MAX
    ensures ops != [] ==> NeverWraps(DropLast(ops)) && Ticks(DropLast(ops)) <= USIZE_MAX
  {
    assert ops[..|ops|] == ops;
    if ops != [] {
      var before := DropLast(ops);
      forall n | 0 <= n <= |before| ensures Ticks(before[..n]) <= USIZE_MAX {
        assert before[..n] == ops[..n];
      }
    }
  }

  /** Uses of `k` in the log: its latest insertion as a new key and the hits since. */
  function Uses<K(==), V>(log: seq<Call<K, V>>, k: K): nat {
    if log == [] then 0
    else
      var c := log[|log| - 1];
      if !Accesses(c, k) then Uses(DropLast(log), k)
      else if c.reply == Found(None) then 1
      else Uses(DropLast(log), k) + 1
  }

  function Capped(n: nat): Usize { if n <= USIZE_MAX then n else USIZE_MAX }

  // ----- What the records say, in runs of any length

  const WRAP: nat := USIZE_MAX + 1

  /** What the clock shows after `n` ticks. */
  function Stamp(n: nat): Usize {
    n % WRAP
  }

  /** `n` ticks bring the clock back to where it was. */
  predicate WholeWraps(n: nat) {
    n % WRAP == 0
  }

  lemma TickStamp(n: nat)
    ensures Tick(Stamp(n)) == Stamp(n + 1)
  {
  }

  lemma SameStampIff(tick: nat, now: nat)
    requires tick <= now
    ensures Stamp(tick) == Stamp(now) <==> WholeWraps(now - tick)
  {
  }

  /** The tick of the latest access to `k`: how many there had been since construction
      or the last clear. */
  ghost function AccessTick<K, V>(cap: nat, ops: seq<Op<K, V>>, k: K): nat {
    if ops == [] then 0
    else if Accesses(Log(cap, ops)[|ops| - 1], k) then Ticks(ops)
    else AccessTick(cap, DropLast(ops), k)
  }

  /** The record of `k` is what the calls and replies say, its age up to the wrap. */
  ghost predicate Recorded<K, V>(cap: nat, ops: seq<Op<K, V>>, k: K, r: Record<V>) {
    && r.count == Capped(Uses(Log(cap, ops), k))
    && LastInserted(Log(cap, ops), k) == Some(r.value)
    && 1 <= AccessTick(cap, ops, k) <= Ticks(ops)
    && r.age == Stamp(AccessTick(cap, ops, k))
  }

  lemma LogOfLast<K, V>(cap: nat, ops: seq<Op<K, V>>)
    requires ops != []
    ensures DropLast(Log(cap, ops)) == Log(cap, DropLast(ops))
    ensures Log(cap, ops)[|ops| - 1] == Call(ops[|ops| - 1], Step(Run(cap, DropLast(ops)), cap, ops[|ops| - 1]).1)
  {
  }

  /** A call that does not access `k` and does not empty the shard leaves its record true. */
  lemma RecordStays<K, V>(cap: nat, ops: seq<Op<K, V>>, k: K, r: Record<V>)
    requires ops != [] && !ops[|ops| - 1].Clear? && Recorded(cap, DropLast(ops), k, r)
    requires !Accesses(Log(cap, ops)[|ops| - 1], k)
    ensures Recorded(cap, ops, k, r)
  {
    LogOfLast(cap, ops);
    hide Stamp, Run, Step;
  }

  /** The call counts of a key just accessed, one step unfolded. */
  lemma AccessUnfolds<K, V>(cap: nat, ops: seq<Op<K, V>>, k: K)
    requires ops != [] && Accesses(Log(cap, ops)[|ops| - 1], k)
    ensures var before, log, op := Log(cap, DropLast(ops)), Log(cap, ops), ops[|ops| - 1];
      && AccessTick(cap, ops, k) == Ticks(ops) == Ticks(DropLast(ops)) + 1
      && Uses(log, k) == (if log[|log| - 1].reply == Found(None) then 1 else Uses(before, k) + 1)
      && LastInserted(log, k) == if op.Insert? then Some(op.value) else LastInserted(before, k)
  {
    LogOfLast(cap, ops);
    hide Run, Log, Step;
  }

  lemma RecordMade<K, V>(cap: nat, ops: seq<Op<K, V>>, k: K)
    requires ops != [] && Accesses(Log(cap, ops)[|ops| - 1], k)
    requires var st := Run(cap, DropLast(ops));
      st.clock == Stamp(Ticks(DropLast(ops))) && (k in st.items ==> Recorded(cap, DropLast(ops), k, st.items[k]))
    ensures k in Run(cap, ops).items && Recorded(cap, ops, k, Run(cap, ops).items[k])
  {
    hide Stamp, Tick, MakeRoom, Run, Log, Ticks, AccessTick, Uses, LastInserted;
    LogOfLast(cap, ops);
    RunOfLast(cap, ops);
    TickStamp(Ticks(DropLast(ops)));
    AccessUnfolds(cap, ops, k);
  }

  /** One call on the clock, and on the records it does not write. */
  lemma StepOnRecords<K, V>(st: State<K, V>, cap: nat, op: Op<K, V>)
    ensures var (st', reply) := Step(st, cap, op);
      && st'.clock == (if op.Clear? then 0 else if op.Get? || op.Insert? then Tick(st.clock) else st.clock)
      && forall k :: k in st'.items && !Accesses(Call(op, reply), k) ==>
           !op.Clear? && k in st.items && st'.items[k] == st.items[k]
  {
    RoomIsSmaller(st, cap);
    hide MakeRoom;
  }

  lemma RunOfLast<K, V>(cap: nat, ops: seq<Op<K, V>>)
    requires ops != []
    ensures Run(cap, ops) == Step(Run(cap, DropLast(ops)), cap, ops[|ops| - 1]).0
  {
  }

  lemma {:induction false} ClockCounts<K, V>(cap: nat, ops: seq<Op<K, V>>)
    ensures Run(cap, ops).clock == Stamp(Ticks(ops))
  {
    if ops != [] {
      ClockCounts(cap, DropLast(ops));
      TickStamp(Ticks(DropLast(ops)));
      StepOnRecords(Run(cap, DropLast(ops)), cap, ops[|ops| - 1]);
      RunOfLast(cap, ops);
      hide Stamp, Tick, Step;
    }
  }

  /** In every run, before and after the wrap, the clock counts the ticks and every
      record is what the calls and replies say. */
  lemma {:induction false} RunIsRecorded<K, V>(cap: nat, ops: seq<Op<K, V>>, k: K)
    ensures Run(cap, ops).clock == Stamp(Ticks(ops))
    ensures k in Run(cap, ops).items ==> Recorded(cap, ops, k, Run(cap, ops).items[k])
  {
    ClockCounts(cap, ops);
    if ops != [] {
      var before, op := DropLast(ops), ops[|ops| - 1];
      RunIsRecorded(cap, before, k);
      LogOfLast(cap, ops);
      RunOfLast(cap, ops);
      StepOnRecords(Run(cap, before), cap, op);
      hide Stamp, Recorded, Run, Log, Step, Ticks;
      if Accesses(Log(cap, ops)[|ops| - 1], k) {
        RecordMade(cap, ops, k);
      } else if k in Run(cap, ops).items {
        RecordStays(cap, ops, k, Run(cap, before).items[k]);
      }
    }
  }

  /** An access to `k` now comes a positive multiple of 2^64 ticks after the latest access
      to `x`, and gives `k` the use count of `x`, both capped to the integer range. */
  ghost predicate Meets<K, V>(cap: nat, ops: seq<Op<K, V>>, k: K, x: K) {
    var log := Log(cap, ops);
    && Capped(Uses(log, x)) == Capped(if k in Run(cap, ops).items then Uses(log, k) + 1 else 1)
    && AccessTick(cap, ops, x) <= Ticks(ops) && WholeWraps(Ticks(ops) + 1 - AccessTick(cap, ops, x))
  }

  /** The call accesses a key that meets another held key, which it does not evict. */
  ghost predicate Collides<K, V>(cap: nat, ops: seq<Op<K, V>>, op: Op<K, V>) {
    var st := Run(cap, ops);
    && (op.Insert? || (op.Get? && op.key in st.items))
    && exists x :: x in st.items.Keys - Evicted(st, cap, op) && x != op.key && Meets(cap, ops, op.key, x)
  }

  lemma NewPriorityIsRecorded<K, V>(cap: nat, ops: seq<Op<K, V>>, op: Op<K, V>)
    requires op.Get? || op.Insert?
    ensures NewPriority(Run(cap, ops), op) ==
            Priority(Capped(if op.key in Run(cap, ops).items then Uses(Log(cap, ops), op.key) + 1 else 1),
                     Stamp(Ticks(ops) + 1))
  {
    hide Stamp, Tick, Run, Log, Uses, AccessTick, LastInserted, Ticks;
    RunIsRecorded(cap, ops, op.key);
    TickStamp(Ticks(ops));
  }

  lemma SamePriorityIff<V>(r: Record<V>, uses: nat, tick: nat, uses': nat, now: nat)
    requires r.count == Capped(uses) && r.age == Stamp(tick) && tick <= now
    ensures PriorityOf(r) == Priority(Capped(uses'), Stamp(now)) <==>
            Capped(uses) == Capped(uses') && WholeWraps(now - tick)
  {
    hide Stamp, WholeWraps, Capped;
    SameStampIff(tick, now);
  }

  lemma MeetsIff<K, V>(cap: nat, ops: seq<Op<K, V>>, op: Op<K, V>, x: K)
    requires (op.Get? || op.Insert?) && x in Run(cap, ops).items
    ensures PriorityOf(Run(cap, ops).items[x]) == NewPriority(Run(cap, ops), op) <==> Meets(cap, ops, op.key, x)
  {
    hide Stamp, WholeWraps, Run, Log, Uses, AccessTick, LastInserted, Ticks, NewPriority, PriorityOf, Capped;
    RunIsRecorded(cap, ops, x);
    NewPriorityIsRecorded(cap, ops, op);
    var log := Log(cap, ops);
    SamePriorityIff(Run(cap, ops).items[x], Uses(log, x), AccessTick(cap, ops, x),
                    if op.key in Run(cap, ops).items then Uses(log, op.key) + 1 else 1, Ticks(ops) + 1);
  }

  lemma OverwritesIff<K, V>(cap: nat, ops: seq<Op<K, V>>, op: Op<K, V>)
    ensures Overwrites(Run(cap, ops), cap, op) <==> Collides(cap, ops, op)
  {
    var st := Run(cap, ops);
    RoomDropsEvicted(st, cap, op);
    if op.Insert? || (op.Get? && op.key in st.items) {
      forall x | x in st.items
        ensures PriorityOf(st.items[x]) == NewPriority(st, op) <==> Meets(cap, ops, op.key, x)
      {
        MeetsIff(cap, ops, op, x);
      }
      hide MakeRoom, Evicted, Run, Meets, NewPriority, PriorityOf;
    }
  }

  ghost predicate InverseAfter<K, V>(cap: nat, ops: seq<Op<K, V>>, n: nat)
    requires n <= |ops|
  {
    Inverse(Run(cap, ops[..n]).items, Run(cap, ops[..n]).byPriority)
  }

  ghost predicate CollidesAt<K, V>(cap: nat, ops: seq<Op<K, V>>, n: nat)
    requires n < |ops|
  {
    Collides(cap, ops[..n], ops[n])
  }

  /** However long a run is, the index inverts the map at every point of it exactly
      when no call collides with a held key. */
  lemma {:induction false} RunInverseIff<K, V>(cap: nat, ops: seq<Op<K, V>>)
    ensures (forall n: nat :: n <= |ops| ==> InverseAfter(cap, ops, n)) <==>
            (forall n: nat :: n < |ops| ==> !CollidesAt(cap, ops, n))
  {
    hide Inverse, Overwrites, Collides, Step;
    if forall n: nat :: n < |ops| ==> !CollidesAt(cap, ops, n) {
      forall n: nat | n <= |ops| ensures InverseAfter(cap, ops, n) {
        InverseUpTo(cap, ops, n);
      }
    }
    if forall n: nat :: n <= |ops| ==> InverseAfter(cap, ops, n) {
      forall n: nat | n < |ops| ensures !CollidesAt(cap, ops, n) {
        assert InverseAfter(cap, ops, n) && InverseAfter(cap, ops, n + 1);
        assert DropLast(ops[..n + 1]) == ops[..n];
        StepInverseIff(Run(cap, ops[..n]), cap, ops[n]);
        OverwritesIff(cap, ops[..n], ops[n]);
      }
    }
  }

  lemma {:induction false} InverseUpTo<K, V>(cap: nat, ops: seq<Op<K, V>>, n: nat)
    requires n <= |ops| && forall m: nat :: m < n ==> !CollidesAt(cap, ops, m)
    ensures InverseAfter(cap, ops, n)
  {
    if n > 0 {
      InverseUpTo(cap, ops, n - 1);
      hide Inverse, Overwrites, Collides, Step;
      assert DropLast(ops[..n]) == ops[..n - 1] && !CollidesAt(cap, ops, n - 1);
      StepInverseIff(Run(cap, ops[..n - 1]), cap, ops[n - 1]);
      OverwritesIff(cap, ops[..n - 1], ops[n - 1]);
    }
  }

  // ----- Ticks and accesses come in the same order

  /** What one call leaves known of the latest access to a held key. */
  lemma AccessOfLast<K, V>(cap: nat, ops: seq<Op<K, V>>, k: K)
    requires ops != [] && k in Run(cap, ops).items
    ensures if Accesses(Log(cap, ops)[|ops| - 1], k) then
              AccessTick(cap, ops, k) == Ticks(ops) == Ticks(DropLast(ops)) + 1
              && LastAccess(Log(cap, ops), k) == |ops| - 1
            else
              k in Run(cap, DropLast(ops)).items
              && AccessTick(cap, ops, k) == AccessTick(cap, DropLast(ops), k) <= Ticks(DropLast(ops))
              && LastAccess(Log(cap, ops), k) == LastAccess(Log(cap, DropLast(ops)), k) < |ops| - 1
  {
    LogOfLast(cap, ops);
    RunOfLast(cap, ops);
    StepOnRecords(Run(cap, DropLast(ops)), cap, ops[|ops| - 1]);
    RunIsRecorded(cap, DropLast(ops), k);
    hide Stamp, Run, Log, Step, Uses, LastInserted;
  }

  lemma {:induction false} AccessTickOrders<K, V>(cap: nat, ops: seq<Op<K, V>>, x: K, y: K)
    requires x in Run(cap, ops).items && y in Run(cap, ops).items && x != y
    ensures AccessTick(cap, ops, x) < AccessTick(cap, ops, y) <==>
            LastAccess(Log(cap, ops), x) < LastAccess(Log(cap, ops), y)
    ensures LastAccess(Log(cap, ops), x) != LastAccess(Log(cap, ops), y)
  {
    if ops != [] {
      AccessOfLast(cap, ops, x);
      AccessOfLast(cap, ops, y);
      hide Run, Log, AccessTick, LastAccess, Ticks;
      var c := Log(cap, ops)[|ops| - 1];
      if !Accesses(c, x) && !Accesses(c, y) {
        AccessTickOrders(cap, DropLast(ops), x, y);
      }
    }
  }

  // ----- What the records say before the clock wraps

  /** The records say what the calls and replies say: counts are uses, ages order
      keys by last access, values are the latest inserted. */
  ghost predicate Faithful<K, V>(items: map<K, Record<V>>, log: seq<Call<K, V>>) {
    && (forall k :: k in items ==>
          && items[k].count == Capped(Uses(log, k))
          && LastInserted(log, k) == Some(items[k].value))
    && (forall k, x :: k in items && x in items ==>
          (items[k].age < items[x].age <==> LastAccess(log, k) < LastAccess(log, x)))
  }

  lemma StampIsTick(n: nat)
    requires n <= USIZE_MAX
    ensures Stamp(n) == n
  {
  }

  lemma FaithfulBeforeWrap<K, V>(cap: nat, ops: seq<Op<K, V>>)
    requires Ticks(ops) <= USIZE_MAX
    ensures Faithful(Run(cap, ops).items, Log(cap, ops))
  {
    hide Stamp, Run, Log, Uses, AccessTick, LastInserted, LastAccess, Ticks;
    var items := Run(cap, ops).items;
    forall k | k in items ensures Recorded(cap, ops, k, items[k]) && items[k].age == AccessTick(cap, ops, k) {
      RunIsRecorded(cap, ops, k);
      StampIsTick(AccessTick(cap, ops, k));
    }
    forall k, x | k in items && x in items && k != x
      ensures AccessTick(cap, ops, k) < AccessTick(cap, ops, x) <==>
              LastAccess(Log(cap, ops), k) < LastAccess(Log(cap, ops), x)
    {
      AccessTickOrders(cap, ops, k, x);
    }
  }

  /** In every run in which the clock does not wrap, the index is the exact inverse
      of the map, stamps are distinct, the clock counts the ticks, and the records
      are what the calls say. */
  lemma {:induction false} RunIsFaithful<K, V>(cap: nat, ops: seq<Op<K, V>>)
    requires NeverWraps(ops)
    ensures var st := Run(cap, ops);
      && Inverse(st.items, st.byPriority) && Stamped(st.items, st.clock) && st.clock == Ticks(ops)
      && Faithful(st.items, Log(cap, ops))
  {
    NeverWrapsBefore(ops);
    FaithfulBeforeWrap(cap, ops);
    ClockCounts(cap, ops);
    StampIsTick(Ticks(ops));
    hide Stamp, Faithful, Overwrites, NeverWraps;
    if ops != [] {
      var before, op := DropLast(ops), ops[|ops| - 1];
      RunIsFaithful(cap, before);
      hide Inverse, Stamped;
      RunOfLast(cap, ops);
      hide Step;
      StepKeepsStamps(Run(cap, before), cap, op);
      StepInverseIff(Run(cap, before), cap, op);
    }
  }

  // ----- Which key a full shard evicts

  /** The key filed first is the one a scan for the least (count, age) finds. */
  lemma FirstIsScan<K, V>(st: State<K, V>)
    requires Inverse(st.items, st.byPriority) && st.byPriority.Keys != {}
    ensures var victim := st.byPriority[First(st.byPriority.Keys)];
      && victim in st.items
      && forall x :: x in st.items && x != victim ==>
           || st.items[victim].count < st.items[x].count
           || (st.items[victim].count == st.items[x].count && st.items[victim].age < st.items[x].age)
  {
  }

  /** `n` is held and comes before every other held key by use count, capped to the
      integer range, and then by the clock's stamp of the latest access. */
  ghost predicate StampVictim<K, V>(cap: nat, ops: seq<Op<K, V>>, n: K) {
    var items, log := Run(cap, ops).items, Log(cap, ops);
    n in items && forall x :: x in items && x != n ==>
      || Capped(Uses(log, n)) < Capped(Uses(log, x))
      || (Capped(Uses(log, n)) == Capped(Uses(log, x))
          && Stamp(AccessTick(cap, ops, n)) < Stamp(AccessTick(cap, ops, x)))
  }

  /** `n` comes before `x` by use count, capped likewise, and then by latest access. */
  ghost predicate Before<K, V>(log: seq<Call<K, V>>, n: K, x: K) {
    || Capped(Uses(log, n)) < Capped(Uses(log, x))
    || (Capped(Uses(log, n)) == Capped(Uses(log, x)) && LastAccess(log, n) < LastAccess(log, x))
  }

  /** `n` is the held key a naive scan would evict: fewest uses, and least recent access
      among equals. */
  ghost predicate NaiveVictim<K, V>(cap: nat, ops: seq<Op<K, V>>, n: K) {
    n in Run(cap, ops).items && forall x :: x in Run(cap, ops).items && x != n ==> Before(Log(cap, ops), n, x)
  }

  /** Among the least used keys, the one accessed longest ago has the least stamp. */
  ghost predicate OldestStampsFirst<K, V>(cap: nat, ops: seq<Op<K, V>>) {
    var items, log := Run(cap, ops).items, Log(cap, ops);
    forall n, x :: n in items && x in items && x != n ==>
      NaiveVictim(cap, ops, n) && Capped(Uses(log, n)) == Capped(Uses(log, x)) ==>
        Stamp(AccessTick(cap, ops, n)) < Stamp(AccessTick(cap, ops, x))
  }

  /** Inserting `k` drops exactly the held key `n`. */
  ghost predicate Drops<K, V>(cap: nat, ops: seq<Op<K, V>>, k: K, v: V, n: K) {
    var st := Run(cap, ops);
    n in st.items && Step(st, cap, Insert(k, v)).0.items.Keys == st.items.Keys - {n} + {k}
  }

  /** As long as the index inverts the map, before and after the wrap, a new key drops
      exactly the held key of fewest uses and, among equals, of the least stamp. */
  lemma InsertEvictsLeastStamped<K, V>(cap: nat, ops: seq<Op<K, V>>, k: K, v: V)
    requires cap >= 1 && k !in Run(cap, ops).items && |Run(cap, ops).items| == cap
    requires Inverse(Run(cap, ops).items, Run(cap, ops).byPriority)
    ensures exists n :: StampVictim(cap, ops, n) && Drops(cap, ops, k, v, n)
  {
    var st := Run(cap, ops);
    InverseCounts(st.items, st.byPriority);
    FirstIsScan(st);
    var n := st.byPriority[First(st.byPriority.Keys)];
    assert Drops(cap, ops, k, v, n);
    hide Run, Log, Uses, AccessTick, LastInserted, Step, Stamp, Inverse, Capped, Ticks;
    forall x | x in st.items ensures Recorded(cap, ops, x, st.items[x]) {
      RunIsRecorded(cap, ops, x);
    }
    assert StampVictim(cap, ops, n);
  }

  lemma {:induction false} NaiveVictimExists<K, V>(cap: nat, ops: seq<Op<K, V>>, keys: set<K>)
    requires keys != {} && keys <= Run(cap, ops).items.Keys
    ensures exists n :: n in keys && forall x :: x in keys && x != n ==> Before(Log(cap, ops), n, x)
  {
    hide Run, Log, AccessTick;
    var y :| y in keys;
    if keys != {y} {
      NaiveVictimExists(cap, ops, keys - {y});
      var n :| n in keys - {y} && forall x :: x in keys - {y} && x != n ==> Before(Log(cap, ops), n, x);
      AccessTickOrders(cap, ops, n, y);
      var best := if Before(Log(cap, ops), n, y) then n else y;
      forall x | x in keys && x != best ensures Before(Log(cap, ops), best, x) {
        assert x == y || x == n || Before(Log(cap, ops), n, x);
      }
    }
  }

  lemma DropsOne<K, V>(cap: nat, ops: seq<Op<K, V>>, k: K, v: V, m: K, n: K)
    requires k !in Run(cap, ops).items && Drops(cap, ops, k, v, m) && Drops(cap, ops, k, v, n)
    ensures m == n
  {
    hide Run, Step;
    var keys := Run(cap, ops).items.Keys;
    assert m !in keys - {m} + {k};
    assert keys - {m} + {k} == keys - {n} + {k};
  }

  lemma NaiveVictimIsOne<K, V>(cap: nat, ops: seq<Op<K, V>>, m: K, n: K)
    requires NaiveVictim(cap, ops, m) && NaiveVictim(cap, ops, n)
    ensures m == n
  {
    hide Run, Log, Uses, LastAccess, Capped;
  }

  lemma SameVictimIff<K, V>(cap: nat, ops: seq<Op<K, V>>, s: K, n: K)
    requires StampVictim(cap, ops, s) && NaiveVictim(cap, ops, n)
    ensures s == n <==> OldestStampsFirst(cap, ops)
  {
    hide Run, Log, Uses, AccessTick, LastAccess, Stamp, Capped;
    if s == n {
      forall m | m in Run(cap, ops).items && NaiveVictim(cap, ops, m) ensures m == n {
        NaiveVictimIsOne(cap, ops, m, n);
      }
    }
  }

  /** As long as the index inverts the map, a full shard evicts the key the naive scan
      would exactly when the least used key accessed longest ago has the least stamp. */
  lemma {:induction false} EvictsNaiveVictimIff<K, V>(cap: nat, ops: seq<Op<K, V>>, k: K, v: V)
    requires cap >= 1 && k !in Run(cap, ops).items && |Run(cap, ops).items| == cap
    requires Inverse(Run(cap, ops).items, Run(cap, ops).byPriority)
    ensures (exists n :: NaiveVictim(cap, ops, n) && Drops(cap, ops, k, v, n)) <==> OldestStampsFirst(cap, ops)
  {
    hide Run, Log, Uses, AccessTick, LastAccess, Inverse, Drops, StampVictim, Before, OldestStampsFirst;
    InsertEvictsLeastStamped(cap, ops, k, v);
    var s :| StampVictim(cap, ops, s) && Drops(cap, ops, k, v, s);
    var keys := Run(cap, ops).items.Keys;
    NaiveVictimExists(cap, ops, keys);
    var n :| n in keys && forall x :: x in keys && x != n ==> Before(Log(cap, ops), n, x);
    assert NaiveVictim(cap, ops, n);
    hide NaiveVictim;
    SameVictimIff(cap, ops, s, n);
    if exists m :: NaiveVictim(cap, ops, m) && Drops(cap, ops, k, v, m) {
      var m :| NaiveVictim(cap, ops, m) && Drops(cap, ops, k, v, m);
      DropsOne(cap, ops, k, v, m, s);
      NaiveVictimIsOne(cap, ops, m, n);
    }
  }

  lemma NoWrapStampsOldestFirst<K, V>(cap: nat, ops: seq<Op<K, V>>)
    requires Ticks(ops) <= USIZE_MAX
    ensures OldestStampsFirst(cap, ops)
  {
    hide Stamp, Run, Log, Uses, LastInserted, LastAccess, Ticks, AccessTick, Capped;
    var items, log := Run(cap, ops).items, Log(cap, ops);
    forall n, x | n in items && x in items && x != n && Capped(Uses(log, n)) == Capped(Uses(log, x))
        && NaiveVictim(cap, ops, n)
      ensures Stamp(AccessTick(cap, ops, n)) < Stamp(AccessTick(cap, ops, x))
    {
      AccessTickOrders(cap, ops, n, x);
      RunIsRecorded(cap, ops, n);
      RunIsRecorded(cap, ops, x);
      StampIsTick(AccessTick(cap, ops, n));
      StampIsTick(AccessTick(cap, ops, x));
    }
  }

  /** Inserting a new key drops nothing below capacity; at capacity, in every run in which
      the clock has not wrapped, it drops exactly the key a naive scan would choose. */
  lemma InsertEvictsLeastUsed<K, V>(cap: nat, ops: seq<Op<K, V>>, k: K, v: V)
    requires cap >= 1 && k !in Run(cap, ops).items
    ensures var st := Run(cap, ops); var st' := Step(st, cap, Insert(k, v)).0;
      && (|st.items| < cap ==> st'.items.Keys == st.items.Keys + {k})
      && (|st.items| == cap && NeverWraps(ops) ==>
            exists n :: NaiveVictim(cap, ops, n) && Drops(cap, ops, k, v, n))
  {
    if |Run(cap, ops).items| == cap && NeverWraps(ops) {
      NeverWrapsBefore(ops);
      RunIsFaithful(cap, ops);
      hide Inverse, OldestStampsFirst, NaiveVictim, Drops;
      NoWrapStampsOldestFirst(cap, ops);
      EvictsNaiveVictimIff(cap, ops, k, v);
    }
  }

  // ----- Past 2^64 ticks

  lemma RunSnoc<K, V>(cap: nat, ops: seq<Op<K, V>>, op: Op<K, V>)
    ensures Run(cap, ops + [op]) == Step(Run(cap, ops), cap, op).0
  {
  }

  function Misses<K, V>(x: K, n: nat): (ops: seq<Op<K, V>>)
    ensures |ops| == n
  {
    if n == 0 then [] else Misses(x, n - 1) + [Get(x)]
  }

  lemma {:induction false} MissesOnlyTick<V>(ops: seq<Op<int, V>>, x: int, n: nat)
    requires x !in Run(2, ops).items
    requires Run(2, ops).clock + n <= USIZE_MAX
    ensures Run(2, ops + Misses(x, n)) == Run(2, ops).(clock := Run(2, ops).clock + n)
  {
    if n == 0 {
      assert ops + Misses(x, 0) == ops;
    } else {
      MissesOnlyTick(ops, x, n - 1);
      assert ops + Misses(x, n) == ops + Misses(x, n - 1) + [Get(x)];
      RunSnoc(2, ops + Misses(x, n - 1), Get(x));
      hide Run, MakeRoom, Misses;
    }
  }

  /** A run long enough to wrap the clock files a new key over an old one: insert a,
      miss until the clock stands at its maximum, miss once more, insert b. Then a is
      held but no longer in the index, so it cannot be evicted until it is accessed again. */
  lemma WrappedClockLosesKey(a: int, b: int, x: int)
    requires a != b && a != x && b != x
    ensures var ops := [Op.Insert(a, 0)] + Misses(x, USIZE_MAX - 1) + [Op.Get(x)] + [Op.Insert(b, 0)];
      var st := Run(2, ops);
      && a in st.items && b in st.items && a !in st.byPriority.Values && !Inverse(st.items, st.byPriority)
  {
    var first: seq<Op<int, int>> := [Insert(a, 0)];
    var late := first + Misses(x, USIZE_MAX - 1);
    var r := Record(0, 1, 1);
    MissesOnlyTick(first, x, USIZE_MAX - 1);
    assert Run(2, late + [Get(x)] + [Insert(b, 0)]) ==
           State(map[a := r][b := r], map[Priority(1, 1) := b], 1);
  }

  lemma LogSnoc<K, V>(cap: nat, ops: seq<Op<K, V>>, op: Op<K, V>)
    ensures Log(cap, ops + [op]) == Log(cap, ops) + [Call(op, Step(Run(cap, ops), cap, op).1)]
  {
    assert DropLast(ops + [op]) == ops;
  }

  lemma NewUse<K, V>(log: seq<Call<K, V>>, k: K, v: V)
    ensures Uses(log + [Call(Insert(k, v), Found(None))], k) == 1
    ensures LastAccess(log + [Call(Insert(k, v), Found(None))], k) == |log|
    ensures forall x :: x != k ==>
      && Uses(log + [Call(Insert(k, v), Found(None))], x) == Uses(log, x)
      && LastAccess(log + [Call(Insert(k, v), Found(None))], x) == LastAccess(log, x)
  {
    assert DropLast(log + [Call(Insert(k, v), Found(None))]) == log;
  }

  /** The shard two inserts across the wrap leave. */
  lemma TwoAcrossWrap(a: int, b: int, x: int)
    requires a != b && a != x && b != x
    ensures var idle: seq<Op<int, int>> := Misses(x, USIZE_MAX - 1);
      && Run(2, idle + [Insert(a, 0)]) ==
         State(map[a := Record(0, 1, USIZE_MAX)], map[Priority(1, USIZE_MAX) := a], USIZE_MAX)
      && Run(2, idle + [Insert(a, 0)] + [Insert(b, 0)]) ==
         State(map[a := Record(0, 1, USIZE_MAX), b := Record(0, 1, 0)],
               map[Priority(1, USIZE_MAX) := a, Priority(1, 0) := b], 0)
  {
    var idle: seq<Op<int, int>>, none: seq<Op<int, int>> := Misses(x, USIZE_MAX - 1), [];
    MissesOnlyTick(none, x, USIZE_MAX - 1);
    assert none + idle == idle;
    RunSnoc(2, idle, Insert(a, 0));
    RunSnoc(2, idle + [Insert(a, 0)], Insert(b, 0));
    hide Run, Misses;
  }

  lemma EarlyStampGoesFirst(a: int, b: int, c: int)
    requires a != b && a != c && b != c
    ensures var st := State(map[a := Record(0, 1, USIZE_MAX), b := Record(0, 1, 0)],
                            map[Priority(1, USIZE_MAX) := a, Priority(1, 0) := b], 0);
      && Inverse(st.items, st.byPriority)
      && Step(st, 2, Insert(c, 0)).0.items.Keys == {a, c}
  {
    var index := map[Priority(1, USIZE_MAX) := a, Priority(1, 0) := b];
    assert index.Keys == {Priority(1, USIZE_MAX), Priority(1, 0)};
    assert First(index.Keys) == Priority(1, 0);
    assert |map[a := Record(0, 1, USIZE_MAX), b := Record(0, 1, 0)]| == 2;
  }

  lemma TwoNewUses<V>(log: seq<Call<int, V>>, a: int, b: int, v: V)
    requires a != b
    ensures var log' := log + [Call(Insert(a, v), Found(None))] + [Call(Insert(b, v), Found(None))];
      Before(log', a, b)
  {
    NewUse(log, a, v);
    NewUse(log + [Call(Insert(a, v), Found(None))], b, v);
    hide Uses, LastAccess;
  }

  /** The wrap breaks the recency order of ties even where nothing is filed over anything:
      miss until the next tick is the last before the wrap, insert a, insert b. The index
      is intact and a was accessed first, yet the next new key evicts b. */
  lemma WrappedClockBreaksTies(a: int, b: int, c: int, x: int)
    requires a != b && a != c && b != c && a != x && b != x
    ensures var ops := Misses(x, USIZE_MAX - 1) + [Op.Insert(a, 0)] + [Op.Insert(b, 0)];
      var st := Run(2, ops);
      && Inverse(st.items, st.byPriority) && NaiveVictim(2, ops, a)
      && Step(st, 2, Insert(c, 0)).0.items.Keys == {a, c}
  {
    var idle: seq<Op<int, int>>, add: Op<int, int> := Misses(x, USIZE_MAX - 1), Insert(a, 0);
    hide Run, Log, Misses, Before, Inverse, Step;
    TwoAcrossWrap(a, b, x);
    EarlyStampGoesFirst(a, b, c);
    TwoNewUses(Log(2, idle), a, b, 0);
    assert Log(2, idle + [add] + [Insert(b, 0)])
        == Log(2, idle) + [Call(add, Found(None))] + [Call(Insert(b, 0), Found(None))] by {
      LogAcrossWrap(a, b, x);
    }
  }

  lemma LogAcrossWrap(a: int, b: int, x: int)
    requires a != b && a != x && b != x
    ensures var idle: seq<Op<int, int>> := Misses(x, USIZE_MAX - 1);
      Log(2, idle + [Insert(a, 0)] + [Insert(b, 0)]) ==
      Log(2, idle) + [Call(Insert(a, 0), Found(None))] + [Call(Insert(b, 0), Found(None))]
  {
    var idle: seq<Op<int, int>>, none: seq<Op<int, int>> := Misses(x, USIZE_MAX - 1), [];
    MissesOnlyTick(none, x, USIZE_MAX - 1);
    assert none + idle == idle;
    TwoAcrossWrap(a, b, x);
    LogSnoc(2, idle, Insert(a, 0));
    LogSnoc(2, idle + [Insert(a, 0)], Insert(b, 0));
    hide Run, Log, Misses, MakeRoom;
  }
}

/** One shard of the LFU cache: `Inner` of src/lfu.rs, driven under its lock. */
module LfuStore {
  import opened Machine
  import opened Recency
  import opened CacheApi
  import opened LfuPolicy

  class LfuShard<K(==), V> {
    const capacity: nat
    var items: map<K, Record<V>>
    var byPriority: map<Priority, K>
    var clock: Usize

    ghost function State(): State<K, V>
      reads this
    {
      LfuPolicy.State.State(items, byPriority, clock)
    }

    /** What holds after every call, past the wrap included. */
    ghost predicate Valid()
      reads this
    {
      1 <= capacity && Evictable(State(), capacity)
    }

    constructor (capacity: nat)
      requires capacity >= 1
      ensures Valid() && Inverse(items, byPriority)
      ensures this.capacity == capacity && State() == Run(capacity, [])
    {
      this.capacity := capacity;
      items, byPriority, clock := map[], map[], 0;
    }

    method NextTick() returns (now: Usize)
      modifies this`clock
      ensures now == clock == Tick(old(clock))
    {
      clock := if clock == USIZE_MAX then 0 else clock + 1;
      now := clock;
    }

    method Get(key: K) returns (value: Option<V>)
      modifies this
      ensures State() == Step(old(State()), capacity, Op.Get(key)).0
      ensures Reply.Found(value) == Step(old(State()), capacity, Op.Get(key)).1
      ensures old(Valid()) ==> Valid()
      ensures old(Inverse(items, byPriority)) ==>
        (Inverse(items, byPriority) <==> !Overwrites(old(State()), capacity, Op.Get(key)))
    {
      if Inverse(items, byPriority) {
        StepInverseIff(State(), capacity, Op.Get(key));
      }
      if Valid() {
        StepKeepsEvictable(State(), capacity, Op.Get(key));
      }
      hide Inverse, Overwrites, Evictable;
      var newAge := NextTick();
      if key !in items {
        return None;
      }
      var entry := items[key];
      var oldPriority := PriorityOf(entry);
      entry := entry.(count := SatAdd(entry.count, 1), age := newAge);
      items := items[key := entry];
      byPriority := byPriority - {oldPriority};
      byPriority := byPriority[PriorityOf(entry) := key];
      value := Some(entry.value);
    }

    method Insert(key: K, value: V) returns (previous: Option<V>)
      modifies this
      ensures State() == Step(old(State()), capacity, Op.Insert(key, value)).0
      ensures Reply.Found(previous) == Step(old(State()), capacity, Op.Insert(key, value)).1
      ensures old(Valid()) ==> Valid()
      ensures old(Inverse(items, byPriority)) ==>
        (Inverse(items, byPriority) <==> !Overwrites(old(State()), capacity, Op.Insert(key, value)))
    {
      if Inverse(items, byPriority) {
        StepInverseIff(State(), capacity, Op.Insert(key, value));
      }
      if Valid() {
        StepKeepsEvictable(State(), capacity, Op.Insert(key, value));
      }
      hide Inverse, Overwrites, Evictable;
      var newAge := NextTick();
      if key in items {
        var entry := items[key];
        var oldPriority := PriorityOf(entry);
        var oldValue := entry.value;
        entry := Record(value, SatAdd(entry.count, 1), newAge);
        items := items[key := entry];
        byPriority := byPriority - {oldPriority};
        byPriority := byPriority[PriorityOf(entry) := key];
        return Some(oldValue);
      }
      if |items| >= capacity {
        TakeFirst();
      }
      var entry := Record(value, 1, newAge);
      items := items[key := entry];
      byPriority := byPriority[PriorityOf(entry) := key];
      previous := None;
    }

    /** Removes the first entry of the index and, with it, its key from the map. In a full
        shard that key is held, so there is room afterwards. */
    method TakeFirst()
      modifies this`items, this`byPriority
      ensures State() == PopFirst(old(State()))
      ensures old(Valid()) && |old(items)| == capacity ==> |items| == capacity - 1
    {
      if byPriority != map[] {
        FirstExists(byPriority.Keys);
        var p :| p in byPriority.Keys && forall q :: q in byPriority.Keys ==> AtMost(p, q);
        ghost var f := First(byPriority.Keys);
        assert AtMost(p, f) && AtMost(f, p);
        assert p == Priority(p.count, p.age) == Priority(f.count, f.age) == f;
        items := items - {byPriority[p]};
        byPriority := byPriority - {p};
      }
    }

    method Remove(key: K) returns (value: Option<V>)
      modifies this
      ensures State() == Step(old(State()), capacity, Op.Remove(key)).0
      ensures Reply.Found(value) == Step(old(State()), capacity, Op.Remove(key)).1
      ensures old(Valid()) ==> Valid()
      ensures old(Inverse(items, byPriority)) ==> Inverse(items, byPriority)
    {
      if Inverse(items, byPriority) {
        StepInverseIff(State(), capacity, Op.Remove(key));
      }
      if Valid() {
        StepKeepsEvictable(State(), capacity, Op.Remove(key));
      }
      if key !in items {
        return None;
      }
      var entry := items[key];
      items := items - {key};
      byPriority := byPriority - {PriorityOf(entry)};
      value := Some(entry.value);
    }

    method ContainsKey(key: K) returns (present: bool)
      ensures State() == Step(State(), capacity, Op.ContainsKey(key)).0
      ensures Reply.Has(present) == Step(State(), capacity, Op.ContainsKey(key)).1
    {
      present := key in items;
    }

    method Len() returns (n: nat)
      requires Valid()
      ensures n == |items| <= capacity
      ensures Inverse(items, byPriority) ==> n == |byPriority|
    {
      if Inverse(items, byPriority) {
        InverseCounts(items, byPriority);
      }
      n := |items|;
    }

    method Clear()
      requires 1 <= capacity
      modifies this
      ensures Valid() && Inverse(items, byPriority)
      ensures State() == Step(old(State()), capacity, Op.Clear).0
    {
      items, byPriority := map[], map[];
      clock := 0;
    }
  }
}
