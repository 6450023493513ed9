/** Time-to-live policy on plain values: the shard as written, which drops expired
    entries only when it stumbles on them, and an eager reference that purges all of
    them before every call. Time is a natural number read once per call. */
module TtlPolicy {
  import opened Recency

  datatype Timed<+V> = Timed(value: V, expiresAt: nat)

  type Items<!K, +V> = map<K, Timed<V>>

  /** An insert carries its deadline, fixed before the lock is taken, and the victim
      that scanning the map would pick should it come to that. */
  datatype Op<+K, +V> =
    | Get(key: K)
    | Insert(key: K, value: V, deadline: nat, victim: Option<K>)
    | Remove(key: K)
    | ContainsKey(key: K)
    | Len
    | Clear

  datatype Reply<+V> = Found(value: Option<V>) | Has(present: bool) | Count(n: nat) | Cleared

  /** The part of the map that has not expired. */
  function Live<K, V>(m: Items<K, V>, now: nat): (r: Items<K, V>) {
    map k | k in m && m[k].expiresAt > now :: m[k]
  }

  ghost predicate IsSoonest<K, V>(m: Items<K, V>, victim: Option<K>) {
    match victim
    case None => m == map[]
    case Some(v) => v in m && forall k :: k in m ==> m[v].expiresAt <= m[k].expiresAt
  }

  function Drop<K, V>(m: Items<K, V>, victim: Option<K>): Items<K, V> {
    match victim
    case None => m
    case Some(v) => m - {v}
  }

  function Values<K, V>(m: Items<K, V>, k: K): Option<V> {
    if k in m then Some(m[k].value) else None
  }

  // ----- The shard as written

  function LazyStep<K, V>(m: Items<K, V>, cap: nat, op: Op<K, V>, now: nat): (Items<K, V>, Reply<V>) {
    match op
    case Get(k) =>
      if k !in m then (m, Found(None))
      else if m[k].expiresAt <= now then (m - {k}, Found(None))
      else (m, Found(Some(m[k].value)))
    case Insert(k, v, deadline, victim) =>
      if k in m && m[k].expiresAt > now then (m[k := Timed(v, deadline)], Found(Some(m[k].value)))
      else
        var rest := m - {k};
        ((if |rest| >= cap then Drop(rest, victim) else rest)[k := Timed(v, deadline)], Found(None))
    case Remove(k) => (m - {k}, Found(Values(m, k)))
    case ContainsKey(k) =>
      if k !in m then (m, Has(false))
      else if m[k].expiresAt > now then (m, Has(true))
      else (m - {k}, Has(false))
    case Len => (Live(m, now), Count(|Live(m, now)|))
    case Clear => (map[], Cleared)
  }

  /** If the call evicts, its victim is one the scan could have picked. */
  ghost predicate LazyVictimOk<K, V>(m: Items<K, V>, cap: nat, op: Op<K, V>, now: nat) {
    op.Insert? && !(op.key in m && m[op.key].expiresAt > now) && |m - {op.key}| >= cap ==>
      IsSoonest(m - {op.key}, op.victim)
  }

  // ----- The eager reference

  /** A bounded map that knows nothing about expiry. */
  function PlainStep<K, V>(m: Items<K, V>, cap: nat, op: Op<K, V>): (Items<K, V>, Reply<V>) {
    match op
    case Get(k) => (m, Found(Values(m, k)))
    case Insert(k, v, deadline, victim) =>
      ((if k !in m && |m| >= cap then Drop(m, victim) else m)[k := Timed(v, deadline)], Found(Values(m, k)))
    case Remove(k) => (m - {k}, Found(Values(m, k)))
    case ContainsKey(k) => (m, Has(k in m))
    case Len => (m, Count(|m|))
    case Clear => (map[], Cleared)
  }

  /** Purges everything expired, then acts as a plain bounded map. */
  function EagerStep<K, V>(m: Items<K, V>, cap: nat, op: Op<K, V>, now: nat): (Items<K, V>, Reply<V>) {
    PlainStep(Live(m, now), cap, op)
  }

  ghost predicate EagerVictimOk<K, V>(m: Items<K, V>, cap: nat, op: Op<K, V>, now: nat) {
    op.Insert? && op.key !in Live(m, now) && |Live(m, now)| >= cap ==> IsSoonest(Live(m, now), op.victim)
  }

  // ----- One call

  lemma LiveIsSmaller<K, V>(m: Items<K, V>, now: nat)
    ensures |Live(m, now)| <= |m|
    ensures |Live(m, now)| == |m| ==> Live(m, now) == m
  {
    SubsetCardinality(Live(m, now).Keys, m.Keys);
  }

  lemma {:induction false} SubsetCardinality<T>(a: set<T>, b: set<T>)
    requires a <= b
    ensures |a| <= |b|
    ensures |a| == |b| ==> a == b
  {
    if a != {} {
      var x :| x in a;
      SubsetCardinality(a - {x}, b - {x});
    }
  }

  lemma RemovedSize<K, V>(m: Items<K, V>, k: K)
    ensures |m - {k}| == if k in m then |m| - 1 else |m|
  {
  }

  /** Writing the same entry into maps with the same live part elsewhere. */
  lemma LiveOfWrite<K, V>(a: Items<K, V>, b: Items<K, V>, k: K, t: Timed<V>, now: nat)
    requires Live(a, now) - {k} == Live(b, now) - {k}
    ensures Live(a[k := t], now) == Live(b[k := t], now)
  {
    forall x | x != k
      ensures x in Live(a[k := t], now) <==> x in Live(b[k := t], now)
      ensures x in Live(a[k := t], now) ==> a[x] == b[x]
    {
      assert x in Live(a, now) <==> x in Live(a, now) - {k};
      assert x in Live(b, now) <==> x in Live(b, now) - {k};
    }
  }

  /** No live entry is evicted while an expired one sits in the shard: a victim picked
      among more entries than are live has expired. */
  lemma ExpiredGoFirst<K, V>(m: Items<K, V>, victim: Option<K>, now: nat)
    requires IsSoonest(m, victim) && |Live(m, now)| < |m|
    ensures victim.Some? && victim.value !in Live(m, now)
    ensures Live(Drop(m, victim), now) == Live(m, now)
  {
    if forall x :: x in m ==> x in Live(m, now) {
      SubsetCardinality(m.Keys, Live(m, now).Keys);
    }
  }

  lemma LiveWithout<K, V>(m: Items<K, V>, k: K, now: nat)
    ensures Live(m - {k}, now) == Live(m, now) - {k}
  {
  }

  lemma LiveLater<K, V>(m: Items<K, V>, now: nat, later: nat)
    requires now <= later
    ensures Live(Live(m, now), later) == Live(m, later)
  {
  }

  lemma InsertAgrees<K, V>(m: Items<K, V>, cap: nat, op: Op<K, V>, now: nat)
    requires op.Insert? && cap >= 1 && |m| <= cap && LazyVictimOk(m, cap, op, now)
    ensures Live(LazyStep(m, cap, op, now).0, now) == Live(PlainStep(Live(m, now), cap, op).0, now)
    ensures LazyStep(m, cap, op, now).1 == PlainStep(Live(m, now), cap, op).1
    ensures |LazyStep(m, cap, op, now).0| <= cap
    ensures EagerVictimOk(m, cap, op, now)
  {
    var k, live, t := op.key, Live(m, now), Timed(op.value, op.deadline);
    var rest := m - {k};
    assert k in live <==> k in m && m[k].expiresAt > now;
    assert k in live ==> live[k] == m[k];
    assert k !in live ==> live - {k} == live;
    hide Live, IsSoonest;
    RemovedSize(m, k);
    LiveIsSmaller(m, now);
    LiveWithout(m, k, now);
    LiveLater(m, now, now);
    if k in live {
      LiveOfWrite(m, live, k, t, now);
    } else {
      if |rest| < cap {
        LiveOfWrite(rest, live, k, t, now);
      } else {
        RemovedSize(rest, op.victim.value);
        if |live| < |rest| {
          ExpiredGoFirst(rest, op.victim, now);
          LiveOfWrite(Drop(rest, op.victim), live, k, t, now);
        }
      }
    }
  }

  lemma StepAgrees<K, V>(m: Items<K, V>, cap: nat, op: Op<K, V>, now: nat)
    requires cap >= 1 && |m| <= cap && LazyVictimOk(m, cap, op, now)
    ensures Live(LazyStep(m, cap, op, now).0, now) == Live(PlainStep(Live(m, now), cap, op).0, now)
    ensures |LazyStep(m, cap, op, now).0| <= cap
    ensures EagerVictimOk(m, cap, op, now)
    ensures LazyStep(m, cap, op, now).1 == PlainStep(Live(m, now), cap, op).1 <==>
            !(op.Remove? && op.key in m && m[op.key].expiresAt <= now)
  {
    LiveIsSmaller(m, now);
    LiveLater(m, now, now);
    if op.Insert? {
      InsertAgrees(m, cap, op, now);
    } else if op.Get? || op.Remove? || op.ContainsKey? {
      LiveWithout(m, op.key, now);
      assert op.key !in Live(m, now) ==> Live(m, now) - {op.key} == Live(m, now);
    }
  }

  // ----- Whole runs

  datatype TimedCall<+K, +V> = TimedCall(op: Op<K, V>, now: nat)

  function Last<T>(s: seq<T>): T
    requires s != []
  {
    s[|s| - 1]
  }

  function LazyRun<K, V>(cap: nat, calls: seq<TimedCall<K, V>>): Items<K, V> {
    if calls == [] then map[] else LazyStep(LazyRun(cap, DropLast(calls)), cap, Last(calls).op, Last(calls).now).0
  }

  function EagerRun<K, V>(cap: nat, calls: seq<TimedCall<K, V>>): Items<K, V> {
    if calls == [] then map[] else EagerStep(EagerRun(cap, DropLast(calls)), cap, Last(calls).op, Last(calls).now).0
  }

  /** The clock never runs backwards, and evictions in the shard as written pick what
      its scan could have picked. */
  ghost predicate Legal<K, V>(cap: nat, calls: seq<TimedCall<K, V>>) {
    calls == [] || (
      && Legal(cap, DropLast(calls))
      && (|calls| >= 2 ==> Last(DropLast(calls)).now <= Last(calls).now)
      && LazyVictimOk(LazyRun(cap, DropLast(calls)), cap, Last(calls).op, Last(calls).now))
  }

  function LazyReply<K(==), V>(cap: nat, calls: seq<TimedCall<K, V>>): Reply<V>
    requires calls != []
  {
    LazyStep(LazyRun(cap, DropLast(calls)), cap, Last(calls).op, Last(calls).now).1
  }

  function EagerReply<K(==), V>(cap: nat, calls: seq<TimedCall<K, V>>): Reply<V>
    requires calls != []
  {
    EagerStep(EagerRun(cap, DropLast(calls)), cap, Last(calls).op, Last(calls).now).1
  }

  /** The lazy shard never exceeds its capacity, expired entries included. */
  lemma {:induction false} LazyStaysBounded<K, V>(cap: nat, calls: seq<TimedCall<K, V>>)
    requires cap >= 1 && Legal(cap, calls)
    ensures |LazyRun(cap, calls)| <= cap
  {
    if calls != [] {
      LazyStaysBounded(cap, DropLast(calls));
      StepAgrees(LazyRun(cap, DropLast(calls)), cap, Last(calls).op, Last(calls).now);
    }
  }

  /** Lazy expiry equals eager expiry: after every run, from the last call on, the
      unexpired part of the lazy shard is that of the eager one. */
  lemma {:induction false} LazyIsEager<K, V>(cap: nat, calls: seq<TimedCall<K, V>>, later: nat)
    requires cap >= 1 && Legal(cap, calls) && (calls != [] ==> Last(calls).now <= later)
    ensures Live(LazyRun(cap, calls), later) == Live(EagerRun(cap, calls), later)
  {
    if calls != [] {
      LazyStaysBounded(cap, DropLast(calls));
      var before, op, now := DropLast(calls), Last(calls).op, Last(calls).now;
      LazyIsEager(cap, before, now);
      StepAgrees(LazyRun(cap, before), cap, op, now);
      LiveLater(LazyRun(cap, calls), now, later);
      LiveLater(EagerRun(cap, calls), now, later);
    }
  }

  /** The run is legal for the eager reference too: whenever it evicts, the victim is
      one its own scan could have picked. */
  lemma {:induction false} EagerEvictsByItsRule<K, V>(cap: nat, calls: seq<TimedCall<K, V>>)
    requires cap >= 1 && calls != [] && Legal(cap, calls)
    ensures EagerVictimOk(EagerRun(cap, DropLast(calls)), cap, Last(calls).op, Last(calls).now)
  {
    LazyStaysBounded(cap, DropLast(calls));
    LazyIsEager(cap, DropLast(calls), Last(calls).now);
    StepAgrees(LazyRun(cap, DropLast(calls)), cap, Last(calls).op, Last(calls).now);
  }

  /** Every reply of the lazy shard is the eager one's, except exactly when `remove`
      is called on an entry that has expired but is still there. */
  lemma RepliesAgreeIff<K, V>(cap: nat, calls: seq<TimedCall<K, V>>)
    requires cap >= 1 && calls != [] && Legal(cap, calls)
    ensures var m, op := LazyRun(cap, DropLast(calls)), Last(calls).op;
      LazyReply(cap, calls) == EagerReply(cap, calls) <==>
      !(op.Remove? && op.key in m && m[op.key].expiresAt <= Last(calls).now)
  {
    var before, op, now := DropLast(calls), Last(calls).op, Last(calls).now;
    LazyStaysBounded(cap, before);
    LazyIsEager(cap, before, now);
    StepAgrees(LazyRun(cap, before), cap, op, now);
  }

  /** Unfolds a run of two calls. */
  lemma RunOfTwo<K, V>(cap: nat, a: TimedCall<K, V>, b: TimedCall<K, V>)
    ensures LazyRun(cap, [a] + [b]) == LazyStep(LazyStep(map[], cap, a.op, a.now).0, cap, b.op, b.now).0
    ensures LazyReply(cap, [a] + [b]) == LazyStep(LazyStep(map[], cap, a.op, a.now).0, cap, b.op, b.now).1
    ensures EagerReply(cap, [a] + [b]) == EagerStep(EagerStep(map[], cap, a.op, a.now).0, cap, b.op, b.now).1
    ensures Legal(cap, [a] + [b]) <==>
            && LazyVictimOk(map[], cap, a.op, a.now) && a.now <= b.now
            && LazyVictimOk(LazyStep(map[], cap, a.op, a.now).0, cap, b.op, b.now)
  {
    hide LazyStep, EagerStep, LazyVictimOk;
    assert DropLast([a] + [b]) == [a] && DropLast([a]) == [];
    assert LazyRun(cap, [a]) == LazyStep(map[], cap, a.op, a.now).0;
    assert EagerRun(cap, [a]) == EagerStep(map[], cap, a.op, a.now).0;
    assert LazyVictimOk(map[], cap, a.op, a.now) <==> Legal(cap, [a]);
  }

  /** The exception happens: insert with deadline 5 at time 0, remove at time 5. */
  lemma ExpiredRemoveDiffers(k: int)
    ensures var calls := [TimedCall(Op.Insert(k, 7, 5, None), 0)] + [TimedCall(Op.Remove(k), 5)];
      Legal(1, calls) && LazyReply(1, calls) == Found(Some(7)) && EagerReply(1, calls) == Found(None)
  {
    var a: TimedCall<int, int>, b: TimedCall<int, int> := TimedCall(Insert(k, 7, 5, None), 0), TimedCall(Remove(k), 5);
    RunOfTwo(1, a, b);
    hide LazyRun, EagerRun, Legal, LazyReply, EagerReply;
    var none: Items<int, int> := map[];
    assert none - {k} == none;
    assert Live(none, 0) == none;
  }

  // ----- What is held, read off the calls alone

  /** The latest insertion of `k`, unless it has been removed or cleared since. */
  function Latest<K(==), V>(calls: seq<TimedCall<K, V>>, k: K): Option<Timed<V>> {
    if calls == [] then None
    else
      match Last(calls).op
      case Insert(x, v, deadline, _) => if x == k then Some(Timed(v, deadline)) else Latest(DropLast(calls), k)
      case Remove(x) => if x == k then None else Latest(DropLast(calls), k)
      case Clear => None
      case _ => Latest(DropLast(calls), k)
  }

  /** `k` has been chosen as victim of a full shard since its latest insertion. */
  ghost predicate EvictedSince<K, V>(cap: nat, calls: seq<TimedCall<K, V>>, k: K) {
    calls != [] &&
    match Last(calls).op
    case Insert(x, _, _, victim) =>
      x != k && (EvictedSince(cap, DropLast(calls), k) || (victim == Some(k) && Evicts(cap, calls)))
    case _ => EvictedSince(cap, DropLast(calls), k)
  }

  /** The last call inserts a key that is not live into a shard that other keys fill,
      expired ones included. */
  ghost predicate Evicts<K, V>(cap: nat, calls: seq<TimedCall<K, V>>)
    requires calls != [] && Last(calls).op.Insert?
  {
    var m, k, now := LazyRun(cap, DropLast(calls)), Last(calls).op.key, Last(calls).now;
    k !in Live(m, now) && |m - {k}| >= cap
  }

  /** Since its latest insertion `k` has been met expired: by a get or contains_key of it, or
      by a len, at or past its deadline. */
  ghost predicate MetExpired<K, V>(calls: seq<TimedCall<K, V>>, k: K) {
    calls != [] &&
    match Last(calls).op
    case Insert(x, _, _, _) => x != k && MetExpired(DropLast(calls), k)
    case Get(x) => MetExpired(DropLast(calls), k) || (x == k && ExpiredAt(DropLast(calls), k, Last(calls).now))
    case ContainsKey(x) => MetExpired(DropLast(calls), k) || (x == k && ExpiredAt(DropLast(calls), k, Last(calls).now))
    case Len => MetExpired(DropLast(calls), k) || ExpiredAt(DropLast(calls), k, Last(calls).now)
    case _ => MetExpired(DropLast(calls), k)
  }

  ghost predicate ExpiredAt<K, V>(calls: seq<TimedCall<K, V>>, k: K, now: nat) {
    Latest(calls, k).Some? && Latest(calls, k).value.expiresAt <= now
  }

  /** After every run, a key sits in the shard, expired or not, exactly when its latest
      insertion has not been undone by a remove or clear and it has neither been evicted nor
      met expired since; and then the value and deadline are those of that insertion. */
  lemma {:induction false} HeldIff<K, V>(cap: nat, calls: seq<TimedCall<K, V>>, k: K)
    ensures k in LazyRun(cap, calls) <==>
            Latest(calls, k).Some? && !EvictedSince(cap, calls, k) && !MetExpired(calls, k)
    ensures k in LazyRun(cap, calls) ==> Latest(calls, k) == Some(LazyRun(cap, calls)[k])
  {
    if calls != [] {
      HeldIff(cap, DropLast(calls), k);
      StepOnKey(LazyRun(cap, DropLast(calls)), cap, Last(calls).op, Last(calls).now, k);
      hide LazyStep, Live;
    }
  }

  /** One call on one key: what is lost and what is written. */
  lemma StepOnKey<K, V>(m: Items<K, V>, cap: nat, op: Op<K, V>, now: nat, k: K)
    ensures var m' := LazyStep(m, cap, op, now).0;
      && (!(op.Insert? && op.key == k) ==> k in m' ==> k in m && m'[k] == m[k])
      && match op
         case Insert(x, v, deadline, victim) =>
           if x == k then k in m' && m'[k] == Timed(v, deadline)
           else k in m' <==> k in m && !(victim == Some(k) && x !in Live(m, now) && |m - {x}| >= cap)
         case Remove(x) => k in m' <==> k in m && x != k
         case Clear => k !in m'
         case Len => k in m' <==> k in m && m[k].expiresAt > now
         case _ => k in m' <==> k in m && (op.key == k ==> m[k].expiresAt > now)
  {
  }

  /** Every reply says what is held unexpired at the time of the call, except that `remove`
      says what is held, expired or not. */
  lemma RepliesReadHeld<K, V>(cap: nat, calls: seq<TimedCall<K, V>>)
    requires calls != []
    ensures var held, op := LazyRun(cap, DropLast(calls)), Last(calls).op; var live := Live(held, Last(calls).now);
      LazyReply(cap, calls) ==
      match op
      case Len => Count(|live|)
      case Clear => Cleared
      case ContainsKey(k) => Has(k in live)
      case Remove(k) => Found(Values(held, k))
      case _ => Found(Values(live, op.key))
  {
  }

  // ----- Deadlines

  /** The span used when adding the requested one would overflow: a hundred years, in
      nanoseconds, the unit of every time and span here. */
  const FAR_FUTURE: nat := 60 * 60 * 24 * 365 * 100 * NANOS

  const NANOS: nat := 1_000_000_000

  /** Deadline for a call at `now`, in a clock that cannot represent past `max`. */
  function Deadline(now: nat, ttl: nat, max: nat): nat
    requires now <= max
  {
    if now + ttl <= max then now + ttl
    else if now + FAR_FUTURE <= max then now + FAR_FUTURE
    else now
  }

  /** The deadline never lies in the past and is always representable; a positive
      time to live is kept exactly when it fits and only ever shortened otherwise, to
      36500 days where those fit and to nothing where they do not; and it gives a live
      entry unless neither it nor the far future fits. */
  lemma DeadlineIsSane(now: nat, ttl: nat, max: nat)
    requires now <= max
    ensures now <= Deadline(now, ttl, max) <= max
    ensures now + ttl <= max ==> Deadline(now, ttl, max) - now == ttl
    ensures now + ttl > max ==> Deadline(now, ttl, max) < now + ttl
    ensures Deadline(now, ttl, max) > now <==> ttl > 0 && (now + ttl <= max || now + FAR_FUTURE <= max)
    ensures now + ttl > max && max - now >= 3_153_600_000 * NANOS ==>
      Deadline(now, ttl, max) - now == 36_500 * 24 * 60 * 60 * NANOS
    ensures now + ttl > max && max - now < 3_153_600_000 * NANOS ==> Deadline(now, ttl, max) == now
  {
  }
}

/** One shard of the TTL cache: `Inner` of src/ttl.rs, driven under its lock. The
    time read by the call is passed in. */
module TtlStore {
  import opened Recency
  import opened TtlPolicy

  class TtlShard<K(==), V> {
    const capacity: nat
    var items: map<K, Timed<V>>

    ghost predicate Valid()
      reads this
    {
      1 <= capacity && |items| <= capacity
    }

    constructor (capacity: nat)
      requires capacity >= 1
      ensures Valid() && this.capacity == capacity && items == LazyRun(capacity, [])
    {
      this.capacity := capacity;
      items := map[];
    }

    method Get(key: K, now: nat) returns (value: Option<V>)
      requires Valid()
      modifies this
      ensures Valid()
      ensures (items, Reply.Found(value)) == LazyStep(old(items), capacity, Op.Get(key), now)
    {
      RemovedSize(items, key);
      if key !in items {
        return None;
      }
      var expiresAt := items[key].expiresAt;
      if expiresAt <= now {
        items := items - {key};
        return None;
      }
      value := Some(items[key].value);
    }

    /** `victim` is the key the scan picked, if it ran. */
    method InsertInner(key: K, value: V, deadline: nat, now: nat) returns (previous: Option<V>, ghost victim: Option<K>)
      requires Valid()
      modifies this
      ensures Valid()
      ensures LazyVictimOk(old(items), capacity, Op.Insert(key, value, deadline, victim), now)
      ensures (items, Reply.Found(previous)) ==
              LazyStep(old(items), capacity, Op.Insert(key, value, deadline, victim), now)
    {
      victim := None;
      if key in items && items[key].expiresAt > now {
        previous := Some(items[key].value);
        items := items[key := Timed(value, deadline)];
        return;
      }
      RemovedSize(items, key);
      items := items - {key};
      if |items| >= capacity {
        var soonest := FindVictim();
        victim := soonest;
        if soonest.Some? {
          RemovedSize(items, soonest.value);
          items := items - {soonest.value};
        }
      }
      items := items[key := Timed(value, deadline)];
      previous := None;
    }

    /** An entry with the soonest deadline; which one among equals is not fixed. */
    method FindVictim() returns (victim: Option<K>)
      ensures IsSoonest(items, victim)
    {
      if items == map[] {
        return None;
      }
      SoonestExists(items, items.Keys);
      var v :| v in items.Keys && forall k :: k in items.Keys ==> items[v].expiresAt <= items[k].expiresAt;
      victim := Some(v);
    }

    method Remove(key: K) returns (value: Option<V>)
      requires Valid()
      modifies this
      ensures Valid()
      ensures forall now :: (items, Reply.Found(value)) == LazyStep(old(items), capacity, Op.Remove(key), now)
    {
      RemovedSize(items, key);
      value := if key in items then Some(items[key].value) else None;
      items := items - {key};
    }

    method ContainsKey(key: K, now: nat) returns (present: bool)
      requires Valid()
      modifies this
      ensures Valid()
      ensures (items, Reply.Has(present)) == LazyStep(old(items), capacity, Op.ContainsKey(key), now)
    {
      RemovedSize(items, key);
      if key !in items {
        return false;
      }
      var expiresAt := items[key].expiresAt;
      if expiresAt > now {
        return true;
      }
      items := items - {key};
      present := false;
    }

    method PurgeExpired(now: nat)
      modifies this
      ensures items == Live(old(items), now)
    {
      items := map k | k in items && items[k].expiresAt > now :: items[k];
    }

    /** This shard's part of `len`. */
    method Len(now: nat) returns (n: nat)
      requires Valid()
      modifies this
      ensures Valid()
      ensures (items, Reply.Count(n)) == LazyStep(old(items), capacity, Op.Len, now)
    {
      LiveIsSmaller(items, now);
      PurgeExpired(now);
      n := |items|;
    }

    method Clear()
      requires Valid()
      modifies this
      ensures Valid()
      ensures forall now :: (items, Reply.Cleared) == LazyStep(old(items), capacity, Op.Clear, now)
    {
      items := map[];
    }
  }

  ghost predicate IsLeast<K, V>(m: Items<K, V>, keys: set<K>, v: K)
    requires keys <= m.Keys
  {
    v in keys && forall k :: k in keys ==> m[v].expiresAt <= m[k].expiresAt
  }

  lemma {:induction false} SoonestExists<K, V>(m: Items<K, V>, keys: set<K>)
    requires keys != {} && keys <= m.Keys
    ensures exists v :: IsLeast(m, keys, v)
  {
    var x :| x in keys;
    if keys == {x} {
      assert IsLeast(m, keys, x);
    } else {
      SoonestExists(m, keys - {x});
      var v :| IsLeast(m, keys - {x}, v);
      var best := if m[x].expiresAt <= m[v].expiresAt then x else v;
      forall k | k in keys ensures m[best].expiresAt <= m[k].expiresAt {
        assert k == x || k in keys - {x};
      }
      assert IsLeast(m, keys, best);
    }
  }
}
