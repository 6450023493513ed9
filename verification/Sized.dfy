/** The weight-bound store's policy on plain values: an LRU list, the set of
    mapped keys, and the running weight total, kept with saturating arithmetic. */
module SizedPolicy {
  import opened Machine
  import opened Recency
  import opened CacheApi
  import Lru = LruPolicy

  datatype Weighed<+V> = Weighed(value: V, weight: Usize)

  type Weighted<+K, +V> = Entry<K, Weighed<V>>

  function Sum<K, V>(s: seq<Weighted<K, V>>): nat {
    if s == [] then 0 else Sum(DropLast(s)) + s[|s| - 1].value.weight
  }

  /** Drops entries from the LRU end, taking each weight off `total`, until
      `total` plus the weight to come is within the limit or nothing is left. */
  function Fit<K, V>(s: seq<Weighted<K, V>>, total: Usize, incoming: Usize, limit: Usize)
    : (r: (seq<Weighted<K, V>>, Usize))
    ensures r.0 <= s
  {
    if SatAdd(total, incoming) <= limit || s == [] then (s, total)
    else Fit(DropLast(s), SatSub(total, s[|s| - 1].value.weight), incoming, limit)
  }

  datatype State<!K, +V> = State(entries: seq<Weighted<K, V>>, mapped: set<K>, total: Usize)

  /** The total is the true sum of the weights, within the limit. */
  ghost predicate Conserved<K, V>(st: State<K, V>, limit: Usize) {
    st.total == Sum(st.entries) <= limit
  }

  /** What is left of that when saturation has lost weight. */
  ghost predicate Bounded<K, V>(st: State<K, V>, limit: Usize) {
    st.total <= Sum(st.entries) && st.total <= limit
  }

  /** Map and list agree: exactly the listed keys are mapped, and each is listed once. */
  ghost predicate Agrees<K, V>(st: State<K, V>) {
    DistinctKeys(st.entries) && st.mapped == Keys(st.entries)
  }

  /** Map, list and weight total agree, within the limit. */
  ghost predicate Sound<K, V>(st: State<K, V>, limit: Usize) {
    Agrees(st) && Conserved(st, limit)
  }

  /** The total of a live update before its eviction. */
  function Adjusted(total: Usize, weight: Usize, was: Usize): Usize {
    SatSub(SatAdd(total, weight), was)
  }

  /** Replaces the value of the entry at position `i`, moves it to the front and
      evicts until the new total fits. `unmap` says whether evicted keys leave the
      map: the code as written leaves them there. */
  function Update<K(==), V>(st: State<K, V>, limit: Usize, i: nat, value: Weighed<V>, unmap: bool): State<K, V>
    requires i < |st.entries|
  {
    var moved := ToFront(st.entries, i, value);
    var (kept, left) := Fit(moved, Adjusted(st.total, value.weight, st.entries[i].value.weight), 0, limit);
    State(kept, if unmap then st.mapped - Keys(moved[|kept|..]) else st.mapped, left)
  }

  /** Stores a new key at the front after evicting (and unmapping) until it fits. */
  function Admit<K(==), V>(st: State<K, V>, limit: Usize, key: K, value: Weighed<V>): State<K, V> {
    var (kept, left) := Fit(st.entries, st.total, value.weight, limit);
    State([Entry(key, value)] + kept, st.mapped - Keys(st.entries[|kept|..]) + {key}, SatAdd(left, value.weight))
  }

  /** One call whose key the map leads to position `at` of the list, at or past its end
      when the key is not mapped. `unmap` selects between the code as written (false)
      and the intended code, which unmaps every evicted key (true). */
  function StepAt<K(==), V>(st: State<K, V>, limit: Usize, weigh: V -> Usize, op: Op<K, V>, at: nat, unmap: bool)
    : (State<K, V>, Reply<V>)
  {
    match op
    case Get(k) =>
      if at < |st.entries| then
        (st.(entries := ToFront(st.entries, at, st.entries[at].value)), Found(Some(st.entries[at].value.value)))
      else (st, Found(None))
    case Insert(k, v) =>
      if weigh(v) > limit then (st, Found(None))
      else if at < |st.entries| then
        (Update(st, limit, at, Weighed(v, weigh(v)), unmap), Found(Some(st.entries[at].value.value)))
      else (Admit(st, limit, k, Weighed(v, weigh(v))), Found(None))
    case Remove(k) =>
      if at < |st.entries| then
        (State(RemoveAt(st.entries, at), st.mapped - {k}, SatSub(st.total, st.entries[at].value.weight)),
         Found(Some(st.entries[at].value.value)))
      else (st, Found(None))
    case ContainsKey(k) => (st, Has(k in st.mapped))
    case Clear => (State([], {}, 0), Cleared)
  }

  /** Where the list holds the key of a call, past its end when it does not. */
  function Spot<K(==), V>(st: State<K, V>, op: Op<K, V>): nat {
    if op.Clear? then 0 else Locate(st.entries, op.key)
  }

  /** One call whose key the map leads to where the list holds that key. */
  function Step<K(==), V>(st: State<K, V>, limit: Usize, weigh: V -> Usize, op: Op<K, V>, unmap: bool)
    : (State<K, V>, Reply<V>)
  {
    StepAt(st, limit, weigh, op, Spot(st, op), unmap)
  }

  // ----- Sums

  lemma {:induction false} SumPrepend<K, V>(e: Weighted<K, V>, s: seq<Weighted<K, V>>)
    ensures Sum([e] + s) == e.value.weight + Sum(s)
  {
    if s == [] {
    } else {
      assert DropLast([e] + s) == [e] + DropLast(s);
      SumPrepend(e, DropLast(s));
    }
  }

  lemma {:induction false} SumRemoveAt<K, V>(s: seq<Weighted<K, V>>, i: nat)
    requires i < |s|
    ensures Sum(s) == Sum(RemoveAt(s, i)) + s[i].value.weight
  {
    if i == |s| - 1 {
      assert RemoveAt(s, i) == DropLast(s);
    } else {
      assert DropLast(RemoveAt(s, i)) == RemoveAt(DropLast(s), i);
      SumRemoveAt(DropLast(s), i);
    }
  }

  lemma {:induction false} SumPrefix<K, V>(s: seq<Weighted<K, V>>, m: nat, n: nat)
    requires m <= n <= |s|
    ensures Sum(s[..m]) <= Sum(s[..n])
  {
    if m < n {
      assert DropLast(s[..n]) == s[..n - 1];
      SumPrefix(s, m, n - 1);
    }
  }

  // ----- Eviction

  /** `kept` is the longest prefix of `s` that leaves room for `incoming`. */
  ghost predicate LongestFitting<K, V>(s: seq<Weighted<K, V>>, kept: seq<Weighted<K, V>>, incoming: nat, limit: nat) {
    && kept <= s
    && forall m: nat :: m <= |s| ==> (Sum(s[..m]) + incoming <= limit <==> m <= |kept|)
  }

  /** Started on the true sum, eviction keeps exactly the longest prefix that fits
      and ends on its true sum, with room for what is to come. */
  lemma {:induction false} FitIsExact<K, V>(s: seq<Weighted<K, V>>, total: Usize, incoming: Usize, limit: Usize)
    requires total == Sum(s) && incoming <= limit
    requires total + incoming <= USIZE_MAX || limit < USIZE_MAX
    ensures var (kept, left) := Fit(s, total, incoming, limit);
      left == Sum(kept) && LongestFitting(s, kept, incoming, limit)
  {
    var (kept, left) := Fit(s, total, incoming, limit);
    if SatAdd(total, incoming) <= limit {
      forall m: nat | m <= |s| ensures Sum(s[..m]) + incoming <= limit {
        SumPrefix(s, m, |s|);
      }
    } else {
      FitIsExact(DropLast(s), SatSub(total, s[|s| - 1].value.weight), incoming, limit);
      assert s[..|s|] == s;
      forall m: nat | m <= |s| ensures Sum(s[..m]) + incoming <= limit <==> m <= |kept| {
        if m < |s| {
          assert s[..m] == DropLast(s)[..m];
        }
      }
    }
  }

  /** Eviction started on no more than the true sum ends on no more than the true sum,
      and with room for what is to come: it never runs out of entries first. */
  lemma {:induction false} FitStaysBounded<K, V>(s: seq<Weighted<K, V>>, total: Usize, incoming: Usize, limit: Usize)
    requires total <= Sum(s) && incoming <= limit
    ensures var (kept, left) := Fit(s, total, incoming, limit);
      left <= Sum(kept) && SatAdd(left, incoming) <= limit
  {
    if SatAdd(total, incoming) > limit {
      FitStaysBounded(DropLast(s), SatSub(total, s[|s| - 1].value.weight), incoming, limit);
    }
  }

  lemma PrefixKeys<K, V>(s: seq<Entry<K, V>>, p: seq<Entry<K, V>>)
    requires DistinctKeys(s) && p <= s
    ensures DistinctKeys(p) && Keys(p) == Keys(s) - Keys(s[|p|..])
    ensures Keys(p) == Keys(s) ==> |p| == |s|
  {
    var rest := s[|p|..];
    forall i | 0 <= i < |rest| ensures rest[i].key in Keys(s) && rest[i].key !in Keys(p) {
      assert rest[i] == s[|p| + i];
    }
    assert |p| < |s| ==> rest[0].key in Keys(rest);
    forall i | 0 <= i < |s| ensures s[i].key in Keys(p) || s[i].key in Keys(rest) {
      assert if i < |p| then p[i] == s[i] else rest[i - |p|] == s[i];
    }
  }

  lemma SuffixKeys<K, V>(s: seq<Entry<K, V>>, n: nat)
    requires n <= |s|
    ensures Keys(s[n..]) == if n < |s| then Keys(s[n + 1..]) + {s[n].key} else {}
  {
    if n < |s| {
      assert s[n..] == [s[n]] + s[n + 1..];
      Lru.KeysOfCons(s[n], s[n + 1..]);
    }
  }

  // ----- The total, wherever the key map leads

  lemma {:induction false} ToFrontSum<K, V>(s: seq<Weighted<K, V>>, i: nat, value: Weighed<V>)
    requires i < |s|
    ensures s[i].value.weight <= Sum(s)
    ensures Sum(ToFront(s, i, value)) == Sum(s) - s[i].value.weight + value.weight
  {
    SumRemoveAt(s, i);
    SumPrepend(Entry(s[i].key, value), RemoveAt(s, i));
  }

  /** The longest fitting prefix of a list headed by an entry that fits alone is that
      entry and the longest prefix of the rest that leaves room for it. */
  lemma FittingBehindHead<K, V>(e: Weighted<K, V>, rest: seq<Weighted<K, V>>, kept: seq<Weighted<K, V>>, limit: nat)
    requires LongestFitting([e] + rest, kept, 0, limit) && e.value.weight <= limit
    ensures kept != [] && kept[0] == e && LongestFitting(rest, kept[1..], e.value.weight, limit)
  {
    var moved := [e] + rest;
    forall m: nat | m <= |rest| ensures Sum(rest[..m]) + e.value.weight <= limit <==> m + 1 <= |kept| {
      assert moved[..m + 1] == [e] + rest[..m];
      SumPrepend(e, rest[..m]);
    }
    assert rest[..0] == [];
  }

  lemma FitBehindHead<K, V>(e: Weighted<K, V>, rest: seq<Weighted<K, V>>, limit: Usize)
    requires Sum([e] + rest) <= USIZE_MAX && e.value.weight <= limit
    ensures var (kept, left) := Fit([e] + rest, Sum([e] + rest), 0, limit);
      && kept != [] && kept[0] == e && LongestFitting(rest, kept[1..], e.value.weight, limit)
      && left == Sum(kept) <= limit
  {
    var (kept, left) := Fit([e] + rest, Sum([e] + rest), 0, limit);
    FitIsExact([e] + rest, Sum([e] + rest), 0, limit);
    FittingBehindHead(e, rest, kept, limit);
    assert kept == ([e] + rest)[..|kept|];
  }

  lemma ToFrontFits<K, V>(s: seq<Weighted<K, V>>, limit: Usize, i: nat, value: Weighed<V>)
    requires i < |s| && value.weight <= limit && Sum(s) + value.weight <= USIZE_MAX
    ensures s[i].value.weight <= Sum(s)
    ensures var (kept, left) := Fit(ToFront(s, i, value), Sum(s) + value.weight - s[i].value.weight, 0, limit);
      && kept != [] && kept[0] == Entry(s[i].key, value)
      && LongestFitting(RemoveAt(s, i), kept[1..], value.weight, limit)
      && left == Sum(kept) <= limit
  {
    ToFrontSum(s, i, value);
    FitBehindHead(Entry(s[i].key, value), RemoveAt(s, i), limit);
  }

  /** A live update leaves the updated entry at the head, followed by the longest
      prefix of the other entries that still fits; the total is the true sum. */
  lemma UpdateIsExact<K, V>(st: State<K, V>, limit: Usize, i: nat, value: Weighed<V>, unmap: bool)
    requires st.total == Sum(st.entries) && i < |st.entries|
    requires value.weight <= limit && st.total + value.weight <= USIZE_MAX
    ensures var st' := Update(st, limit, i, value, unmap);
      && st'.entries != [] && st'.entries[0] == Entry(st.entries[i].key, value)
      && LongestFitting(RemoveAt(st.entries, i), st'.entries[1..], value.weight, limit)
      && st'.total == Sum(st'.entries) <= limit
  {
    ToFrontFits(st.entries, limit, i, value);
  }

  /** Eviction started below the true sum ends on the true sum only when it leaves no
      weight at all. */
  lemma {:induction false} LostWeightStaysLost<K, V>(
      s: seq<Weighted<K, V>>, total: Usize, incoming: Usize, limit: Usize)
    requires total < Sum(s) && incoming <= limit
    ensures var (kept, left) := Fit(s, total, incoming, limit);
      left <= Sum(kept) && (left == Sum(kept) <==> Sum(kept) == 0)
  {
    FitStaysBounded(s, total, incoming, limit);
    if SatAdd(total, incoming) > limit {
      var rest, left := DropLast(s), SatSub(total, s[|s| - 1].value.weight);
      if left < Sum(rest) {
        LostWeightStaysLost(rest, left, incoming, limit);
      } else {
        var kept := Fit(rest, left, incoming, limit).0;
        SumPrefix(rest, |kept|, |rest|);
        assert rest[..|rest|] == rest && rest[..|kept|] == kept;
      }
    }
  }

  /** An accepted insert of a new key leaves it at the head, followed by the longest
      prefix of the old list that leaves room for it; the total is the true sum. */
  lemma AdmitIsExact<K, V>(st: State<K, V>, limit: Usize, key: K, value: Weighed<V>)
    requires st.total == Sum(st.entries) && value.weight <= limit
    requires limit < USIZE_MAX || st.total + value.weight <= USIZE_MAX
    ensures var st' := Admit(st, limit, key, value);
      && st'.entries != [] && st'.entries[0] == Entry(key, value)
      && LongestFitting(st.entries, st'.entries[1..], value.weight, limit)
      && Conserved(st', limit)
  {
    FitIsExact(st.entries, st.total, value.weight, limit);
    var kept := Fit(st.entries, st.total, value.weight, limit).0;
    assert kept == st.entries[..|kept|];
    SumPrepend(Entry(key, value), kept);
  }

  /** Even when the total saturates or has lost weight, a live update never evicts the
      entry it updates. */
  lemma UpdateKeepsItsKey<K, V>(st: State<K, V>, limit: Usize, i: nat, value: Weighed<V>, unmap: bool)
    requires st.total <= Sum(st.entries) && i < |st.entries| && value.weight <= limit
    ensures var kept := Update(st, limit, i, value, unmap).entries;
      kept != [] && kept[0] == Entry(st.entries[i].key, value)
    ensures Update(st, limit, i, value, unmap).total <= limit
  {
    var e, rest := Entry(st.entries[i].key, value), RemoveAt(st.entries, i);
    SumRemoveAt(st.entries, i);
    HeadSurvives(e, rest, Adjusted(st.total, value.weight, st.entries[i].value.weight), limit);
  }

  lemma {:induction false} HeadSurvives<K, V>(e: Weighted<K, V>, rest: seq<Weighted<K, V>>, total: Usize, limit: Usize)
    requires total <= limit + Sum(rest)
    ensures var (kept, left) := Fit([e] + rest, total, 0, limit); kept != [] && kept[0] == e && left <= limit
  {
    if total > limit {
      assert DropLast([e] + rest) == [e] + DropLast(rest);
      HeadSurvives(e, DropLast(rest), SatSub(total, rest[|rest| - 1].value.weight), limit);
    }
  }

  /** A live update keeps the total true exactly when its addition does not saturate. */
  lemma UpdateConservesIff<K, V>(st: State<K, V>, limit: Usize, i: nat, value: Weighed<V>, unmap: bool)
    requires Conserved(st, limit) && i < |st.entries| && value.weight <= limit
    ensures Conserved(Update(st, limit, i, value, unmap), limit) <==> st.total + value.weight <= USIZE_MAX
  {
    if st.total + value.weight <= USIZE_MAX {
      UpdateIsExact(st, limit, i, value, unmap);
    } else {
      ToFrontSum(st.entries, i, value);
      LostWeightStaysLost(ToFront(st.entries, i, value), SatSub(USIZE_MAX, st.entries[i].value.weight), 0, limit);
      UpdateKeepsItsKey(st, limit, i, value, unmap);
      var kept := Update(st, limit, i, value, unmap).entries;
      assert kept == [kept[0]] + kept[1..];
      SumPrepend(kept[0], kept[1..]);
    }
  }

  /** Admitting a new key does exactly when saturation cannot hide part of the
      projected total. */
  lemma AdmitConservesIff<K, V>(st: State<K, V>, limit: Usize, key: K, value: Weighed<V>)
    requires Conserved(st, limit) && value.weight <= limit
    ensures Conserved(Admit(st, limit, key, value), limit) <==>
            limit < USIZE_MAX || st.total + value.weight <= USIZE_MAX
  {
    if limit < USIZE_MAX || st.total + value.weight <= USIZE_MAX {
      AdmitIsExact(st, limit, key, value);
    } else {
      SumPrepend(Entry(key, value), st.entries);
    }
  }

  /** Whatever saturated before and whatever keys were left mapped, no call takes the
      total over the limit or over the true sum. */
  lemma StepStaysBounded<K, V>(st: State<K, V>, limit: Usize, weigh: V -> Usize, op: Op<K, V>, at: nat, unmap: bool)
    requires Bounded(st, limit)
    ensures Bounded(StepAt(st, limit, weigh, op, at, unmap).0, limit)
  {
    if op.Insert? && weigh(op.value) <= limit && at >= |st.entries| {
      var w := weigh(op.value);
      FitStaysBounded(st.entries, st.total, w, limit);
      SumPrepend(Entry(op.key, Weighed(op.value, w)), Fit(st.entries, st.total, w, limit).0);
    } else if at < |st.entries| {
      var was := st.entries[at].value;
      match op {
        case Get(_) => ToFrontSum(st.entries, at, was);
        case Insert(_, v) =>
          if weigh(v) <= limit {
            var now := Weighed(v, weigh(v));
            ToFrontSum(st.entries, at, now);
            FitStaysBounded(ToFront(st.entries, at, now), Adjusted(st.total, now.weight, was.weight), 0, limit);
          }
        case Remove(_) => SumRemoveAt(st.entries, at);
        case _ =>
      }
    }
  }

  /** The condition under which an insert keeps the total true: the value is rejected,
      or the addition does not saturate, or it is a new key and saturation shows. */
  predicate KeepsTotal<K, V>(st: State<K, V>, limit: Usize, weigh: V -> Usize, op: Op<K, V>, at: nat) {
    op.Insert? && weigh(op.value) <= limit ==>
      st.total + weigh(op.value) <= USIZE_MAX || (at >= |st.entries| && limit < USIZE_MAX)
  }

  /** Weight conservation, wherever the key map leads: every call other than an insert
      keeps the total true, and an insert does exactly when `KeepsTotal` held. */
  lemma StepConservesIff<K, V>(st: State<K, V>, limit: Usize, weigh: V -> Usize, op: Op<K, V>, at: nat, unmap: bool)
    requires Conserved(st, limit)
    ensures Conserved(StepAt(st, limit, weigh, op, at, unmap).0, limit) <==> KeepsTotal(st, limit, weigh, op, at)
  {
    if op.Insert? && weigh(op.value) <= limit {
      if at < |st.entries| {
        UpdateConservesIff(st, limit, at, Weighed(op.value, weigh(op.value)), unmap);
      } else {
        AdmitConservesIff(st, limit, op.key, Weighed(op.value, weigh(op.value)));
      }
    } else if at < |st.entries| {
      ToFrontSum(st.entries, at, st.entries[at].value);
      SumRemoveAt(st.entries, at);
    }
  }

  // ----- When one call keeps map and list in agreement

  lemma RemoveKeys<K, V>(s: seq<Entry<K, V>>, i: nat)
    requires DistinctKeys(s) && i < |s|
    ensures DistinctKeys(RemoveAt(s, i)) && Keys(RemoveAt(s, i)) == Keys(s) - {s[i].key}
  {
    var r := RemoveAt(s, i);
    forall k | k in Keys(s) && k != s[i].key ensures k in Keys(r) {
      var j := Locate(s, k);
      assert r[if j < i then j else j - 1].key == k;
    }
    forall k | k in Keys(r) ensures k in Keys(s) && k != s[i].key {
      var j := Locate(r, k);
    }
  }

  /** The condition, read off the state before a call, under which it keeps map and list
      in agreement: it is not a live update that evicts, or evicted keys are unmapped. */
  predicate KeepsMap<K(==), V>(st: State<K, V>, limit: Usize, weigh: V -> Usize, op: Op<K, V>, unmap: bool) {
    op.Insert? && weigh(op.value) <= limit && Spot(st, op) < |st.entries| ==>
      unmap || Adjusted(st.total, weigh(op.value), st.entries[Spot(st, op)].value.weight) <= limit
  }

  /** A live update keeps map and list in agreement exactly when, unless evicted keys are
      unmapped, it evicts nothing. */
  lemma UpdateAgreesIff<K, V>(st: State<K, V>, limit: Usize, i: nat, value: Weighed<V>, unmap: bool)
    requires Agrees(st) && i < |st.entries|
    ensures Agrees(Update(st, limit, i, value, unmap)) <==>
            unmap || Adjusted(st.total, value.weight, st.entries[i].value.weight) <= limit
  {
    var moved := ToFront(st.entries, i, value);
    ToFrontIsClean(st.entries, i, value);
    PrefixKeys(moved, Update(st, limit, i, value, unmap).entries);
  }

  lemma AdmitAgrees<K, V>(st: State<K, V>, limit: Usize, key: K, value: Weighed<V>)
    requires Agrees(st) && key !in st.mapped
    ensures Agrees(Admit(st, limit, key, value))
  {
    var kept := Fit(st.entries, st.total, value.weight, limit).0;
    PrefixKeys(st.entries, kept);
    Lru.KeysOfCons(Entry(key, value), kept);
  }

  /** Whatever the total and the limit, a call keeps map and list in agreement exactly
      when `KeepsMap` held before it. */
  lemma StepAgreesIff<K, V>(st: State<K, V>, limit: Usize, weigh: V -> Usize, op: Op<K, V>, unmap: bool)
    requires Agrees(st)
    ensures Agrees(Step(st, limit, weigh, op, unmap).0) <==> KeepsMap(st, limit, weigh, op, unmap)
  {
    var i := Spot(st, op);
    match op {
      case Get(_) =>
        if i < |st.entries| {
          ToFrontIsClean(st.entries, i, st.entries[i].value);
        }
      case Insert(k, v) =>
        if i < |st.entries| {
          UpdateAgreesIff(st, limit, i, Weighed(v, weigh(v)), unmap);
        } else {
          AdmitAgrees(st, limit, k, Weighed(v, weigh(v)));
        }
      case Remove(_) =>
        if i < |st.entries| {
          RemoveKeys(st.entries, i);
        }
      case _ =>
    }
  }

  /** A call keeps map, list and total in agreement exactly when both conditions held. */
  lemma StepSoundIff<K, V>(st: State<K, V>, limit: Usize, weigh: V -> Usize, op: Op<K, V>, unmap: bool)
    requires Sound(st, limit)
    ensures Sound(Step(st, limit, weigh, op, unmap).0, limit) <==>
            KeepsMap(st, limit, weigh, op, unmap) && KeepsTotal(st, limit, weigh, op, Spot(st, op))
  {
    hide Agrees, Conserved, KeepsMap, KeepsTotal;
    StepAgreesIff(st, limit, weigh, op, unmap);
    StepConservesIff(st, limit, weigh, op, Spot(st, op), unmap);
  }

  // ----- What one call does to list, contents and weights

  /** An insert rejected because its value alone is over the limit. */
  predicate Rejected<K, V>(limit: Usize, weigh: V -> Usize, op: Op<K, V>) {
    op.Insert? && weigh(op.value) > limit
  }

  /** The list an accepted insert evicts from: the new entry, then the others as they were. */
  function Whole<K(==), V>(s: seq<Weighted<K, V>>, weigh: V -> Usize, k: K, v: V): seq<Weighted<K, V>> {
    [Entry(k, Weighed(v, weigh(v)))] + Without(s, k)
  }

  /** An accepted insert leaves the longest fitting prefix of that list, never less than
      the new entry. The prefix needs no more than a total within the true sum; that it is
      the longest needs a true total and an addition that loses nothing. */
  lemma InsertIsExact<K, V>(st: State<K, V>, limit: Usize, weigh: V -> Usize, k: K, v: V, unmap: bool)
    requires Bounded(st, limit) && weigh(v) <= limit
    ensures var s', whole := Step(st, limit, weigh, Insert(k, v), unmap).0.entries, Whole(st.entries, weigh, k, v);
      && s' != [] && s' <= whole
      && (Conserved(st, limit) && KeepsTotal(st, limit, weigh, Insert(k, v), Spot(st, Insert(k, v))) ==>
            LongestFitting(whole[1..], s'[1..], weigh(v), limit))
  {
    var i, value := Locate(st.entries, k), Weighed(v, weigh(v));
    var whole := Whole(st.entries, weigh, k, v);
    assert whole[1..] == Without(st.entries, k);
    var conserves := Conserved(st, limit) && KeepsTotal(st, limit, weigh, Insert(k, v), Spot(st, Insert(k, v)));
    if i < |st.entries| {
      UpdateKeepsItsKey(st, limit, i, value, unmap);
      if conserves {
        UpdateIsExact(st, limit, i, value, unmap);
      }
    } else if conserves {
      AdmitIsExact(st, limit, k, value);
    }
  }

  /** The list without its weights. */
  function Bare<K, V>(s: seq<Weighted<K, V>>): (r: seq<Entry<K, V>>)
    ensures |r| == |s| && forall i :: 0 <= i < |s| ==> r[i] == Entry(s[i].key, s[i].value.value)
  {
    seq(|s|, i requires 0 <= i < |s| => Entry(s[i].key, s[i].value.value))
  }

  lemma {:induction false} BareLocate<K, V>(s: seq<Weighted<K, V>>, k: K)
    ensures Locate(Bare(s), k) == Locate(s, k)
  {
    if s != [] {
      assert Bare(s)[1..] == Bare(s[1..]);
      BareLocate(s[1..], k);
    }
  }

  lemma BareLocates<K, V>(s: seq<Weighted<K, V>>, k: K)
    ensures Locate(Bare(s), k) == Locate(s, k)
    ensures Bare(Without(s, k)) == Without(Bare(s), k)
    ensures Keys(Bare(s)) == Keys(s) && (DistinctKeys(Bare(s)) <==> DistinctKeys(s))
  {
    BareLocate(s, k);
    hide Locate;
  }

  /** Every entry carries the weight of its value. */
  ghost predicate Weighs<K, V>(s: seq<Weighted<K, V>>, weigh: V -> Usize) {
    forall i :: 0 <= i < |s| ==> s[i].value.weight == weigh(s[i].value.value)
  }

  /** Keys stay distinct, the total bounded and weights those of the values. */
  lemma StepKeepsShape<K, V>(st: State<K, V>, limit: Usize, weigh: V -> Usize, op: Op<K, V>, unmap: bool)
    requires DistinctKeys(st.entries) && Bounded(st, limit) && Weighs(st.entries, weigh)
    ensures var st' := Step(st, limit, weigh, op, unmap).0;
      && DistinctKeys(st'.entries) && Bounded(st', limit)
      && Weighs(st'.entries, weigh)
  {
    var clean := st.(mapped := Keys(st.entries));
    StepAgreesIff(clean, limit, weigh, op, true);
    assert Step(clean, limit, weigh, op, true).0.entries == Step(st, limit, weigh, op, unmap).0.entries;
    hide DistinctKeys, Bounded, Keys, Step;
    StepStaysBounded(st, limit, weigh, op, Spot(st, op), unmap);
    StepWeighs(st, limit, weigh, op, unmap);
    assert StepAt(st, limit, weigh, op, Spot(st, op), unmap) == Step(st, limit, weigh, op, unmap) by {
      StepIsStepAt(st, limit, weigh, op, unmap);
    }
  }

  lemma StepIsStepAt<K, V>(st: State<K, V>, limit: Usize, weigh: V -> Usize, op: Op<K, V>, unmap: bool)
    ensures StepAt(st, limit, weigh, op, Spot(st, op), unmap) == Step(st, limit, weigh, op, unmap)
  {
  }

  lemma StepWeighs<K, V>(st: State<K, V>, limit: Usize, weigh: V -> Usize, op: Op<K, V>, unmap: bool)
    requires Bounded(st, limit) && Weighs(st.entries, weigh)
    ensures Weighs(Step(st, limit, weigh, op, unmap).0.entries, weigh)
  {
    if op.Insert? && weigh(op.value) <= limit {
      hide Bounded, KeepsTotal, Step;
      InsertIsExact(st, limit, weigh, op.key, op.value, unmap);
      var s', whole := Step(st, limit, weigh, op, unmap).0.entries, Whole(st.entries, weigh, op.key, op.value);
      assert Weighs(whole, weigh);
    }
  }

  /** A call other than an insert treats the list and answers as an LRU shard does, except
      that `contains_key` asks the key map. */
  lemma AccessIsLru<K, V>(st: State<K, V>, limit: Usize, weigh: V -> Usize, op: Op<K, V>, unmap: bool, cap: nat)
    requires !op.Insert?
    ensures var (st', reply) := Step(st, limit, weigh, op, unmap); var (b, lru) := Lru.Step(Bare(st.entries), cap, op);
      Bare(st'.entries) == b && if op.ContainsKey? then st' == st else reply == lru
  {
    hide Keys, DistinctKeys, Locate;
    if !op.Clear? {
      BareLocates(st.entries, op.key);
    }
  }

  /** The contents of a prefix are those of the whole list, restricted to its keys. */
  lemma PrefixContents<K, V>(s: seq<Entry<K, V>>, p: seq<Entry<K, V>>)
    requires DistinctKeys(s) && p <= s
    ensures Contents(p) == map k | k in Contents(s) && k in Keys(p) :: Contents(s)[k]
  {
    PrefixKeys(s, p);
    Lru.ContentsAt(s);
    Lru.ContentsAt(p);
    forall k | k in Keys(p) ensures k in Keys(s) && Contents(s)[k] == Contents(p)[k] {
      LocateIsUnique(s, Locate(p, k));
    }
  }

  /** One call acts and answers as on the map of the store's contents that first loses the
      keys it evicts; a rejected insert changes nothing and answers nothing. (`contains_key`
      asks the key map, so it needs map and list to agree.) */
  lemma StepOnContents<K, V>(st: State<K, V>, limit: Usize, weigh: V -> Usize, op: Op<K, V>, unmap: bool)
    requires DistinctKeys(st.entries) && Bounded(st, limit) && (op.ContainsKey? ==> Agrees(st))
    ensures var (st', reply) := Step(st, limit, weigh, op, unmap);
      if Rejected(limit, weigh, op) then st' == st && reply == Found(None)
      else (Contents(Bare(st'.entries)), reply) ==
           OnMap(Contents(Bare(st.entries)), op, Keys(st.entries) - Keys(st'.entries))
  {
    if op.Insert? {
      if weigh(op.value) <= limit {
        InsertOnContents(st, limit, weigh, op.key, op.value, unmap);
        InsertReply(st, limit, weigh, op.key, op.value, unmap);
      }
    } else {
      var b := Bare(st.entries);
      BareDistinct(st.entries);
      AccessIsLru(st, limit, weigh, op, unmap, |b| + 1);
      Lru.StepOnContents(b, |b| + 1, op);
      if op.ContainsKey? {
        BareLocates(st.entries, op.key);
        Lru.ContentsAt(b);
      }
      hide Bare, Contents, DistinctKeys, Keys;
    }
  }

  lemma InsertReply<K, V>(st: State<K, V>, limit: Usize, weigh: V -> Usize, k: K, v: V, unmap: bool)
    requires weigh(v) <= limit
    ensures var m := Contents(Bare(st.entries));
      Step(st, limit, weigh, Insert(k, v), unmap).1 == Found(if k in m then Some(m[k]) else None)
  {
    BareLocates(st.entries, k);
    KeysAreLocated(Bare(st.entries));
    Lru.ContentsAt(Bare(st.entries));
    hide Keys, Contents;
  }

  lemma InsertOnContents<K, V>(st: State<K, V>, limit: Usize, weigh: V -> Usize, k: K, v: V, unmap: bool)
    requires DistinctKeys(st.entries) && Bounded(st, limit) && weigh(v) <= limit
    ensures var s' := Step(st, limit, weigh, Insert(k, v), unmap).0.entries;
      Contents(Bare(s')) == (Contents(Bare(st.entries)) - (Keys(st.entries) - Keys(s')))[k := v]
  {
    var s' := Step(st, limit, weigh, Insert(k, v), unmap).0.entries;
    var b, whole := Bare(st.entries), Whole(st.entries, weigh, k, v);
    InsertIsExact(st, limit, weigh, k, v, unmap);
    hide Step;
    WholeOnContents(st.entries, weigh, k, v);
    assert Bare(s') <= Bare(whole);
    assert k in Keys(s') by {
      assert s'[0].key == k;
    }
    BareLocates(st.entries, k);
    BareLocates(s', k);
    Lru.ContentsAt(b);
    hide Bare, Contents, DistinctKeys, Without, Keys, Whole;
    PrefixContents(Bare(whole), Bare(s'));
    RestrictWritten(Contents(b), k, v, Keys(s'));
  }

  lemma WholeOnContents<K, V>(s: seq<Weighted<K, V>>, weigh: V -> Usize, k: K, v: V)
    requires DistinctKeys(s)
    ensures DistinctKeys(Bare(Whole(s, weigh, k, v)))
    ensures Contents(Bare(Whole(s, weigh, k, v))) == (Contents(Bare(s)) - {k})[k := v]
  {
    var b := Bare(s);
    BareLocates(s, k);
    Lru.WithoutIsClean(b, k);
    assert Bare(Whole(s, weigh, k, v)) == [Entry(k, v)] + Without(b, k);
    hide Bare, Contents, Without;
    assert DistinctKeys([Entry(k, v)] + Without(b, k));
    Lru.ContentsWithout(b, k);
    Lru.ContentsOfFront(Entry(k, v), Without(b, k));
  }

  /** Writing and then restricting is restricting and then writing, for a key that stays. */
  lemma RestrictWritten<K, V>(m: map<K, V>, k: K, v: V, kept: set<K>)
    requires k in kept
    ensures (map x | x in (m - {k})[k := v] && x in kept :: (m - {k})[k := v][x]) == (m - (m.Keys - kept))[k := v]
  {
  }

  // ----- Whole runs

  function Run<K(==), V>(limit: Usize, weigh: V -> Usize, ops: seq<Op<K, V>>, unmap: bool): State<K, V> {
    if ops == [] then State([], {}, 0)
    else Step(Run(limit, weigh, DropLast(ops), unmap), limit, weigh, ops[|ops| - 1], unmap).0
  }

  /** A run in which the key map may lead anywhere: each call comes with the position
      its key leads to. Every run of the code is one of these, with calls that panic
      left out: they change no entry and no weight. */
  function RunAimed<K(==), V>(limit: Usize, weigh: V -> Usize, calls: seq<(Op<K, V>, nat)>, unmap: bool): State<K, V> {
    if calls == [] then State([], {}, 0)
    else
      var (op, at) := calls[|calls| - 1];
      StepAt(RunAimed(limit, weigh, DropLast(calls), unmap), limit, weigh, op, at, unmap).0
  }

  /** The promised weight bound holds after every call of every run, for every limit,
      whatever keys are stale and whatever has saturated. */
  lemma {:induction false} RunStaysBounded<K, V>(
      limit: Usize, weigh: V -> Usize, calls: seq<(Op<K, V>, nat)>, unmap: bool)
    ensures Bounded(RunAimed(limit, weigh, calls, unmap), limit)
  {
    if calls != [] {
      var before, last := DropLast(calls), calls[|calls| - 1];
      RunStaysBounded(limit, weigh, before, unmap);
      StepStaysBounded(RunAimed(limit, weigh, before, unmap), limit, weigh, last.0, last.1, unmap);
    }
  }

  /** Weight conservation over whole runs: as long as adding two in-range weights cannot
      overflow, the total is the true sum, within the limit, whatever keys are stale. */
  lemma {:induction false} RunConserves<K, V>(limit: Usize, weigh: V -> Usize, calls: seq<(Op<K, V>, nat)>, unmap: bool)
    requires 2 * limit <= USIZE_MAX
    ensures Conserved(RunAimed(limit, weigh, calls, unmap), limit)
  {
    if calls != [] {
      var before, last := DropLast(calls), calls[|calls| - 1];
      RunConserves(limit, weigh, before, unmap);
      StepConservesIff(RunAimed(limit, weigh, before, unmap), limit, weigh, last.0, last.1, unmap);
    }
  }

  /** The total is the true sum at every point of the run. */
  ghost predicate ConservedThroughout<K, V>(
      limit: Usize, weigh: V -> Usize, calls: seq<(Op<K, V>, nat)>, unmap: bool)
  {
    && Conserved(RunAimed(limit, weigh, calls, unmap), limit)
    && (calls != [] ==> ConservedThroughout(limit, weigh, DropLast(calls), unmap))
  }

  /** Every call of the run met `KeepsTotal`. */
  ghost predicate AllKeepTotal<K, V>(limit: Usize, weigh: V -> Usize, calls: seq<(Op<K, V>, nat)>, unmap: bool) {
    calls != [] ==>
      && AllKeepTotal(limit, weigh, DropLast(calls), unmap)
      && KeepsTotal(RunAimed(limit, weigh, DropLast(calls), unmap), limit, weigh,
                    calls[|calls| - 1].0, calls[|calls| - 1].1)
  }

  /** For every limit and wherever the key map leads, the total is true throughout a run
      exactly when no call of it lost weight to saturation. */
  lemma {:induction false} RunConservesIff<K, V>(
      limit: Usize, weigh: V -> Usize, calls: seq<(Op<K, V>, nat)>, unmap: bool)
    ensures ConservedThroughout(limit, weigh, calls, unmap) <==> AllKeepTotal(limit, weigh, calls, unmap)
  {
    if calls != [] {
      var before, last := DropLast(calls), calls[|calls| - 1];
      RunConservesIff(limit, weigh, before, unmap);
      if ConservedThroughout(limit, weigh, before, unmap) {
        StepConservesIff(RunAimed(limit, weigh, before, unmap), limit, weigh, last.0, last.1, unmap);
      }
    }
  }

  /** Map and list agree at every point of the run. */
  ghost predicate AgreesThroughout<K, V>(limit: Usize, weigh: V -> Usize, ops: seq<Op<K, V>>, unmap: bool) {
    && Agrees(Run(limit, weigh, ops, unmap))
    && (ops != [] ==> AgreesThroughout(limit, weigh, DropLast(ops), unmap))
  }

  /** Every call of the run met `KeepsMap`. */
  ghost predicate AllKeepMap<K, V>(limit: Usize, weigh: V -> Usize, ops: seq<Op<K, V>>, unmap: bool) {
    ops != [] ==>
      && AllKeepMap(limit, weigh, DropLast(ops), unmap)
      && KeepsMap(Run(limit, weigh, DropLast(ops), unmap), limit, weigh, ops[|ops| - 1], unmap)
  }

  /** For every limit, map and list agree throughout a run exactly when no live update of
      it evicted a key and left it mapped. */
  lemma {:induction false} RunAgreesIff<K, V>(limit: Usize, weigh: V -> Usize, ops: seq<Op<K, V>>, unmap: bool)
    ensures AgreesThroughout(limit, weigh, ops, unmap) <==> AllKeepMap(limit, weigh, ops, unmap)
  {
    if ops != [] {
      RunAgreesIff(limit, weigh, DropLast(ops), unmap);
      if AgreesThroughout(limit, weigh, DropLast(ops), unmap) {
        StepAgreesIff(Run(limit, weigh, DropLast(ops), unmap), limit, weigh, ops[|ops| - 1], unmap);
      }
    }
  }

  /** Map, list and total agree at every point of the run. */
  ghost predicate SoundThroughout<K, V>(limit: Usize, weigh: V -> Usize, ops: seq<Op<K, V>>, unmap: bool) {
    && Sound(Run(limit, weigh, ops, unmap), limit)
    && (ops != [] ==> SoundThroughout(limit, weigh, DropLast(ops), unmap))
  }

  /** Every call of the run met both `KeepsMap` and `KeepsTotal`. */
  ghost predicate AllKeepSound<K, V>(limit: Usize, weigh: V -> Usize, ops: seq<Op<K, V>>, unmap: bool) {
    ops != [] ==>
      var st, op := Run(limit, weigh, DropLast(ops), unmap), ops[|ops| - 1];
      && AllKeepSound(limit, weigh, DropLast(ops), unmap)
      && KeepsMap(st, limit, weigh, op, unmap) && KeepsTotal(st, limit, weigh, op, Spot(st, op))
  }

  /** A run, of the code as written or as intended, is sound throughout exactly when
      every call in it met both conditions. */
  lemma {:induction false} RunSoundIff<K, V>(limit: Usize, weigh: V -> Usize, ops: seq<Op<K, V>>, unmap: bool)
    ensures SoundThroughout(limit, weigh, ops, unmap) <==> AllKeepSound(limit, weigh, ops, unmap)
  {
    if ops != [] {
      RunSoundIff(limit, weigh, DropLast(ops), unmap);
      if SoundThroughout(limit, weigh, DropLast(ops), unmap) {
        StepSoundIff(Run(limit, weigh, DropLast(ops), unmap), limit, weigh, ops[|ops| - 1], unmap);
      }
    }
  }

  /** The intended code, which unmaps every evicted key, keeps map and list in agreement
      in every run, for every limit, and the total true as well as long as adding two
      in-range weights cannot overflow. */
  lemma {:induction false} IntendedRunIsSound<K, V>(limit: Usize, weigh: V -> Usize, ops: seq<Op<K, V>>)
    ensures Agrees(Run(limit, weigh, ops, true))
    ensures 2 * limit <= USIZE_MAX ==> Sound(Run(limit, weigh, ops, true), limit)
  {
    if ops != [] {
      var st, op := Run(limit, weigh, DropLast(ops), true), ops[|ops| - 1];
      IntendedRunIsSound(limit, weigh, DropLast(ops));
      StepAgreesIff(st, limit, weigh, op, true);
      if 2 * limit <= USIZE_MAX {
        StepConservesIff(st, limit, weigh, op, Spot(st, op), true);
      }
    }
  }

  // ----- The policy read off the calls and replies alone

  /** The calls and replies of a run, a rejected insert counting as no call. */
  function Log<K(==), V>(limit: Usize, weigh: V -> Usize, ops: seq<Op<K, V>>, unmap: bool): seq<Call<K, V>> {
    if ops == [] then []
    else
      var before, op := DropLast(ops), ops[|ops| - 1];
      Log(limit, weigh, before, unmap) +
      if Rejected(limit, weigh, op) then []
      else [Call(op, Step(Run(limit, weigh, before, unmap), limit, weigh, op, unmap).1)]
  }

  lemma {:induction false} RunKeepsShape<K, V>(limit: Usize, weigh: V -> Usize, ops: seq<Op<K, V>>, unmap: bool)
    ensures var st := Run(limit, weigh, ops, unmap);
      DistinctKeys(st.entries) && Bounded(st, limit) && Weighs(st.entries, weigh)
  {
    if ops != [] {
      RunKeepsShape(limit, weigh, DropLast(ops), unmap);
      hide DistinctKeys, Bounded, Weighs, Step;
      StepKeepsShape(Run(limit, weigh, DropLast(ops), unmap), limit, weigh, ops[|ops| - 1], unmap);
    }
  }

  /** The list of an accepted insert before eviction, ordered by last access. */
  lemma WholeIsChronological<K, V>(
      s: seq<Weighted<K, V>>, weigh: V -> Usize, k: K, v: V, log: seq<Call<K, V>>, reply: Reply<V>)
    requires DistinctKeys(s) && Lru.Chronological(Bare(s), log)
    ensures Lru.Chronological(Bare(Whole(s, weigh, k, v)), log + [Call(Insert(k, v), reply)])
  {
    var c, b := Call(Insert(k, v), reply), Bare(s);
    BareLocates(s, k);
    Lru.ChronologicalRest(b, log, c, k);
    ExtendLog(log, c, k);
    Lru.WithoutIsClean(b, k);
    Lru.ChronologicalFront(Entry(k, v), Without(b, k), log, c);
    assert Bare(Whole(s, weigh, k, v)) == [Entry(k, v)] + Without(b, k);
  }

  lemma InsertIsChronological<K, V>(
      st: State<K, V>, limit: Usize, weigh: V -> Usize, k: K, v: V, unmap: bool, log: seq<Call<K, V>>, reply: Reply<V>)
    requires DistinctKeys(st.entries) && Bounded(st, limit) && weigh(v) <= limit
    requires Lru.Chronological(Bare(st.entries), log)
    ensures Lru.Chronological(Bare(Step(st, limit, weigh, Insert(k, v), unmap).0.entries),
                              log + [Call(Insert(k, v), reply)])
  {
    hide DistinctKeys, Bounded, KeepsTotal, Without, Step, Whole, Lru.Chronological;
    InsertIsExact(st, limit, weigh, k, v, unmap);
    WholeIsChronological(st.entries, weigh, k, v, log, reply);
    var s' := Step(st, limit, weigh, Insert(k, v), unmap).0.entries;
    assert Bare(s') <= Bare(Whole(st.entries, weigh, k, v));
    Lru.ChronologicalPrefix(Bare(Whole(st.entries, weigh, k, v)), Bare(s'), log + [Call(Insert(k, v), reply)]);
  }

  lemma StepIsChronological<K, V>(
      st: State<K, V>, limit: Usize, weigh: V -> Usize, op: Op<K, V>, unmap: bool, log: seq<Call<K, V>>)
    requires DistinctKeys(st.entries) && Bounded(st, limit) && !Rejected(limit, weigh, op)
    requires Lru.Chronological(Bare(st.entries), log)
    ensures var (st', reply) := Step(st, limit, weigh, op, unmap);
      Lru.Chronological(Bare(st'.entries), log + [Call(op, reply)])
  {
    hide Step, Bare, Bounded, Lru.Chronological, Lru.Step;
    if op.Insert? {
      InsertIsChronological(st, limit, weigh, op.key, op.value, unmap, log, Step(st, limit, weigh, op, unmap).1);
    } else {
      AccessIsLru(st, limit, weigh, op, unmap, 1);
      BareDistinct(st.entries);
      if op.ContainsKey? {
        ChronologicalUnasked(Bare(st.entries), log, op, Step(st, limit, weigh, op, unmap).1);
      } else {
        Lru.ChronologicalStep(Bare(st.entries), 1, log, op);
      }
    }
  }

  lemma BareDistinct<K, V>(s: seq<Weighted<K, V>>)
    requires DistinctKeys(s)
    ensures DistinctKeys(Bare(s))
  {
  }

  /** Asking for a key is no access, whatever the answer. */
  lemma ChronologicalUnasked<K, V>(s: seq<Entry<K, V>>, log: seq<Call<K, V>>, op: Op<K, V>, reply: Reply<V>)
    requires Lru.Chronological(s, log) && op.ContainsKey?
    ensures Lru.Chronological(s, log + [Call(op, reply)])
  {
    forall x {
      ExtendLog(log, Call(op, reply), x);
    }
  }

  /** In every run the list is ordered by last access and holds, for each key, the value
      most recently inserted, with its weight; a rejected insert is neither. */
  lemma {:induction false} RunIsChronological<K, V>(limit: Usize, weigh: V -> Usize, ops: seq<Op<K, V>>, unmap: bool)
    ensures var s := Run(limit, weigh, ops, unmap).entries;
      Lru.Chronological(Bare(s), Log(limit, weigh, ops, unmap)) && Weighs(s, weigh)
  {
    RunKeepsShape(limit, weigh, ops, unmap);
    if ops != [] {
      var before, op := DropLast(ops), ops[|ops| - 1];
      RunIsChronological(limit, weigh, before, unmap);
      RunKeepsShape(limit, weigh, before, unmap);
      var st := Run(limit, weigh, before, unmap);
      if Rejected(limit, weigh, op) {
        assert Log(limit, weigh, ops, unmap) == Log(limit, weigh, before, unmap);
      } else {
        StepIsChronological(st, limit, weigh, op, unmap, Log(limit, weigh, before, unmap));
      }
    }
  }

  /** After any run, every key an insert evicts was accessed before every other held key
      that it keeps. */
  lemma {:induction false} InsertEvictsLeastRecent<K, V>(
      limit: Usize, weigh: V -> Usize, ops: seq<Op<K, V>>, unmap: bool, k: K, v: V, x: K, y: K)
    requires var s, s' := Run(limit, weigh, ops, unmap).entries, Run(limit, weigh, ops + [Insert(k, v)], unmap).entries;
      && x in Keys(s) && x !in Keys(s')
      && y in Keys(s) && y in Keys(s') && y != k
    ensures x != k
    ensures var log := Log(limit, weigh, ops, unmap); LastAccess(log, x) < LastAccess(log, y)
  {
    var st, log := Run(limit, weigh, ops, unmap), Log(limit, weigh, ops, unmap);
    RunKeepsShape(limit, weigh, ops, unmap);
    RunIsChronological(limit, weigh, ops, unmap);
    RunSnoc(limit, weigh, ops, Insert(k, v), unmap);
    hide Run, Log;
    InsertIsExact(st, limit, weigh, k, v, unmap);
    EvictionOrder(st.entries, Step(st, limit, weigh, Insert(k, v), unmap).0.entries, weigh, k, v, log, x, y);
  }

  lemma EvictionOrder<K, V>(
      s: seq<Weighted<K, V>>, kept: seq<Weighted<K, V>>, weigh: V -> Usize, k: K, v: V,
      log: seq<Call<K, V>>, x: K, y: K)
    requires DistinctKeys(s) && Lru.Chronological(Bare(s), log)
    requires kept != [] && kept <= Whole(s, weigh, k, v)
    requires x in Keys(s) && x !in Keys(kept) && y in Keys(kept) && y != k
    ensures x != k && LastAccess(log, x) < LastAccess(log, y)
  {
    assert kept[0].key == k;
    var whole, c := Whole(s, weigh, k, v), Call(Insert(k, v), Found(None));
    WholeIsChronological(s, weigh, k, v, log, Found(None));
    assert x in Keys(whole) by {
      Lru.WithoutIsClean(s, k);
      Lru.KeysOfCons(whole[0], Without(s, k));
    }
    assert Bare(kept) <= Bare(whole);
    BareLocates(whole, k);
    BareLocates(kept, k);
    hide Bare, Whole, Keys, DistinctKeys, Lru.Chronological, LastAccess;
    Lru.DroppedIsOlder(Bare(whole), Bare(kept), log + [c], x, y);
    ExtendLog(log, c, x);
    ExtendLog(log, c, y);
  }

  // ----- Where the code as written goes wrong

  function Itself(w: Usize): Usize { w }

  lemma RunSnoc<K, V>(limit: Usize, weigh: V -> Usize, ops: seq<Op<K, V>>, op: Op<K, V>, unmap: bool)
    ensures Run(limit, weigh, ops + [op], unmap) == Step(Run(limit, weigh, ops, unmap), limit, weigh, op, unmap).0
  {
  }

  /** Insert a (5), insert b (5), replace b with weight 10, under limit 10: `a` is
      evicted from the list and still mapped. */
  lemma DanglingRun(a: int, b: int)
    requires a != b
    ensures var st := Run(10, Itself, [Op.Insert(a, 5), Op.Insert(b, 5)] + [Op.Insert(b, 10)], false);
      && st.entries == [Entry(b, Weighed(10, 10))]
      && st.mapped == {a, b} && st.total == 10
      && !Agrees(st)
  {
    var o1: Op<int, Usize>, o2: Op<int, Usize> := Insert(a, 5), Insert(b, 5);
    var ea: Weighted<int, Usize>, eb: Weighted<int, Usize> := Entry(a, Weighed(5, 5)), Entry(b, Weighed(5, 5));
    var s1 := Run(10, Itself, [o1], false);
    RunSnoc(10, Itself, [], o1, false);
    assert s1 == State([ea], {a}, 5);
    var s2 := Run(10, Itself, [o1, o2], false);
    assert [o1] + [o2] == [o1, o2];
    assert s2.mapped == {a, b} && s2.total == 10;
    var moved := ToFront(s2.entries, 0, Weighed(10, 10));
    assert Fit(moved, 15, 0, 10) == ([moved[0]], 10);
  }

  /** With the limit at the top of the integer range, a live update whose total
      saturates loses weight: the total reads 0 while the entry weighs the maximum. */
  lemma SaturatingUpdateLosesWeight(a: int)
    ensures var st := Run<int, Usize>(USIZE_MAX, Itself, [Op.Insert(a, USIZE_MAX)] + [Op.Insert(a, USIZE_MAX)], false);
      st.entries == [Entry(a, Weighed(USIZE_MAX, USIZE_MAX))] && st.total == 0
  {
    var o: Op<int, Usize> := Insert(a, USIZE_MAX);
    var e: Weighted<int, Usize> := Entry(a, Weighed(USIZE_MAX, USIZE_MAX));
    RunSnoc(USIZE_MAX, Itself, [], o, false);
    var s1 := Run(USIZE_MAX, Itself, [o], false);
    assert s1 == State([e], {a}, USIZE_MAX);
  }

  /** So does a new entry whose projected total saturates: nothing is evicted for it, and
      two entries of the maximum weight are held under a total that reads it once. */
  lemma SaturatingInsertLosesWeight(a: int, b: int)
    requires a != b
    ensures var st := Run<int, Usize>(USIZE_MAX, Itself, [Op.Insert(a, USIZE_MAX)] + [Op.Insert(b, USIZE_MAX)], false);
      && st.entries == [Entry(b, Weighed(USIZE_MAX, USIZE_MAX)), Entry(a, Weighed(USIZE_MAX, USIZE_MAX))]
      && st.total == USIZE_MAX && Sum(st.entries) == 2 * USIZE_MAX
  {
    var e: Weighted<int, Usize> := Entry(a, Weighed(USIZE_MAX, USIZE_MAX));
    var f: Weighted<int, Usize> := Entry(b, Weighed(USIZE_MAX, USIZE_MAX));
    RunSnoc(USIZE_MAX, Itself, [], Op.Insert(a, USIZE_MAX as Usize), false);
    assert Run(USIZE_MAX, Itself, [Op.Insert(a, USIZE_MAX as Usize)], false) == State([e], {a}, USIZE_MAX);
    SumPrepend(f, [e]);
    assert [f] + [e] == [f, e];
  }

  /** Lost weight can come back with the entry that lost it: after replacing a with its own
      weight the total reads 1, a new entry evicts a, and the total is true again. */
  lemma LaterInsertRestoresTotal(a: int, b: int)
    requires a != b
    ensures var m: Usize := USIZE_MAX - 1; var twice := [Op.Insert(a, m)] + [Op.Insert(a, m)];
      && Run(m, Itself, twice, false).total == 1 < Sum(Run(m, Itself, twice, false).entries)
      && Conserved(Run(m, Itself, twice + [Op.Insert(b, m)], false), m)
  {
    var m: Usize := USIZE_MAX - 1;
    var add: Op<int, Usize>, e: Weighted<int, Usize> := Op.Insert(a, m), Entry(a, Weighed(m, m));
    RunSnoc(m, Itself, [], add, false);
    assert Run(m, Itself, [add], false) == State([e], {a}, m);
    var twice := Run(m, Itself, [add] + [add], false);
    assert twice == State([e], {a}, 1);
    SumPrepend(e, []);
    RunSnoc(m, Itself, [add] + [add], Op.Insert(b, m), false);
    assert DropLast([e]) == [];
    assert Fit([e], 1, m, m) == ([], 0);
    var f: Weighted<int, Usize> := Entry(b, Weighed(m, m));
    assert Run(m, Itself, [add] + [add] + [Op.Insert(b, m)], false).entries == [f] + [];
    SumPrepend(f, []);
  }
}

/** The weight-bound store itself: `Inner` of src/sized.rs, driven under its lock,
    exactly as written there, with the intended insert beside it. Stale keys are part
    of its reachable states: a call may run into `unreachable!` and panic, and the
    next one goes on from what it left. */
module SizedStore {
  import opened Machine
  import opened Recency
  import opened CacheApi
  import opened LinkedArena
  import opened SizedPolicy

  /** What following the key map for a key runs into. */
  datatype Lookup<+V> = Absent | Holds(value: V) | Unreachable {
    /** The value reached, if any. */
    function Value(): Option<V> {
      if Holds? then Some(value) else None
    }
  }

  /** How a call ends. */
  datatype Outcome<+V> = Returned(value: Option<V>) | Panicked

  class Store<K(==), V> {
    const maxWeight: Usize
    const weigher: V -> Usize
    const arena: Arena<K, Weighed<V>>
    var totalWeight: Usize

    /** What holds after every call, stale keys, saturation and panics included. */
    ghost predicate Running()
      reads this, arena
    {
      arena.Usable() && Bounded(State(), maxWeight)
    }

    /** The consistent states: list, map and total agree within the limit. */
    ghost predicate Valid()
      reads this, arena
    {
      arena.Valid() && Conserved(State(), maxWeight)
    }

    /** The policy state this store stands for. */
    ghost function State(): State<K, V>
      requires arena.ListValid()
      reads this, arena
    {
      SizedPolicy.State.State(arena.Entries(), arena.index.Keys, totalWeight)
    }

    /** Where in the list the key map leads `key`; past its end when it leads nowhere. */
    ghost function Where(key: K): (i: nat)
      requires arena.Usable()
      reads this, arena
      ensures i <= |arena.Entries()|
    {
      if key in arena.index && arena.index[key] in arena.order then PositionIn(arena.order, arena.index[key])
      else |arena.order|
    }

    lemma ValidAgrees()
      requires arena.Valid()
      ensures arena.Usable() && arena.HalfValid() && Agrees(State())
    {
      IndexCounts(arena.nodes, arena.order, arena.index);
      arena.MappedIffListed();
    }

    lemma AgreesIsValid()
      requires arena.HalfValid()
      ensures arena.Valid() <==> Agrees(State())
    {
      if arena.Valid() {
        ValidAgrees();
      }
      if Agrees(State()) {
        arena.HalfIndexedIsFull();
      }
    }

    /** Where map and list agree, the map leads each key to where the list holds it. */
    lemma ValidLeadsHome(key: K)
      requires arena.Valid()
      ensures arena.Usable() && Follow(key) != Unreachable && Where(key) == Locate(arena.Entries(), key)
    {
      arena.MappedIffListed();
      if key in arena.index {
        arena.PositionOf(key);
      }
    }

    /** The outcome of following the key map for `key`. */
    function Follow(key: K): Lookup<V>
      reads this, arena
    {
      if key !in arena.index then Absent
      else if arena.index[key] < |arena.nodes| && arena.nodes[arena.index[key]].Some? then
        Holds(arena.nodes[arena.index[key]].value.value.value)
      else Unreachable
    }

    /** Following the key map reaches the value at the position it leads to. */
    lemma FollowIsWhere(key: K)
      requires arena.Usable()
      ensures Follow(key) ==
              if key !in arena.index then Absent
              else if Where(key) < |arena.Entries()| then Holds(arena.Entries()[Where(key)].value.value)
              else Unreachable
    {
      if Follow(key).Holds? {
        arena.OccupiedIsListed(arena.index[key]);
      }
    }

    /** A key left mapped without a node leads lookups to an empty slot. */
    lemma StaleKeysAreUnreachable()
      requires arena.HalfValid()
      ensures forall k :: k in arena.index && k !in Keys(arena.Entries()) ==> Follow(k) == Unreachable
    {
      arena.StaleSlotsAreFree();
    }

    constructor (maxWeight: Usize, weigher: V -> Usize)
      ensures Valid() && fresh(arena) && this.maxWeight == maxWeight && this.weigher == weigher
      ensures State() == SizedPolicy.State.State([], {}, 0) && arena.peak == 0
    {
      this.maxWeight, this.weigher := maxWeight, weigher;
      arena := new Arena();
      totalWeight := 0;
    }

    /** From any reachable store, panics before changing anything if the key map leads to
        an empty slot, and else acts and answers as the policy does at the position it
        leads to, keeping a true total true. */
    method Get(key: K) returns (outcome: Outcome<V>)
      requires Running()
      modifies arena
      ensures Running() && arena.peak == old(arena.peak)
      ensures outcome == Panicked <==> old(Follow(key)) == Unreachable
      ensures outcome == Panicked ==> unchanged(arena)
      ensures outcome.Returned? ==>
        (State(), Reply.Found(outcome.value))
        == StepAt(old(State()), maxWeight, weigher, Op.Get(key), old(Where(key)), false)
      ensures outcome.Returned? ==> outcome.value == old(Follow(key)).Value()
      ensures old(Conserved(State(), maxWeight)) ==> Conserved(State(), maxWeight)
      ensures old(arena.Valid()) ==> arena.Valid() && outcome.Returned?
    {
      hide Shaped, Distinct, DistinctKeys, Indexed, HalfIndexed, Owned, Keys;
      AccessFacts(Op.Get(key));
      hide Bounded, Conserved;
      if key !in arena.index {
        return Returned(None);
      }
      if Follow(key) == Unreachable {
        return Panicked;
      }
      var v := arena.Touch(key);
      outcome := Returned(Some(v.value));
    }

    /** What the policy says of a get or remove on this store. */
    lemma AccessFacts(op: Op<K, V>)
      requires Running() && (op.Get? || op.Remove?)
      ensures var st, at := State(), Where(op.key);
        var st' := StepAt(st, maxWeight, weigher, op, at, false).0;
        && Bounded(st', maxWeight)
        && (Conserved(st, maxWeight) ==> Conserved(st', maxWeight))
      ensures op.key in arena.index ==> (Follow(op.key) != Unreachable <==> Where(op.key) < |arena.Entries()|)
      ensures arena.Valid() ==> Follow(op.key) != Unreachable
    {
      hide Shaped, Distinct, DistinctKeys, Indexed, HalfIndexed, Owned, Keys;
      FollowIsWhere(op.key);
      StepStaysBounded(State(), maxWeight, weigher, op, Where(op.key), false);
      if Conserved(State(), maxWeight) {
        StepConservesIff(State(), maxWeight, weigher, op, Where(op.key), false);
      }
      if arena.Valid() {
        ValidLeadsHome(op.key);
      }
    }

    /** Drops the least recently used entry and its weight; the key stays mapped. */
    method EvictTail() returns (evicted: Option<K>)
      requires arena.Usable()
      modifies this, arena
      ensures arena.Usable() && arena.index == old(arena.index) && arena.peak == old(arena.peak)
      ensures old(arena.Entries()) == [] ==>
        evicted == None && arena.Entries() == [] && totalWeight == old(totalWeight)
      ensures old(arena.Entries()) != [] ==> var s := old(arena.Entries());
        && evicted == Some(s[|s| - 1].key) && arena.Entries() == DropLast(s)
        && totalWeight == SatSub(old(totalWeight), s[|s| - 1].value.weight)
      ensures evicted.Some? ==> Owned(arena.nodes, arena.order, arena.index - {evicted.value})
      ensures old(arena.Valid()) && evicted.Some? ==>
        Indexed(arena.nodes, arena.order, arena.index - {evicted.value})
      ensures old(arena.HalfValid()) ==> arena.HalfValid()
    {
      var tail := arena.PopTail();
      if tail == None {
        return None;
      }
      totalWeight := SatSub(totalWeight, tail.value.value.weight);
      evicted := Some(tail.value.key);
    }

    /** The loop of the live-update branch as written: evicted keys stay mapped. The
        updated entry stays in front, so the loop never runs out of entries. */
    method EvictOvershoot()
      requires arena.Usable() && arena.Entries() != []
      requires totalWeight <= maxWeight + Sum(arena.Entries()[1..])
      modifies this, arena
      ensures arena.Usable() && arena.index == old(arena.index) && arena.peak == old(arena.peak)
      ensures (arena.Entries(), totalWeight) == Fit(old(arena.Entries()), old(totalWeight), 0, maxWeight)
      ensures old(arena.HalfValid()) ==> arena.HalfValid()
    {
      hide Shaped, DistinctKeys, Indexed, HalfIndexed, Owned;
      while totalWeight > maxWeight
        invariant arena.Usable() && arena.index == old(arena.index) && arena.peak == old(arena.peak)
        invariant Fit(arena.Entries(), totalWeight, 0, maxWeight)
               == Fit(old(arena.Entries()), old(totalWeight), 0, maxWeight)
        invariant arena.Entries() != [] && totalWeight <= maxWeight + Sum(arena.Entries()[1..])
        invariant old(arena.HalfValid()) ==> arena.HalfValid()
        decreases |arena.Entries()|
      {
        ghost var s := arena.Entries();
        var evicted := EvictTail();
        if evicted == None {
          assert false;
          break;
        }
        assert DropLast(s)[1..] == DropLast(s[1..]);
      }
    }

    /** The live-update branch. */
    method UpdateLive(key: K, value: V, weight: Usize) returns (was: V)
      requires Running() && Where(key) < |arena.Entries()| && weight <= maxWeight
      modifies this, arena
      ensures arena.Usable() && arena.index == old(arena.index) && arena.peak == old(arena.peak)
      ensures was == old(arena.Entries()[Where(key)].value.value)
      ensures State() == Update(old(State()), maxWeight, old(Where(key)), Weighed(value, weight), false)
      ensures old(arena.HalfValid()) ==> arena.HalfValid()
    {
      hide Shaped, Distinct, DistinctKeys, Indexed, HalfIndexed, Owned, Keys;
      ghost var s, i := arena.Entries(), Where(key);
      SumRemoveAt(s, i);
      var before := arena.Replace(key, Weighed(value, weight));
      was := before.value;
      totalWeight := SatSub(SatAdd(totalWeight, weight), before.weight);
      assert arena.Entries()[1..] == RemoveAt(s, i);
      EvictOvershoot();
    }

    /** The live-update branch as intended: its loop unmaps what it evicts. */
    method UpdateIntended(key: K, value: V, weight: Usize) returns (was: V)
      requires Running() && Where(key) < |arena.Entries()| && weight <= maxWeight
      modifies this, arena
      ensures arena.Usable() && arena.peak == old(arena.peak)
      ensures was == old(arena.Entries()[Where(key)].value.value)
      ensures State() == Update(old(State()), maxWeight, old(Where(key)), Weighed(value, weight), true)
      ensures old(arena.Valid()) ==> arena.Valid()
    {
      hide Shaped, Distinct, DistinctKeys, Indexed, HalfIndexed, Owned, Keys;
      ToFrontSum(arena.Entries(), Where(key), Weighed(value, weight));
      var before := arena.Replace(key, Weighed(value, weight));
      was := before.value;
      totalWeight := SatSub(SatAdd(totalWeight, weight), before.weight);
      EvictFor(0);
    }

    /** The loop of the new-entry branch: evict and unmap until the entry fits. The list
        never runs out first. */
    method EvictFor(weight: Usize)
      requires arena.Usable() && totalWeight <= Sum(arena.Entries()) && weight <= maxWeight
      modifies this, arena
      ensures arena.Usable() && arena.peak == old(arena.peak)
      ensures (arena.Entries(), totalWeight) == Fit(old(arena.Entries()), old(totalWeight), weight, maxWeight)
      ensures arena.index.Keys == old(arena.index.Keys) - Keys(old(arena.Entries())[|arena.Entries()|..])
      ensures old(arena.Valid()) ==> arena.Valid()
      ensures SatAdd(old(totalWeight), weight) <= maxWeight ==> unchanged(this) && unchanged(arena)
    {
      hide Shaped, Distinct, DistinctKeys, Indexed, HalfIndexed, Owned, Keys;
      ghost var all := arena.Entries();
      SuffixKeys(all, |all|);
      while SatAdd(totalWeight, weight) > maxWeight
        invariant arena.Usable() && arena.peak == old(arena.peak)
        invariant Fit(arena.Entries(), totalWeight, weight, maxWeight) == Fit(all, old(totalWeight), weight, maxWeight)
        invariant arena.Entries() <= all && totalWeight <= Sum(arena.Entries())
        invariant arena.index.Keys == old(arena.index.Keys) - Keys(all[|arena.Entries()|..])
        invariant old(arena.Valid()) ==> arena.Valid()
        invariant SatAdd(old(totalWeight), weight) <= maxWeight ==> unchanged(this) && unchanged(arena)
        decreases |arena.Entries()|
      {
        ghost var n := |arena.Entries()| - 1;
        var evicted := EvictTail();
        if evicted == None {
          assert false;
          break;
        }
        SuffixKeys(all, n);
        arena.index := arena.index - {evicted.value};
      }
    }

    /** The rest of the new-entry branch: store the entry at the front and map it. */
    method StoreNew(key: K, value: V, weight: Usize)
      requires arena.Usable() && key !in arena.index
      modifies this, arena
      ensures arena.Usable() && (old(arena.Valid()) ==> arena.Valid())
      ensures arena.Entries() == [Entry(key, Weighed(value, weight))] + old(arena.Entries())
      ensures totalWeight == SatAdd(old(totalWeight), weight)
      ensures key in arena.index && arena.index == old(arena.index)[key := arena.index[key]]
      ensures Follow(key) == Holds(value) && arena.peak == Max(old(arena.peak), |arena.Entries()|)
      ensures old(arena.free) != [] ==> arena.index[key] == old(arena.free)[|old(arena.free)| - 1]
    {
      arena.Prepend(key, Weighed(value, weight));
      totalWeight := SatAdd(totalWeight, weight);
    }

    /** The new-entry branch. When nothing has to go, the entry takes the slot freed last. */
    method InsertNew(key: K, value: V, weight: Usize)
      requires Running() && key !in arena.index && weight <= maxWeight
      modifies this, arena
      ensures arena.Usable() && arena.peak == Max(old(arena.peak), |arena.Entries()|)
      ensures State() == Admit(old(State()), maxWeight, key, Weighed(value, weight))
      ensures old(arena.Valid()) ==> arena.Valid()
      ensures SatAdd(old(totalWeight), weight) <= maxWeight ==>
        && Follow(key) == Holds(value) && arena.index == old(arena.index)[key := arena.index[key]]
        && (old(arena.free) != [] ==> arena.index[key] == old(arena.free)[|old(arena.free)| - 1])
    {
      hide Shaped, DistinctKeys, Indexed, HalfIndexed, Owned, Keys;
      EvictFor(weight);
      StoreNew(key, value, weight);
    }

    /** `insert` as written. From any reachable store, panics before changing anything if
        it has to follow the key map to an empty slot, and else acts and answers as the
        policy does at the position the map leads to. */
    method Insert(key: K, value: V) returns (outcome: Outcome<V>)
      requires Running()
      modifies this, arena
      ensures Running() && arena.peak == Max(old(arena.peak), |arena.Entries()|)
      ensures outcome == Panicked <==> weigher(value) <= maxWeight && old(Follow(key)) == Unreachable
      ensures outcome == Panicked ==> unchanged(this) && unchanged(arena)
      ensures outcome.Returned? ==>
        (State(), Reply.Found(outcome.value))
        == StepAt(old(State()), maxWeight, weigher, Op.Insert(key, value), old(Where(key)), false)
      ensures outcome.Returned? ==>
        outcome.value == if weigher(value) <= maxWeight then old(Follow(key)).Value() else None
      ensures outcome.Returned? && old(Conserved(State(), maxWeight)) ==>
        (Conserved(State(), maxWeight) <==>
         KeepsTotal(old(State()), maxWeight, weigher, Op.Insert(key, value), old(Where(key))))
      ensures old(arena.Valid()) ==>
        && (arena.Valid() <==> KeepsMap(old(State()), maxWeight, weigher, Op.Insert(key, value), false))
        && arena.HalfValid() && outcome.Returned?
      ensures key !in old(arena.index) && SatAdd(old(totalWeight), weigher(value)) <= maxWeight ==>
        && Follow(key) == Holds(value) && arena.index == old(arena.index)[key := arena.index[key]]
        && (old(arena.free) != [] ==> arena.index[key] == old(arena.free)[|old(arena.free)| - 1])
    {
      hide Shaped, DistinctKeys, Indexed, HalfIndexed, Owned, Keys, Fit, KeepsMap, KeepsTotal;
      InsertFacts(key, value, false);
      hide Bounded, Conserved, Agrees;
      var weight := weigher(value);
      if weight > maxWeight {
        return Returned(None);
      }
      if key in arena.index {
        if Follow(key) == Unreachable {
          return Panicked;
        }
        var was := UpdateLive(key, value, weight);
        outcome := Returned(Some(was));
      } else {
        InsertNew(key, value, weight);
        if old(arena.Valid()) {
          arena.FullIsHalfIndexed();
        }
        outcome := Returned(None);
      }
      if old(arena.Valid()) {
        AgreesIsValid();
      }
    }

    /** `insert` as intended: every evicted key is unmapped. Whatever the limit, map, slots
        and list stay in agreement: each mapped key leads to a slot holding that key and
        each listed node is mapped. The whole store stays consistent as long as adding two
        in-range weights cannot overflow. */
    method InsertIntended(key: K, value: V) returns (outcome: Outcome<V>)
      requires Running()
      modifies this, arena
      ensures Running() && arena.peak == Max(old(arena.peak), |arena.Entries()|)
      ensures outcome == Panicked <==> weigher(value) <= maxWeight && old(Follow(key)) == Unreachable
      ensures outcome == Panicked ==> unchanged(this) && unchanged(arena)
      ensures outcome.Returned? ==>
        (State(), Reply.Found(outcome.value))
        == StepAt(old(State()), maxWeight, weigher, Op.Insert(key, value), old(Where(key)), true)
      ensures outcome.Returned? ==>
        outcome.value == if weigher(value) <= maxWeight then old(Follow(key)).Value() else None
      ensures outcome.Returned? && old(Conserved(State(), maxWeight)) ==>
        (Conserved(State(), maxWeight) <==>
         KeepsTotal(old(State()), maxWeight, weigher, Op.Insert(key, value), old(Where(key))))
      ensures old(arena.Valid()) ==> arena.Valid() && outcome.Returned?
      ensures old(Valid()) && 2 * maxWeight <= USIZE_MAX ==> Valid()
    {
      hide Shaped, DistinctKeys, Indexed, HalfIndexed, Owned, Keys, Fit;
      InsertFacts(key, value, true);
      hide Bounded, Conserved, KeepsTotal;
      var weight := weigher(value);
      if weight > maxWeight {
        return Returned(None);
      }
      if key in arena.index {
        if Follow(key) == Unreachable {
          return Panicked;
        }
        var was := UpdateIntended(key, value, weight);
        outcome := Returned(Some(was));
      } else {
        InsertNew(key, value, weight);
        outcome := Returned(None);
      }
    }

    /** What the policy says of an insert into this store. */
    lemma InsertFacts(key: K, value: V, unmap: bool)
      requires Running()
      ensures var st, op, at := State(), Op.Insert(key, value), Where(key);
        var st' := StepAt(st, maxWeight, weigher, op, at, unmap).0;
        && Bounded(st', maxWeight)
        && (Conserved(st, maxWeight) ==>
              && (Conserved(st', maxWeight) <==> KeepsTotal(st, maxWeight, weigher, op, at))
              && (2 * maxWeight <= USIZE_MAX ==> KeepsTotal(st, maxWeight, weigher, op, at)))
        && (arena.Valid() ==>
              && arena.HalfValid() && Agrees(st) && Follow(key) != Unreachable
              && (Agrees(st') <==> KeepsMap(st, maxWeight, weigher, op, unmap)))
      ensures key in arena.index ==> (Follow(key) != Unreachable <==> Where(key) < |arena.Entries()|)
    {
      hide Shaped, DistinctKeys, Indexed, HalfIndexed, Owned, Keys, Fit;
      FollowIsWhere(key);
      StepStaysBounded(State(), maxWeight, weigher, Op.Insert(key, value), Where(key), unmap);
      if Conserved(State(), maxWeight) {
        StepConservesIff(State(), maxWeight, weigher, Op.Insert(key, value), Where(key), unmap);
      }
      if arena.Valid() {
        ValidAgrees();
        ValidLeadsHome(key);
        StepAgreesIff(State(), maxWeight, weigher, Op.Insert(key, value), unmap);
      }
    }

    /** From any reachable store, acts and answers as the policy does at the position the
        key map leads to, keeping a true total true. When that is an empty slot it panics,
        having unmapped the key and changed nothing else. */
    method Remove(key: K) returns (outcome: Outcome<V>)
      requires Running()
      modifies this, arena
      ensures Running() && arena.peak == old(arena.peak)
      ensures outcome == Panicked <==> old(Follow(key)) == Unreachable
      ensures outcome == Panicked ==> State() == old(State()).(mapped := old(State()).mapped - {key})
      ensures outcome.Returned? ==>
        (State(), Reply.Found(outcome.value))
        == StepAt(old(State()), maxWeight, weigher, Op.Remove(key), old(Where(key)), false)
      ensures outcome.Returned? ==> outcome.value == old(Follow(key)).Value()
      ensures old(Conserved(State(), maxWeight)) ==> Conserved(State(), maxWeight)
      ensures old(arena.Valid()) ==> arena.Valid() && outcome.Returned?
    {
      hide Shaped, Distinct, DistinctKeys, Indexed, HalfIndexed, Owned, Keys;
      AccessFacts(Op.Remove(key));
      hide Sum;
      if key !in arena.index {
        return Returned(None);
      }
      if Follow(key) == Unreachable {
        // The key is unmapped before its slot is looked at.
        arena.UnmapStale(key);
        arena.index := arena.index - {key};
        return Panicked;
      }
      var v := arena.Delete(key);
      totalWeight := SatSub(totalWeight, v.weight);
      outcome := Returned(Some(v.value));
    }

    method ContainsKey(key: K) returns (present: bool)
      ensures present <==> key in arena.index
      ensures Valid() ==> (present <==> key in Keys(arena.Entries()))
    {
      if Valid() {
        arena.MappedIffListed();
      }
      present := key in arena.index;
    }

    /** The number of mapped keys, which is the number of entries in a consistent store. */
    method Len() returns (n: nat)
      ensures n == |arena.index| && (Valid() ==> n == |arena.Entries()|)
    {
      if Valid() {
        arena.MappedIffListed();
      }
      n := |arena.index|;
    }

    /** The reported total never exceeds the limit or the true sum of the entry weights. */
    method TotalWeight() returns (w: Usize)
      requires Running()
      ensures w == totalWeight <= maxWeight && w <= Sum(arena.Entries())
      ensures Conserved(State(), maxWeight) ==> w == Sum(arena.Entries())
    {
      w := totalWeight;
    }

    /** Whatever the store was left in, it is consistent again after a clear. */
    method Clear()
      modifies this, arena
      ensures Valid() && Running() && arena.peak == 0
      ensures State() == SizedPolicy.State.State([], {}, 0)
    {
      arena.Clear();
      totalWeight := 0;
    }

    /** Slot conservation: live entries and free slots fill the arena, whose length is
        the most entries held at once since construction or the last clear. */
    lemma ArenaAccounted()
      requires Running()
      ensures |arena.nodes| == |arena.Entries()| + |arena.free| == arena.peak
    {
      arena.FreeSlots();
    }
  }

  /** The run of `DanglingRun` on the store itself. */
  method DanglingStore(a: int, b: int) returns (store: Store<int, Usize>)
    requires a != b
    ensures fresh(store) && fresh(store.arena) && store.arena.HalfValid() && !store.arena.Valid()
    ensures store.State() == State([Entry(b, Weighed(10, 10))], {a, b}, 10)
    ensures store.maxWeight == 10 && store.weigher == Itself
    ensures store.Running() && store.arena.peak <= 2
  {
    hide Shaped, DistinctKeys, Indexed, HalfIndexed, Owned;
    store := new Store<int, Usize>(10, Itself);
    store.ValidAgrees();
    store.ValidLeadsHome(a);
    var none := store.Insert(a, 5);
    assert store.State() == Run(10, Itself, [Op.Insert(a, 5)], false) by {
      RunSnoc(10, Itself, [], Op.Insert(a, 5 as Usize), false);
      assert [] + [Op.Insert(a, 5 as Usize)] == [Op.Insert(a, 5)];
    }
    store.ValidAgrees();
    store.ValidLeadsHome(b);
    none := store.Insert(b, 5);
    assert store.State() == Run(10, Itself, [Op.Insert(a, 5), Op.Insert(b, 5)], false) by {
      RunSnoc(10, Itself, [Op.Insert(a, 5 as Usize)], Op.Insert(b, 5), false);
      assert [Op.Insert(a, 5 as Usize)] + [Op.Insert(b, 5)] == [Op.Insert(a, 5), Op.Insert(b, 5)];
    }
    store.ValidAgrees();
    store.ValidLeadsHome(b);
    var replaced := store.Insert(b, 10);
    RunSnoc(10, Itself, [Op.Insert(a, 5), Op.Insert(b, 5)], Op.Insert(b, 10 as Usize), false);
    DanglingRun(a, b);
    store.AgreesIsValid();
  }

  /** In that store, getting a panics on an empty slot; once the next new entry has taken
      that slot over, getting a answers with the value of another key. */
  method StaleLookup(a: int, b: int, c: int) returns (before: Outcome<Usize>, after: Outcome<Usize>)
    requires a != b && a != c && b != c
    ensures before == Panicked
    ensures after == Returned(Some(0))
  {
    hide Shaped, DistinctKeys, Indexed, HalfIndexed, Owned, Bounded, Conserved, KeepsTotal, KeepsMap;
    var store := DanglingStore(a, b);
    store.StaleKeysAreUnreachable();
    before := store.Get(a);
    store.arena.StaleSlotsAreFree();
    store.arena.FreeSlots();
    assert store.arena.free == [store.arena.index[a]];
    var none := store.Insert(c, 0);
    store.FollowIsWhere(a);
    after := store.Get(a);
  }
}
