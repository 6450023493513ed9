/** Values shared by every cache: `Option`, key/value entries, and the plain
    recency sequence (most recently used first) that the linked arenas stand for. */
module Recency {

  datatype Option<+T> = None | Some(value: T)

  datatype Entry<+K, +V> = Entry(key: K, value: V)

  ghost predicate Distinct<T>(s: seq<T>) {
    forall i, j :: 0 <= i < j < |s| ==> s[i] != s[j]
  }

  /** No key is listed twice. */
  ghost predicate DistinctKeys<K, V>(s: seq<Entry<K, V>>) {
    forall i, j :: 0 <= i < j < |s| ==> s[i].key != s[j].key
  }

  ghost predicate Listed<K, V>(s: seq<Entry<K, V>>, k: K) {
    exists i :: 0 <= i < |s| && s[i].key == k
  }

  /** First position holding `k`, or `|s|` when the key is not listed. */
  function Locate<K(==), V>(s: seq<Entry<K, V>>, k: K): (i: nat)
    ensures i <= |s|
    ensures i < |s| ==> s[i].key == k
    ensures i == |s| ==> forall j :: 0 <= j < |s| ==> s[j].key != k
  {
    if s == [] then 0
    else if s[0].key == k then 0
    else 1 + Locate(s[1..], k)
  }

  function RemoveAt<T>(s: seq<T>, i: nat): (r: seq<T>)
    requires i < |s|
    ensures |r| == |s| - 1
  {
    seq(|s| - 1, j requires 0 <= j < |s| - 1 => if j < i then s[j] else s[j + 1])
  }

  /** The sequence without `k`; unchanged when `k` is not listed. */
  function Without<K(==), V>(s: seq<Entry<K, V>>, k: K): seq<Entry<K, V>> {
    var i := Locate(s, k);
    if i < |s| then RemoveAt(s, i) else s
  }

  /** The value listed for `k`, if any. */
  function Lookup<K(==), V>(s: seq<Entry<K, V>>, k: K): Option<V> {
    var i := Locate(s, k);
    if i < |s| then Some(s[i].value) else None
  }

  /** Moves the entry at position `i` to the front, with a new value. */
  function ToFront<K, V>(s: seq<Entry<K, V>>, i: nat, value: V): seq<Entry<K, V>>
    requires i < |s|
  {
    [Entry(s[i].key, value)] + RemoveAt(s, i)
  }

  function DropLast<T>(s: seq<T>): (r: seq<T>)
    requires s != []
    ensures |r| == |s| - 1
  {
    s[..|s| - 1]
  }

  function Keys<K(==), V>(s: seq<Entry<K, V>>): set<K> {
    set i | 0 <= i < |s| :: s[i].key
  }

  /** The key/value map a recency sequence holds. */
  function Contents<K(==), V>(s: seq<Entry<K, V>>): map<K, V> {
    KeysAreLocated(s);
    map k | k in Keys(s) :: s[Locate(s, k)].value
  }

  lemma KeysAreLocated<K, V>(s: seq<Entry<K, V>>)
    ensures forall k :: k in Keys(s) ==> Locate(s, k) < |s|
    ensures forall k :: Locate(s, k) < |s| ==> k in Keys(s)
  {
  }

  /** With distinct keys, the position of a listed key is the located one. */
  lemma LocateIsUnique<K, V>(s: seq<Entry<K, V>>, i: nat)
    requires DistinctKeys(s) && i < |s|
    ensures Locate(s, s[i].key) == i
  {
  }

  lemma ToFrontIsClean<K, V>(s: seq<Entry<K, V>>, i: nat, value: V)
    requires DistinctKeys(s) && i < |s|
    ensures DistinctKeys(ToFront(s, i, value)) && Keys(ToFront(s, i, value)) == Keys(s)
  {
    var r := ToFront(s, i, value);
    forall k | k in Keys(s) ensures k in Keys(r) {
      var j := Locate(s, k);
      assert r[if j == i then 0 else if j < i then j + 1 else j].key == k;
    }
    forall k | k in Keys(r) ensures k in Keys(s) {
      var j := Locate(r, k);
    }
  }
}

/** The calls of the common cache interface on one shard, and their replies. */
module CacheApi {
  import opened Recency

  datatype Op<+K, +V> = Get(key: K) | Insert(key: K, value: V) | Remove(key: K) | ContainsKey(key: K) | Clear

  datatype Reply<+V> = Found(value: Option<V>) | Has(present: bool) | Cleared

  /** An executed call together with what it returned. */
  datatype Call<+K, +V> = Call(op: Op<K, V>, reply: Reply<V>)

  /** A call on an unbounded map that first loses `evicted`. */
  function OnMap<K(==), V>(m: map<K, V>, op: Op<K, V>, evicted: set<K>): (map<K, V>, Reply<V>) {
    match op
    case Get(k) => (m, Found(if k in m then Some(m[k]) else None))
    case Insert(k, v) => ((m - evicted)[k := v], Found(if k in m then Some(m[k]) else None))
    case Remove(k) => (m - {k}, Found(if k in m then Some(m[k]) else None))
    case ContainsKey(k) => (m, Has(k in m))
    case Clear => (map[], Cleared)
  }

  /** An insert of `k`, or a get of `k` that hit. */
  predicate Accesses<K(==), V>(c: Call<K, V>, k: K) {
    match c.op
    case Get(x) => x == k && c.reply.Found? && c.reply.value.Some?
    case Insert(x, _) => x == k
    case _ => false
  }

  /** Position of the latest access to `k` in the log, -1 when there is none. */
  function LastAccess<K(==), V>(log: seq<Call<K, V>>, k: K): (p: int)
    ensures -1 <= p < |log|
  {
    if log == [] then -1
    else if Accesses(log[|log| - 1], k) then |log| - 1
    else LastAccess(DropLast(log), k)
  }

  /** The value most recently inserted under `k`. */
  function LastInserted<K(==), V>(log: seq<Call<K, V>>, k: K): Option<V> {
    if log == [] then None
    else if log[|log| - 1].op.Insert? && log[|log| - 1].op.key == k then Some(log[|log| - 1].op.value)
    else LastInserted(DropLast(log), k)
  }

  lemma ExtendLog<K, V>(log: seq<Call<K, V>>, c: Call<K, V>, k: K)
    ensures LastAccess(log + [c], k) == if Accesses(c, k) then |log| else LastAccess(log, k)
    ensures LastInserted(log + [c], k) ==
            if c.op.Insert? && c.op.key == k then Some(c.op.value) else LastInserted(log, k)
  {
  }
}
