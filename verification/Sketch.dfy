/** The Count-Min Sketch of the TinyLFU store on plain values: four rows of byte
    counters that saturate at 255 and are all halved once per sample window. */
module SketchModel {
  import opened Recency

  const DEPTH: nat := 4

  type Byte = x: nat | x <= 255

  /** What is fixed when a sketch is built. Hashing is any function of key and seed. */
  datatype Layout<!K> = Layout(width: nat, window: nat, hash: (K, nat) -> nat) {
    ghost predicate Valid() { width >= 1 && window >= 1 }
  }

  datatype Sketch = Sketch(cells: seq<Byte>, samples: nat)

  ghost predicate Sized<K>(l: Layout<K>, sk: Sketch) {
    l.Valid() && |sk.cells| == DEPTH * l.width
  }

  /** The counter of `key` in row `d`. */
  function Cell<K>(l: Layout<K>, d: nat, key: K): (j: nat)
    requires l.Valid() && d < DEPTH
    ensures d * l.width <= j < (d + 1) * l.width <= DEPTH * l.width
  {
    assert (d + 1) * l.width == d * l.width + l.width;
    assert d == 0 || d == 1 || d == 2 || d == 3;
    d * l.width + l.hash(key, d) % l.width
  }

  function SatInc(c: Byte): Byte { if c < 255 then c + 1 else 255 }

  function Min(a: Byte, b: Byte): Byte { if b < a then b else a }

  /** Rows below `n` bumped for `key`, one after the other. */
  function BumpRows<K>(l: Layout<K>, cells: seq<Byte>, key: K, n: nat): (r: seq<Byte>)
    requires l.Valid() && |cells| == DEPTH * l.width && n <= DEPTH
    ensures |r| == |cells|
  {
    if n == 0 then cells else
      var c := BumpRows(l, cells, key, n - 1);
      c[Cell(l, n - 1, key) := SatInc(c[Cell(l, n - 1, key)])]
  }

  function Halve(cells: seq<Byte>): (r: seq<Byte>)
    ensures |r| == |cells|
  {
    seq(|cells|, j requires 0 <= j < |cells| => cells[j] / 2)
  }

  /** Least counter of `key` over the rows below `n`, 255 over no rows. */
  function EstimateRows<K>(l: Layout<K>, cells: seq<Byte>, key: K, n: nat): Byte
    requires l.Valid() && |cells| == DEPTH * l.width && n <= DEPTH
  {
    if n == 0 then 255 else Min(EstimateRows(l, cells, key, n - 1), cells[Cell(l, n - 1, key)])
  }

  function Estimate<K>(l: Layout<K>, cells: seq<Byte>, key: K): Byte
    requires l.Valid() && |cells| == DEPTH * l.width
  {
    EstimateRows(l, cells, key, DEPTH)
  }

  function Increment<K>(l: Layout<K>, sk: Sketch, key: K): (r: Sketch)
    requires Sized(l, sk)
    ensures Sized(l, r)
  {
    var bumped := BumpRows(l, sk.cells, key, DEPTH);
    if sk.samples + 1 >= l.window then Sketch(Halve(bumped), 0) else Sketch(bumped, sk.samples + 1)
  }

  function Fresh<K>(l: Layout<K>): (r: Sketch)
    requires l.Valid()
    ensures Sized(l, r)
  {
    Sketch(seq(DEPTH * l.width, _ => 0), 0)
  }

  // ----- Which keys share counters

  /** Two keys fall into the same column of row `d`, by their hashes with that row's seed. */
  predicate Collide<K>(l: Layout<K>, d: nat, a: K, b: K)
    requires l.Valid()
  {
    l.hash(a, d) % l.width == l.hash(b, d) % l.width
  }

  /** Counters of different rows never coincide. */
  lemma RowsAreDisjoint<K>(l: Layout<K>, d: nat, key: K, d': nat, key': K)
    requires l.Valid() && d < DEPTH && d' < DEPTH && d != d'
    ensures Cell(l, d, key) != Cell(l, d', key')
  {
  }

  /** Two counters coincide exactly when they are of the same row and the keys collide there. */
  lemma SameCellIff<K>(l: Layout<K>, d: nat, a: K, d': nat, b: K)
    requires l.Valid() && d < DEPTH && d' < DEPTH
    ensures Cell(l, d, a) == Cell(l, d', b) <==> d == d' && Collide(l, d, a, b)
  {
    if d != d' {
      RowsAreDisjoint(l, d, a, d', b);
    }
  }

  /** Cell `j` is the counter of `key` in one of the rows below `n`. */
  predicate Hits<K>(l: Layout<K>, key: K, j: nat, n: nat)
    requires l.Valid() && n <= DEPTH
  {
    exists d: nat :: d < n && Cell(l, d, key) == j
  }

  /** Bumping row after row adds one, saturating, to exactly the key's own cells. */
  lemma {:induction false} BumpIsPointwise<K>(l: Layout<K>, cells: seq<Byte>, key: K, n: nat)
    requires l.Valid() && |cells| == DEPTH * l.width && n <= DEPTH
    ensures forall j: nat :: j < |cells| ==>
      BumpRows(l, cells, key, n)[j] == if Hits(l, key, j, n) then SatInc(cells[j]) else cells[j]
  {
    if n > 0 {
      BumpIsPointwise(l, cells, key, n - 1);
      var c, before := Cell(l, n - 1, key), BumpRows(l, cells, key, n - 1);
      assert BumpRows(l, cells, key, n) == before[c := SatInc(before[c])];
      forall d: nat | d < n - 1 ensures Cell(l, d, key) != c {
        RowsAreDisjoint(l, d, key, n - 1, key);
      }
      hide Cell, BumpRows, SatInc;
      assert !Hits(l, key, c, n - 1);
      forall j: nat | j < |cells|
        ensures Hits(l, key, j, n) <==> j == c || Hits(l, key, j, n - 1)
      {
      }
    }
  }

  lemma HitsIff<K>(l: Layout<K>, x: K, d: nat, key: K)
    requires l.Valid() && d < DEPTH
    ensures Hits(l, x, Cell(l, d, key), DEPTH) <==> Collide(l, d, x, key)
  {
    forall d': nat | d' < DEPTH ensures Cell(l, d', x) == Cell(l, d, key) <==> d' == d && Collide(l, d, x, key) {
      SameCellIff(l, d', x, d, key);
    }
    if Collide(l, d, x, key) {
      assert Cell(l, d, x) == Cell(l, d, key);
    }
    hide Cell, Collide;
  }

  // ----- Estimates

  /** The estimate is the least of the key's four counters. */
  lemma EstimateIsLeast<K>(l: Layout<K>, cells: seq<Byte>, key: K)
    requires l.Valid() && |cells| == DEPTH * l.width
    ensures forall d: nat :: d < DEPTH ==> Estimate(l, cells, key) <= cells[Cell(l, d, key)]
    ensures exists d: nat :: d < DEPTH && Estimate(l, cells, key) == cells[Cell(l, d, key)]
  {
    EstimateRowsIsLeast(l, cells, key, DEPTH);
  }

  lemma {:induction false} EstimateRowsIsLeast<K>(l: Layout<K>, cells: seq<Byte>, key: K, n: nat)
    requires l.Valid() && |cells| == DEPTH * l.width && n <= DEPTH
    ensures forall d: nat :: d < n ==> EstimateRows(l, cells, key, n) <= cells[Cell(l, d, key)]
    ensures EstimateRows(l, cells, key, n) == 255
         || exists d: nat :: d < n && EstimateRows(l, cells, key, n) == cells[Cell(l, d, key)]
  {
    if n > 0 {
      EstimateRowsIsLeast(l, cells, key, n - 1);
    }
  }

  /** Ageing commutes with estimation: it turns every estimate into its floor half,
      so it never makes a key outrank one it did not outrank before. */
  lemma AgeingHalvesEstimates<K>(l: Layout<K>, cells: seq<Byte>, a: K, b: K)
    requires l.Valid() && |cells| == DEPTH * l.width
    ensures Estimate(l, Halve(cells), a) == Estimate(l, cells, a) / 2
    ensures Estimate(l, Halve(cells), a) > Estimate(l, Halve(cells), b) ==>
              Estimate(l, cells, a) > Estimate(l, cells, b)
  {
    EstimateIsLeast(l, cells, a);
    EstimateIsLeast(l, Halve(cells), a);
    EstimateIsLeast(l, cells, b);
    EstimateIsLeast(l, Halve(cells), b);
  }

  // ----- Whole runs

  datatype Event<+K> = Touch(key: K) | Reset

  function Run<K>(l: Layout<K>, evs: seq<Event<K>>): (r: Sketch)
    requires l.Valid()
    ensures Sized(l, r)
  {
    if evs == [] then Fresh(l) else
      match evs[|evs| - 1]
      case Touch(k) => Increment(l, Run(l, DropLast(evs)), k)
      case Reset => Fresh(l)
  }

  /** Touches since construction, the last reset or the last ageing. */
  function Samples<K>(l: Layout<K>, evs: seq<Event<K>>): nat {
    if evs == [] || evs[|evs| - 1].Reset? then 0
    else if Samples(l, DropLast(evs)) + 1 >= l.window then 0
    else Samples(l, DropLast(evs)) + 1
  }

  /** The last event is a touch that completes a sample window. */
  predicate Ages<K>(l: Layout<K>, evs: seq<Event<K>>)
    requires evs != []
  {
    evs[|evs| - 1].Touch? && Samples(l, DropLast(evs)) + 1 >= l.window
  }

  lemma {:induction false} SamplesOfRun<K>(l: Layout<K>, evs: seq<Event<K>>)
    requires l.Valid()
    ensures Run(l, evs).samples == Samples(l, evs) < l.window
  {
    if evs != [] {
      SamplesOfRun(l, DropLast(evs));
    }
  }

  /** An exact counter of one key: saturates at 255 and halves, rounding down, at
      the moments the sketch ages. */
  function Exact<K(==)>(l: Layout<K>, evs: seq<Event<K>>, key: K): Byte {
    if evs == [] || evs[|evs| - 1].Reset? then 0
    else
      var before := Exact(l, DropLast(evs), key);
      var now := if evs[|evs| - 1].key == key then SatInc(before) else before;
      if Ages(l, evs) then now / 2 else now
  }

  /** An ideal counter of one key: no saturation, exact halving at those moments. */
  function Decayed<K(==)>(l: Layout<K>, evs: seq<Event<K>>, key: K): (r: real)
    ensures r >= 0.0
  {
    if evs == [] || evs[|evs| - 1].Reset? then 0.0
    else
      var before := Decayed(l, DropLast(evs), key);
      var now := if evs[|evs| - 1].key == key then before + 1.0 else before;
      if Ages(l, evs) then now / 2.0 else now
  }

  /** Ideal counts of the listed keys that collide with `key` in row `d`, added up. */
  function Mass<K(==)>(l: Layout<K>, evs: seq<Event<K>>, keys: seq<K>, d: nat, key: K): (r: real)
    requires l.Valid()
    ensures r >= 0.0
  {
    if keys == [] then 0.0
    else (if Collide(l, d, keys[0], key) then Decayed(l, evs, keys[0]) else 0.0) + Mass(l, evs, keys[1..], d, key)
  }

  /** `keys` lists every key the events touch. */
  ghost predicate Covers<K>(keys: seq<K>, evs: seq<Event<K>>) {
    forall i :: 0 <= i < |evs| && evs[i].Touch? ==> evs[i].key in keys
  }

  /** How the mass on a counter moves with one event. */
  lemma {:induction false} MassStep<K>(l: Layout<K>, evs: seq<Event<K>>, keys: seq<K>, d: nat, key: K)
    requires l.Valid() && evs != [] && evs[|evs| - 1].Touch?
    ensures var m := Mass(l, DropLast(evs), keys, d, key); var m' := Mass(l, evs, keys, d, key);
      var k := evs[|evs| - 1].key;
      var grown := if k in keys && Collide(l, d, k, key) then m + 1.0 else m;
      m' >= if Ages(l, evs) then grown / 2.0 else grown
  {
    if keys != [] {
      MassStep(l, evs, keys[1..], d, key);
    }
  }

  /** Lower side: no counter of a key is ever below its exact counter. */
  lemma {:induction false} CellsAboveExact<K>(l: Layout<K>, evs: seq<Event<K>>, key: K, d: nat)
    requires l.Valid() && d < DEPTH
    ensures Run(l, evs).cells[Cell(l, d, key)] >= Exact(l, evs, key)
  {
    if evs != [] && evs[|evs| - 1].Touch? {
      var before, x := DropLast(evs), evs[|evs| - 1].key;
      CellsAboveExact(l, before, key, d);
      SamplesOfRun(l, before);
      BumpIsPointwise(l, Run(l, before).cells, x, DEPTH);
    }
  }

  /** Upper side: no counter of a key is ever above the ideal counts of the keys that
      collide with it there. */
  lemma {:induction false} CellsBelowMass<K>(l: Layout<K>, evs: seq<Event<K>>, keys: seq<K>, d: nat, key: K)
    requires l.Valid() && Covers(keys, evs) && d < DEPTH
    ensures Run(l, evs).cells[Cell(l, d, key)] as real <= Mass(l, evs, keys, d, key)
  {
    if evs != [] && evs[|evs| - 1].Touch? {
      var before, x := DropLast(evs), evs[|evs| - 1].key;
      CellsBelowMass(l, before, keys, d, key);
      SamplesOfRun(l, before);
      BumpIsPointwise(l, Run(l, before).cells, x, DEPTH);
      HitsIff(l, x, d, key);
      MassStep(l, evs, keys, d, key);
      hide Hits, Collide, Cell, Mass;
    }
  }

  /** Count-Min under saturation and ageing: every estimate lies between the key's
      exact counter and, in each row, the ideal counts of the keys colliding there. */
  lemma Sandwich<K>(l: Layout<K>, evs: seq<Event<K>>, keys: seq<K>, key: K)
    requires l.Valid() && Covers(keys, evs)
    ensures Exact(l, evs, key) <= Estimate(l, Run(l, evs).cells, key)
    ensures forall d: nat :: d < DEPTH ==>
      Estimate(l, Run(l, evs).cells, key) as real <= Mass(l, evs, keys, d, key)
  {
    EstimateIsLeast(l, Run(l, evs).cells, key);
    forall d: nat | d < DEPTH
      ensures Run(l, evs).cells[Cell(l, d, key)] >= Exact(l, evs, key)
      ensures Estimate(l, Run(l, evs).cells, key) as real <= Mass(l, evs, keys, d, key)
    {
      CellsAboveExact(l, evs, key, d);
      CellsBelowMass(l, evs, keys, d, key);
    }
  }

  /** The mass on a counter that no listed key but `key` shares. */
  lemma {:induction false} LoneMass<K>(l: Layout<K>, evs: seq<Event<K>>, keys: seq<K>, d: nat, key: K)
    requires l.Valid() && Distinct(keys)
    requires forall x :: x in keys && x != key ==> !Collide(l, d, x, key)
    ensures Mass(l, evs, keys, d, key) == if key in keys then Decayed(l, evs, key) else 0.0
  {
    if keys != [] {
      assert keys == [keys[0]] + keys[1..];
      LoneMass(l, evs, keys[1..], d, key);
    }
  }

  /** In a row where no other touched key collides with it, a key's estimate is bounded by
      its own count; in particular it is 0 when the key was never touched. */
  lemma LoneKeyIsCounted<K>(l: Layout<K>, evs: seq<Event<K>>, keys: seq<K>, d: nat, key: K)
    requires l.Valid() && d < DEPTH && Distinct(keys) && Covers(keys, evs)
    requires forall x :: x in keys && x != key ==> !Collide(l, d, x, key)
    ensures var e := Estimate(l, Run(l, evs).cells, key);
      && Exact(l, evs, key) <= e && e as real <= Decayed(l, evs, key)
      && (key !in keys ==> e == 0)
  {
    Sandwich(l, evs, keys, key);
    LoneMass(l, evs, keys, d, key);
  }

  // ----- Total mass of a row

  function Sum(s: seq<Byte>): nat {
    if s == [] then 0 else s[0] + Sum(s[1..])
  }

  function Row<K>(l: Layout<K>, cells: seq<Byte>, d: nat): (r: seq<Byte>)
    requires l.Valid() && |cells| == DEPTH * l.width && d < DEPTH
    ensures |r| == l.width
  {
    assert d == 0 || d == 1 || d == 2 || d == 3;
    cells[d * l.width..(d + 1) * l.width]
  }

  lemma {:induction false} SumHalved(s: seq<Byte>, h: seq<Byte>)
    requires |h| == |s| && forall j :: 0 <= j < |s| ==> h[j] == s[j] / 2
    ensures 2 * Sum(h) <= Sum(s)
  {
    if s != [] {
      SumHalved(s[1..], h[1..]);
    }
  }

  lemma {:induction false} SumBumped(s: seq<Byte>, b: seq<Byte>, c: nat)
    requires |b| == |s| && forall j :: 0 <= j < |s| ==> b[j] == if j == c then SatInc(s[j]) else s[j]
    ensures Sum(s) <= Sum(b) <= Sum(s) + if c < |s| then 1 else 0
  {
    if s != [] {
      if c > 0 {
        SumBumped(s[1..], b[1..], c - 1);
      } else {
        assert s[1..] == b[1..];
      }
    }
  }

  lemma {:induction false} SumAtLeast(s: seq<Byte>, j: nat)
    requires j < |s|
    ensures s[j] <= Sum(s)
  {
    if j > 0 {
      SumAtLeast(s[1..], j - 1);
    }
  }

  lemma RowBumped<K>(l: Layout<K>, cells: seq<Byte>, key: K, d: nat)
    requires l.Valid() && |cells| == DEPTH * l.width && d < DEPTH
    ensures Sum(Row(l, BumpRows(l, cells, key, DEPTH), d)) <= Sum(Row(l, cells, d)) + 1
  {
    var bumped := BumpRows(l, cells, key, DEPTH);
    var c := Cell(l, d, key);
    BumpIsPointwise(l, cells, key, DEPTH);
    forall j: nat | d * l.width <= j < (d + 1) * l.width
      ensures Hits(l, key, j, DEPTH) <==> j == c
    {
      if Hits(l, key, j, DEPTH) && j != c {
        var d': nat :| d' < DEPTH && Cell(l, d', key) == j;
        SameRow(l, d, d', key, j);
      }
    }
    SumBumped(Row(l, cells, d), Row(l, bumped, d), c - d * l.width);
  }

  lemma SameRow<K>(l: Layout<K>, d: nat, d': nat, key: K, j: nat)
    requires l.Valid() && d < DEPTH && d' < DEPTH
    requires d * l.width <= j < (d + 1) * l.width && Cell(l, d', key) == j
    ensures d == d'
  {
  }

  lemma IncrementKeepsRowMass<K>(l: Layout<K>, sk: Sketch, key: K, d: nat)
    requires Sized(l, sk) && d < DEPTH
    requires sk.samples < l.window && Sum(Row(l, sk.cells, d)) <= l.window + sk.samples
    ensures var sk' := Increment(l, sk, key);
      sk'.samples < l.window && Sum(Row(l, sk'.cells, d)) <= l.window + sk'.samples
  {
    var bumped := BumpRows(l, sk.cells, key, DEPTH);
    RowBumped(l, sk.cells, key, d);
    RowHalved(l, bumped, d);
    hide BumpRows, Row;
    SumHalved(Row(l, bumped, d), Row(l, Halve(bumped), d));
  }

  lemma RowHalved<K>(l: Layout<K>, cells: seq<Byte>, d: nat)
    requires l.Valid() && |cells| == DEPTH * l.width && d < DEPTH
    ensures forall j :: 0 <= j < l.width ==> Row(l, Halve(cells), d)[j] == Row(l, cells, d)[j] / 2
  {
    assert d == 0 || d == 1 || d == 2 || d == 3;
    forall j | 0 <= j < l.width ensures Row(l, Halve(cells), d)[j] == Row(l, cells, d)[j] / 2 {
      assert 0 <= d * l.width + j < |cells|;
      assert Row(l, cells, d)[j] == cells[d * l.width + j];
    }
  }

  lemma FreshRowIsEmpty<K>(l: Layout<K>, d: nat)
    requires l.Valid() && d < DEPTH
    ensures Sum(Row(l, Fresh(l).cells, d)) == 0
  {
    SumOfZeros(Row(l, Fresh(l).cells, d));
  }

  lemma EstimateBelowRowSum<K>(l: Layout<K>, cells: seq<Byte>, key: K, d: nat)
    requires l.Valid() && |cells| == DEPTH * l.width && d < DEPTH
    ensures Estimate(l, cells, key) <= Sum(Row(l, cells, d))
  {
    EstimateIsLeast(l, cells, key);
    var c := Cell(l, d, key);
    SumAtLeast(Row(l, cells, d), c - d * l.width);
  }

  /** In every run the samples stay below the window and each row sums to at most
      the window plus the samples, so no estimate exceeds that. */
  lemma {:induction false} RowMassIsBounded<K>(l: Layout<K>, evs: seq<Event<K>>, key: K, d: nat)
    requires l.Valid() && d < DEPTH
    ensures Run(l, evs).samples < l.window
    ensures Sum(Row(l, Run(l, evs).cells, d)) <= l.window + Run(l, evs).samples
    ensures Estimate(l, Run(l, evs).cells, key) <= l.window + Run(l, evs).samples
  {
    FreshRowIsEmpty(l, d);
    if evs != [] && evs[|evs| - 1].Touch? {
      RowMassIsBounded(l, DropLast(evs), key, d);
      IncrementKeepsRowMass(l, Run(l, DropLast(evs)), evs[|evs| - 1].key, d);
    }
    EstimateBelowRowSum(l, Run(l, evs).cells, key, d);
  }

  lemma {:induction false} SumOfZeros(s: seq<Byte>)
    requires forall j :: 0 <= j < |s| ==> s[j] == 0
    ensures Sum(s) == 0
  {
    if s != [] {
      SumOfZeros(s[1..]);
    }
  }
}

/** The sketch itself: `CountMinSketch` of src/tinylfu.rs. */
module SketchStore {
  import opened Machine
  import opened SketchModel

  const MIN_SKETCH_WIDTH: Usize := 64

  class CountMinSketch<!K> {
    const counters: array<Byte>
    const width: Usize
    const sampleWindow: Usize
    const hash: (K, nat) -> nat
    var samples: Usize

    ghost function Layout(): Layout<K> {
      SketchModel.Layout.Layout(width, sampleWindow, hash)
    }

    /** The plain value this sketch stands for. */
    ghost function Value(): Sketch
      reads this, counters
    {
      Sketch(counters[..], samples)
    }

    ghost predicate Valid()
      reads this, counters
    {
      Sized(Layout(), Value()) && samples < sampleWindow
    }

    /** Width: twice the capacity, at least 64, rounded up to a power of two. For larger
        capacities the number of counters would not fit the integer range. */
    constructor (capacity: Usize, hash: (K, nat) -> nat)
      requires 16 * capacity <= USIZE_MAX + 1
      ensures Valid() && fresh(counters) && this.hash == hash
      ensures PowerOfTwo(width) && width >= 64 && width >= 2 * capacity
      ensures width < if capacity <= 32 then 128 else 4 * capacity
      ensures sampleWindow == if capacity < 7 then 64 else SatMul(capacity, 10)
      ensures Value() == Fresh(Layout())
    {
      var w := Max(SatMul(capacity, 2), MIN_SKETCH_WIDTH);
      w := PowerAtLeast(w, 1);
      width := w;
      this.hash := hash;
      sampleWindow := Max(SatMul(capacity, 10), 64);
      counters := new Byte[SatMul(w, DEPTH)](_ => 0);
      samples := 0;
    }

    method Estimate(key: K) returns (min: Byte)
      requires Valid()
      ensures min == SketchModel.Estimate(Layout(), counters[..], key)
    {
      min := 255;
      for d := 0 to DEPTH
        invariant min == EstimateRows(Layout(), counters[..], key, d)
      {
        var idx := Cell(SketchModel.Layout.Layout(width, sampleWindow, hash), d, key);
        var observed := counters[idx];
        if observed < min {
          min := observed;
        }
      }
    }

    method Increment(key: K)
      requires Valid()
      modifies this, counters
      ensures Valid()
      ensures Value() == SketchModel.Increment(Layout(), old(Value()), key)
    {
      for d := 0 to DEPTH
        invariant counters[..] == BumpRows(Layout(), old(counters[..]), key, d)
        invariant samples == old(samples)
      {
        var idx := Cell(SketchModel.Layout.Layout(width, sampleWindow, hash), d, key);
        counters[idx] := SatInc(counters[idx]);
      }
      samples := SatAdd(samples, 1);
      if samples >= sampleWindow {
        Age();
        samples := 0;
      }
    }

    method Age()
      modifies counters
      ensures counters[..] == Halve(old(counters[..]))
    {
      for j := 0 to counters.Length
        invariant forall i :: 0 <= i < j ==> counters[i] == old(counters[i]) / 2
        invariant forall i :: j <= i < counters.Length ==> counters[i] == old(counters[i])
      {
        counters[j] := counters[j] / 2;
      }
    }

    method Reset()
      requires Valid()
      modifies this, counters
      ensures Valid() && Value() == Fresh(Layout())
    {
      for j := 0 to counters.Length
        invariant forall i :: 0 <= i < j ==> counters[i] == 0
      {
        counters[j] := 0;
      }
      samples := 0;
    }
  }
}
