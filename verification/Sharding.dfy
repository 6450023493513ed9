/** How capacity is split and keys are routed. */
module Sharding {
  import opened Machine

  const DEFAULT_SHARDS: Usize := 16
  const MIN_PER_SHARD: Usize := 16

  /** One shard below twice the minimum per-shard capacity; otherwise the largest
      power of two within both the capacity's allowance and the default maximum. */
  ghost predicate IsShardCount(capacity: nat, n: nat) {
    if capacity < 32 then n == 1
    else
      && PowerOfTwo(n) && n <= capacity / 16 && n <= 16
      && forall m: nat :: PowerOfTwo(m) && m <= capacity / 16 && m <= 16 ==> m <= n
  }

  method ShardCount(capacity: Usize) returns (shards: Usize)
    requires capacity >= 1
    ensures IsShardCount(capacity, shards)
  {
    if capacity < SatMul(MIN_PER_SHARD, 2) {
      return 1;
    }
    var maxByCap := capacity / MIN_PER_SHARD;
    shards := 1;
    while SatMul(shards, 2) <= maxByCap && SatMul(shards, 2) <= DEFAULT_SHARDS
      invariant PowerOfTwo(shards) && 1 <= shards <= maxByCap && shards <= DEFAULT_SHARDS
    {
      shards := SatMul(shards, 2);
      assert shards / 2 * 2 == shards;
    }
    forall m: nat | PowerOfTwo(m) && m <= maxByCap && m <= 16 ensures m <= shards {
      NoPowerBetween(shards, m);
    }
  }

  lemma {:induction false} NoPowerBetween(p: nat, m: nat)
    requires PowerOfTwo(p) && PowerOfTwo(m) && m < 2 * p
    ensures m <= p
  {
    if p > 1 && m > 1 {
      NoPowerBetween(p / 2, m / 2);
    }
  }

  function PerShardCapacity(capacity: nat, numShards: nat): nat
    requires numShards >= 1
  {
    if capacity / numShards >= 1 then capacity / numShards else 1
  }

  lemma ShardCountCases(capacity: nat, n: nat)
    requires IsShardCount(capacity, n)
    ensures n == 1 || n == 2 || n == 4 || n == 8 || n == 16
    ensures capacity >= 32 ==> n <= capacity / 16
  {
    if capacity >= 32 {
      assert PowerOfTwo(16) && PowerOfTwo(8) && PowerOfTwo(4) && PowerOfTwo(2) && PowerOfTwo(1);
      NoPowerBetweenAll(n);
    }
  }

  lemma NoPowerBetweenAll(n: nat)
    requires PowerOfTwo(n) && n <= 16
    ensures n == 1 || n == 2 || n == 4 || n == 8 || n == 16
  {
  }

  /** The shards together hold at most the requested capacity, and fall short of it
      by less than their number. */
  lemma ShardsFillCapacity(capacity: nat, n: nat)
    requires capacity >= 1 && IsShardCount(capacity, n)
    ensures n * PerShardCapacity(capacity, n) <= capacity < n * PerShardCapacity(capacity, n) + n
    ensures capacity >= 32 ==> PerShardCapacity(capacity, n) >= MIN_PER_SHARD
  {
    ShardCountCases(capacity, n);
    hide PowerOfTwo;
  }

  /** The shard a hash is routed to: the hash masked with one less than the count. */
  function Route(h: bv64, mask: bv64): nat {
    (h & mask) as nat
  }

  /** For every shard count and every hash, routing is in bounds, and masking the hash
      is taking it modulo the shard count. */
  lemma RouteIsModulo(h: bv64, n: nat, mask: bv64)
    requires (n == 1 || n == 2 || n == 4 || n == 8 || n == 16) && mask == MaskFor(n)
    ensures Route(h, mask) == Remainder(h, n) as nat < n
    ensures h & mask == Remainder(h, n)
  {
  }

  /** Remainder of a hash by one of the possible shard counts. */
  function Remainder(h: bv64, n: nat): bv64
    requires n == 1 || n == 2 || n == 4 || n == 8 || n == 16
  {
    if n == 1 then 0 else if n == 2 then h % 2 else if n == 4 then h % 4 else if n == 8 then h % 8 else h % 16
  }

  /** One less than a possible shard count, as a bit mask. */
  function MaskFor(n: nat): (mask: bv64)
    requires n == 1 || n == 2 || n == 4 || n == 8 || n == 16
    ensures mask as nat == n - 1
  {
    if n == 1 then 0 else if n == 2 then 1 else if n == 4 then 3 else if n == 8 then 7 else 15
  }
}

/** Interleaved runs over independent shards, each call an atomic step under one
    shard's lock. Generic in what a shard is and what a call does to it. */
module ShardedRuns {
  import opened Recency

  /** The behaviour of one shard, and which shard each call goes to. */
  datatype System<!S, !O, !R> = System(step: (S, O) -> (S, R), route: O -> nat)

  ghost predicate InBounds<S, O, R>(sys: System<S, O, R>, n: nat, ops: seq<O>) {
    forall i :: 0 <= i < |ops| ==> sys.route(ops[i]) < n
  }

  function Step<S, O, R>(sys: System<S, O, R>, shards: seq<S>, op: O): (seq<S>, R)
    requires sys.route(op) < |shards|
  {
    var (s, r) := sys.step(shards[sys.route(op)], op);
    (shards[sys.route(op) := s], r)
  }

  /** All shards after an interleaving of calls, in lock order. */
  function Run<S, O, R>(sys: System<S, O, R>, shards: seq<S>, ops: seq<O>): (r: seq<S>)
    requires InBounds(sys, |shards|, ops)
    ensures |r| == |shards|
  {
    if ops == [] then shards else Step(sys, Run(sys, shards, DropLast(ops)), ops[|ops| - 1]).0
  }

  /** One shard after a run of its own. */
  function RunAlone<S, O, R>(sys: System<S, O, R>, s: S, ops: seq<O>): S {
    if ops == [] then s else sys.step(RunAlone(sys, s, DropLast(ops)), ops[|ops| - 1]).0
  }

  /** The calls of an interleaving that go to shard `i`, in order. */
  function Project<S, O, R>(sys: System<S, O, R>, ops: seq<O>, i: nat): seq<O> {
    if ops == [] then []
    else Project(sys, DropLast(ops), i) + if sys.route(ops[|ops| - 1]) == i then [ops[|ops| - 1]] else []
  }

  /** The global state after any interleaving is the product of each shard's own run
      of the calls routed to it. */
  lemma {:induction false} RunIsProduct<S, O, R>(sys: System<S, O, R>, shards: seq<S>, ops: seq<O>, i: nat)
    requires InBounds(sys, |shards|, ops) && i < |shards|
    ensures Run(sys, shards, ops)[i] == RunAlone(sys, shards[i], Project(sys, ops, i))
  {
    if ops != [] {
      RunIsProduct(sys, shards, DropLast(ops), i);
      var own := Project(sys, DropLast(ops), i);
      assert own + [] == own;
    }
  }

  /** The reply to a call depends only on the earlier calls to the same shard. */
  lemma ReplyIsLocal<S, O, R>(sys: System<S, O, R>, shards: seq<S>, ops: seq<O>, op: O)
    requires InBounds(sys, |shards|, ops) && sys.route(op) < |shards|
    ensures var i := sys.route(op);
      Step(sys, Run(sys, shards, ops), op).1 == sys.step(RunAlone(sys, shards[i], Project(sys, ops, i)), op).1
  {
    RunIsProduct(sys, shards, ops, sys.route(op));
  }

  /** Any two interleavings that give every shard the same calls in the same order
      end in the same state. */
  lemma InterleavingsAgree<S, O, R>(sys: System<S, O, R>, shards: seq<S>, ops: seq<O>, ops': seq<O>)
    requires InBounds(sys, |shards|, ops) && InBounds(sys, |shards|, ops')
    requires forall i: nat :: i < |shards| ==> Project(sys, ops, i) == Project(sys, ops', i)
    ensures Run(sys, shards, ops) == Run(sys, shards, ops')
  {
    forall i: nat | i < |shards| ensures Run(sys, shards, ops)[i] == Run(sys, shards, ops')[i] {
      RunIsProduct(sys, shards, ops, i);
      RunIsProduct(sys, shards, ops', i);
    }
  }

  /** Calls to different shards commute: same final state and same replies. */
  lemma StepsCommute<S, O, R>(sys: System<S, O, R>, shards: seq<S>, a: O, b: O)
    requires sys.route(a) < |shards| && sys.route(b) < |shards| && sys.route(a) != sys.route(b)
    ensures var (ab, rb) := Step(sys, Step(sys, shards, a).0, b);
      var (ba, ra) := Step(sys, Step(sys, shards, b).0, a);
      ab == ba && ra == Step(sys, shards, a).1 && rb == Step(sys, shards, b).1
  {
  }
}
