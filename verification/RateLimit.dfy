/**
 The token-bucket rate limiter: lazy refill, idle eviction and a cap on tracked keys. Token counts are real
 numbers and times are milliseconds.
*/
module RateLimit {
  import opened Texts

  datatype Policy = Policy(ratePerSecond: real, burst: real)

  const READ_LIMIT := Policy(20.0, 120.0)
  const WRITE_LIMIT := Policy(2.0, 20.0)

  datatype Decision = Decision(allowed: bool, retryAfterSeconds: int)

  datatype Bucket = Bucket(tokens: real, updatedAt: int)

  type Buckets = map<Text, Bucket>

  const IDLE_EVICTION_MS := 10 * 60 * 1000
  const MAX_BUCKETS := 10_000

  function Min(a: real, b: real): real { if a <= b then a else b }
  function Max(a: int, b: int): int { if a >= b then a else b }
  function Ceil(x: real): int { -((-x).Floor) }

  function Gain(p: Policy, ms: int): real { ms as real / 1000.0 * p.ratePerSecond }

  /** The tokens of a bucket at an instant: what it held, plus what has dripped in, up to the burst. */
  function Refill(b: Bucket, p: Policy, now: int): real
  {
    Min(p.burst, b.tokens + Gain(p, Max(0, now - b.updatedAt)))
  }

  /** The tokens a key can spend at an instant. A key that is not tracked has a full bucket. */
  function Level(buckets: Buckets, key: Text, p: Policy, now: int): real
  {
    if key in buckets then Refill(buckets[key], p, now) else Min(p.burst, p.burst + Gain(p, 0))
  }

  function Decide(level: real, p: Policy): Decision
    requires p.ratePerSecond > 0.0
  {
    if level < 1.0 then Decision(false, Max(1, Ceil((1.0 - level) / p.ratePerSecond))) else Decision(true, 0)
  }

  /** `take`, as a function of the map. */
  function Take(buckets: Buckets, key: Text, p: Policy, now: int): (r: (Buckets, Decision))
    requires p.ratePerSecond > 0.0
  {
    var level := Level(buckets, key, p, now);
    var decision := Decide(level, p);
    if !decision.allowed then (buckets[key := Bucket(level, now)], decision)
    else if key !in buckets && |buckets| >= MAX_BUCKETS then (buckets, decision)
    else (buckets[key := Bucket(level - 1.0, now)], decision)
  }

  /** `sweep`: a bucket idle for more than ten minutes goes. */
  function Sweep(buckets: Buckets, now: int): Buckets
  {
    map key | key in buckets && !(buckets[key].updatedAt < now - IDLE_EVICTION_MS) :: buckets[key]
  }

  /** A sweep leaves exactly the buckets touched within the last ten minutes, as they are. */
  lemma SweptExactly(buckets: Buckets, now: int, key: Text)
    ensures key in Sweep(buckets, now) <==> key in buckets && now - buckets[key].updatedAt <= 600_000
    ensures key in Sweep(buckets, now) ==> Sweep(buckets, now)[key] == buckets[key]
  {
  }

  class RateLimiter {
    var buckets: Buckets

    constructor ()
      ensures buckets == map[]
    {
      buckets := map[];
    }

    method TakeToken(key: Text, policy: Policy, now: int) returns (decision: Decision)
      requires policy.ratePerSecond > 0.0
      modifies this
      ensures (buckets, decision) == Take(old(buckets), key, policy, now)
    {
      var bucket := if key in buckets then buckets[key] else Bucket(policy.burst, now);
      var elapsed := Max(0, now - bucket.updatedAt) as real / 1000.0;
      bucket := Bucket(Min(policy.burst, bucket.tokens + elapsed * policy.ratePerSecond), now);
      if bucket.tokens < 1.0 {
        var wait := (1.0 - bucket.tokens) / policy.ratePerSecond;
        buckets := buckets[key := bucket];
        return Decision(false, Max(1, Ceil(wait)));
      }
      bucket := bucket.(tokens := bucket.tokens - 1.0);
      if key !in buckets && |buckets| >= MAX_BUCKETS {
        return Decision(true, 0);
      }
      buckets := buckets[key := bucket];
      return Decision(true, 0);
    }

    method SweepIdle(now: int)
      modifies this
      ensures buckets == Sweep(old(buckets), now)
    {
      var cutoff := now - IDLE_EVICTION_MS;
      ghost var was := buckets;
      var todo := buckets.Keys;
      while todo != {}
        invariant todo <= buckets.Keys <= was.Keys
        invariant forall key :: key in was ==> (key in buckets <==> key in todo || !(was[key].updatedAt < cutoff))
        invariant forall key :: key in buckets ==> buckets[key] == was[key]
      {
        var key :| key in todo;
        if buckets[key].updatedAt < cutoff {
          buckets := buckets - {key};
        }
        todo := todo - {key};
      }
    }
  }

  // ---------------------------------------------------------------------------------------------------------
  // Refill, as arithmetic.

  lemma GainAdds(p: Policy, a: int, b: int)
    ensures Gain(p, a + b) == Gain(p, a) + Gain(p, b)
  {
    assert (a + b) as real == a as real + b as real;
  }

  lemma GainGrows(p: Policy, ms: int)
    requires p.ratePerSecond > 0.0 && ms >= 0
    ensures Gain(p, ms) >= 0.0
  {
  }

  lemma NoGain(p: Policy)
    ensures Gain(p, 0) == 0.0
  {
  }

  /** What every reachable map satisfies: no bucket touched in the future, none in debt. */
  ghost predicate Settled(buckets: Buckets, now: int)
  {
    forall key :: key in buckets ==> buckets[key].updatedAt <= now && buckets[key].tokens >= 0.0
  }

  lemma SettledLater(buckets: Buckets, now: int, later: int)
    requires Settled(buckets, now) && now <= later
    ensures Settled(buckets, later)
  {
  }

  /** Refilling in two stages is refilling in one. */
  lemma LevelLater(buckets: Buckets, key: Text, p: Policy, now: int, later: int)
    requires p.ratePerSecond > 0.0 && Settled(buckets, now) && now <= later
    ensures Level(buckets, key, p, later) == Min(p.burst, Level(buckets, key, p, now) + Gain(p, later - now))
  {
    GainGrows(p, later - now);
    if key in buckets {
      var at := buckets[key].updatedAt;
      assert later - at == (now - at) + (later - now);
      GainAdds(p, now - at, later - now);
    }
  }

  /** A bucket idle long enough to be swept has refilled already. */
  lemma IdleIsFull(buckets: Buckets, key: Text, p: Policy, now: int)
    requires Refills(p) && Settled(buckets, now)
    requires key in buckets && buckets[key].updatedAt < now - IDLE_EVICTION_MS
    ensures Level(buckets, key, p, now) == p.burst
  {
    var ms := now - buckets[key].updatedAt;
    assert ms as real / 1000.0 >= 600.0;
    assert Gain(p, ms) >= 600.0 * p.ratePerSecond;
  }

  /** A policy whose empty bucket is full again before it can be swept. Both shipped policies are such. */
  predicate Refills(p: Policy)
  {
    p.ratePerSecond > 0.0 && 1.0 <= p.burst <= 600.0 * p.ratePerSecond
  }

  lemma ShippedPoliciesRefill()
    ensures Refills(READ_LIMIT) && Refills(WRITE_LIMIT)
  {
  }

  // ---------------------------------------------------------------------------------------------------------
  // Runs: any takes and sweeps, on a clock that does not go backwards. Each key has one policy.

  datatype Op = TakeOp(key: Text, now: int) | SweepOp(now: int)

  datatype Outcome = Outcome(key: Text, now: int, decision: Decision)

  type Policies = Text -> Policy

  ghost predicate AllRefill(policies: Policies)
  {
    forall key :: Refills(policies(key))
  }

  ghost predicate Monotone(ops: seq<Op>, now: int)
    decreases |ops|
  {
    ops == [] || (now <= ops[0].now && Monotone(ops[1..], ops[0].now))
  }

  function After(buckets: Buckets, op: Op, policies: Policies): Buckets
    requires op.TakeOp? ==> Refills(policies(op.key))
  {
    match op
    case TakeOp(key, now) => Take(buckets, key, policies(key), now).0
    case SweepOp(now) => Sweep(buckets, now)
  }

  ghost function RunOps(buckets: Buckets, ops: seq<Op>, policies: Policies): Buckets
    requires AllRefill(policies)
    decreases |ops|
  {
    if ops == [] then buckets else RunOps(After(buckets, ops[0], policies), ops[1..], policies)
  }

  /** The decision of every take, in order. */
  ghost function Outcomes(buckets: Buckets, ops: seq<Op>, policies: Policies): seq<Outcome>
    requires AllRefill(policies)
    decreases |ops|
  {
    if ops == [] then []
    else
      var rest := Outcomes(After(buckets, ops[0], policies), ops[1..], policies);
      match ops[0]
      case TakeOp(key, now) => [Outcome(key, now, Take(buckets, key, policies(key), now).1)] + rest
      case SweepOp(_) => rest
  }

  /** The key has its bucket, or there is room for one. */
  predicate Trackable(buckets: Buckets, key: Text) { key in buckets || |buckets| < MAX_BUCKETS }

  /** No take of the run meets a full map that does not have its key. */
  ghost predicate AllTracked(buckets: Buckets, ops: seq<Op>, policies: Policies)
    requires AllRefill(policies)
    decreases |ops|
  {
    ops == [] || (
      && (ops[0].TakeOp? ==> Trackable(buckets, ops[0].key))
      && AllTracked(After(buckets, ops[0], policies), ops[1..], policies))
  }

  /** The keys of the run, and room for them all: then the cap is never in the way. */
  ghost predicate Room(buckets: Buckets, ops: seq<Op>, keys: set<Text>)
  {
    && |keys| <= MAX_BUCKETS
    && buckets.Keys <= keys
    && forall op <- ops :: op.TakeOp? ==> op.key in keys
  }

  lemma RoomTracks(buckets: Buckets, ops: seq<Op>, keys: set<Text>, key: Text)
    requires Room(buckets, ops, keys) && key in keys
    ensures Trackable(buckets, key)
  {
    if key !in buckets {
      assert buckets.Keys <= keys - {key};
      SubsetIsSmaller(buckets.Keys, keys - {key});
    }
  }

  lemma {:induction false} SubsetIsSmaller(a: set<Text>, b: set<Text>)
    requires a <= b
    ensures |a| <= |b|
    decreases a
  {
    if a != {} {
      var x :| x in a;
      SubsetIsSmaller(a - {x}, b - {x});
    }
  }

  lemma AfterKeepsRoom(buckets: Buckets, ops: seq<Op>, keys: set<Text>, policies: Policies)
    requires AllRefill(policies) && ops != [] && Room(buckets, ops, keys)
    ensures Room(After(buckets, ops[0], policies), ops[1..], keys)
  {
    assert ops[0] in ops;
  }

  lemma AfterSettles(buckets: Buckets, op: Op, policies: Policies, now: int)
    requires AllRefill(policies) && Settled(buckets, now) && now <= op.now
    ensures Settled(After(buckets, op, policies), op.now)
  {
    if op.TakeOp? {
      var p := policies(op.key);
      GainGrows(p, if op.key in buckets then op.now - buckets[op.key].updatedAt else 0);
    }
  }

  // ---------------------------------------------------------------------------------------------------------
  // The cap.

  /** A take takes the map past its cap exactly when a burst under one lets a fresh key be refused. */
  lemma CapHoldsExactly(buckets: Buckets, key: Text, p: Policy, now: int)
    requires p.ratePerSecond > 0.0 && |buckets| <= MAX_BUCKETS
    ensures |Take(buckets, key, p, now).0| <= MAX_BUCKETS <==>
      !(key !in buckets && |buckets| == MAX_BUCKETS && p.burst < 1.0)
  {
    var after := Take(buckets, key, p, now).0;
    if key in buckets {
      assert after.Keys == buckets.Keys;
    } else if after != buckets {
      assert after.Keys == buckets.Keys + {key};
    }
    assert |after| == |after.Keys| && |buckets| == |buckets.Keys|;
  }

  lemma OneOpKeepsCap(buckets: Buckets, op: Op, policies: Policies)
    requires AllRefill(policies) && |buckets| <= MAX_BUCKETS
    ensures |After(buckets, op, policies)| <= MAX_BUCKETS
  {
    match op
    case TakeOp(key, now) => CapHoldsExactly(buckets, key, policies(key), now);
    case SweepOp(now) => SubsetIsSmaller(Sweep(buckets, now).Keys, buckets.Keys);
  }

  lemma {:induction false} CapHoldsAlways(buckets: Buckets, ops: seq<Op>, policies: Policies)
    requires AllRefill(policies) && |buckets| <= MAX_BUCKETS
    ensures |RunOps(buckets, ops, policies)| <= MAX_BUCKETS
    decreases |ops|
  {
    if ops != [] {
      OneOpKeepsCap(buckets, ops[0], policies);
      CapHoldsAlways(After(buckets, ops[0], policies), ops[1..], policies);
    }
  }

  // ---------------------------------------------------------------------------------------------------------
  // Two maps that no future take can tell apart.

  ghost predicate Alike(a: Buckets, b: Buckets, policies: Policies, now: int)
  {
    forall key :: Level(a, key, policies(key), now) == Level(b, key, policies(key), now)
  }

  lemma AlikeLater(a: Buckets, b: Buckets, policies: Policies, now: int, later: int)
    requires AllRefill(policies) && Settled(a, now) && Settled(b, now) && now <= later
    requires Alike(a, b, policies, now)
    ensures Alike(a, b, policies, later)
  {
    forall key ensures Level(a, key, policies(key), later) == Level(b, key, policies(key), later) {
      LevelLater(a, key, policies(key), now, later);
      LevelLater(b, key, policies(key), now, later);
    }
  }

  /** A take leaves its own key's level, less one when admitted, and no other key's level moves. */
  lemma TakeMovesOneLevel(buckets: Buckets, key: Text, policies: Policies, now: int, other: Text)
    requires AllRefill(policies) && Settled(buckets, now)
    requires Trackable(buckets, key)
    ensures
      var (after, decision) := Take(buckets, key, policies(key), now);
      Level(after, other, policies(other), now) ==
        Level(buckets, other, policies(other), now) - (if other == key && decision.allowed then 1.0 else 0.0)
  {
    assert Gain(policies(other), 0) == 0.0;
  }

  lemma SweepMovesNoLevel(buckets: Buckets, policies: Policies, now: int, key: Text)
    requires AllRefill(policies) && Settled(buckets, now)
    ensures Level(Sweep(buckets, now), key, policies(key), now) == Level(buckets, key, policies(key), now)
  {
    assert Gain(policies(key), 0) == 0.0;
    if key in buckets && key !in Sweep(buckets, now) {
      IdleIsFull(buckets, key, policies(key), now);
    }
  }

  lemma TakesStayAlike(a: Buckets, b: Buckets, key: Text, policies: Policies, now: int)
    requires AllRefill(policies) && Settled(a, now) && Settled(b, now) && Alike(a, b, policies, now)
    requires Trackable(a, key) && Trackable(b, key)
    ensures Take(a, key, policies(key), now).1 == Take(b, key, policies(key), now).1
    ensures Alike(Take(a, key, policies(key), now).0, Take(b, key, policies(key), now).0, policies, now)
  {
    assert Level(a, key, policies(key), now) == Level(b, key, policies(key), now);
    forall other
      ensures Level(Take(a, key, policies(key), now).0, other, policies(other), now)
           == Level(Take(b, key, policies(key), now).0, other, policies(other), now)
    {
      TakeMovesOneLevel(a, key, policies, now, other);
      TakeMovesOneLevel(b, key, policies, now, other);
    }
  }

  // ---------------------------------------------------------------------------------------------------------
  // Eviction is transparent; refused takes are invisible.

  function WithoutSweeps(ops: seq<Op>): (r: seq<Op>)
    ensures forall op :: op in r ==> op in ops
  {
    if ops == [] then []
    else if ops[0].SweepOp? then WithoutSweeps(ops[1..])
    else [ops[0]] + WithoutSweeps(ops[1..])
  }

  lemma {:induction false} SweepsAreTransparentFrom(
      a: Buckets, b: Buckets, ops: seq<Op>, policies: Policies, now: int, keys: set<Text>)
    requires AllRefill(policies) && Monotone(ops, now)
    requires Settled(a, now) && Settled(b, now) && Alike(a, b, policies, now)
    requires Room(a, ops, keys) && Room(b, WithoutSweeps(ops), keys)
    ensures Outcomes(b, WithoutSweeps(ops), policies) == Outcomes(a, ops, policies)
    decreases |ops|
  {
    if ops != [] {
      var op := ops[0];
      AlikeLater(a, b, policies, now, op.now);
      AfterKeepsRoom(a, ops, keys, policies);
      AfterSettles(a, op, policies, now);
      match op
      case SweepOp(at) =>
        forall key
          ensures Level(Sweep(a, at), key, policies(key), at) == Level(b, key, policies(key), at)
        {
          SweepMovesNoLevel(a, policies, at, key);
        }
        SweepsAreTransparentFrom(Sweep(a, at), b, ops[1..], policies, at, keys);
      case TakeOp(key, at) =>
        var kept := WithoutSweeps(ops);
        assert kept[0] == op && kept[1..] == WithoutSweeps(ops[1..]);
        assert op in ops;
        RoomTracks(a, ops, keys, key);
        RoomTracks(b, kept, keys, key);
        AfterKeepsRoom(b, kept, keys, policies);
        AfterSettles(b, op, policies, now);
        TakesStayAlike(a, b, key, policies, at);
        SweepsAreTransparentFrom(After(a, op, policies), After(b, op, policies), ops[1..], policies, at, keys);
    }
  }

  /** Leaving out every sweep changes no decision. */
  lemma SweepsAreTransparent(buckets: Buckets, ops: seq<Op>, policies: Policies, now: int, keys: set<Text>)
    requires AllRefill(policies) && Monotone(ops, now) && Settled(buckets, now) && Room(buckets, ops, keys)
    ensures Outcomes(buckets, WithoutSweeps(ops), policies) == Outcomes(buckets, ops, policies)
  {
    SweepsAreTransparentFrom(buckets, buckets, ops, policies, now, keys);
  }

  /** The run without the takes it refuses. */
  ghost function WithoutRefused(buckets: Buckets, ops: seq<Op>, policies: Policies): (r: seq<Op>)
    requires AllRefill(policies)
    ensures forall op :: op in r ==> op in ops
    decreases |ops|
  {
    if ops == [] then []
    else
      var rest := WithoutRefused(After(buckets, ops[0], policies), ops[1..], policies);
      if ops[0].TakeOp? && !Take(buckets, ops[0].key, policies(ops[0].key), ops[0].now).1.allowed then rest
      else [ops[0]] + rest
  }

  function Admitted(outcomes: seq<Outcome>): seq<Outcome>
  {
    if outcomes == [] then []
    else if outcomes[0].decision.allowed then [outcomes[0]] + Admitted(outcomes[1..])
    else Admitted(outcomes[1..])
  }

  /** Fewer keys, and none touched later: a sweep that spares one of them here spares it there. */
  ghost predicate Within(b: Buckets, a: Buckets)
  {
    b.Keys <= a.Keys && forall key :: key in b ==> b[key].updatedAt <= a[key].updatedAt
  }

  lemma WithinIsTrackable(b: Buckets, a: Buckets, key: Text)
    requires Within(b, a) && Trackable(a, key) && |a| <= MAX_BUCKETS
    ensures Trackable(b, key)
  {
    if key in a && key !in b {
      assert b.Keys <= a.Keys - {key};
      SubsetIsSmaller(b.Keys, a.Keys - {key});
    } else {
      SubsetIsSmaller(b.Keys, a.Keys);
    }
  }

  /** The same op on both, or a refused take on the larger only, leaves one within the other. */
  lemma StaysWithin(b: Buckets, a: Buckets, op: Op, policies: Policies, now: int)
    requires AllRefill(policies) && Within(b, a) && Settled(a, now) && now <= op.now
    requires op.TakeOp? ==> Trackable(a, op.key) && Trackable(b, op.key)
    ensures Within(After(b, op, policies), After(a, op, policies))
    ensures op.TakeOp? && !Take(a, op.key, policies(op.key), op.now).1.allowed ==> Within(b, After(a, op, policies))
  {
    hide Level, Decide;
  }

  lemma {:induction false} RefusalsAreInvisibleFrom(
      a: Buckets, b: Buckets, ops: seq<Op>, policies: Policies, now: int)
    requires AllRefill(policies) && Monotone(ops, now)
    requires Settled(a, now) && Settled(b, now) && Alike(a, b, policies, now)
    requires AllTracked(a, ops, policies) && |a| <= MAX_BUCKETS && Within(b, a)
    ensures Outcomes(b, WithoutRefused(a, ops, policies), policies) == Admitted(Outcomes(a, ops, policies))
    decreases |ops|
  {
    hide Within, Trackable;
    if ops != [] {
      var op := ops[0];
      var kept := WithoutRefused(a, ops, policies);
      var a' := After(a, op, policies);
      AlikeLater(a, b, policies, now, op.now);
      OneOpKeepsCap(a, op, policies);
      AfterSettles(a, op, policies, now);
      AfterSettles(b, op, policies, now);
      if op.TakeOp? { WithinIsTrackable(b, a, op.key); }
      StaysWithin(b, a, op, policies, now);
      match op
      case SweepOp(at) =>
        forall key
          ensures Level(Sweep(a, at), key, policies(key), at) == Level(Sweep(b, at), key, policies(key), at)
        {
          SweepMovesNoLevel(a, policies, at, key);
          SweepMovesNoLevel(b, policies, at, key);
        }
        assert kept[0] == op && kept[1..] == WithoutRefused(a', ops[1..], policies);
        RefusalsAreInvisibleFrom(a', After(b, op, policies), ops[1..], policies, at);
      case TakeOp(key, at) =>
        TakesStayAlike(a, b, key, policies, at);
        if Take(a, key, policies(key), at).1.allowed {
          assert kept[0] == op && kept[1..] == WithoutRefused(a', ops[1..], policies);
          RefusalsAreInvisibleFrom(a', After(b, op, policies), ops[1..], policies, at);
        } else {
          forall other
            ensures Level(a', other, policies(other), at) == Level(b, other, policies(other), at)
          {
            TakeMovesOneLevel(a, key, policies, at, other);
          }
          assert Settled(b, at);
          RefusalsAreInvisibleFrom(a', b, ops[1..], policies, at);
        }
    }
  }

  /** As long as no take meets a full map, leaving out every refused take leaves every other decision as it was. */
  lemma RefusalsAreInvisible(buckets: Buckets, ops: seq<Op>, policies: Policies, now: int)
    requires AllRefill(policies) && Monotone(ops, now) && Settled(buckets, now)
    requires AllTracked(buckets, ops, policies) && |buckets| <= MAX_BUCKETS
    ensures Outcomes(buckets, WithoutRefused(buckets, ops, policies), policies)
         == Admitted(Outcomes(buckets, ops, policies))
  {
    RefusalsAreInvisibleFrom(buckets, buckets, ops, policies, now);
  }

  /** In particular when all the keys of the run fit the map at once. */
  lemma RefusalsAreInvisibleWithRoom(buckets: Buckets, ops: seq<Op>, policies: Policies, now: int, keys: set<Text>)
    requires AllRefill(policies) && Monotone(ops, now) && Settled(buckets, now) && Room(buckets, ops, keys)
    ensures Outcomes(buckets, WithoutRefused(buckets, ops, policies), policies)
         == Admitted(Outcomes(buckets, ops, policies))
  {
    SubsetIsSmaller(buckets.Keys, keys);
    RoomTracksAll(buckets, ops, policies, keys);
    RefusalsAreInvisible(buckets, ops, policies, now);
  }

  lemma {:induction false} RoomTracksAll(buckets: Buckets, ops: seq<Op>, policies: Policies, keys: set<Text>)
    requires AllRefill(policies) && Room(buckets, ops, keys)
    ensures AllTracked(buckets, ops, policies)
    decreases |ops|
  {
    if ops != [] {
      assert ops[0] in ops;
      if ops[0].TakeOp? { RoomTracks(buckets, ops, keys, ops[0].key); }
      AfterKeepsRoom(buckets, ops, keys, policies);
      RoomTracksAll(After(buckets, ops[0], policies), ops[1..], policies, keys);
    }
  }

  // ---------------------------------------------------------------------------------------------------------
  // The bound.

  /** How many takes of a key were admitted in a window. */
  function AdmittedIn(outcomes: seq<Outcome>, key: Text, from: int, to: int): nat
  {
    if outcomes == [] then 0
    else
      var o := outcomes[0];
      (if o.key == key && o.decision.allowed && from <= o.now <= to then 1 else 0)
      + AdmittedIn(outcomes[1..], key, from, to)
  }

  /** The key can be tracked whenever it is taken. */
  ghost predicate Tracked(buckets: Buckets, ops: seq<Op>, policies: Policies, key: Text)
    requires AllRefill(policies)
    decreases |ops|
  {
    ops == [] || (
      && (ops[0] == TakeOp(key, ops[0].now) ==> Trackable(buckets, key))
      && Tracked(After(buckets, ops[0], policies), ops[1..], policies, key))
  }

  /** How many takes of the key in a window found the map full of other keys. */
  ghost function UntrackedIn(buckets: Buckets, ops: seq<Op>, policies: Policies, key: Text, from: int, to: int): nat
    requires AllRefill(policies)
    decreases |ops|
  {
    if ops == [] then 0
    else
      (if ops[0] == TakeOp(key, ops[0].now) && !Trackable(buckets, key) && from <= ops[0].now <= to then 1 else 0)
      + UntrackedIn(After(buckets, ops[0], policies), ops[1..], policies, key, from, to)
  }

  lemma {:induction false} TrackedIsNeverUntracked(
      buckets: Buckets, ops: seq<Op>, policies: Policies, key: Text, from: int, to: int)
    requires AllRefill(policies) && Tracked(buckets, ops, policies, key)
    ensures UntrackedIn(buckets, ops, policies, key, from, to) == 0
    decreases |ops|
  {
    if ops != [] {
      TrackedIsNeverUntracked(After(buckets, ops[0], policies), ops[1..], policies, key, from, to);
    }
  }

  lemma {:induction false} NothingBefore(
      buckets: Buckets, ops: seq<Op>, policies: Policies, key: Text, from: int, to: int, now: int)
    requires AllRefill(policies) && Monotone(ops, now) && to < now
    ensures AdmittedIn(Outcomes(buckets, ops, policies), key, from, to) == 0
    decreases |ops|
  {
    if ops != [] {
      NothingBefore(After(buckets, ops[0], policies), ops[1..], policies, key, from, to, ops[0].now);
    }
  }

  /** This op is a take of the key, and it is admitted. */
  predicate Spends(buckets: Buckets, op: Op, policies: Policies, key: Text)
    requires Refills(policies(key))
  {
    op == TakeOp(key, op.now) && Take(buckets, key, policies(key), op.now).1.allowed
  }

  /** An unseen key is admitted for nothing while the map is full. */
  lemma FullMapAdmitsUntracked(buckets: Buckets, key: Text, p: Policy, now: int)
    requires Refills(p) && !Trackable(buckets, key)
    ensures Take(buckets, key, p, now) == (buckets, Decision(true, 0))
  {
  }

  /** An op costs a key one token exactly when it is an admitted take of it that can be tracked. */
  lemma OpCostsLevel(buckets: Buckets, op: Op, policies: Policies, key: Text)
    requires AllRefill(policies) && Settled(buckets, op.now)
    ensures Level(After(buckets, op, policies), key, policies(key), op.now)
         == Level(buckets, key, policies(key), op.now)
            - (if Spends(buckets, op, policies, key) && Trackable(buckets, key) then 1.0 else 0.0)
  {
    match op
    case SweepOp(at) => SweepMovesNoLevel(buckets, policies, at, key);
    case TakeOp(other, at) =>
      if other != key {
        assert After(buckets, op, policies) == Take(buckets, other, policies(other), at).0;
      } else if Trackable(buckets, key) {
        TakeMovesOneLevel(buckets, key, policies, at, key);
      } else {
        FullMapAdmitsUntracked(buckets, key, policies(key), at);
      }
  }

  lemma OpCounts(buckets: Buckets, ops: seq<Op>, policies: Policies, key: Text, from: int, to: int)
    requires AllRefill(policies) && ops != []
    ensures AdmittedIn(Outcomes(buckets, ops, policies), key, from, to)
         == (if Spends(buckets, ops[0], policies, key) && from <= ops[0].now <= to then 1 else 0)
            + AdmittedIn(Outcomes(After(buckets, ops[0], policies), ops[1..], policies), key, from, to)
  {
    if ops[0].TakeOp? {
      var rest := Outcomes(After(buckets, ops[0], policies), ops[1..], policies);
      assert Outcomes(buckets, ops, policies)[1..] == rest;
    }
  }

  lemma LevelIsNoDebt(buckets: Buckets, key: Text, p: Policy, now: int)
    requires Refills(p) && Settled(buckets, now)
    ensures Level(buckets, key, p, now) >= 0.0
  {
    if key in buckets { GainGrows(p, now - buckets[key].updatedAt); }
  }

  lemma LevelIsWithinBurst(buckets: Buckets, key: Text, p: Policy, now: int)
    ensures Level(buckets, key, p, now) <= p.burst
  {
  }

  /** From any instant inside the window, the rest of it charges no more than the level plus what drips in. */
  lemma {:induction false} LevelBoundsWindow(
      buckets: Buckets, ops: seq<Op>, policies: Policies, key: Text, from: int, to: int, now: int)
    requires AllRefill(policies) && Monotone(ops, now) && Settled(buckets, now)
    requires from <= now <= to
    ensures AdmittedIn(Outcomes(buckets, ops, policies), key, from, to) as real
         <= Level(buckets, key, policies(key), now) + Gain(policies(key), to - now)
            + UntrackedIn(buckets, ops, policies, key, from, to) as real
    decreases |ops|
  {
    hide Trackable, Gain, Level, Spends, Min, Take, Settled, After;
    var p := policies(key);
    GainGrows(p, to - now);
    LevelIsNoDebt(buckets, key, p, now);
    if ops != [] && ops[0].now > to {
      NothingBefore(buckets, ops, policies, key, from, to, ops[0].now);
    } else if ops != [] {
      var op := ops[0];
      SettledLater(buckets, now, op.now);
      AfterSettles(buckets, op, policies, now);
      var next := After(buckets, op, policies);
      LevelBoundsWindow(next, ops[1..], policies, key, from, to, op.now);
      OpCounts(buckets, ops, policies, key, from, to);
      OpCostsLevel(buckets, op, policies, key);
      LevelLater(buckets, key, p, now, op.now);
      GainSplits(p, now, op.now, to);
      UntrackedSpends(buckets, op, policies, key);
      OneOpStaysInBound(
        if Spends(buckets, op, policies, key) then 1 else 0,
        if op == TakeOp(key, op.now) && !Trackable(buckets, key) then 1 else 0,
        AdmittedIn(Outcomes(next, ops[1..], policies), key, from, to),
        UntrackedIn(next, ops[1..], policies, key, from, to),
        Level(buckets, key, p, now), Level(buckets, key, p, op.now), Level(next, key, p, op.now),
        p.burst, Gain(p, op.now - now), Gain(p, to - op.now));
    }
  }

  lemma UntrackedSpends(buckets: Buckets, op: Op, policies: Policies, key: Text)
    requires AllRefill(policies)
    ensures op == TakeOp(key, op.now) && !Trackable(buckets, key) ==> Spends(buckets, op, policies, key)
    ensures Spends(buckets, op, policies, key) ==> op == TakeOp(key, op.now)
  {
    if op == TakeOp(key, op.now) && !Trackable(buckets, key) {
      FullMapAdmitsUntracked(buckets, key, policies(key), op.now);
    }
  }

  lemma OneOpStaysInBound(
      spent: nat, free: nat, rest: nat, restFree: nat,
      level: real, levelThen: real, levelAfter: real, burst: real, before: real, after: real)
    requires levelThen == Min(burst, level + before) && levelAfter == levelThen - (spent - free) as real
    requires rest as real <= levelAfter + after + restFree as real
    ensures (spent + rest) as real <= level + (before + after) + (free + restFree) as real
  {
  }

  lemma GainSplits(p: Policy, a: int, b: int, c: int)
    ensures Gain(p, c - a) == Gain(p, b - a) + Gain(p, c - b)
  {
    GainAdds(p, b - a, c - b);
  }

  /**
   The token-bucket bound: in any window, on any run of takes and sweeps, a key is admitted at most
   burst + rate x length times, and once more for every take of it that found the map full of other keys.
  */
  lemma {:induction false} EveryWindowIsBounded(
      buckets: Buckets, ops: seq<Op>, policies: Policies, key: Text, from: int, to: int, now: int)
    requires AllRefill(policies) && Monotone(ops, now) && Settled(buckets, now) && from <= to
    ensures AdmittedIn(Outcomes(buckets, ops, policies), key, from, to) as real
         <= policies(key).burst + Gain(policies(key), to - from)
            + UntrackedIn(buckets, ops, policies, key, from, to) as real
    decreases |ops|
  {
    hide Trackable, Gain, Level, Spends, Min, Take, Settled, After;
    var p := policies(key);
    assert Refills(p);
    GainGrows(p, to - from);
    if ops != [] {
      var op := ops[0];
      if op.now < from {
        AfterSettles(buckets, op, policies, now);
        EveryWindowIsBounded(After(buckets, op, policies), ops[1..], policies, key, from, to, op.now);
        OpCounts(buckets, ops, policies, key, from, to);
      } else if op.now > to {
        NothingBefore(buckets, ops, policies, key, from, to, op.now);
      } else {
        SettledLater(buckets, now, op.now);
        LevelIsWithinBurst(buckets, key, p, op.now);
        LevelBoundsWindow(buckets, ops, policies, key, from, to, op.now);
        GainSplits(p, from, op.now, to);
        GainGrows(p, op.now - from);
      }
    }
  }

  /** So a key that can be tracked whenever it is taken keeps to burst + rate x length. */
  lemma WindowIsBounded(
      buckets: Buckets, ops: seq<Op>, policies: Policies, key: Text, from: int, to: int, now: int)
    requires AllRefill(policies) && Monotone(ops, now) && Settled(buckets, now)
    requires Tracked(buckets, ops, policies, key) && from <= to
    ensures AdmittedIn(Outcomes(buckets, ops, policies), key, from, to) as real
         <= policies(key).burst + Gain(policies(key), to - from)
  {
    EveryWindowIsBounded(buckets, ops, policies, key, from, to, now);
    TrackedIsNeverUntracked(buckets, ops, policies, key, from, to);
  }

  /** With room for every key of the run, every key is tracked throughout. */
  lemma {:induction false} RoomTracksRun(buckets: Buckets, ops: seq<Op>, policies: Policies, keys: set<Text>, key: Text)
    requires AllRefill(policies) && Room(buckets, ops, keys)
    ensures Tracked(buckets, ops, policies, key)
    decreases |ops|
  {
    if ops != [] {
      assert ops[0] in ops;
      if ops[0] == TakeOp(key, ops[0].now) { RoomTracks(buckets, ops, keys, key); }
      AfterKeepsRoom(buckets, ops, keys, policies);
      RoomTracksRun(After(buckets, ops[0], policies), ops[1..], policies, keys, key);
    }
  }

  // ---------------------------------------------------------------------------------------------------------
  // A full map.

  function TakesOf(key: Text, now: int, n: nat): (r: seq<Op>)
    ensures forall op <- r :: op == TakeOp(key, now)
  {
    if n == 0 then [] else [TakeOp(key, now)] + TakesOf(key, now, n - 1)
  }

  /** On a full map every take of an unseen key is admitted, however many there are at one instant. */
  lemma {:induction false} UnseenKeyIsUnbounded(buckets: Buckets, key: Text, policies: Policies, now: int, n: nat)
    requires AllRefill(policies) && !Trackable(buckets, key)
    ensures AdmittedIn(Outcomes(buckets, TakesOf(key, now, n), policies), key, now, now) == n
    ensures Monotone(TakesOf(key, now, n), now)
  {
    hide Trackable;
    if n > 0 {
      var ops := TakesOf(key, now, n);
      assert ops[0] == TakeOp(key, now) && ops[1..] == TakesOf(key, now, n - 1);
      FullMapAdmitsUntracked(buckets, key, policies(key), now);
      UnseenKeyIsUnbounded(buckets, key, policies, now, n - 1);
      OpCounts(buckets, ops, policies, key, now, now);
    }
  }

  /** A take of each of ten thousand other keys, from the k-th on, and then some more ops. */
  function FillThen(key: Text, now: int, k: nat, more: seq<Op>): seq<Op>
    requires k <= MAX_BUCKETS
    decreases MAX_BUCKETS - k
  {
    if k == MAX_BUCKETS then more else [TakeOp(key + [k], now)] + FillThen(key, now, k + 1, more)
  }

  ghost predicate KeepsBound(buckets: Buckets, ops: seq<Op>, policies: Policies, key: Text, from: int, to: int)
    requires AllRefill(policies)
  {
    AdmittedIn(Outcomes(buckets, ops, policies), key, from, to) as real
      <= policies(key).burst + Gain(policies(key), to - from)
  }

  ghost predicate NoSweeps(ops: seq<Op>) { forall op <- ops :: op.TakeOp? }

  /** The map is full, or holds the first k of those keys; it has not met the key itself. */
  ghost predicate FillingTo(buckets: Buckets, key: Text, k: nat)
    requires k <= MAX_BUCKETS
  {
    && key !in buckets && |buckets| <= MAX_BUCKETS
    && (|buckets| == MAX_BUCKETS || forall j: CodeUnit :: j < k ==> key + [j] in buckets)
  }

  function Fillers(key: Text, k: nat): (r: set<Text>)
    requires k <= MAX_BUCKETS
    ensures |r| == k && forall x :: x in r <==> |x| == |key| + 1 && x[..|key|] == key && x[|key|] < k
  {
    if k == 0 then {}
    else
      var rest := Fillers(key, k - 1);
      var x := key + [k - 1];
      assert x !in rest && x[..|key|] == key;
      assert forall y: Text :: |y| == |key| + 1 && y[..|key|] == key && y[|key|] == k - 1 ==> y == x by {
        forall y: Text | |y| == |key| + 1 && y[..|key|] == key && y[|key|] == k - 1 ensures y == x {
          assert y == y[..|key|] + [y[|key|]];
        }
      }
      rest + {x}
  }

  lemma FilledIsFull(buckets: Buckets, key: Text)
    requires FillingTo(buckets, key, MAX_BUCKETS)
    ensures !Trackable(buckets, key)
  {
    if |buckets| < MAX_BUCKETS {
      var all := Fillers(key, MAX_BUCKETS);
      forall x | x in all ensures x in buckets.Keys {
        var j := x[|key|];
        assert x == key + [j];
      }
      SubsetIsSmaller(all, buckets.Keys);
    }
  }

  lemma OneMoreFilling(buckets: Buckets, key: Text, policies: Policies, now: int, k: nat)
    requires AllRefill(policies) && k < MAX_BUCKETS && FillingTo(buckets, key, k)
    ensures FillingTo(After(buckets, TakeOp(key + [k], now), policies), key, k + 1)
  {
    hide Level, Decide;
    var op := TakeOp(key + [k], now);
    var after := After(buckets, op, policies);
    OneOpKeepsCap(buckets, op, policies);
    assert |key + [k]| == |key| + 1;
    assert buckets.Keys <= after.Keys <= buckets.Keys + {key + [k]};
    SubsetIsSmaller(buckets.Keys, after.Keys);
  }

  lemma {:induction false} FillingIsUnbounded(
      buckets: Buckets, key: Text, policies: Policies, now: int, k: nat, n: nat)
    requires AllRefill(policies) && k <= MAX_BUCKETS && FillingTo(buckets, key, k)
    ensures
      var ops := FillThen(key, now, k, TakesOf(key, now, n));
      && Monotone(ops, now) && NoSweeps(ops)
      && AdmittedIn(Outcomes(buckets, ops, policies), key, now, now) == n
    decreases MAX_BUCKETS - k
  {
    hide FillingTo, Take;
    if k == MAX_BUCKETS {
      FilledIsFull(buckets, key);
      UnseenKeyIsUnbounded(buckets, key, policies, now, n);
    } else {
      var op := TakeOp(key + [k], now);
      var ops := FillThen(key, now, k, TakesOf(key, now, n));
      assert ops[0] == op && ops[1..] == FillThen(key, now, k + 1, TakesOf(key, now, n));
      OneMoreFilling(buckets, key, policies, now, k);
      FillingIsUnbounded(After(buckets, op, policies), key, policies, now, k + 1, n);
      OpCounts(buckets, ops, policies, key, now, now);
    }
  }

  /**
   A full map is reached: from an empty one, a run of ten thousand other keys and then n takes of any key, all at
   one instant, admits the key n times, whatever n.
  */
  lemma NoBoundOnceFull(key: Text, policies: Policies, now: int, n: nat)
    requires AllRefill(policies)
    ensures
      var ops := FillThen(key, now, 0, TakesOf(key, now, n));
      Monotone(ops, now) && AdmittedIn(Outcomes(map[], ops, policies), key, now, now) == n
  {
    FillingIsUnbounded(map[], key, policies, now, 0, n);
  }

  /** With a sweep as well no map is safe: left alone for ten minutes it is swept empty, and then filled. */
  lemma SweptMapLosesBound(buckets: Buckets, key: Text, policies: Policies, now: int, n: nat)
    requires AllRefill(policies) && Settled(buckets, now)
    ensures
      var later := now + IDLE_EVICTION_MS + 1;
      var ops := [SweepOp(later)] + FillThen(key, later, 0, TakesOf(key, later, n));
      Monotone(ops, now) && AdmittedIn(Outcomes(buckets, ops, policies), key, later, later) == n
  {
    var later := now + IDLE_EVICTION_MS + 1;
    var filling := FillThen(key, later, 0, TakesOf(key, later, n));
    assert ([SweepOp(later)] + filling)[1..] == filling;
    assert Sweep(buckets, later) == map[];
    FillingIsUnbounded(map[], key, policies, later, 0, n);
    OpCounts(buckets, [SweepOp(later)] + filling, policies, key, later, later);
  }

  /** A take never removes a key, so without sweeps a key that has its bucket keeps it. */
  lemma {:induction false} SeenStaysTracked(buckets: Buckets, ops: seq<Op>, policies: Policies, key: Text)
    requires AllRefill(policies) && key in buckets && NoSweeps(ops)
    ensures Tracked(buckets, ops, policies, key)
    decreases |ops|
  {
    hide Level, Decide;
    if ops != [] {
      assert ops[0] in ops && NoSweeps(ops[1..]);
      SeenStaysTracked(After(buckets, ops[0], policies), ops[1..], policies, key);
    }
  }

  /**
   From any map within its cap, every run of takes, whatever the keys, keeps the bound on a key in every window
   exactly when the key already has its bucket.
  */
  lemma BoundHoldsAmongOthersExactly(buckets: Buckets, policies: Policies, key: Text, now: int)
    requires AllRefill(policies) && Settled(buckets, now) && |buckets| <= MAX_BUCKETS
    ensures (forall ops: seq<Op>, from: int, to: int :: NoSweeps(ops) && Monotone(ops, now) && from <= to ==>
        KeepsBound(buckets, ops, policies, key, from, to))
      <==> key in buckets
  {
    if key in buckets {
      forall ops: seq<Op>, from: int, to: int | NoSweeps(ops) && Monotone(ops, now) && from <= to
        ensures KeepsBound(buckets, ops, policies, key, from, to)
      {
        SeenStaysTracked(buckets, ops, policies, key);
        WindowIsBounded(buckets, ops, policies, key, from, to, now);
      }
    } else {
      var n: nat := policies(key).burst.Floor + 1;
      var ops := FillThen(key, now, 0, TakesOf(key, now, n));
      FillingIsUnbounded(buckets, key, policies, now, 0, n);
      assert Gain(policies(key), 0) == 0.0;
      assert NoSweeps(ops) && !KeepsBound(buckets, ops, policies, key, now, now);
    }
  }

  /** Takes of one key, and sweeps. */
  ghost predicate Own(ops: seq<Op>, key: Text) { forall op <- ops :: op.TakeOp? ==> op.key == key }

  /** A key that can be tracked stays so while no other key comes in. */
  lemma {:induction false} OwnTakesStayTracked(buckets: Buckets, ops: seq<Op>, policies: Policies, key: Text)
    requires AllRefill(policies) && |buckets| <= MAX_BUCKETS && Trackable(buckets, key) && Own(ops, key)
    ensures Tracked(buckets, ops, policies, key)
    decreases |ops|
  {
    hide Level, Decide;
    if ops != [] {
      var op := ops[0];
      assert op in ops && Own(ops[1..], key);
      OneOpKeepsCap(buckets, op, policies);
      OwnOpKeepsTrackable(buckets, op, policies, key);
      OwnTakesStayTracked(After(buckets, op, policies), ops[1..], policies, key);
    }
  }

  lemma OwnOpKeepsTrackable(buckets: Buckets, op: Op, policies: Policies, key: Text)
    requires AllRefill(policies) && |buckets| <= MAX_BUCKETS && Trackable(buckets, key)
    requires op.TakeOp? ==> op.key == key
    ensures Trackable(After(buckets, op, policies), key)
  {
    match op
    case TakeOp(_, at) =>
    case SweepOp(at) =>
      var after := Sweep(buckets, at);
      if key in buckets && key !in after {
        assert after.Keys <= buckets.Keys - {key};
        SubsetIsSmaller(after.Keys, buckets.Keys - {key});
      } else {
        SubsetIsSmaller(after.Keys, buckets.Keys);
      }
  }

  /**
   From any map within its cap, every run of a key's own takes and sweeps keeps the bound in every window exactly
   when the key has its bucket or the map has room for one.
  */
  lemma BoundHoldsExactly(buckets: Buckets, policies: Policies, key: Text, now: int)
    requires AllRefill(policies) && Settled(buckets, now) && |buckets| <= MAX_BUCKETS
    ensures (forall ops: seq<Op>, from: int, to: int :: Own(ops, key) && Monotone(ops, now) && from <= to ==>
        KeepsBound(buckets, ops, policies, key, from, to))
      <==> key in buckets || |buckets| < MAX_BUCKETS
  {
    if Trackable(buckets, key) {
      forall ops: seq<Op>, from: int, to: int | Own(ops, key) && Monotone(ops, now) && from <= to
        ensures KeepsBound(buckets, ops, policies, key, from, to)
      {
        OwnTakesStayTracked(buckets, ops, policies, key);
        WindowIsBounded(buckets, ops, policies, key, from, to, now);
      }
    } else {
      var n: nat := policies(key).burst.Floor + 1;
      var ops := TakesOf(key, now, n);
      UnseenKeyIsUnbounded(buckets, key, policies, now, n);
      assert Gain(policies(key), 0) == 0.0;
      assert Own(ops, key) && !KeepsBound(buckets, ops, policies, key, now, now);
    }
  }

  // ---------------------------------------------------------------------------------------------------------
  // The bound is all there is: nothing is refused that it would let through.

  ghost predicate Until(ops: seq<Op>, now: int) { forall op <- ops :: op.now <= now }

  /** No window that ends now leaves the key less than its level. */
  lemma {:induction false} LevelIsWithinWindows(
      buckets: Buckets, ops: seq<Op>, policies: Policies, key: Text, start: int, from: int, now: int)
    requires AllRefill(policies) && Monotone(ops, start) && Settled(buckets, start)
    requires Tracked(buckets, ops, policies, key) && Until(ops, now) && start <= now && from <= now
    ensures
      var p := policies(key);
      var admitted := AdmittedIn(Outcomes(buckets, ops, policies), key, from, now) as real;
      var level := Level(RunOps(buckets, ops, policies), key, p, now);
      && (start <= from ==> level <= p.burst + Gain(p, now - from) - admitted)
      && (from <= start ==> level <= Level(buckets, key, p, start) + Gain(p, now - start) - admitted)
    decreases |ops|
  {
    hide Trackable, Gain, Level, Spends, Take, Settled, After;
    var p := policies(key);
    assert Refills(p);
    GainGrows(p, now - from);
    if ops == [] {
      LevelLater(buckets, key, p, start, now);
    } else {
      var op := ops[0];
      assert op in ops;
      var next := After(buckets, op, policies);
      SettledLater(buckets, start, op.now);
      AfterSettles(buckets, op, policies, start);
      LevelIsWithinWindows(next, ops[1..], policies, key, op.now, from, now);
      OpCounts(buckets, ops, policies, key, from, now);
      OpCostsLevel(buckets, op, policies, key);
      UntrackedSpends(buckets, op, policies, key);
      LevelLater(buckets, key, p, start, op.now);
      GainSplits(p, start, op.now, now);
      if from <= op.now {
        GainSplits(p, from, op.now, now);
        GainGrows(p, op.now - from);
      }
    }
  }

  /** And some window leaves it exactly that: the one since it was last full, or since the start. */
  lemma {:induction false} LevelIsAWindow(
      buckets: Buckets, ops: seq<Op>, policies: Policies, key: Text, start: int, now: int) returns (from: int)
    requires AllRefill(policies) && Monotone(ops, start) && Settled(buckets, start)
    requires Tracked(buckets, ops, policies, key) && Until(ops, now) && start <= now
    ensures start <= from <= now
    ensures
      var p := policies(key);
      Level(RunOps(buckets, ops, policies), key, p, now)
      == (if from == start then Level(buckets, key, p, start) else p.burst) + Gain(p, now - from)
         - AdmittedIn(Outcomes(buckets, ops, policies), key, from, now) as real
    decreases |ops|
  {
    hide Trackable, Gain, Level, Spends, Take, Settled, After;
    var p := policies(key);
    assert Refills(p);
    NoGain(p);
    LevelIsWithinBurst(buckets, key, p, start);
    if ops == [] {
      LevelLater(buckets, key, p, start, now);
      from := if Level(buckets, key, p, start) + Gain(p, now - start) <= p.burst then start else now;
    } else {
      var op := ops[0];
      assert op in ops;
      var next := After(buckets, op, policies);
      SettledLater(buckets, start, op.now);
      AfterSettles(buckets, op, policies, start);
      from := LevelIsAWindow(next, ops[1..], policies, key, op.now, now);
      OpCostsLevel(buckets, op, policies, key);
      UntrackedSpends(buckets, op, policies, key);
      LevelLater(buckets, key, p, start, op.now);
      GainSplits(p, start, op.now, now);
      if from == op.now && Level(buckets, key, p, start) + Gain(p, op.now - start) <= p.burst {
        NoneEarlier(next, ops[1..], policies, key, start, op.now, now);
        from := start;
      }
      OpCounts(buckets, ops, policies, key, from, now);
    }
  }

  lemma {:induction false} NoneEarlier(
      buckets: Buckets, ops: seq<Op>, policies: Policies, key: Text, start: int, from: int, now: int)
    requires AllRefill(policies) && Monotone(ops, from) && start <= from
    ensures AdmittedIn(Outcomes(buckets, ops, policies), key, start, now)
         == AdmittedIn(Outcomes(buckets, ops, policies), key, from, now)
    decreases |ops|
  {
    hide Take, After;
    if ops != [] {
      MonotoneFrom(ops[1..], ops[0].now, from);
      NoneEarlier(After(buckets, ops[0], policies), ops[1..], policies, key, start, from, now);
      OpCounts(buckets, ops, policies, key, start, now);
      OpCounts(buckets, ops, policies, key, from, now);
    }
  }

  lemma MonotoneFrom(ops: seq<Op>, now: int, earlier: int)
    requires Monotone(ops, now) && earlier <= now
    ensures Monotone(ops, earlier)
  {
  }

  /**
   A key whose bucket is full at the start, as every key's is in a new process, and that is tracked whenever it is
   taken, is admitted exactly when that keeps every window that ends now within burst + rate x length.
  */
  lemma AdmittedExactly(buckets: Buckets, ops: seq<Op>, policies: Policies, key: Text, start: int, now: int)
    requires AllRefill(policies) && Monotone(ops, start) && Settled(buckets, start)
    requires Tracked(buckets, ops, policies, key) && Until(ops, now) && start <= now
    requires Level(buckets, key, policies(key), start) == policies(key).burst
    ensures
      var p := policies(key);
      Take(RunOps(buckets, ops, policies), key, p, now).1.allowed <==>
        forall from :: start <= from <= now ==>
          (AdmittedIn(Outcomes(buckets, ops, policies), key, from, now) + 1) as real <= p.burst + Gain(p, now - from)
  {
    hide Trackable, Gain, Level, Settled, Tracked, Monotone, RunOps, Outcomes;
    var p := policies(key);
    var level := Level(RunOps(buckets, ops, policies), key, p, now);
    if level >= 1.0 {
      forall from | start <= from <= now
        ensures
          (AdmittedIn(Outcomes(buckets, ops, policies), key, from, now) + 1) as real <= p.burst + Gain(p, now - from)
      {
        LevelIsWithinWindows(buckets, ops, policies, key, start, from, now);
      }
    } else {
      var from := LevelIsAWindow(buckets, ops, policies, key, start, now);
    }
  }

  /** In a new process every bucket is full. */
  lemma NewBucketsAreFull(key: Text, p: Policy, now: int)
    ensures Level(map[], key, p, now) == p.burst && Settled(map[], now)
  {
  }

  // ---------------------------------------------------------------------------------------------------------
  // The retry hint.

  /** Ops that never take the key leave its level to the clock. */
  lemma {:induction false} OthersLeaveLevel(
      buckets: Buckets, ops: seq<Op>, policies: Policies, key: Text, now: int, later: int)
    requires AllRefill(policies) && Monotone(ops, now) && Settled(buckets, now)
    requires forall op <- ops :: op.now <= later && (op.TakeOp? ==> op.key != key)
    requires now <= later
    ensures Settled(RunOps(buckets, ops, policies), later)
    ensures Level(RunOps(buckets, ops, policies), key, policies(key), later)
         == Level(buckets, key, policies(key), later)
    decreases |ops|
  {
    if ops != [] {
      var op := ops[0];
      assert op in ops;
      var next := After(buckets, op, policies);
      AfterSettles(buckets, op, policies, now);
      OpCostsLevel(buckets, op, policies, key);
      LevelLater(buckets, key, policies(key), op.now, later);
      LevelLater(next, key, policies(key), op.now, later);
      OthersLeaveLevel(next, ops[1..], policies, key, op.now, later);
    }
  }

  /**
   The retry hint is honest and tight: after a refusal with hint n, whatever other keys do, the key's next take
   is admitted if it comes n or more seconds later, and, when n is more than one second, refused if it comes a
   second or more before that.
  */
  lemma RetryHintIsExact(
      buckets: Buckets, key: Text, policies: Policies, now: int, ops: seq<Op>, later: int)
    requires AllRefill(policies) && Settled(buckets, now)
    requires !Take(buckets, key, policies(key), now).1.allowed
    requires Monotone(ops, now) && forall op <- ops :: op.now <= later && (op.TakeOp? ==> op.key != key)
    requires now <= later
    ensures
      var (refused, decision) := Take(buckets, key, policies(key), now);
      var n := decision.retryAfterSeconds;
      var next := Take(RunOps(refused, ops, policies), key, policies(key), later).1;
      && n >= 1
      && (later >= now + 1000 * n ==> next.allowed)
      && (n > 1 && later <= now + 1000 * (n - 1) ==> !next.allowed)
  {
    var p := policies(key);
    var (refused, decision) := Take(buckets, key, p, now);
    var level := Level(buckets, key, p, now);
    assert refused == After(buckets, TakeOp(key, now), policies);
    AfterSettles(buckets, TakeOp(key, now), policies, now);
    assert Level(refused, key, p, now) == level by { assert Gain(p, 0) == 0.0; }
    OthersLeaveLevel(refused, ops, policies, key, now, later);
    LevelLater(refused, key, p, now, later);
    HintIsExact(level, p, later - now, decision.retryAfterSeconds);
  }

  lemma Scales(a: real, b: real, rate: real)
    requires rate > 0.0
    ensures a <= b ==> a * rate <= b * rate
    ensures a < b ==> a * rate < b * rate
  {
  }

  lemma DivideThenMultiply(x: real, rate: real)
    requires rate > 0.0
    ensures x / rate * rate == x
  {
  }

  /** The level reaches one exactly when the wait is over. */
  lemma WaitEnds(level: real, p: Policy, ms: int, wait: real)
    requires Refills(p) && wait * p.ratePerSecond == 1.0 - level
    ensures Min(p.burst, level + Gain(p, ms)) >= 1.0 <==> wait <= ms as real / 1000.0
  {
    var seconds, rate := ms as real / 1000.0, p.ratePerSecond;
    assert Gain(p, ms) == seconds * rate;
    if wait <= seconds {
      Scales(wait, seconds, rate);
      assert 1.0 - level <= Gain(p, ms);
    } else {
      Scales(seconds, wait, rate);
      assert Gain(p, ms) < 1.0 - level;
    }
  }

  lemma HintIsExact(level: real, p: Policy, ms: int, n: int)
    requires Refills(p) && level < 1.0 && ms >= 0
    requires n == Max(1, Ceil((1.0 - level) / p.ratePerSecond))
    ensures ms >= 1000 * n ==> Min(p.burst, level + Gain(p, ms)) >= 1.0
    ensures n > 1 && ms <= 1000 * (n - 1) ==> Min(p.burst, level + Gain(p, ms)) < 1.0
  {
    var wait, seconds := (1.0 - level) / p.ratePerSecond, ms as real / 1000.0;
    DivideThenMultiply(1.0 - level, p.ratePerSecond);
    WaitEnds(level, p, ms, wait);
    CeilIsNext(wait);
    if ms >= 1000 * n {
      assert seconds >= n as real >= wait;
    } else if n > 1 && ms <= 1000 * (n - 1) {
      assert seconds <= (n - 1) as real < wait;
    }
  }

  lemma CeilIsNext(x: real)
    ensures (Ceil(x) - 1) as real < x <= Ceil(x) as real
  {
  }
}
