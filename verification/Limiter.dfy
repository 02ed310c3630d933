/** Receiver-side token bucket (PROTOCOL.md 10.3, 8.1.1). */
module Limiter {
  import opened Basics

  datatype RateLimit = RateLimit(perSec: u32, burst: u32)

  /** One whole token, in micro-tokens. */
  const TOKEN: u64 := 1_000_000

  /** The bucket over unbounded integers. */
  datatype Bucket = Bucket(perSec: u32, capacity: u64, tokens: u64, lastMs: u64) {
    predicate Valid() {
      && tokens <= capacity
      && TOKEN <= capacity <= U32_MAX * TOKEN
    }

    function Refilled(nowMs: u64): (t: u64)
      requires Valid()
    {
      var t: nat := tokens + perSec * 1000 * (if nowMs > lastMs then nowMs - lastMs else 0);
      if t < capacity then t else capacity
    }

    /** Spend one token at `nowMs`, if there is one. */
    function Acquire(nowMs: u64): (r: (Bucket, bool))
      requires Valid()
      ensures r.0.Valid()
    {
      var t := Refilled(nowMs);
      if t >= TOKEN then (this.(tokens := t - TOKEN, lastMs := nowMs), true)
      else (this.(tokens := t, lastMs := nowMs), false)
    }
  }

  function Capacity(limit: RateLimit): (c: u64)
    ensures TOKEN <= c <= U32_MAX * TOKEN
  {
    (if limit.burst > 1 then limit.burst else 1) * TOKEN
  }

  function NewBucket(limit: RateLimit): (b: Bucket)
    ensures b.Valid()
  {
    Bucket(limit.perSec, Capacity(limit), Capacity(limit), 0)
  }

  function SaturatingAdd(a: u64, b: u64): u64 { if a + b > U64_MAX then U64_MAX else a + b }

  function SaturatingSub(a: u64, b: u64): u64 { if a < b then 0 else a - b }

  function SaturatingMul(a: u64, b: u64): u64 {
    var p: nat := a * b;
    if p > U64_MAX then U64_MAX else p
  }

  class InboundLimiter {
    const perSec: u32
    const capacityMicro: u64
    var tokensMicro: u64
    var lastMs: u64

    function State(): Bucket reads this { Bucket(perSec, capacityMicro, tokensMicro, lastMs) }

    constructor (limit: RateLimit)
      ensures State() == NewBucket(limit)
    {
      perSec := limit.perSec;
      capacityMicro := Capacity(limit);
      tokensMicro := Capacity(limit);
      lastMs := 0;
    }

    /** The saturating 64-bit arithmetic computes exactly what unbounded integers would. */
    method TryAcquire(nowMs: u64) returns (granted: bool)
      requires State().Valid()
      modifies this
      ensures (State(), granted) == old(State()).Acquire(nowMs)
    {
      var elapsedMs := SaturatingSub(nowMs, lastMs);
      lastMs := nowMs;
      var refill := SaturatingMul(SaturatingMul(perSec, 1000), elapsedMs);
      var sum := SaturatingAdd(tokensMicro, refill);
      tokensMicro := if sum < capacityMicro then sum else capacityMicro;
      if tokensMicro >= TOKEN {
        tokensMicro := tokensMicro - TOKEN;
        granted := true;
      } else {
        granted := false;
      }
    }
  }

  // ------------------------------------------------------------- whole runs

  /** The bucket as call `j` finds it, in a run calling at `times` in order. */
  function BucketBefore(limit: RateLimit, times: seq<u64>, j: nat): (b: Bucket)
    requires j <= |times|
    ensures b.Valid() && b.capacity == Capacity(limit) && b.perSec == limit.perSec
    ensures b.lastMs == if j == 0 then 0 else times[j - 1]
  {
    if j == 0 then NewBucket(limit) else BucketBefore(limit, times, j - 1).Acquire(times[j - 1]).0
  }

  predicate Granted(limit: RateLimit, times: seq<u64>, j: nat)
    requires j < |times|
  {
    BucketBefore(limit, times, j).Acquire(times[j]).1
  }

  /** Grants among calls `i..j`. */
  function Grants(limit: RateLimit, times: seq<u64>, i: nat, j: nat): nat
    requires i <= j <= |times|
  {
    if i == j then 0 else Grants(limit, times, i, j - 1) + if Granted(limit, times, j - 1) then 1 else 0
  }

  /** Time the limiter counts from call `i` to call `j`: a backward step counts as none. */
  function Elapsed(times: seq<u64>, i: nat, j: nat): nat
    requires i <= j < |times|
  {
    if i == j then 0
    else Elapsed(times, i, j - 1) + if times[j] > times[j - 1] then times[j] - times[j - 1] else 0
  }

  /** What calls `i..j` leave of a bucket that was full at call `i` and never overflowed since. */
  function Balance(limit: RateLimit, times: seq<u64>, i: nat, j: nat): int
    requires i <= j < |times|
  {
    Capacity(limit) + limit.perSec * 1000 * Elapsed(times, i, j) - Grants(limit, times, i, j) * TOKEN
  }

  function Level(limit: RateLimit, times: seq<u64>, j: nat): u64
    requires j < |times|
  {
    BucketBefore(limit, times, j).Refilled(times[j])
  }

  /** The level at call `j`, after the refill, is the least of the balances since any call. */
  lemma {:induction false} LevelIsLeastBalance(limit: RateLimit, times: seq<u64>, j: nat) returns (tight: nat)
    requires j < |times|
    ensures forall i: nat :: i <= j ==> Level(limit, times, j) <= Balance(limit, times, i, j)
    ensures tight <= j && Level(limit, times, j) == Balance(limit, times, tight, j)
  {
    hide Balance, Level;
    if j == 0 {
      tight := 0;
      FirstLevelIsFull(limit, times);
    } else {
      var t := LevelIsLeastBalance(limit, times, j - 1);
      LevelSteps(limit, times, j);
      forall i: nat | i <= j
        ensures Level(limit, times, j) <= Balance(limit, times, i, j)
      {
        BalanceSteps(limit, times, i, j);
      }
      BalanceSteps(limit, times, t, j);
      BalanceSteps(limit, times, j, j);
      tight := if Level(limit, times, j) < Capacity(limit) then t else j;
    }
  }

  lemma FirstLevelIsFull(limit: RateLimit, times: seq<u64>)
    requires times != []
    ensures Level(limit, times, 0) == Capacity(limit) == Balance(limit, times, 0, 0)
  {
    assert 0 <= limit.perSec * 1000 * (times[0] - 0);
  }

  /** What the limiter credits between two calls in a row, less what it charged for the first. */
  function NetRefill(limit: RateLimit, times: seq<u64>, j: nat): int
    requires 0 < j < |times|
  {
    limit.perSec * 1000 * (if times[j] > times[j - 1] then times[j] - times[j - 1] else 0)
    - (if Granted(limit, times, j - 1) then TOKEN else 0)
  }

  lemma LevelSteps(limit: RateLimit, times: seq<u64>, j: nat)
    requires 0 < j < |times|
    ensures var t := Level(limit, times, j - 1) + NetRefill(limit, times, j);
      Level(limit, times, j) == if t < Capacity(limit) then t else Capacity(limit)
  {
  }

  lemma BalanceSteps(limit: RateLimit, times: seq<u64>, i: nat, j: nat)
    requires i <= j < |times|
    ensures Balance(limit, times, i, j)
         == if i == j then Capacity(limit) else Balance(limit, times, i, j - 1) + NetRefill(limit, times, j)
  {
    if i < j {
      var rate := limit.perSec * 1000;
      var dt := if times[j] > times[j - 1] then times[j] - times[j - 1] else 0;
      assert rate * (Elapsed(times, i, j - 1) + dt) == rate * Elapsed(times, i, j - 1) + rate * dt;
    }
  }

  /**
   * The grants since call `i`, plus one, fit in `max(burst, 1)` tokens and what `per_sec` tokens a
   * second make of the counted milliseconds.
   */
  predicate Affords(limit: RateLimit, times: seq<u64>, i: nat, j: nat)
    requires i <= j < |times|
  {
    (Grants(limit, times, i, j) + 1) * 1000 <= Max(limit.burst, 1) * 1000 + limit.perSec * Elapsed(times, i, j)
  }

  lemma AffordsIsOneToken(limit: RateLimit, times: seq<u64>, i: nat, j: nat)
    requires i <= j < |times|
    ensures Affords(limit, times, i, j) <==> TOKEN <= Balance(limit, times, i, j)
  {
    hide Grants, Elapsed;
    InMilliTokens(limit.perSec, Elapsed(times, i, j));
    assert Capacity(limit) == Max(limit.burst, 1) * 1_000_000;
    OneTokenScales(Grants(limit, times, i, j), Max(limit.burst, 1), limit.perSec * Elapsed(times, i, j));
  }

  /** A millisecond of one token a second is a thousand micro-tokens. */
  lemma InMilliTokens(perSec: nat, ms: nat)
    ensures perSec * 1000 * ms == 1000 * (perSec * ms)
  {
  }

  lemma OneTokenScales(grants: nat, full: nat, refill: nat)
    ensures (grants + 1) * 1000 <= full * 1000 + refill
       <==> 1_000_000 <= full * 1_000_000 + 1000 * refill - grants * 1_000_000
  {
  }

  /**
   * The exact token-bucket law, for every limit and every sequence of call times: call `j` is
   * granted if and only if it is affordable counting from every earlier call.
   */
  lemma GrantLaw(limit: RateLimit, times: seq<u64>, j: nat)
    requires j < |times|
    ensures Granted(limit, times, j) <==> forall i: nat :: i <= j ==> Affords(limit, times, i, j)
  {
    var tight := LevelIsLeastBalance(limit, times, j);
    AffordsIsOneToken(limit, times, tight, j);
    if TOKEN <= Level(limit, times, j) {
      forall i: nat | i <= j ensures Affords(limit, times, i, j) {
        AffordsIsOneToken(limit, times, i, j);
      }
    }
  }

  predicate NonDecreasing(times: seq<u64>) {
    forall i, j :: 0 <= i < j < |times| ==> times[i] <= times[j]
  }

  lemma {:induction false} ElapsedIsDifference(times: seq<u64>, i: nat, j: nat)
    requires i <= j < |times| && NonDecreasing(times)
    ensures Elapsed(times, i, j) == times[j] - times[i]
  {
    if i < j {
      ElapsedIsDifference(times, i, j - 1);
    }
  }

  /**
   * On any clock, every stretch of calls is granted at most burst plus rate times the time the
   * limiter counted over it.
   */
  lemma {:induction false} CountedTimeBound(limit: RateLimit, times: seq<u64>, i: nat, j: nat)
    requires i <= j < |times|
    ensures Grants(limit, times, i, j + 1) * 1000 <= Max(limit.burst, 1) * 1000 + limit.perSec * Elapsed(times, i, j)
  {
    if Granted(limit, times, j) {
      GrantLaw(limit, times, j);
      assert Affords(limit, times, i, j);
    } else if i < j {
      CountedTimeBound(limit, times, i, j - 1);
      RefillGrows(limit.perSec, Elapsed(times, i, j - 1), Elapsed(times, i, j));
    } else {
      assert Grants(limit, times, i, i) == 0;
    }
  }

  lemma RefillGrows(perSec: u32, shorter: nat, longer: nat)
    requires shorter <= longer
    ensures perSec * shorter <= perSec * longer
  {
    assert 0 <= perSec * (longer - shorter) == perSec * longer - perSec * shorter;
  }

  /** Calls `i..j` are granted at most burst plus rate times the difference of their times. */
  predicate WithinBurstPlusRate(limit: RateLimit, times: seq<u64>, i: nat, j: nat)
    requires i <= j < |times|
  {
    Grants(limit, times, i, j + 1) * 1000 <= Max(limit.burst, 1) * 1000 + limit.perSec * (times[j] as int - times[i])
  }

  /** On a monotonic clock every stretch of calls is granted at most burst plus rate times elapsed. */
  lemma IntervalBound(limit: RateLimit, times: seq<u64>, i: nat, j: nat)
    requires i <= j < |times| && NonDecreasing(times)
    ensures WithinBurstPlusRate(limit, times, i, j)
  {
    ElapsedIsDifference(times, i, j);
    CountedTimeBound(limit, times, i, j);
  }

  /**
   * The interval bound holds of every stretch under every limit if and only if the times do not
   * go back.
   */
  lemma IntervalBoundExactly(times: seq<u64>)
    ensures NonDecreasing(times)
       <==> forall limit: RateLimit, i: nat, j: nat :: i <= j < |times| ==> WithinBurstPlusRate(limit, times, i, j)
  {
    if NonDecreasing(times) {
      forall limit: RateLimit, i: nat, j: nat | i <= j < |times| ensures WithinBurstPlusRate(limit, times, i, j) {
        IntervalBound(limit, times, i, j);
      }
    } else {
      var i, j :| 0 <= i < j < |times| && times[i] > times[j];
      assert !WithinBurstPlusRate(RateLimit(1001, 1), times, i, j);
    }
  }

  /**
   * How a backward step breaks it: time between the step and the instant it stepped from is counted
   * again. A single-token bucket that refills within the step grants twice at one instant.
   */
  lemma BackwardStepGrantsTwice(perSec: u32, early: u64, late: u64)
    requires early < late && perSec * (late - early) >= 1000
    ensures var limit, times := RateLimit(perSec, 1), [late, early, late];
      && Granted(limit, times, 0) && !Granted(limit, times, 1) && Granted(limit, times, 2)
      && !WithinBurstPlusRate(limit, times, 0, 2)
  {
    var limit, times := RateLimit(perSec, 1), [late, early, late];
    var full := BucketBefore(limit, times, 0);
    assert 0 <= perSec * 1000 * (late - 0);
    assert BucketBefore(limit, times, 1) == full.(tokens := 0, lastMs := late);
    assert perSec * 1000 * 0 == 0;
    assert BucketBefore(limit, times, 2) == full.(tokens := 0, lastMs := early);
    InMilliTokens(perSec, late - early);
    assert Granted(limit, times, 0) && !Granted(limit, times, 1) && Granted(limit, times, 2);
    assert Grants(limit, times, 0, 1) == 1 && Grants(limit, times, 0, 2) == 1;
    assert Grants(limit, times, 0, 3) == 2;
  }
}
