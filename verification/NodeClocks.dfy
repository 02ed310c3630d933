/** The cold-start node clock (PROTOCOL.md 11.3, 11.4). */
module NodeClocks {
  import opened Basics
  import opened Words

  const TIME_REQUEST_BASE_SECS: i64 := 2
  const TIME_REQUEST_MAX_SECS: i64 := 3600

  /** Everything the clock holds. */
  datatype ClockState = ClockState(valid: bool, lastEpoch: u32, correction: i64, nextRequestAt: i64, requestBackoff: i64) {
    predicate InOrder() { TIME_REQUEST_BASE_SECS <= requestBackoff <= TIME_REQUEST_MAX_SECS }

    predicate MayRequest(now: i64) { !valid && now >= nextRequestAt }

    function Floor(): i64 { lastEpoch * EPOCH_SECS }
  }

  function SaturatingAdd(a: i64, b: i64): i64 {
    var s: int := a + b;
    if s > I64_MAX then I64_MAX else if s < I64_MIN then I64_MIN else s
  }

  function Capped(backoff: int): int { if backoff < TIME_REQUEST_MAX_SECS then backoff else TIME_REQUEST_MAX_SECS }

  function Requested(c: ClockState, now: i64): ClockState
    requires c.InOrder()
  {
    c.(nextRequestAt := SaturatingAdd(now, c.requestBackoff), requestBackoff := Capped(c.requestBackoff * 2))
  }

  /** Two's complement in 64 bits, as arithmetic without overflow checks leaves it. */
  function WrapI64(x: int): (w: i64)
    ensures I64_MIN <= x <= I64_MAX ==> w == x
  {
    (x + 0x8000_0000_0000_0000) % 0x1_0000_0000_0000_0000 - 0x8000_0000_0000_0000
  }

  /** A difference that wrapped still cancels: what counts is the sum. */
  lemma WrapAbsorbs(x: int, y: int)
    ensures WrapI64(x + WrapI64(y)) == WrapI64(x + y)
  {
    var q := (y + 0x8000_0000_0000_0000) / 0x1_0000_0000_0000_0000;
    assert WrapI64(y) == y - q * 0x1_0000_0000_0000_0000;
    WrapPeriod(x + y, -q);
  }

  lemma WrapPeriod(x: int, q: int)
    ensures WrapI64(x + q * 0x1_0000_0000_0000_0000) == WrapI64(x)
  {
  }

  /** A success subtracts; neither refusal does, so neither can overflow. */
  function Announced(c: ClockState, asserted: i64, rawNow: i64): (ClockState, Result<()>) {
    if c.valid then (c, Err(ClockAlreadyValid))
    else if asserted <= c.Floor() then (c, Err(TimeRollback(asserted, c.Floor())))
    else
      (c.(valid := true, correction := WrapI64(asserted - rawNow),
          lastEpoch := asserted / EPOCH_SECS % 0x1_0000_0000, requestBackoff := TIME_REQUEST_BASE_SECS), Ok(()))
  }

  function NowOf(c: ClockState, rawNow: i64): Result<i64> {
    if c.valid then Ok(WrapI64(rawNow + c.correction)) else Err(NoClock)
  }

  class NodeClock {
    var valid: bool
    var lastEpoch: u32
    var correction: i64
    var nextRequestAt: i64
    var requestBackoff: i64

    function State(): ClockState
      reads this
    {
      ClockState(valid, lastEpoch, correction, nextRequestAt, requestBackoff)
    }

    /** Cold start: invalid, and free to ask at once. */
    constructor Clockless(lastEpoch: u32)
      ensures State() == FreshClock(false, lastEpoch)
    {
      valid, this.lastEpoch, correction := false, lastEpoch, 0;
      nextRequestAt, requestBackoff := I64_MIN, TIME_REQUEST_BASE_SECS;
    }

    /** Valid from the start: no request is ever permitted. */
    constructor Synced(lastEpoch: u32)
      ensures State() == FreshClock(true, lastEpoch)
    {
      valid, this.lastEpoch, correction := true, lastEpoch, 0;
      nextRequestAt, requestBackoff := I64_MIN, TIME_REQUEST_BASE_SECS;
    }

    predicate MayRequestTime(nowMonotonic: i64): (may: bool)
      reads this
      ensures may == State().MayRequest(nowMonotonic)
    {
      !valid && nowMonotonic >= nextRequestAt
    }

    method RecordTimeRequest(nowMonotonic: i64)
      requires State().InOrder()
      modifies this
      ensures State() == Requested(old(State()), nowMonotonic)
    {
      nextRequestAt := SaturatingAdd(nowMonotonic, requestBackoff);
      var doubled := requestBackoff * 2;
      requestBackoff := if doubled < TIME_REQUEST_MAX_SECS then doubled else TIME_REQUEST_MAX_SECS;
    }

    /** The three rules in order: clock already set, at or below the floor, success. */
    method AcceptTimeAnnounce(asserted: i64, rawNow: i64) returns (r: Result<()>)
      modifies this
      ensures (State(), r) == Announced(old(State()), asserted, rawNow)
    {
      if valid {
        return Err(ClockAlreadyValid);
      }
      var floor := lastEpoch * EPOCH_SECS;
      if asserted <= floor {
        return Err(TimeRollback(asserted, floor));
      }
      correction := WrapI64(asserted - rawNow);
      lastEpoch := asserted / EPOCH_SECS % 0x1_0000_0000;
      valid := true;
      requestBackoff := TIME_REQUEST_BASE_SECS;
      r := Ok(());
    }

    method Now(rawNow: i64) returns (r: Result<i64>)
      ensures r == NowOf(State(), rawNow)
    {
      if !valid {
        return Err(NoClock);
      }
      r := Ok(WrapI64(rawNow + correction));
    }
  }

  function FreshClock(valid: bool, lastEpoch: u32): ClockState {
    ClockState(valid, lastEpoch, 0, I64_MIN, TIME_REQUEST_BASE_SECS)
  }

  // -------------------------------------------------------------- whole runs

  datatype Op =
    | Request(now: i64)
    | Announce(asserted: i64, rawNow: i64)

  function Apply(c: ClockState, op: Op): (c': ClockState)
    requires c.InOrder()
    ensures c'.InOrder()
  {
    match op
    case Request(now) => Requested(c, now)
    case Announce(asserted, rawNow) => Announced(c, asserted, rawNow).0
  }

  /** The clock before operation `k`. */
  function Before(c: ClockState, ops: seq<Op>, k: nat): (c': ClockState)
    requires c.InOrder() && k <= |ops|
    ensures c'.InOrder()
  {
    if k == 0 then c else Apply(Before(c, ops, k - 1), ops[k - 1])
  }

  predicate Succeeds(c: ClockState, ops: seq<Op>, k: nat)
    requires c.InOrder() && k < |ops|
  {
    ops[k].Announce? && Announced(Before(c, ops, k), ops[k].asserted, ops[k].rawNow).1.Ok?
  }

  /** Once valid, always valid: nothing but the request schedule ever changes again. */
  lemma {:induction false} ValidIsForever(c: ClockState, ops: seq<Op>, i: nat, j: nat)
    requires c.InOrder() && i <= j <= |ops|
    requires Before(c, ops, i).valid
    ensures var a, b := Before(c, ops, i), Before(c, ops, j);
      b.valid && b.lastEpoch == a.lastEpoch && b.correction == a.correction
  {
    hide WrapI64;
    if i < j { ValidIsForever(c, ops, i, j - 1); }
  }

  /** No announcement succeeded yet: validity, floor and correction are the initial ones. */
  lemma {:induction false} UntouchedUntilSuccess(c: ClockState, ops: seq<Op>, k: nat)
    requires c.InOrder() && k <= |ops|
    requires forall i :: 0 <= i < k ==> !Succeeds(c, ops, i)
    ensures var b := Before(c, ops, k);
      b.valid == c.valid && b.lastEpoch == c.lastEpoch && b.correction == c.correction
  {
    hide WrapI64;
    if k > 0 {
      UntouchedUntilSuccess(c, ops, k - 1);
      assert !Succeeds(c, ops, k - 1);
    }
  }

  /**
   * Over any run a TIME_ANNOUNCE succeeds at most once, only on a clockless node, and only strictly
   * beyond the floor the node booted with.
   */
  lemma AnnouncedAtMostOnce(c: ClockState, ops: seq<Op>, k: nat, j: nat)
    requires c.InOrder() && k < j <= |ops| && Succeeds(c, ops, k)
    ensures !c.valid && ops[k].asserted > c.lastEpoch * EPOCH_SECS
    ensures forall i :: 0 <= i < k ==> !Succeeds(c, ops, i)
    ensures j < |ops| ==> !Succeeds(c, ops, j)
    ensures Before(c, ops, j).valid && Before(c, ops, j).correction == WrapI64(ops[k].asserted - ops[k].rawNow)
  {
    hide WrapI64;
    forall i | 0 <= i < k ensures !Succeeds(c, ops, i) {
      if Succeeds(c, ops, i) { ValidIsForever(c, ops, i + 1, k); }
    }
    UntouchedUntilSuccess(c, ops, k);
    ValidIsForever(c, ops, k + 1, j);
  }

  /**
   * After the success at `k`, whatever follows, the recovered time is the asserted one plus what the
   * platform clock has advanced: `now(raw) - raw` is constant. It is exact whenever it fits 64 bits,
   * even if the correction itself did not.
   */
  lemma RecoveredTimeAdvances(c: ClockState, ops: seq<Op>, k: nat, j: nat, rawNow: i64)
    requires c.InOrder() && k < j <= |ops| && Succeeds(c, ops, k)
    ensures var exact := ops[k].asserted + (rawNow - ops[k].rawNow);
      && NowOf(Before(c, ops, j), rawNow) == Ok(WrapI64(exact))
      && (I64_MIN <= exact <= I64_MAX ==> NowOf(Before(c, ops, j), rawNow) == Ok(exact))
  {
    AnnouncedAtMostOnce(c, ops, k, j);
    WrapAbsorbs(rawNow, ops[k].asserted - ops[k].rawNow);
  }

  /** A node that booted without a clock tells time exactly once some announcement has succeeded. */
  lemma ClockOnlyFromAnnouncement(c: ClockState, ops: seq<Op>, j: nat, rawNow: i64)
    requires c.InOrder() && j <= |ops|
    ensures NowOf(Before(c, ops, j), rawNow).Ok? <==> c.valid || exists k :: 0 <= k < j && Succeeds(c, ops, k)
  {
    hide WrapI64;
    if c.valid {
      ValidIsForever(c, ops, 0, j);
    } else if k: nat :| k < j && Succeeds(c, ops, k) {
      AnnouncedAtMostOnce(c, ops, k, j);
    } else {
      UntouchedUntilSuccess(c, ops, j);
    }
  }

  /** An announcement the floor the node booted with would let through. */
  predicate BeyondFloor(c: ClockState, op: Op) { op.Announce? && op.asserted > c.lastEpoch * 128 }

  /**
   * What every announcement of a run is answered, from the operations alone: on a clockless node the
   * first one beyond the floor succeeds, those before it are rollbacks, and those after it, like all
   * on a node with a clock, are discarded.
   */
  lemma FirstBeyondFloorSucceeds(c: ClockState, ops: seq<Op>, k: nat)
    requires c.InOrder() && k < |ops| && ops[k].Announce?
    ensures Announced(Before(c, ops, k), ops[k].asserted, ops[k].rawNow).1
         == if c.valid || (exists i :: 0 <= i < k && BeyondFloor(c, ops[i])) then Err(ClockAlreadyValid)
            else if ops[k].asserted > c.lastEpoch * 128 then Ok(())
            else Err(TimeRollback(ops[k].asserted, c.lastEpoch * 128))
  {
    hide WrapI64;
    SuccessSoFar(c, ops, k);
    if c.valid {
      ValidIsForever(c, ops, 0, k);
    } else if i :| 0 <= i < k && Succeeds(c, ops, i) {
      AnnouncedAtMostOnce(c, ops, i, k);
    } else {
      UntouchedUntilSuccess(c, ops, k);
    }
  }

  lemma {:induction false} SuccessSoFar(c: ClockState, ops: seq<Op>, k: nat)
    requires c.InOrder() && k <= |ops|
    ensures (exists i :: 0 <= i < k && Succeeds(c, ops, i)) <==> !c.valid && exists i :: 0 <= i < k && BeyondFloor(c, ops[i])
  {
    hide WrapI64;
    if k > 0 {
      SuccessSoFar(c, ops, k - 1);
      if c.valid {
        ValidIsForever(c, ops, 0, k - 1);
      } else if forall i :: 0 <= i < k - 1 ==> !Succeeds(c, ops, i) {
        UntouchedUntilSuccess(c, ops, k - 1);
        assert Succeeds(c, ops, k - 1) <==> BeyondFloor(c, ops[k - 1]);
      }
    }
  }

  /**
   * After the success at `k`, whatever follows, the stored epoch is the one the asserted time lies
   * in, if and only if that epoch fits 32 bits.
   */
  lemma StoredEpochHoldsAssertion(c: ClockState, ops: seq<Op>, k: nat, j: nat)
    requires c.InOrder() && k < j <= |ops| && Succeeds(c, ops, k)
    ensures var stored := Before(c, ops, j).lastEpoch;
      stored * 128 <= ops[k].asserted < (stored + 1) * 128 <==> ops[k].asserted < 128 * 0x1_0000_0000
  {
    hide WrapI64;
    ValidIsForever(c, ops, k + 1, j);
  }

  /**
   * A node that reboots with the stored epoch refuses, over its whole second run, every assertion at
   * or below that epoch's start: no later clock it accepts lies a whole epoch before the first.
   */
  lemma RebootKeepsFloor(c: ClockState, ops: seq<Op>, k: nat, later: seq<Op>, j: nat)
    requires c.InOrder() && k < |ops| && Succeeds(c, ops, k) && ops[k].asserted < 128 * 0x1_0000_0000
    requires j < |later| && later[j].Announce?
    ensures var again := FreshClock(false, Before(c, ops, |ops|).lastEpoch);
      var r := Announced(Before(again, later, j), later[j].asserted, later[j].rawNow).1;
      && (later[j].asserted <= again.lastEpoch * 128 ==> r.Err?)
      && (r.Ok? ==> later[j].asserted > ops[k].asserted - 128)
  {
    hide WrapI64;
    StoredEpochHoldsAssertion(c, ops, k, |ops|);
    FirstBeyondFloorSucceeds(FreshClock(false, Before(c, ops, |ops|).lastEpoch), later, j);
  }

  /** Past 32-bit epochs, and cut by the cast to an epoch below the stored one. */
  predicate LowersFloor(c: ClockState, asserted: i64) {
    asserted >= EPOCH_SECS * 0x1_0000_0000 && asserted / EPOCH_SECS % 0x1_0000_0000 < c.lastEpoch
  }

  /** A success lowers the persisted epoch exactly when the cast does. */
  lemma FloorFallsExactly(c: ClockState, asserted: i64, rawNow: i64)
    requires Announced(c, asserted, rawNow).1.Ok?
    ensures Announced(c, asserted, rawNow).0.lastEpoch < c.lastEpoch <==> LowersFloor(c, asserted)
  {
    hide WrapI64;
  }

  lemma CastLowersFloor()
    ensures var c := FreshClock(false, 1000);
      Announced(c, EPOCH_SECS * 0x1_0000_0000, 0) == (c.(valid := true, correction := EPOCH_SECS * 0x1_0000_0000, lastEpoch := 0), Ok(()))
  {
  }

  ghost predicate FloorNeverFalls(c: ClockState, ops: seq<Op>)
    requires c.InOrder()
  {
    forall i, j :: 0 <= i <= j <= |ops| ==> Before(c, ops, i).lastEpoch <= Before(c, ops, j).lastEpoch
  }

  /**
   * Over a run the persisted epoch never decreases if and only if no announcement that succeeds
   * lies past 32-bit epochs with a cut epoch below the stored one.
   */
  lemma FloorNeverFallsExactly(c: ClockState, ops: seq<Op>)
    requires c.InOrder()
    ensures FloorNeverFalls(c, ops)
       <==> forall k :: 0 <= k < |ops| && Succeeds(c, ops, k) ==> !LowersFloor(Before(c, ops, k), ops[k].asserted)
  {
    hide LowersFloor, Announced;
    if FloorNeverFalls(c, ops) {
      forall k | 0 <= k < |ops| && Succeeds(c, ops, k) ensures !LowersFloor(Before(c, ops, k), ops[k].asserted) {
        assert Before(c, ops, k).lastEpoch <= Before(c, ops, k + 1).lastEpoch;
        FloorFallsExactly(Before(c, ops, k), ops[k].asserted, ops[k].rawNow);
      }
    } else {
      var i, j :| 0 <= i <= j <= |ops| && Before(c, ops, i).lastEpoch > Before(c, ops, j).lastEpoch;
      var k := FirstFall(c, ops, i, j);
    }
  }

  /** Somewhere between two falling floors a single announcement lowers it. */
  lemma {:induction false} FirstFall(c: ClockState, ops: seq<Op>, i: nat, j: nat) returns (k: nat)
    requires c.InOrder() && i <= j <= |ops| && Before(c, ops, i).lastEpoch > Before(c, ops, j).lastEpoch
    ensures k < |ops| && Succeeds(c, ops, k) && LowersFloor(Before(c, ops, k), ops[k].asserted)
  {
    hide LowersFloor, WrapI64;
    if Before(c, ops, i).lastEpoch > Before(c, ops, j - 1).lastEpoch {
      k := FirstFall(c, ops, i, j - 1);
    } else {
      k := j - 1;
      FloorFallsExactly(Before(c, ops, k), ops[k].asserted, ops[k].rawNow);
    }
  }

  // -------------------------------------------------------- request schedule

  /** The backoff before request `k` of a node that never hears back: 2, 4, 8, ... up to the cap. */
  function Backoff(k: nat): (b: nat)
    ensures TIME_REQUEST_BASE_SECS <= b <= TIME_REQUEST_MAX_SECS
  {
    if k == 0 then TIME_REQUEST_BASE_SECS else Capped(2 * Backoff(k - 1))
  }

  lemma {:induction false} BackoffIsPowerCapped(k: nat)
    ensures Backoff(k) == Capped(Pow2(k + 1))
  {
    if k > 0 {
      BackoffIsPowerCapped(k - 1);
      assert Pow2(k + 1) == 2 * Pow2(k);
    }
  }

  lemma {:induction false} BackoffGrows(j: nat, k: nat)
    requires j <= k
    ensures Backoff(j) <= Backoff(k)
  {
    if j < k { BackoffGrows(j, k - 1); }
  }

  /** Requests are recorded only when permitted; announcements come at any time, with any content. */
  ghost predicate RequestsPermitted(c: ClockState, ops: seq<Op>)
    requires c.InOrder()
  {
    forall i :: 0 <= i < |ops| && ops[i].Request? ==> Before(c, ops, i).MayRequest(ops[i].now)
  }

  /** When the first `n` operations asked for time. */
  function RequestTimes(ops: seq<Op>, n: nat): seq<i64>
    requires n <= |ops|
  {
    if n == 0 then []
    else RequestTimes(ops, n - 1) + if ops[n - 1].Request? then [ops[n - 1].now] else []
  }

  /**
   * While the node has no clock, its schedule is decided by its own requests alone: announcements
   * it refused neither reset the backoff nor move the next permitted instant.
   */
  lemma {:induction false} ScheduleIgnoresRefusals(lastEpoch: u32, ops: seq<Op>, n: nat)
    requires n <= |ops| && !Before(FreshClock(false, lastEpoch), ops, n).valid
    ensures var b, ts := Before(FreshClock(false, lastEpoch), ops, n), RequestTimes(ops, n);
      && b.lastEpoch == lastEpoch && b.requestBackoff == Backoff(|ts|)
      && b.nextRequestAt == if ts == [] then I64_MIN else SaturatingAdd(ts[|ts| - 1], Backoff(|ts| - 1))
  {
    hide SaturatingAdd, WrapI64;
    if n > 0 { ScheduleIgnoresRefusals(lastEpoch, ops, n - 1); }
  }

  /**
   * When the next request is permitted, from the operations alone: never once an announcement beyond
   * the floor has come, and before that from the last request's backoff on.
   */
  lemma PermittedExactly(lastEpoch: u32, ops: seq<Op>, n: nat, now: i64)
    requires n <= |ops|
    ensures var (c, ts) := (FreshClock(false, lastEpoch), RequestTimes(ops, n));
      Before(c, ops, n).MayRequest(now)
      <==> && (forall i :: 0 <= i < n ==> !BeyondFloor(c, ops[i]))
           && (ts == [] || now >= AtMostEnd(ts[|ts| - 1] + Capped(Pow2(|ts|))))
  {
    hide WrapI64;
    var c := FreshClock(false, lastEpoch);
    SuccessSoFar(c, ops, n);
    if !Before(c, ops, n).valid {
      ScheduleIgnoresRefusals(lastEpoch, ops, n);
      if RequestTimes(ops, n) != [] { BackoffIsPowerCapped(|RequestTimes(ops, n)| - 1); }
      forall i | 0 <= i < n ensures !Succeeds(c, ops, i) {
        if Succeeds(c, ops, i) { ValidIsForever(c, ops, i + 1, n); }
      }
    } else if forall i :: 0 <= i < n ==> !Succeeds(c, ops, i) {
      UntouchedUntilSuccess(c, ops, n);
    }
  }

  /** A success ends the requests. */
  lemma NoRequestAfterSuccess(c: ClockState, ops: seq<Op>, k: nat, j: nat)
    requires c.InOrder() && k < j < |ops| && Succeeds(c, ops, k) && RequestsPermitted(c, ops)
    ensures !ops[j].Request?
  {
    AnnouncedAtMostOnce(c, ops, k, j);
  }

  /**
   * Over every sequence of operations, if requests are recorded only when permitted, the gap after
   * request `k` is at least `min(2^(k+1), 3600)` seconds, or the monotonic clock is at its end.
   */
  lemma RequestGap(lastEpoch: u32, ops: seq<Op>, n: nat, k: nat)
    requires n <= |ops| && RequestsPermitted(FreshClock(false, lastEpoch), ops)
    requires k + 1 < |RequestTimes(ops, n)|
    ensures var ts := RequestTimes(ops, n);
      ts[k + 1] >= SaturatingAdd(ts[k], Capped(Pow2(k + 1)))
    decreases n
  {
    hide SaturatingAdd;
    if ops[n - 1].Request? && k + 2 == |RequestTimes(ops, n)| {
      ScheduleIgnoresRefusals(lastEpoch, ops, n - 1);
      BackoffIsPowerCapped(k);
    } else {
      RequestGap(lastEpoch, ops, n - 1, k);
    }
  }

  /** The first `n` backoffs together. */
  function Waiting(n: nat): nat {
    if n == 0 then 0 else Waiting(n - 1) + Backoff(n - 1)
  }

  /** 2 + 4 + ... + 2048 for the first eleven, then an hour each. */
  lemma {:induction false} WaitingClosed(n: nat)
    ensures n <= 11 ==> Waiting(n) == Pow2(n + 1) - 2
    ensures n >= 11 ==> Waiting(n) == 4094 + 3600 * (n - 11)
  {
    if n > 0 {
      WaitingClosed(n - 1);
      BackoffIsPowerCapped(n - 1);
      PowersToCap();
      if n <= 11 { PowerGrows(n, 11); } else { PowerGrows(12, n); }
    }
  }

  lemma PowersToCap()
    ensures Pow2(11) == 2048 && Pow2(12) == 4096
  {
    assert Pow2(4) == 16;
    assert Pow2(8) == 256;
  }

  lemma {:induction false} PowerGrows(j: nat, k: nat)
    requires j <= k
    ensures Pow2(j) <= Pow2(k)
  {
    if j < k { PowerGrows(j, k - 1); }
  }

  function AtMostEnd(t: int): int { if t < I64_MAX then t else I64_MAX }

  /** Any `k` gaps in a row, wherever they begin, wait at least the first `k` backoffs together. */
  lemma {:induction false} SpanCoversWaiting(lastEpoch: u32, ops: seq<Op>, i: nat, k: nat)
    requires RequestsPermitted(FreshClock(false, lastEpoch), ops)
    requires i + k < |RequestTimes(ops, |ops|)|
    ensures var ts := RequestTimes(ops, |ops|);
      ts[i + k] >= AtMostEnd(ts[i] + Waiting(k))
    decreases k
  {
    if k > 0 {
      SpanCoversWaiting(lastEpoch, ops, i, k - 1);
      RequestGap(lastEpoch, ops, |ops|, i + k - 1);
      BackoffIsPowerCapped(i + k - 1);
      BackoffGrows(k - 1, i + k - 1);
    }
  }

  function CountWithin(ts: seq<i64>, from: int, until: int): nat {
    if ts == [] then 0
    else CountWithin(ts[..|ts| - 1], from, until) + if from <= ts[|ts| - 1] <= until then 1 else 0
  }

  /** In a non-decreasing sequence the elements counted span at least that many positions. */
  lemma {:induction false} CountedSpan(ts: seq<i64>, from: int, until: int) returns (i: nat, j: nat)
    requires forall a, b :: 0 <= a < b < |ts| ==> ts[a] <= ts[b]
    requires CountWithin(ts, from, until) > 0
    ensures i <= j < |ts| && j - i == CountWithin(ts, from, until) - 1 && from <= ts[i] && ts[j] <= until
  {
    var before := ts[..|ts| - 1];
    var n := CountWithin(before, from, until);
    if n > 0 { i, j := CountedSpan(before, from, until); }
    if from <= ts[|ts| - 1] <= until {
      i, j := |ts| - 1 - n, |ts| - 1;
    }
  }

  /**
   * So over every sequence of operations, and in any span of time at all, `n` requests need a span
   * of the first `n - 1` backoffs: a dozen, then one an hour.
   */
  lemma RequestsInSpan(lastEpoch: u32, ops: seq<Op>, from: int, until: int)
    requires RequestsPermitted(FreshClock(false, lastEpoch), ops)
    ensures var n := CountWithin(RequestTimes(ops, |ops|), from, until);
      && (0 < n <= 12 ==> until >= AtMostEnd(from + Pow2(n) - 2))
      && (12 <= n ==> until >= AtMostEnd(from + 4094 + 3600 * (n - 12)))
  {
    hide SaturatingAdd, Waiting;
    var ts := RequestTimes(ops, |ops|);
    var n := CountWithin(ts, from, until);
    if n > 0 {
      forall a, b | 0 <= a < b < |ts| ensures ts[a] <= ts[b] {
        SpanCoversWaiting(lastEpoch, ops, a, b - a);
      }
      var i, j := CountedSpan(ts, from, until);
      SpanCoversWaiting(lastEpoch, ops, i, j - i);
      WaitingClosed(n - 1);
    }
  }
}
