/** Sender clock arithmetic (PROTOCOL.md 9, 10.1) and sender-side pacing (10.3, 10.4). */
module Clock {
  import opened Basics

  const NANOS_PER_SEC: nat := 1_000_000_000

  /** `(unix_secs / 128) as u32`: the cast truncates. */
  function EpochIdAt(unixSecs: u64): u32 {
    unixSecs / EPOCH_SECS % 0x1_0000_0000
  }

  function EpochOffsetAt(unixSecs: u64, nanos: u32): u32 {
    var intoEpoch := unixSecs % EPOCH_SECS;
    var ticks := intoEpoch * TICKS_PER_SEC + nanos * TICKS_PER_SEC / NANOS_PER_SEC;
    ticks % TICKS_PER_EPOCH
  }

  /** The instant on one uniform scale: whole 1/4096-second ticks since the Unix epoch. */
  function TickCount(unixSecs: u64, nanos: u32): nat {
    (unixSecs * NANOS_PER_SEC + nanos) * TICKS_PER_SEC / NANOS_PER_SEC
  }

  function Rank(epoch: u32, offset: u32): nat { epoch * TICKS_PER_EPOCH + offset }

  /** What the two casts and the modulus need: no epoch beyond 32 bits, no carry out of the epoch. */
  predicate ClockInRange(unixSecs: u64, nanos: u32) {
    && unixSecs < EPOCH_SECS * 0x1_0000_0000
    && unixSecs % EPOCH_SECS * TICKS_PER_SEC + nanos * TICKS_PER_SEC / NANOS_PER_SEC < TICKS_PER_EPOCH
  }

  lemma TickCountSplits(unixSecs: u64, nanos: u32)
    ensures TickCount(unixSecs, nanos)
         == unixSecs / EPOCH_SECS * TICKS_PER_EPOCH
            + unixSecs % EPOCH_SECS * TICKS_PER_SEC + nanos * TICKS_PER_SEC / NANOS_PER_SEC
  {
    var sub := nanos * TICKS_PER_SEC;
    assert (unixSecs * NANOS_PER_SEC + nanos) * TICKS_PER_SEC == unixSecs * TICKS_PER_SEC * NANOS_PER_SEC + sub;
    assert (unixSecs * TICKS_PER_SEC * NANOS_PER_SEC + sub) / NANOS_PER_SEC
        == unixSecs * TICKS_PER_SEC + sub / NANOS_PER_SEC;
    assert unixSecs == unixSecs / EPOCH_SECS * EPOCH_SECS + unixSecs % EPOCH_SECS;
  }

  /**
   * The pair the wire carries is the exact tick count, if and only if the instant is in range.
   */
  lemma ClockIsExact(unixSecs: u64, nanos: u32)
    ensures Rank(EpochIdAt(unixSecs), EpochOffsetAt(unixSecs, nanos)) == TickCount(unixSecs, nanos)
       <==> ClockInRange(unixSecs, nanos)
    ensures EpochIdAt(unixSecs) * 0x8_0000 + EpochOffsetAt(unixSecs, nanos)
            == (unixSecs * 1_000_000_000 + nanos) * 4096 / 1_000_000_000
       <==> unixSecs < 128 * 0x1_0000_0000 && unixSecs % 128 * 4096 + nanos * 4096 / 1_000_000_000 < 0x8_0000
  {
    TickCountSplits(unixSecs, nanos);
    var e := unixSecs / EPOCH_SECS;
    var t := unixSecs % EPOCH_SECS * TICKS_PER_SEC + nanos * TICKS_PER_SEC / NANOS_PER_SEC;
    assert TickCount(unixSecs, nanos) == e * TICKS_PER_EPOCH + t;
    assert e % 0x1_0000_0000 <= e && t % TICKS_PER_EPOCH <= t;
    assert e % 0x1_0000_0000 == e <==> e < 0x1_0000_0000;
    assert t % TICKS_PER_EPOCH == t <==> t < TICKS_PER_EPOCH;
  }

  /**
   * On every input, in range or not: the offset is the tick count modulo one epoch, and the epoch
   * wraps, so instants 2^32 epochs apart show the same pair.
   */
  lemma ClockWraps(unixSecs: u64, nanos: u32)
    ensures EpochOffsetAt(unixSecs, nanos) == TickCount(unixSecs, nanos) % 0x8_0000
    ensures unixSecs + 0x80_0000_0000 <= U64_MAX ==>
      EpochIdAt(unixSecs + 0x80_0000_0000) == EpochIdAt(unixSecs)
      && EpochOffsetAt(unixSecs + 0x80_0000_0000, nanos) == EpochOffsetAt(unixSecs, nanos)
  {
    TickCountSplits(unixSecs, nanos);
    SecondsWrap(unixSecs);
    hide TickCount;
    var sub: nat := nanos * TICKS_PER_SEC / NANOS_PER_SEC;
    EpochsDropOut(unixSecs / EPOCH_SECS, unixSecs % EPOCH_SECS * TICKS_PER_SEC + sub);
  }

  /** 2^32 epochs are 2^39 seconds. */
  lemma SecondsWrap(s: nat)
    ensures (s + 0x80_0000_0000) % 128 == s % 128
    ensures (s + 0x80_0000_0000) / 128 % 0x1_0000_0000 == s / 128 % 0x1_0000_0000
  {
    assert (s + 0x80_0000_0000) / 128 == s / 128 + 0x1_0000_0000;
  }

  lemma EpochsDropOut(e: nat, t: nat)
    ensures (e * 0x8_0000 + t) % 0x8_0000 == t % 0x8_0000
  {
  }

  /** Real nanoseconds never carry, so every instant before epoch 2^32 is in range. */
  lemma RealInstantsInRange(unixSecs: u64, nanos: u32)
    requires unixSecs < EPOCH_SECS * 0x1_0000_0000 && nanos < NANOS_PER_SEC
    ensures ClockInRange(unixSecs, nanos)
  {
  }

  /** Time order is lexicographic order of `(epoch, offset)`. */
  lemma TimeOrderIsPairOrder(s1: u64, n1: u32, s2: u64, n2: u32)
    requires ClockInRange(s1, n1) && ClockInRange(s2, n2)
    ensures TickCount(s1, n1) < TickCount(s2, n2)
       <==> Before((EpochIdAt(s1), EpochOffsetAt(s1, n1)), (EpochIdAt(s2), EpochOffsetAt(s2, n2)))
  {
    ClockIsExact(s1, n1);
    ClockIsExact(s2, n2);
  }

  predicate Before(a: (u32, u32), b: (u32, u32)) {
    a.0 < b.0 || (a.0 == b.0 && a.1 < b.1)
  }

  /** The receiver's epoch or the one before it, whichever has these low four bits (PROTOCOL.md 9.3). */
  function ReconstructEpoch(localEpoch: u32, epochLow: byte): Option<u32> {
    var low := epochLow % 0x10;
    if localEpoch % 0x10 == low then Some(localEpoch)
    else if localEpoch > 0 && (localEpoch - 1) % 0x10 == low then Some(localEpoch - 1)
    else None
  }

  /** A sender's own epoch is recovered by a receiver in that epoch or the next one. */
  lemma ReconstructOwnEpoch(epoch: u32, localEpoch: u32)
    ensures localEpoch == epoch || localEpoch == epoch + 1
       ==> ReconstructEpoch(localEpoch, epoch % 0x10) == Some(epoch)
    ensures ReconstructEpoch(localEpoch, epoch % 0x10) == Some(epoch)
       ==> localEpoch == epoch || localEpoch == epoch + 1
  {
  }

  // ------------------------------------------------------------------ pacer

  datatype PacerState = PacerState(epoch: Option<u32>, lastOffset: Option<u32>)

  const NEW_PACER := PacerState(None, None)

  /** One claim, as a function of the pair the clock shows. */
  function Claim(p: PacerState, epoch: u32, offset: u32): (PacerState, Result<(u32, u32)>) {
    var last := if p.epoch == Some(epoch) then p.lastOffset else None;
    if last.Some? && offset <= last.value
    then (PacerState(Some(epoch), last), Err(OffsetReuse(offset)))
    else (PacerState(Some(epoch), Some(offset)), Ok((epoch, offset)))
  }

  class Pacer {
    var epoch: Option<u32>
    var lastOffset: Option<u32>

    function State(): PacerState reads this { PacerState(epoch, lastOffset) }

    constructor ()
      ensures State() == NEW_PACER
    {
      epoch, lastOffset := None, None;
    }

    /** Issue the pair the clock shows, unless its tick is not beyond the last one issued in that epoch. */
    method ClaimAt(unixSecs: u64, nanos: u32) returns (r: Result<(u32, u32)>)
      modifies this
      ensures (State(), r) == Claim(old(State()), EpochIdAt(unixSecs), EpochOffsetAt(unixSecs, nanos))
    {
      var e := EpochIdAt(unixSecs);
      var off := EpochOffsetAt(unixSecs, nanos);
      if epoch != Some(e) {
        epoch := Some(e);
        lastOffset := None;
      }
      if lastOffset.Some? && off <= lastOffset.value {
        r := Err(OffsetReuse(off));
      } else {
        lastOffset := Some(off);
        r := Ok((e, off));
      }
    }
  }

  /** The pacer after the claims in `shown`, and the pairs it issued, in order. */
  function PacerRun(shown: seq<(u32, u32)>): (PacerState, seq<(u32, u32)>) {
    if shown == [] then (NEW_PACER, [])
    else
      var (p, issued) := PacerRun(shown[..|shown| - 1]);
      var (epoch, offset) := shown[|shown| - 1];
      var (p', r) := Claim(p, epoch, offset);
      (p', if r.Ok? then issued + [r.value] else issued)
  }

  predicate EpochsNonDecreasing(shown: seq<(u32, u32)>) {
    forall i, j :: 0 <= i < j < |shown| ==> shown[i].0 <= shown[j].0
  }

  ghost predicate StrictlyIncreasing(issued: seq<(u32, u32)>) {
    forall i, j :: 0 <= i < j < |issued| ==> Before(issued[i], issued[j])
  }

  /**
   * Over any run at all, the state is the last pair issued, and its epoch is the last one shown:
   * the first claim in an epoch just entered is never refused.
   */
  lemma {:induction false} PacerRemembersLast(shown: seq<(u32, u32)>)
    ensures var (p, issued) := PacerRun(shown);
      if shown == [] then p == NEW_PACER && issued == []
      else issued != [] && p == PacerState(Some(Last(issued).0), Some(Last(issued).1)) && Last(issued).0 == Last(shown).0
  {
    if shown != [] {
      PacerRemembersLast(shown[..|shown| - 1]);
    }
  }

  function Last(s: seq<(u32, u32)>): (u32, u32)
    requires s != []
  {
    s[|s| - 1]
  }

  /**
   * The issued pairs strictly increase if and only if the epochs shown never decrease. Backward
   * steps of the clock inside an epoch do no harm.
   */
  lemma {:induction false} IssuedPairsIncrease(shown: seq<(u32, u32)>)
    ensures StrictlyIncreasing(PacerRun(shown).1) <==> EpochsNonDecreasing(shown)
  {
    if shown != [] {
      var before := shown[..|shown| - 1];
      IssuedPairsIncrease(before);
      PacerRemembersLast(before);
      var (p, issued) := PacerRun(before);
      var (p', issued') := PacerRun(shown);
      EpochsOneMore(before, Last(shown));
      assert before + [Last(shown)] == shown;
      if issued' != issued {
        IncreasingOneMore(issued, Last(shown));
      }
    }
  }

  lemma EpochsOneMore(before: seq<(u32, u32)>, x: (u32, u32))
    ensures EpochsNonDecreasing(before + [x])
       <==> EpochsNonDecreasing(before) && (before != [] ==> Last(before).0 <= x.0)
  {
    var all := before + [x];
    if EpochsNonDecreasing(all) {
      forall i, j | 0 <= i < j < |before| ensures before[i].0 <= before[j].0 {
        assert all[i].0 <= all[j].0;
      }
      if before != [] { assert all[|before| - 1].0 <= all[|before|].0; }
    }
  }

  lemma IncreasingOneMore(issued: seq<(u32, u32)>, x: (u32, u32))
    ensures StrictlyIncreasing(issued + [x])
       <==> StrictlyIncreasing(issued) && (issued != [] ==> Before(Last(issued), x))
  {
    var all := issued + [x];
    if StrictlyIncreasing(all) {
      forall i, j | 0 <= i < j < |issued| ensures Before(issued[i], issued[j]) {
        assert Before(all[i], all[j]);
      }
      if issued != [] { assert Before(all[|issued| - 1], all[|issued|]); }
    }
  }

  /** A claim is refused exactly when its tick is at or below one already issued in its epoch. */
  lemma RefusedOnlyForReuse(shown: seq<(u32, u32)>, epoch: u32, offset: u32)
    requires EpochsNonDecreasing(shown + [(epoch, offset)])
    ensures var (p, issued) := PacerRun(shown);
      Claim(p, epoch, offset).1
      == if exists q :: q in issued && q.0 == epoch && offset <= q.1 then Err(OffsetReuse(offset)) else Ok((epoch, offset))
  {
    EpochsOneMore(shown, (epoch, offset));
    PacerRemembersLast(shown);
    IssuedPairsIncrease(shown);
    var (p, issued) := PacerRun(shown);
    if shown != [] {
      assert Last(issued) in issued;
      forall i | 0 <= i < |issued| - 1 ensures Before(issued[i], Last(issued)) {}
    }
  }

  /** Epochs stepping back do break it: the pacer forgets the epoch it left. */
  lemma BackwardEpochReissues()
    ensures PacerRun([(6, 10), (5, 10), (6, 10)]).1 == [(6, 10), (5, 10), (6, 10)]
  {
    var none: seq<(u32, u32)> := [];
    RunOneMore(none, 6, 10);
    RunOneMore([(6, 10)], 5, 10);
    RunOneMore([(6, 10), (5, 10)], 6, 10);
  }

  lemma RunOneMore(shown: seq<(u32, u32)>, epoch: u32, offset: u32)
    ensures var (p, issued) := PacerRun(shown);
      var (p', r) := Claim(p, epoch, offset);
      PacerRun(shown + [(epoch, offset)]) == (p', if r.Ok? then issued + [r.value] else issued)
  {
    var all := shown + [(epoch, offset)];
    assert all[..|all| - 1] == shown;
  }

  /** Instants in time order, as one clock with forward and in-epoch backward steps shows them. */
  function Shown(instants: seq<(u64, u32)>): (shown: seq<(u32, u32)>)
    ensures |shown| == |instants|
    ensures forall i :: 0 <= i < |instants| ==> shown[i] == PairAt(instants[i])
  {
    if instants == [] then [] else [PairAt(instants[0])] + Shown(instants[1..])
  }

  function PairAt(instant: (u64, u32)): (u32, u32) {
    (EpochIdAt(instant.0), EpochOffsetAt(instant.0, instant.1))
  }

  /**
   * A reboot needs no stored state: a fresh pacer whose first instant is later than every instant
   * claimed before the outage issues only pairs beyond all of those.
   */
  lemma RebootContinues(earlier: seq<(u64, u32)>, later: seq<(u64, u32)>)
    requires forall x :: x in earlier || x in later ==> ClockInRange(x.0, x.1)
    requires forall x, y :: x in earlier && y in later ==> TickCount(x.0, x.1) < TickCount(y.0, y.1)
    ensures forall a, b :: a in PacerRun(Shown(earlier)).1 && b in PacerRun(Shown(later)).1 ==> Before(a, b)
  {
    forall a, b | a in PacerRun(Shown(earlier)).1 && b in PacerRun(Shown(later)).1 ensures Before(a, b) {
      var x := IssuedInstant(earlier, a);
      var y := IssuedInstant(later, b);
      TimeOrderIsPairOrder(x.0, x.1, y.0, y.1);
    }
  }

  lemma IssuedInstant(instants: seq<(u64, u32)>, q: (u32, u32)) returns (x: (u64, u32))
    requires q in PacerRun(Shown(instants)).1
    ensures x in instants && q == PairAt(x)
  {
    IssuedWasShown(Shown(instants), q);
    var i :| 0 <= i < |instants| && Shown(instants)[i] == q;
    x := instants[i];
  }

  lemma {:induction false} IssuedWasShown(shown: seq<(u32, u32)>, q: (u32, u32))
    requires q in PacerRun(shown).1
    ensures q in shown
  {
    if shown != [] {
      var before := shown[..|shown| - 1];
      var (p, issued) := PacerRun(before);
      if q in issued { IssuedWasShown(before, q); }
      else {
        assert q == shown[|shown| - 1];
      }
    }
  }
}
