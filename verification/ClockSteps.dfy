/** Exactly which receiver clocks keep the guarantees of a run, when a clock may go back. */
module ClockSteps {
  import opened Basics
  import opened Clock
  import opened Mac
  import opened Peer
  import opened PeerRuns
  import opened Replay
  import opened RoundTrips
  import opened Verify
  import opened Wire

  /** The calls come at these local epochs. */
  predicate ShownAs(calls: seq<Call>, locals: seq<u32>) {
    |calls| == |locals| && forall i :: 0 <= i < |calls| ==> calls[i].localEpoch == locals[i]
  }

  /** Epoch `e` is in the acceptance window at `i`, has left it at `k`, and is back in it at `j`. */
  predicate ReopenedAt(locals: seq<u32>, e: u32, i: nat, k: nat, j: nat) {
    && i < k < j < |locals|
    && InAcceptanceWindow(e, locals[i]) && !InAcceptanceWindow(e, locals[k]) && InAcceptanceWindow(e, locals[j])
  }

  ghost predicate Reopens(locals: seq<u32>) {
    exists e: u32, i: nat, k: nat, j: nat :: ReopenedAt(locals, e, i, k, j)
  }

  /**
   * For any sequence of local epochs, going back or not: no traffic whatever gets an (epoch, offset)
   * pair past the replay check twice, if and only if no epoch leaves the acceptance window and
   * re-enters it.
   */
  lemma ReplayGuaranteeExactly(rx: Receiver, locals: seq<u32>)
    ensures (forall calls :: ShownAs(calls, locals) ==> NoRepeats(rx.Pairs(NewModel(rx.cfg), calls)))
       <==> !Reopens(locals)
  {
    hide Receiver.Pairs, NoRepeats, ReopenedAt;
    if Reopens(locals) {
      var e: u32, i: nat, k: nat, j: nat :| ReopenedAt(locals, e, i, k, j);
      var calls := ReopenedReplays(rx, locals, e, i, k, j);
    } else {
      forall calls | ShownAs(calls, locals) ensures NoRepeats(rx.Pairs(NewModel(rx.cfg), calls)) {
        assert [] + locals == locals;
        NoReplayUnlessReopened(rx, NewModel(rx.cfg), [], {}, calls, locals);
      }
    }
  }

  // ------------------------------------------------------------------ enough

  /** The pair was consumed at `i`, and is remembered since, the last prune being at `k`. */
  ghost predicate Held(past: seq<u32>, m: Model, p: (u32, u32), i: nat, k: nat) {
    i <= k < |past| && InAcceptanceWindow(p.0, past[i]) && p in m.history && past[k] == m.clock
  }

  /** The pair was consumed at `i`, and its epoch had left the acceptance window at `k`. */
  predicate Gone(past: seq<u32>, p: (u32, u32), i: nat, k: nat) {
    i < k < |past| && InAcceptanceWindow(p.0, past[i]) && !InAcceptanceWindow(p.0, past[k])
  }

  ghost predicate Accounted(past: seq<u32>, m: Model, p: (u32, u32)) {
    (exists i: nat, k: nat :: Held(past, m, p, i, k)) || (exists i: nat, k: nat :: Gone(past, p, i, k))
  }

  lemma StaysAccounted(rx: Receiver, past: seq<u32>, m: Model, c: Call, p: (u32, u32))
    requires m.Valid() && Accounted(past, m, p)
    ensures Accounted(past + [c.localEpoch], rx.Next(m, c), p)
    ensures p !in m.Recalled(c.buf, c.localEpoch).history ==>
      exists i: nat, k: nat :: Gone(past + [c.localEpoch], p, i, k)
  {
    hide Receiver.Pair, Receiver.Next, Receiver.Result, Prunes, InAcceptanceWindow;
    NextRemembers(rx, m, c);
    var past', m', n := past + [c.localEpoch], rx.Next(m, c), |past|;
    if i: nat, k: nat :| Gone(past, p, i, k) {
      assert Gone(past', p, i, k);
    } else {
      var i: nat, k: nat :| Held(past, m, p, i, k);
      if !Prunes(c.buf, c.localEpoch) {
        assert Held(past', m', p, i, k);
      } else if p in m.Recalled(c.buf, c.localEpoch).history {
        assert Held(past', m', p, i, n);
      } else if !InAcceptanceWindow(p.0, m.clock) {
        assert Gone(past', p, i, k);
      } else {
        assert Gone(past', p, i, n);
      }
    }
  }

  lemma {:induction false} NoReplayUnlessReopened(rx: Receiver, m: Model, past: seq<u32>, used: set<(u32, u32)>,
                                                 calls: seq<Call>, locals: seq<u32>)
    requires m.Valid() && ShownAs(calls, locals) && !Reopens(past + locals)
    requires forall p :: p in used ==> Accounted(past, m, p)
    ensures NoRepeats(rx.Pairs(m, calls))
    ensures forall p :: p in rx.Pairs(m, calls) ==> p !in used
    decreases |calls|
  {
    hide Receiver.Pair, Receiver.Next, Receiver.Result, Prunes, InAcceptanceWindow, Accounted, Model.Recalled;
    if calls != [] {
      var c, past' := calls[0], past + [calls[0].localEpoch];
      assert past' + locals[1..] == past + locals;
      NextRemembers(rx, m, c);
      var pair := rx.Pair(m, c);
      var used' := if pair.Some? then used + {pair.value} else used;
      forall p | p in used ensures Accounted(past', rx.Next(m, c), p) && pair != Some(p) {
        StaysAccounted(rx, past, m, c, p);
        if pair == Some(p) {
          var i: nat, k: nat :| Gone(past', p, i, k);
          BackAfterGone(past', past + locals, p, i, k);
        }
      }
      if pair.Some? { JustConsumed(past', rx.Next(m, c), pair.value); }
      NoReplayUnlessReopened(rx, rx.Next(m, c), past', used', calls[1..], locals[1..]);
    }
  }

  lemma BackAfterGone(past: seq<u32>, locals: seq<u32>, p: (u32, u32), i: nat, k: nat)
    requires Gone(past, p, i, k) && past <= locals && InAcceptanceWindow(p.0, past[|past| - 1])
    ensures ReopenedAt(locals, p.0, i, k, |past| - 1)
  {
  }

  lemma JustConsumed(past: seq<u32>, m: Model, p: (u32, u32))
    requires past != [] && past[|past| - 1] == m.clock && InAcceptanceWindow(p.0, m.clock) && p in m.history
    ensures Accounted(past, m, p)
  {
    assert Held(past, m, p, |past| - 1, |past| - 1);
  }

  // --------------------------------------------------------------- necessary

  /** Bytes that open in every acceptance window of their epoch. */
  lemma Presentable(rx: Receiver, e: u32) returns (wire: seq<byte>)
    ensures forall local: u32 :: InAcceptanceWindow(e, local) ==>
      var o := Screen(rx.cr, wire, rx.cfg, local, rx.dir);
      o.Ok? && o.value.epochId == e && o.value.head.offset == 0
  {
    hide Datagram.Encoding, WellFormed, Open, Screen, Frame;
    var d := NumberDatagram(rx.cfg.cipher, rx.cfg.senderId, e, 0, SCALE_MIN, 0).value;
    NumberWellFormed(rx.cfg.cipher, rx.cfg.senderId, e, 0, SCALE_MIN, 0, 0);
    assert d.(reserved := 0) == d;
    EncodingFailsOnlyOversize(rx.cr, d, rx.cfg.secret, e, rx.dir);
    wire := d.Encoding(rx.cr, rx.cfg.secret, e, rx.dir).value;
    forall local: u32 | InAcceptanceWindow(e, local)
      ensures var o := Screen(rx.cr, wire, rx.cfg, local, rx.dir);
        o.Ok? && o.value.epochId == e && o.value.head.offset == 0
    {
      DecodeAfterEncode(rx.cr, d, rx.cfg, e, local, rx.dir);
      ScreenOpensTheSame(rx.cr, wire, rx.cfg, local, rx.dir);
    }
  }

  /** A bare header of version 0: it makes the receiver prune and is then discarded. */
  function Nudge(local: u32): seq<byte> { [0, local % 0x10, 0, 0, 0, 0, 0, 0, 0] }

  /** Nothing at all, the nudge at `k`, the same bytes at `i` and at `j`. */
  function Traffic(wire: seq<byte>, locals: seq<u32>, i: nat, k: nat, j: nat, x: nat): Call
    requires x < |locals|
  {
    Call(if x == i || x == j then wire else if x == k then Nudge(locals[k]) else [], locals[x], 0)
  }

  lemma ReopenedReplays(rx: Receiver, locals: seq<u32>, e: u32, i: nat, k: nat, j: nat) returns (calls: seq<Call>)
    requires ReopenedAt(locals, e, i, k, j)
    ensures ShownAs(calls, locals) && !NoRepeats(rx.Pairs(NewModel(rx.cfg), calls))
    ensures |rx.Pairs(NewModel(rx.cfg), calls)| == 2
  {
    hide Receiver.Pairs, NewModel;
    var wire := Presentable(rx, e);
    calls := seq(|locals|, x requires 0 <= x < |locals| => Traffic(wire, locals, i, k, j, x));
    TrafficPairs(rx, wire, locals, e, i, k, j, calls, |calls|);
    assert calls[..|calls|] == calls;
    var pairs := rx.Pairs(NewModel(rx.cfg), calls);
    assert pairs[0] == pairs[1];
  }

  lemma {:induction false} OneMoreCall(rx: Receiver, m: Model, calls: seq<Call>, c: Call)
    requires m.Valid()
    ensures rx.After(m, calls + [c]) == rx.Next(rx.After(m, calls), c)
    ensures var pair := rx.Pair(rx.After(m, calls), c);
      rx.Pairs(m, calls + [c]) == rx.Pairs(m, calls) + if pair.Some? then [pair.value] else []
    decreases |calls|
  {
    hide Receiver.Pair, Receiver.Next;
    if calls == [] {
      assert [] + [c] == [c];
      assert rx.After(m, [c]) == rx.After(rx.Next(m, c), []);
    } else {
      assert (calls + [c])[1..] == calls[1..] + [c];
      OneMoreCall(rx, rx.Next(m, calls[0]), calls[1..], c);
    }
  }

  /** What is remembered and what was consumed after the first `n` calls of the traffic. */
  lemma {:induction false} TrafficPairs(rx: Receiver, wire: seq<byte>, locals: seq<u32>, e: u32, i: nat, k: nat, j: nat,
                                       calls: seq<Call>, n: nat)
    requires ReopenedAt(locals, e, i, k, j) && n <= |calls| == |locals|
    requires forall x :: 0 <= x < |calls| ==> calls[x] == Traffic(wire, locals, i, k, j, x)
    requires forall local: u32 :: InAcceptanceWindow(e, local) ==>
      var o := Screen(rx.cr, wire, rx.cfg, local, rx.dir);
      o.Ok? && o.value.epochId == e && o.value.head.offset == 0
    ensures var (m, pairs) := (rx.After(NewModel(rx.cfg), calls[..n]), rx.Pairs(NewModel(rx.cfg), calls[..n]));
      && (n <= i ==> m.history == {} && pairs == [])
      && (i < n <= k ==> m.history == {(e, 0)} && m.clock == locals[i] && pairs == [(e, 0)])
      && (k < n <= j ==> m.history == Remembered({(e, 0)}, locals[i], locals[k]) && m.clock == locals[k] && pairs == [(e, 0)])
      && (j < n ==> pairs == [(e, 0), (e, 0)])
  {
    hide Receiver.Pair, Receiver.Next, Receiver.After, Receiver.Pairs, Screen, Remembered, InAcceptanceWindow;
    if n == 0 {
      EmptyRun(rx);
    } else {
      var x, m := n - 1, rx.After(NewModel(rx.cfg), calls[..n - 1]);
      TrafficPairs(rx, wire, locals, e, i, k, j, calls, x);
      assert calls[..n] == calls[..x] + [calls[x]];
      OneMoreCall(rx, NewModel(rx.cfg), calls[..x], calls[x]);
      NextRemembers(rx, m, calls[x]);
      if x == i || x == j {
        if x == j { ForgottenBy(e, locals[i], locals[k], locals[j]); } else { NothingRemembered(m.clock, locals[i]); }
        FirstOfEpoch(rx, m, calls[x], e);
      } else {
        NoiseConsumesNothing(rx, m, calls[x]);
      }
    }
  }

  lemma EmptyRun(rx: Receiver)
    ensures rx.After(NewModel(rx.cfg), []) == NewModel(rx.cfg) && rx.Pairs(NewModel(rx.cfg), []) == []
    ensures NewModel(rx.cfg).history == {}
  {
  }

  /** An epoch outside the window in between is forgotten by the time it is back in it. */
  lemma ForgottenBy(e: u32, first: u32, between: u32, last: u32)
    requires InAcceptanceWindow(e, first) && !InAcceptanceWindow(e, between) && InAcceptanceWindow(e, last)
    ensures Remembered(Remembered({(e, 0)}, first, between), between, last) == {}
  {
  }

  lemma NothingRemembered(clock: u32, localEpoch: u32)
    ensures Remembered({}, clock, localEpoch) == {}
  {
  }

  lemma FirstOfEpoch(rx: Receiver, m: Model, c: Call, e: u32)
    requires m.Valid() && Remembered(m.history, m.clock, c.localEpoch) == {}
    requires var o := rx.Screened(c); o.Ok? && o.value.epochId == e && o.value.head.offset == 0
    ensures rx.Pair(m, c) == Some((e, 0))
  {
    hide Open, Remembered;
  }

  lemma NoiseConsumesNothing(rx: Receiver, m: Model, c: Call)
    requires m.Valid() && (c.buf == [] || c.buf == Nudge(c.localEpoch))
    ensures rx.Pair(m, c) == None && (Prunes(c.buf, c.localEpoch) <==> c.buf != [])
  {
    hide EpochKey, MacOf, Datagram.AuthHeader, Fresh;
    if c.buf != [] {
      ReconstructOwnEpoch(c.localEpoch, c.localEpoch);
      assert ParseHeader(c.buf).version == 0;
    }
  }

  // ------------------------------------------------------- deleting the rest

  /** What remains of a run when the calls that consumed nothing are deleted: the same verdicts, the same pairs. */
  ghost predicate DeletionIsInvisible(rx: Receiver, calls: seq<Call>) {
    var m := NewModel(rx.cfg);
    && rx.Results(m, rx.Consuming(m, calls)) == rx.ConsumingResults(m, calls)
    && rx.Pairs(m, rx.Consuming(m, calls)) == rx.Pairs(m, calls)
  }

  /**
   * The same clocks, exactly, make forgeries, junk and replays invisible to the rest of a run: for
   * any sequence of local epochs, deleting the calls that consumed nothing never changes a remaining
   * verdict if and only if no epoch leaves the acceptance window and re-enters it.
   */
  lemma DeletionInvisibleExactly(rx: Receiver, locals: seq<u32>)
    ensures (forall calls :: ShownAs(calls, locals) ==> DeletionIsInvisible(rx, calls)) <==> !Reopens(locals)
  {
    hide Receiver.Pairs, Receiver.Results, NoRepeats, ReopenedAt, NewModel;
    var m := NewModel(rx.cfg);
    if Reopens(locals) {
      var e: u32, i: nat, k: nat, j: nat :| ReopenedAt(locals, e, i, k, j);
      var calls := ReopenedReplays(rx, locals, e, i, k, j);
      ConsumingIsPairs(rx, m, calls);
      TwoCallsNeverRepeat(rx, rx.Consuming(m, calls));
    } else {
      forall calls | ShownAs(calls, locals) ensures DeletionIsInvisible(rx, calls) {
        assert [] + locals == locals;
        FreshAgrees(rx, locals);
        InvisibleUnlessReopened(rx, m, m, [], calls, locals);
      }
    }
  }

  lemma {:induction false} ConsumingIsPairs(rx: Receiver, m: Model, calls: seq<Call>)
    requires m.Valid()
    ensures |rx.Consuming(m, calls)| == |rx.Pairs(m, calls)|
    decreases |calls|
  {
    hide Receiver.Pair, Receiver.Next;
    if calls != [] { ConsumingIsPairs(rx, rx.Next(m, calls[0]), calls[1..]); }
  }

  /** It takes a third call in between to reopen an epoch. */
  lemma TwoCallsNeverRepeat(rx: Receiver, calls: seq<Call>)
    requires |calls| == 2
    ensures NoRepeats(rx.Pairs(NewModel(rx.cfg), calls))
  {
    hide Receiver.Pairs, NoRepeats, InAcceptanceWindow;
    var locals := [calls[0].localEpoch, calls[1].localEpoch];
    assert [] + locals == locals;
    NoReplayUnlessReopened(rx, NewModel(rx.cfg), [], {}, calls, locals);
  }

  ghost predicate OpenIn(e: u32, locals: seq<u32>) {
    exists i :: 0 <= i < |locals| && InAcceptanceWindow(e, locals[i])
  }

  /** Two receivers that agree on every epoch still to come: neither will ever forget it. */
  ghost predicate Agree(m: Model, n: Model, past: seq<u32>, later: seq<u32>) {
    && m.bucket == n.bucket
    && forall p: (u32, u32) :: (p in m.history || p in n.history) && OpenIn(p.0, later) ==>
         && p in m.history && p in n.history && OpenIn(p.0, past)
         && InAcceptanceWindow(p.0, m.clock) && InAcceptanceWindow(p.0, n.clock)
  }

  lemma FreshAgrees(rx: Receiver, locals: seq<u32>)
    ensures Agree(NewModel(rx.cfg), NewModel(rx.cfg), [], locals)
  {
  }

  lemma ThenReopens(locals: seq<u32>, e: u32, i: nat, k: nat, j: nat)
    requires ReopenedAt(locals, e, i, k, j)
    ensures Reopens(locals)
  {
  }

  /** An epoch open before and open again is open throughout, unless reopened. */
  lemma OpenBetween(past: seq<u32>, local: u32, later: seq<u32>, e: u32)
    requires !Reopens(past + [local] + later) && OpenIn(e, past) && OpenIn(e, [local] + later)
    ensures InAcceptanceWindow(e, local)
  {
    hide InAcceptanceWindow, Reopens;
    if !InAcceptanceWindow(e, local) {
      var i :| 0 <= i < |past| && InAcceptanceWindow(e, past[i]);
      var j :| 0 <= j < |[local] + later| && InAcceptanceWindow(e, ([local] + later)[j]);
      var all := past + [local] + later;
      assert all[i] == past[i] && all[|past|] == local && all[|past| + j] == ([local] + later)[j];
      ThenReopens(all, e, i, |past|, |past| + j);
    }
  }

  /** One prune forgets nothing of an epoch still to come. */
  lemma RecallAgrees(m: Model, n: Model, past: seq<u32>, c: Call, later: seq<u32>, p: (u32, u32))
    requires Agree(m, n, past, [c.localEpoch] + later) && !Reopens(past + [c.localEpoch] + later)
    requires OpenIn(p.0, [c.localEpoch] + later)
    ensures var h := m.Recalled(c.buf, c.localEpoch).history;
      && (p in h <==> p in m.history) && (p in n.Recalled(c.buf, c.localEpoch).history <==> p in h)
      && (p in h ==> InAcceptanceWindow(p.0, c.localEpoch))
  {
    hide Prunes, InAcceptanceWindow, Reopens, OpenIn;
    if p in m.history || p in n.history { OpenBetween(past, c.localEpoch, later, p.0); }
  }

  lemma SamePair(rx: Receiver, m: Model, n: Model, past: seq<u32>, c: Call, later: seq<u32>)
    requires m.Valid() && n.Valid()
    requires Agree(m, n, past, [c.localEpoch] + later) && !Reopens(past + [c.localEpoch] + later)
    ensures rx.Pair(m, c) == rx.Pair(n, c) && rx.Result(m, c) == rx.Result(n, c)
    ensures rx.Next(m, c).bucket == rx.Next(n, c).bucket
  {
    hide Open, Fresh, Verdict, Agree, Reopens, OpenIn, Model.Recalled, OffsetsOf;
    var h, g := m.Recalled(c.buf, c.localEpoch), n.Recalled(c.buf, c.localEpoch);
    RecallKeepsBucket(m, c);
    RecallKeepsBucket(n, c);
    AgreeOnBucket(m, n, past, [c.localEpoch] + later);
    if rx.Screened(c).Ok? {
      EpochLowAt(c.buf);
      var e := rx.Screened(c).value.epochId;
      SameOffsets(m, n, past, c, later, e);
    }
    StepCases(rx.Screened(c), rx.cfg, rx.entries, h, c.nowMs);
    StepCases(rx.Screened(c), rx.cfg, rx.entries, g, c.nowMs);
  }

  lemma RecallKeepsBucket(m: Model, c: Call)
    ensures m.Recalled(c.buf, c.localEpoch).bucket == m.bucket
  {
  }

  lemma AgreeOnBucket(m: Model, n: Model, past: seq<u32>, later: seq<u32>)
    requires Agree(m, n, past, later)
    ensures m.bucket == n.bucket
  {
  }

  lemma SameOffsets(m: Model, n: Model, past: seq<u32>, c: Call, later: seq<u32>, e: u32)
    requires Agree(m, n, past, [c.localEpoch] + later) && !Reopens(past + [c.localEpoch] + later)
    requires InAcceptanceWindow(e, c.localEpoch)
    ensures OffsetsOf(m.Recalled(c.buf, c.localEpoch).history, e) == OffsetsOf(n.Recalled(c.buf, c.localEpoch).history, e)
  {
    hide OffsetsOf, Agree, Reopens, Model.Recalled, InAcceptanceWindow;
    assert ([c.localEpoch] + later)[0] == c.localEpoch;
    forall o: u32
      ensures o in OffsetsOf(m.Recalled(c.buf, c.localEpoch).history, e) <==>
              o in OffsetsOf(n.Recalled(c.buf, c.localEpoch).history, e)
    {
      RecallAgrees(m, n, past, c, later, (e, o));
      OffsetsOfContains(m.Recalled(c.buf, c.localEpoch).history, e, o);
      OffsetsOfContains(n.Recalled(c.buf, c.localEpoch).history, e, o);
    }
  }

  /** Agreement survives a call that both receivers take, and a call only the first takes if it consumes nothing. */
  lemma StillAgree(rx: Receiver, m: Model, n: Model, past: seq<u32>, c: Call, later: seq<u32>)
    requires m.Valid() && n.Valid()
    requires Agree(m, n, past, [c.localEpoch] + later) && !Reopens(past + [c.localEpoch] + later)
    ensures rx.Pair(m, c).Some? ==> Agree(rx.Next(m, c), rx.Next(n, c), past + [c.localEpoch], later)
    ensures rx.Pair(m, c).None? ==> Agree(rx.Next(m, c), n, past + [c.localEpoch], later)
  {
    hide Receiver.Pair, Receiver.Next, Receiver.Result, Prunes, InAcceptanceWindow, Reopens, Model.Recalled, OpenIn;
    SamePair(rx, m, n, past, c, later);
    NextRemembers(rx, m, c);
    NextRemembers(rx, n, c);
    var m' := rx.Next(m, c);
    var n' := if rx.Pair(m, c).Some? then rx.Next(n, c) else n;
    forall p: (u32, u32) | (p in m'.history || p in n'.history) && OpenIn(p.0, later)
      ensures p in m'.history && p in n'.history && OpenIn(p.0, past + [c.localEpoch])
      ensures InAcceptanceWindow(p.0, m'.clock) && InAcceptanceWindow(p.0, n'.clock)
    {
      OpenWider(p.0, past, c.localEpoch, later);
      RecallAgrees(m, n, past, c, later, p);
    }
  }

  lemma OpenWider(e: u32, past: seq<u32>, local: u32, later: seq<u32>)
    ensures OpenIn(e, later) ==> OpenIn(e, [local] + later)
    ensures OpenIn(e, past) || InAcceptanceWindow(e, local) ==> OpenIn(e, past + [local])
  {
    hide InAcceptanceWindow;
    if i :| 0 <= i < |later| && InAcceptanceWindow(e, later[i]) { assert ([local] + later)[i + 1] == later[i]; }
    if i :| 0 <= i < |past| && InAcceptanceWindow(e, past[i]) { assert (past + [local])[i] == past[i]; }
    assert (past + [local])[|past|] == local;
  }

  lemma {:induction false} InvisibleUnlessReopened(rx: Receiver, m: Model, n: Model, past: seq<u32>, calls: seq<Call>,
                                                  locals: seq<u32>)
    requires m.Valid() && n.Valid() && ShownAs(calls, locals) && !Reopens(past + locals) && Agree(m, n, past, locals)
    ensures rx.Results(n, rx.Consuming(m, calls)) == rx.ConsumingResults(m, calls)
    ensures rx.Pairs(n, rx.Consuming(m, calls)) == rx.Pairs(m, calls)
    decreases |calls|
  {
    hide Receiver.Pair, Receiver.Next, Receiver.Result, Agree, Reopens;
    if calls != [] {
      var c, rest, later := calls[0], calls[1..], locals[1..];
      assert locals == [c.localEpoch] + later && past + locals == past + [c.localEpoch] + later;
      SamePair(rx, m, n, past, c, later);
      StillAgree(rx, m, n, past, c, later);
      if rx.Pair(m, c).Some? {
        InvisibleUnlessReopened(rx, rx.Next(m, c), rx.Next(n, c), past + [c.localEpoch], rest, later);
        assert rx.Consuming(m, calls)[1..] == rx.Consuming(rx.Next(m, c), rest);
      } else {
        InvisibleUnlessReopened(rx, rx.Next(m, c), n, past + [c.localEpoch], rest, later);
        assert [] + rx.Consuming(rx.Next(m, c), rest) == rx.Consuming(rx.Next(m, c), rest);
      }
    }
  }
}
