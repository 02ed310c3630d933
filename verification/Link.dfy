/** Sender, network and receiver composed, under an ideal MAC. */
module Link {
  import opened Basics
  import opened Clock
  import opened Mac
  import opened Peer
  import opened PeerRuns
  import opened Records
  import opened Replay
  import opened RoundTrips
  import opened Verify
  import opened Wire

  datatype Sent = Sent(epochId: u32, datagram: Datagram)

  /** A paced sender, everything it sent, and the receiver with everything it accepted. */
  datatype LinkState = LinkState(pacer: PacerState, sent: seq<Sent>, model: Model, accepted: seq<Accepted>)

  /**
   * The sender claims a pair at an instant and sends a datagram built for it; or the network hands
   * the receiver some bytes - any bytes, at any time, as often as it likes.
   */
  datatype Event =
    | Send(unixSecs: u64, nanos: u32, datagram: Datagram)
    | Deliver(call: Call)

  ghost function Start(rx: Receiver): LinkState { LinkState(NEW_PACER, [], NewModel(rx.cfg), []) }

  /** The datagram fits the claimed pair and the association, and it encodes. */
  predicate Sendable(rx: Receiver, d: Datagram, claimed: Result<(u32, u32)>) {
    && claimed.Ok? && d.offset == claimed.value.1 && WellFormed(d, claimed.value.0)
    && d.senderId == rx.cfg.senderId && d.cipherId == rx.cfg.cipher.ToU8()
    && d.Encoding(rx.cr, rx.cfg.secret, claimed.value.0, rx.dir).Ok?
  }

  ghost function Act(rx: Receiver, st: LinkState, e: Event): (st': LinkState)
    requires st.model.Valid()
    ensures st'.model.Valid()
  {
    match e
    case Send(secs, nanos, d) =>
      var (pacer, claimed) := Claim(st.pacer, EpochIdAt(secs), EpochOffsetAt(secs, nanos));
      st.(pacer := pacer, sent := st.sent + if Sendable(rx, d, claimed) then [Sent(claimed.value.0, d)] else [])
    case Deliver(c) =>
      var r := rx.Result(st.model, c);
      st.(model := rx.Next(st.model, c), accepted := st.accepted + if r.Ok? then [r.value] else [])
  }

  ghost function Run(rx: Receiver, st: LinkState, events: seq<Event>): LinkState
    requires st.model.Valid()
    decreases |events|
  {
    if events == [] then st else Run(rx, Act(rx, st, events[0]), events[1..])
  }

  /**
   * What a run assumes of sender and network. The sender's epochs do not decrease. The primitives are
   * ideal: whatever bytes the network injects, they end in a genuine tag only over an image the sender
   * has signed.
   */
  ghost predicate Allowed(rx: Receiver, st: LinkState, e: Event) {
    match e
    case Send(secs, _, _) => st.pacer.epoch.Some? ==> st.pacer.epoch.value <= EpochIdAt(secs)
    case Deliver(c) => Unforged(rx, st.sent, c)
  }

  ghost predicate Unforged(rx: Receiver, sent: seq<Sent>, c: Call) {
    forall e: u32 :: EndsGenuine(rx, c, e) ==>
      exists s :: s in sent && SameImage(s, ParseHeader(c.buf), e, c.buf[HEADER_LEN..|c.buf| - rx.cfg.cipher.TagLen()])
  }

  /** The bytes end in a genuine tag under an epoch the receiver would reconstruct. */
  predicate EndsGenuine(rx: Receiver, c: Call, e: u32)
    ensures EndsGenuine(rx, c, e) ==> |c.buf| >= HEADER_LEN + rx.cfg.cipher.TagLen()
  {
    var len := rx.cfg.cipher.TagLen();
    && |c.buf| >= HEADER_LEN + len && (c.localEpoch == e || c.localEpoch == e + 1)
    && Genuine(rx.cr, rx.cfg, rx.dir, e, ParseHeader(c.buf), c.buf[HEADER_LEN..|c.buf| - len], c.buf[|c.buf| - len..])
  }

  predicate SameImage(s: Sent, h: Datagram, e: u32, payload: seq<byte>) {
    && s.datagram.Payload().Ok?
    && s.datagram.AuthHeader(s.epochId) + s.datagram.Payload().value == h.AuthHeader(e) + payload
  }

  /** So whatever passes steps 1 to 7 is an image the sender signed. */
  lemma OpenedWasSigned(rx: Receiver, sent: seq<Sent>, c: Call) returns (s: Sent)
    requires Unforged(rx, sent, c) && rx.Screened(c).Ok?
    ensures var o := rx.Screened(c).value;
      s in sent && SameImage(s, o.head, o.epochId, o.payload)
  {
    hide Open, Genuine, SameImage, ParseHeader;
    OpenedIsGenuine(rx.cr, c.buf, rx.cfg, c.localEpoch, rx.dir);
    var o, len := rx.Screened(c).value, rx.cfg.cipher.TagLen();
    assert EndsGenuine(rx, c, o.epochId);
    s :| s in sent && SameImage(s, ParseHeader(c.buf), o.epochId, c.buf[HEADER_LEN..|c.buf| - len]);
  }

  ghost predicate AllAllowed(rx: Receiver, st: LinkState, events: seq<Event>)
    requires st.model.Valid()
    decreases |events|
  {
    events == [] || (Allowed(rx, st, events[0]) && AllAllowed(rx, Act(rx, st, events[0]), events[1..]))
  }

  // ------------------------------------------------------------- the theorem

  /** Accepted is what was sent under that pair, up to the layouts the receiver does not hold. */
  predicate Matches(rx: Receiver, s: Sent, acc: Accepted) {
    && s.epochId == acc.epochId && s.datagram.offset == acc.offset
    && acc.datagram == s.datagram.(records := Kept(rx.cfg.layouts, s.datagram.records))
    && acc.skipped == Skipped(rx.cfg.layouts, s.datagram.records)
  }

  ghost predicate AcceptedWasSent(rx: Receiver, st: LinkState) {
    forall acc :: acc in st.accepted ==> exists s :: s in st.sent && Matches(rx, s, acc)
  }

  ghost predicate AcceptedOnce(st: LinkState) {
    forall i, j :: 0 <= i < j < |st.accepted| ==>
      (st.accepted[i].epochId, st.accepted[i].offset) != (st.accepted[j].epochId, st.accepted[j].offset)
  }

  ghost predicate SentOnce(st: LinkState) {
    forall i, j :: 0 <= i < j < |st.sent| ==>
      Before((st.sent[i].epochId, st.sent[i].datagram.offset), (st.sent[j].epochId, st.sent[j].datagram.offset))
  }

  ghost predicate Invariant(rx: Receiver, st: LinkState) {
    && st.model.Valid()
    && (forall s :: s in st.sent ==> SentProperly(rx, s) && PacerBeyond(st.pacer, s))
    && SentOnce(st)
    && AcceptedWasSent(rx, st)
  }

  /** What the receiver has accepted it remembers, and it has accepted it once. */
  ghost predicate Remembers(st: LinkState) {
    && st.model.Valid() && AcceptedOnce(st)
    && forall acc :: acc in st.accepted ==> (acc.epochId, acc.offset) in st.model.history
  }

  /** What the receiver is handed, in order. */
  function Deliveries(events: seq<Event>): seq<Call> {
    if events == [] then []
    else (if events[0].Deliver? then [events[0].call] else []) + Deliveries(events[1..])
  }

  ghost predicate SentProperly(rx: Receiver, s: Sent) { Sendable(rx, s.datagram, Ok((s.epochId, s.datagram.offset))) }

  /** The pacer will not issue this pair, or one before it, again. */
  predicate PacerBeyond(p: PacerState, s: Sent) {
    && p.epoch.Some? && s.epochId <= p.epoch.value
    && (s.epochId == p.epoch.value ==> p.lastOffset.Some? && s.datagram.offset <= p.lastOffset.value)
  }

  lemma SendKeeps(rx: Receiver, st: LinkState, e: Event)
    requires Invariant(rx, st) && e.Send? && Allowed(rx, st, e)
    ensures Invariant(rx, Act(rx, st, e))
  {
    hide Matches, WellFormed, EpochIdAt, EpochOffsetAt, Datagram.Encoding;
    var st' := Act(rx, st, e);
    var (pacer, claimed) := Claim(st.pacer, EpochIdAt(e.unixSecs), EpochOffsetAt(e.unixSecs, e.nanos));
    forall s | s in st.sent
      ensures PacerBeyond(pacer, s)
      ensures claimed.Ok? ==> Before((s.epochId, s.datagram.offset), claimed.value)
    {
      assert PacerBeyond(st.pacer, s);
    }
    forall s | s in st.sent ensures s in st'.sent {}
    forall acc | acc in st'.accepted ensures exists s :: s in st'.sent && Matches(rx, s, acc) {
      var s :| s in st.sent && Matches(rx, s, acc);
      assert s in st'.sent;
    }
    forall i, j | 0 <= i < j < |st'.sent|
      ensures Before((st'.sent[i].epochId, st'.sent[i].datagram.offset), (st'.sent[j].epochId, st'.sent[j].datagram.offset))
    {
      if j == |st.sent| { assert st.sent[i] in st.sent; }
    }
  }

  /** What the receiver accepts under an ideal MAC is a datagram the sender sent. */
  lemma AcceptedIsSent(rx: Receiver, m: Model, c: Call, s: Sent)
    requires m.Valid() && rx.Result(m, c).Ok? && SentProperly(rx, s)
    requires rx.Screened(c).Ok?
    requires var o := rx.Screened(c).value; SameImage(s, o.head, o.epochId, o.payload)
    ensures Matches(rx, s, rx.Result(m, c).value)
  {
    hide Datagram.AuthHeader, Datagram.HeaderBytes, EpochKey, Tag, Frame, Datagram.Encoding;
    var o, d := rx.Screened(c).value, s.datagram;
    AcceptedConsumes(rx, m, c);
    OpenedIsSealed(rx.cr, c.buf, rx.cfg, c.localEpoch, rx.dir);
    WellFormedFrames(d, s.epochId);
    SignedImageInjective(o.head, o.epochId, o.payload, d, s.epochId, d.Payload().value);
    assert o.head == d.Head() && o == Opened(d.Head(), MsgType.FromU8(d.msgType).value, s.epochId, d.Payload().value);
  }

  lemma DeliverKeeps(rx: Receiver, st: LinkState, e: Event)
    requires Invariant(rx, st) && e.Deliver? && Allowed(rx, st, e)
    ensures Invariant(rx, Act(rx, st, e))
  {
    hide Matches, SentProperly, PacerBeyond, SameImage, Unforged, Screen, Verdict, Consumes;
    var st' := Act(rx, st, e);
    if rx.Result(st.model, e.call).Ok? {
      var acc := rx.Result(st.model, e.call).value;
      AcceptedConsumes(rx, st.model, e.call);
      var s := OpenedWasSigned(rx, st.sent, e.call);
      AcceptedIsSent(rx, st.model, e.call, s);
      forall a | a in st'.accepted ensures exists x :: x in st'.sent && Matches(rx, x, a) {
        if a == acc { assert s in st'.sent && Matches(rx, s, a); }
      }
    } else {
      assert st'.accepted == st.accepted;
    }
  }

  /** A delivery at a local epoch that does not go back adds to what is remembered, never to what was accepted before. */
  lemma DeliverRemembers(rx: Receiver, st: LinkState, e: Event)
    requires Remembers(st) && e.Deliver? && st.model.clock <= e.call.localEpoch
    ensures Remembers(Act(rx, st, e))
  {
    hide Receiver.Pair, Receiver.Next, Receiver.Result, Receiver.Screened;
    NextHistory(rx, st.model, e.call);
    if rx.Result(st.model, e.call).Ok? {
      AcceptedConsumes(rx, st.model, e.call);
      forall i | 0 <= i < |st.accepted| ensures st.accepted[i] in st.accepted {}
    } else {
      assert Act(rx, st, e).accepted == st.accepted;
    }
  }

  lemma {:induction false} RunKeeps(rx: Receiver, st: LinkState, events: seq<Event>)
    requires Invariant(rx, st) && AllAllowed(rx, st, events)
    ensures Invariant(rx, Run(rx, st, events))
    decreases |events|
  {
    if events != [] {
      hide Invariant;
      if events[0].Send? { SendKeeps(rx, st, events[0]); } else { DeliverKeeps(rx, st, events[0]); }
      RunKeeps(rx, Act(rx, st, events[0]), events[1..]);
    }
  }

  /** On a receiver clock that does not go back nothing is accepted twice, whatever the network does and whoever signs. */
  lemma {:induction false} RunAcceptsOnce(rx: Receiver, st: LinkState, events: seq<Event>)
    requires Remembers(st) && ClockOrdered(st.model.clock, Deliveries(events))
    ensures Remembers(Run(rx, st, events))
    decreases |events|
  {
    hide Receiver.Next, Receiver.Result;
    if events != [] {
      var rest := Deliveries(events[1..]);
      if events[0].Deliver? {
        hide Remembers;
        assert Deliveries(events)[0] == events[0].call && Deliveries(events)[1..] == rest;
        DeliverRemembers(rx, st, events[0]);
        NextHistory(rx, st.model, events[0].call);
      } else {
        assert [] + rest == rest;
      }
      RunAcceptsOnce(rx, Act(rx, st, events[0]), events[1..]);
    }
  }

  /**
   * End to end, for every run of a paced sender, a network that drops, duplicates, reorders and
   * injects, and the receiver: the sender never sent two datagrams under one pair; each accepted
   * datagram is the one sent under its pair, with its records split by layout; and, as long as the
   * receiver's clock does not go back, no (epoch, offset) is accepted twice.
   */
  lemma EndToEnd(rx: Receiver, events: seq<Event>)
    requires AllAllowed(rx, Start(rx), events)
    ensures var end := Run(rx, Start(rx), events);
      && SentOnce(end) && AcceptedWasSent(rx, end)
      && (ClockOrdered(0, Deliveries(events)) ==> AcceptedOnce(end))
  {
    RunKeeps(rx, Start(rx), events);
    if ClockOrdered(0, Deliveries(events)) { RunAcceptsOnce(rx, Start(rx), events); }
  }

  // ------------------------------------------------------------ on the objects

  /**
   * A pacer, the encoder and a peer's state driven through the events are that run: what was sent,
   * the bytes put on the wire for it, and what was accepted.
   */
  method Drive(pacer: Pacer, peer: PeerState, cr: Crypto, dir: Direction, events: seq<Event>)
    returns (sent: seq<Sent>, wires: seq<seq<byte>>, accepted: seq<Accepted>)
    requires pacer.State() == NEW_PACER && peer.Valid() && pacer !in peer.Repr
    requires peer.View() == NewModel(peer.config)
    modifies pacer, peer.Repr
    ensures peer.Valid() && fresh(peer.Repr - old(peer.Repr))
    ensures var rx := Receiver(cr, peer.config, Entries(peer.words), dir);
      var end := LinkState(pacer.State(), sent, peer.View(), accepted);
      && end == Run(rx, Start(rx), events)
      && (AllAllowed(rx, Start(rx), events) ==> SentOnce(end) && AcceptedWasSent(rx, end))
      && (AllAllowed(rx, Start(rx), events) && ClockOrdered(0, Deliveries(events)) ==> AcceptedOnce(end))
    ensures |wires| == |sent| && forall i :: 0 <= i < |sent| ==>
      sent[i].datagram.Encoding(cr, peer.config.secret, sent[i].epochId, dir) == Ok(wires[i])
  {
    hide PeerState.Valid, PeerState.View, WellFormed, Screen, Step, Datagram.Encoding, Model.Recalled;
    hide SentOnce, AcceptedWasSent, AcceptedOnce, AllAllowed, Deliveries, EpochIdAt, EpochOffsetAt;
    sent, wires, accepted := [], [], [];
    ghost var rx := Receiver(cr, peer.config, Entries(peer.words), dir);
    assert events[0..] == events;
    for i := 0 to |events|
      invariant peer.Valid() && fresh(peer.Repr - old(peer.Repr)) && pacer !in peer.Repr
      invariant Run(rx, LinkState(pacer.State(), sent, peer.View(), accepted), events[i..]) == Run(rx, Start(rx), events)
      invariant |wires| == |sent| && forall i :: 0 <= i < |sent| ==>
        sent[i].datagram.Encoding(cr, peer.config.secret, sent[i].epochId, dir) == Ok(wires[i])
    {
      ghost var was := LinkState(pacer.State(), sent, peer.View(), accepted);
      assert events[i..][0] == events[i] && events[i..][1..] == events[i + 1..];
      match events[i]
      case Send(secs, nanos, d) =>
        var claimed := pacer.ClaimAt(secs, nanos);
        if claimed.Ok? {
          var wire := SendOne(cr, d, claimed.value, peer.config, dir);
          if wire.Some? {
            sent := sent + [Sent(claimed.value.0, d)];
            wires := wires + [wire.value];
          }
        }
        assert Act(rx, was, events[i]) == LinkState(pacer.State(), sent, peer.View(), accepted);
      case Deliver(c) =>
        var r := peer.Accept(cr, c.buf, c.localEpoch, dir, c.nowMs);
        if r.Ok? {
          accepted := accepted + [r.value];
        }
        assert Act(rx, was, events[i]) == LinkState(pacer.State(), sent, peer.View(), accepted);
    }
    assert events[|events|..] == [];
    if AllAllowed(rx, Start(rx), events) { EndToEnd(rx, events); }
  }

  /** Encode a datagram for the pair the pacer issued, if it is one for that pair and it encodes. */
  method SendOne(cr: Crypto, d: Datagram, pair: (u32, u32), cfg: PeerConfig, dir: Direction) returns (wire: Option<seq<byte>>)
    ensures wire.Some? <==> Sendable(Receiver(cr, cfg, 0, dir), d, Ok(pair))
    ensures wire.Some? ==> d.Encoding(cr, cfg.secret, pair.0, dir) == Ok(wire.value)
  {
    hide WellFormed, Datagram.Encoding;
    if d.offset != pair.1 || !WellFormed(d, pair.0) || d.senderId != cfg.senderId || d.cipherId != cfg.cipher.ToU8() {
      return None;
    }
    EncodingLength(cr, d, cfg.secret, pair.0, dir);
    var r := Encode(cr, d, cfg.secret, pair.0, dir, HEADER_LEN + d.PayloadLen() + MAX_TAG_LEN);
    wire := if r.Ok? then Some(r.value) else None;
  }

  const MAX_TAG_LEN: nat := 16

  /** No encoding is longer than its header, its payload and the longest tag. */
  lemma EncodingLength(cr: Crypto, d: Datagram, secret: Bytes32, epochId: u32, dir: Direction)
    ensures var wire := d.Encoding(cr, secret, epochId, dir);
      wire.Ok? ==> |wire.value| <= HEADER_LEN + d.PayloadLen() + MAX_TAG_LEN
  {
    hide Datagram.HeaderBytes, Datagram.AuthHeader, EpochKey, Datagram.PayloadLen, Datagram.Payload;
    PayloadLenExact(d);
  }

  /**
   * And nothing sent is lost to the verifier: delivered unaltered in its own epoch or the next, a
   * sent datagram is accepted if its pair is fresh and the limiter, when there is one, grants it.
   */
  lemma SentIsAccepted(rx: Receiver, m: Model, s: Sent, localEpoch: u32, nowMs: u64)
    requires m.Valid() && SentProperly(rx, s)
    requires localEpoch == s.epochId || localEpoch == s.epochId + 1
    ensures var wire := s.datagram.Encoding(rx.cr, rx.cfg.secret, s.epochId, rx.dir).value;
      var r := rx.Result(m, Call(wire, localEpoch, nowMs));
      var known := OffsetsOf(m.Recalled(wire, localEpoch).history, s.epochId);
      if !Fresh(known, rx.entries, s.datagram.offset) then r == Err(Error.Replay)
      else if m.bucket.Some? && !m.bucket.value.Acquire(nowMs).1 then r == Err(RateLimited)
      else r.Ok? && Matches(rx, s, r.value)
  {
    hide Open, Frame, Fresh, Datagram.Encoding, WellFormed;
    var wire := s.datagram.Encoding(rx.cr, rx.cfg.secret, s.epochId, rx.dir).value;
    var c := Call(wire, localEpoch, nowMs);
    DecodeAfterEncode(rx.cr, s.datagram, rx.cfg, s.epochId, localEpoch, rx.dir);
    ScreenOpensTheSame(rx.cr, wire, rx.cfg, localEpoch, rx.dir);
    StepCases(rx.Screened(c), rx.cfg, rx.entries, m.Recalled(wire, localEpoch), nowMs);
  }
}
