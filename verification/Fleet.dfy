/** A collector against what senders put on the wire. */
module Fleet {
  import opened Basics
  import opened Collectors
  import opened Link
  import opened Mac
  import opened Peer
  import opened PeerRuns
  import opened Replay
  import opened RoundTrips
  import opened Verify
  import opened Wire

  /** The four bytes the collector routes on are the sender field of the header. */
  lemma RoutesOnHeader(buf: seq<byte>)
    requires |buf| >= HEADER_LEN
    ensures SenderOf(buf) == ParseHeader(buf).senderId
  {
  }

  /**
   * A datagram is an unknown sender's, to the collector as a whole, exactly when it is long enough to
   * carry a header and the header names a sender that is not provisioned. Nothing but that counter moves.
   */
  lemma UnknownSenderAtCollector(cr: Crypto, dir: Direction, reg: Registry, c: Call, id: u32)
    requires reg.Valid()
    ensures var (reg', r) := Dispatch(cr, dir, reg, c);
      && (r == Err(UnknownSender(id)) <==> |c.buf| >= 9 && ParseHeader(c.buf).senderId == id && id !in reg.models)
      && (|c.buf| < 9 ==> r == Err(TooShort) && reg' == reg.(own := reg.own.(tooShort := reg.own.tooShort + 1)))
      && (r == Err(UnknownSender(id)) ==> reg' == reg.(own := reg.own.(unknownSender := reg.own.unknownSender + 1)))
  {
    hide ParseHeader, SenderOf, Receiver.Result, Receiver.Next, AcceptsType;
    if |c.buf| >= HEADER_LEN {
      RoutesOnHeader(c.buf);
      var sender := SenderOf(c.buf);
      if sender in reg.models {
        UnknownSenderExactly(ReceiverFor(cr, dir, reg.cfgs[sender]), reg.models[sender], c, id);
      }
    }
  }

  /**
   * A datagram some sender sent, delivered unaltered in its epoch or the next, reaches that sender's
   * peer: a replay if its pair is stale there, refused if that peer's limiter refuses it, and
   * otherwise accepted as sent. No other peer and none of the collector's own counters change.
   */
  lemma SentReachesItsPeer(cr: Crypto, dir: Direction, reg: Registry, s: Sent, localEpoch: u32, nowMs: u64)
    requires reg.Valid() && s.datagram.senderId in reg.models
    requires SentProperly(ReceiverFor(cr, dir, reg.cfgs[s.datagram.senderId]), s)
    requires localEpoch == s.epochId || localEpoch == s.epochId + 1
    ensures var id := s.datagram.senderId;
      var (rx, m) := (ReceiverFor(cr, dir, reg.cfgs[id]), reg.models[id]);
      var wire := s.datagram.Encoding(cr, rx.cfg.secret, s.epochId, dir).value;
      var (reg', r) := Dispatch(cr, dir, reg, Call(wire, localEpoch, nowMs));
      && reg' == reg.(models := reg.models[id := rx.Next(m, Call(wire, localEpoch, nowMs))])
      && if !Fresh(OffsetsOf(m.Recalled(wire, localEpoch).history, s.epochId), 4096, s.datagram.offset)
         then r == Err(Error.Replay)
         else if m.bucket.Some? && !m.bucket.value.Acquire(nowMs).1 then r == Err(RateLimited)
         else r.Ok? && Matches(rx, s, r.value)
  {
    hide ParseHeader, SenderOf, Datagram.Encoding, Datagram.HeaderBytes, WellFormed, Genuine, Fresh, Receiver.Result,
         Receiver.Next, Model.Recalled, Matches;
    var id := s.datagram.senderId;
    var rx := ReceiverFor(cr, dir, reg.cfgs[id]);
    var wire := s.datagram.Encoding(cr, rx.cfg.secret, s.epochId, dir).value;
    SentIsAccepted(rx, reg.models[id], s, localEpoch, nowMs);
    EncodedIsGenuine(cr, s.datagram, rx.cfg, s.epochId, dir);
    InRangeWhenSent(rx, s);
    HeaderParsesBack(s.datagram, wire[9..]);
    assert wire == s.datagram.HeaderBytes() + wire[9..];
    RoutesOnHeader(wire);
  }

  lemma InRangeWhenSent(rx: Receiver, s: Sent)
    requires SentProperly(rx, s)
    ensures s.datagram.InRange()
  {
  }
}
