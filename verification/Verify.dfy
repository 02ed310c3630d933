/** The receiver's ten-step verification of one datagram (PROTOCOL.md 7.4). */
module Verify {
  import opened Basics
  import opened Clock
  import opened Limiter
  import opened Mac
  import opened Readings
  import opened Records
  import opened Replay
  import opened Wire

  datatype PeerConfig = PeerConfig(
    senderId: u32, secret: Bytes32, cipher: CipherId, layouts: seq<(byte, byte)>, limit: Option<RateLimit>)

  datatype Accepted = Accepted(datagram: Datagram, epochId: u32, offset: u32, skipped: seq<Record>)

  /** What steps 1 to 7 establish: an authentic header, its full epoch and its payload bytes. */
  datatype Opened = Opened(head: Datagram, msgType: MsgType, epochId: u32, payload: seq<byte>)

  /** Steps 1 to 7: the filters and the MAC. */
  function Open(cr: Crypto, buf: seq<byte>, peer: PeerConfig, localEpoch: u32, dir: Direction): (r: Result<Opened>)
    ensures r.Ok? ==> |buf| >= HEADER_LEN && r.value.head == ParseHeader(buf)
    ensures r.Ok? ==> ReconstructEpoch(localEpoch, r.value.head.epochLow) == Some(r.value.epochId)
  {
    if |buf| < HEADER_LEN then Err(TooShort)
    else
      var h := ParseHeader(buf);
      if h.version != VERSION then Err(UnsupportedVersion(h.version))
      else if !AcceptsType(h.msgType) then Err(BadMsgType(h.msgType))
      else if h.senderId != peer.senderId then Err(UnknownSender(h.senderId))
      else if h.cipherId != peer.cipher.ToU8() then Err(CipherMismatch(h.cipherId, peer.cipher.ToU8()))
      else if |buf| < HEADER_LEN + peer.cipher.TagLen() then Err(TooShort)
      else
        match ReconstructEpoch(localEpoch, h.epochLow)
        case None => Err(EpochOutOfWindow)
        case Some(epochId) =>
          var payload := buf[HEADER_LEN..|buf| - peer.cipher.TagLen()];
          var key := EpochKey(cr, peer.secret, h.senderId, epochId, dir);
          match MacOf(cr, peer.cipher, key, h.AuthHeader(epochId) + payload, h.offset)
          case Err(e) => Err(e)
          case Ok(tag) =>
            if tag != buf[|buf| - peer.cipher.TagLen()..] then Err(AuthFailed)
            else Ok(Opened(h, MsgType.FromU8(h.msgType).value, epochId, payload))
  }

  /** Step 3: known types, except the two that have entry points of their own. */
  predicate AcceptsType(msgType: byte) {
    MsgType.FromU8(msgType).Some? && !MsgType.FromU8(msgType).value.IsTimeRecovery()
  }

  /** Step 9: framing. */
  function Frame(o: Opened): Result<Datagram> {
    if o.msgType.IsRecordFramed() then
      if |o.payload| < RECORD_HEADER_LEN then Err(Framing(PayloadTooShort))
      else
        match Parse(o.payload)
        case Err(e) => Err(e)
        case Ok(rs) =>
          if o.msgType.IsSingleRecord() && |rs| > 1 then Err(Framing(ExactlyOneRecord))
          else Ok(o.head.(records := rs))
    else if o.msgType.Number? && ValidateNumber(o.payload).Err? then Err(ValidateNumber(o.payload).error)
    else if o.msgType.Series? && DecodeSeries(o.payload, o.head.offset).Err? then
      Err(DecodeSeries(o.payload, o.head.offset).error)
    else Ok(o.head.(raw := o.payload))
  }

  /** Steps 9 and 10: framing, then skip the records whose layout the receiver does not hold. */
  function Finish(o: Opened, layouts: seq<(byte, byte)>): Result<Accepted> {
    match Frame(o)
    case Err(e) => Err(e)
    case Ok(d) =>
      Ok(Accepted(d.(records := Kept(layouts, d.records)), o.epochId, o.head.offset, Skipped(layouts, d.records)))
  }

  /** The whole verdict, given whether the replay check finds the offset fresh. */
  function Verdict(o: Result<Opened>, layouts: seq<(byte, byte)>, isNew: bool): Result<Accepted> {
    if o.Err? then Err(o.error)
    else if !isNew then Err(Error.Replay)
    else Finish(o.value, layouts)
  }

  /** Steps 1 to 7 as written. */
  method OpenDatagram(cr: Crypto, buf: seq<byte>, peer: PeerConfig, localEpoch: u32, dir: Direction)
    returns (r: Result<Opened>)
    ensures r == Open(cr, buf, peer, localEpoch, dir)
  {
    hide ParseHeader, MacOf, EpochKey, Datagram.AuthHeader;
    // step 1: length
    if |buf| < HEADER_LEN {
      return Err(TooShort);
    }
    var head := ParseHeader(buf);
    // step 2: version
    if head.version != VERSION {
      return Err(UnsupportedVersion(head.version));
    }
    // step 3: msg_type
    var mt := MsgType.FromU8(head.msgType);
    if mt.None? || mt.value.IsTimeRecovery() {
      return Err(BadMsgType(head.msgType));
    }
    // step 4: sender_id
    if head.senderId != peer.senderId {
      return Err(UnknownSender(head.senderId));
    }
    // step 5: cipher_id matches configuration
    if head.cipherId != peer.cipher.ToU8() {
      return Err(CipherMismatch(head.cipherId, peer.cipher.ToU8()));
    }
    var tagLen := peer.cipher.TagLen();
    if |buf| < HEADER_LEN + tagLen {
      return Err(TooShort);
    }
    // step 6: epoch reconstruction
    var epochId := ReconstructEpoch(localEpoch, head.epochLow);
    if epochId.None? {
      return Err(EpochOutOfWindow);
    }
    // step 7: MAC
    var payload := buf[HEADER_LEN..|buf| - tagLen];
    var key := EpochKey(cr, peer.secret, head.senderId, epochId.value, dir);
    var tag := MacVec(cr, peer.cipher, key, head.AuthHeader(epochId.value) + payload, head.offset);
    if tag.Err? {
      return Err(tag.error);
    }
    if tag.value != buf[|buf| - tagLen..] {
      return Err(AuthFailed);
    }
    r := Ok(Opened(head, mt.value, epochId.value, payload));
  }

  /** Step 9 as written. */
  method FrameDatagram(o: Opened) returns (r: Result<Datagram>)
    ensures r == Frame(o)
  {
    if o.msgType.IsRecordFramed() {
      if |o.payload| < RECORD_HEADER_LEN {
        return Err(Framing(PayloadTooShort));
      }
      var recs := ParseLoop(o.payload);
      if recs.Err? {
        return Err(recs.error);
      }
      if o.msgType.IsSingleRecord() && |recs.value| > 1 {
        return Err(Framing(ExactlyOneRecord));
      }
      r := Ok(o.head.(records := recs.value));
    } else {
      if o.msgType.Number? {
        var number := ValidateNumber(o.payload);
        if number.Err? { return Err(number.error); }
      } else if o.msgType.Series? {
        var series := ValidateSeries(o.payload, o.head.offset);
        if series.Err? { return Err(series.error); }
      }
      r := Ok(o.head.(raw := o.payload));
    }
  }

  /**
   * Verify one datagram. The window changes by exactly the datagram's offset, and exactly when the
   * tag verifies and the offset is fresh, whatever framing then decides.
   */
  method DecodeDatagram(cr: Crypto, buf: seq<byte>, peer: PeerConfig, localEpoch: u32, dir: Direction, window: ReplayWindow)
    returns (r: Result<Accepted>)
    requires window.Valid() && window.entries > 0
    modifies window, window.bits
    ensures window.Valid()
    ensures var o := Open(cr, buf, peer, localEpoch, dir);
      var isNew := o.Ok? && Fresh(old(window.accepted), window.entries, o.value.head.offset);
      && r == Verdict(o, peer.layouts, isNew)
      && window.accepted == if isNew then old(window.accepted) + {o.value.head.offset} else old(window.accepted)
  {
    hide Open, Frame;
    var o := OpenDatagram(cr, buf, peer, localEpoch, dir);
    if o.Err? {
      return Err(o.error);
    }
    // step 8: replay, before framing
    var checked := window.CheckAndSet(o.value.head.offset);
    if checked.Err? {
      return Err(checked.error);
    }
    var d := FrameDatagram(o.value);
    if d.Err? {
      return Err(d.error);
    }
    // step 10: split by layout
    r := Ok(Accepted(d.value.(records := Kept(peer.layouts, d.value.records)), o.value.epochId, o.value.head.offset,
                     Skipped(peer.layouts, d.value.records)));
  }
}
