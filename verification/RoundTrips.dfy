/** What the encoder writes and what the verifier accepts are the same language. */
module RoundTrips {
  import opened Basics
  import opened Clock
  import opened Mac
  import opened Readings
  import opened Records
  import opened Verify
  import opened Wire

  /** The payload each message type may carry. */
  predicate BodyWellFormed(d: Datagram, mt: MsgType) {
    if mt.IsRecordFramed() then
      d.records != [] && AllWireValid(d.records) && (mt.IsSingleRecord() ==> |d.records| == 1) && d.raw == []
    else
      && d.records == []
      && (mt.Number? ==> ValidateNumber(d.raw).Ok?)
      && (mt.Series? ==> DecodeSeries(d.raw, d.offset).Ok?)
  }

  /** A datagram that a conforming sender may send in `epochId`. */
  predicate WellFormed(d: Datagram, epochId: u32) {
    && d.version == VERSION && d.InRange() && d.epochLow == epochId % 0x10
    && AcceptsType(d.msgType) && CipherId.FromU8(d.cipherId).Some?
    && BodyWellFormed(d, MsgType.FromU8(d.msgType).value)
  }

  /** The header a builder starts from is in order, under any value of the reserved bits. */
  lemma BaseInOrder(mt: MsgType, cipher: CipherId, senderId: u32, epochId: u32, offset: u32, reserved: byte)
    requires reserved < 0x20 && offset < TICKS_PER_EPOCH
    ensures var d := Base(mt, cipher, senderId, epochId, offset).(reserved := reserved);
      && d.version == VERSION && d.InRange() && d.epochLow == epochId % 0x10
      && MsgType.FromU8(d.msgType) == Some(mt) && CipherId.FromU8(d.cipherId) == Some(cipher)
  {
  }

  /** Records within the wire's field widths make a well-formed datagram of every record-framed type. */
  lemma DataWellFormed(mt: MsgType, cipher: CipherId, senderId: u32, epochId: u32, offset: u32, records: seq<Record>,
                       reserved: byte)
    requires reserved < 0x20 && AllWireValid(records)
    requires Data(mt, cipher, senderId, epochId, offset, records).Ok?
    ensures WellFormed(Data(mt, cipher, senderId, epochId, offset, records).value.(reserved := reserved), epochId)
  {
    BaseInOrder(mt, cipher, senderId, epochId, offset, reserved);
  }

  lemma NumberWellFormed(cipher: CipherId, senderId: u32, epochId: u32, offset: u32, scale: byte, mantissa: i16,
                         reserved: byte)
    requires reserved < 0x20 && NumberDatagram(cipher, senderId, epochId, offset, scale, mantissa).Ok?
    ensures var d := NumberDatagram(cipher, senderId, epochId, offset, scale, mantissa).value;
      WellFormed(d.(reserved := reserved), epochId) && ValidateNumber(d.raw) == Ok((scale, mantissa))
  {
    BaseInOrder(Number, cipher, senderId, epochId, offset, reserved);
    NumberBijection(NumberBytes(scale, mantissa), scale, mantissa);
  }

  lemma SeriesWellFormed(cipher: CipherId, senderId: u32, epochId: u32, scale: byte, readings: seq<Reading>, reserved: byte)
    requires reserved < 0x20 && SeriesOf(cipher, senderId, epochId, scale, readings).Ok?
    ensures var d := SeriesOf(cipher, senderId, epochId, scale, readings).value;
      WellFormed(d.(reserved := reserved), epochId) && DecodeSeries(d.raw, d.offset) == Ok((scale, readings))
  {
    SeriesFaultIffNotReadings(scale, readings);
    BaseInOrder(Series, cipher, senderId, epochId, readings[0].0, reserved);
    BuiltDecodes(scale, readings);
  }

  lemma ControlWellFormed(mt: MsgType, cipher: CipherId, senderId: u32, epochId: u32, offset: u32, body: seq<byte>,
                          reserved: byte)
    requires reserved < 0x20 && !mt.IsTimeRecovery()
    requires ControlDatagram(mt, cipher, senderId, epochId, offset, body).Ok?
    ensures WellFormed(ControlDatagram(mt, cipher, senderId, epochId, offset, body).value.(reserved := reserved), epochId)
  {
    BaseInOrder(mt, cipher, senderId, epochId, offset, reserved);
  }

  /** The payload of a well-formed datagram is encodable, and step 9 reads it back. */
  lemma WellFormedFrames(d: Datagram, epochId: u32)
    requires WellFormed(d, epochId)
    ensures d.Payload().Ok?
    ensures Frame(Opened(d.Head(), MsgType.FromU8(d.msgType).value, epochId, d.Payload().value)) == Ok(d)
  {
    hide Record.Bytes, ValidateNumber, DecodeSeries;
    if d.records != [] {
      EncodableIff(d.records);
      ParseIff(RecordsBytes(d.records), d.records);
      assert d.records[0] in d.records;
      assert RecordsBytes(d.records) == d.records[0].Bytes() + RecordsBytes(d.records[1..]);
    }
  }

  /** What step 9 accepts is well-formed and has the payload it was read from. */
  lemma FramedIsWellFormed(o: Opened)
    requires o.head.InRange() && o.head == o.head.Head() && o.head.version == VERSION
    requires AcceptsType(o.head.msgType) && MsgType.FromU8(o.head.msgType) == Some(o.msgType)
    requires CipherId.FromU8(o.head.cipherId).Some? && o.head.epochLow == o.epochId % 0x10
    requires Frame(o).Ok?
    ensures var d := Frame(o).value;
      WellFormed(d, o.epochId) && d.Head() == o.head && d.Payload() == Ok(o.payload)
  {
    hide Record.Bytes, ValidateNumber, DecodeSeries;
    var d := Frame(o).value;
    if o.msgType.IsRecordFramed() {
      ParseIff(o.payload, d.records);
      EncodableIff(d.records);
    }
  }

  lemma SuiteCodes(cipher: CipherId)
    ensures CipherId.FromU8(cipher.ToU8()) == Some(cipher)
  {
  }

  lemma ReconstructedLow(localEpoch: u32, epochLow: byte)
    requires epochLow < 0x10 && ReconstructEpoch(localEpoch, epochLow).Some?
    ensures epochLow == ReconstructEpoch(localEpoch, epochLow).value % 0x10
  {
  }

  /**
   * Steps 1 to 7 open a buffer under an epoch if and only if the buffer is a header of that epoch
   * followed by a payload and the tag over their signed image.
   */
  lemma OpenIff(cr: Crypto, buf: seq<byte>, peer: PeerConfig, localEpoch: u32, dir: Direction, o: Opened)
    ensures Open(cr, buf, peer, localEpoch, dir) == Ok(o) <==> IsSealed(cr, buf, peer, localEpoch, dir, o)
  {
    if Open(cr, buf, peer, localEpoch, dir) == Ok(o) { OpenedIsSealed(cr, buf, peer, localEpoch, dir); }
    if IsSealed(cr, buf, peer, localEpoch, dir, o) { SealedOpens(cr, buf, peer, localEpoch, dir, o); }
  }

  predicate IsSealed(cr: Crypto, buf: seq<byte>, peer: PeerConfig, localEpoch: u32, dir: Direction, o: Opened) {
    && o.head.InRange() && o.head == o.head.Head() && o.head.version == VERSION
    && AcceptsType(o.head.msgType) && MsgType.FromU8(o.head.msgType) == Some(o.msgType)
    && o.head.senderId == peer.senderId && o.head.cipherId == peer.cipher.ToU8()
    && o.head.epochLow == o.epochId % 0x10 && (localEpoch == o.epochId || localEpoch == o.epochId + 1)
    && var image := o.head.AuthHeader(o.epochId) + o.payload;
       var key := EpochKey(cr, peer.secret, peer.senderId, o.epochId, dir);
    && Stageable(peer.cipher, |image|)
    && buf == o.head.HeaderBytes() + o.payload + Tag(cr, peer.cipher, key, image, o.head.offset)
  }

  lemma OpenedIsSealed(cr: Crypto, buf: seq<byte>, peer: PeerConfig, localEpoch: u32, dir: Direction)
    requires Open(cr, buf, peer, localEpoch, dir).Ok?
    ensures IsSealed(cr, buf, peer, localEpoch, dir, Open(cr, buf, peer, localEpoch, dir).value)
  {
    hide Datagram.HeaderBytes, Datagram.AuthHeader, EpochKey, Tag;
    var o := Open(cr, buf, peer, localEpoch, dir).value;
    HeaderRebuilds(buf);
    ReconstructedLow(localEpoch, o.head.epochLow);
    ReconstructOwnEpoch(o.epochId, localEpoch);
    assert buf == buf[..HEADER_LEN] + o.payload + buf[|buf| - peer.cipher.TagLen()..];
  }

  lemma SealedOpens(cr: Crypto, buf: seq<byte>, peer: PeerConfig, localEpoch: u32, dir: Direction, o: Opened)
    requires IsSealed(cr, buf, peer, localEpoch, dir, o)
    ensures Open(cr, buf, peer, localEpoch, dir) == Ok(o)
  {
    hide Datagram.HeaderBytes, Datagram.AuthHeader, EpochKey, Tag, ParseHeader, ReconstructEpoch;
    var image := o.head.AuthHeader(o.epochId) + o.payload;
    var key := EpochKey(cr, peer.secret, peer.senderId, o.epochId, dir);
    var tag := Tag(cr, peer.cipher, key, image, o.head.offset);
    HeaderParsesBack(o.head, o.payload + tag);
    assert buf == o.head.HeaderBytes() + (o.payload + tag);
    ReconstructOwnEpoch(o.epochId, localEpoch);
    assert buf[HEADER_LEN..|buf| - |tag|] == o.payload;
    assert buf[|buf| - |tag|..] == tag;
  }

  // ------------------------------------------------------- by the primitives

  /**
   * The suites of PROTOCOL.md 7.2 spelled out over the primitives alone: `t` authenticates this
   * header, payload and epoch under the association's key.
   */
  predicate Genuine(cr: Crypto, peer: PeerConfig, dir: Direction, e: u32, h: Datagram, payload: seq<byte>, t: seq<byte>) {
    var key := cr.hkdf(peer.secret,
      [0x43, 0x41, 0x54, 0x50, 0x31] + BE4(peer.senderId) + BE4(e) + [if dir == NodeToCollector then 0x00 else 0x01]);
    var image := h.AuthHeader(e) + payload;
    match peer.cipher
    case HmacSha256T64 => t == cr.hmac(key, image)[..8]
    case SipHash24 => t == cr.sip(key[..16], image)
    case ChaCha20Poly1305 => |image| <= 512 && t == cr.aead(key, [0, 0, 0, 0, 0, 0, 0, 0] + BE4(h.offset), image)
    case HmacSha256T32 => t == cr.hmac(key, image)[..4]
  }

  /** The tag of step 7 and of the encoder is that one, and no other. */
  lemma MacIsGenuine(cr: Crypto, peer: PeerConfig, dir: Direction, e: u32, h: Datagram, payload: seq<byte>, t: seq<byte>)
    ensures MacOf(cr, peer.cipher, EpochKey(cr, peer.secret, peer.senderId, e, dir), h.AuthHeader(e) + payload, h.offset) == Ok(t)
       <==> Genuine(cr, peer, dir, e, h, payload, t)
  {
    hide Datagram.AuthHeader, BE4;
  }

  /** A header the filters of steps 1 to 6 let through, at a receiver in its epoch or the next. */
  predicate PassableHeader(h: Datagram, peer: PeerConfig, e: u32, localEpoch: u32) {
    && h.InRange() && h == h.Head() && h.version == VERSION && AcceptsType(h.msgType)
    && h.senderId == peer.senderId && h.cipherId == peer.cipher.ToU8()
    && h.epochLow == e % 0x10 && (localEpoch == e || localEpoch == e + 1)
  }

  /**
   * A frame with any tag-sized ending opens if and only if the ending is genuine; otherwise it fails
   * authentication, or, under suite 0x03 beyond 499 payload bytes, is oversize.
   */
  lemma OpensIffGenuine(cr: Crypto, peer: PeerConfig, dir: Direction, e: u32, localEpoch: u32,
                        h: Datagram, payload: seq<byte>, t: seq<byte>)
    requires PassableHeader(h, peer, e, localEpoch) && |t| == peer.cipher.TagLen()
    ensures Open(cr, h.HeaderBytes() + payload + t, peer, localEpoch, dir)
         == if Genuine(cr, peer, dir, e, h, payload, t) then Ok(Opened(h, MsgType.FromU8(h.msgType).value, e, payload))
            else if peer.cipher == ChaCha20Poly1305 && |payload| > 499 then Err(Oversize(13 + |payload|))
            else Err(AuthFailed)
  {
    hide Datagram.HeaderBytes, Datagram.AuthHeader, EpochKey, Tag, ParseHeader, ReconstructEpoch, Genuine;
    var buf := h.HeaderBytes() + payload + t;
    MacIsGenuine(cr, peer, dir, e, h, payload, t);
    HeaderParsesBack(h, payload + t);
    assert buf == h.HeaderBytes() + (payload + t);
    ReconstructOwnEpoch(e, localEpoch);
    assert buf[HEADER_LEN..|buf| - |t|] == payload && buf[|buf| - |t|..] == t;
  }

  /** Whatever opens ends in a genuine tag over its header, its full epoch and its payload. */
  lemma OpenedIsGenuine(cr: Crypto, buf: seq<byte>, peer: PeerConfig, localEpoch: u32, dir: Direction)
    requires Open(cr, buf, peer, localEpoch, dir).Ok?
    ensures var o, len := Open(cr, buf, peer, localEpoch, dir).value, peer.cipher.TagLen();
      && |buf| >= 9 + len && o.head == ParseHeader(buf) && o.payload == buf[9..|buf| - len]
      && (localEpoch == o.epochId || localEpoch == o.epochId + 1)
      && Genuine(cr, peer, dir, o.epochId, ParseHeader(buf), buf[9..|buf| - len], buf[|buf| - len..])
  {
    hide ParseHeader, Datagram.AuthHeader, EpochKey, Tag, Genuine;
    var o, len := Open(cr, buf, peer, localEpoch, dir).value, peer.cipher.TagLen();
    ReconstructedLow(localEpoch, o.head.epochLow);
    ReconstructOwnEpoch(o.epochId, localEpoch);
    MacIsGenuine(cr, peer, dir, o.epochId, o.head, o.payload, buf[|buf| - len..]);
  }

  /** What the encoder writes is the header, the payload and a genuine tag over both. */
  lemma EncodedIsGenuine(cr: Crypto, d: Datagram, peer: PeerConfig, e: u32, dir: Direction)
    requires d.senderId == peer.senderId && d.cipherId == peer.cipher.ToU8()
    requires d.Encoding(cr, peer.secret, e, dir).Ok?
    ensures var wire, len := d.Encoding(cr, peer.secret, e, dir).value, peer.cipher.TagLen();
      && d.Payload().Ok? && |wire| == 9 + |d.Payload().value| + len
      && wire[..9] == d.HeaderBytes() && wire[9..|wire| - len] == d.Payload().value
      && Genuine(cr, peer, dir, e, d, d.Payload().value, wire[|wire| - len..])
  {
    hide Datagram.HeaderBytes, Datagram.AuthHeader, EpochKey, Tag, Genuine;
    SuiteCodes(peer.cipher);
    var wire, len := d.Encoding(cr, peer.secret, e, dir).value, peer.cipher.TagLen();
    MacIsGenuine(cr, peer, dir, e, d, d.Payload().value, wire[|wire| - len..]);
  }

  /** The primitive of the suite, truncated to its tag, tells the two signed images apart under the epoch's key. */
  predicate Separates(cr: Crypto, peer: PeerConfig, dir: Direction, e: u32, h1: Datagram, p1: seq<byte>,
                      h2: Datagram, p2: seq<byte>)
  {
    var key := cr.hkdf(peer.secret,
      [0x43, 0x41, 0x54, 0x50, 0x31] + BE4(peer.senderId) + BE4(e) + [if dir == NodeToCollector then 0x00 else 0x01]);
    var i1, i2 := h1.AuthHeader(e) + p1, h2.AuthHeader(e) + p2;
    match peer.cipher
    case HmacSha256T64 => cr.hmac(key, i1)[..8] != cr.hmac(key, i2)[..8]
    case SipHash24 => cr.sip(key[..16], i1) != cr.sip(key[..16], i2)
    case ChaCha20Poly1305 =>
      cr.aead(key, [0, 0, 0, 0, 0, 0, 0, 0] + BE4(h1.offset), i1) != cr.aead(key, [0, 0, 0, 0, 0, 0, 0, 0] + BE4(h2.offset), i2)
    case HmacSha256T32 => cr.hmac(key, i1)[..4] != cr.hmac(key, i2)[..4]
  }

  /** A frame that carries the tag of another, from which the suite tells it apart, fails authentication. */
  lemma TagDoesNotTransfer(cr: Crypto, peer: PeerConfig, dir: Direction, e: u32, localEpoch: u32,
                           h1: Datagram, p1: seq<byte>, h2: Datagram, p2: seq<byte>, t2: seq<byte>)
    requires PassableHeader(h1, peer, e, localEpoch) && (peer.cipher == ChaCha20Poly1305 ==> |p1| <= 499)
    requires Genuine(cr, peer, dir, e, h2, p2, t2) && Separates(cr, peer, dir, e, h1, p1, h2, p2)
    ensures Open(cr, h1.HeaderBytes() + p1 + t2, peer, localEpoch, dir) == Err(AuthFailed)
  {
    hide Datagram.HeaderBytes, Datagram.AuthHeader, Open, BE4, PassableHeader;
    OpensIffGenuine(cr, peer, dir, e, localEpoch, h1, p1, t2);
  }

  /**
   * Decode after encode: a well-formed datagram, encoded under its own epoch for any suite and any
   * reserved bits, passes steps 1 to 7 at a matching receiver in that epoch or the next, and steps
   * 9 and 10 give back the same fields, with the records split into kept and skipped.
   */
  lemma DecodeAfterEncode(cr: Crypto, d: Datagram, peer: PeerConfig, epochId: u32, localEpoch: u32, dir: Direction)
    requires WellFormed(d, epochId)
    requires d.senderId == peer.senderId && d.cipherId == peer.cipher.ToU8()
    requires localEpoch == epochId || localEpoch == epochId + 1
    requires d.Encoding(cr, peer.secret, epochId, dir).Ok?
    ensures var wire := d.Encoding(cr, peer.secret, epochId, dir).value;
      var o := Open(cr, wire, peer, localEpoch, dir);
      && o == Ok(Opened(d.Head(), MsgType.FromU8(d.msgType).value, epochId, d.Payload().value))
      && Verdict(o, peer.layouts, true)
         == Ok(Accepted(d.(records := Kept(peer.layouts, d.records)), epochId, d.offset, Skipped(peer.layouts, d.records)))
  {
    hide Datagram.HeaderBytes, Datagram.AuthHeader, EpochKey, Tag, Open, Frame;
    SuiteCodes(peer.cipher);
    WellFormedFrames(d, epochId);
    var o := Opened(d.Head(), MsgType.FromU8(d.msgType).value, epochId, d.Payload().value);
    SameHeader(d, epochId);
    SealedOpens(cr, d.Encoding(cr, peer.secret, epochId, dir).value, peer, localEpoch, dir, o);
  }

  /** The header bytes and the signed header do not depend on the payload. */
  lemma SameHeader(d: Datagram, epochId: u32)
    ensures d.Head().HeaderBytes() == d.HeaderBytes() && d.Head().AuthHeader(epochId) == d.AuthHeader(epochId)
  {
  }

  /** Encoding a well-formed datagram fails only for suite 0x03 beyond its 499-byte payload budget. */
  lemma EncodingFailsOnlyOversize(cr: Crypto, d: Datagram, secret: Bytes32, epochId: u32, dir: Direction)
    requires WellFormed(d, epochId)
    ensures d.Payload().Ok?
    ensures var len := |d.Payload().value|;
      if CipherId.FromU8(d.cipherId) == Some(ChaCha20Poly1305) && len > 499
      then d.Encoding(cr, secret, epochId, dir) == Err(Oversize(13 + len))
      else d.Encoding(cr, secret, epochId, dir).Ok?
  {
    WellFormedFrames(d, epochId);
  }

  /**
   * Encode after decode: whatever byte string is accepted is the encoding, under the reconstructed
   * epoch, of one well-formed datagram - the accepted one with its skipped records put back in
   * their places. When no record was skipped, the accepted datagram itself re-encodes to the bytes.
   */
  lemma EncodeAfterDecode(cr: Crypto, buf: seq<byte>, peer: PeerConfig, localEpoch: u32, dir: Direction)
    returns (sent: seq<Record>)
    requires Verdict(Open(cr, buf, peer, localEpoch, dir), peer.layouts, true).Ok?
    ensures var acc := Verdict(Open(cr, buf, peer, localEpoch, dir), peer.layouts, true).value;
      var d := acc.datagram.(records := sent);
      && WellFormed(d, acc.epochId) && d.senderId == peer.senderId && d.cipherId == peer.cipher.ToU8()
      && d.offset == acc.offset
      && acc.datagram.records == Kept(peer.layouts, sent) && acc.skipped == Skipped(peer.layouts, sent)
      && Interleaving(acc.datagram.records, acc.skipped, sent)
      && d.Encoding(cr, peer.secret, acc.epochId, dir) == Ok(buf)
      && (acc.skipped == [] ==> acc.datagram.Encoding(cr, peer.secret, acc.epochId, dir) == Ok(buf))
  {
    hide Datagram.HeaderBytes, Datagram.AuthHeader, EpochKey, Tag, Open, Frame, WellFormed;
    var o := Open(cr, buf, peer, localEpoch, dir).value;
    OpenedIsSealed(cr, buf, peer, localEpoch, dir);
    SuiteCodes(peer.cipher);
    FramedIsWellFormed(o);
    var d := Frame(o).value;
    SameHeader(d, o.epochId);
    sent := d.records;
    PartitionInterleaves(peer.layouts, sent);
    if Skipped(peer.layouts, sent) == [] { NothingSkippedKeepsAll(peer.layouts, sent); }
    var acc := Verdict(Ok(o), peer.layouts, true).value;
    assert acc.datagram.(records := sent) == d;
  }
}
