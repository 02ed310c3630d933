/** Which bytes are refused with which error, field by field of the wire. */
module Refusals {
  import opened Basics
  import opened Clock
  import opened Mac
  import opened Readings
  import opened Records
  import opened Verify
  import opened Wire

  // ---------------------------------------------------------------- steps 1 to 7

  /** The codes of the registries, as numbers. */
  function TypeCode(mt: MsgType): byte {
    match mt
    case Message => 1
    case Event => 2
    case Alarm => 3
    case Number => 4
    case Series => 5
    case EpochAnnounce => 16
    case TimeAnnounce => 17
    case TimeRequest => 18
    case Heartbeat => 19
    case CapabilityAdvertise => 20
  }

  function SuiteCode(cipher: CipherId): byte {
    match cipher case HmacSha256T64 => 1 case SipHash24 => 2 case ChaCha20Poly1305 => 3 case HmacSha256T32 => 4
  }

  function SuiteTagLen(cipher: CipherId): nat {
    match cipher case HmacSha256T64 => 8 case SipHash24 => 8 case ChaCha20Poly1305 => 16 case HmacSha256T32 => 4
  }

  /** The error of steps 1 to 6 that these bytes meet first, if any. */
  function FirstRefusal(buf: seq<byte>, peer: PeerConfig, localEpoch: u32): Option<Error> {
    if |buf| < 9 then Some(TooShort)
    else
      var (version, msgType, suite, low) := (buf[0] / 32, buf[0] % 32, buf[1] / 16, buf[1] % 16);
      var sender: u32 := ((buf[5] as int * 256 + buf[6]) * 256 + buf[7]) * 256 + buf[8];
      if version != 1 then Some(UnsupportedVersion(version))
      else if msgType !in {1, 2, 3, 4, 5, 16, 19, 20} then Some(BadMsgType(msgType))
      else if sender != peer.senderId then Some(UnknownSender(sender))
      else if suite != SuiteCode(peer.cipher) then Some(CipherMismatch(suite, SuiteCode(peer.cipher)))
      else if |buf| < 9 + SuiteTagLen(peer.cipher) then Some(TooShort)
      else if localEpoch % 16 != low && (localEpoch == 0 || (localEpoch - 1) % 16 != low) then Some(EpochOutOfWindow)
      else None
  }

  /**
   * Every refusal of steps 1 to 7, from the bytes: the first filter that objects decides; past the
   * filters only the tag can, as oversize or as a failed authentication.
   */
  lemma RefusedByFirstFilter(cr: Crypto, buf: seq<byte>, peer: PeerConfig, localEpoch: u32, dir: Direction)
    ensures var r := Open(cr, buf, peer, localEpoch, dir);
      match FirstRefusal(buf, peer, localEpoch)
      case Some(e) => r == Err(e)
      case None => r.Ok? || r == Err(AuthFailed) || (peer.cipher == ChaCha20Poly1305 && r == Err(Oversize(|buf| - 12)))
  {
    hide EpochKey, Tag, Datagram.AuthHeader, ReconstructEpoch;
    if |buf| >= 9 {
      HeaderBits(buf);
      AcceptedCodes(ParseHeader(buf).msgType);
      ReconstructsWhen(localEpoch, ParseHeader(buf).epochLow);
    }
  }

  lemma HeaderBits(buf: seq<byte>)
    requires |buf| >= 9
    ensures var h := ParseHeader(buf);
      && h.version == buf[0] / 32 && h.msgType == buf[0] % 32 && h.cipherId == buf[1] / 16 && h.epochLow == buf[1] % 16
      && h.senderId == ((buf[5] as int * 256 + buf[6]) * 256 + buf[7]) * 256 + buf[8]
      && h.reserved == buf[2] / 8 && h.offset == (buf[2] as int % 8 * 256 + buf[3]) * 256 + buf[4]
  {
  }

  lemma AcceptedCodes(code: byte)
    ensures AcceptsType(code) <==> code in {1, 2, 3, 4, 5, 16, 19, 20}
    ensures forall mt: MsgType :: MsgType.FromU8(code) == Some(mt) <==> code == TypeCode(mt)
  {
  }

  lemma ReconstructsWhen(localEpoch: u32, low: byte)
    requires low < 16
    ensures ReconstructEpoch(localEpoch, low).None? <==> localEpoch % 16 != low && (localEpoch == 0 || (localEpoch - 1) % 16 != low)
  {
  }

  // ---------------------------------------------------------------------- step 9

  /** Records of the three framed types; exactly one in an EVENT or an ALARM. */
  lemma FramedTypes(o: Opened)
    requires o.msgType in {Message, Event, Alarm}
    ensures Frame(o)
         == if |o.payload| < 3 then Err(Framing(PayloadTooShort))
            else if Parse(o.payload).Err? then Err(Parse(o.payload).error)
            else if o.msgType != Message && |Parse(o.payload).value| > 1 then Err(Framing(ExactlyOneRecord))
            else Ok(o.head.(records := Parse(o.payload).value))
  {
  }

  lemma PlainTypes(o: Opened)
    requires o.msgType !in {Message, Event, Alarm}
    ensures Frame(o)
         == if o.msgType == Number && |o.payload| != 3 then Err(BadNumber(WrongLength))
            else if o.msgType == Number && !(1 <= o.payload[0] <= 7) then Err(BadNumber(ScaleRange))
            else if o.msgType == Series && DecodeSeries(o.payload, o.head.offset).Err? then
              Err(DecodeSeries(o.payload, o.head.offset).error)
            else Ok(o.head.(raw := o.payload))
  {
  }

  /** One record, from its bytes: format, schema version and size are packed 4, 8 and 12 bits wide. */
  lemma RecordRefusals(buf: seq<byte>)
    ensures Decode(buf)
         == if |buf| < 3 then Err(Framing(RecordHeaderTruncated))
            else
              var format: byte := buf[0] / 16;
              var schemaVersion: byte := buf[0] % 16 * 16 + buf[1] / 16;
              var size: nat := buf[1] as int % 16 * 256 + buf[2];
              if format == 0 then Err(Framing(FormatZero))
              else if schemaVersion == 0 then Err(Framing(SchemaVersionZero))
              else if size == 0 then Err(Framing(SizeZero))
              else if |buf| < 3 + size then Err(Framing(BodyOverrun))
              else Ok((Record(format, schemaVersion, buf[3..3 + size]), 3 + size))
  {
    if |buf| >= 3 {
      var (b0, b1, b2) := (buf[0], buf[1], buf[2]);
      hide Word3, Pack;
      WordIsPacked(b0, b1, b2);
      PackUnpack(b0 / 16, b0 % 16 * 16 + b1 / 16, b1 as int % 16 * 256 + b2);
    }
  }

  lemma WordIsPacked(b0: byte, b1: byte, b2: byte)
    ensures Word3(b0, b1, b2) == Pack(b0 / 16, b0 % 16 * 16 + b1 / 16, b1 as int % 16 * 256 + b2)
  {
  }

  /** A payload fails to parse with the error of its first unreadable record, after any readable ones. */
  lemma {:induction false} FirstBadRecordDecides(rs: seq<Record>, tail: seq<byte>)
    requires AllWireValid(rs) && tail != [] && Decode(tail).Err?
    ensures Parse(RecordsBytes(rs) + tail) == Err(Decode(tail).error)
  {
    hide Decode, Record.Bytes, Record.WireValid;
    var p := RecordsBytes(rs) + tail;
    if rs == [] {
      assert p == tail;
    } else {
      assert rs[0] in rs;
      var rest := RecordsBytes(rs[1..]) + tail;
      assert p == rs[0].Bytes() + rest;
      DecodeIff(p, rs[0], rs[0].WireLen());
      assert p[rs[0].WireLen()..] == rest;
      FirstBadRecordDecides(rs[1..], tail);
    }
  }

  /** And every failing payload has such a record. */
  lemma {:induction false} FirstBadRecord(p: seq<byte>) returns (rs: seq<Record>, tail: seq<byte>)
    requires Parse(p).Err?
    ensures AllWireValid(rs) && tail != [] && p == RecordsBytes(rs) + tail
    ensures Decode(tail).Err? && Parse(p) == Err(Decode(tail).error)
    decreases |p|
  {
    hide Record.Bytes, Record.WireValid;
    if Decode(p).Err? {
      rs, tail := [], p;
    } else {
      var (r, used) := Decode(p).value;
      DecodeIff(p, r, used);
      rs, tail := FirstBadRecord(p[used..]);
      assert p == r.Bytes() + p[used..] == r.Bytes() + (RecordsBytes(rs) + tail);
      assert ([r] + rs)[1..] == rs;
      assert p == RecordsBytes([r] + rs) + tail;
      rs := [r] + rs;
    }
  }

  /** What a SERIES payload is refused for before its entries are looked at. */
  lemma SeriesHeadRefusals(p: seq<byte>, anchor: u32)
    ensures |p| < 3 ==> DecodeSeries(p, anchor) == Err(BadSeries(PayloadTooShort))
    ensures |p| >= 3 && !(1 <= p[0] <= 7) ==> DecodeSeries(p, anchor) == Err(BadSeries(ScaleRange))
    ensures |p| == 3 && 1 <= p[0] <= 7 ==> DecodeSeries(p, anchor) == Err(BadSeries(TooFewReadings))
    ensures |p| > 3 && 1 <= p[0] <= 7 && (|p| - 3) % 4 != 0 ==> DecodeSeries(p, anchor) == Err(BadSeries(PartialEntry))
    ensures |p| > 3 && 1 <= p[0] <= 7 && (|p| - 3) % 4 == 0 && anchor >= 524288 ==>
      DecodeSeries(p, anchor) == Err(BadSeries(OffsetTooWide))
  {
  }

  /** The first entry that cannot follow the readings before it decides, whatever comes after. */
  lemma {:induction false} FirstBadEntryDecides(rs: seq<Reading>, a: byte, b: byte, tail: seq<byte>)
    requires rs != [] && AllLinked(rs) && InEpoch(rs) && |tail| % 4 == 2
    requires a as int * 256 + b == 0 || rs[|rs| - 1].0 + a as int * 256 + b >= 524288
    ensures (|Deltas(rs)| + 2 + |tail|) % 4 == 0
    ensures DecodeEntries(rs[0].0, Deltas(rs) + ([a, b] + tail))
         == Err(BadSeries(if a as int * 256 + b == 0 then ZeroDelta else CrossesEpoch))
  {
    hide Entry, FromBE2, FromBE2Signed, DecodeEntries;
    var bad := [a, b] + tail;
    DeltasWhole(rs);
    if |rs| == 1 {
      assert Deltas(rs) + bad == bad && bad[0] == a && bad[1] == b;
      BadEntry(rs[0].0, bad);
    } else {
      LinkedTail(rs);
      FirstBadEntryDecides(rs[1..], a, b, tail);
      GoodEntry(rs[0].0, rs[1], Deltas(rs[1..]) + bad);
      assert Deltas(rs) + bad == Entry(rs[1].0 - rs[0].0, rs[1].1) + (Deltas(rs[1..]) + bad);
    }
  }

  lemma {:induction false} DeltasWhole(rs: seq<Reading>)
    requires AllLinked(rs)
    ensures |Deltas(rs)| % 4 == 0
  {
    hide Entry;
    if |rs| >= 2 {
      LinkedTail(rs);
      DeltasWhole(rs[1..]);
    }
  }

  lemma BadEntry(cum: u32, es: seq<byte>)
    requires cum < 524288 && |es| % 4 == 0 && es != []
    requires es[0] as int * 256 + es[1] == 0 || cum + es[0] as int * 256 + es[1] >= 524288
    ensures DecodeEntries(cum, es) == Err(BadSeries(if es[0] as int * 256 + es[1] == 0 then ZeroDelta else CrossesEpoch))
  {
    hide FromBE2Signed, Prepend;
  }

  lemma GoodEntry(cum: u32, next: Reading, rest: seq<byte>)
    requires cum < next.0 < 524288 && next.0 - cum <= 65535 && |rest| % 4 == 0
    ensures DecodeEntries(cum, Entry(next.0 - cum, next.1) + rest) == Prepend(next, DecodeEntries(next.0, rest))
  {
    hide Entry, FromBE2, FromBE2Signed;
    var e := Entry(next.0 - cum, next.1);
    EntryDecodes(next.0 - cum, next.1);
    var es := e + rest;
    assert es[0] == e[0] && es[1] == e[1] && es[2] == e[2] && es[3] == e[3] && es[SERIES_ENTRY_LEN..] == rest;
  }

  // -------------------------------------------------------------------- builders

  /** A builder's datagram carries its arguments, version 1, the type's code and cleared reserved bits. */
  function Carrying(mt: MsgType, cipher: CipherId, sender: u32, epoch: u32, offset: u32): Datagram {
    Datagram(1, TypeCode(mt), SuiteCode(cipher), epoch % 16, 0, offset, sender, [], [])
  }

  lemma DataBuilds(mt: MsgType, cipher: CipherId, sender: u32, epoch: u32, offset: u32, records: seq<Record>)
    ensures Data(mt, cipher, sender, epoch, offset, records)
         == if mt !in {Message, Event, Alarm} then Err(Framing(NotRecordFramed))
            else if |records| == 0 then Err(Framing(NoRecords))
            else if mt != Message && |records| != 1 then Err(Framing(ExactlyOneRecord))
            else if offset >= 524288 then Err(Framing(OffsetTooWide))
            else Ok(Carrying(mt, cipher, sender, epoch, offset).(records := records))
  {
  }

  lemma NumberBuilds(cipher: CipherId, sender: u32, epoch: u32, offset: u32, scale: byte, mantissa: i16)
    ensures NumberDatagram(cipher, sender, epoch, offset, scale, mantissa)
         == if !(1 <= scale <= 7) then Err(BadNumber(ScaleRange))
            else if offset >= 524288 then Err(Framing(OffsetTooWide))
            else Ok(Carrying(Number, cipher, sender, epoch, offset).(raw := NumberBytes(scale, mantissa)))
  {
  }

  lemma ControlBuilds(mt: MsgType, cipher: CipherId, sender: u32, epoch: u32, offset: u32, body: seq<byte>)
    ensures ControlDatagram(mt, cipher, sender, epoch, offset, body)
         == if mt !in {EpochAnnounce, TimeAnnounce, TimeRequest, Heartbeat, CapabilityAdvertise} then Err(Framing(NotControlType))
            else if offset >= 524288 then Err(Framing(OffsetTooWide))
            else Ok(Carrying(mt, cipher, sender, epoch, offset).(raw := body))
  {
  }

  /** The SERIES builder refuses for the scale, the count, the first instant, the first bad gap, the last instant, in this order. */
  lemma SeriesBuilds(cipher: CipherId, sender: u32, epoch: u32, scale: byte, rs: seq<Reading>)
    ensures !(1 <= scale <= 7) ==> SeriesOf(cipher, sender, epoch, scale, rs) == Err(BadSeries(ScaleRange))
    ensures 1 <= scale <= 7 && |rs| < 2 ==> SeriesOf(cipher, sender, epoch, scale, rs) == Err(BadSeries(TooFewReadings))
    ensures 1 <= scale <= 7 && |rs| >= 2 && rs[0].0 >= 524288 ==>
      SeriesOf(cipher, sender, epoch, scale, rs) == Err(Framing(OffsetTooWide))
    ensures 1 <= scale <= 7 && |rs| >= 2 && rs[0].0 < 524288 ==>
      && (forall i :: 0 < i < |rs| && AllLinked(rs[..i]) ==>
            && (rs[i].0 <= rs[i - 1].0 ==> SeriesOf(cipher, sender, epoch, scale, rs) == Err(BadSeries(NotIncreasing)))
            && (rs[i].0 as int - rs[i - 1].0 > 65535 ==> SeriesOf(cipher, sender, epoch, scale, rs) == Err(BadSeries(GapTooWide))))
      && (AllLinked(rs) ==>
            if rs[|rs| - 1].0 >= 524288 then SeriesOf(cipher, sender, epoch, scale, rs) == Err(BadSeries(CrossesEpoch))
            else SeriesReadings(rs) && SeriesOf(cipher, sender, epoch, scale, rs)
                   == Ok(Carrying(Series, cipher, sender, epoch, rs[0].0).(raw := SeriesBytes(scale, rs))))
  {
    hide SeriesBytes;
    SeriesFaultIffNotReadings(scale, rs);
    NoBadGapIsLinked(rs);
    forall i | 0 < i < |rs| && AllLinked(rs[..i])
      ensures rs[i].0 <= rs[i - 1].0 ==> FirstBadGap(rs) == Some(NotIncreasing)
      ensures rs[i].0 as int - rs[i - 1].0 > 65535 ==> FirstBadGap(rs) == Some(GapTooWide)
    {
      BadGapAt(rs, i);
    }
  }

  // -------------------------------------------------------------------- encoding

  /** The first body that is empty or beyond 4095 bytes is refused, with its length. */
  lemma {:induction false} FirstUnencodableIs(rs: seq<Record>, i: nat)
    requires i < |rs| && !(0 < |rs[i].body| <= 4095)
    requires forall k :: 0 <= k < i ==> 0 < |rs[k].body| <= 4095
    ensures FirstUnencodable(rs) == Some(|rs[i].body|)
  {
    if i > 0 { FirstUnencodableIs(rs[1..], i - 1); }
  }

  lemma {:induction false} AllEncodableIs(rs: seq<Record>)
    requires forall k :: 0 <= k < |rs| ==> 0 < |rs[k].body| <= 4095
    ensures FirstUnencodable(rs) == None
  {
    if rs != [] { AllEncodableIs(rs[1..]); }
  }

  /** An encoding fails for an unregistered suite, then for a body, then for suite 0x03 beyond 499 payload bytes. */
  lemma EncodingRefusals(cr: Crypto, d: Datagram, secret: Bytes32, epochId: u32, dir: Direction)
    ensures d.cipherId !in {1, 2, 3, 4} ==> d.Encoding(cr, secret, epochId, dir) == Err(CipherUnimplemented(d.cipherId))
    ensures d.cipherId in {1, 2, 3, 4} && d.records != [] && FirstUnencodable(d.records).Some? ==>
      d.Encoding(cr, secret, epochId, dir) == Err(BodyTooLarge(FirstUnencodable(d.records).value))
    ensures d.cipherId in {1, 2, 3, 4} && (d.records == [] || FirstUnencodable(d.records).None?) ==>
      var payload := if d.records == [] then d.raw else RecordsBytes(d.records);
      && d.Payload() == Ok(payload)
      && if d.cipherId == 3 && |payload| > 499 then d.Encoding(cr, secret, epochId, dir) == Err(Oversize(13 + |payload|))
         else d.Encoding(cr, secret, epochId, dir).Ok?
  {
    hide EpochKey, Tag, Datagram.HeaderBytes, Datagram.AuthHeader, FirstUnencodable, RecordsBytes;
  }
}
