/** Datagrams: the packed header, the builders and the in-place encoder (PROTOCOL.md 4, 6, 7). */
module Wire {
  import opened Basics
  import opened Mac
  import opened Records
  import opened Readings

  datatype Datagram = Datagram(
    version: byte, msgType: byte, cipherId: byte, epochLow: byte, reserved: byte,
    offset: u32, senderId: u32,
    records: seq<Record>, raw: seq<byte>)
  {
    /** Every field fits the bits the header gives it. */
    predicate InRange() {
      && version < 0x08 && msgType < 0x20 && cipherId < 0x10 && epochLow < 0x10 && reserved < 0x20
      && offset < TICKS_PER_EPOCH
    }

    function Head(): Datagram { this.(records := [], raw := []) }

    // ---------------------------------------------------------------- header

    function HeaderBytes(): (h: seq<byte>)
      ensures |h| == HEADER_LEN
    {
      PackHeader(version, msgType, cipherId, epochLow, reserved, offset) + BE4(senderId)
    }

    /**
     * What the tag covers of the header (PROTOCOL.md 7.1): the full epoch stands in for its low bits,
     * whose field is zero.
     */
    function AuthHeader(epochId: u32): (h: seq<byte>)
      ensures |h| == 13
    {
      PackHeader(version, msgType, cipherId, 0, reserved, offset) + BE4(epochId) + BE4(senderId)
    }

    // --------------------------------------------------------------- payload

    function PayloadLen(): nat {
      if records != [] then TotalLen(records) else |raw|
    }

    function Payload(): Result<seq<byte>> {
      if records == [] then Ok(raw)
      else if FirstUnencodable(records).Some? then Err(BodyTooLarge(FirstUnencodable(records).value))
      else Ok(RecordsBytes(records))
    }

    /** `encode` with no size cap. */
    function Encoding(cr: Crypto, secret: Bytes32, epochId: u32, dir: Direction): Result<seq<byte>> {
      match CipherId.FromU8(cipherId)
      case None => Err(CipherUnimplemented(cipherId))
      case Some(cipher) =>
        match Payload()
        case Err(e) => Err(e)
        case Ok(payload) =>
          var key := EpochKey(cr, secret, senderId, epochId, dir);
          match MacOf(cr, cipher, key, AuthHeader(epochId) + payload, offset)
          case Err(e) => Err(e)
          case Ok(tag) => Ok(HeaderBytes() + payload + tag)
    }
  }

  /** Header bytes 0..5: every field masked to its width, the 19-bit offset across three bytes. */
  function PackHeader(version: byte, msgType: byte, cipherId: byte, epochLow: byte, reserved: byte, offset: u32)
    : (h: seq<byte>)
    ensures |h| == 5
  {
    var o := offset % TICKS_PER_EPOCH;
    var upper: nat := o / 0x100;
    [Join(version % 0x08, msgType % 0x20, 0x20),
     Join(cipherId % 0x10, epochLow % 0x10, 0x10),
     Join(reserved % 0x20, upper / 0x100, 0x08),
     upper % 0x100,
     o % 0x100]
  }

  /** Two bit fields in one byte, the lower one `width` values wide. */
  function Join(hi: nat, lo: nat, width: nat): byte
    requires width == 0x20 || width == 0x10 || width == 0x08
    requires hi < 0x100 / width && lo < width
  {
    hi * width + lo
  }

  function Offset19(b2: nat, b3: byte, b4: byte): (o: u32)
    ensures o < TICKS_PER_EPOCH
  {
    OffsetOf(b2 % 0x08, b3, b4)
  }

  function OffsetOf(top: nat, b3: byte, b4: byte): (o: u32)
    requires top < 0x08
    ensures o < TICKS_PER_EPOCH
  {
    (top * 0x100 + b3) * 0x100 + b4
  }

  /** The header fields of a buffer, with no payload yet. */
  function ParseHeader(buf: seq<byte>): (d: Datagram)
    requires |buf| >= HEADER_LEN
    ensures d.InRange()
  {
    Datagram(buf[0] / 0x20, buf[0] % 0x20, buf[1] / 0x10, buf[1] % 0x10, buf[2] / 0x08,
             Offset19(buf[2], buf[3], buf[4]), FromBE4(buf[5], buf[6], buf[7], buf[8]), [], [])
  }

  lemma UnpackHeader(b0: byte, b1: byte, b2: byte, b3: byte, b4: byte)
    ensures PackHeader(b0 / 0x20, b0 % 0x20, b1 / 0x10, b1 % 0x10, b2 / 0x08, Offset19(b2, b3, b4))
         == [b0, b1, b2, b3, b4]
  {
    hide Join, OffsetOf, PackHeader;
    PackFitting(b0 / 0x20, b0 % 0x20, b1 / 0x10, b1 % 0x10, b2 / 0x08, b2 % 0x08, b3, b4);
    RejoinByte(b0, 0x20);
    RejoinByte(b1, 0x10);
    RejoinByte(b2, 0x08);
  }

  lemma PackFitting(version: byte, msgType: byte, cipherId: byte, epochLow: byte, reserved: byte,
                    low: nat, b3: byte, b4: byte)
    requires version < 0x08 && msgType < 0x20 && cipherId < 0x10 && epochLow < 0x10 && reserved < 0x20 && low < 0x08
    ensures PackHeader(version, msgType, cipherId, epochLow, reserved, OffsetOf(low, b3, b4))
         == [Join(version, msgType, 0x20), Join(cipherId, epochLow, 0x10), Join(reserved, low, 0x08), b3, b4]
  {
    hide Join, OffsetOf;
    OffsetBytes(low, b3, b4);
    var o := OffsetOf(low, b3, b4);
    FitsField(o, TICKS_PER_EPOCH);
    FitsField(version, 0x08);
    FitsField(msgType, 0x20);
    FitsField(cipherId, 0x10);
    FitsField(epochLow, 0x10);
    FitsField(reserved, 0x20);
  }

  lemma FitsField(x: nat, width: nat)
    requires x < width
    ensures x % width == x
  {
  }

  lemma OffsetBytes(low: nat, b3: byte, b4: byte)
    requires low < 0x08
    ensures var o := OffsetOf(low, b3, b4);
      o / 0x100 / 0x100 == low && o / 0x100 % 0x100 == b3 && o % 0x100 == b4
  {
    DivModBytes(low * 0x100 + b3, b4);
    DivModBytes(low, b3);
  }

  lemma RejoinByte(b: byte, width: nat)
    requires width == 0x20 || width == 0x10 || width == 0x08
    ensures b / width < 0x100 / width && Join(b / width, b % width, width) == b
  {
  }

  lemma PackFields(version: byte, msgType: byte, cipherId: byte, epochLow: byte, reserved: byte, offset: u32)
    requires version < 0x08 && msgType < 0x20 && cipherId < 0x10 && epochLow < 0x10 && reserved < 0x20
    requires offset < TICKS_PER_EPOCH
    ensures var h := PackHeader(version, msgType, cipherId, epochLow, reserved, offset);
      && h[0] / 0x20 == version && h[0] % 0x20 == msgType
      && h[1] / 0x10 == cipherId && h[1] % 0x10 == epochLow
      && h[2] / 0x08 == reserved && Offset19(h[2], h[3], h[4]) == offset
  {
    hide Join, OffsetOf;
    SplitByte(version, msgType, 0x20);
    SplitByte(cipherId, epochLow, 0x10);
    var upper: nat := offset / 0x100;
    SplitByte(reserved, upper / 0x100, 0x08);
    OffsetRejoins(offset);
  }

  lemma OffsetRejoins(offset: u32)
    requires offset < TICKS_PER_EPOCH
    ensures var upper: nat := offset / 0x100;
      upper / 0x100 < 0x08 && OffsetOf(upper / 0x100, upper % 0x100, offset % 0x100) == offset
  {
  }

  lemma SplitByte(hi: nat, lo: nat, width: nat)
    requires width == 0x20 || width == 0x10 || width == 0x08
    requires hi < 0x100 / width && lo < width
    ensures Join(hi, lo, width) / width == hi && Join(hi, lo, width) % width == lo
  {
  }

  /** Writing the header and reading it back gives the fields. */
  lemma HeaderParsesBack(d: Datagram, rest: seq<byte>)
    requires d.InRange()
    ensures ParseHeader(d.HeaderBytes() + rest) == d.Head()
  {
    hide PackHeader, Offset19, BE4, FromBE4;
    PackFields(d.version, d.msgType, d.cipherId, d.epochLow, d.reserved, d.offset);
    BE4RoundTrip(d.senderId);
    var buf := d.HeaderBytes() + rest;
    assert buf[..5] == PackHeader(d.version, d.msgType, d.cipherId, d.epochLow, d.reserved, d.offset);
    assert buf[5..9] == BE4(d.senderId);
  }

  /** Reading a header and writing it back gives the bytes. */
  lemma HeaderRebuilds(buf: seq<byte>)
    requires |buf| >= HEADER_LEN
    ensures ParseHeader(buf).HeaderBytes() == buf[..HEADER_LEN]
  {
    hide PackHeader, Offset19, BE4, FromBE4;
    UnpackHeader(buf[0], buf[1], buf[2], buf[3], buf[4]);
    FromBE4RoundTrip(buf[5], buf[6], buf[7], buf[8]);
  }

  /**
   * The signed image is injective: in-range headers with equal `auth_header ++ payload` agree on
   * every authenticated field, the full epoch and the payload. Only `epoch_low` is not in it.
   */
  lemma SignedImageInjective(d1: Datagram, e1: u32, p1: seq<byte>, d2: Datagram, e2: u32, p2: seq<byte>)
    requires d1.InRange() && d2.InRange()
    requires d1.AuthHeader(e1) + p1 == d2.AuthHeader(e2) + p2
    ensures d1.Head().(epochLow := 0) == d2.Head().(epochLow := 0) && e1 == e2 && p1 == p2
  {
    hide PackHeader, BE4;
    var i1, i2 := d1.AuthHeader(e1) + p1, d2.AuthHeader(e2) + p2;
    assert p1 == i1[13..] == i2[13..] == p2;
    assert BE4(e1) == i1[5..9] == i2[5..9] == BE4(e2);
    assert BE4(d1.senderId) == i1[9..13] == i2[9..13] == BE4(d2.senderId);
    assert PackHeader(d1.version, d1.msgType, d1.cipherId, 0, d1.reserved, d1.offset) == i1[..5] == i2[..5]
        == PackHeader(d2.version, d2.msgType, d2.cipherId, 0, d2.reserved, d2.offset);
    PackFields(d1.version, d1.msgType, d1.cipherId, 0, d1.reserved, d1.offset);
    PackFields(d2.version, d2.msgType, d2.cipherId, 0, d2.reserved, d2.offset);
    BE4Injective(e1, e2);
    BE4Injective(d1.senderId, d2.senderId);
  }

  lemma BE4Injective(x: u32, y: u32)
    requires BE4(x) == BE4(y)
    ensures x == y
  {
    BE4RoundTrip(x);
    BE4RoundTrip(y);
  }

  /** So two record-framed datagrams with the same signed image carry the same records. */
  lemma SignedRecordsInjective(d1: Datagram, e1: u32, d2: Datagram, e2: u32)
    requires d1.InRange() && d2.InRange() && AllWireValid(d1.records) && AllWireValid(d2.records)
    requires d1.AuthHeader(e1) + RecordsBytes(d1.records) == d2.AuthHeader(e2) + RecordsBytes(d2.records)
    ensures d1.records == d2.records
  {
    SignedImageInjective(d1, e1, RecordsBytes(d1.records), d2, e2, RecordsBytes(d2.records));
    ParseIff(RecordsBytes(d1.records), d1.records);
    ParseIff(RecordsBytes(d1.records), d2.records);
  }

  // --------------------------------------------------------------- builders

  function Base(mt: MsgType, cipher: CipherId, senderId: u32, epochId: u32, offset: u32): Datagram {
    Datagram(VERSION, mt.ToU8(), cipher.ToU8(), epochId % 0x10, 0, offset, senderId, [], [])
  }

  /** The builder for the types that carry records, with its refusals in order. */
  function Data(mt: MsgType, cipher: CipherId, senderId: u32, epochId: u32, offset: u32, records: seq<Record>)
    : Result<Datagram>
  {
    if !mt.IsRecordFramed() then Err(Framing(NotRecordFramed))
    else if records == [] then Err(Framing(NoRecords))
    else if mt.IsSingleRecord() && |records| > 1 then Err(Framing(ExactlyOneRecord))
    else if offset >= TICKS_PER_EPOCH then Err(Framing(OffsetTooWide))
    else Ok(Base(mt, cipher, senderId, epochId, offset).(records := records))
  }

  function NumberDatagram(cipher: CipherId, senderId: u32, epochId: u32, offset: u32, scale: byte, mantissa: i16)
    : Result<Datagram>
  {
    if !ScaleIsValid(scale) then Err(BadNumber(ScaleRange))
    else if offset >= TICKS_PER_EPOCH then Err(Framing(OffsetTooWide))
    else Ok(Base(Number, cipher, senderId, epochId, offset).(raw := NumberBytes(scale, mantissa)))
  }

  method SeriesDatagram(cipher: CipherId, senderId: u32, epochId: u32, scale: byte, readings: seq<Reading>)
    returns (r: Result<Datagram>)
    ensures r == SeriesOf(cipher, senderId, epochId, scale, readings)
  {
    SeriesFaultIffNotReadings(scale, readings);
    var raw := BuildSeries(scale, readings);
    if raw.Err? {
      return Err(raw.error);
    }
    r := Ok(Base(Series, cipher, senderId, epochId, readings[0].0).(raw := raw.value));
  }

  function SeriesOf(cipher: CipherId, senderId: u32, epochId: u32, scale: byte, readings: seq<Reading>)
    : Result<Datagram>
  {
    SeriesFaultIffNotReadings(scale, readings);
    match SeriesFault(scale, readings)
    case Some(e) => Err(e)
    case None =>
      Ok(Base(Series, cipher, senderId, epochId, readings[0].0).(raw := SeriesBytes(scale, readings)))
  }

  function ControlDatagram(mt: MsgType, cipher: CipherId, senderId: u32, epochId: u32, offset: u32, body: seq<byte>)
    : Result<Datagram>
  {
    if !IsControl(mt.ToU8()) then Err(Framing(NotControlType))
    else if offset >= TICKS_PER_EPOCH then Err(Framing(OffsetTooWide))
    else Ok(Base(mt, cipher, senderId, epochId, offset).(raw := body))
  }

  // ---------------------------------------------------------------- encoding

  /** The body length of the first record the writer refuses. */
  function FirstUnencodable(rs: seq<Record>): Option<nat> {
    if rs == [] then None
    else if !rs[0].Encodable() then Some(|rs[0].body|)
    else FirstUnencodable(rs[1..])
  }

  lemma {:induction false} UnencodableAt(rs: seq<Record>, i: nat)
    requires i < |rs| && FirstUnencodable(rs[..i]).None?
    ensures if rs[i].Encodable() then FirstUnencodable(rs[..i + 1]).None?
            else FirstUnencodable(rs) == Some(|rs[i].body|)
  {
    if i > 0 {
      assert rs[..i][1..] == rs[1..][..i - 1] && rs[..i + 1][1..] == rs[1..][..i];
      UnencodableAt(rs[1..], i - 1);
    }
  }

  lemma {:induction false} EncodableIff(rs: seq<Record>)
    ensures FirstUnencodable(rs).None? <==> forall r :: r in rs ==> r.Encodable()
  {
    if rs != [] {
      EncodableIff(rs[1..]);
      assert rs == [rs[0]] + rs[1..];
    }
  }

  lemma PayloadLenExact(d: Datagram)
    ensures d.Payload().Err? ==> d.Payload().error.BodyTooLarge?
    ensures d.Payload().Ok? ==> |d.Payload().value| == d.PayloadLen()
  {
    RecordsBytesLen(d.records);
  }

  /**
   * Serialize the payload into `out[lo..hi]`. Given room for the whole payload, no record in the
   * loop finds its slice too short.
   */
  method PayloadInto(d: Datagram, out: array<byte>, lo: nat, hi: nat) returns (n: Result<nat>)
    requires lo <= hi <= out.Length
    modifies out
    ensures hi - lo < d.PayloadLen() ==> n == Err(BufferTooSmall(hi - lo, d.PayloadLen()))
    ensures hi - lo >= d.PayloadLen() ==>
      match d.Payload() case Err(e) => n == Err(e) case Ok(p) => n == Ok(d.PayloadLen())
    ensures n.Ok? ==> |d.Payload().value| == d.PayloadLen() && out[..] == Overwrite(old(out[..]), lo, d.Payload().value)
    ensures n.Err? ==> out[..][hi..] == old(out[..])[hi..]
  {
    PayloadLenExact(d);
    var need := d.PayloadLen();
    if hi - lo < need {
      return Err(BufferTooSmall(hi - lo, need));
    }
    if d.records != [] {
      n := RecordsInto(d.records, out, lo, hi);
    } else {
      CopyInto(out, lo, d.raw);
      n := Ok(need);
    }
  }

  /** The record loop of the payload writer. */
  method RecordsInto(records: seq<Record>, out: array<byte>, lo: nat, hi: nat) returns (n: Result<nat>)
    requires lo <= hi <= out.Length && hi - lo >= TotalLen(records)
    modifies out
    ensures n == match FirstUnencodable(records)
                 case Some(len) => Err(BodyTooLarge(len))
                 case None => Ok(TotalLen(records))
    ensures |RecordsBytes(records)| == TotalLen(records)
    ensures n.Ok? ==> out[..] == Overwrite(old(out[..]), lo, RecordsBytes(records))
    ensures n.Err? ==> out[..][hi..] == old(out[..])[hi..]
  {
    hide Record.Bytes, RecordsBytes, TotalLen, FirstUnencodable, Overwrite;
    var used := 0;
    ghost var was, written := out[..], [];
    NoneWritten(records);
    OverwriteNothing(was, lo);
    for i := 0 to |records|
      invariant written == RecordsBytes(records[..i]) && used == |written|
      invariant used + TotalLen(records[i..]) == TotalLen(records)
      invariant FirstUnencodable(records[..i]).None?
      invariant out[..] == Overwrite(was, lo, written)
    {
      OneMoreRecord(records, i);
      var one := WriteInto(records[i], out, lo + used, hi);
      if one.Err? {
        OverwriteTail(was, lo, written, hi);
        return Err(one.error);
      }
      OverwriteAdjacent(was, lo, written, records[i].Bytes());
      written := written + records[i].Bytes();
      used := used + one.value;
    }
    AllWritten(records);
    n := Ok(used);
  }

  lemma OneMoreRecord(records: seq<Record>, i: nat)
    requires i < |records|
    ensures RecordsBytes(records[..i + 1]) == RecordsBytes(records[..i]) + records[i].Bytes()
    ensures TotalLen(records[i..]) == records[i].WireLen() + TotalLen(records[i + 1..])
    ensures FirstUnencodable(records[..i]).None? ==>
      if records[i].Encodable() then FirstUnencodable(records[..i + 1]).None?
      else FirstUnencodable(records) == Some(|records[i].body|)
  {
    RecordsBytesSnoc(records[..i], records[i]);
    assert records[..i] + [records[i]] == records[..i + 1];
    assert records[i..][1..] == records[i + 1..];
    if FirstUnencodable(records[..i]).None? { UnencodableAt(records, i); }
  }

  lemma AllWritten(records: seq<Record>)
    ensures records[..|records|] == records && TotalLen(records[|records|..]) == 0
  {
  }

  lemma NoneWritten(records: seq<Record>)
    ensures records[0..] == records && FirstUnencodable(records[..0]).None? && RecordsBytes(records[..0]) == []
    ensures TotalLen(records) == |RecordsBytes(records)|
  {
    RecordsBytesLen(records);
  }

  /**
   * Header, payload and tag, in place. A registered suite reports
   * `BufferTooSmall` exactly when the buffer is shorter than the whole encoding; otherwise the
   * outcome is that of the uncapped encoding, which fills a prefix and leaves the rest untouched.
   */
  method EncodeInto(cr: Crypto, d: Datagram, secret: Bytes32, epochId: u32, dir: Direction, out: array<byte>)
    returns (n: Result<nat>)
    modifies out
    ensures CipherId.FromU8(d.cipherId).None? ==> n == Err(CipherUnimplemented(d.cipherId))
    ensures CipherId.FromU8(d.cipherId).Some? ==>
      var need := HEADER_LEN + d.PayloadLen() + CipherId.FromU8(d.cipherId).value.TagLen();
      if out.Length < need then n == Err(BufferTooSmall(out.Length, need))
      else match d.Encoding(cr, secret, epochId, dir)
           case Err(e) => n == Err(e) && !e.BufferTooSmall? && out[..][need..] == old(out[..])[need..]
           case Ok(wire) => |wire| == need && n == Ok(need) && out[..] == Overwrite(old(out[..]), 0, wire)
  {
    hide Datagram.HeaderBytes, Datagram.AuthHeader, Datagram.Payload, Datagram.PayloadLen, EpochKey, Tag, Overwrite;
    PayloadLenExact(d);
    var suite := CipherId.FromU8(d.cipherId);
    if suite.None? {
      return Err(CipherUnimplemented(d.cipherId));
    }
    var cipher := suite.value;
    var tagLen := cipher.TagLen();
    var plen := d.PayloadLen();
    var need := HEADER_LEN + plen + tagLen;
    if out.Length < need {
      return Err(BufferTooSmall(out.Length, need));
    }
    ghost var was := out[..];
    var framed := FrameInto(d, out);
    if framed.Err? {
      assert out[..][need..] == out[..][HEADER_LEN + plen..][tagLen..];
      return Err(framed.error);
    }
    var key := EpochKey(cr, secret, d.senderId, epochId, dir);
    var payload := out[..][HEADER_LEN..HEADER_LEN + plen];
    ghost var frame := d.HeaderBytes() + d.Payload().value;
    OverwriteReads(was, 0, frame);
    assert payload == frame[HEADER_LEN..] == d.Payload().value;
    FlattenTwo(d.AuthHeader(epochId), payload);
    var tagged := MacParts(cr, cipher, key, [d.AuthHeader(epochId), payload], d.offset, out, HEADER_LEN + plen, need);
    if tagged.Err? {
      OverwriteTail(was, 0, frame, need);
      return Err(tagged.error);
    }
    OverwriteAdjacent(was, 0, frame, Tag(cr, cipher, key, d.AuthHeader(epochId) + payload, d.offset));
    n := Ok(need);
  }

  lemma OverwriteTail(s: seq<byte>, at: nat, b: seq<byte>, from: nat)
    requires at + |b| <= from <= |s|
    ensures Overwrite(s, at, b)[from..] == s[from..]
  {
  }

  /** Payload first, then the header in front of it. */
  method FrameInto(d: Datagram, out: array<byte>) returns (n: Result<nat>)
    requires out.Length >= HEADER_LEN + d.PayloadLen()
    modifies out
    ensures match d.Payload() case Err(e) => n == Err(e) && !e.BufferTooSmall? case Ok(p) => n == Ok(d.PayloadLen())
    ensures n.Ok? ==> |d.Payload().value| == d.PayloadLen()
                      && out[..] == Overwrite(old(out[..]), 0, d.HeaderBytes() + d.Payload().value)
    ensures n.Err? ==> out[..][HEADER_LEN + d.PayloadLen()..] == old(out[..])[HEADER_LEN + d.PayloadLen()..]
  {
    hide Datagram.HeaderBytes, Datagram.Payload, Datagram.PayloadLen, Overwrite;
    PayloadLenExact(d);
    n := PayloadInto(d, out, HEADER_LEN, HEADER_LEN + d.PayloadLen());
    if n.Ok? {
      CopyInto(out, 0, d.HeaderBytes());
      OverwriteAdjacent(old(out[..]), 0, d.HeaderBytes(), d.Payload().value);
    }
  }

  lemma FlattenTwo(a: seq<byte>, b: seq<byte>)
    ensures Flatten([a, b]) == a + b
    ensures |a| <= MAX_DATAGRAM_IPV4 < |a + b| ==> OverflowLen([a, b], 0) == |a + b|
  {
    assert [a, b][1..] == [b] && [b][1..] == [];
    assert Flatten([b]) == b + Flatten<byte>([]);
  }

  /** The allocating path: the same bytes, under the deployment's size ceiling. */
  method Encode(cr: Crypto, d: Datagram, secret: Bytes32, epochId: u32, dir: Direction, maxSize: nat)
    returns (r: Result<seq<byte>>)
    ensures r == match d.Encoding(cr, secret, epochId, dir)
                 case Err(e) => Err(e)
                 case Ok(wire) => if |wire| > maxSize then Err(Oversize(|wire|)) else Ok(wire)
  {
    hide Datagram.Payload, Datagram.PayloadLen, Datagram.HeaderBytes, Datagram.AuthHeader, EpochKey, MacOf, Overwrite;
    var suite := CipherId.FromU8(d.cipherId);
    if suite.None? {
      return Err(CipherUnimplemented(d.cipherId));
    }
    var out := new byte[HEADER_LEN + d.PayloadLen() + suite.value.TagLen()](_ => 0);
    ghost var zeros := out[..];
    var n := EncodeInto(cr, d, secret, epochId, dir, out);
    if n.Err? {
      return Err(n.error);
    }
    var wire := out[..n.value];
    OverwriteAll(zeros, d.Encoding(cr, secret, epochId, dir).value);
    assert wire == out[..];
    if |wire| > maxSize {
      return Err(Oversize(|wire|));
    }
    r := Ok(wire);
  }
}
