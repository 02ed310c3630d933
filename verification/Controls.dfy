/** Control payloads (PROTOCOL.md 6.7, 9.4, 11.3). */
module Controls {
  import opened Basics

  type Layout = (byte, byte)

  datatype Capability = Capability(maxVersion: byte, ciphers: seq<byte>, layouts: seq<Layout>) {
    /** Both lists fit their one-byte counts. */
    predicate Encodable() { |ciphers| <= 255 && |layouts| <= 255 }

    function Bytes(): seq<byte>
      requires Encodable()
    {
      [maxVersion, |ciphers|] + ciphers + [|layouts|] + PairBytes(layouts)
    }
  }

  function PairBytes(pairs: seq<Layout>): (s: seq<byte>)
    ensures |s| == 2 * |pairs|
  {
    if pairs == [] then [] else [pairs[0].0, pairs[0].1] + PairBytes(pairs[1..])
  }

  function ParsePairs(p: seq<byte>): (pairs: seq<Layout>)
    requires |p| % 2 == 0
    ensures |pairs| == |p| / 2
    decreases |p|
  {
    if p == [] then [] else [(p[0], p[1])] + ParsePairs(p[2..])
  }

  lemma {:induction false} PairsParseBack(pairs: seq<Layout>)
    ensures ParsePairs(PairBytes(pairs)) == pairs
  {
    if pairs != [] {
      PairsParseBack(pairs[1..]);
      assert PairBytes(pairs)[2..] == PairBytes(pairs[1..]);
    }
  }

  lemma {:induction false} PairsRebuild(p: seq<byte>)
    requires |p| % 2 == 0
    ensures PairBytes(ParsePairs(p)) == p
    decreases |p|
  {
    if p != [] {
      PairsRebuild(p[2..]);
      assert p == [p[0], p[1]] + p[2..];
    }
  }

  lemma {:induction false} PairBytesSnoc(pairs: seq<Layout>, x: Layout)
    ensures PairBytes(pairs + [x]) == PairBytes(pairs) + [x.0, x.1]
  {
    if pairs != [] {
      PairBytesSnoc(pairs[1..], x);
      assert (pairs + [x])[1..] == pairs[1..] + [x];
    }
  }

  method EncodeCapability(c: Capability) returns (r: Result<seq<byte>>)
    ensures r == if c.Encodable() then Ok(c.Bytes()) else Err(Framing(ListTooLong))
  {
    if |c.ciphers| > 255 || |c.layouts| > 255 {
      return Err(Framing(ListTooLong));
    }
    var v := [c.maxVersion];
    v := v + [|c.ciphers|];
    v := v + c.ciphers;
    v := v + [|c.layouts|];
    ghost var head := v;
    for i := 0 to |c.layouts|
      invariant v == head + PairBytes(c.layouts[..i])
    {
      PairBytesSnoc(c.layouts[..i], c.layouts[i]);
      assert c.layouts[..i] + [c.layouts[i]] == c.layouts[..i + 1];
      v := v + [c.layouts[i].0];
      v := v + [c.layouts[i].1];
    }
    assert c.layouts[..|c.layouts|] == c.layouts;
    assert head == [c.maxVersion, |c.ciphers|] + c.ciphers + [|c.layouts|];
    r := Ok(v);
  }

  function ParseCapability(p: seq<byte>): Result<Capability> {
    if |p| < 3 then Err(Framing(PayloadTooShort))
    else
      var nc: nat := p[1];
      if |p| < 2 + nc + 1 then Err(Framing(ListOverrun))
      else
        var nl: nat := p[2 + nc];
        if |p| != 3 + nc + nl * 2 then Err(Framing(WrongLength))
        else Ok(Capability(p[0], p[2..2 + nc], ParsePairs(p[3 + nc..])))
  }

  /** The length equation: `3 + cipher_count + 2 * layout_count`, with both counts inside the payload. */
  predicate LengthHolds(p: seq<byte>) {
    && |p| >= 3
    && var nc: nat := p[1];
    && 2 + nc < |p|
    && var nl: nat := p[2 + nc];
    && |p| == 3 + nc + nl * 2
  }

  /** Parsing accepts exactly the payloads that meet the length equation. */
  lemma CapabilityParsesIffLength(p: seq<byte>)
    ensures ParseCapability(p).Ok? <==> LengthHolds(p)
    ensures ParseCapability(p).Err? ==> ParseCapability(p) == Err(Framing(
      if |p| < 3 then PayloadTooShort else if 2 + p[1] as int >= |p| then ListOverrun else WrongLength))
  {
  }

  /** Parse and encode are mutual inverses. */
  lemma CapabilityBijection(p: seq<byte>, c: Capability)
    ensures ParseCapability(p) == Ok(c) <==> c.Encodable() && p == c.Bytes()
  {
    if c.Encodable() && p == c.Bytes() { CapabilityParsesBack(c); }
    if ParseCapability(p) == Ok(c) { CapabilityRebuilds(p); }
  }

  lemma CapabilityParsesBack(c: Capability)
    requires c.Encodable()
    ensures ParseCapability(c.Bytes()) == Ok(c)
  {
    hide PairBytes, ParsePairs;
    var p := c.Bytes();
    var nc := |c.ciphers|;
    assert p[1] == nc && p[2 + nc] == |c.layouts|;
    assert p[2..2 + nc] == c.ciphers;
    assert p[3 + nc..] == PairBytes(c.layouts);
    PairsParseBack(c.layouts);
  }

  lemma CapabilityRebuilds(p: seq<byte>)
    requires ParseCapability(p).Ok?
    ensures var c := ParseCapability(p).value; c.Encodable() && p == c.Bytes()
  {
    hide PairBytes, ParsePairs;
    var nc: nat := p[1];
    PairsRebuild(p[3 + nc..]);
    assert p == [p[0], p[1]] + p[2..2 + nc] + [p[2 + nc]] + p[3 + nc..];
  }

  // ---------------------------------------------------------- control messages

  /** `i64::to_be_bytes`, two's complement in two 32-bit halves. */
  function BE8Signed(x: i64): (s: seq<byte>)
    ensures |s| == 8
  {
    var hi: int := x / 0x1_0000_0000;
    BE4(if hi < 0 then hi + 0x1_0000_0000 else hi) + BE4(x % 0x1_0000_0000)
  }

  function FromBE8Signed(p: seq<byte>): i64
    requires |p| == 8
  {
    var hi: int := FromBE4(p[0], p[1], p[2], p[3]);
    var top := if hi < 0x8000_0000 then hi else hi - 0x1_0000_0000;
    top * 0x1_0000_0000 + FromBE4(p[4], p[5], p[6], p[7])
  }

  lemma BE8ParsesBack(x: i64)
    ensures FromBE8Signed(BE8Signed(x)) == x
  {
    hide BE4, FromBE4;
    var hi: int := x / 0x1_0000_0000;
    BE4RoundTrip(if hi < 0 then hi + 0x1_0000_0000 else hi);
    BE4RoundTrip(x % 0x1_0000_0000);
  }

  lemma BE8Rebuilds(p: seq<byte>)
    requires |p| == 8
    ensures BE8Signed(FromBE8Signed(p)) == p
  {
    hide BE4, FromBE4;
    FromBE4RoundTrip(p[0], p[1], p[2], p[3]);
    FromBE4RoundTrip(p[4], p[5], p[6], p[7]);
    assert p == p[..4] + p[4..];
  }

  datatype Control =
    | EpochAnnouncement(targetEpoch: u32)
    | TimeAnnouncement(assertedTime: i64)
    | Beat
    | Capabilities(capability: Capability)
  {
    function MessageType(): MsgType {
      match this
      case EpochAnnouncement(_) => EpochAnnounce
      case TimeAnnouncement(_) => TimeAnnounce
      case Beat => Heartbeat
      case Capabilities(_) => CapabilityAdvertise
    }

    function Encode(): Result<seq<byte>> {
      match this
      case EpochAnnouncement(target) => Ok(BE4(target))
      case TimeAnnouncement(asserted) => Ok(BE8Signed(asserted))
      case Beat => Ok([])
      case Capabilities(c) => if c.Encodable() then Ok(c.Bytes()) else Err(Framing(ListTooLong))
    }
  }

  function ParseControl(mt: MsgType, p: seq<byte>): Result<Control> {
    match mt
    case EpochAnnounce =>
      if |p| != 4 then Err(Framing(WrongLength)) else Ok(EpochAnnouncement(FromBE4(p[0], p[1], p[2], p[3])))
    case TimeAnnounce =>
      if |p| != 8 then Err(Framing(WrongLength)) else Ok(TimeAnnouncement(FromBE8Signed(p)))
    case Heartbeat =>
      if p != [] then Err(Framing(WrongLength)) else Ok(Beat)
    case CapabilityAdvertise =>
      (match ParseCapability(p) case Err(e) => Err(e) case Ok(c) => Ok(Capabilities(c)))
    case _ => Err(Framing(NotControlType))
  }

  /** A payload parses as a control message of a type exactly when it is that message's encoding. */
  lemma ControlBijection(mt: MsgType, p: seq<byte>, c: Control)
    ensures ParseControl(mt, p) == Ok(c) <==> mt == c.MessageType() && c.Encode() == Ok(p)
  {
    hide BE4, FromBE4, BE8Signed, FromBE8Signed, ParseCapability, Capability.Bytes;
    match c {
      case EpochAnnouncement(target) =>
        BE4RoundTrip(target);
        if |p| == 4 {
          FromBE4RoundTrip(p[0], p[1], p[2], p[3]);
          assert p == [p[0], p[1], p[2], p[3]];
        }
      case TimeAnnouncement(asserted) =>
        BE8ParsesBack(asserted);
        if |p| == 8 { BE8Rebuilds(p); }
      case Beat =>
      case Capabilities(capability) =>
        CapabilityBijection(p, capability);
    }
  }

  /** A payload that is no message of its type has the wrong length, or a type that carries none. */
  lemma ControlRefusals(mt: MsgType, p: seq<byte>)
    requires ParseControl(mt, p).Err? && mt != CapabilityAdvertise
    ensures ParseControl(mt, p) == Err(Framing(if mt in {EpochAnnounce, TimeAnnounce, Heartbeat} then WrongLength else NotControlType))
  {
  }
}
