/** Integer widths, byte order, the registries and the error type of CATP v1. */
module Basics {

  type byte = x: int | 0 <= x < 0x100
  type u16 = x: int | 0 <= x < 0x1_0000
  type u32 = x: int | 0 <= x < 0x1_0000_0000
  type u64 = x: int | 0 <= x < 0x1_0000_0000_0000_0000
  type i16 = x: int | -0x8000 <= x < 0x8000
  type i64 = x: int | -0x8000_0000_0000_0000 <= x < 0x8000_0000_0000_0000

  const U32_MAX: u32 := 0xFFFF_FFFF
  const U64_MAX: u64 := 0xFFFF_FFFF_FFFF_FFFF
  const I64_MIN: i64 := -0x8000_0000_0000_0000
  const I64_MAX: i64 := 0x7FFF_FFFF_FFFF_FFFF

  const VERSION: byte := 1
  const EPOCH_SECS: nat := 128
  const TICKS_PER_SEC: nat := 4096
  const TICKS_PER_EPOCH: u32 := 0x8_0000
  const MAX_BODY: nat := 4095
  const HEADER_LEN: nat := 9
  const RECORD_HEADER_LEN: nat := 3
  const NUMBER_PAYLOAD_LEN: nat := 3
  const SERIES_ENTRY_LEN: nat := 4
  const SCALE_MIN: byte := 0x01
  const SCALE_MAX: byte := 0x07
  const MAX_DATAGRAM_IPV4: nat := 512

  datatype Option<+T> = None | Some(value: T)

  datatype Result<+T> = Ok(value: T) | Err(error: Error)

  // ---------------------------------------------------------------- errors

  /** Why a payload, a builder argument or a control body was refused. */
  datatype Reason =
    | RecordHeaderTruncated | FormatZero | SchemaVersionZero | SizeZero | BodyOverrun
    | PayloadTooShort | TrailingBytes | ExactlyOneRecord | NotRecordFramed | NoRecords | OffsetTooWide
    | NotControlType | WrongLength | ScaleRange | TooFewReadings | PartialEntry | ZeroDelta
    | CrossesEpoch | NotIncreasing | GapTooWide | ListTooLong | ListOverrun

  datatype Error =
    | TooShort
    | UnsupportedVersion(version: byte)
    | BadMsgType(msgType: byte)
    | UnknownSender(senderId: u32)
    | CipherMismatch(got: byte, want: byte)
    | CipherUnimplemented(cipherId: byte)
    | EpochOutOfWindow
    | AuthFailed
    | Replay
    | Framing(why: Reason)
    | BodyTooLarge(len: nat)
    | Oversize(len: nat)
    | OffsetReuse(offset: u32)
    | BadNumber(why: Reason)
    | BadSeries(why: Reason)
    | EpochRollback(target: u32, hi: u32)
    | TimeRollback(asserted: i64, floor: i64)
    | ClockAlreadyValid
    | NoClock
    | RateLimited
    | CipherRequiresRateLimit(cipherId: byte)
    | BufferTooSmall(have: nat, need: nat)

  // ------------------------------------------------------------- registries

  datatype Direction = NodeToCollector | CollectorToNode {
    function ToU8(): byte { if NodeToCollector? then 0x00 else 0x01 }
  }

  datatype CipherId = HmacSha256T64 | SipHash24 | ChaCha20Poly1305 | HmacSha256T32 {
    function ToU8(): byte {
      match this
      case HmacSha256T64 => 0x01
      case SipHash24 => 0x02
      case ChaCha20Poly1305 => 0x03
      case HmacSha256T32 => 0x04
    }

    static function FromU8(v: byte): Option<CipherId> {
      match v
      case 0x01 => Some(HmacSha256T64)
      case 0x02 => Some(SipHash24)
      case 0x03 => Some(ChaCha20Poly1305)
      case 0x04 => Some(HmacSha256T32)
      case _ => None
    }

    function TagLen(): nat {
      match this
      case HmacSha256T64 => 8
      case SipHash24 => 8
      case ChaCha20Poly1305 => 16
      case HmacSha256T32 => 4
    }

    predicate RequiresInboundRateLimit() { HmacSha256T32? }
  }

  datatype MsgType =
    | Message | Event | Alarm | Number | Series
    | EpochAnnounce | TimeAnnounce | TimeRequest | Heartbeat | CapabilityAdvertise
  {
    function ToU8(): byte {
      match this
      case Message => 0x01
      case Event => 0x02
      case Alarm => 0x03
      case Number => 0x04
      case Series => 0x05
      case EpochAnnounce => 0x10
      case TimeAnnounce => 0x11
      case TimeRequest => 0x12
      case Heartbeat => 0x13
      case CapabilityAdvertise => 0x14
    }

    static function FromU8(v: byte): Option<MsgType> {
      match v
      case 0x01 => Some(Message)
      case 0x02 => Some(Event)
      case 0x03 => Some(Alarm)
      case 0x04 => Some(Number)
      case 0x05 => Some(Series)
      case 0x10 => Some(EpochAnnounce)
      case 0x11 => Some(TimeAnnounce)
      case 0x12 => Some(TimeRequest)
      case 0x13 => Some(Heartbeat)
      case 0x14 => Some(CapabilityAdvertise)
      case _ => None
    }

    predicate IsRecordFramed() { Message? || Event? || Alarm? }

    predicate IsSingleRecord() { Event? || Alarm? }

    /** The two types keyed on the epoch-independent time key. */
    predicate IsTimeRecovery() { TimeAnnounce? || TimeRequest? }
  }

  /** `msg_type & 0x10 != 0`. */
  predicate IsControl(msgType: byte) { msgType / 0x10 % 2 == 1 }

  predicate ScaleIsValid(scale: byte) { SCALE_MIN <= scale <= SCALE_MAX }

  // ------------------------------------------------------ big-endian integers

  function BE2(x: u16): (s: seq<byte>)
    ensures |s| == 2
  {
    [x / 0x100, x % 0x100]
  }

  function FromBE2(hi: byte, lo: byte): u16 { hi * 0x100 + lo }

  function BE4(x: u32): (s: seq<byte>)
    ensures |s| == 4
  {
    [x / 0x100 / 0x100 / 0x100, x / 0x100 / 0x100 % 0x100, x / 0x100 % 0x100, x % 0x100]
  }

  function FromBE4(a: byte, b: byte, c: byte, d: byte): u32 {
    ((a * 0x100 + b) * 0x100 + c) * 0x100 + d
  }

  /** Two's complement, big-endian: `i16::to_be_bytes`. */
  function BE2Signed(x: i16): (s: seq<byte>)
    ensures |s| == 2
  {
    BE2(if x < 0 then x + 0x1_0000 else x)
  }

  function FromBE2Signed(hi: byte, lo: byte): i16 {
    var v := FromBE2(hi, lo);
    if v < 0x8000 then v else v - 0x1_0000
  }

  lemma BE4RoundTrip(x: u32)
    ensures var s := BE4(x); FromBE4(s[0], s[1], s[2], s[3]) == x
  {
  }

  lemma FromBE4RoundTrip(a: byte, b: byte, c: byte, d: byte)
    ensures BE4(FromBE4(a, b, c, d)) == [a, b, c, d]
  {
    DivModBytes((a * 0x100 + b) * 0x100 + c, d);
    DivModBytes(a * 0x100 + b, c);
    DivModBytes(a, b);
  }

  lemma DivModBytes(q: nat, r: byte)
    ensures (q * 0x100 + r) / 0x100 == q && (q * 0x100 + r) % 0x100 == r
  {
  }

  function Max(a: nat, b: nat): nat { if a > b then a else b }

  // ---------------------------------------------------------------- sequences

  function Flatten<T>(parts: seq<seq<T>>): seq<T> {
    if parts == [] then [] else parts[0] + Flatten(parts[1..])
  }

  lemma {:induction false} FlattenSnoc<T>(parts: seq<seq<T>>, last: seq<T>)
    ensures Flatten(parts + [last]) == Flatten(parts) + last
  {
    if parts == [] {
      assert Flatten([last]) == last + Flatten<T>([]);
      assert [] + [last] == [last];
    } else {
      assert (parts + [last])[1..] == parts[1..] + [last];
      FlattenSnoc(parts[1..], last);
    }
  }

  /** `s` with `b` written over the elements from `at` on. */
  function Overwrite<T>(s: seq<T>, at: nat, b: seq<T>): (r: seq<T>)
    requires at + |b| <= |s|
    ensures |r| == |s|
  {
    s[..at] + b + s[at + |b|..]
  }

  lemma OverwriteNothing<T>(s: seq<T>, at: nat)
    requires at <= |s|
    ensures Overwrite(s, at, []) == s
  {
  }

  /** Two adjacent writes, in either order, are one write of the concatenation. */
  lemma OverwriteAdjacent<T>(s: seq<T>, at: nat, a: seq<T>, b: seq<T>)
    requires at + |a| + |b| <= |s|
    ensures Overwrite(Overwrite(s, at, a), at + |a|, b) == Overwrite(s, at, a + b)
    ensures Overwrite(Overwrite(s, at + |a|, b), at, a) == Overwrite(s, at, a + b)
  {
  }

  lemma OverwriteReads<T>(s: seq<T>, at: nat, b: seq<T>)
    requires at + |b| <= |s|
    ensures Overwrite(s, at, b)[at..at + |b|] == b
    ensures Overwrite(s, at, b)[at + |b|..] == s[at + |b|..]
  {
  }

  lemma OverwriteAll<T>(s: seq<T>, b: seq<T>)
    requires |b| == |s|
    ensures Overwrite(s, 0, b) == b
  {
  }

  /** `copy_from_slice` into `dst[at..at + src.len()]`. */
  method CopyInto(dst: array<byte>, at: nat, src: seq<byte>)
    requires at + |src| <= dst.Length
    modifies dst
    ensures dst[..] == Overwrite(old(dst[..]), at, src)
  {
    forall k | 0 <= k < |src| {
      dst[at + k] := src[k];
    }
  }
}
