/** The textual provisioning bundle: printer and parser. */
module Provisioning {
  import opened Basics
  import opened Mac

  datatype Bundle = Bundle(senderId: u32, deviceSecret: Bytes32, cipherId: byte, layouts: seq<(byte, byte)>)

  datatype FormatFault =
    | BadSenderId | SecretNotHex | SecretWrongLength | BadCipherId
    | LayoutNeedsFormat | LayoutNeedsVersion | LayoutTooManyFields | LayoutFormatNotHex | LayoutVersionNotHex
    | UnrecognizedField(key: string)
    | MissingSenderId | MissingSecret | MissingCipherId

  datatype Parsed<+T> = Good(value: T) | Bad(why: FormatFault)

  // -------------------------------------------------------------------- hex

  const DIGITS := "0123456789abcdef"

  /** Hex digit values, nothing for every other character. */
  function HexValue(c: char): Option<nat> {
    if '0' <= c <= '9' then Some(c as int - '0' as int)
    else if 'a' <= c <= 'f' then Some(c as int - 'a' as int + 10)
    else if 'A' <= c <= 'F' then Some(c as int - 'A' as int + 10)
    else None
  }

  /** `{:02x}`. */
  function Hex2(b: byte): (s: string)
    ensures |s| == 2
  {
    [DIGITS[b / 0x10], DIGITS[b % 0x10]]
  }

  function HexAll(bytes: seq<byte>): (s: string)
    ensures |s| == 2 * |bytes|
  {
    if bytes == [] then "" else Hex2(bytes[0]) + HexAll(bytes[1..])
  }

  lemma DigitsReadBack(n: nat)
    requires n < 0x10
    ensures HexValue(DIGITS[n]) == Some(n) && !IsWhitespace(DIGITS[n])
  {
  }

  /** `parse_hex_bytes`. A character outside ASCII makes several bytes, none of them a hex digit. */
  function ParseHexBytes(s: string): Option<seq<byte>>
    decreases |s|
  {
    if |s| % 2 != 0 then None
    else if s == [] then Some([])
    else if HexValue(s[0]).None? || HexValue(s[1]).None? || ParseHexBytes(s[2..]).None? then None
    else
      var b: byte := HexValue(s[0]).value * 0x10 + HexValue(s[1]).value;
      Some([b] + ParseHexBytes(s[2..]).value)
  }

  lemma HexAllCons(bytes: seq<byte>)
    ensures if bytes == [] then HexAll(bytes) == ""
            else HexAll(bytes)[..2] == Hex2(bytes[0]) && HexAll(bytes)[2..] == HexAll(bytes[1..])
  {
  }

  lemma {:induction false} HexBytesReadBack(bytes: seq<byte>)
    ensures ParseHexBytes(HexAll(bytes)) == Some(bytes)
  {
    hide HexValue, IsWhitespace, HexAll;
    HexAllCons(bytes);
    if bytes != [] {
      var b := bytes[0];
      HexBytesReadBack(bytes[1..]);
      DigitsReadBack(b / 0x10);
      DigitsReadBack(b % 0x10);
      assert b / 0x10 * 0x10 + b % 0x10 == b && bytes == [b] + bytes[1..];
    }
  }

  function FoldHex(acc: nat, s: string): Option<nat>
    decreases |s|
  {
    if s == [] then Some(acc)
    else if HexValue(s[0]).None? then None
    else FoldHex(acc * 0x10 + HexValue(s[0]).value, s[1..])
  }

  /** `from_str_radix(_, 16)` for an unsigned type: an optional `+`, then digits, no larger than `max`. */
  function FromHex(s: string, max: nat): (v: Option<nat>)
    ensures v.Some? ==> v.value <= max
  {
    if s == "" || s == "+" || s == "-" then None
    else
      var v := FoldHex(0, if s[0] == '+' then s[1..] else s);
      if v.Some? && v.value > max then None else v
  }

  lemma FoldByte(acc: nat, b: byte, rest: string)
    ensures FoldHex(acc, Hex2(b) + rest) == FoldHex(acc * 0x100 + b, rest)
  {
    var s := Hex2(b) + rest;
    DigitsReadBack(b / 0x10);
    DigitsReadBack(b % 0x10);
    assert s[1..][1..] == rest;
    assert (acc * 0x10 + b / 0x10) * 0x10 + b % 0x10 == acc * 0x100 + b;
  }

  function FoldBytes(acc: nat, bytes: seq<byte>): nat
    decreases |bytes|
  {
    if bytes == [] then acc else FoldBytes(acc * 0x100 + bytes[0], bytes[1..])
  }

  /** The digits of some bytes read back as their big-endian value. */
  lemma {:induction false} FoldHexAll(acc: nat, bytes: seq<byte>)
    ensures FoldHex(acc, HexAll(bytes)) == Some(FoldBytes(acc, bytes))
    decreases |bytes|
  {
    if bytes != [] {
      FoldByte(acc, bytes[0], HexAll(bytes[1..]));
      FoldHexAll(acc * 0x100 + bytes[0], bytes[1..]);
    }
  }

  lemma HexReadsBack(bytes: seq<byte>, max: nat)
    requires bytes != [] && FoldBytes(0, bytes) <= max
    ensures FromHex(HexAll(bytes), max) == Some(FoldBytes(0, bytes))
  {
    FoldHexAll(0, bytes);
    DigitsReadBack(bytes[0] / 0x10);
  }

  lemma HexByteReadsBack(b: byte)
    ensures FromHex(Hex2(b), 0xFF) == Some(b)
  {
    assert [b][1..] == [];
    assert FoldBytes(0, [b]) == FoldBytes(b, []) == b;
    HexReadsBack([b], 0xFF);
    assert HexAll([b]) == Hex2(b) + "" == Hex2(b);
  }

  lemma HexWordReadsBack(x: u32)
    ensures FromHex(HexAll(BE4(x)), U32_MAX) == Some(x)
  {
    var s := BE4(x);
    BE4RoundTrip(x);
    FoldFour(s[0], s[1], s[2], s[3]);
    assert s == [s[0], s[1], s[2], s[3]];
    HexReadsBack(s, U32_MAX);
  }

  lemma FoldFour(a: byte, b: byte, c: byte, d: byte)
    ensures FoldBytes(0, [a, b, c, d]) == FromBE4(a, b, c, d)
  {
    assert [a, b, c, d][1..] == [b, c, d] && [b, c, d][1..] == [c, d] && [c, d][1..] == [d] && [d][1..] == [];
    assert FoldBytes(0, [a, b, c, d]) == FoldBytes(a, [b, c, d]) == FoldBytes(a * 0x100 + b, [c, d]);
    assert FoldBytes(a * 0x100 + b, [c, d]) == FoldBytes((a * 0x100 + b) * 0x100 + c, [d]);
    assert FoldBytes((a * 0x100 + b) * 0x100 + c, [d]) == FoldBytes(((a * 0x100 + b) * 0x100 + c) * 0x100 + d, []);
  }

  // ------------------------------------------------------------------- text

  /** The characters with Unicode's White_Space property. */
  predicate IsWhitespace(c: char) {
    || '\t' <= c <= '\r' || c == ' ' || c == '\U{85}' || c == '\U{A0}' || c == '\U{1680}'
    || '\U{2000}' <= c <= '\U{200A}' || c == '\U{2028}' || c == '\U{2029}' || c == '\U{202F}' || c == '\U{205F}'
    || c == '\U{3000}'
  }

  predicate NoSpace(s: string) { forall c :: c in s ==> !IsWhitespace(c) }

  predicate AllSpace(s: string) { forall c :: c in s ==> IsWhitespace(c) }

  function TrimStart(s: string): string {
    if s != [] && IsWhitespace(s[0]) then TrimStart(s[1..]) else s
  }

  function TrimEnd(s: string): string {
    if s != [] && IsWhitespace(s[|s| - 1]) then TrimEnd(s[..|s| - 1]) else s
  }

  function Trim(s: string): string { TrimEnd(TrimStart(s)) }

  /** The index of the first whitespace character, or the length. */
  function FirstSpace(s: string): (i: nat)
    ensures i <= |s| && NoSpace(s[..i]) && (i < |s| ==> IsWhitespace(s[i]))
  {
    if s == [] || IsWhitespace(s[0]) then 0
    else
      var i := 1 + FirstSpace(s[1..]);
      assert s[..i] == [s[0]] + s[1..][..i - 1];
      i
  }

  /** `splitn(2, char::is_whitespace)`. */
  function SplitKey(s: string): (string, string) {
    var i := FirstSpace(s);
    (s[..i], if i < |s| then s[i + 1..] else "")
  }

  /** `split_whitespace`. */
  function Fields(s: string): seq<string>
    decreases |s|
  {
    if s == [] then []
    else if IsWhitespace(s[0]) then Fields(s[1..])
    else [s[..FirstSpace(s)]] + Fields(s[FirstSpace(s)..])
  }

  function FirstNewline(s: string): (i: nat)
    ensures i <= |s| && '\n' !in s[..i] && (i < |s| ==> s[i] == '\n')
  {
    if s == [] || s[0] == '\n' then 0
    else
      var i := 1 + FirstNewline(s[1..]);
      assert s[..i] == [s[0]] + s[1..][..i - 1];
      i
  }

  function StripCr(line: string): string {
    if line != [] && line[|line| - 1] == '\r' then line[..|line| - 1] else line
  }

  /** `str::lines`: a carriage return is dropped only in front of a newline. */
  function Lines(s: string): seq<string>
    decreases |s|
  {
    var i := FirstNewline(s);
    if s == [] then []
    else if i == |s| then [s]
    else [StripCr(s[..i])] + Lines(s[i + 1..])
  }

  // ---------------------------------------------------------------- printing

  const HEADER_COMMENT := "# CATP provisioning bundle v1"
  const SENDER_ID := "sender_id"
  const DEVICE_SECRET := "device_secret"
  const CIPHER_ID := "cipher_id"
  const LAYOUT := "layout"

  /** The pad that aligns a value at column 14. */
  function Pad(key: string): (s: string)
    requires |key| < 14
    ensures |s| == 14 - |key| && forall i :: 0 <= i < |s| ==> s[i] == ' '
  {
    seq(14 - |key|, _ => ' ')
  }

  function FieldLine(key: string, value: string): string
    requires |key| < 14
  {
    key + Pad(key) + value
  }

  function LayoutLine(l: (byte, byte)): string { FieldLine(LAYOUT, Hex2(l.0) + " " + Hex2(l.1)) }

  function LayoutLines(ls: seq<(byte, byte)>): (lines: seq<string>)
    ensures |lines| == |ls| && forall i :: 0 <= i < |ls| ==> lines[i] == LayoutLine(ls[i])
  {
    if ls == [] then [] else [LayoutLine(ls[0])] + LayoutLines(ls[1..])
  }

  /** The printed lines. */
  function BundleLines(b: Bundle): seq<string> {
    [HEADER_COMMENT, FieldLine(SENDER_ID, HexAll(BE4(b.senderId))), FieldLine(DEVICE_SECRET, HexAll(b.deviceSecret)),
     FieldLine(CIPHER_ID, Hex2(b.cipherId))] + LayoutLines(b.layouts)
  }

  function JoinLines(lines: seq<string>): string {
    if lines == [] then "" else lines[0] + "\n" + JoinLines(lines[1..])
  }

  lemma {:induction false} JoinSnoc(lines: seq<string>, line: string)
    ensures JoinLines(lines + [line]) == JoinLines(lines) + line + "\n"
  {
    if lines == [] {
      assert lines + [line] == [line] && [line][1..] == [];
      assert JoinLines([line]) == line + "\n" + JoinLines([]);
    } else {
      assert (lines + [line])[1..] == lines[1..] + [line];
      JoinSnoc(lines[1..], line);
    }
  }

  lemma {:induction false} HexAllSnoc(bytes: seq<byte>, b: byte)
    ensures HexAll(bytes + [b]) == HexAll(bytes) + Hex2(b)
  {
    hide Hex2;
    if bytes == [] {
      HexAllOne(b);
      assert [] + [b] == [b];
    } else {
      assert (bytes + [b])[1..] == bytes[1..] + [b];
      HexAllSnoc(bytes[1..], b);
    }
  }

  lemma HexAllOne(b: byte)
    ensures HexAll([b]) == Hex2(b) && HexAll([]) == ""
  {
    hide Hex2;
    assert HexAll([b]) == Hex2(b) + HexAll([]);
  }

  /** `Bundle::to_text`, pushing onto one string. */
  method ToText(b: Bundle) returns (out: string)
    ensures out == JoinLines(BundleLines(b))
  {
    hide Hex2, Pad, HexAll, JoinLines;
    ghost var printed: seq<string> := [HEADER_COMMENT];
    JoinOne(HEADER_COMMENT);
    out := HEADER_COMMENT + "\n";
    JoinSnoc(printed, FieldLine(SENDER_ID, HexAll(BE4(b.senderId))));
    printed := printed + [FieldLine(SENDER_ID, HexAll(BE4(b.senderId)))];
    out := out + FieldLine(SENDER_ID, HexAll(BE4(b.senderId))) + "\n";
    var secret := SecretText(b.deviceSecret);
    JoinSnoc(printed, FieldLine(DEVICE_SECRET, secret));
    printed := printed + [FieldLine(DEVICE_SECRET, secret)];
    out := out + FieldLine(DEVICE_SECRET, secret) + "\n";
    JoinSnoc(printed, FieldLine(CIPHER_ID, Hex2(b.cipherId)));
    printed := printed + [FieldLine(CIPHER_ID, Hex2(b.cipherId))];
    out := out + FieldLine(CIPHER_ID, Hex2(b.cipherId)) + "\n";
    ghost var fixed := printed;
    for i := 0 to |b.layouts|
      invariant printed == fixed + LayoutLines(b.layouts)[..i] && out == JoinLines(printed)
    {
      JoinSnoc(printed, LayoutLine(b.layouts[i]));
      printed := printed + [LayoutLine(b.layouts[i])];
      out := out + LayoutLine(b.layouts[i]) + "\n";
    }
    assert printed == BundleLines(b);
  }

  /** The secret, two digits a byte. */
  method SecretText(secret: seq<byte>) returns (out: string)
    ensures out == HexAll(secret)
  {
    out := "";
    for i := 0 to |secret|
      invariant out == HexAll(secret[..i])
    {
      HexAllSnoc(secret[..i], secret[i]);
      assert secret[..i] + [secret[i]] == secret[..i + 1];
      out := out + Hex2(secret[i]);
    }
    assert secret[..|secret|] == secret;
  }

  lemma JoinOne(line: string)
    ensures JoinLines([line]) == line + "\n"
  {
    assert [line][1..] == [];
    assert JoinLines([line]) == line + "\n" + JoinLines([]);
  }

  // ----------------------------------------------------------------- parsing

  datatype Partial = Partial(senderId: Option<u32>, deviceSecret: Option<Bytes32>, cipherId: Option<byte>, layouts: seq<(byte, byte)>)

  const NOTHING := Partial(None, None, None, [])

  /** A blank or comment line, once trimmed. */
  predicate Skippable(line: string) { Trim(line) == "" || Trim(line)[0] == '#' }

  function ParseLayout(rest: string): Parsed<(byte, byte)> {
    var fields := Fields(rest);
    if |fields| == 0 then Bad(LayoutNeedsFormat)
    else if |fields| == 1 then Bad(LayoutNeedsVersion)
    else if |fields| > 2 then Bad(LayoutTooManyFields)
    else if FromHex(fields[0], 0xFF).None? then Bad(LayoutFormatNotHex)
    else if FromHex(fields[1], 0xFF).None? then Bad(LayoutVersionNotHex)
    else Good((FromHex(fields[0], 0xFF).value, FromHex(fields[1], 0xFF).value))
  }

  function ParseLine(p: Partial, line: string): Parsed<Partial> {
    if Skippable(line) then Good(p)
    else
      var (key, tail) := SplitKey(Trim(line));
      ParseField(p, key, Trim(tail))
  }

  /** A later line of the same field replaces an earlier one; layouts accumulate. */
  function ParseField(p: Partial, key: string, rest: string): Parsed<Partial> {
    if key == SENDER_ID then
      match FromHex(rest, U32_MAX) case None => Bad(BadSenderId) case Some(v) => Good(p.(senderId := Some(v)))
    else if key == DEVICE_SECRET then
      match ParseHexBytes(rest)
      case None => Bad(SecretNotHex)
      case Some(bytes) => if |bytes| != 32 then Bad(SecretWrongLength) else Good(p.(deviceSecret := Some(bytes)))
    else if key == CIPHER_ID then
      match FromHex(rest, 0xFF) case None => Bad(BadCipherId) case Some(v) => Good(p.(cipherId := Some(v)))
    else if key == LAYOUT then
      match ParseLayout(rest) case Bad(why) => Bad(why) case Good(l) => Good(p.(layouts := p.layouts + [l]))
    else Bad(UnrecognizedField(key))
  }

  function ParseLines(p: Partial, lines: seq<string>): Parsed<Partial>
    decreases |lines|
  {
    if lines == [] then Good(p)
    else match ParseLine(p, lines[0]) case Bad(why) => Bad(why) case Good(p') => ParseLines(p', lines[1..])
  }

  function Complete(p: Partial): Parsed<Bundle> {
    if p.senderId.None? then Bad(MissingSenderId)
    else if p.deviceSecret.None? then Bad(MissingSecret)
    else if p.cipherId.None? then Bad(MissingCipherId)
    else Good(Bundle(p.senderId.value, p.deviceSecret.value, p.cipherId.value, p.layouts))
  }

  function ParseBundle(s: string): Parsed<Bundle> {
    match ParseLines(NOTHING, Lines(s)) case Bad(why) => Bad(why) case Good(p) => Complete(p)
  }

  /** `Bundle::parse`, line by line over updated locals. */
  method Parse(s: string) returns (r: Parsed<Bundle>)
    ensures r == ParseBundle(s)
  {
    hide Lines, Skippable, ParseField, SplitKey;
    var p := NOTHING;
    var lines := Lines(s);
    assert lines[0..] == lines;
    for i := 0 to |lines|
      invariant ParseLines(NOTHING, lines) == ParseLines(p, lines[i..])
    {
      assert lines[i..][1..] == lines[i + 1..];
      if Skippable(lines[i]) {
        continue;
      }
      var (key, tail) := SplitKey(Trim(lines[i]));
      var next := ParseField(p, key, Trim(tail));
      if next.Bad? {
        return Bad(next.why);
      }
      p := next.value;
    }
    r := Complete(p);
  }
}
