/** Which texts are bundles, and of what: the parser against a description of the text alone. */
module BundleLanguage {
  import opened Basics
  import opened Mac
  import opened Provisioning
  import opened BundleRoundTrip

  // -------------------------------------------------------------------- hex

  /** Sixteen digits in two cases, and nothing else. */
  lemma HexDigits()
    ensures forall n: nat :: n < 16 ==>
      HexValue("0123456789abcdef"[n]) == Some(n) && HexValue("0123456789ABCDEF"[n]) == Some(n)
    ensures forall c: char :: HexValue(c).Some? ==> c in "0123456789abcdef" || c in "0123456789ABCDEF"
  {
    forall c: char | HexValue(c).Some? ensures c in "0123456789abcdef" || c in "0123456789ABCDEF" {
      var n := HexValue(c).value;
      assert c == "0123456789abcdef"[n] || c == "0123456789ABCDEF"[n];
    }
  }

  /** Printed in lower case, the high digit first. */
  lemma HexPrinted(b: byte)
    ensures Hex2(b) == ["0123456789abcdef"[b / 16], "0123456789abcdef"[b % 16]]
  {
  }

  /** The characters that count as blank. */
  lemma BlankCharacters(c: char)
    ensures IsWhitespace(c)
       <==> c in "\t\n\U{b}\U{c}\r \U{85}\U{a0}\U{1680}\U{2000}\U{2001}\U{2002}\U{2003}\U{2004}\U{2005}\U{2006}\U{2007}\U{2008}\U{2009}\U{200a}\U{2028}\U{2029}\U{202f}\U{205f}\U{3000}"
  {
    if IsWhitespace(c) && '\t' <= c <= '\r' { assert c in "\t\n\U{b}\U{c}\r"; }
    if IsWhitespace(c) && '\U{2000}' <= c <= '\U{200A}' {
      assert c in "\U{2000}\U{2001}\U{2002}\U{2003}\U{2004}\U{2005}\U{2006}\U{2007}\U{2008}\U{2009}\U{200a}";
    }
  }

  predicate AllHex(s: string) { forall i :: 0 <= i < |s| ==> HexValue(s[i]).Some? }

  /** The positional value of hex digits, the last one being the units. */
  function ValueOf(s: string): nat
    requires AllHex(s)
  {
    if s == "" then 0 else ValueOf(s[..|s| - 1]) * 16 + HexValue(s[|s| - 1]).value
  }

  lemma {:induction false} FoldSnoc(acc: nat, s: string, c: char)
    ensures FoldHex(acc, s + [c])
         == if FoldHex(acc, s).None? || HexValue(c).None? then None
            else Some(FoldHex(acc, s).value * 16 + HexValue(c).value)
    decreases |s|
  {
    hide HexValue;
    if s == "" {
      assert s + [c] == [c] && [c][1..] == "";
    } else if HexValue(s[0]).Some? {
      FoldSnoc(acc * 16 + HexValue(s[0]).value, s[1..], c);
      assert (s + [c])[1..] == s[1..] + [c];
    }
  }

  lemma {:induction false} FoldIsValue(s: string)
    ensures FoldHex(0, s) == if AllHex(s) then Some(ValueOf(s)) else None
  {
    hide HexValue;
    if s != "" {
      var init, c := s[..|s| - 1], s[|s| - 1];
      assert s == init + [c];
      FoldIsValue(init);
      FoldSnoc(0, init, c);
      assert AllHex(s) <==> AllHex(init) && HexValue(c).Some?;
    }
  }

  /** A number is an optional plus sign and at least one hex digit, no larger than the field allows. */
  lemma HexNumber(s: string, max: nat, v: nat)
    ensures FromHex(s, max) == Some(v)
       <==> var digits := if s != "" && s[0] == '+' then s[1..] else s;
            digits != "" && AllHex(digits) && ValueOf(digits) == v <= max
  {
    hide HexValue, FoldHex;
    var digits := if s != "" && s[0] == '+' then s[1..] else s;
    FoldIsValue(digits);
    if s == "-" { MinusIsNoDigit(); }
  }

  lemma MinusIsNoDigit()
    ensures HexValue('-').None?
  {
  }

  /** Bytes are pairs of digits, the high one first. */
  lemma {:induction false} HexBytes(s: string, bytes: seq<byte>)
    ensures ParseHexBytes(s) == Some(bytes)
       <==> |s| == 2 * |bytes|
            && forall i :: 0 <= i < |bytes| ==> HexPair(s, 2 * i, bytes[i])
    decreases |s|
  {
    hide HexValue;
    if |s| >= 2 && bytes != [] {
      HexBytes(s[2..], bytes[1..]);
      assert bytes == [bytes[0]] + bytes[1..];
      PairReads(s, bytes[0]);
      if |s| == 2 * |bytes| {
        forall i | 1 <= i < |bytes| ensures HexPair(s, 2 * i, bytes[i]) <==> HexPair(s[2..], 2 * (i - 1), bytes[1..][i - 1]) {}
      }
    }
  }

  predicate HexPair(s: string, at: nat, b: byte)
    requires at + 1 < |s|
  {
    HexValue(s[at]) == Some(b / 16) && HexValue(s[at + 1]) == Some(b % 16)
  }

  lemma PairReads(s: string, b: byte)
    requires |s| >= 2
    ensures HexPair(s, 0, b)
       <==> HexValue(s[0]).Some? && HexValue(s[1]).Some? && HexValue(s[0]).value * 16 + HexValue(s[1]).value == b
  {
  }

  // ------------------------------------------------------------------- lines

  /** What trimming leaves is the text between the outermost non-blank characters. */
  lemma {:induction false} TrimMeans(s: string) returns (before: string, after: string)
    ensures s == before + Trim(s) + after && AllSpace(before) && AllSpace(after)
    ensures Trim(s) == "" || Tight(Trim(s))
  {
    hide IsWhitespace;
    before := StartDropped(s);
    after := EndDropped(TrimStart(s));
    assert s == before + (Trim(s) + after);
    if Trim(s) != "" { assert TrimStart(s)[0] == Trim(s)[0]; }
  }

  lemma {:induction false} StartDropped(s: string) returns (before: string)
    ensures s == before + TrimStart(s) && AllSpace(before)
    ensures TrimStart(s) != "" ==> !IsWhitespace(TrimStart(s)[0])
  {
    hide IsWhitespace;
    if s != "" && IsWhitespace(s[0]) {
      before := StartDropped(s[1..]);
      before := [s[0]] + before;
    } else {
      before := "";
    }
  }

  lemma {:induction false} EndDropped(s: string) returns (after: string)
    ensures s == TrimEnd(s) + after && AllSpace(after)
    ensures TrimEnd(s) != "" ==> !IsWhitespace(TrimEnd(s)[|TrimEnd(s)| - 1])
  {
    hide IsWhitespace;
    if s != "" && IsWhitespace(s[|s| - 1]) {
      after := EndDropped(s[..|s| - 1]);
      after := after + [s[|s| - 1]];
    } else {
      after := "";
    }
  }

  /** The key is what comes before the first blank of a line, and the value what comes after it. */
  lemma SplitMeans(s: string)
    ensures var (key, tail) := SplitKey(s);
      NoSpace(key) && ((s == key && tail == "") || exists c :: IsWhitespace(c) && s == key + [c] + tail)
  {
    hide IsWhitespace;
    var i := FirstSpace(s);
    if i < |s| {
      assert s == s[..i] + [s[i]] + s[i + 1..];
    } else {
      assert s[..i] == s;
    }
  }

  lemma WordFirst(word: string, rest: string)
    requires word != "" && NoSpace(word) && (rest == "" || IsWhitespace(rest[0]))
    ensures Fields(word + rest) == [word] + Fields(rest)
  {
    hide IsWhitespace;
    var s := word + rest;
    FirstSpaceAfter(word, rest);
    assert word[0] in word && s[..|word|] == word && s[|word|..] == rest;
  }

  /** Fields are the runs between blanks: a blank separates, and a run without one is a field. */
  lemma {:induction false} FieldsMean(a: string, blank: char, b: string)
    requires IsWhitespace(blank)
    ensures Fields("") == [] && (a != "" && NoSpace(a) ==> Fields(a) == [a])
    ensures Fields(a + [blank] + b) == Fields(a) + Fields(b)
    decreases |a|
  {
    hide IsWhitespace, Fields, FirstSpace;
    BlanksDropped([blank] + b);
    var i := FirstSpace(a);
    if a == "" {
      assert a + [blank] + b == [blank] + b && ([blank] + b)[1..] == b && Fields("") + Fields(b) == Fields(b);
    } else if i == 0 {
      assert a[0] in a;
      BlanksDropped(a);
      BlanksDropped(a + [blank] + b);
      assert (a + [blank] + b)[1..] == a[1..] + [blank] + b;
      FieldsMean(a[1..], blank, b);
    } else {
      var word, rest := a[..i], a[i..];
      WordFirst(word, rest);
      WordFirst(word, rest + [blank] + b);
      FieldsMean(rest, blank, b);
      assert a == word + rest && a + [blank] + b == word + (rest + [blank] + b);
      if i < |a| { assert a[i] in a; } else { assert word == a && rest == ""; }
      assert [word] + (Fields(rest) + Fields(b)) == [word] + Fields(rest) + Fields(b);
    }
  }

  lemma BlanksDropped(s: string)
    ensures Fields("") == []
    ensures s != "" && IsWhitespace(s[0]) ==> Fields(s) == Fields(s[1..])
  {
    hide IsWhitespace;
  }

  /** Key and value of a line that is neither blank nor a comment. */
  function FieldOf(line: string): Option<(string, string)> {
    var text := Trim(line);
    if text == "" || text[0] == '#' then None
    else Some((SplitKey(text).0, Trim(SplitKey(text).1)))
  }

  function WordOf(value: string): Option<u32> { FromHex(value, 4294967295) }

  function ByteOf(value: string): Option<byte> { FromHex(value, 255) }

  function SecretOf(value: string): Option<Bytes32> {
    var bytes := ParseHexBytes(value);
    if bytes.Some? && |bytes.value| == 32 then Some(bytes.value) else None
  }

  /** Two fields, each a byte. */
  function LayoutOf(value: string): Option<(byte, byte)> {
    var fields := Fields(value);
    if |fields| == 2 && ByteOf(fields[0]).Some? && ByteOf(fields[1]).Some?
    then Some((ByteOf(fields[0]).value, ByteOf(fields[1]).value)) else None
  }

  predicate ReadableField(key: string, value: string) {
    || (key == "sender_id" && WordOf(value).Some?)
    || (key == "device_secret" && SecretOf(value).Some?)
    || (key == "cipher_id" && ByteOf(value).Some?)
    || (key == "layout" && LayoutOf(value).Some?)
  }

  predicate ReadableLine(line: string) {
    FieldOf(line).Some? ==> ReadableField(FieldOf(line).value.0, FieldOf(line).value.1)
  }

  predicate AllReadable(lines: seq<string>) { forall i :: 0 <= i < |lines| ==> ReadableLine(lines[i]) }

  /** The value of the line, if this is its key. */
  function ValueFor(line: string, key: string): Option<string> {
    if FieldOf(line).Some? && FieldOf(line).value.0 == key then Some(FieldOf(line).value.1) else None
  }

  /** The value of the last line with this key. */
  function LastValue(lines: seq<string>, key: string): Option<string> {
    if lines == [] then None
    else if LastValue(lines[1..], key).Some? then LastValue(lines[1..], key)
    else ValueFor(lines[0], key)
  }

  /** The layouts, in the order of their lines. */
  function LayoutsIn(lines: seq<string>): seq<(byte, byte)> {
    if lines == [] then [] else LayoutIn(lines[0]) + LayoutsIn(lines[1..])
  }

  function LayoutIn(line: string): seq<(byte, byte)> {
    var value := ValueFor(line, "layout");
    if value.Some? && LayoutOf(value.value).Some? then [LayoutOf(value.value).value] else []
  }

  /** The fault of an unreadable line. */
  function FaultOf(key: string, value: string): FormatFault {
    if key == "sender_id" then BadSenderId
    else if key == "device_secret" then (if ParseHexBytes(value).None? then SecretNotHex else SecretWrongLength)
    else if key == "cipher_id" then BadCipherId
    else if key != "layout" then UnrecognizedField(key)
    else if |Fields(value)| == 0 then LayoutNeedsFormat
    else if |Fields(value)| == 1 then LayoutNeedsVersion
    else if |Fields(value)| > 2 then LayoutTooManyFields
    else if FromHex(Fields(value)[0], 255).None? then LayoutFormatNotHex
    else LayoutVersionNotHex
  }

  /** One line against the state it is read into: a scalar field is replaced, a layout is added. */
  lemma LineMeans(p: Partial, line: string)
    ensures ParseLine(p, line)
         == if ReadableLine(line) then Good(Entered(p, [line]))
            else Bad(FaultOf(FieldOf(line).value.0, FieldOf(line).value.1))
  {
    hide FromHex, ParseHexBytes, Fields, Trim, SplitKey, LastValue, LayoutsIn;
    LastOf([line], "sender_id");
    LastOf([line], "device_secret");
    LastOf([line], "cipher_id");
    LayoutsCons([line]);
    assert p.layouts + [] == p.layouts;
  }

  /** The state some lines leave: each scalar field as its last line gives it, every layout added. */
  function Entered(p: Partial, lines: seq<string>): Partial {
    var (sender, secret, cipher) := (LastValue(lines, "sender_id"), LastValue(lines, "device_secret"), LastValue(lines, "cipher_id"));
    Partial(if sender.Some? then WordOf(sender.value) else p.senderId,
            if secret.Some? then SecretOf(secret.value) else p.deviceSecret,
            if cipher.Some? then ByteOf(cipher.value) else p.cipherId,
            p.layouts + LayoutsIn(lines))
  }

  lemma EnteredOneByOne(p: Partial, lines: seq<string>)
    requires lines != []
    ensures Entered(Entered(p, [lines[0]]), lines[1..]) == Entered(p, lines)
  {
    hide ValueFor, WordOf, SecretOf, ByteOf, LayoutIn, LastValue, LayoutsIn;
    LastOf(lines, "sender_id");
    LastOf(lines, "device_secret");
    LastOf(lines, "cipher_id");
    LayoutsCons(lines);
    assert p.layouts + (LayoutIn(lines[0]) + LayoutsIn(lines[1..])) == p.layouts + LayoutIn(lines[0]) + LayoutsIn(lines[1..]);
  }

  lemma LastOf(lines: seq<string>, key: string)
    requires lines != []
    ensures LastValue([lines[0]], key) == ValueFor(lines[0], key)
    ensures LastValue(lines, key) == if LastValue(lines[1..], key).Some? then LastValue(lines[1..], key) else ValueFor(lines[0], key)
  {
    hide ValueFor;
    assert [lines[0]][1..] == [];
  }

  lemma LayoutsCons(lines: seq<string>)
    requires lines != []
    ensures LayoutsIn([lines[0]]) == LayoutIn(lines[0]) && LayoutsIn(lines) == LayoutIn(lines[0]) + LayoutsIn(lines[1..])
  {
    hide LayoutIn;
    assert [lines[0]][1..] == [];
    assert LayoutsIn([lines[0]]) == LayoutIn(lines[0]) + LayoutsIn([]);
  }

  /** The state after some readable lines: each field as its last line gives it, every layout added. */
  lemma {:induction false} LinesMean(p: Partial, lines: seq<string>)
    ensures ParseLines(p, lines).Good? <==> AllReadable(lines)
    ensures AllReadable(lines) ==> ParseLines(p, lines).value == Entered(p, lines)
    decreases |lines|
  {
    hide ParseLine, ReadableLine, Entered;
    if lines == [] {
      NoneEntered(p);
    } else {
      LineMeans(p, lines[0]);
      EnteredOneByOne(p, lines);
      if ReadableLine(lines[0]) { LinesMean(Entered(p, [lines[0]]), lines[1..]); }
    }
  }

  lemma NoneEntered(p: Partial)
    ensures Entered(p, []) == p
  {
    assert p.layouts + [] == p.layouts;
  }

  lemma {:induction false} LastIsReadable(lines: seq<string>, key: string)
    requires AllReadable(lines) && LastValue(lines, key).Some?
    ensures ReadableField(key, LastValue(lines, key).value)
  {
    hide FieldOf, ReadableField;
    if LastValue(lines[1..], key).Some? { LastIsReadable(lines[1..], key); } else { assert ReadableLine(lines[0]); }
  }

  /**
   * A text is the bundle `b` if and only if each of its lines is blank, a comment or a readable
   * field, the three scalar fields all occur, and `b` holds what the last line of each says, with
   * the layouts in the order of their lines.
   */
  lemma BundleMeans(s: string, b: Bundle)
    ensures ParseBundle(s) == Good(b)
       <==> && AllReadable(Lines(s))
            && var (sender, secret, cipher) :=
                 (LastValue(Lines(s), "sender_id"), LastValue(Lines(s), "device_secret"), LastValue(Lines(s), "cipher_id"));
            && sender.Some? && WordOf(sender.value) == Some(b.senderId)
            && secret.Some? && SecretOf(secret.value) == Some(b.deviceSecret)
            && cipher.Some? && ByteOf(cipher.value) == Some(b.cipherId)
            && b.layouts == LayoutsIn(Lines(s))
  {
    hide Lines, AllReadable, ParseLines, LayoutsIn, LastValue, WordOf, SecretOf, ByteOf;
    LinesMean(NOTHING, Lines(s));
    if AllReadable(Lines(s)) {
      assert [] + LayoutsIn(Lines(s)) == LayoutsIn(Lines(s));
      ReadableScalars(Lines(s));
    }
  }

  lemma ReadableScalars(lines: seq<string>)
    requires AllReadable(lines)
    ensures LastValue(lines, "sender_id").Some? ==> WordOf(LastValue(lines, "sender_id").value).Some?
    ensures LastValue(lines, "device_secret").Some? ==> SecretOf(LastValue(lines, "device_secret").value).Some?
    ensures LastValue(lines, "cipher_id").Some? ==> ByteOf(LastValue(lines, "cipher_id").value).Some?
  {
    hide AllReadable, LastValue, WordOf, SecretOf, ByteOf;
    if LastValue(lines, "sender_id").Some? { LastIsReadable(lines, "sender_id"); }
    if LastValue(lines, "device_secret").Some? { LastIsReadable(lines, "device_secret"); }
    if LastValue(lines, "cipher_id").Some? { LastIsReadable(lines, "cipher_id"); }
  }

  /** The first unreadable line decides the fault, whatever follows it. */
  lemma FirstFaultReported(s: string, i: nat)
    requires i < |Lines(s)| && AllReadable(Lines(s)[..i]) && !ReadableLine(Lines(s)[i])
    ensures var (key, value) := FieldOf(Lines(s)[i]).value; ParseBundle(s) == Bad(FaultOf(key, value))
  {
    hide Lines, ReadableLine, FaultOf, ParseLine;
    FaultAfter(NOTHING, Lines(s), i);
  }

  lemma {:induction false} FaultAfter(p: Partial, lines: seq<string>, i: nat)
    requires i < |lines| && AllReadable(lines[..i]) && !ReadableLine(lines[i])
    ensures FieldOf(lines[i]).Some?
    ensures var (key, value) := FieldOf(lines[i]).value; ParseLines(p, lines) == Bad(FaultOf(key, value))
    decreases |lines|
  {
    hide FieldOf, FaultOf, ParseLine, ReadableField;
    LineMeans(p, lines[0]);
    if i > 0 {
      assert lines[..i][0] == lines[0] && lines[1..][..i - 1] == lines[..i][1..];
      assert ReadableLine(lines[0]);
      FaultAfter(ParseLine(p, lines[0]).value, lines[1..], i - 1);
    }
  }

  /** When every line is readable, the first field missing decides, in the order sender, secret, suite. */
  lemma MissingFieldReported(s: string)
    requires AllReadable(Lines(s))
    ensures ParseBundle(s).Bad? ==> ParseBundle(s) == Bad(
      if LastValue(Lines(s), "sender_id").None? then MissingSenderId
      else if LastValue(Lines(s), "device_secret").None? then MissingSecret
      else MissingCipherId)
  {
    hide Lines, AllReadable, ParseLines, LayoutsIn, LastValue, WordOf, SecretOf, ByteOf;
    LinesMean(NOTHING, Lines(s));
    ReadableScalars(Lines(s));
  }

  /** The printed text, line by line. */
  lemma PrintedText(b: Bundle)
    ensures var lines := BundleLines(b);
      && |lines| == 4 + |b.layouts|
      && lines[0] == "# CATP provisioning bundle v1"
      && lines[1] == "sender_id     " + HexAll(BE4(b.senderId))
      && lines[2] == "device_secret " + HexAll(b.deviceSecret)
      && lines[3] == "cipher_id     " + Hex2(b.cipherId)
      && forall i :: 0 <= i < |b.layouts| ==>
           lines[4 + i] == "layout        " + Hex2(b.layouts[i].0) + " " + Hex2(b.layouts[i].1)
  {
    hide HexAll, Hex2, BE4, FieldLine, LayoutLine;
    KeyColumn();
    forall i | 0 <= i < |b.layouts|
      ensures BundleLines(b)[4 + i] == "layout        " + Hex2(b.layouts[i].0) + " " + Hex2(b.layouts[i].1)
    {
      LayoutText(b.layouts[i]);
      assert BundleLines(b)[4 + i] == LayoutLine(b.layouts[i]);
    }
  }

  lemma LayoutText(l: (byte, byte))
    ensures LayoutLine(l) == "layout        " + Hex2(l.0) + " " + Hex2(l.1)
  {
    hide Hex2, FieldLine;
    KeyColumn();
    assert "layout        " + (Hex2(l.0) + " " + Hex2(l.1)) == "layout        " + Hex2(l.0) + " " + Hex2(l.1);
  }

  /** The column a value starts in. */
  lemma KeyColumn()
    ensures forall v: string :: FieldLine(SENDER_ID, v) == "sender_id     " + v
    ensures forall v: string :: FieldLine(DEVICE_SECRET, v) == "device_secret " + v
    ensures forall v: string :: FieldLine(CIPHER_ID, v) == "cipher_id     " + v
    ensures forall v: string :: FieldLine(LAYOUT, v) == "layout        " + v
  {
    assert SENDER_ID + Pad(SENDER_ID) == "sender_id     " && DEVICE_SECRET + Pad(DEVICE_SECRET) == "device_secret ";
    assert CIPHER_ID + Pad(CIPHER_ID) == "cipher_id     " && LAYOUT + Pad(LAYOUT) == "layout        ";
  }
}
