/** The bundle printer and parser undo each other, and comments are free. */
module BundleRoundTrip {
  import opened Basics
  import opened Mac
  import opened Provisioning

  // ---------------------------------------------------------------- trimming

  /** Nothing to trim at either end. */
  predicate Tight(s: string) { s != "" && !IsWhitespace(s[0]) && !IsWhitespace(s[|s| - 1]) }

  lemma {:induction false} TrimStartDrops(pad: string, rest: string)
    requires AllSpace(pad) && (rest == "" || !IsWhitespace(rest[0]))
    ensures TrimStart(pad + rest) == rest
  {
    hide IsWhitespace;
    if pad == "" {
      assert pad + rest == rest;
    } else {
      assert pad[0] in pad;
      TrimStartDrops(pad[1..], rest);
      assert (pad + rest)[1..] == pad[1..] + rest;
    }
  }

  lemma TrimPadded(pad: string, s: string)
    requires AllSpace(pad) && Tight(s)
    ensures Trim(pad + s) == s
  {
    hide IsWhitespace;
    TrimStartDrops(pad, s);
  }

  lemma TrimTight(s: string)
    requires Tight(s)
    ensures Trim(s) == s
  {
    TrimPadded("", s);
    assert "" + s == s;
  }

  lemma {:induction false} TrimStartSnoc(s: string, c: char)
    requires IsWhitespace(c)
    ensures TrimStart(s + [c]) == if TrimStart(s) == "" then "" else TrimStart(s) + [c]
  {
    hide IsWhitespace;
    if s == "" {
      assert s + [c] == [c] && [c][1..] == "";
    } else if IsWhitespace(s[0]) {
      TrimStartSnoc(s[1..], c);
      assert (s + [c])[1..] == s[1..] + [c];
    }
  }

  /** Trimming makes a trailing carriage return irrelevant. */
  lemma TrimIgnoresCr(line: string)
    ensures Trim(StripCr(line)) == Trim(line)
  {
    if line != [] && line[|line| - 1] == '\r' {
      var s := line[..|line| - 1];
      TrimStartSnoc(s, '\r');
      assert line == s + ['\r'];
      var t := TrimStart(s);
      if t != "" { assert (t + ['\r'])[..|t|] == t; }
    }
  }

  // --------------------------------------------------------------- splitting

  lemma {:induction false} FirstSpaceAfter(key: string, rest: string)
    requires NoSpace(key) && (rest == "" || IsWhitespace(rest[0]))
    ensures FirstSpace(key + rest) == |key|
  {
    hide IsWhitespace;
    if key == "" {
      assert key + rest == rest;
    } else {
      assert key[0] in key;
      FirstSpaceAfter(key[1..], rest);
      assert (key + rest)[1..] == key[1..] + rest;
    }
  }

  lemma SpaceIsWhitespace()
    ensures IsWhitespace(' ')
  {
  }

  /** A printed field line splits back into its key and its value. */
  lemma FieldLineSplits(key: string, value: string)
    requires NoSpace(key) && 0 < |key| < 14 && Tight(value)
    ensures var line := FieldLine(key, value);
      && Trim(line) == line && line[0] == key[0]
      && SplitKey(line).0 == key && Trim(SplitKey(line).1) == value
  {
    hide IsWhitespace;
    var line, pad := FieldLine(key, value), Pad(key);
    SpaceIsWhitespace();
    assert line == key + (pad + value);
    assert key[0] in key && pad[0] == ' ';
    TrimTight(line);
    FirstSpaceAfter(key, pad + value);
    assert line[|key| + 1..] == pad[1..] + value;
    TrimPadded(pad[1..], value);
  }

  lemma FieldsOfTwo(a: string, b: string)
    requires NoSpace(a) && NoSpace(b) && a != "" && b != ""
    ensures Fields(a + " " + b) == [a, b]
  {
    hide IsWhitespace;
    SpaceIsWhitespace();
    assert a[0] in a && b[0] in b;
    var s, t := a + " " + b, " " + b;
    assert s == a + t && t[1..] == b && b + "" == b;
    FirstSpaceAfter(a, t);
    FirstSpaceAfter(b, "");
    assert s[|a|..] == t && s[..|a|] == a;
    assert b[|b|..] == "" && b[..|b|] == b;
    assert Fields(b) == [b] + Fields("");
  }

  lemma HexIsTight(b: byte)
    ensures NoSpace(Hex2(b)) && '\n' !in Hex2(b)
  {
    DigitsReadBack(b / 0x10);
    DigitsReadBack(b % 0x10);
  }

  lemma {:induction false} HexAllIsTight(bytes: seq<byte>)
    ensures NoSpace(HexAll(bytes))
    ensures bytes != [] ==> Tight(HexAll(bytes))
  {
    hide IsWhitespace, Hex2;
    if bytes != [] {
      HexIsTight(bytes[0]);
      HexAllIsTight(bytes[1..]);
      var s := HexAll(bytes);
      assert s[0] in s && s[|s| - 1] in s;
    }
  }

  // ------------------------------------------------------------------- lines

  predicate OneLine(s: string) { '\n' !in s }

  lemma {:induction false} FirstNewlineAfter(line: string, rest: string)
    requires OneLine(line)
    ensures FirstNewline(line + "\n" + rest) == |line|
  {
    if line != "" {
      FirstNewlineAfter(line[1..], rest);
      assert (line + "\n" + rest)[1..] == line[1..] + "\n" + rest;
    }
  }

  lemma LinesCons(line: string, rest: string)
    requires OneLine(line)
    ensures Lines(line + "\n" + rest) == [StripCr(line)] + Lines(rest)
  {
    var s := line + "\n" + rest;
    FirstNewlineAfter(line, rest);
    assert s[..|line|] == line && s[|line| + 1..] == rest;
  }

  lemma {:induction false} LinesOfJoin(lines: seq<string>)
    requires forall l :: l in lines ==> OneLine(l) && StripCr(l) == l
    ensures Lines(JoinLines(lines)) == lines
  {
    if lines != [] {
      LinesCons(lines[0], JoinLines(lines[1..]));
      LinesOfJoin(lines[1..]);
      assert lines == [lines[0]] + lines[1..];
    }
  }

  lemma {:induction false} NewlineWithin(s: string)
    requires s != "" && s[|s| - 1] == '\n'
    ensures FirstNewline(s) < |s|
  {
    if s[0] != '\n' { NewlineWithin(s[1..]); }
  }

  lemma NoLines()
    ensures Lines("") == []
  {
  }

  /** Text that ends with a newline, or is empty, contributes its lines whatever follows. */
  lemma {:induction false} LinesAppend(head: string, tail: string)
    requires head == "" || head[|head| - 1] == '\n'
    ensures Lines(head + tail) == Lines(head) + Lines(tail)
    decreases |head|
  {
    hide Lines, FirstNewline;
    NoLines();
    if head == "" {
      assert head + tail == tail && [] + Lines(tail) == Lines(tail);
    } else {
      var i := FirstNewline(head);
      NewlineWithin(head);
      var line, rest := head[..i], head[i + 1..];
      assert head == line + "\n" + rest && head + tail == line + "\n" + (rest + tail);
      LinesCons(line, rest);
      LinesCons(line, rest + tail);
      LinesAppend(rest, tail);
    }
  }

  // -------------------------------------------------------------- round trip

  /** A value of visible characters makes one line, free of a carriage return at its end. */
  lemma FieldLineIsOneLine(key: string, value: string)
    requires NoSpace(key) && 0 < |key| < 14 && Tight(value) && OneLine(value)
    ensures OneLine(FieldLine(key, value)) && StripCr(FieldLine(key, value)) == FieldLine(key, value)
  {
    var line := FieldLine(key, value);
    assert line[|line| - 1] == value[|value| - 1];
  }

  lemma KeysHaveNoSpace()
    ensures NoSpace(SENDER_ID) && NoSpace(DEVICE_SECRET) && NoSpace(CIPHER_ID) && NoSpace(LAYOUT)
  {
  }

  lemma NoSpaceIsOneLine(s: string)
    requires NoSpace(s)
    ensures OneLine(s)
  {
    assert IsWhitespace('\n');
  }

  /** A printed field line is not skipped; it is parsed as its field. */
  lemma FieldLineParses(p: Partial, key: string, value: string)
    requires NoSpace(key) && 0 < |key| < 14 && key[0] != '#' && Tight(value) && OneLine(value)
    ensures var line := FieldLine(key, value);
      OneLine(line) && StripCr(line) == line && ParseLine(p, line) == ParseField(p, key, value)
  {
    hide ParseField;
    FieldLineSplits(key, value);
    FieldLineIsOneLine(key, value);
  }

  lemma HexLineParses(p: Partial, key: string, bytes: seq<byte>)
    requires NoSpace(key) && 0 < |key| < 14 && key[0] != '#' && bytes != []
    ensures var line := FieldLine(key, HexAll(bytes));
      OneLine(line) && StripCr(line) == line && ParseLine(p, line) == ParseField(p, key, HexAll(bytes))
  {
    HexAllIsTight(bytes);
    NoSpaceIsOneLine(HexAll(bytes));
    FieldLineParses(p, key, HexAll(bytes));
  }

  lemma LayoutLineParses(p: Partial, l: (byte, byte))
    ensures OneLine(LayoutLine(l)) && StripCr(LayoutLine(l)) == LayoutLine(l)
    ensures ParseLine(p, LayoutLine(l)) == Good(p.(layouts := p.layouts + [l]))
  {
    var a, b := Hex2(l.0), Hex2(l.1);
    var value := a + " " + b;
    HexIsTight(l.0);
    HexIsTight(l.1);
    assert a[0] in a && b[1] in b;
    assert value[0] == a[0] && value[|value| - 1] == b[1];
    KeysHaveNoSpace();
    FieldLineParses(p, LAYOUT, value);
    LayoutValueParses(l);
  }

  lemma LayoutValueParses(l: (byte, byte))
    ensures ParseLayout(Hex2(l.0) + " " + Hex2(l.1)) == Good(l)
  {
    hide Fields, Hex2, FromHex;
    HexIsTight(l.0);
    HexIsTight(l.1);
    FieldsOfTwo(Hex2(l.0), Hex2(l.1));
    HexByteReadsBack(l.0);
    HexByteReadsBack(l.1);
  }

  lemma {:induction false} LayoutLinesParse(p: Partial, ls: seq<(byte, byte)>)
    ensures forall line :: line in LayoutLines(ls) ==> OneLine(line) && StripCr(line) == line
    ensures ParseLines(p, LayoutLines(ls)) == Good(p.(layouts := p.layouts + ls))
    decreases |ls|
  {
    hide LayoutLine, ParseLine;
    if ls == [] {
      assert p.layouts + ls == p.layouts;
    } else {
      LayoutLineParses(p, ls[0]);
      LayoutLinesParse(p.(layouts := p.layouts + [ls[0]]), ls[1..]);
      assert p.layouts + [ls[0]] + ls[1..] == p.layouts + ls;
    }
  }

  lemma HeaderSkipped()
    ensures OneLine(HEADER_COMMENT) && StripCr(HEADER_COMMENT) == HEADER_COMMENT && Skippable(HEADER_COMMENT)
  {
    TrimTight(HEADER_COMMENT);
  }

  lemma CipherLineParses(p: Partial, b: byte)
    ensures var line := FieldLine(CIPHER_ID, Hex2(b));
      OneLine(line) && StripCr(line) == line && ParseLine(p, line) == Good(p.(cipherId := Some(b)))
  {
    assert HexAll([b]) == Hex2(b) + "" == Hex2(b);
    KeysHaveNoSpace();
    HexLineParses(p, CIPHER_ID, [b]);
    HexByteReadsBack(b);
  }

  lemma SenderLineParses(p: Partial, x: u32)
    ensures var line := FieldLine(SENDER_ID, HexAll(BE4(x)));
      OneLine(line) && StripCr(line) == line && ParseLine(p, line) == Good(p.(senderId := Some(x)))
  {
    hide BE4, HexAll, FromHex;
    KeysHaveNoSpace();
    HexLineParses(p, SENDER_ID, BE4(x));
    HexWordReadsBack(x);
  }

  lemma SecretLineParses(p: Partial, secret: Bytes32)
    ensures var line := FieldLine(DEVICE_SECRET, HexAll(secret));
      OneLine(line) && StripCr(line) == line && ParseLine(p, line) == Good(p.(deviceSecret := Some(secret)))
  {
    hide HexAll, ParseHexBytes;
    KeysHaveNoSpace();
    HexLineParses(p, DEVICE_SECRET, secret);
    HexBytesReadBack(secret);
  }

  lemma ParseLinesCons(p: Partial, line: string, rest: seq<string>)
    ensures ParseLines(p, [line] + rest)
         == if ParseLine(p, line).Bad? then ParseLine(p, line) else ParseLines(ParseLine(p, line).value, rest)
  {
    hide ParseLine;
    assert ([line] + rest)[1..] == rest;
  }

  /** The printed lines parse, one after another, into the whole bundle. */
  lemma BundleLinesParse(b: Bundle)
    ensures ParseLines(NOTHING, BundleLines(b))
         == Good(Partial(Some(b.senderId), Some(b.deviceSecret), Some(b.cipherId), b.layouts))
  {
    hide FieldLine, LayoutLines, ParseLines, ParseLine, OneLine, StripCr, Skippable, HexAll, Hex2, BE4;
    var p1 := NOTHING.(senderId := Some(b.senderId));
    var p2 := p1.(deviceSecret := Some(b.deviceSecret));
    var p3 := p2.(cipherId := Some(b.cipherId));
    HeaderSkipped();
    SkippedParses(NOTHING, HEADER_COMMENT);
    SenderLineParses(NOTHING, b.senderId);
    SecretLineParses(p1, b.deviceSecret);
    CipherLineParses(p2, b.cipherId);
    LayoutLinesParse(p3, b.layouts);
    assert [] + b.layouts == b.layouts;
    var l1, l2, l3 := FieldLine(SENDER_ID, HexAll(BE4(b.senderId))), FieldLine(DEVICE_SECRET, HexAll(b.deviceSecret)),
                      FieldLine(CIPHER_ID, Hex2(b.cipherId));
    var rest := LayoutLines(b.layouts);
    ParseLinesCons(p2, l3, rest);
    ParseLinesCons(p1, l2, [l3] + rest);
    ParseLinesCons(NOTHING, l1, [l2] + ([l3] + rest));
    ParseLinesCons(NOTHING, HEADER_COMMENT, [l1] + ([l2] + ([l3] + rest)));
    assert BundleLines(b) == [HEADER_COMMENT] + ([l1] + ([l2] + ([l3] + rest)));
  }

  lemma BundleLinesAreLines(b: Bundle)
    ensures forall line :: line in BundleLines(b) ==> OneLine(line) && StripCr(line) == line
  {
    hide FieldLine, LayoutLines, ParseLine, OneLine, StripCr, Skippable, HexAll, Hex2, BE4;
    HeaderSkipped();
    SenderLineParses(NOTHING, b.senderId);
    SecretLineParses(NOTHING, b.deviceSecret);
    CipherLineParses(NOTHING, b.cipherId);
    LayoutLinesParse(NOTHING, b.layouts);
  }

  lemma SkippedParses(p: Partial, line: string)
    requires Skippable(line)
    ensures ParseLine(p, line) == Good(p)
  {
  }

  /** Every bundle, with any number of layouts, survives printing and parsing. */
  lemma PrintThenParse(b: Bundle)
    ensures ParseBundle(JoinLines(BundleLines(b))) == Good(b)
  {
    hide BundleLines, JoinLines, Lines, ParseLines, OneLine, StripCr;
    BundleLinesParse(b);
    BundleLinesAreLines(b);
    LinesOfJoin(BundleLines(b));
  }

  // ---------------------------------------------------------------- comments

  lemma {:induction false} SkippedLineIsFree(p: Partial, before: seq<string>, line: string, after: seq<string>)
    requires Skippable(line)
    ensures ParseLines(p, before + [line] + after) == ParseLines(p, before + after)
    decreases |before|
  {
    hide ParseLine, Skippable;
    SkippedParses(p, line);
    if before == [] {
      ParseLinesCons(p, line, after);
      assert before + [line] + after == [line] + after && before + after == after;
    } else {
      var rest := before[1..];
      ParseLinesCons(p, before[0], rest + [line] + after);
      ParseLinesCons(p, before[0], rest + after);
      assert before + [line] + after == [before[0]] + (rest + [line] + after);
      assert before + after == [before[0]] + (rest + after);
      if ParseLine(p, before[0]).Good? { SkippedLineIsFree(ParseLine(p, before[0]).value, rest, line, after); }
    }
  }

  /**
   * Inserting a blank line or a comment at any line boundary never changes the parse - neither the
   * bundle nor, for malformed text, the fault.
   */
  lemma CommentsAreFree(head: string, comment: string, tail: string)
    requires head == "" || head[|head| - 1] == '\n'
    requires OneLine(comment) && Skippable(comment)
    ensures ParseBundle(head + comment + "\n" + tail) == ParseBundle(head + tail)
  {
    hide Lines, ParseLines, OneLine;
    var inserted := comment + "\n" + tail;
    assert head + comment + "\n" + tail == head + inserted;
    LinesAppend(head, inserted);
    LinesAppend(head, tail);
    LinesCons(comment, tail);
    TrimIgnoresCr(comment);
    SkippedLineIsFree(NOTHING, Lines(head), StripCr(comment), Lines(tail));
    assert Lines(head) + ([StripCr(comment)] + Lines(tail)) == Lines(head) + [StripCr(comment)] + Lines(tail);
  }

  /** The text up to its last line break, and what follows it. */
  lemma {:induction false} LastLine(text: string) returns (init: string, last: string)
    ensures text == init + last && OneLine(last) && (init == "" || init[|init| - 1] == '\n')
  {
    if text == "" || text[|text| - 1] == '\n' {
      init, last := text, "";
    } else {
      var before := text[..|text| - 1];
      init, last := LastLine(before);
      last := last + [text[|text| - 1]];
      assert text == before + [text[|text| - 1]];
    }
  }

  lemma {:induction false} LastCrIsFree(p: Partial, before: seq<string>, line: string)
    ensures ParseLines(p, before + [StripCr(line)]) == ParseLines(p, before + [line])
    decreases |before|
  {
    hide ParseLine, StripCr;
    if before == [] {
      CrIsFree(p, line);
      ParseLinesCons(p, line, []);
      ParseLinesCons(p, StripCr(line), []);
      assert [] + [line] == [line] + [] && [] + [StripCr(line)] == [StripCr(line)] + [];
    } else {
      var rest := before[1..];
      ParseLinesCons(p, before[0], rest + [line]);
      ParseLinesCons(p, before[0], rest + [StripCr(line)]);
      assert before + [line] == [before[0]] + (rest + [line]);
      assert before + [StripCr(line)] == [before[0]] + (rest + [StripCr(line)]);
      if ParseLine(p, before[0]).Good? { LastCrIsFree(ParseLine(p, before[0]).value, rest, line); }
    }
  }

  lemma CrIsFree(p: Partial, line: string)
    ensures ParseLine(p, StripCr(line)) == ParseLine(p, line)
  {
    hide Trim, StripCr;
    TrimIgnoresCr(line);
  }

  /** Terminating the last line, or adding an empty one, never changes the parse. */
  lemma NewlineIsFree(text: string)
    ensures ParseBundle(text + "\n") == ParseBundle(text)
  {
    hide Lines, ParseLines, OneLine, StripCr;
    var init, last := LastLine(text);
    if last == "" {
      NothingIsSkippable();
      CommentsAreFree(init, "", "");
      assert init + "" + "\n" + "" == text + "\n" && init + "" == text;
    } else {
      assert text + "\n" == init + (last + "\n");
      LinesAppend(init, last);
      LinesAppend(init, last + "\n");
      LinesCons(last, "");
      assert last + "\n" + "" == last + "\n";
      LoneLine(last);
      assert Lines(text + "\n") == Lines(init) + [StripCr(last)];
      LastCrIsFree(NOTHING, Lines(init), last);
    }
  }

  lemma NothingIsSkippable()
    ensures OneLine("") && Skippable("")
  {
  }

  lemma LoneLine(line: string)
    requires OneLine(line) && line != ""
    ensures Lines(line) == [line] && Lines("") == []
  {
    FirstNewlineNowhere(line);
  }

  lemma {:induction false} FirstNewlineNowhere(line: string)
    requires OneLine(line)
    ensures FirstNewline(line) == |line|
  {
    if line != "" { FirstNewlineNowhere(line[1..]); }
  }

  /** A comment as the last line, itself unterminated, changes nothing, whether or not the text before it was terminated. */
  lemma CommentAtEndIsFree(text: string, comment: string)
    requires OneLine(comment) && Skippable(comment)
    ensures text == "" || text[|text| - 1] == '\n' ==> ParseBundle(text + comment) == ParseBundle(text)
    ensures ParseBundle(text + "\n" + comment) == ParseBundle(text)
  {
    hide ParseBundle, OneLine, Skippable;
    if text == "" || text[|text| - 1] == '\n' { CommentEnds(text, comment); }
    CommentEnds(text + "\n", comment);
    NewlineIsFree(text);
  }

  lemma CommentEnds(text: string, comment: string)
    requires text == "" || text[|text| - 1] == '\n'
    requires OneLine(comment) && Skippable(comment)
    ensures ParseBundle(text + comment) == ParseBundle(text)
  {
    hide ParseBundle, OneLine, Skippable;
    NewlineIsFree(text + comment);
    CommentsAreFree(text, comment, "");
    assert text + comment + "\n" + "" == text + comment + "\n" && text + "" == text;
  }
}
