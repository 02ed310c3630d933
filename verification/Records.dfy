/** Record framing: three header bytes that give format, schema version and body length, then the body (PROTOCOL.md 6.4). */
module Records {
  import opened Basics

  /** The low three bytes of a big-endian word. */
  function BE3(w: nat): (s: seq<byte>)
    requires w < 0x100_0000
    ensures |s| == RECORD_HEADER_LEN
  {
    var upper: nat := w / 0x100;
    [upper / 0x100, upper % 0x100, w % 0x100]
  }

  function Word3(b0: nat, b1: nat, b2: nat): nat { b0 * 0x1_0000 + b1 * 0x100 + b2 }

  /** Three disjoint bit fields in one 24-bit word. */
  function Pack(format: nat, schemaVersion: byte, size: nat): (w: nat)
    requires format < 0x10 && size < 0x1000
    ensures w < 0x100_0000
  {
    format * 0x10_0000 + schemaVersion * 0x1000 + size
  }

  datatype Record = Record(format: byte, schemaVersion: byte, body: seq<byte>) {
    function WireLen(): nat { RECORD_HEADER_LEN + |body| }

    /** What the writer checks before it writes. */
    predicate Encodable() { 0 < |body| <= MAX_BODY }

    /** What the reader requires as well: format and version fit their fields and are not zero. */
    predicate WireValid() { Encodable() && 0 < format < 0x10 && 0 < schemaVersion }

    /** `(format << 20) | (schema_version << 12) | size`, each field masked to its width. */
    function HeaderWord(): (w: nat)
      ensures w < 0x100_0000
    {
      Pack(format % 0x10, schemaVersion, |body| % 0x1000)
    }

    function Bytes(): (s: seq<byte>)
      ensures |s| == WireLen()
    {
      BE3(HeaderWord()) + body
    }
  }

  function Decode(buf: seq<byte>): (r: Result<(Record, nat)>)
    ensures r.Ok? ==> RECORD_HEADER_LEN < r.value.1 <= |buf|
  {
    if |buf| < RECORD_HEADER_LEN then Err(Framing(RecordHeaderTruncated))
    else
      var w := Word3(buf[0], buf[1], buf[2]);
      var format: byte := w / 0x10_0000;
      var schemaVersion: byte := w / 0x1000 % 0x100;
      var size := w % 0x1000;
      if format == 0 then Err(Framing(FormatZero))
      else if schemaVersion == 0 then Err(Framing(SchemaVersionZero))
      else if size == 0 then Err(Framing(SizeZero))
      else if |buf| < RECORD_HEADER_LEN + size then Err(Framing(BodyOverrun))
      else
        Ok((Record(format, schemaVersion, buf[RECORD_HEADER_LEN..RECORD_HEADER_LEN + size]), RECORD_HEADER_LEN + size))
  }

  lemma PackUnpack(f: nat, v: byte, n: nat)
    requires f < 0x10 && n < 0x1000
    ensures var w := Pack(f, v, n); w / 0x10_0000 == f && w / 0x1000 % 0x100 == v && w % 0x1000 == n
  {
    var upper: nat := f * 0x100 + v;
    assert Pack(f, v, n) == upper * 0x1000 + n;
    SplitAt12(upper, n);
    DivModBytes(f, v);
  }

  lemma SplitAt12(upper: nat, n: nat)
    requires n < 0x1000
    ensures var w := upper * 0x1000 + n; w / 0x1000 == upper && w % 0x1000 == n && w / 0x10_0000 == upper / 0x100
  {
  }

  lemma UnpackPack(w: nat)
    requires w < 0x100_0000
    ensures Pack(w / 0x10_0000, w / 0x1000 % 0x100, w % 0x1000) == w
  {
    assert w / 0x1000 / 0x100 == w / 0x10_0000;
  }

  lemma BytesOfWord(b0: byte, b1: byte, b2: byte)
    ensures Word3(b0, b1, b2) < 0x100_0000 && BE3(Word3(b0, b1, b2)) == [b0, b1, b2]
  {
    DivModBytes(b0 * 0x100 + b1, b2);
    DivModBytes(b0, b1);
  }

  lemma WordOfBytes(w: nat)
    requires w < 0x100_0000
    ensures var s := BE3(w); Word3(s[0], s[1], s[2]) == w
  {
  }

  /**
   * The reader accepts a buffer as this record if and only if the record is wire-valid and the
   * buffer starts with its encoding.
   */
  lemma DecodeIff(buf: seq<byte>, r: Record, used: nat)
    ensures Decode(buf) == Ok((r, used))
       <==> r.WireValid() && used == r.WireLen() && r.Bytes() <= buf
  {
    if r.WireValid() && used == r.WireLen() && r.Bytes() <= buf { BytesDecode(buf, r); }
    if Decode(buf) == Ok((r, used)) { DecodedBytes(buf); }
  }

  lemma BytesDecode(buf: seq<byte>, r: Record)
    requires r.WireValid() && r.Bytes() <= buf
    ensures Decode(buf) == Ok((r, r.WireLen()))
  {
    hide BE3, Word3, Pack;
    var w := r.HeaderWord();
    assert w == Pack(r.format, r.schemaVersion, |r.body|);
    WordOfBytes(w);
    PackUnpack(r.format, r.schemaVersion, |r.body|);
    assert Word3(buf[0], buf[1], buf[2]) == w;
    assert buf[RECORD_HEADER_LEN..r.WireLen()] == r.body;
  }

  lemma DecodedBytes(buf: seq<byte>)
    requires Decode(buf).Ok?
    ensures var (r, used) := Decode(buf).value;
      r.WireValid() && used == r.WireLen() && r.Bytes() == buf[..used]
  {
    hide BE3, Word3, Pack;
    var (r, used) := Decode(buf).value;
    var w := Word3(buf[0], buf[1], buf[2]);
    BytesOfWord(buf[0], buf[1], buf[2]);
    UnpackPack(w);
    assert r.HeaderWord() == Pack(r.format, r.schemaVersion, |r.body|) == w;
  }

  /**
   * The writer checks only the body, so a record it writes reads back as itself exactly when its
   * format is 1..15 and its schema version is not zero.
   */
  lemma WriterChecksLess(r: Record)
    requires r.Encodable()
    ensures Decode(r.Bytes()) == Ok((r, r.WireLen())) <==> 0 < r.format < 0x10 && 0 < r.schemaVersion
  {
    DecodeIff(r.Bytes(), r, r.WireLen());
  }

  /** `&mut out[lo..hi]` as a target: refuse rather than truncate. */
  method WriteInto(r: Record, out: array<byte>, lo: nat, hi: nat) returns (n: Result<nat>)
    requires lo <= hi <= out.Length
    modifies out
    ensures n == if !r.Encodable() then Err(BodyTooLarge(|r.body|))
                 else if hi - lo < r.WireLen() then Err(BufferTooSmall(hi - lo, r.WireLen()))
                 else Ok(r.WireLen())
    ensures n.Err? ==> out[..] == old(out[..])
    ensures n.Ok? ==> out[..] == Overwrite(old(out[..]), lo, r.Bytes())
  {
    hide BE3, Pack, Overwrite;
    if |r.body| == 0 || |r.body| > MAX_BODY {
      return Err(BodyTooLarge(|r.body|));
    }
    var need := r.WireLen();
    if hi - lo < need {
      return Err(BufferTooSmall(hi - lo, need));
    }
    OverwriteAdjacent(out[..], lo, BE3(r.HeaderWord()), r.body);
    CopyInto(out, lo, BE3(r.HeaderWord()));
    CopyInto(out, lo + RECORD_HEADER_LEN, r.body);
    n := Ok(need);
  }

  // ----------------------------------------------------------- whole payloads

  function RecordsBytes(rs: seq<Record>): seq<byte> {
    if rs == [] then [] else rs[0].Bytes() + RecordsBytes(rs[1..])
  }

  function TotalLen(rs: seq<Record>): nat {
    if rs == [] then 0 else rs[0].WireLen() + TotalLen(rs[1..])
  }

  lemma {:induction false} RecordsBytesLen(rs: seq<Record>)
    ensures |RecordsBytes(rs)| == TotalLen(rs)
  {
    if rs != [] { RecordsBytesLen(rs[1..]); }
  }

  lemma {:induction false} RecordsBytesSplit(rs: seq<Record>, i: nat)
    requires i <= |rs|
    ensures RecordsBytes(rs) == RecordsBytes(rs[..i]) + RecordsBytes(rs[i..])
  {
    if i == 0 {
      assert rs[0..] == rs;
    } else {
      RecordsBytesSplit(rs[1..], i - 1);
      var a, b := rs[1..][..i - 1], rs[1..][i - 1..];
      assert a == rs[..i][1..] && b == rs[i..] && rs[..i][0] == rs[0];
      Assoc(rs[0].Bytes(), RecordsBytes(a), RecordsBytes(b));
    }
  }

  lemma Assoc(a: seq<byte>, b: seq<byte>, c: seq<byte>)
    ensures a + (b + c) == (a + b) + c
  {
  }

  lemma RecordsBytesSnoc(rs: seq<Record>, r: Record)
    ensures RecordsBytes(rs + [r]) == RecordsBytes(rs) + r.Bytes()
  {
    var all := rs + [r];
    RecordsBytesSplit(all, |rs|);
    assert all[..|rs|] == rs && all[|rs|..] == [r];
    assert RecordsBytes([r]) == r.Bytes() + RecordsBytes([r][1..]);
  }

  function Followed(before: seq<Record>, r: Result<seq<Record>>): Result<seq<Record>> {
    if r.Err? then r else Ok(before + r.value)
  }

  /** The record loop, one record at a time. */
  function Parse(p: seq<byte>): Result<seq<Record>>
    decreases |p|
  {
    if p == [] then Ok([])
    else
      match Decode(p)
      case Err(e) => Err(e)
      case Ok((r, used)) => Followed([r], Parse(p[used..]))
  }

  predicate AllWireValid(rs: seq<Record>) { forall r :: r in rs ==> r.WireValid() }

  /**
   * The loop accepts exactly the concatenations of valid record encodings, and the parse is unique:
   * it yields `rs` if and only if the payload is the encoding of `rs`.
   */
  lemma {:induction false} ParseIff(p: seq<byte>, rs: seq<Record>)
    ensures Parse(p) == Ok(rs) <==> AllWireValid(rs) && p == RecordsBytes(rs)
    decreases |p|
  {
    hide Decode, Record.Bytes;
    if Parse(p) == Ok(rs) && p != [] {
      var (r, used) := Decode(p).value;
      DecodeIff(p, r, used);
      ParseIff(p[used..], rs[1..]);
      assert rs[0] == r;
      assert p == p[..used] + p[used..];
    }
    if AllWireValid(rs) && p == RecordsBytes(rs) && rs != [] {
      var r := rs[0];
      DecodeIff(p, r, r.WireLen());
      assert p[r.WireLen()..] == RecordsBytes(rs[1..]);
      ParseIff(p[r.WireLen()..], rs[1..]);
      assert rs == [r] + rs[1..];
    }
  }

  /**
   * The loop as written. Each record advances the position, so the loop ends, and it ends exactly
   * at the payload's end: the test for trailing bytes can never fire.
   */
  method ParseLoop(payload: seq<byte>) returns (result: Result<seq<Record>>)
    ensures result == Parse(payload)
  {
    hide Decode;
    var pos := 0;
    var recs: seq<Record> := [];
    FollowedNone(Parse(payload));
    assert payload[0..] == payload;
    while pos < |payload|
      invariant pos <= |payload|
      invariant Parse(payload) == Followed(recs, Parse(payload[pos..]))
      decreases |payload| - pos
    {
      var one := Decode(payload[pos..]);
      if one.Err? {
        return Err(one.error);
      }
      var (r, used) := one.value;
      assert payload[pos..][used..] == payload[pos + used..];
      FollowedSnoc(recs, r, Parse(payload[pos + used..]));
      pos := pos + used;
      recs := recs + [r];
    }
    if pos != |payload| {
      assert false; // TrailingBytes
    }
    assert payload[pos..] == [] && recs + [] == recs;
    result := Ok(recs);
  }

  lemma FollowedNone(r: Result<seq<Record>>)
    ensures Followed([], r) == r
  {
    if r.Ok? { assert [] + r.value == r.value; }
  }

  lemma FollowedSnoc(before: seq<Record>, x: Record, r: Result<seq<Record>>)
    ensures Followed(before, Followed([x], r)) == Followed(before + [x], r)
  {
    if r.Ok? { assert before + ([x] + r.value) == before + [x] + r.value; }
  }

  // -------------------------------------------------------------- layout skip

  function Kept(layouts: seq<(byte, byte)>, rs: seq<Record>): seq<Record> {
    if rs == [] then []
    else (if (rs[0].format, rs[0].schemaVersion) in layouts then [rs[0]] else []) + Kept(layouts, rs[1..])
  }

  function Skipped(layouts: seq<(byte, byte)>, rs: seq<Record>): seq<Record> {
    if rs == [] then []
    else (if (rs[0].format, rs[0].schemaVersion) in layouts then [] else [rs[0]]) + Skipped(layouts, rs[1..])
  }

  /** Put the skipped records back, each at the first place its order allows, told apart by layout. */
  predicate Interleaving(kept: seq<Record>, skipped: seq<Record>, rs: seq<Record>) {
    if rs == [] then kept == [] && skipped == []
    else
      || (kept != [] && kept[0] == rs[0] && Interleaving(kept[1..], skipped, rs[1..]))
      || (skipped != [] && skipped[0] == rs[0] && Interleaving(kept, skipped[1..], rs[1..]))
  }

  /**
   * Kept and skipped are complementary subsequences in the original order, split by whether the
   * receiver holds the layout.
   */
  lemma {:induction false} PartitionInterleaves(layouts: seq<(byte, byte)>, rs: seq<Record>)
    ensures Interleaving(Kept(layouts, rs), Skipped(layouts, rs), rs)
    ensures |Kept(layouts, rs)| + |Skipped(layouts, rs)| == |rs|
    ensures forall r :: r in Kept(layouts, rs) ==> r in rs && (r.format, r.schemaVersion) in layouts
    ensures forall r :: r in Skipped(layouts, rs) ==> r in rs && (r.format, r.schemaVersion) !in layouts
  {
    SplitByLayout(layouts, rs);
    if rs != [] {
      PartitionInterleaves(layouts, rs[1..]);
      var k, s := Kept(layouts, rs[1..]), Skipped(layouts, rs[1..]);
      if (rs[0].format, rs[0].schemaVersion) in layouts {
        assert ([rs[0]] + k)[1..] == k && [] + s == s;
      } else {
        assert ([rs[0]] + s)[1..] == s && [] + k == k;
      }
    }
  }

  lemma {:induction false} SplitByLayout(layouts: seq<(byte, byte)>, rs: seq<Record>)
    ensures forall r :: r in Kept(layouts, rs) ==> r in rs && (r.format, r.schemaVersion) in layouts
    ensures forall r :: r in Skipped(layouts, rs) ==> r in rs && (r.format, r.schemaVersion) !in layouts
  {
    if rs != [] { SplitByLayout(layouts, rs[1..]); }
  }

  lemma {:induction false} NothingSkippedKeepsAll(layouts: seq<(byte, byte)>, rs: seq<Record>)
    requires Skipped(layouts, rs) == []
    ensures Kept(layouts, rs) == rs
  {
    if rs != [] {
      NothingSkippedKeepsAll(layouts, rs[1..]);
      assert [rs[0]] + rs[1..] == rs;
    }
  }
}
