/** The bit layout anchored to the frozen conformance vectors. */
module Vectors {
  import opened Basics
  import opened Readings
  import opened Records
  import opened Wire

  const SENDER: u32 := 0x1234_5678
  const EPOCH: u32 := 13281250

  /** The packed bytes behind both header images of the negative NUMBER. */
  lemma PackedVector(epochLow: byte)
    requires epochLow < 0x10
    ensures PackHeader(1, 4, 1, epochLow, 0, 4097) == [0x24, 0x10 + epochLow, 0x00, 0x10, 0x01]
  {
    hide PackHeader;
    PackFitting(1, 4, 1, epochLow, 0, 0, 0x10, 0x01);
  }

  lemma WordsVector()
    ensures BE4(SENDER) == [0x12, 0x34, 0x56, 0x78]
    ensures BE4(EPOCH) == [0x00, 0xca, 0xa7, 0xe2]
  {
  }

  /** NUMBER, negative: the transmitted header, the signed header and the payload. */
  lemma NumberVector()
    ensures var d := NumberDatagram(HmacSha256T64, SENDER, EPOCH, 4097, 2, -25);
      && d.Ok?
      && d.value.HeaderBytes() == [0x24, 0x12, 0x00, 0x10, 0x01, 0x12, 0x34, 0x56, 0x78]
      && d.value.AuthHeader(EPOCH) == [0x24, 0x10, 0x00, 0x10, 0x01, 0x00, 0xca, 0xa7, 0xe2, 0x12, 0x34, 0x56, 0x78]
      && d.value.Payload() == Ok([0x02, 0xff, 0xe7])
  {
    PackedVector(0);
    PackedVector(2);
    WordsVector();
    hide PackHeader;
    hide BE4;
    var d := NumberDatagram(HmacSha256T64, SENDER, EPOCH, 4097, 2, -25).value;
    assert d.HeaderBytes() == PackHeader(1, 4, 1, 2, 0, 4097) + BE4(SENDER);
    assert d.AuthHeader(EPOCH) == PackHeader(1, 4, 1, 0, 0, 4097) + BE4(EPOCH) + BE4(SENDER);
    assert NumberBytes(2, -25) == [0x02, 0xff, 0xe7];
  }

  /** SERIES, three readings: the delta-coded payload. */
  lemma SeriesVector()
    ensures var rs: seq<Reading> := [(4200, 2350), (4450, 2360), (4900, 2355)];
      && SeriesReadings(rs)
      && SeriesBytes(2, rs) == [0x02, 0x09, 0x2e, 0x00, 0xfa, 0x09, 0x38, 0x01, 0xc2, 0x09, 0x33]
  {
    var rs: seq<Reading> := [(4200, 2350), (4450, 2360), (4900, 2355)];
    assert rs[1..] == [rs[1], rs[2]] && rs[1..][1..] == [rs[2]];
    assert SeriesReadings(rs);
  }

  lemma RecordVector()
    ensures Record(1, 1, [1]).Bytes() == [0x10, 0x10, 0x01, 0x01]
    ensures Record(2, 2, [2, 3]).Bytes() == [0x20, 0x20, 0x02, 0x02, 0x03]
    ensures Record(3, 0xff, [4, 5, 6]).Bytes() == [0x3f, 0xf0, 0x03, 0x04, 0x05, 0x06]
  {
    assert BE3(Pack(1, 1, 1)) == [0x10, 0x10, 0x01];
    assert BE3(Pack(2, 2, 2)) == [0x20, 0x20, 0x02];
    assert BE3(Pack(3, 0xff, 3)) == [0x3f, 0xf0, 0x03];
    hide BE3, Pack;
  }

  /** MESSAGE, three records in mixed formats: the framed payload. */
  lemma RecordsVector()
    ensures RecordsBytes([Record(1, 1, [1]), Record(2, 2, [2, 3]), Record(3, 0xff, [4, 5, 6])])
         == [0x10, 0x10, 0x01, 0x01, 0x20, 0x20, 0x02, 0x02, 0x03, 0x3f, 0xf0, 0x03, 0x04, 0x05, 0x06]
  {
    RecordVector();
    hide Record.Bytes;
    var a, b, c := Record(1, 1, [1]), Record(2, 2, [2, 3]), Record(3, 0xff, [4, 5, 6]);
    assert [a, b, c][1..] == [b, c] && [b, c][1..] == [c] && [c][1..] == [];
    assert RecordsBytes([c]) == c.Bytes();
    assert RecordsBytes([b, c]) == b.Bytes() + c.Bytes();
    assert RecordsBytes([a, b, c]) == a.Bytes() + (b.Bytes() + c.Bytes());
  }
}
