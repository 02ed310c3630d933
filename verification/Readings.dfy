/** The fixed-point payloads: NUMBER (PROTOCOL.md 6.3) and delta-coded SERIES (6.9). */
module Readings {
  import opened Basics

  /** `(instant, mantissa)`: the instant in ticks within the epoch. */
  type Reading = (u32, i16)

  // ----------------------------------------------------------------- NUMBER

  function NumberBytes(scale: byte, mantissa: i16): seq<byte> { [scale] + BE2Signed(mantissa) }

  function ValidateNumber(p: seq<byte>): Result<(byte, i16)> {
    if |p| != NUMBER_PAYLOAD_LEN then Err(BadNumber(WrongLength))
    else if !ScaleIsValid(p[0]) then Err(BadNumber(ScaleRange))
    else Ok((p[0], FromBE2Signed(p[1], p[2])))
  }

  /** A payload is accepted as a number exactly when it is that number's encoding. */
  lemma NumberBijection(p: seq<byte>, scale: byte, mantissa: i16)
    ensures ValidateNumber(p) == Ok((scale, mantissa))
       <==> ScaleIsValid(scale) && p == NumberBytes(scale, mantissa)
  {
    if ValidateNumber(p) == Ok((scale, mantissa)) {
      assert p == [p[0], p[1], p[2]];
      BE2SignedInverse(p[1], p[2]);
    }
  }

  lemma BE2SignedInverse(hi: byte, lo: byte)
    ensures BE2Signed(FromBE2Signed(hi, lo)) == [hi, lo]
  {
    DivModBytes(hi, lo);
  }

  // ----------------------------------------------------------------- SERIES

  /** Two instants that one 16-bit delta can link. */
  predicate Linked(a: Reading, b: Reading) { 0 < b.0 - a.0 <= 0xFFFF }

  predicate AllLinked(rs: seq<Reading>) { forall i :: 0 < i < |rs| ==> Linked(rs[i - 1], rs[i]) }

  /** What one SERIES payload can carry: two or more readings of one epoch, each linked to the next. */
  predicate SeriesReadings(rs: seq<Reading>) {
    |rs| >= 2 && InEpoch(rs) && AllLinked(rs)
  }

  predicate InEpoch(rs: seq<Reading>) { forall i :: 0 <= i < |rs| ==> rs[i].0 < TICKS_PER_EPOCH }

  lemma LinkedTail(rs: seq<Reading>)
    requires AllLinked(rs) && |rs| >= 2
    ensures Linked(rs[0], rs[1]) && AllLinked(rs[1..])
  {
    assert Linked(rs[0], rs[1]);
    forall i | 0 < i < |rs[1..]| ensures Linked(rs[1..][i - 1], rs[1..][i]) {
      assert Linked(rs[i], rs[i + 1]);
    }
  }

  lemma LinkedCons(a: Reading, rs: seq<Reading>)
    requires AllLinked(rs) && rs != [] && Linked(a, rs[0])
    ensures AllLinked([a] + rs)
  {
    forall i | 0 < i < |[a] + rs| ensures Linked(([a] + rs)[i - 1], ([a] + rs)[i]) {
      if i > 1 { assert Linked(rs[i - 2], rs[i - 1]); }
    }
  }

  /** Linked instants strictly increase, so the last one bounds them all. */
  lemma {:induction false} LinkedIncrease(rs: seq<Reading>, i: nat, j: nat)
    requires AllLinked(rs) && i < j < |rs|
    ensures rs[i].0 < rs[j].0
  {
    assert Linked(rs[j - 1], rs[j]);
    if i < j - 1 { LinkedIncrease(rs, i, j - 1); }
  }

  function Entry(delta: u16, mantissa: i16): (e: seq<byte>)
    ensures |e| == SERIES_ENTRY_LEN
  {
    BE2(delta) + BE2Signed(mantissa)
  }

  lemma EntryDecodes(delta: u16, mantissa: i16)
    ensures var e := Entry(delta, mantissa); FromBE2(e[0], e[1]) == delta && FromBE2Signed(e[2], e[3]) == mantissa
  {
  }

  lemma EntryEncodes(a: byte, b: byte, c: byte, d: byte)
    ensures Entry(FromBE2(a, b), FromBE2Signed(c, d)) == [a, b, c, d]
  {
    BE2SignedInverse(c, d);
    DivModBytes(a, b);
  }

  /** The entries after the first reading. */
  function Deltas(rs: seq<Reading>): seq<byte>
    requires AllLinked(rs)
  {
    if |rs| < 2 then []
    else
      LinkedTail(rs);
      Entry(rs[1].0 - rs[0].0, rs[1].1) + Deltas(rs[1..])
  }

  function SeriesBytes(scale: byte, rs: seq<Reading>): seq<byte>
    requires SeriesReadings(rs)
  {
    NumberBytes(scale, rs[0].1) + Deltas(rs)
  }

  /** The first gap that cannot be coded, and why. */
  function FirstBadGap(rs: seq<Reading>): Option<Reason> {
    if |rs| < 2 then None
    else if rs[1].0 <= rs[0].0 then Some(NotIncreasing)
    else if rs[1].0 - rs[0].0 > 0xFFFF then Some(GapTooWide)
    else FirstBadGap(rs[1..])
  }

  /** The error the builder reports for these arguments, if any. */
  function SeriesFault(scale: byte, rs: seq<Reading>): Option<Error> {
    if !ScaleIsValid(scale) then Some(BadSeries(ScaleRange))
    else if |rs| < 2 then Some(BadSeries(TooFewReadings))
    else if rs[0].0 >= TICKS_PER_EPOCH then Some(Framing(OffsetTooWide))
    else if FirstBadGap(rs).Some? then Some(BadSeries(FirstBadGap(rs).value))
    else if rs[|rs| - 1].0 >= TICKS_PER_EPOCH then Some(BadSeries(CrossesEpoch))
    else None
  }

  lemma {:induction false} NoBadGapIsLinked(rs: seq<Reading>)
    ensures FirstBadGap(rs).None? <==> AllLinked(rs)
  {
    if |rs| >= 2 {
      NoBadGapIsLinked(rs[1..]);
      if AllLinked(rs) { LinkedTail(rs); }
      if FirstBadGap(rs).None? {
        LinkedCons(rs[0], rs[1..]);
        assert [rs[0]] + rs[1..] == rs;
      }
    }
  }

  /** The builder refuses exactly the readings no SERIES payload can carry. */
  lemma SeriesFaultIffNotReadings(scale: byte, rs: seq<Reading>)
    ensures SeriesFault(scale, rs).None? <==> ScaleIsValid(scale) && SeriesReadings(rs)
  {
    NoBadGapIsLinked(rs);
    if SeriesFault(scale, rs).None? {
      forall i | 0 <= i < |rs| ensures rs[i].0 < TICKS_PER_EPOCH {
        if i < |rs| - 1 { LinkedIncrease(rs, i, |rs| - 1); }
      }
    }
  }

  lemma {:induction false} DeltasSnoc(rs: seq<Reading>, b: Reading)
    requires rs != [] && AllLinked(rs) && Linked(rs[|rs| - 1], b)
    ensures AllLinked(rs + [b])
    ensures Deltas(rs + [b]) == Deltas(rs) + Entry(b.0 - rs[|rs| - 1].0, b.1)
  {
    var all := rs + [b];
    if |rs| == 1 {
      assert all[1..] == [b];
    } else {
      LinkedTail(rs);
      DeltasSnoc(rs[1..], b);
      assert all[1..] == rs[1..] + [b];
      LinkedCons(rs[0], rs[1..] + [b]);
      assert all == [rs[0]] + (rs[1..] + [b]);
    }
  }

  /** The builder's loop reports the first bad gap. */
  lemma {:induction false} BadGapAt(rs: seq<Reading>, i: nat)
    requires 0 < i < |rs| && AllLinked(rs[..i])
    ensures rs[i].0 <= rs[i - 1].0 ==> FirstBadGap(rs) == Some(NotIncreasing)
    ensures rs[i].0 > rs[i - 1].0 && !Linked(rs[i - 1], rs[i]) ==> FirstBadGap(rs) == Some(GapTooWide)
  {
    if i > 1 {
      LinkedTail(rs[..i]);
      assert rs[..i][1..] == rs[1..][..i - 1];
      BadGapAt(rs[1..], i - 1);
    }
  }

  /** The payload of `Datagram::series`. */
  method BuildSeries(scale: byte, readings: seq<Reading>) returns (r: Result<seq<byte>>)
    ensures SeriesFault(scale, readings).None? ==>
      SeriesReadings(readings) && r == Ok(SeriesBytes(scale, readings))
    ensures SeriesFault(scale, readings).Some? ==> r == Err(SeriesFault(scale, readings).value)
  {
    if !ScaleIsValid(scale) {
      return Err(BadSeries(ScaleRange));
    }
    if |readings| < 2 {
      return Err(BadSeries(TooFewReadings));
    }
    if readings[0].0 >= TICKS_PER_EPOCH {
      return Err(Framing(OffsetTooWide));
    }
    var raw := [scale] + BE2Signed(readings[0].1);
    var prev: u32 := readings[0].0;
    for i := 1 to |readings|
      invariant 0 <= prev == readings[i - 1].0
      invariant AllLinked(readings[..i])
      invariant raw == NumberBytes(scale, readings[0].1) + Deltas(readings[..i])
    {
      BadGapAt(readings, i);
      var (offset, mantissa) := readings[i];
      if offset <= prev {
        return Err(BadSeries(NotIncreasing));
      }
      if offset - prev > 0xFFFF {
        return Err(BadSeries(GapTooWide));
      }
      var delta: u16 := offset - prev;
      DeltasSnoc(readings[..i], readings[i]);
      assert readings[..i] + [readings[i]] == readings[..i + 1];
      raw := raw + Entry(delta, mantissa);
      prev := offset;
    }
    assert readings[..|readings|] == readings;
    SeriesFaultIffNotReadings(scale, readings);
    NoBadGapIsLinked(readings);
    if prev >= TICKS_PER_EPOCH {
      return Err(BadSeries(CrossesEpoch));
    }
    r := Ok(raw);
  }

  /** Decode `(delta, mantissa)` entries that continue from the instant `cum`. */
  function DecodeEntries(cum: u32, es: seq<byte>): Result<seq<Reading>>
    requires |es| % SERIES_ENTRY_LEN == 0
    decreases |es|
  {
    if es == [] then Ok([])
    else
      var delta := FromBE2(es[0], es[1]);
      if delta == 0 then Err(BadSeries(ZeroDelta))
      else if cum + delta >= TICKS_PER_EPOCH then Err(BadSeries(CrossesEpoch))
      else Prepend((cum + delta, FromBE2Signed(es[2], es[3])), DecodeEntries(cum + delta, es[SERIES_ENTRY_LEN..]))
  }

  function Prepend(a: Reading, r: Result<seq<Reading>>): Result<seq<Reading>> {
    if r.Err? then r else Ok([a] + r.value)
  }

  function DecodeSeries(p: seq<byte>, anchor: u32): Result<(byte, seq<Reading>)> {
    if |p| < NUMBER_PAYLOAD_LEN then Err(BadSeries(PayloadTooShort))
    else if !ScaleIsValid(p[0]) then Err(BadSeries(ScaleRange))
    else if |p| == NUMBER_PAYLOAD_LEN then Err(BadSeries(TooFewReadings))
    else if (|p| - NUMBER_PAYLOAD_LEN) % SERIES_ENTRY_LEN != 0 then Err(BadSeries(PartialEntry))
    else if anchor >= TICKS_PER_EPOCH then Err(BadSeries(OffsetTooWide))
    else
      match Prepend((anchor, FromBE2Signed(p[1], p[2])), DecodeEntries(anchor, p[NUMBER_PAYLOAD_LEN..]))
      case Err(e) => Err(e)
      case Ok(rs) => Ok((p[0], rs))
  }

  /** `validate_series`: the accumulating loop computes exactly `DecodeSeries`. */
  method ValidateSeries(p: seq<byte>, anchor: u32) returns (r: Result<(byte, seq<Reading>)>)
    ensures r == DecodeSeries(p, anchor)
  {
    if |p| < NUMBER_PAYLOAD_LEN {
      return Err(BadSeries(PayloadTooShort));
    }
    var scale := p[0];
    if !ScaleIsValid(scale) {
      return Err(BadSeries(ScaleRange));
    }
    var rest := p[NUMBER_PAYLOAD_LEN..];
    if rest == [] {
      return Err(BadSeries(TooFewReadings));
    }
    if |rest| % SERIES_ENTRY_LEN != 0 {
      return Err(BadSeries(PartialEntry));
    }
    if anchor >= TICKS_PER_EPOCH {
      return Err(BadSeries(OffsetTooWide));
    }
    var readings := AccumulateEntries((anchor, FromBE2Signed(p[1], p[2])), rest);
    r := match readings case Err(e) => Err(e) case Ok(rs) => Ok((scale, rs));
  }

  /** The loop of `validate_series`, from the first reading on. */
  method AccumulateEntries(first: Reading, entries: seq<byte>) returns (r: Result<seq<Reading>>)
    requires |entries| % SERIES_ENTRY_LEN == 0 && first.0 < TICKS_PER_EPOCH
    ensures r == Prepend(first, DecodeEntries(first.0, entries))
  {
    var readings := [first];
    var cum: u32 := first.0;
    var at := 0;
    while at < |entries|
      invariant at <= |entries| && at % SERIES_ENTRY_LEN == 0 && cum < TICKS_PER_EPOCH
      invariant Prepend(first, DecodeEntries(first.0, entries)) == PrependAll(readings, DecodeEntries(cum, entries[at..]))
    {
      var delta := FromBE2(entries[at], entries[at + 1]);
      assert entries[at..] != [] && entries[at..][0] == entries[at] && entries[at..][1] == entries[at + 1];
      if delta == 0 {
        return Err(BadSeries(ZeroDelta));
      }
      if cum + delta >= TICKS_PER_EPOCH {
        return Err(BadSeries(CrossesEpoch));
      }
      assert entries[at..][SERIES_ENTRY_LEN..] == entries[at + SERIES_ENTRY_LEN..];
      cum := cum + delta;
      var reading := (cum, FromBE2Signed(entries[at + 2], entries[at + 3]));
      at := at + SERIES_ENTRY_LEN;
      PrependAllSnoc(readings, reading, DecodeEntries(cum, entries[at..]));
      readings := readings + [reading];
    }
    assert DecodeEntries(cum, entries[at..]) == Ok([]) && readings + [] == readings;
    r := Ok(readings);
  }

  ghost function PrependAll(before: seq<Reading>, r: Result<seq<Reading>>): Result<seq<Reading>> {
    if r.Err? then r else Ok(before + r.value)
  }

  lemma PrependAllSnoc(before: seq<Reading>, a: Reading, r: Result<seq<Reading>>)
    ensures PrependAll(before, Prepend(a, r)) == PrependAll(before + [a], r)
  {
    if r.Ok? { assert before + ([a] + r.value) == before + [a] + r.value; }
  }

  /** Decoding what was built gives back the readings. */
  lemma {:induction false} EntriesDecodeBack(rs: seq<Reading>)
    requires rs != [] && AllLinked(rs) && InEpoch(rs)
    ensures |Deltas(rs)| % SERIES_ENTRY_LEN == 0
    ensures DecodeEntries(rs[0].0, Deltas(rs)) == Ok(rs[1..])
  {
    if |rs| >= 2 {
      LinkedTail(rs);
      EntriesDecodeBack(rs[1..]);
      EntryDecodes(rs[1].0 - rs[0].0, rs[1].1);
      assert Deltas(rs)[SERIES_ENTRY_LEN..] == Deltas(rs[1..]);
      assert rs[1..] == [rs[1]] + rs[1..][1..];
    }
  }

  /** Building what was decoded gives back the bytes. */
  lemma {:induction false} EntriesRebuild(a: Reading, es: seq<byte>)
    requires |es| % SERIES_ENTRY_LEN == 0 && a.0 < TICKS_PER_EPOCH && DecodeEntries(a.0, es).Ok?
    ensures var rs := [a] + DecodeEntries(a.0, es).value;
      AllLinked(rs) && InEpoch(rs) && Deltas(rs) == es && (|rs| == 1 <==> es == [])
    decreases |es|
  {
    if es != [] {
      var b := (a.0 + FromBE2(es[0], es[1]), FromBE2Signed(es[2], es[3]));
      var tail := es[SERIES_ENTRY_LEN..];
      EntriesRebuild(b, tail);
      var rest := [b] + DecodeEntries(b.0, tail).value;
      LinkedCons(a, rest);
      assert ([a] + rest)[1..] == rest;
      EntryEncodes(es[0], es[1], es[2], es[3]);
      assert es == [es[0], es[1], es[2], es[3]] + tail;
    }
  }

  /**
   * SERIES is a bijection: a payload is accepted at `anchor` with these readings if and only if the
   * readings are ones a SERIES can carry, start at the anchor, and build exactly that payload.
   */
  lemma SeriesBijection(p: seq<byte>, anchor: u32, scale: byte, rs: seq<Reading>)
    ensures DecodeSeries(p, anchor) == Ok((scale, rs))
       <==> ScaleIsValid(scale) && SeriesReadings(rs) && rs[0].0 == anchor && p == SeriesBytes(scale, rs)
  {
    if ScaleIsValid(scale) && SeriesReadings(rs) && rs[0].0 == anchor && p == SeriesBytes(scale, rs) {
      BuiltDecodes(scale, rs);
    }
    if DecodeSeries(p, anchor) == Ok((scale, rs)) {
      DecodedBuilds(p, anchor);
    }
  }

  lemma DecodedBuilds(p: seq<byte>, anchor: u32)
    requires DecodeSeries(p, anchor).Ok?
    ensures var (scale, rs) := DecodeSeries(p, anchor).value;
      ScaleIsValid(scale) && SeriesReadings(rs) && rs[0].0 == anchor && p == SeriesBytes(scale, rs)
  {
    EntriesRebuild((anchor, FromBE2Signed(p[1], p[2])), p[NUMBER_PAYLOAD_LEN..]);
    BE2SignedInverse(p[1], p[2]);
    assert p == [p[0], p[1], p[2]] + p[NUMBER_PAYLOAD_LEN..];
  }

  lemma BuiltDecodes(scale: byte, rs: seq<Reading>)
    requires ScaleIsValid(scale) && SeriesReadings(rs)
    ensures DecodeSeries(SeriesBytes(scale, rs), rs[0].0) == Ok((scale, rs))
  {
    var p := SeriesBytes(scale, rs);
    EntriesDecodeBack(rs);
    LinkedTail(rs);
    assert p[NUMBER_PAYLOAD_LEN..] == Deltas(rs);
    assert rs == [rs[0]] + rs[1..];
    NumberBijection(NumberBytes(scale, rs[0].1), scale, rs[0].1);
  }
}
