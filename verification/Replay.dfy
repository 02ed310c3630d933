/** Sliding replay bitmap over tick space (PROTOCOL.md 10.2), per sender per epoch. */
module Replay {
  import opened Basics
  import opened Words

  /**
   * The rule the bitmap speeds up, stated over everything accepted so far: nothing was accepted
   * yet, or `off` is beyond all of it, or `off` is new and less than `entries` below the newest.
   */
  ghost predicate Fresh(accepted: set<u32>, entries: nat, off: u32) {
    || accepted == {}
    || (forall o :: o in accepted ==> o < off)
    || (off !in accepted && forall o :: o in accepted ==> o - off < entries)
  }

  /** 64 words of 64 ticks: one second. */
  const DEFAULT_WINDOW_WORDS: nat := 64

  /** `(WORDS * 64) as u32`: the cast truncates. */
  function Entries(words: nat): u32 { words * WORD_BITS % 0x1_0000_0000 }

  lemma EntriesFit(words: nat)
    ensures Entries(words) <= words * WORD_BITS
  {
  }

  /**
   * The compile-time check `WORDS > 0` does not by itself keep the ring modulus positive: the cast
   * keeps the word count modulo 2^26, which is zero exactly at its multiples.
   */
  lemma EntriesVanish(words: nat)
    ensures Entries(words) == words % 0x400_0000 * WORD_BITS
  {
    EntriesOf(words, words / 0x400_0000, words % 0x400_0000);
  }

  lemma EntriesOf(words: nat, q: nat, r: nat)
    requires words == q * 0x400_0000 + r && r < 0x400_0000
    ensures Entries(words) == r * WORD_BITS
  {
    assert words * WORD_BITS == q * 0x1_0000_0000 + r * WORD_BITS;
  }

  /** `u32::wrapping_add`. */
  function WrappingAdd(a: u32, b: u32): (r: u32)
    ensures a + b <= U32_MAX ==> r == a + b
  {
    (a + b) % 0x1_0000_0000
  }

  /** Bit of ring index `r`. */
  predicate Marked(bits: seq<u64>, r: nat)
    requires r < |bits| * WORD_BITS
  {
    Bit(bits[r / WORD_BITS], r % WORD_BITS)
  }

  function WithMark(bits: seq<u64>, r: nat): (bits': seq<u64>)
    requires r < |bits| * WORD_BITS
    ensures |bits'| == |bits|
  {
    var w := r / WORD_BITS;
    WordOpsFit(bits[w], r % WORD_BITS);
    bits[w := OrBit(bits[w], r % WORD_BITS)]
  }

  function WithoutMark(bits: seq<u64>, r: nat): (bits': seq<u64>)
    requires r < |bits| * WORD_BITS
    ensures |bits'| == |bits|
  {
    var w := r / WORD_BITS;
    WordOpsFit(bits[w], r % WORD_BITS);
    bits[w := AndNotBit(bits[w], r % WORD_BITS)]
  }

  lemma MarkChangesOne(bits: seq<u64>, r: nat, q: nat)
    requires r < |bits| * WORD_BITS && q < |bits| * WORD_BITS
    ensures Marked(WithMark(bits, r), q) <==> q == r || Marked(bits, q)
    ensures Marked(WithoutMark(bits, r), q) <==> q != r && Marked(bits, q)
  {
    if r / WORD_BITS == q / WORD_BITS {
      OrBitSets(bits[r / WORD_BITS], r % WORD_BITS, q % WORD_BITS);
      AndNotBitClears(bits[r / WORD_BITS], r % WORD_BITS, q % WORD_BITS);
      if r % WORD_BITS == q % WORD_BITS { SlotsDistinct(r, q); }
    }
  }

  /**
   * The bitmap agrees with `accepted` on the `entries` offsets that end at `high`: of all offsets
   * sharing a ring index, exactly one lies in that span, and the bit speaks for that one.
   */
  ghost predicate Covers(bits: seq<u64>, entries: u32, accepted: set<u32>, high: u32)
    requires 0 < entries <= |bits| * WORD_BITS
  {
    forall o: u32 :: high - entries < o <= high ==> (Marked(bits, o % entries) <==> o in accepted)
  }

  /** One clearing step: the span moves up by one, over an offset that was never accepted. */
  lemma SlideByOne(bits: seq<u64>, entries: u32, accepted: set<u32>, high: u32)
    requires 0 < entries <= |bits| * WORD_BITS
    requires Covers(bits, entries, accepted, high)
    requires high < U32_MAX && high + 1 !in accepted
    ensures Covers(WithoutMark(bits, (high + 1) % entries), entries, accepted, high + 1)
  {
    forall o: u32 | high + 1 - entries < o <= high + 1
      ensures Marked(WithoutMark(bits, (high + 1) % entries), o % entries) <==> o in accepted
    {
      MarkChangesOne(bits, (high + 1) % entries, o % entries);
      if o < high + 1 { NearResiduesDiffer(o, high + 1, entries); }
    }
  }

  /** A span holding no accepted offset has every bit clear, so it may jump any distance up. */
  lemma JumpWhenClear(bits: seq<u64>, entries: u32, accepted: set<u32>, high: u32, high': u32)
    requires 0 < entries <= |bits| * WORD_BITS
    requires Covers(bits, entries, accepted, high) && entries <= high + 1 <= high'
    requires forall o :: o in accepted ==> o <= high - entries
    ensures Covers(bits, entries, accepted, high')
  {
    forall o: u32 | high' - entries < o <= high'
      ensures Marked(bits, o % entries) <==> o in accepted
    {
      var y := ResidueInRange(o, high + 1 - entries, entries);
    }
  }

  /** Accepting an offset inside the span sets exactly its own bit. */
  lemma MarkAccepts(bits: seq<u64>, entries: u32, accepted: set<u32>, high: u32, off: u32)
    requires 0 < entries <= |bits| * WORD_BITS
    requires Covers(bits, entries, accepted, high) && high - entries < off <= high
    ensures Covers(WithMark(bits, off % entries), entries, accepted + {off}, high)
  {
    forall o: u32 | high - entries < o <= high
      ensures Marked(WithMark(bits, off % entries), o % entries) <==> o in accepted + {off}
    {
      MarkChangesOne(bits, off % entries, o % entries);
      if o < off { NearResiduesDiffer(o, off, entries); }
      if off < o { NearResiduesDiffer(off, o, entries); }
    }
  }

  /** An all-zero bitmap covers the empty history. */
  lemma ZeroCovers(bits: seq<u64>, entries: u32, high: u32)
    requires 0 < entries <= |bits| * WORD_BITS
    requires forall i :: 0 <= i < |bits| ==> bits[i] == 0
    ensures Covers(bits, entries, {}, high)
  {
    forall o: u32 | high - entries < o <= high
      ensures !Marked(bits, o % entries)
    {
      ZeroHasNoBit(o % entries % WORD_BITS);
    }
  }

  class ReplayWindow {
    var high: Option<u32>
    const bits: array<u64>
    /** `ENTRIES`: how many ticks this window covers. */
    const entries: u32
    /** Every offset this window ever accepted, however long ago. */
    ghost var accepted: set<u32>

    ghost predicate Valid()
      reads this, bits
    {
      && entries <= bits.Length * WORD_BITS
      && (high.None? ==> accepted == {} && forall i :: 0 <= i < bits.Length ==> bits[i] == 0)
      && (high.Some? ==>
            && entries > 0 && high.value in accepted
            && (forall o :: o in accepted ==> o <= high.value)
            && Covers(bits[..], entries, accepted, high.value))
    }

    /** Any word count, even one whose entry count the cast to 32 bits makes zero. */
    constructor (words: nat)
      ensures Valid() && accepted == {} && high == None
      ensures entries == Entries(words) && fresh(bits)
    {
      high := None;
      entries := Entries(words);
      bits := new u64[words](_ => 0);
      accepted := {};
      new;
      EntriesFit(words);
    }

    method Mark(off: u32)
      requires 0 < entries <= bits.Length * WORD_BITS
      modifies bits
      ensures bits[..] == WithMark(old(bits[..]), off % entries)
    {
      var idx := off % entries;
      var w := idx / WORD_BITS;
      WordOpsFit(bits[w], idx % WORD_BITS);
      bits[w] := OrBit(bits[w], idx % WORD_BITS);
    }

    method Unmark(off: u32)
      requires 0 < entries <= bits.Length * WORD_BITS
      modifies bits
      ensures bits[..] == WithoutMark(old(bits[..]), off % entries)
    {
      var idx := off % entries;
      var w := idx / WORD_BITS;
      WordOpsFit(bits[w], idx % WORD_BITS);
      bits[w] := AndNotBit(bits[w], idx % WORD_BITS);
    }

    predicate Seen(off: u32)
      requires 0 < entries <= bits.Length * WORD_BITS
      reads this, bits
    {
      Marked(bits[..], off % entries)
    }

    /** Decide by the rule, and record what it lets through. With no entries there is no ring index: the source stops. */
    method CheckAndSet(off: u32) returns (r: Result<()>)
      requires Valid() && entries > 0
      modifies this, bits
      ensures Valid()
      ensures r == if Fresh(old(accepted), entries, off) then Ok(()) else Err(Error.Replay)
      ensures accepted == if r.Ok? then old(accepted) + {off} else old(accepted)
      ensures r.Err? ==> high == old(high) && bits[..] == old(bits[..])
    {
      match high {
        case None =>
          ZeroCovers(bits[..], entries, off);
          MarkAccepts(bits[..], entries, accepted, off, off);
          high := Some(off);
          Mark(off);
          accepted := accepted + {off};
          r := Ok(());
        case Some(hi) =>
          if off > hi {
            SlidePast(hi, off);
            MarkAccepts(bits[..], entries, accepted, off, off);
            high := Some(off);
            Mark(off);
            accepted := accepted + {off};
            r := Ok(());
          } else if hi - off >= entries {
            r := Err(Error.Replay);
          } else if Seen(off) {
            r := Err(Error.Replay);
          } else {
            MarkAccepts(bits[..], entries, accepted, hi, off);
            Mark(off);
            accepted := accepted + {off};
            r := Ok(());
          }
      }
    }

    /** Clear the span slid past, so that wrapped indices are not stale. */
    method SlidePast(hi: u32, off: u32)
      requires Valid() && high == Some(hi) && hi < off
      modifies bits
      ensures Covers(bits[..], entries, accepted, off)
    {
      var advance := if off - hi < entries then off - hi else entries;
      for i := 0 to advance
        invariant Covers(bits[..], entries, accepted, hi + i)
      {
        var clear := WrappingAdd(hi, i + 1);
        SlideByOne(bits[..], entries, accepted, hi + i);
        Unmark(clear);
      }
      if advance < off - hi {
        JumpWhenClear(bits[..], entries, accepted, hi + advance, off);
      }
    }
  }
}
