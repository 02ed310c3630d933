/** One `u64` bitmap word and the residue arithmetic of a ring index. */
module Words {
  import opened Basics

  const WORD_BITS: nat := 64

  function Pow2(n: nat): nat
    ensures Pow2(n) > 0
  {
    if n == 0 then 1 else 2 * Pow2(n - 1)
  }

  /** Bit `k` of `w`: `w & (1 << k) != 0`. */
  predicate Bit(w: nat, k: nat) {
    if k == 0 then w % 2 == 1 else Bit(w / 2, k - 1)
  }

  /** `w | (1 << k)`, bit by bit from the low end. */
  function OrBit(w: nat, k: nat): nat {
    if k == 0 then w / 2 * 2 + 1 else OrBit(w / 2, k - 1) * 2 + w % 2
  }

  /** `w & !(1 << k)`, bit by bit from the low end. */
  function AndNotBit(w: nat, k: nat): nat {
    if k == 0 then w / 2 * 2 else AndNotBit(w / 2, k - 1) * 2 + w % 2
  }

  lemma {:induction false} OrBitSets(w: nat, k: nat, j: nat)
    ensures Bit(OrBit(w, k), j) <==> j == k || Bit(w, j)
  {
    if k > 0 && j > 0 {
      OrBitSets(w / 2, k - 1, j - 1);
    }
  }

  lemma {:induction false} AndNotBitClears(w: nat, k: nat, j: nat)
    ensures Bit(AndNotBit(w, k), j) <==> j != k && Bit(w, j)
  {
    if k > 0 && j > 0 {
      AndNotBitClears(w / 2, k - 1, j - 1);
    }
  }

  lemma StaysBelow(half: nat, low: nat, h: nat)
    requires half < h && low < 2
    ensures half * 2 + low < 2 * h
  {
  }

  lemma {:induction false} BitOpsStayInWidth(w: nat, k: nat, n: nat)
    requires w < Pow2(n) && k < n
    ensures OrBit(w, k) < Pow2(n) && AndNotBit(w, k) < Pow2(n)
  {
    var h := Pow2(n - 1);
    assert Pow2(n) == 2 * h && w / 2 < h;
    if k > 0 {
      BitOpsStayInWidth(w / 2, k - 1, n - 1);
      StaysBelow(OrBit(w / 2, k - 1), w % 2, h);
      StaysBelow(AndNotBit(w / 2, k - 1), w % 2, h);
    }
  }

  lemma {:induction false} ZeroHasNoBit(k: nat)
    ensures !Bit(0, k)
  {
    if k > 0 { ZeroHasNoBit(k - 1); }
  }

  lemma {:induction false} Pow2Add(m: nat, n: nat)
    ensures Pow2(m + n) == Pow2(m) * Pow2(n)
  {
    if m > 0 { Pow2Add(m - 1, n); }
  }

  lemma Pow2Double(n: nat, value: nat)
    requires Pow2(n) == value
    ensures Pow2(2 * n) == value * value
  {
    Pow2Add(n, n);
  }

  /** The bit operations on a 64-bit word stay in 64 bits. */
  lemma WordOpsFit(w: u64, k: nat)
    requires k < WORD_BITS
    ensures 0 <= OrBit(w, k) <= U64_MAX && 0 <= AndNotBit(w, k) <= U64_MAX
  {
    hide OrBit, AndNotBit;
    Pow2Of64();
    BitOpsStayInWidth(w, k, WORD_BITS);
  }

  lemma Pow2Of64()
    ensures Pow2(WORD_BITS) == U64_MAX + 1
  {
    var n: nat := 4;
    assert Pow2(n) == 0x10;
    Pow2Double(n, 0x10);
    Pow2Double(2 * n, 0x100);
    Pow2Double(4 * n, 0x1_0000);
    Pow2Double(8 * n, 0x1_0000_0000);
  }

  // --------------------------------------------------------------- residues

  lemma Multiple(k: int, d: nat)
    ensures k >= 1 ==> k * d >= d
    ensures k <= -1 ==> k * d + d <= 0
  {
    if k >= 1 { assert (k - 1) * d >= 0; }
    if k <= -1 { assert (-k - 1) * d >= 0; }
  }

  lemma DivMod(x: int, d: nat, q: int, r: nat)
    requires r < d && x == q * d + r
    ensures x / d == q && x % d == r
  {
    var k := x / d - q;
    assert x == x / d * d + x % d;
    assert k * d == x / d * d - q * d;
    Multiple(k, d);
  }

  /** Fewer than `d` apart, distinct numbers have distinct residues. */
  lemma NearResiduesDiffer(a: int, b: int, d: nat)
    requires a < b < a + d
    ensures a % d != b % d
  {
    var k := b / d - a / d;
    assert k * d == b / d * d - a / d * d;
    Multiple(k, d);
  }

  /** Every residue occurs among `d` consecutive numbers. */
  lemma ResidueInRange(x: int, lo: int, d: nat) returns (y: int)
    requires d > 0
    ensures lo <= y < lo + d && y % d == x % d
  {
    y := lo + (x - lo) % d;
    var q := (x - lo) / d;
    assert x == q * d + y;
    assert y == y / d * d + y % d;
    assert x == (q + y / d) * d + y % d;
    DivMod(x, d, q + y / d, y % d);
  }

  /** A ring index selects a word and a bit, and no two indices share both. */
  lemma SlotsDistinct(r: nat, q: nat)
    requires r / WORD_BITS == q / WORD_BITS && r % WORD_BITS == q % WORD_BITS
    ensures r == q
  {
  }
}
