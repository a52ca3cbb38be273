/** Single bits of 32-bit words, numbered from one at the low end, and words gathered through tables. */
module BitTables {
  /** A pair of words; the bits of `r` come first. */
  datatype Immense = Immense(l: bv32, r: bv32)

  /** The entries of the global table `bit`. */
  function Mask(i: nat): bv32
    requires 1 <= i <= 32
  {
    if i == 1 then 0x1 else if i == 2 then 0x2 else if i == 3 then 0x4 else if i == 4 then 0x8 else
    if i == 5 then 0x10 else if i == 6 then 0x20 else if i == 7 then 0x40 else if i == 8 then 0x80 else
    if i == 9 then 0x100 else if i == 10 then 0x200 else if i == 11 then 0x400 else if i == 12 then 0x800 else
    if i == 13 then 0x1000 else if i == 14 then 0x2000 else if i == 15 then 0x4000 else if i == 16 then 0x8000 else
    if i == 17 then 0x1_0000 else if i == 18 then 0x2_0000 else if i == 19 then 0x4_0000 else
    if i == 20 then 0x8_0000 else if i == 21 then 0x10_0000 else if i == 22 then 0x20_0000 else
    if i == 23 then 0x40_0000 else if i == 24 then 0x80_0000 else if i == 25 then 0x100_0000 else
    if i == 26 then 0x200_0000 else if i == 27 then 0x400_0000 else if i == 28 then 0x800_0000 else
    if i == 29 then 0x1000_0000 else if i == 30 then 0x2000_0000 else if i == 31 then 0x4000_0000 else 0x8000_0000
  }

  /** Each entry is twice the one before, with nothing falling out. */
  lemma MaskDoubles(i: nat)
    requires 1 <= i <= 31
    ensures Mask(i + 1) == Mask(i) << 1 && Mask(i) & 0x8000_0000 == 0
  {
    if i <= 8 {
      assert Mask(2) == Mask(1) << 1 && Mask(3) == Mask(2) << 1 && Mask(4) == Mask(3) << 1 && Mask(5) == Mask(4) << 1;
      assert Mask(6) == Mask(5) << 1 && Mask(7) == Mask(6) << 1 && Mask(8) == Mask(7) << 1 && Mask(9) == Mask(8) << 1;
    } else if i <= 16 {
    } else if i <= 24 {
    } else {
    }
  }

  predicate Hit(w: bv32, m: bv32) {
    w & m != 0
  }

  predicate BitOf(w: bv32, i: nat)
    requires 1 <= i <= 32
  {
    Hit(w, Mask(i))
  }

  function BitValue(b: bool): bv32 {
    if b then 1 else 0
  }

  function AddBit(w: bv32, v: bv32): bv32 {
    (w << 1) | v
  }

  /** The word moved up with one more bit at the low end. */
  function Push(w: bv32, b: bool): bv32 {
    AddBit(w, BitValue(b))
  }

  function Xor(v: bv32, w: bv32): bv32 {
    v ^ w
  }

  // ---- Bits of a pushed word

  lemma PushedBit(w: bv32, b: bool, i: nat)
    requires 1 <= i <= 31
    ensures BitOf(Push(w, b), 1) == b
    ensures BitOf(Push(w, b), i + 1) == BitOf(w, i)
  {
    MaskDoubles(i);
    PushedHit(w, b, Mask(i));
  }

  lemma PushedHit(w: bv32, b: bool, m: bv32)
    requires m & 0x8000_0000 == 0
    ensures Hit(Push(w, b), m << 1) == Hit(w, m)
    ensures Hit(Push(w, b), 1) == b
  {
  }

  // ---- Words from bits

  predicate AllOrNothing(w: bv32, m: bv32) {
    w & m == 0 || w & m == m
  }

  lemma SingleBit(w: bv32, i: nat)
    requires 1 <= i <= 32
    ensures AllOrNothing(w, Mask(i))
  {
  }

  lemma NoDifference(v: bv32, w: bv32, m: bv32)
    requires AllOrNothing(v, m) && AllOrNothing(w, m)
    requires Hit(v, m) == Hit(w, m)
    ensures !Hit(Xor(v, w), m)
  {
  }

  lemma XorHit(v: bv32, w: bv32, m: bv32)
    requires AllOrNothing(v, m) && AllOrNothing(w, m)
    ensures Hit(Xor(v, w), m) == (Hit(v, m) != Hit(w, m))
  {
    if Hit(v, m) == Hit(w, m) {
      NoDifference(v, w, m);
    } else {
    }
  }

  lemma XorBit(v: bv32, w: bv32, i: nat)
    requires 1 <= i <= 32
    ensures BitOf(Xor(v, w), i) == (BitOf(v, i) != BitOf(w, i))
  {
    hide Xor, Mask, Hit, AllOrNothing;
    SingleBit(v, i);
    SingleBit(w, i);
    XorHit(v, w, Mask(i));
  }

  /** A word is determined by its bits. */
  lemma SameBitsSameWord(v: bv32, w: bv32)
    requires forall i: nat | 1 <= i <= 32 :: BitOf(v, i) == BitOf(w, i)
    ensures v == w
  {
    hide BitOf, Xor;
    forall i: nat | 1 <= i <= 32 ensures !BitOf(Xor(v, w), i) {
      XorBit(v, w, i);
    }
    NoBits(Xor(v, w));
    XorFacts(v, w);
  }

  lemma NoBits(w: bv32)
    requires forall i: nat | 1 <= i <= 32 :: !BitOf(w, i)
    ensures w == 0
  {
    assert !BitOf(w, 1) && !BitOf(w, 2) && !BitOf(w, 3) && !BitOf(w, 4);
    assert !BitOf(w, 5) && !BitOf(w, 6) && !BitOf(w, 7) && !BitOf(w, 8);
    assert !BitOf(w, 9) && !BitOf(w, 10) && !BitOf(w, 11) && !BitOf(w, 12);
    assert !BitOf(w, 13) && !BitOf(w, 14) && !BitOf(w, 15) && !BitOf(w, 16);
    assert !BitOf(w, 17) && !BitOf(w, 18) && !BitOf(w, 19) && !BitOf(w, 20);
    assert !BitOf(w, 21) && !BitOf(w, 22) && !BitOf(w, 23) && !BitOf(w, 24);
    assert !BitOf(w, 25) && !BitOf(w, 26) && !BitOf(w, 27) && !BitOf(w, 28);
    assert !BitOf(w, 29) && !BitOf(w, 30) && !BitOf(w, 31) && !BitOf(w, 32);
  }

  lemma XorFacts(v: bv32, w: bv32)
    ensures Xor(v, w) == 0 ==> v == w
    ensures Xor(v, Xor(v, w)) == w
  {
  }

  // ---- Gathering through a table

  /** A bit of a pair, from one. */
  type Position = n: nat | 1 <= n <= 64 witness 1

  /** Bit `n` of a pair whose words hold `width` bits each. */
  predicate PairBit(source: Immense, n: Position, width: nat)
    requires 1 <= width <= 32
  {
    if n <= width then BitOf(source.r, n) else n - width <= 32 && BitOf(source.l, n - width)
  }

  /** The word whose bits are those the table entries `lo` to `hi` select, entry `lo` lowest. */
  function Gather(source: Immense, table: nat -> Position, lo: nat, hi: nat, width: nat): bv32
    requires 1 <= width <= 32
    decreases hi + 1 - lo
  {
    if lo > hi then 0 else Push(Gather(source, table, lo + 1, hi, width), PairBit(source, table(lo), width))
  }

  lemma {:induction false} GatheredBit(source: Immense, table: nat -> Position, lo: nat, hi: nat, width: nat, i: nat)
    requires 1 <= width <= 32 && lo <= hi && 1 <= i <= hi + 1 - lo <= 32
    ensures BitOf(Gather(source, table, lo, hi, width), i) == PairBit(source, table(lo + i - 1), width)
    decreases hi - lo
  {
    hide Push, BitOf;
    var w, b := Gather(source, table, lo + 1, hi, width), PairBit(source, table(lo), width);
    if i == 1 {
      PushedBit(w, b, 1);
    } else {
      PushedBit(w, b, i - 1);
      GatheredBit(source, table, lo + 1, hi, width, i - 1);
    }
  }

  /** The pair rearranged by a table of 64 entries. */
  function Permuted(b: Immense, table: nat -> Position): Immense {
    Immense(Gather(b, table, 33, 64, 32), Gather(b, table, 1, 32, 32))
  }

  lemma PermutedBit(b: Immense, table: nat -> Position, n: Position)
    ensures PairBit(Permuted(b, table), n, 32) == PairBit(b, table(n), 32)
  {
    hide BitOf, Gather;
    if n <= 32 {
      GatheredBit(b, table, 1, 32, 32, n);
    } else {
      GatheredBit(b, table, 33, 64, 32, n - 32);
    }
  }

  lemma SamePair(b: Immense, c: Immense)
    requires forall n: Position :: PairBit(b, n, 32) == PairBit(c, n, 32)
    ensures b == c
  {
    hide BitOf;
    forall i: nat | 1 <= i <= 32 ensures BitOf(b.r, i) == BitOf(c.r, i) && BitOf(b.l, i) == BitOf(c.l, i) {
      var j: Position := i + 32;
      assert PairBit(b, i, 32) == PairBit(c, i, 32) && PairBit(b, j, 32) == PairBit(c, j, 32);
    }
    SameBitsSameWord(b.r, c.r);
    SameBitsSameWord(b.l, c.l);
  }

  /** Permuting by a table and then by its inverse gives the pair back. */
  lemma PermutedBack(b: Immense, before: nat -> Position, after: nat -> Position)
    requires forall n: Position :: before(after(n)) == n
    ensures Permuted(Permuted(b, before), after) == b
  {
    hide Permuted, PairBit;
    var c := Permuted(b, before);
    forall n: Position ensures PairBit(Permuted(c, after), n, 32) == PairBit(b, n, 32) {
      PermutedBit(c, after, n);
      PermutedBit(b, before, after(n));
    }
    SamePair(Permuted(c, after), b);
  }
}
