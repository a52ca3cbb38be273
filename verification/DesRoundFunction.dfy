/** What each bit of the round function is, in the terms of the standard. */
module DesRoundFunction {
  import opened BitTables
  import opened DesTables
  import opened DesSpec

  /** Bit `n` of forty-eight. */
  predicate GreatBit(g: Great, n: nat)
    requires 1 <= n <= 48
  {
    if n <= 16 then BitOf(g.r, n) else if n <= 32 then BitOf(g.c, n - 16) else BitOf(g.l, n - 32)
  }

  predicate Short(w: bv32) {
    w < 0x1_0000
  }

  predicate Thin(g: Great) {
    Short(g.l) && Short(g.c) && Short(g.r)
  }

  // ---- The forty-eight bits in two words of four sixes

  lemma LowFourBit(ie: Great, n: nat)
    requires Thin(ie) && 1 <= n <= 32
    ensures BitOf(Beside(ie.c, ie.r), n) == GreatBit(ie, n)
  {
    BesideIsOr(ie.c, ie.r);
    hide Beside, BitOf, Or, Short;
    if n <= 16 {
      LowHalf(ie.c, ie.r, n);
    } else {
      HighHalf(ie.c, ie.r, n - 16);
    }
  }

  function Or(c: bv32, r: bv32): bv32 {
    (c << 16) | r
  }

  lemma BesideIsOr(c: bv32, r: bv32)
    requires Short(r)
    ensures Beside(c, r) == Or(c, r)
  {
    NoCarryLow(c, r);
  }

  lemma NoCarryLow(c: bv32, r: bv32)
    requires r < 0x1_0000
    ensures (c << 16) + r == (c << 16) | r
  {
  }

  lemma LowHalf(c: bv32, r: bv32, n: nat)
    requires Short(c) && Short(r) && 1 <= n <= 16
    ensures BitOf(Or(c, r), n) == BitOf(r, n)
  {
    if n <= 8 {
    } else {
    }
  }

  lemma HighHalf(c: bv32, r: bv32, n: nat)
    requires Short(c) && Short(r) && 1 <= n <= 16
    ensures BitOf(Or(c, r), n + 16) == BitOf(c, n)
  {
    if n <= 8 {
    } else {
    }
  }

  lemma HighFourBit(ie: Great, n: nat)
    requires Thin(ie) && 1 <= n <= 24
    ensures BitOf(Above(ie.l, ie.c), n) == GreatBit(ie, n + 24)
  {
    hide Above, BitOf, OrTop, Short;
    AboveIsOr(ie.l, ie.c);
    if n <= 8 {
      LowEight(ie.l, ie.c, n);
    } else {
      HighSixteen(ie.l, ie.c, n - 8);
    }
  }

  function OrTop(l: bv32, c: bv32): bv32 {
    (l << 8) | (c >> 8)
  }

  lemma AboveIsOr(l: bv32, c: bv32)
    requires Short(c)
    ensures Above(l, c) == OrTop(l, c)
  {
    NoCarryHigh(l, c);
  }

  lemma NoCarryHigh(l: bv32, c: bv32)
    requires c < 0x1_0000
    ensures (l << 8) + (c >> 8) == (l << 8) | (c >> 8)
  {
  }

  lemma LowEight(l: bv32, c: bv32, n: nat)
    requires Short(l) && Short(c) && 1 <= n <= 8
    ensures BitOf(OrTop(l, c), n) == BitOf(c, n + 8)
  {
  }

  lemma HighSixteen(l: bv32, c: bv32, n: nat)
    requires Short(l) && Short(c) && 1 <= n <= 16
    ensures BitOf(OrTop(l, c), n + 8) == BitOf(l, n)
  {
    if n <= 8 {
    } else {
    }
  }

  // ---- The six bits of a box

  lemma SixAtBit(w: bv32, n: nat, u: nat)
    requires n <= 3 && 1 <= u <= 6
    ensures BitOf(SixAt(w, n), u) == BitOf(w, 6 * n + u)
  {
    hide SixAt, BitOf;
    if n == 0 {
      FirstSix(w, u);
    } else if n == 1 {
      SecondSix(w, u);
    } else if n == 2 {
      ThirdSix(w, u);
    } else {
      FourthSix(w, u);
    }
  }

  lemma FirstSix(w: bv32, u: nat)
    requires 1 <= u <= 6
    ensures BitOf(SixAt(w, 0), u) == BitOf(w, u)
  {
  }

  lemma SecondSix(w: bv32, u: nat)
    requires 1 <= u <= 6
    ensures BitOf(SixAt(w, 1), u) == BitOf(w, u + 6)
  {
  }

  lemma ThirdSix(w: bv32, u: nat)
    requires 1 <= u <= 6
    ensures BitOf(SixAt(w, 2), u) == BitOf(w, u + 12)
  {
  }

  lemma FourthSix(w: bv32, u: nat)
    requires 1 <= u <= 6
    ensures BitOf(SixAt(w, 3), u) == BitOf(w, u + 18)
  {
  }

  /** A box reads six consecutive bits of the forty-eight. */
  lemma SixBit(ie: Great, jj: nat, u: nat)
    requires Thin(ie) && 1 <= jj <= 8 && 1 <= u <= 6
    ensures BitOf(Six(ie, jj), u) == GreatBit(ie, 6 * (jj - 1) + u)
  {
    hide BitOf, Beside, Above, SixAt, Thin;
    if jj <= 4 {
      SixAtBit(Beside(ie.c, ie.r), jj - 1, u);
      LowFourBit(ie, 6 * (jj - 1) + u);
    } else {
      SixAtBit(Above(ie.l, ie.c), jj - 5, u);
      HighFourBit(ie, 6 * (jj - 5) + u);
    }
  }

  function Weight(b: bool, n: nat): nat {
    if b then n else 0
  }

  /** The row comes from the outer two bits and the column from the inner four, first bit highest. */
  lemma RowAndColumn(j: bv32)
    ensures RowOf(j) as int == Weight(BitOf(j, 1), 2) + Weight(BitOf(j, 6), 1)
    ensures ColumnOf(j) as int
         == Weight(BitOf(j, 2), 8) + Weight(BitOf(j, 3), 4) + Weight(BitOf(j, 4), 2) + Weight(BitOf(j, 5), 1)
  {
    assert RowOf(j) == WordWeight(BitOf(j, 1), 2) + WordWeight(BitOf(j, 6), 1);
    assert ColumnOf(j)
        == WordWeight(BitOf(j, 2), 8) + WordWeight(BitOf(j, 3), 4) + WordWeight(BitOf(j, 4), 2) + WordWeight(BitOf(j, 5), 1);
  }

  function WordWeight(b: bool, n: bv32): bv32 {
    if b then n else 0
  }

  // ---- The substituted bits

  lemma NibbleMoved(w: bv32, n: bv32, i: nat)
    requires n < 16 && 1 <= i <= 28
    ensures BitOf(AddNibble(w, n), i + 4) == BitOf(w, i)
  {
    hide Push, BitOf, AddNibble;
    NibblePushed(w, n);
    var w3 := Push(w, BitOf(n, 4));
    var w2 := Push(w3, BitOf(n, 3));
    var w1 := Push(w2, BitOf(n, 2));
    PushedBit(w, BitOf(n, 4), i);
    PushedBit(w3, BitOf(n, 3), i + 1);
    PushedBit(w2, BitOf(n, 2), i + 2);
    PushedBit(w1, BitOf(n, 1), i + 3);
  }

  lemma NibblePushed(w: bv32, n: bv32)
    requires n < 16
    ensures AddNibble(w, n) == Push(Push(Push(Push(w, BitOf(n, 4)), BitOf(n, 3)), BitOf(n, 2)), BitOf(n, 1))
  {
  }

  lemma NibbleKept(w: bv32, n: bv32, i: nat)
    requires n < 16 && 1 <= i <= 4
    ensures BitOf(AddNibble(w, n), i) == BitOf(n, i)
  {
  }

  /** Bit `i` of a number below sixteen, the highest bit first. */
  predicate NibbleBit(n: Nibble, i: nat)
    requires 1 <= i <= 4
  {
    if i == 1 then n >= 8 else if i == 2 then n % 8 >= 4 else if i == 3 then n % 4 >= 2 else n % 2 == 1
  }

  lemma IbinReverses(n: Nibble, i: nat)
    requires 1 <= i <= 4
    ensures BitOf(Ibin(n), i) == NibbleBit(n, i)
  {
  }

  /** Four bits of the substituted word for each box, the entry's high bit first. */
  lemma {:induction false} SubstitutedBit(ie: Great, lo: nat, jj: nat, i: nat)
    requires 1 <= lo <= jj <= 8 && 1 <= i <= 4
    ensures var j := Six(ie, jj);
            BitOf(Substituted(ie, lo), 4 * (jj - lo) + i) == NibbleBit(Entry(ColumnOf(j) as int, RowOf(j) as int, jj), i)
    decreases jj - lo
  {
    hide BitOf, AddNibble, Six, Entry, Ibin, ColumnOf, RowOf;
    var j := Six(ie, lo);
    var e := Entry(ColumnOf(j) as int, RowOf(j) as int, lo);
    IbinReverses(e, i);
    if lo == jj {
      NibbleKept(Substituted(ie, lo + 1), Ibin(e), i);
    } else {
      SubstitutedBit(ie, lo + 1, jj, i);
      NibbleMoved(Substituted(ie, lo + 1), Ibin(e), 4 * (jj - lo - 1) + i);
    }
  }

  // ---- The round function

  /** The bit that enters box `jj` as its `u`th: an expanded bit of the half block plus a key bit. */
  predicate Entering(ir: bv32, k: Great, jj: nat, u: nat)
    requires 1 <= jj <= 8 && 1 <= u <= 6
  {
    PairBit(Alone(ir), Iet(6 * (jj - 1) + u), 32) != GreatBit(k, 6 * (jj - 1) + u)
  }

  lemma ExpandedThin(ir: bv32)
    ensures Thin(Expanded(ir))
  {
    ShortGather(Alone(ir), Iet, 1, 16, 32);
    ShortGather(Alone(ir), Iet, 17, 32, 32);
    ShortGather(Alone(ir), Iet, 33, 48, 32);
  }

  /** Sixteen gathered bits fit in sixteen bits. */
  lemma ShortGather(source: Immense, table: nat -> Position, lo: nat, hi: nat, width: nat)
    requires 1 <= width <= 32 && hi + 1 - lo == 16
    ensures Short(Gather(source, table, lo, hi, width))
  {
    hide Gather, BitOf;
    var w := Gather(source, table, lo, hi, width);
    forall i: nat | 17 <= i <= 32 ensures !BitOf(w, i) {
      GatheredSmall(source, table, lo, hi, width, i);
    }
    HighHalfClear(w);
  }

  lemma HighHalfClear(w: bv32)
    requires forall i: nat | 17 <= i <= 32 :: !BitOf(w, i)
    ensures Short(w)
  {
    assert !BitOf(w, 17) && !BitOf(w, 18) && !BitOf(w, 19) && !BitOf(w, 20);
    assert !BitOf(w, 21) && !BitOf(w, 22) && !BitOf(w, 23) && !BitOf(w, 24);
    assert !BitOf(w, 25) && !BitOf(w, 26) && !BitOf(w, 27) && !BitOf(w, 28);
    assert !BitOf(w, 29) && !BitOf(w, 30) && !BitOf(w, 31) && !BitOf(w, 32);
  }

  lemma KeyedThin(ie: Great, k: Great)
    requires Thin(ie) && Thin(k)
    ensures Thin(Keyed(ie, k))
  {
    ShortXor(ie.l, k.l);
    ShortXor(ie.c, k.c);
    ShortXor(ie.r, k.r);
    hide Short, Xor;
  }

  lemma ShortXor(v: bv32, w: bv32)
    requires Short(v) && Short(w)
    ensures Short(Xor(v, w))
  {
  }

  lemma KeyedBit(ie: Great, k: Great, n: nat)
    requires 1 <= n <= 48
    ensures GreatBit(Keyed(ie, k), n) == (GreatBit(ie, n) != GreatBit(k, n))
  {
    hide BitOf, Xor;
    if n <= 16 {
      XorBit(ie.r, k.r, n);
    } else if n <= 32 {
      XorBit(ie.c, k.c, n - 16);
    } else {
      XorBit(ie.l, k.l, n - 32);
    }
  }

  lemma ExpandedBit(ir: bv32, n: nat)
    requires 1 <= n <= 48
    ensures GreatBit(Expanded(ir), n) == PairBit(Alone(ir), Iet(n), 32)
  {
    hide BitOf, Gather, PairBit, Iet;
    if n <= 16 {
      GatheredBit(Alone(ir), Iet, 1, 16, 32, n);
    } else if n <= 32 {
      GatheredBit(Alone(ir), Iet, 17, 32, 32, n - 16);
    } else {
      GatheredBit(Alone(ir), Iet, 33, 48, 32, n - 32);
    }
  }

  lemma EnteringBit(ir: bv32, k: Great, jj: nat, u: nat)
    requires Thin(k) && 1 <= jj <= 8 && 1 <= u <= 6
    ensures BitOf(Six(Keyed(Expanded(ir), k), jj), u) == Entering(ir, k, jj, u)
  {
    hide BitOf, Gather, PairBit, Iet, Expanded, Keyed, Thin, Six, GreatBit;
    var n := 6 * (jj - 1) + u;
    ExpandedThin(ir);
    KeyedThin(Expanded(ir), k);
    SixBit(Keyed(Expanded(ir), k), jj, u);
    KeyedBit(Expanded(ir), k, n);
    ExpandedBit(ir, n);
  }

  /** The table entry that box `jj` selects for its six entering bits. */
  function Selected(ir: bv32, k: Great, jj: nat): Nibble
    requires 1 <= jj <= 8
  {
    Entry(Weight(Entering(ir, k, jj, 2), 8) + Weight(Entering(ir, k, jj, 3), 4)
            + Weight(Entering(ir, k, jj, 4), 2) + Weight(Entering(ir, k, jj, 5), 1),
          Weight(Entering(ir, k, jj, 1), 2) + Weight(Entering(ir, k, jj, 6), 1),
          jj)
  }

  lemma SelectedEntry(ir: bv32, k: Great, jj: nat)
    requires Thin(k) && 1 <= jj <= 8
    ensures var j := Six(Keyed(Expanded(ir), k), jj);
            Entry(ColumnOf(j) as int, RowOf(j) as int, jj) == Selected(ir, k, jj)
  {
    hide BitOf, Entry, Six, Entering, RowOf, ColumnOf, Thin, Expanded, Keyed;
    var j := Six(Keyed(Expanded(ir), k), jj);
    RowAndColumn(j);
    EnteringBit(ir, k, jj, 1);
    EnteringBit(ir, k, jj, 2);
    EnteringBit(ir, k, jj, 3);
    EnteringBit(ir, k, jj, 4);
    EnteringBit(ir, k, jj, 5);
    EnteringBit(ir, k, jj, 6);
  }

  /**
   * Bit `i` of the round function is the bit of a selected entry that the last permutation names:
   * bits 4 jj - 3 to 4 jj come from box `jj`, high bit first.
   */
  lemma RoundFunctionBit(ir: bv32, k: Great, i: nat, jj: nat, t: nat)
    requires Thin(k) && 1 <= i <= 32 && 1 <= jj <= 8 && 1 <= t <= 4 && Ipp(i) == 4 * (jj - 1) + t
    ensures BitOf(CyFun(ir, k), i) == NibbleBit(Selected(ir, k, jj), t)
  {
    hide BitOf, Gather, Substituted, Selected, Keyed, Expanded, Thin, Entry, Six, RowOf, ColumnOf, Ipp;
    var ie := Keyed(Expanded(ir), k);
    GatheredBit(Alone(Substituted(ie, 1)), Ipp, 1, 32, 32, i);
    SubstitutedBit(ie, 1, jj, t);
    SelectedEntry(ir, k, jj);
  }

  /** Every key of a schedule is thin, whatever the halves it comes from. */
  lemma KeysAreThin(icd: Immense)
    ensures Thin(KeyOf(icd))
  {
    hide Gather, Short;
    ShortGather(icd, Ipc2, 1, 16, 28);
    ShortGather(icd, Ipc2, 17, 32, 28);
    ShortGather(icd, Ipc2, 33, 48, 28);
  }
}
