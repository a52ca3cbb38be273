/** What the eight selection boxes were designed for. */
module DesBoxes {
  import opened DesTables

  /** Two numbers below sixteen that differ in at most one bit. */
  predicate Near(v: nat, w: nat) {
    || v / 2 == w / 2
    || (v % 2 == w % 2 && v / 4 == w / 4)
    || (v % 4 == w % 4 && v / 8 == w / 8)
    || v % 8 == w % 8
  }

  predicate IsBit(d: nat) {
    d == 1 || d == 2 || d == 4 || d == 8
  }

  /** No row of a box repeats a value, so every row is a permutation of the sixteen values. */
  lemma RowsArePermutations(a: nat, b: nat, row: nat, jj: nat)
    requires a < b < 16 && row < 4 && 1 <= jj <= 8
    ensures Entry(a, row, jj) != Entry(b, row, jj)
  {
    hide Entry;
    if jj == 1 {
      Box1Differs(a, b, row);
    } else if jj == 2 {
      Box2Differs(a, b, row);
    } else if jj == 3 {
      Box3Differs(a, b, row);
    } else if jj == 4 {
      Box4Differs(a, b, row);
    } else if jj == 5 {
      Box5Differs(a, b, row);
    } else if jj == 6 {
      Box6Differs(a, b, row);
    } else if jj == 7 {
      Box7Differs(a, b, row);
    } else {
      Box8Differs(a, b, row);
    }
  }

  /** Changing one of the four inner bits of a box, here from 0 to 1, changes at least two of its output bits. */
  lemma InnerBitSpreads(a: nat, d: nat, row: nat, jj: nat)
    requires a < 16 && IsBit(d) && a / d % 2 == 0 && row < 4 && 1 <= jj <= 8
    ensures a + d < 16 && !Near(Entry(a, row, jj), Entry(a + d, row, jj))
  {
    hide Entry, Near;
    if jj == 1 {
      Box1Inner(a, d, row);
    } else if jj == 2 {
      Box2Inner(a, d, row);
    } else if jj == 3 {
      Box3Inner(a, d, row);
    } else if jj == 4 {
      Box4Inner(a, d, row);
    } else if jj == 5 {
      Box5Inner(a, d, row);
    } else if jj == 6 {
      Box6Inner(a, d, row);
    } else if jj == 7 {
      Box7Inner(a, d, row);
    } else {
      Box8Inner(a, d, row);
    }
  }

  /** So does changing one of the two outer bits. */
  lemma OuterBitSpreads(a: nat, r: nat, t: nat, jj: nat)
    requires a < 16 && r < t < 4 && Near(r, t) && 1 <= jj <= 8
    ensures !Near(Entry(a, r, jj), Entry(a, t, jj))
  {
    hide Entry;
    assert r + t != 3;
    hide Near;
    if jj == 1 {
      Box1Outer(a, r, t);
    } else if jj == 2 {
      Box2Outer(a, r, t);
    } else if jj == 3 {
      Box3Outer(a, r, t);
    } else if jj == 4 {
      Box4Outer(a, r, t);
    } else if jj == 5 {
      Box5Outer(a, r, t);
    } else if jj == 6 {
      Box6Outer(a, r, t);
    } else if jj == 7 {
      Box7Outer(a, r, t);
    } else {
      Box8Outer(a, r, t);
    }
  }

  // ---- Box by box

  lemma OneOfBits(d: nat)
    requires IsBit(d)
    ensures d == 1 || d == 2 || d == 4 || d == 8
  {
  }

  lemma OneOfFour(row: nat)
    requires row < 4
    ensures row == 0 || row == 1 || row == 2 || row == 3
  {
  }

  lemma Box1Differs(a: nat, b: nat, row: nat)
    requires a < b < 16 && row < 4
    ensures Entry(a, row, 1) != Entry(b, row, 1)
  {
    OneOfFour(row);
  }

  lemma Box1Inner(a: nat, d: nat, row: nat)
    requires a < 16 && IsBit(d) && a / d % 2 == 0 && row < 4
    ensures a + d < 16 && !Near(Entry(a, row, 1), Entry(a + d, row, 1))
  {
    if row == 0 {
      OneOfBits(d);
    } else if row == 1 {
      OneOfBits(d);
    } else if row == 2 {
      OneOfBits(d);
    } else {
      OneOfBits(d);
    }
  }

  lemma Box1Outer(a: nat, r: nat, t: nat)
    requires a < 16 && r < t < 4 && r + t != 3
    ensures !Near(Entry(a, r, 1), Entry(a, t, 1))
  {
    if a < 8 {
      OneOfFour(r);
    } else {
      OneOfFour(r);
    }
  }

  lemma Box2Differs(a: nat, b: nat, row: nat)
    requires a < b < 16 && row < 4
    ensures Entry(a, row, 2) != Entry(b, row, 2)
  {
    OneOfFour(row);
  }

  lemma Box2Inner(a: nat, d: nat, row: nat)
    requires a < 16 && IsBit(d) && a / d % 2 == 0 && row < 4
    ensures a + d < 16 && !Near(Entry(a, row, 2), Entry(a + d, row, 2))
  {
    if row == 0 {
      OneOfBits(d);
    } else if row == 1 {
      OneOfBits(d);
    } else if row == 2 {
      OneOfBits(d);
    } else {
      OneOfBits(d);
    }
  }

  lemma Box2Outer(a: nat, r: nat, t: nat)
    requires a < 16 && r < t < 4 && r + t != 3
    ensures !Near(Entry(a, r, 2), Entry(a, t, 2))
  {
    if a < 8 {
      OneOfFour(r);
    } else {
      OneOfFour(r);
    }
  }

  lemma Box3Differs(a: nat, b: nat, row: nat)
    requires a < b < 16 && row < 4
    ensures Entry(a, row, 3) != Entry(b, row, 3)
  {
    OneOfFour(row);
  }

  lemma Box3Inner(a: nat, d: nat, row: nat)
    requires a < 16 && IsBit(d) && a / d % 2 == 0 && row < 4
    ensures a + d < 16 && !Near(Entry(a, row, 3), Entry(a + d, row, 3))
  {
    if row == 0 {
      OneOfBits(d);
    } else if row == 1 {
      OneOfBits(d);
    } else if row == 2 {
      OneOfBits(d);
    } else {
      OneOfBits(d);
    }
  }

  lemma Box3Outer(a: nat, r: nat, t: nat)
    requires a < 16 && r < t < 4 && r + t != 3
    ensures !Near(Entry(a, r, 3), Entry(a, t, 3))
  {
    if a < 8 {
      OneOfFour(r);
    } else {
      OneOfFour(r);
    }
  }

  lemma Box4Differs(a: nat, b: nat, row: nat)
    requires a < b < 16 && row < 4
    ensures Entry(a, row, 4) != Entry(b, row, 4)
  {
    OneOfFour(row);
  }

  lemma Box4Inner(a: nat, d: nat, row: nat)
    requires a < 16 && IsBit(d) && a / d % 2 == 0 && row < 4
    ensures a + d < 16 && !Near(Entry(a, row, 4), Entry(a + d, row, 4))
  {
    if row == 0 {
      OneOfBits(d);
    } else if row == 1 {
      OneOfBits(d);
    } else if row == 2 {
      OneOfBits(d);
    } else {
      OneOfBits(d);
    }
  }

  lemma Box4Outer(a: nat, r: nat, t: nat)
    requires a < 16 && r < t < 4 && r + t != 3
    ensures !Near(Entry(a, r, 4), Entry(a, t, 4))
  {
    if a < 8 {
      OneOfFour(r);
    } else {
      OneOfFour(r);
    }
  }

  lemma Box5Differs(a: nat, b: nat, row: nat)
    requires a < b < 16 && row < 4
    ensures Entry(a, row, 5) != Entry(b, row, 5)
  {
    OneOfFour(row);
  }

  lemma Box5Inner(a: nat, d: nat, row: nat)
    requires a < 16 && IsBit(d) && a / d % 2 == 0 && row < 4
    ensures a + d < 16 && !Near(Entry(a, row, 5), Entry(a + d, row, 5))
  {
    if row == 0 {
      OneOfBits(d);
    } else if row == 1 {
      OneOfBits(d);
    } else if row == 2 {
      OneOfBits(d);
    } else {
      OneOfBits(d);
    }
  }

  lemma Box5Outer(a: nat, r: nat, t: nat)
    requires a < 16 && r < t < 4 && r + t != 3
    ensures !Near(Entry(a, r, 5), Entry(a, t, 5))
  {
    if a < 8 {
      OneOfFour(r);
    } else {
      OneOfFour(r);
    }
  }

  lemma Box6Differs(a: nat, b: nat, row: nat)
    requires a < b < 16 && row < 4
    ensures Entry(a, row, 6) != Entry(b, row, 6)
  {
    OneOfFour(row);
  }

  lemma Box6Inner(a: nat, d: nat, row: nat)
    requires a < 16 && IsBit(d) && a / d % 2 == 0 && row < 4
    ensures a + d < 16 && !Near(Entry(a, row, 6), Entry(a + d, row, 6))
  {
    if row == 0 {
      OneOfBits(d);
    } else if row == 1 {
      OneOfBits(d);
    } else if row == 2 {
      OneOfBits(d);
    } else {
      OneOfBits(d);
    }
  }

  lemma Box6Outer(a: nat, r: nat, t: nat)
    requires a < 16 && r < t < 4 && r + t != 3
    ensures !Near(Entry(a, r, 6), Entry(a, t, 6))
  {
    if a < 8 {
      OneOfFour(r);
    } else {
      OneOfFour(r);
    }
  }

  lemma Box7Differs(a: nat, b: nat, row: nat)
    requires a < b < 16 && row < 4
    ensures Entry(a, row, 7) != Entry(b, row, 7)
  {
    OneOfFour(row);
  }

  lemma Box7Inner(a: nat, d: nat, row: nat)
    requires a < 16 && IsBit(d) && a / d % 2 == 0 && row < 4
    ensures a + d < 16 && !Near(Entry(a, row, 7), Entry(a + d, row, 7))
  {
    if row == 0 {
      OneOfBits(d);
    } else if row == 1 {
      OneOfBits(d);
    } else if row == 2 {
      OneOfBits(d);
    } else {
      OneOfBits(d);
    }
  }

  lemma Box7Outer(a: nat, r: nat, t: nat)
    requires a < 16 && r < t < 4 && r + t != 3
    ensures !Near(Entry(a, r, 7), Entry(a, t, 7))
  {
    if a < 8 {
      OneOfFour(r);
    } else {
      OneOfFour(r);
    }
  }

  lemma Box8Differs(a: nat, b: nat, row: nat)
    requires a < b < 16 && row < 4
    ensures Entry(a, row, 8) != Entry(b, row, 8)
  {
    OneOfFour(row);
  }

  lemma Box8Inner(a: nat, d: nat, row: nat)
    requires a < 16 && IsBit(d) && a / d % 2 == 0 && row < 4
    ensures a + d < 16 && !Near(Entry(a, row, 8), Entry(a + d, row, 8))
  {
    if row == 0 {
      OneOfBits(d);
    } else if row == 1 {
      OneOfBits(d);
    } else if row == 2 {
      OneOfBits(d);
    } else {
      OneOfBits(d);
    }
  }

  lemma Box8Outer(a: nat, r: nat, t: nat)
    requires a < 16 && r < t < 4 && r + t != 3
    ensures !Near(Entry(a, r, 8), Entry(a, t, 8))
  {
    if a < 8 {
      OneOfFour(r);
    } else {
      OneOfFour(r);
    }
  }
}
