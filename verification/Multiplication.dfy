/** The simulator's 32 x 32 to 64-bit multiplication. */
module Multiplication {
  import opened Words

  /** A signed word as an unsigned one, and back. */
  function Unsigned(x: i32): u32 {
    if x < 0 then x + 0x1_0000_0000 else x
  }

  function Signed(x: u32): i32 {
    if x < 0x8000_0000 then x else x - 0x1_0000_0000
  }

  /** Negation of a signed word, wrapping at the most negative value. */
  function Negate(x: i32): i32 {
    if x == -0x8000_0000 then x else -x
  }

  function Complement(x: u32): u32 {
    0xffff_ffff - x
  }

  // ---- Steps on pairs of words

  /** Adds one pair to another, with the carry noticed by the low word getting smaller. */
  method AddPair(hi: u32, lo: u32, bHi: u32, bLo: u32) returns (hi': u32, lo': u32)
    requires Pair(hi, lo) + Pair(bHi, bLo) < 0x1_0000_0000_0000_0000
    ensures Pair(hi', lo') == Pair(hi, lo) + Pair(bHi, bLo)
  {
    hi', lo' := hi, AddWords(lo, bLo);
    if lo' < bLo {
      hi' := hi' + 1;
    }
    hi' := hi' + bHi;
  }

  method DoublePair(bHi: u32, bLo: u32) returns (hi: u32, lo: u32)
    requires 2 * Pair(bHi, bLo) < 0x1_0000_0000_0000_0000
    ensures Pair(hi, lo) == 2 * Pair(bHi, bLo)
  {
    hi := 2 * bHi;
    if bLo >= 0x8000_0000 {
      hi := hi + 1;
    }
    lo := AddWords(bLo, bLo);
  }

  /** Two's complement of a pair. */
  method NegatePair(hi: u32, lo: u32) returns (hi': u32, lo': u32)
    ensures Pair(hi', lo') == if Pair(hi, lo) == 0 then 0 else 0x1_0000_0000_0000_0000 - Pair(hi, lo)
  {
    hi', lo' := Complement(hi), Complement(lo);
    lo' := AddWords(lo', 1);
    if lo' == 0 {
      hi' := AddWords(hi', 1);
    }
  }

  // ---- The shift-and-add loop

  lemma TwoWords()
    ensures Pow2(64) == 0x1_0000_0000_0000_0000
  {
    WholeWord();
    assert Pow2(40) == 256 * Pow2(32);
    assert Pow2(48) == 256 * Pow2(40);
    assert Pow2(56) == 256 * Pow2(48);
  }

  /** `a`, shifted arithmetically `i` times, against `rest`, the unsigned operand shifted `i` times:
      they agree on the bits still to come. */
  ghost predicate SameLowBits(a: i32, rest: int, i: nat)
    requires i <= 32
  {
    0 <= rest < Pow2(32 - i) && (a == rest || a == rest - Pow2(32 - i))
  }

  /** Shifting both right by one: the copied sign bits never come into play. */
  lemma ShiftKeepsLowBits(a: i32, rest: int, i: nat)
    requires i < 32 && SameLowBits(a, rest, i)
    ensures a % 2 == rest % 2
    ensures SameLowBits(a / 2, rest / 2, i + 1)
    ensures a == 1 ==> rest == 1
  {
  }

  /** One bit of the operand: `sum + rest * b` does not change. */
  lemma OneBit(sum: int, rest: int, b: int)
    requires 0 <= sum && 0 <= rest && 0 <= b
    ensures sum + rest * b == (if rest % 2 == 1 then sum + b else sum) + rest / 2 * (2 * b)
    ensures rest > 0 ==> sum + b <= sum + rest * b
  {
    var h := rest / 2;
    assert rest == 2 * h + rest % 2;
    assert rest * b == h * (2 * b) + rest % 2 * b;
    if rest > 0 {
      NonNegative(rest - 1, b);
    }
  }

  lemma NonNegative(x: int, y: int)
    requires x >= 0 && y >= 0
    ensures x * y >= 0
  {
  }

  lemma ProductFits(u: u32, v: u32)
    ensures 0 <= u * v < 0x1_0000_0000_0000_0000
  {
    NonNegative(u, v);
    NonNegative(u, 0xffff_ffff - v);
    assert u * v == u * 0xffff_ffff - u * (0xffff_ffff - v);
  }

  /** Adds shifted copies of `b` for the bits of `a`, stopping early when no bit is left. */
  method MultiplyWords(a0: i32, b: u32) returns (hi: u32, lo: u32)
    ensures Pair(hi, lo) == Unsigned(a0) * b
  {
    var a, bHi, bLo := a0, 0, b;
    hi, lo := 0, 0;
    ghost var rest, product := Unsigned(a0), Unsigned(a0) * b;
    ProductFits(rest, b);
    WholeWord();
    TwoWords();
    var i := 0;
    while i < 32
      invariant 0 <= i <= 32 && SameLowBits(a, rest, i) && Pair(bHi, bLo) < Pow2(32 + i)
      invariant Pair(hi, lo) + rest * Pair(bHi, bLo) == product
    {
      OneBit(Pair(hi, lo), rest, Pair(bHi, bLo));
      ShiftKeepsLowBits(a, rest, i);
      if a % 2 == 1 {
        hi, lo := AddPair(hi, lo, bHi, bLo);
        if a == 1 {
          return;
        }
      }
      Pow2Grows(33 + i, 64);
      bHi, bLo := DoublePair(bHi, bLo);
      a := a / 2;
      rest := rest / 2;
      i := i + 1;
    }
  }

  /** The exact product of the words, signed or unsigned, in `hi` and `lo`. */
  method Mult(a: i32, b: i32, signedArith: bool) returns (hi: i32, lo: i32)
    ensures signedArith ==> hi * 0x1_0000_0000 + Unsigned(lo) == a * b
    ensures !signedArith ==> Pair(Unsigned(hi), Unsigned(lo)) == Unsigned(a) * Unsigned(b)
  {
    if a == 0 || b == 0 {
      hi, lo := 0, 0;
      return;
    }
    var negative := false;
    var x, y := a, b;
    if signedArith {
      if x < 0 {
        negative := !negative;
        x := Negate(x);
      }
      if y < 0 {
        negative := !negative;
        y := Negate(y);
      }
      ProductSign(a, b);
      ProductRange(Abs(a), Abs(b));
    }
    var h, l := MultiplyWords(x, Unsigned(y));
    if negative {
      h, l := NegatePair(h, l);
    }
    hi, lo := Signed(h), Signed(l);
  }

  function Abs(x: int): int {
    if x < 0 then -x else x
  }

  lemma ProductSign(a: int, b: int)
    ensures a * b == if (a < 0) != (b < 0) then -(Abs(a) * Abs(b)) else Abs(a) * Abs(b)
  {
    assert a < 0 ==> (-a) * b == -(a * b);
    assert b < 0 ==> a * (-b) == -(a * b);
    assert (-a) * (-b) == a * b;
  }

  lemma ProductRange(x: int, y: int)
    requires 0 <= x <= 0x8000_0000 && 0 <= y <= 0x8000_0000
    ensures 0 <= x * y <= 0x4000_0000_0000_0000
    ensures x > 0 && y > 0 ==> x * y > 0
  {
    NonNegative(x, y);
    NonNegative(x, 0x8000_0000 - y);
    assert x * y == x * 0x8000_0000 - x * (0x8000_0000 - y);
    if x > 0 && y > 0 {
      NonNegative(x - 1, y);
      assert x * y == (x - 1) * y + y;
    }
  }
}
