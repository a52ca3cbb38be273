/** The cyclic redundancy check as division of polynomials over GF(2). */
module CrcSpec {
  import opened Polynomials

  function Twice(c: bv16): bv16 {
    c << 1
  }

  function Xor(c: bv16, d: bv16): bv16 {
    c ^ d
  }

  predicate Top(c: bv16) {
    c & 0x8000 != 0
  }

  /** The bit `k` places below the top one. */
  predicate FromTop(c: bv16, k: nat)
    decreases k
  {
    if k == 0 then Top(c) else FromTop(Twice(c), k - 1)
  }

  /** The coefficient of `x^e`. */
  predicate Bit(c: bv16, e: nat)
    requires e < 16
  {
    FromTop(c, 15 - e)
  }

  /** The polynomial whose coefficients are the bits of a word. */
  function PolyOf(c: bv16): (p: Poly)
    ensures Below(p, 16)
    ensures forall e: nat | e < 16 :: e in p <==> Bit(c, e)
  {
    set e: nat | e < 16 && Bit(c, e)
  }

  /** A byte in the low half of a word, and in the high half. */
  function Low(b: bv8): bv16 {
    b as bv16
  }

  function High(b: bv8): bv16 {
    (b as bv16) << 8
  }

  /** The polynomial of a message: its bits in order, highest power first. */
  function MessagePoly(m: seq<bv8>): Poly {
    if m == [] then {} else Add(Shift(MessagePoly(m[..|m| - 1]), 8), PolyOf(Low(m[|m| - 1])))
  }

  // ---- The register

  /** One turn of the bit loop. */
  function BitStep(c: bv16): bv16 {
    if Top(c) then Xor(Twice(c), 4129) else Twice(c)
  }

  function BitSteps(c: bv16, n: nat): bv16 {
    if n == 0 then c else BitStep(BitSteps(c, n - 1))
  }

  /** Taking in one byte. */
  function ByteStep(c: bv16, b: bv8): bv16 {
    BitSteps(Xor(c, High(b)), 8)
  }

  function BytesStep(c: bv16, m: seq<bv8>): bv16 {
    if m == [] then c else ByteStep(BytesStep(c, m[..|m| - 1]), m[|m| - 1])
  }

  // ---- Words as polynomials

  lemma XorTop(c: bv16, d: bv16)
    ensures Top(Xor(c, d)) == (Top(c) != Top(d))
  {
  }

  lemma TwiceXor(c: bv16, d: bv16)
    ensures Twice(Xor(c, d)) == Xor(Twice(c), Twice(d))
  {
  }

  lemma {:induction false} XorBit(c: bv16, d: bv16, k: nat)
    ensures FromTop(Xor(c, d), k) == (FromTop(c, k) != FromTop(d, k))
    decreases k
  {
    hide Top, Twice, Xor;
    if k == 0 {
      XorTop(c, d);
    } else {
      TwiceXor(c, d);
      XorBit(Twice(c), Twice(d), k - 1);
    }
  }

  lemma XorAdds(c: bv16, d: bv16)
    ensures PolyOf(Xor(c, d)) == Add(PolyOf(c), PolyOf(d))
  {
    hide FromTop, Xor;
    forall e: nat | e < 16 ensures Bit(Xor(c, d), e) == (Bit(c, e) != Bit(d, e)) {
      XorBit(c, d, 15 - e);
    }
  }

  /** A word that has lost all its sixteen bits at the top is zero. */
  lemma {:induction false} Emptied(c: bv16, k: nat)
    requires forall j: nat | j < k :: !FromTop(c, j)
    ensures Times(c, k) == 0 ==> c == 0
    decreases k
  {
    hide Twice, Top;
    if k > 0 {
      assert !FromTop(c, 0);
      forall j: nat | j < k - 1 ensures !FromTop(Twice(c), j) {
        assert !FromTop(c, j + 1);
      }
      Emptied(Twice(c), k - 1);
      TwiceZero(c);
    }
  }

  function Times(c: bv16, k: nat): bv16
    decreases k
  {
    if k == 0 then c else Times(Twice(c), k - 1)
  }

  lemma TwiceZero(c: bv16)
    ensures !Top(c) && Twice(c) == 0 ==> c == 0
  {
  }

  lemma SixteenTimes(c: bv16)
    ensures Times(c, 16) == 0 && !FromTop(c, 16)
  {
    FourTimes(c, 12);
    FourTimes(c << 4, 8);
    FourTimes((c << 4) << 4, 4);
    FourTimes(((c << 4) << 4) << 4, 0);
  }

  lemma FourTimes(c: bv16, k: nat)
    ensures Times(c, k + 4) == Times(c << 4, k)
    ensures FromTop(c, k + 4) == FromTop(c << 4, k)
  {
    assert (((c << 1) << 1) << 1) << 1 == c << 4;
    assert Times(c, k + 4) == Times(c << 1, k + 3) == Times((c << 1) << 1, k + 2);
    assert Times((c << 1) << 1, k + 2) == Times(((c << 1) << 1) << 1, k + 1);
    assert FromTop(c, k + 4) == FromTop(c << 1, k + 3) == FromTop((c << 1) << 1, k + 2);
    assert FromTop((c << 1) << 1, k + 2) == FromTop(((c << 1) << 1) << 1, k + 1);
  }

  lemma XorZero(c: bv16, d: bv16)
    ensures Xor(c, d) == 0 ==> c == d
    ensures Xor(c, c) == 0
    ensures Xor(c, 0) == Xor(0, c) == c
  {
  }

  /** A word is determined by its bits. */
  lemma SameBitsSameWord(c: bv16, d: bv16)
    requires PolyOf(c) == PolyOf(d)
    ensures c == d
  {
    hide FromTop, Xor, Times;
    forall k: nat | k < 16 ensures !FromTop(Xor(c, d), k) {
      XorBit(c, d, k);
      var e := 15 - k;
      assert e in PolyOf(c) <==> Bit(c, e);
      assert e in PolyOf(d) <==> Bit(d, e);
    }
    Emptied(Xor(c, d), 16);
    SixteenTimes(Xor(c, d));
    XorZero(c, d);
  }

  /** Doubling a word multiplies by `x`, losing the sixteenth power. */
  lemma DoublingShifts(c: bv16)
    ensures PolyOf(Twice(c)) == Shift(PolyOf(c), 1) - {16}
    ensures !Top(c) ==> PolyOf(Twice(c)) == Shift(PolyOf(c), 1)
    ensures Top(c) <==> 15 in PolyOf(c)
  {
    hide PolyOf, Top, Twice;
    forall e: nat ensures e in PolyOf(Twice(c)) <==> 1 <= e < 16 && e - 1 in PolyOf(c) {
      DoubledCoefficient(c, e);
    }
    TopCoefficient(c);
  }

  lemma DoubledCoefficient(c: bv16, e: nat)
    ensures e in PolyOf(Twice(c)) <==> 1 <= e < 16 && e - 1 in PolyOf(c)
  {
    hide FromTop, Twice;
    if e == 0 {
      NextBit(c, 15);
      SixteenTimes(c);
    } else if e < 16 {
      NextBit(c, 15 - e);
      assert Bit(Twice(c), e) == Bit(c, e - 1);
    }
  }

  lemma TopCoefficient(c: bv16)
    ensures Top(c) <==> 15 in PolyOf(c)
  {
    assert 15 in PolyOf(c) <==> Bit(c, 15);
  }

  lemma NextBit(c: bv16, k: nat)
    ensures FromTop(Twice(c), k) == FromTop(c, k + 1)
  {
  }

  /** The constant 4129 is the generator without its highest power. */
  lemma GeneratorBits()
    ensures PolyOf(4129) == {0, 5, 12}
  {
    FourBits(0x1021);
    FourBits(0x0210);
    FourBits(0x2100);
    FourBits(0x1000);
    hide FromTop;
    GeneratorNibbles(0);
    GeneratorNibbles(1);
    GeneratorNibbles(2);
    GeneratorNibbles(3);
    forall e: nat | e < 16 ensures Bit(4129, e) <==> e in {0, 5, 12} {
    }
  }

  lemma GeneratorNibbles(k: nat)
    ensures FromTop(0x1021, k + 4) == FromTop(0x0210, k)
    ensures FromTop(0x1021, k + 8) == FromTop(0x2100, k)
    ensures FromTop(0x1021, k + 12) == FromTop(0x1000, k)
  {
    hide FromTop;
    FourTimes(0x1021, k);
    FourTimes(0x1021, k + 4);
    FourTimes(0x1021, k + 8);
    FourTimes(0x0210, k);
    FourTimes(0x0210, k + 4);
    FourTimes(0x2100, k);
  }

  lemma FourBits(c: bv16)
    ensures FromTop(c, 0) == (c & 0x8000 != 0)
    ensures FromTop(c, 1) == (c & 0x4000 != 0)
    ensures FromTop(c, 2) == (c & 0x2000 != 0)
    ensures FromTop(c, 3) == (c & 0x1000 != 0)
  {
    assert FromTop(c, 2) == FromTop(c << 1, 1);
    assert FromTop(c, 3) == FromTop(c << 1, 2) == FromTop((c << 1) << 1, 1);
  }

  /** A byte in the high half is the byte times `x^8`. */
  lemma HighByte(b: bv8)
    ensures PolyOf(High(b)) == Shift(PolyOf(Low(b)), 8)
  {
    var c := Low(b);
    FourDoublings(c);
    FourDoublings(c << 4);
    assert (c << 4) << 4 == High(b);
    ShiftShift(PolyOf(c), 4, 4);
  }

  lemma FourDoublings(c: bv16)
    requires c & 0xF000 == 0
    ensures PolyOf(c << 4) == Shift(PolyOf(c), 4)
  {
    var c1 := Twice(c);
    var c2 := Twice(c1);
    var c3 := Twice(c2);
    assert Twice(c3) == c << 4 && !Top(c) && !Top(c1) && !Top(c2) && !Top(c3);
    hide Top, Twice, PolyOf;
    DoublingShifts(c);
    DoublingShifts(c1);
    DoublingShifts(c2);
    DoublingShifts(c3);
    ShiftShift(PolyOf(c), 1, 1);
    ShiftShift(PolyOf(c), 2, 1);
    ShiftShift(PolyOf(c), 3, 1);
  }

  // ---- The register holds a remainder

  /** One turn multiplies by `x` modulo the generator. */
  lemma BitStepCongruent(c: bv16)
    ensures Congruent(PolyOf(BitStep(c)), Shift(PolyOf(c), 1))
  {
    hide Top, Twice, Xor, PolyOf;
    DoublingShifts(c);
    if Top(c) {
      XorAdds(Twice(c), 4129);
      GeneratorBits();
      LessTheGenerator(Shift(PolyOf(c), 1));
    } else {
      CongruentSelf(Shift(PolyOf(c), 1));
    }
  }

  lemma LessTheGenerator(p: Poly)
    requires 16 in p
    ensures Congruent(Add(p - {16}, {0, 5, 12}), p)
  {
    assert forall e :: e in TimesG({0}) <==> e in {0, 5, 12, 16};
    assert Add(Add(p - {16}, {0, 5, 12}), p) == TimesG({0});
  }

  lemma {:induction false} BitStepsCongruent(c: bv16, n: nat)
    ensures Congruent(PolyOf(BitSteps(c, n)), Shift(PolyOf(c), n))
  {
    hide BitStep, PolyOf, Congruent;
    if n == 0 {
      assert Shift(PolyOf(c), 0) == PolyOf(c);
      CongruentSelf(PolyOf(c));
    } else {
      BitStepsCongruent(c, n - 1);
      BitStepCongruent(BitSteps(c, n - 1));
      CongruentShift(PolyOf(BitSteps(c, n - 1)), Shift(PolyOf(c), n - 1), 1);
      ShiftShift(PolyOf(c), n - 1, 1);
      CongruentTransitive(PolyOf(BitSteps(c, n)), Shift(PolyOf(BitSteps(c, n - 1)), 1), Shift(PolyOf(c), n));
    }
  }

  /** The register and the bytes it has still to see, as one polynomial. */
  function Dividend(c: bv16, m: seq<bv8>): Poly {
    Add(Shift(PolyOf(c), 8 * |m|), Shift(MessagePoly(m), 16))
  }

  lemma ByteStepCongruent(c: bv16, b: bv8)
    ensures Congruent(PolyOf(ByteStep(c, b)), Add(Shift(PolyOf(c), 8), Shift(PolyOf(Low(b)), 16)))
  {
    hide Xor, High, Low, PolyOf, Congruent;
    BitStepsCongruent(Xor(c, High(b)), 8);
    XorAdds(c, High(b));
    HighByte(b);
    ShiftAdd(PolyOf(c), PolyOf(High(b)), 8);
    ShiftShift(PolyOf(Low(b)), 8, 8);
  }

  /** The register is congruent to the message so far times `x^16`, plus its first contents moved up. */
  lemma {:induction false} BytesStepCongruent(c: bv16, m: seq<bv8>)
    ensures Congruent(PolyOf(BytesStep(c, m)), Dividend(c, m))
  {
    hide ByteStep, PolyOf, Congruent, Low;
    if m == [] {
      assert Dividend(c, m) == PolyOf(c);
      CongruentSelf(PolyOf(c));
    } else {
      var h, b := m[..|m| - 1], m[|m| - 1];
      var r := BytesStep(c, h);
      BytesStepCongruent(c, h);
      ByteStepCongruent(r, b);
      CongruentShift(PolyOf(r), Dividend(c, h), 8);
      CongruentAdd(Shift(PolyOf(r), 8), Shift(Dividend(c, h), 8), Shift(PolyOf(Low(b)), 16));
      DividendGrows(c, h, b);
      assert h + [b] == m;
      CongruentTransitive(PolyOf(ByteStep(r, b)), Add(Shift(PolyOf(r), 8), Shift(PolyOf(Low(b)), 16)), Dividend(c, m));
    }
  }

  lemma DividendGrows(c: bv16, h: seq<bv8>, b: bv8)
    ensures Dividend(c, h + [b]) == Add(Shift(Dividend(c, h), 8), Shift(PolyOf(Low(b)), 16))
  {
    hide PolyOf, Low;
    var m, p, q := h + [b], PolyOf(c), MessagePoly(h);
    assert m[..|m| - 1] == h && m[|m| - 1] == b;
    ShiftAdd(Shift(p, 8 * |h|), Shift(q, 16), 8);
    ShiftShift(p, 8 * |h|, 8);
    ShiftShift(q, 16, 8);
    ShiftShift(q, 8, 16);
    ShiftAdd(Shift(q, 8), PolyOf(Low(b)), 16);
    assert 8 * |h| + 8 == 8 * |m|;
    SumsAssociate(Shift(p, 8 * |m|), Shift(q, 24), Shift(PolyOf(Low(b)), 16));
  }

  lemma SumsAssociate(p: Poly, q: Poly, r: Poly)
    ensures Add(Add(p, q), r) == Add(p, Add(q, r))
  {
  }

  /** The register is the only remainder of the dividend modulo the generator. */
  lemma RegisterIsRemainder(c: bv16, m: seq<bv8>, r: Poly)
    ensures Below(r, 16) && Congruent(Dividend(c, m), r) <==> r == PolyOf(BytesStep(c, m))
  {
    hide PolyOf, BytesStep, Congruent;
    var p := PolyOf(BytesStep(c, m));
    BytesStepCongruent(c, m);
    CongruentSwaps(p, Dividend(c, m));
    if Below(r, 16) && Congruent(Dividend(c, m), r) {
      CongruentTransitive(p, Dividend(c, m), r);
      RemainderUnique(p, r);
    }
  }

  lemma CongruentSwaps(p: Poly, q: Poly)
    requires Congruent(p, q)
    ensures Congruent(q, p)
  {
    assert Add(q, p) == Add(p, q);
  }

  // ---- Bursts

  /** No multiple of the generator is a short polynomial moved up. */
  lemma {:induction false} ShiftedIsNoMultiple(b: Poly, n: nat, k: Poly)
    requires Below(b, 16) && Shift(b, n) == TimesG(k)
    ensures b == {}
  {
    hide TimesG;
    if n == 0 {
      assert Shift(b, 0) == b;
      MultipleIsHigh(k);
      TimesZero();
    } else {
      assert 0 !in Shift(b, n);
      var j := DividedByX(k);
      TimesShift(j, 1);
      ShiftShift(b, n - 1, 1);
      UnShift(Shift(b, n - 1), TimesG(j));
      ShiftedIsNoMultiple(b, n - 1, j);
    }
  }

  lemma TimesZero()
    ensures TimesG({}) == {}
  {
  }

  /** A multiple of the generator that `x` divides is the generator times a multiple of `x`. */
  lemma DividedByX(k: Poly) returns (j: Poly)
    requires 0 !in TimesG(k)
    ensures Shift(j, 1) == k
  {
    assert 0 !in k;
    j := set e | e in k :: e - 1;
  }

  lemma UnShift(p: Poly, q: Poly)
    requires Shift(p, 1) == Shift(q, 1)
    ensures p == q
  {
    forall e: nat ensures e in p <==> e in q {
      assert e + 1 in Shift(p, 1) <==> e in p;
      assert e + 1 in Shift(q, 1) <==> e in q;
    }
  }

  /** Two messages of one length that differ in a burst of at most sixteen bits leave different registers. */
  lemma BurstsDetected(c: bv16, m: seq<bv8>, m': seq<bv8>, b: Poly, n: nat)
    requires |m| == |m'| && Add(MessagePoly(m), MessagePoly(m')) == Shift(b, n)
    requires Below(b, 16) && b != {}
    ensures BytesStep(c, m) != BytesStep(c, m')
  {
    hide PolyOf, BytesStep, MessagePoly, TimesG;
    if BytesStep(c, m) == BytesStep(c, m') {
      var p := PolyOf(BytesStep(c, m));
      var q, q' := MessagePoly(m), MessagePoly(m');
      BytesStepCongruent(c, m);
      BytesStepCongruent(c, m');
      CongruentSwaps(p, Dividend(c, m));
      CongruentTransitive(Dividend(c, m), p, Dividend(c, m'));
      var k :| Add(Dividend(c, m), Dividend(c, m')) == TimesG(k);
      CommonPart(Shift(PolyOf(c), 8 * |m|), Shift(q, 16), Shift(q', 16));
      ShiftAdd(q, q', 16);
      ShiftShift(b, n, 16);
      ShiftedIsNoMultiple(b, n + 16, k);
    }
  }

  lemma CommonPart(p: Poly, q: Poly, r: Poly)
    ensures Add(Add(p, q), Add(p, r)) == Add(q, r)
  {
  }

  // ---- The register by table

  function Hi(c: bv16): bv8 {
    (c >> 8) as bv8
  }

  function Lo(c: bv16): bv8 {
    (c & 0xFF) as bv8
  }

  lemma BitStepXor(c: bv16, d: bv16)
    ensures BitStep(Xor(c, d)) == Xor(BitStep(c), BitStep(d))
  {
    hide Top, Twice, Xor;
    XorTop(c, d);
    TwiceXor(c, d);
    XorRegroups(Twice(c), Twice(d), 4129);
  }

  lemma XorRegroups(c: bv16, d: bv16, g: bv16)
    ensures Xor(Xor(c, g), d) == Xor(Xor(c, d), g)
    ensures Xor(c, Xor(d, g)) == Xor(Xor(c, d), g)
    ensures Xor(Xor(c, g), Xor(d, g)) == Xor(c, d)
  {
  }

  /** Turning the register is linear. */
  lemma {:induction false} BitStepsXor(c: bv16, d: bv16, n: nat)
    ensures BitSteps(Xor(c, d), n) == Xor(BitSteps(c, n), BitSteps(d, n))
  {
    hide BitStep, Xor;
    if n > 0 {
      BitStepsXor(c, d, n - 1);
      BitStepXor(BitSteps(c, n - 1), BitSteps(d, n - 1));
    }
  }

  /** Eight turns move a low byte up, with nothing falling out. */
  lemma EightTurnsOfLowByte(b: bv8)
    ensures BitSteps(Low(b), 8) == High(b)
  {
    FourTurns(Low(b));
    FourTurns(Low(b) << 4);
    MoreSteps(Low(b), 4, 4);
    assert (Low(b) << 4) << 4 == High(b);
  }

  lemma FourTurns(c: bv16)
    requires c & 0xF000 == 0
    ensures BitSteps(c, 4) == c << 4
  {
    assert BitSteps(c, 1) == c << 1;
    assert BitSteps(c, 2) == c << 2;
    assert BitSteps(c, 3) == c << 3;
  }

  lemma {:induction false} MoreSteps(c: bv16, m: nat, n: nat)
    ensures BitSteps(c, m + n) == BitSteps(BitSteps(c, m), n)
  {
    hide BitStep;
    if n > 0 {
      MoreSteps(c, m, n - 1);
    }
  }

  /** One step through the table: the entry of the top byte and the new byte, with the low byte moved up. */
  lemma TableStepAgrees(c: bv16, b: bv8)
    ensures ByteStep(c, b) == Xor(BitSteps(High(b ^ Hi(c)), 8), High(Lo(c)))
  {
    SplitWord(c, b);
    hide BitStep, Xor, High, Low, Hi, Lo;
    BitStepsXor(High(b ^ Hi(c)), Low(Lo(c)), 8);
    EightTurnsOfLowByte(Lo(c));
  }

  lemma SplitWord(c: bv16, b: bv8)
    ensures Xor(c, High(b)) == Xor(High(b ^ Hi(c)), Low(Lo(c)))
  {
    HighXor(b, Hi(c));
    TwoHalves(c);
    hide Xor, High, Low, Hi, Lo;
    XorRegroups(High(Hi(c)), High(b), Low(Lo(c)));
    XorSwaps(High(Hi(c)), High(b));
  }

  lemma HighXor(a: bv8, b: bv8)
    ensures High(a ^ b) == Xor(High(a), High(b))
  {
  }

  lemma TwoHalves(c: bv16)
    ensures Xor(High(Hi(c)), Low(Lo(c))) == c
    ensures Low(Lo(c)) | High(Hi(c)) == c
  {
  }

  lemma XorSwaps(c: bv16, d: bv16)
    ensures Xor(c, d) == Xor(d, c)
  {
  }

  // ---- Reflection

  /** The nibble with its bits in the opposite order, from the table `it`. */
  function ReverseNibble(x: bv8): bv8 {
    if x == 0 then 0 else if x == 1 then 8 else if x == 2 then 4 else if x == 3 then 12 else
    if x == 4 then 2 else if x == 5 then 10 else if x == 6 then 6 else if x == 7 then 14 else
    if x == 8 then 1 else if x == 9 then 9 else if x == 10 then 5 else if x == 11 then 13 else
    if x == 12 then 3 else if x == 13 then 11 else if x == 14 then 7 else 15
  }

  function ReverseByte(b: bv8): bv8 {
    (ReverseNibble(b & 0xF) << 4) | ReverseNibble(b >> 4)
  }

  function ReverseWord(c: bv16): bv16 {
    Low(ReverseByte(Hi(c))) | High(ReverseByte(Lo(c)))
  }

  function ReverseBytes(m: seq<bv8>): (r: seq<bv8>)
    ensures |r| == |m|
  {
    if m == [] then [] else ReverseBytes(m[..|m| - 1]) + [ReverseByte(m[|m| - 1])]
  }

  lemma ReverseByteBits(b: bv8)
    ensures ReverseByte(b) & 0x80 != 0 <==> b & 0x01 != 0
    ensures ReverseByte(b) & 0x40 != 0 <==> b & 0x02 != 0
    ensures ReverseByte(b) & 0x20 != 0 <==> b & 0x04 != 0
    ensures ReverseByte(b) & 0x10 != 0 <==> b & 0x08 != 0
    ensures ReverseByte(b) & 0x08 != 0 <==> b & 0x10 != 0
    ensures ReverseByte(b) & 0x04 != 0 <==> b & 0x20 != 0
    ensures ReverseByte(b) & 0x02 != 0 <==> b & 0x40 != 0
    ensures ReverseByte(b) & 0x01 != 0 <==> b & 0x80 != 0
  {
  }

  lemma ReverseByteTwice(b: bv8)
    ensures ReverseByte(ReverseByte(b)) == b
  {
  }

  lemma ReverseWordTwice(c: bv16)
    ensures ReverseWord(ReverseWord(c)) == c
    ensures ReverseByte(Lo(ReverseWord(c))) == Hi(c) && ReverseByte(Hi(ReverseWord(c))) == Lo(c)
  {
    var h, l := ReverseByte(Hi(c)), ReverseByte(Lo(c));
    ReverseByteTwice(Hi(c));
    ReverseByteTwice(Lo(c));
    TwoHalves(c);
    hide ReverseByte;
    HalvesBack(h, l);
  }

  lemma HalvesBack(l: bv8, h: bv8)
    ensures Lo(Low(l) | High(h)) == l && Hi(Low(l) | High(h)) == h
  {
  }

  lemma ReverseAppend(m: seq<bv8>, n: seq<bv8>)
    ensures ReverseBytes(m + n) == ReverseBytes(m) + ReverseBytes(n)
  {
    if n == [] {
      assert m + n == m;
    } else {
      var h := n[..|n| - 1];
      assert (m + n)[..|m + n| - 1] == m + h;
      ReverseAppend(m, h);
    }
  }

  // ---- The whole computation

  /** The register before the first byte. */
  function Start(crc: bv16, jinit: int, jrev: int): bv16 {
    if jinit >= 0 then Low((jinit % 256) as bv8) | High((jinit % 256) as bv8)
    else if jrev < 0 then ReverseWord(crc) else crc
  }

  /** The bytes as the register sees them. */
  function Seen(m: seq<bv8>, jrev: int): seq<bv8> {
    if jrev < 0 then ReverseBytes(m) else m
  }

  /** The register as the caller sees it. */
  function Shown(c: bv16, jrev: int): bv16 {
    if jrev >= 0 then c else ReverseWord(c)
  }

  function Crc(crc: bv16, m: seq<bv8>, jinit: int, jrev: int): bv16 {
    Shown(BytesStep(Start(crc, jinit, jrev), Seen(m, jrev)), jrev)
  }

  /** The result, in the register's own bit order, is the one remainder of the dividend. */
  lemma CrcIsRemainder(crc: bv16, m: seq<bv8>, jinit: int, jrev: int, r: Poly)
    ensures Below(r, 16) && Congruent(Dividend(Start(crc, jinit, jrev), Seen(m, jrev)), r)
            <==> r == PolyOf(Shown(Crc(crc, m, jinit, jrev), jrev))
  {
    hide PolyOf, BytesStep, Congruent, ReverseWord, Start;
    var c := Start(crc, jinit, jrev);
    RegisterIsRemainder(c, Seen(m, jrev), r);
    ReverseWordTwice(BytesStep(c, Seen(m, jrev)));
  }

  /** With the register started at zero it is the remainder of the message times `x^16`. */
  lemma MessageCrcIsRemainder(crc: bv16, m: seq<bv8>, jinit: int, jrev: int, r: Poly)
    requires jinit >= 0 && jinit % 256 == 0 && jrev >= 0
    ensures Below(r, 16) && Congruent(Shift(MessagePoly(m), 16), r) <==> r == PolyOf(Crc(crc, m, jinit, jrev))
  {
    assert Start(crc, jinit, jrev) == 0;
    hide PolyOf, BytesStep, Congruent, MessagePoly;
    ZeroPoly();
    assert Dividend(0, m) == Shift(MessagePoly(m), 16);
    CrcIsRemainder(crc, m, jinit, jrev, r);
  }

  /** Messages of one length that differ in a burst of at most sixteen bits have different results. */
  lemma CrcDetectsBursts(crc: bv16, m: seq<bv8>, m': seq<bv8>, jinit: int, jrev: int, b: Poly, n: nat)
    requires |m| == |m'| && Below(b, 16) && b != {}
    requires Add(MessagePoly(Seen(m, jrev)), MessagePoly(Seen(m', jrev))) == Shift(b, n)
    ensures Crc(crc, m, jinit, jrev) != Crc(crc, m', jinit, jrev)
  {
    hide MessagePoly, BytesStep, ReverseWord, Start;
    var c := Start(crc, jinit, jrev);
    BurstsDetected(c, Seen(m, jrev), Seen(m', jrev), b, n);
    ReverseWordTwice(BytesStep(c, Seen(m, jrev)));
    ReverseWordTwice(BytesStep(c, Seen(m', jrev)));
  }

  lemma ZeroPoly()
    ensures PolyOf(0) == {}
  {
    hide PolyOf, Xor;
    XorZero(0, 0);
    XorAdds(0, 0);
  }

  lemma {:induction false} StepsInTwoChunks(c: bv16, m: seq<bv8>, n: seq<bv8>)
    ensures BytesStep(c, m + n) == BytesStep(BytesStep(c, m), n)
  {
    hide ByteStep;
    if n == [] {
      assert m + n == m;
    } else {
      var h := n[..|n| - 1];
      assert (m + n)[..|m + n| - 1] == m + h;
      StepsInTwoChunks(c, m, h);
    }
  }

  /** Continuing from a result gives the result over the whole, in both bit orders. */
  lemma CrcInTwoChunks(crc: bv16, m: seq<bv8>, n: seq<bv8>, jinit: int, more: int, jrev: int)
    requires more < 0
    ensures Crc(Crc(crc, m, jinit, jrev), n, more, jrev) == Crc(crc, m + n, jinit, jrev)
  {
    hide BytesStep, ReverseWord, ReverseBytes;
    var c := Start(crc, jinit, jrev);
    ReverseWordTwice(BytesStep(c, Seen(m, jrev)));
    ReverseAppend(m, n);
    StepsInTwoChunks(c, Seen(m, jrev), Seen(n, jrev));
  }

  /** The check bytes of a result: high byte first, or low byte first when bits are reversed. */
  function CheckBytes(c: bv16, jrev: int): seq<bv8> {
    if jrev >= 0 then [Hi(c), Lo(c)] else [Lo(c), Hi(c)]
  }

  /** A message followed by its check bytes has result zero. */
  lemma CheckedMessageIsZero(crc: bv16, m: seq<bv8>, jinit: int, jrev: int)
    ensures Crc(crc, m + CheckBytes(Crc(crc, m, jinit, jrev), jrev), jinit, jrev) == 0
  {
    hide BytesStep, ReverseWord, ReverseBytes, ReverseByte;
    var c := Start(crc, jinit, jrev);
    var r := BytesStep(c, Seen(m, jrev));
    var k := CheckBytes(Crc(crc, m, jinit, jrev), jrev);
    ReverseWordTwice(r);
    ReverseAppend(m, k);
    StepsInTwoChunks(c, Seen(m, jrev), Seen(k, jrev));
    SeenPair(ReverseWord(r));
    assert Seen(k, jrev) == [Hi(r), Lo(r)];
    OwnBytesClear(r);
    ReverseZero();
  }

  lemma SeenPair(c: bv16)
    ensures ReverseBytes([Lo(c), Hi(c)]) == [ReverseByte(Lo(c)), ReverseByte(Hi(c))]
  {
    var m := [Lo(c), Hi(c)];
    assert m[..1] == [Lo(c)];
    assert m[..1][..0] == [];
    assert ReverseBytes(m[..1]) == [ReverseByte(Lo(c))];
  }

  lemma ReverseZero()
    ensures ReverseWord(0) == 0
  {
  }

  lemma OwnBytesClear(r: bv16)
    ensures BytesStep(r, [Hi(r), Lo(r)]) == 0
  {
    assert [Hi(r), Lo(r)][..1] == [Hi(r)];
    assert [Hi(r)][..0] == [];
    hide ByteStep;
    assert BytesStep(r, []) == r;
    assert BytesStep(r, [Hi(r)]) == ByteStep(r, Hi(r));
    OwnHighByte(r);
    OwnHighByte(High(Lo(r)));
    OwnParts(r);
  }

  lemma OwnHighByte(r: bv16)
    ensures ByteStep(r, Hi(r)) == High(Lo(r))
  {
    TableStepAgrees(r, Hi(r));
    assert High(Hi(r) ^ Hi(r)) == 0;
    hide ByteStep, Xor, Hi, Lo, High;
    ZeroStays(8);
    XorZero(High(Lo(r)), 0);
  }

  lemma OwnParts(r: bv16)
    ensures Hi(High(Lo(r))) == Lo(r) && High(Lo(High(Lo(r)))) == 0
  {
  }

  lemma {:induction false} ZeroStays(n: nat)
    ensures BitSteps(0, n) == 0
  {
    if n > 0 {
      ZeroStays(n - 1);
    }
  }

  // ---- The start of the register and published check values

  /** A start value from zero on is a byte, put into both halves of the register. */
  lemma StartIsByteTwice(crc: bv16, jinit: int, jrev: int)
    requires jinit >= 0
    ensures var b := (jinit % 256) as bv8; Start(crc, jinit, jrev) == (b as bv16) * 0x101
    ensures Hi(Start(crc, jinit, jrev)) == Lo(Start(crc, jinit, jrev)) == (jinit % 256) as bv8
  {
    ByteTwice((jinit % 256) as bv8);
  }

  lemma ByteTwice(b: bv8)
    ensures Low(b) | High(b) == (b as bv16) * 0x101
    ensures Hi(Low(b) | High(b)) == Lo(Low(b) | High(b)) == b
  {
  }

  /** The digits from one to nine, on which implementations of the polynomial are compared. */
  const DIGITS: seq<bv8> := [0x31, 0x32, 0x33, 0x34, 0x35, 0x36, 0x37, 0x38, 0x39]

  const REVERSED_DIGITS: seq<bv8> := [0x8C, 0x4C, 0xCC, 0x2C, 0xAC, 0x6C, 0xEC, 0x1C, 0x9C]

  /** Taking in a byte, step by step. */
  function Taken(c: bv16, b: bv8): bv16 {
    BitStep(BitStep(BitStep(BitStep(BitStep(BitStep(BitStep(BitStep(Xor(c, High(b))))))))))
  }

  lemma TakenIs(c: bv16, b: bv8)
    ensures ByteStep(c, b) == Taken(c, b)
  {
    hide BitStep;
    var d := Xor(c, High(b));
    assert BitSteps(d, 1) == BitStep(d);
    assert BitSteps(d, 2) == BitStep(BitStep(d));
    assert BitSteps(d, 4) == BitStep(BitStep(BitSteps(d, 2)));
    assert BitSteps(d, 6) == BitStep(BitStep(BitSteps(d, 4)));
    assert BitSteps(d, 8) == BitStep(BitStep(BitSteps(d, 6)));
  }

  lemma NothingTaken(c: bv16)
    ensures BytesStep(c, []) == c
  {
  }

  lemma ByteByByte(c: bv16, m: seq<bv8>, d: bv16, k: nat)
    requires k < |m| && BytesStep(c, m[..k]) == d
    ensures BytesStep(c, m[..k + 1]) == Taken(d, m[k])
  {
    assert m[..k + 1][..k] == m[..k];
    TakenIs(d, m[k]);
  }

  lemma ZerosValues()
    ensures Taken(0x0000, 0x31) == 0x2672 && Taken(0x2672, 0x32) == 0x20B5 && Taken(0x20B5, 0x33) == 0x9752
    ensures Taken(0x9752, 0x34) == 0xD789 && Taken(0xD789, 0x35) == 0x546C && Taken(0x546C, 0x36) == 0x20E4
    ensures Taken(0x20E4, 0x37) == 0x86D6 && Taken(0x86D6, 0x38) == 0x9015 && Taken(0x9015, 0x39) == 0x31C3
  {
  }

  lemma DigitsFromZeros()
    ensures BytesStep(0, DIGITS) == 0x31C3
  {
    hide BytesStep, Taken;
    NothingTaken(0);
    ZerosValues();
    var m := DIGITS;
    assert m[..0] == [] && m[..9] == m;
    ByteByByte(0, m, 0x0000, 0);
    ByteByByte(0, m, 0x2672, 1);
    ByteByByte(0, m, 0x20B5, 2);
    ByteByByte(0, m, 0x9752, 3);
    ByteByByte(0, m, 0xD789, 4);
    ByteByByte(0, m, 0x546C, 5);
    ByteByByte(0, m, 0x20E4, 6);
    ByteByByte(0, m, 0x86D6, 7);
    ByteByByte(0, m, 0x9015, 8);
  }

  lemma OnesValues()
    ensures Taken(0xFFFF, 0x31) == 0xC782 && Taken(0xC782, 0x32) == 0x3DBA && Taken(0x3DBA, 0x33) == 0x5BCE
    ensures Taken(0x5BCE, 0x34) == 0x5349 && Taken(0x5349, 0x35) == 0x4560 && Taken(0x4560, 0x36) == 0x2EF4
    ensures Taken(0x2EF4, 0x37) == 0x7718 && Taken(0x7718, 0x38) == 0xA12B && Taken(0xA12B, 0x39) == 0x29B1
  {
  }

  lemma DigitsFromOnes()
    ensures BytesStep(0xFFFF, DIGITS) == 0x29B1
  {
    hide BytesStep, Taken;
    NothingTaken(0xFFFF);
    OnesValues();
    var m := DIGITS;
    assert m[..0] == [] && m[..9] == m;
    ByteByByte(0xFFFF, m, 0xFFFF, 0);
    ByteByByte(0xFFFF, m, 0xC782, 1);
    ByteByByte(0xFFFF, m, 0x3DBA, 2);
    ByteByByte(0xFFFF, m, 0x5BCE, 3);
    ByteByByte(0xFFFF, m, 0x5349, 4);
    ByteByByte(0xFFFF, m, 0x4560, 5);
    ByteByByte(0xFFFF, m, 0x2EF4, 6);
    ByteByByte(0xFFFF, m, 0x7718, 7);
    ByteByByte(0xFFFF, m, 0xA12B, 8);
  }

  lemma ReversedZerosValues()
    ensures Taken(0x0000, 0x8C) == 0x5004 && Taken(0x5004, 0x4C) == 0xD7BD && Taken(0xD7BD, 0xCC) == 0x1E5A
    ensures Taken(0x1E5A, 0x2C) == 0x4C11 && Taken(0x4C11, 0xAC) == 0xEC2E && Taken(0xEC2E, 0x6C) == 0xBF88
    ensures Taken(0xBF88, 0xEC) == 0xE296 && Taken(0xE296, 0x1C) == 0x98D1 && Taken(0x98D1, 0x9C) == 0x9184
  {
  }

  lemma DigitsFromReversedZeros()
    ensures BytesStep(0, REVERSED_DIGITS) == 0x9184
  {
    hide BytesStep, Taken;
    NothingTaken(0);
    ReversedZerosValues();
    var m := REVERSED_DIGITS;
    assert m[..0] == [] && m[..9] == m;
    ByteByByte(0, m, 0x0000, 0);
    ByteByByte(0, m, 0x5004, 1);
    ByteByByte(0, m, 0xD7BD, 2);
    ByteByByte(0, m, 0x1E5A, 3);
    ByteByByte(0, m, 0x4C11, 4);
    ByteByByte(0, m, 0xEC2E, 5);
    ByteByByte(0, m, 0xBF88, 6);
    ByteByByte(0, m, 0xE296, 7);
    ByteByByte(0, m, 0x98D1, 8);
  }

  lemma ReversedOnesValues()
    ensures Taken(0xFFFF, 0x8C) == 0xB1F4 && Taken(0xB1F4, 0x4C) == 0xCAB2 && Taken(0xCAB2, 0xCC) == 0xD2C6
    ensures Taken(0xD2C6, 0x2C) == 0xC8D1 && Taken(0xC8D1, 0xAC) == 0xFD22 && Taken(0xFD22, 0x6C) == 0xB198
    ensures Taken(0xB198, 0xEC) == 0x1358 && Taken(0x1358, 0x1C) == 0xA9EF && Taken(0xA9EF, 0x9C) == 0x89F6
  {
  }

  lemma DigitsFromReversedOnes()
    ensures BytesStep(0xFFFF, REVERSED_DIGITS) == 0x89F6
  {
    hide BytesStep, Taken;
    NothingTaken(0xFFFF);
    ReversedOnesValues();
    var m := REVERSED_DIGITS;
    assert m[..0] == [] && m[..9] == m;
    ByteByByte(0xFFFF, m, 0xFFFF, 0);
    ByteByByte(0xFFFF, m, 0xB1F4, 1);
    ByteByByte(0xFFFF, m, 0xCAB2, 2);
    ByteByByte(0xFFFF, m, 0xD2C6, 3);
    ByteByByte(0xFFFF, m, 0xC8D1, 4);
    ByteByByte(0xFFFF, m, 0xFD22, 5);
    ByteByByte(0xFFFF, m, 0xB198, 6);
    ByteByByte(0xFFFF, m, 0x1358, 7);
    ByteByByte(0xFFFF, m, 0xA9EF, 8);
  }

  /** The published values of the four variants that the start and the bit order give. */
  lemma PublishedChecks(crc: bv16)
    ensures Crc(crc, DIGITS, 0, 1) == 0x31C3
    ensures Crc(crc, DIGITS, 255, 1) == 0x29B1
    ensures Crc(crc, DIGITS, 0, -1) == 0x2189
    ensures Crc(crc, DIGITS, 255, -1) == 0x6F91
  {
    DigitsFromZeros();
    DigitsFromOnes();
    DigitsFromReversedZeros();
    DigitsFromReversedOnes();
    DigitsReversed();
    Starts(crc);
    ShownDigits();
    hide BytesStep, Start, ReverseBytes, ReverseWord;
  }

  lemma Starts(crc: bv16)
    ensures Start(crc, 0, 1) == 0 && Start(crc, 0, -1) == 0
    ensures Start(crc, 255, 1) == 0xFFFF && Start(crc, 255, -1) == 0xFFFF
  {
  }

  lemma ShownDigits()
    ensures ReverseWord(0x9184) == 0x2189 && ReverseWord(0x89F6) == 0x6F91
  {
  }

  lemma DigitsReversed()
    ensures ReverseBytes(DIGITS) == REVERSED_DIGITS
  {
    hide ReverseByte;
    ReversedAre(DIGITS);
    DigitBits();
  }

  lemma {:induction false} ReversedAre(m: seq<bv8>)
    ensures forall i | 0 <= i < |m| :: ReverseBytes(m)[i] == ReverseByte(m[i])
  {
    if m != [] {
      ReversedAre(m[..|m| - 1]);
    }
  }

  lemma DigitBits()
    ensures forall i | 0 <= i < 9 :: ReverseByte(DIGITS[i]) == REVERSED_DIGITS[i]
  {
    assert ReverseByte(0x31) == 0x8C && ReverseByte(0x32) == 0x4C && ReverseByte(0x33) == 0xCC;
    assert ReverseByte(0x34) == 0x2C && ReverseByte(0x35) == 0xAC && ReverseByte(0x36) == 0x6C;
    assert ReverseByte(0x37) == 0xEC && ReverseByte(0x38) == 0x1C && ReverseByte(0x39) == 0x9C;
  }
}
