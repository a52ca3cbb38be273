/** The program's cipher is the standard's: bit `n` of a block or key is bit `n` of its pair of words. */
module DesRefinement {
  import opened BitTables
  import opened DesTables
  import opened DesSpec
  import opened DesRoundFunction
  import Std = DesStandard

  /** The lowest `n` bits of a word, the lowest first. */
  function WordBits(w: bv32, n: nat): (s: Std.Bits)
    requires n <= 32
    ensures |s| == n
  {
    seq(n, i requires 0 <= i < n => BitOf(w, i + 1))
  }

  /** The bits of a pair whose words hold `width` bits each. */
  function PairBits(b: Immense, width: nat): Std.Bits
    requires width <= 32
  {
    WordBits(b.r, width) + WordBits(b.l, width)
  }

  function GreatBits(k: Great): Std.Bits {
    WordBits(k.r, 16) + WordBits(k.c, 16) + WordBits(k.l, 16)
  }

  // ---- The tables are those of the standard

  /** A table of the program against one of the standard that selects from `size` bits. */
  ghost predicate Agrees(table: nat -> Position, std: Std.Table, width: nat, size: nat)
    requires width > 0
  {
    forall j: nat | 1 <= j <= |std| * width ::
      table(j) == Std.Cell(std, (j - 1) / width, (j - 1) % width) && table(j) <= size
  }

  lemma IpAgrees()
    ensures |Std.IP| == 8 && Agrees(Ip, Std.IP, 8, 64)
  {
    assert |Std.IP| == 8;
    forall j: nat | 1 <= j <= 64
      ensures Ip(j) == Std.Cell(Std.IP, (j - 1) / 8, (j - 1) % 8)
    {
      OneOfEight((j - 1) / 8);
    }
  }

  lemma IpmAgrees()
    ensures |Std.IP_INVERSE| == 8 && Agrees(Ipm, Std.IP_INVERSE, 8, 64)
  {
    assert |Std.IP_INVERSE| == 8;
    forall j: nat | 1 <= j <= 64
      ensures Ipm(j) == Std.Cell(Std.IP_INVERSE, (j - 1) / 8, (j - 1) % 8)
    {
      OneOfEight((j - 1) / 8);
    }
  }

  lemma IetAgrees()
    ensures |Std.E| == 8 && Agrees(Iet, Std.E, 6, 32)
  {
    assert |Std.E| == 8;
    forall j: nat | 1 <= j <= 48
      ensures Iet(j) == Std.Cell(Std.E, (j - 1) / 6, (j - 1) % 6)
    {
      OneOfEight((j - 1) / 6);
    }
  }

  lemma IppAgrees()
    ensures |Std.P| == 8 && Agrees(Ipp, Std.P, 4, 32)
  {
    assert |Std.P| == 8;
    forall j: nat | 1 <= j <= 32
      ensures Ipp(j) == Std.Cell(Std.P, (j - 1) / 4, (j - 1) % 4)
    {
      OneOfEight((j - 1) / 4);
    }
  }

  lemma Ipc1Agrees()
    ensures |Std.PC1| == 8 && Agrees(Ipc1, Std.PC1, 7, 64)
  {
    assert |Std.PC1| == 8;
    forall j: nat | 1 <= j <= 56
      ensures Ipc1(j) == Std.Cell(Std.PC1, (j - 1) / 7, (j - 1) % 7)
    {
      OneOfEight((j - 1) / 7);
    }
  }

  lemma Ipc2Agrees()
    ensures |Std.PC2| == 8 && Agrees(Ipc2, Std.PC2, 6, 56)
  {
    assert |Std.PC2| == 8;
    forall j: nat | 1 <= j <= 48
      ensures Ipc2(j) == Std.Cell(Std.PC2, (j - 1) / 6, (j - 1) % 6)
    {
      OneOfEight((j - 1) / 6);
    }
  }

  lemma OneOfEight(r: nat)
    requires r < 8
    ensures r == 0 || r == 1 || r == 2 || r == 3 || r == 4 || r == 5 || r == 6 || r == 7
  {
  }

  /** Every selection box is the standard's. */
  lemma EntryAgrees(column: nat, row: nat, jj: nat)
    requires column < 16 && row < 4 && 1 <= jj <= 8
    ensures Entry(column, row, jj) == Std.Cell(Std.Box(jj), row, column)
  {
    hide Entry, Std.S1, Std.S2, Std.S3, Std.S4, Std.S5, Std.S6, Std.S7, Std.S8, Std.Cell;
    if jj == 1 {
      Box1Agrees(column, row);
    } else if jj == 2 {
      Box2Agrees(column, row);
    } else if jj == 3 {
      Box3Agrees(column, row);
    } else if jj == 4 {
      Box4Agrees(column, row);
    } else if jj == 5 {
      Box5Agrees(column, row);
    } else if jj == 6 {
      Box6Agrees(column, row);
    } else if jj == 7 {
      Box7Agrees(column, row);
    } else {
      Box8Agrees(column, row);
    }
  }

  lemma Box1Agrees(column: nat, row: nat)
    requires column < 16 && row < 4
    ensures Entry(column, row, 1) == Std.Cell(Std.S1, row, column)
  {
    if row == 0 {
    } else if row == 1 {
    } else if row == 2 {
    } else {
    }
  }

  lemma Box2Agrees(column: nat, row: nat)
    requires column < 16 && row < 4
    ensures Entry(column, row, 2) == Std.Cell(Std.S2, row, column)
  {
    if row == 0 {
    } else if row == 1 {
    } else if row == 2 {
    } else {
    }
  }

  lemma Box3Agrees(column: nat, row: nat)
    requires column < 16 && row < 4
    ensures Entry(column, row, 3) == Std.Cell(Std.S3, row, column)
  {
    if row == 0 {
    } else if row == 1 {
    } else if row == 2 {
    } else {
    }
  }

  lemma Box4Agrees(column: nat, row: nat)
    requires column < 16 && row < 4
    ensures Entry(column, row, 4) == Std.Cell(Std.S4, row, column)
  {
    if row == 0 {
    } else if row == 1 {
    } else if row == 2 {
    } else {
    }
  }

  lemma Box5Agrees(column: nat, row: nat)
    requires column < 16 && row < 4
    ensures Entry(column, row, 5) == Std.Cell(Std.S5, row, column)
  {
    if row == 0 {
    } else if row == 1 {
    } else if row == 2 {
    } else {
    }
  }

  lemma Box6Agrees(column: nat, row: nat)
    requires column < 16 && row < 4
    ensures Entry(column, row, 6) == Std.Cell(Std.S6, row, column)
  {
    if row == 0 {
    } else if row == 1 {
    } else if row == 2 {
    } else {
    }
  }

  lemma Box7Agrees(column: nat, row: nat)
    requires column < 16 && row < 4
    ensures Entry(column, row, 7) == Std.Cell(Std.S7, row, column)
  {
    if row == 0 {
    } else if row == 1 {
    } else if row == 2 {
    } else {
    }
  }

  lemma Box8Agrees(column: nat, row: nat)
    requires column < 16 && row < 4
    ensures Entry(column, row, 8) == Std.Cell(Std.S8, row, column)
  {
    if row == 0 {
    } else if row == 1 {
    } else if row == 2 {
    } else {
    }
  }

  // ---- Selections

  lemma WordBit(w: bv32, n: nat, i: nat)
    requires 1 <= i <= n <= 32
    ensures |WordBits(w, n)| == n && WordBits(w, n)[i - 1] == BitOf(w, i)
  {
    hide BitOf;
  }

  /** Bits 1 to `size` of a pair are those of a sequence. */
  ghost predicate HasBits(b: Immense, width: nat, size: nat, bits: Std.Bits)
    requires 1 <= width <= 32
  {
    forall n: Position | n <= size :: PairBit(b, n, width) == Std.Bit(bits, n)
  }

  lemma PairHasBits(b: Immense, width: nat)
    requires 1 <= width <= 32
    ensures HasBits(b, width, 2 * width, PairBits(b, width))
  {
    hide BitOf, WordBits;
    forall n: Position | n <= 2 * width
      ensures PairBit(b, n, width) == Std.Bit(PairBits(b, width), n)
    {
      WordBit(b.r, width, 1);
      WordBit(b.l, width, 1);
      if n <= width {
        WordBit(b.r, width, n);
      } else {
        WordBit(b.l, width, n - width);
      }
    }
  }

  lemma AloneHasBits(w: bv32)
    ensures HasBits(Alone(w), 32, 32, WordBits(w, 32))
  {
    hide BitOf, WordBits;
    forall n: Position | n <= 32
      ensures PairBit(Alone(w), n, 32) == Std.Bit(WordBits(w, 32), n)
    {
      WordBit(w, 32, n);
    }
  }

  /** A gathered word holds a stretch of the selected bits. */
  lemma GatheredIs(b: Immense, width: nat, size: nat, bits: Std.Bits,
                   table: nat -> Position, std: Std.Table, row: nat, lo: nat, count: nat)
    requires 1 <= width <= 32 && HasBits(b, width, size, bits)
    requires row > 0 && Agrees(table, std, row, size)
    requires 1 <= lo && 1 <= count <= 32 && lo + count - 1 <= |std| * row
    ensures WordBits(Gather(b, table, lo, lo + count - 1, width), count)
         == Std.Select(std, row, bits)[lo - 1..lo - 1 + count]
  {
    hide BitOf, Gather, PairBit, Std.Cell, Std.Bit;
    var w := Gather(b, table, lo, lo + count - 1, width);
    forall i: nat | i < count
      ensures WordBits(w, count)[i] == Std.Select(std, row, bits)[lo - 1 + i]
    {
      var j := lo + i;
      WordBit(w, count, i + 1);
      GatheredBit(b, table, lo, lo + count - 1, width, i + 1);
      assert table(j) == Std.Cell(std, (j - 1) / row, (j - 1) % row);
    }
  }

  lemma Halves64(a: Std.Bits, b: Std.Bits, s: Std.Bits)
    requires |s| == 64 && a == s[..32] && b == s[32..]
    ensures a + b == s
  {
  }

  /** The initial permutation leaves the first half in `r`. */
  lemma InitialIs(b: Immense)
    ensures var x, s := Permuted(b, Ip), Std.Select(Std.IP, 8, PairBits(b, 32));
            |s| == 64 && WordBits(x.r, 32) == s[..32] && WordBits(x.l, 32) == s[32..]
  {
    hide BitOf, Gather, WordBits, Std.Select, HasBits, Agrees, PairBits, Ip, Std.IP;
    IpAgrees();
    PairHasBits(b, 32);
    var s := Std.Select(Std.IP, 8, PairBits(b, 32));
    GatheredIs(b, 32, 64, PairBits(b, 32), Ip, Std.IP, 8, 1, 32);
    GatheredIs(b, 32, 64, PairBits(b, 32), Ip, Std.IP, 8, 33, 32);
    assert s[0..32] == s[..32] && s[32..64] == s[32..];
  }

  lemma FinalIs(b: Immense)
    ensures PairBits(Permuted(b, Ipm), 32) == Std.Select(Std.IP_INVERSE, 8, PairBits(b, 32))
  {
    hide BitOf, Gather, WordBits, Std.Select, HasBits, Agrees, Ipm, Std.IP_INVERSE;
    IpmAgrees();
    PairHasBits(b, 32);
    var s := Std.Select(Std.IP_INVERSE, 8, PairBits(b, 32));
    GatheredIs(b, 32, 64, PairBits(b, 32), Ipm, Std.IP_INVERSE, 8, 1, 32);
    GatheredIs(b, 32, 64, PairBits(b, 32), Ipm, Std.IP_INVERSE, 8, 33, 32);
    assert s == s[0..32] + s[32..64];
  }

  // ---- The key schedule

  lemma KeyStartIs(key: Immense)
    ensures var icd, h := KeyStart(key), Std.Halves(PairBits(key, 32), 0);
            WordBits(icd.r, 28) == h.0 && WordBits(icd.l, 28) == h.1
  {
    hide BitOf, Gather, WordBits, Std.Select, HasBits, Agrees, PairBits, Ipc1, Std.PC1, Std.RotateLeft;
    Ipc1Agrees();
    PairHasBits(key, 32);
    var s := Std.Select(Std.PC1, 7, PairBits(key, 32));
    GatheredIs(key, 32, 64, PairBits(key, 32), Ipc1, Std.PC1, 7, 1, 28);
    GatheredIs(key, 32, 64, PairBits(key, 32), Ipc1, Std.PC1, 7, 29, 28);
    assert s[0..28] == s[..28] && s[28..56] == s[28..];
  }

  /** A turn of a word is a rotation to the left of its bits. */
  lemma TurnIsRotation(w: bv32)
    requires w < 0x1000_0000
    ensures TurnWord(w) < 0x1000_0000
    ensures WordBits(TurnWord(w), 28) == Std.RotateLeft(WordBits(w, 28), 1)
  {
    forall i: nat | 1 <= i <= 27
      ensures BitOf(TurnWord(w), i) == BitOf(w, i + 1)
    {
      TurnedBit(w, i);
    }
    LastTurnedBit(w);
    hide TurnWord, BitOf;
  }

  lemma TurnedBit(w: bv32, i: nat)
    requires w < 0x1000_0000 && 1 <= i <= 27
    ensures BitOf(TurnWord(w), i) == BitOf(w, i + 1)
  {
    hide TurnWord, Mask, Hit, InHalf;
    MaskDoubles(i);
    LowMask(i);
    TurnedHit(w, Mask(i));
  }

  predicate InHalf(m: bv32) {
    m & 0xF800_0000 == 0
  }

  lemma LowMask(i: nat)
    requires 1 <= i <= 27
    ensures InHalf(Mask(i))
  {
  }

  lemma TurnedHit(w: bv32, m: bv32)
    requires InHalf(m)
    ensures Hit(TurnWord(w), m) == Hit(w, m << 1)
  {
  }

  lemma LastTurnedBit(w: bv32)
    requires w < 0x1000_0000
    ensures TurnWord(w) < 0x1000_0000 && BitOf(TurnWord(w), 28) == BitOf(w, 1)
  {
  }

  lemma RotatedTwice(b: Std.Bits)
    requires |b| == 28
    ensures Std.RotateLeft(Std.RotateLeft(b, 1), 1) == Std.RotateLeft(b, 2)
  {
  }

  /** One or two turns of the halves are that many shifts of their bits. */
  lemma TurnsAreShifts(icd: Immense, n: nat)
    requires Narrow(icd) && 1 <= n <= 2
    ensures var t := Turn(icd, n);
            && Narrow(t)
            && WordBits(t.r, 28) == Std.RotateLeft(WordBits(icd.r, 28), n)
            && WordBits(t.l, 28) == Std.RotateLeft(WordBits(icd.l, 28), n)
  {
    hide WordBits, Std.RotateLeft, TurnWord;
    var l, r := TurnWord(icd.l), TurnWord(icd.r);
    TurnIsRotation(icd.l);
    TurnIsRotation(icd.r);
    assert Turn(icd, 0) == icd && Turn(icd, 1) == Immense(l, r);
    if n == 2 {
      TurnIsRotation(l);
      TurnIsRotation(r);
      RotatedTwice(WordBits(icd.l, 28));
      RotatedTwice(WordBits(icd.r, 28));
      assert Turn(icd, 2) == Immense(TurnWord(l), TurnWord(r));
    }
  }

  lemma ShiftsAgree(n: nat)
    requires 1 <= n <= 16
    ensures |Std.SHIFTS| == 16 && Std.SHIFTS[n - 1] == Turns(n) && 1 <= Turns(n) <= 2
  {
  }

  /** The halves of the schedule after every call. */
  lemma {:induction false} ScheduleIs(key: Immense, n: nat)
    requires n <= 16
    ensures var icd, h := Scheduled(KeyStart(key), n), Std.Halves(PairBits(key, 32), n);
            Narrow(icd) && WordBits(icd.r, 28) == h.0 && WordBits(icd.l, 28) == h.1
  {
    hide WordBits, PairBits, Std.RotateLeft, Std.SHIFTS, Std.Select, Turn, Turns, KeyStart, Narrow;
    if n == 0 {
      KeyStartNarrow(key);
      KeyStartIs(key);
    } else {
      ScheduleIs(key, n - 1);
      ShiftsAgree(n);
      TurnsAreShifts(Scheduled(KeyStart(key), n - 1), Turns(n));
    }
  }

  lemma KeyOfIs(icd: Immense)
    ensures GreatBits(KeyOf(icd)) == Std.Select(Std.PC2, 6, PairBits(icd, 28))
  {
    hide BitOf, Gather, WordBits, Std.Select, HasBits, Agrees, PairBits, Ipc2, Std.PC2;
    Ipc2Agrees();
    PairHasBits(icd, 28);
    var s := Std.Select(Std.PC2, 6, PairBits(icd, 28));
    GatheredIs(icd, 28, 56, PairBits(icd, 28), Ipc2, Std.PC2, 6, 1, 16);
    GatheredIs(icd, 28, 56, PairBits(icd, 28), Ipc2, Std.PC2, 6, 17, 16);
    GatheredIs(icd, 28, 56, PairBits(icd, 28), Ipc2, Std.PC2, 6, 33, 16);
    assert s == s[0..16] + s[16..32] + s[32..48];
  }

  /** The key that is stored for round `n` is the standard's. */
  lemma RoundKeyIs(key: Immense, n: nat)
    requires 1 <= n <= 16
    ensures GreatBits(KeyOf(Turn(KeyStart(key), TotalTurns(n)))) == Std.RoundKey(PairBits(key, 32), n)
  {
    hide WordBits, Std.Select, Std.Halves, Turn, KeyOf, KeyStart, GreatBits, Scheduled, Narrow, Std.PC2, TotalTurns;
    var icd := Scheduled(KeyStart(key), n);
    ScheduleTotals(KeyStart(key), n);
    ScheduleIs(key, n);
    KeyOfIs(icd);
  }

  // ---- The round function

  lemma GreatBitIs(k: Great, n: nat)
    requires 1 <= n <= 48
    ensures |GreatBits(k)| == 48 && GreatBits(k)[n - 1] == GreatBit(k, n)
  {
    hide BitOf;
  }

  /** The bits that enter the boxes. */
  function EnteringBits(ir: bv32, k: Great): (x: Std.Bits)
    ensures |x| == 48
  {
    Std.Plus(Std.Select(Std.E, 6, WordBits(ir, 32)), GreatBits(k))
  }

  lemma EnteringIs(ir: bv32, k: Great, jj: nat, u: nat)
    requires 1 <= jj <= 8 && 1 <= u <= 6
    ensures EnteringBits(ir, k)[6 * (jj - 1) + u - 1] == Entering(ir, k, jj, u)
  {
    hide BitOf, WordBits, PairBit, GreatBits, GreatBit, Iet, Std.E, Std.Cell, Std.Bit;
    var n := 6 * (jj - 1) + u;
    IetAgrees();
    AloneHasBits(ir);
    GreatBitIs(k, n);
    assert Iet(n) == Std.Cell(Std.E, (n - 1) / 6, (n - 1) % 6);
    assert PairBit(Alone(ir), Iet(n), 32) == Std.Bit(WordBits(ir, 32), Iet(n));
  }

  lemma ChoiceIs(ir: bv32, k: Great, jj: nat)
    requires 1 <= jj <= 8
    ensures Std.Choice(jj, EnteringBits(ir, k)[6 * jj - 6..6 * jj]) == Selected(ir, k, jj)
  {
    hide EnteringBits, Entering, Entry, Std.Cell, Std.Box;
    EnteringIs(ir, k, jj, 1);
    EnteringIs(ir, k, jj, 2);
    EnteringIs(ir, k, jj, 3);
    EnteringIs(ir, k, jj, 4);
    EnteringIs(ir, k, jj, 5);
    EnteringIs(ir, k, jj, 6);
    EntryAgrees(Weight(Entering(ir, k, jj, 2), 8) + Weight(Entering(ir, k, jj, 3), 4)
                  + Weight(Entering(ir, k, jj, 4), 2) + Weight(Entering(ir, k, jj, 5), 1),
                Weight(Entering(ir, k, jj, 1), 2) + Weight(Entering(ir, k, jj, 6), 1), jj);
  }

  lemma {:induction false} ChosenAt(x: Std.Bits, n: nat, jj: nat, t: nat)
    requires 1 <= jj <= n && 6 * n <= |x| && 1 <= t <= 4
    ensures Std.Chosen(x, n)[4 * (jj - 1) + t - 1] == Std.Spelled(Std.Choice(jj, x[6 * jj - 6..6 * jj]))[t - 1]
  {
    hide Std.Choice, Std.Spelled;
    if jj < n {
      ChosenAt(x, n - 1, jj, t);
    }
  }

  lemma SpelledBit(v: Nibble, t: nat)
    requires 1 <= t <= 4
    ensures Std.Spelled(v)[t - 1] == NibbleBit(v, t)
  {
  }

  /** The round function is the standard's. */
  lemma RoundFunctionIs(ir: bv32, k: Great)
    requires Thin(k)
    ensures WordBits(CyFun(ir, k), 32) == Std.F(WordBits(ir, 32), GreatBits(k))
  {
    hide BitOf, WordBits, GreatBits, Thin, CyFun, Ipp, Std.P, Std.Cell, Std.Chosen, Std.Choice, Std.Spelled;
    IppAgrees();
    WordBit(CyFun(ir, k), 32, 1);
    var chosen := Std.Chosen(EnteringBits(ir, k), 8);
    forall i: nat | i < 32
      ensures WordBits(CyFun(ir, k), 32)[i] == Std.Bit(chosen, Std.Cell(Std.P, i / 4, i % 4))
    {
      assert Ipp(i + 1) == Std.Cell(Std.P, (i + 1 - 1) / 4, (i + 1 - 1) % 4);
      WordBit(CyFun(ir, k), 32, i + 1);
      RoundBitIs(ir, k, i + 1);
    }
  }

  lemma RoundBitIs(ir: bv32, k: Great, i: nat)
    requires Thin(k) && 1 <= i <= 32
    ensures Ipp(i) <= 32
    ensures BitOf(CyFun(ir, k), i) == Std.Chosen(EnteringBits(ir, k), 8)[Ipp(i) - 1]
  {
    hide BitOf, Thin, CyFun, Ipp, EnteringBits, Std.Chosen, Std.Choice, Std.Spelled, Selected, NibbleBit;
    EntriesFit(i);
    var jj, t := (Ipp(i) - 1) / 4 + 1, (Ipp(i) - 1) % 4 + 1;
    RoundFunctionBit(ir, k, i, jj, t);
    ChosenAt(EnteringBits(ir, k), 8, jj, t);
    ChoiceIs(ir, k, jj);
    SpelledBit(Selected(ir, k, jj), t);
  }

  // ---- The rounds

  lemma XorIsPlus(v: bv32, w: bv32)
    ensures WordBits(Xor(v, w), 32) == Std.Plus(WordBits(v, 32), WordBits(w, 32))
  {
    hide BitOf, Xor;
    forall i: nat | i < 32
      ensures WordBits(Xor(v, w), 32)[i] == (WordBits(v, 32)[i] != WordBits(w, 32)[i])
    {
      XorBit(v, w, i + 1);
    }
  }

  lemma PlusCommutes(a: Std.Bits, b: Std.Bits)
    requires |a| == |b|
    ensures Std.Plus(a, b) == Std.Plus(b, a)
  {
  }

  /** The stored keys are those of the schedule of a key. */
  ghost predicate IsScheduleOf(kns: seq<Great>, key: Immense) {
    |kns| == 17 && forall i: nat | 1 <= i <= 16 :: kns[i] == KeyOf(Turn(KeyStart(key), TotalTurns(i)))
  }

  lemma StoredKeyIs(kns: seq<Great>, key: Immense, i: nat)
    requires IsScheduleOf(kns, key) && 1 <= i <= 16
    ensures Thin(kns[i]) && GreatBits(kns[i]) == Std.RoundKey(PairBits(key, 32), i)
  {
    hide KeyOf, Turn, KeyStart, TotalTurns, Thin, GreatBits, PairBits;
    RoundKeyIs(key, i);
    KeysAreThin(Turn(KeyStart(key), TotalTurns(i)));
  }

  /** After every round the program's words hold the standard's halves. */
  lemma {:induction false} RoundsAre(inp: Immense, kns: seq<Great>, key: Immense, isw: int, n: nat)
    requires |kns| == 17 && IsScheduleOf(kns, key) && n <= 16
    ensures var x, s := Rounds(Permuted(inp, Ip), kns, isw, n), Std.State(PairBits(inp, 32), PairBits(key, 32), isw == 1, n);
            WordBits(x.r, 32) == s.0 && WordBits(x.l, 32) == s.1
  {
    hide WordBits, PairBits, GreatBits, IsScheduleOf, Permuted, Thin, CyFun, Xor, Std.Select, Std.F, Std.RoundKey;
    if n == 0 {
      InitialIs(inp);
    } else {
      RoundsAre(inp, kns, key, isw, n - 1);
      var x, k := Rounds(Permuted(inp, Ip), kns, isw, n - 1), KeyIndex(isw, n);
      StoredKeyIs(kns, key, k);
      RoundFunctionIs(x.l, kns[k]);
      XorIsPlus(CyFun(x.l, kns[k]), x.r);
      PlusCommutes(WordBits(CyFun(x.l, kns[k]), 32), WordBits(x.r, 32));
    }
  }

  /** The bits of `out` are those of `inp` deciphered by the standard for `isw` 1 and enciphered otherwise. */
  ghost predicate IsStandard(inp: Immense, key: Immense, isw: int, out: Immense) {
    PairBits(out, 32) == Std.Crypt(PairBits(inp, 32), PairBits(key, 32), isw == 1)
  }

  /** One block of the program is one block of the standard. */
  lemma BlockIsStandard(inp: Immense, kns: seq<Great>, key: Immense, isw: int)
    requires |kns| == 17 && IsScheduleOf(kns, key)
    ensures IsStandard(inp, key, isw, Block(inp, kns, isw))
  {
    hide WordBits, IsScheduleOf, Permuted, Rounds, Std.Select, Std.State;
    RoundsAre(inp, kns, key, isw, 16);
    FinalIs(Swap(Rounds(Permuted(inp, Ip), kns, isw, 16)));
  }
}
