/** Properties that the tables give the cipher. */
module DesProperties {
  import opened BitTables
  import opened DesTables
  import opened DesSpec
  import opened DesRefinement
  import Std = DesStandard

  // ---- The tables in closed form

  /** The initial permutation takes the even bits of every byte, the last byte first, and then the odd ones. */
  lemma InitialChoice(r: nat, c: nat)
    requires r < 8 && c < 8
    ensures Ip(8 * r + c + 1) == if r < 4 then 58 + 2 * r - 8 * c else 49 + 2 * r - 8 * c
  {
    OneOfEight(r);
  }

  /** A box gets four bits in a row and the neighbours on either side, around the end of the half. */
  lemma Expansion(r: nat, c: nat)
    requires r < 8 && c < 6
    ensures Iet(6 * r + c + 1) == (4 * r + c + 31) % 32 + 1
  {
    OneOfEight(r);
  }

  /** The last permutation loses no bit. */
  lemma SpreadIsPermutation(i: nat, j: nat)
    requires 1 <= i < j <= 32
    ensures Ipp(i) != Ipp(j) && Ipp(i) <= 32
  {
    OneOfEight((i - 1) / 4);
  }

  /** A round key takes no bit of the halves twice, the first twenty-four from the first half. */
  lemma KeyBitsDiffer(i: nat, j: nat)
    requires 1 <= i < j <= 48
    ensures Ipc2(i) != Ipc2(j) && (Ipc2(j) <= 28 <==> j <= 24) && Ipc2(j) <= 56
  {
    OneOfEight((i - 1) / 6);
  }

  // ---- The parity bits of a key

  /** The first choice of key bits in closed form, in seven rows of eight. */
  lemma FirstChoice(c: nat, r: nat)
    requires c < 7 && r < 8
    ensures Ipc1(8 * c + r + 1) ==
            if c <= 2 then 57 + c - 8 * r
            else if c == 3 then (if r < 4 then 60 - 8 * r else 95 - 8 * r)
            else if r < 4 then 35 - c - 8 * r
            else if c < 6 then 98 - c - 8 * r else 60 - 8 * r
  {
    OneOfEight(c);
  }

  /** The place in the first halves of the schedule of a bit of a byte, for any but the last bit. */
  function PlaceInSchedule(byte: nat, bit: nat): nat
    requires byte < 8 && 1 <= bit <= 7
  {
    if bit <= 3 then 8 * bit - byte
    else if bit == 4 && byte >= 4 then 32 - byte
    else if bit == 4 then 56 - byte
    else 92 - 8 * bit - byte
  }

  /** The first halves take every bit of the key but the last of each byte. */
  lemma PlaceHoldsBit(byte: nat, bit: nat)
    requires byte < 8 && 1 <= bit <= 7
    ensures 1 <= PlaceInSchedule(byte, bit) <= 56 && Ipc1(PlaceInSchedule(byte, bit)) == 8 * byte + bit
  {
    hide Ipc1;
    if bit <= 3 {
      FirstChoice(bit - 1, 7 - byte);
    } else if bit == 4 {
      FirstChoice(if byte >= 4 then 3 else 6, 7 - byte);
    } else if byte >= 4 {
      FirstChoice(10 - bit, 11 - byte);
    } else {
      FirstChoice(11 - bit, 3 - byte);
    }
  }

  lemma NoParityBit(j: nat)
    requires 1 <= j <= 56
    ensures Ipc1(j) % 8 != 0
  {
    hide Ipc1;
    FirstChoice((j - 1) / 8, (j - 1) % 8);
  }

  ghost predicate SameButParity(a: Immense, b: Immense) {
    forall n: Position | n % 8 != 0 :: PairBit(a, n, 32) == PairBit(b, n, 32)
  }

  /** Bit `j` of the first halves. */
  predicate StartBit(key: Immense, j: nat)
    requires 1 <= j <= 56
  {
    if j <= 28 then BitOf(KeyStart(key).r, j) else BitOf(KeyStart(key).l, j - 28)
  }

  lemma StartBitIs(key: Immense, j: nat)
    requires 1 <= j <= 56
    ensures StartBit(key, j) == PairBit(key, Ipc1(j), 32)
  {
    hide BitOf, Gather, Ipc1, PairBit;
    if j <= 28 {
      GatheredBit(key, Ipc1, 1, 28, 32, j);
    } else {
      GatheredBit(key, Ipc1, 29, 56, 32, j - 28);
    }
  }

  lemma StartIsItsBits(a: Immense, b: Immense)
    requires forall j: nat | 1 <= j <= 56 :: StartBit(a, j) == StartBit(b, j)
    ensures KeyStart(a) == KeyStart(b)
  {
    hide BitOf, Gather;
    var x, y := KeyStart(a), KeyStart(b);
    forall i: nat | 1 <= i <= 32
      ensures BitOf(x.r, i) == BitOf(y.r, i) && BitOf(x.l, i) == BitOf(y.l, i)
    {
      if i <= 28 {
        assert StartBit(a, i) == StartBit(b, i) && StartBit(a, i + 28) == StartBit(b, i + 28);
      } else {
        GatheredSmall(a, Ipc1, 1, 28, 32, i);
        GatheredSmall(b, Ipc1, 1, 28, 32, i);
        GatheredSmall(a, Ipc1, 29, 56, 32, i);
        GatheredSmall(b, Ipc1, 29, 56, 32, i);
      }
    }
    SameBitsSameWord(x.r, y.r);
    SameBitsSameWord(x.l, y.l);
  }

  /** Two keys start the schedule alike, and so have the same round keys, if and only if they differ in parity
      bits only. */
  lemma SameStartIffSameButParity(a: Immense, b: Immense)
    ensures KeyStart(a) == KeyStart(b) <==> SameButParity(a, b)
  {
    hide BitOf, KeyStart, PairBit, Ipc1, StartBit, PlaceInSchedule;
    if SameButParity(a, b) {
      forall j: nat | 1 <= j <= 56
        ensures StartBit(a, j) == StartBit(b, j)
      {
        StartBitIs(a, j);
        StartBitIs(b, j);
        NoParityBit(j);
      }
      StartIsItsBits(a, b);
    }
    if KeyStart(a) == KeyStart(b) {
      forall n: Position | n % 8 != 0
        ensures PairBit(a, n, 32) == PairBit(b, n, 32)
      {
        var j := PlaceInSchedule(n / 8, n % 8);
        PlaceHoldsBit(n / 8, n % 8);
        StartBitIs(a, j);
        StartBitIs(b, j);
        SameStartSameBit(a, b, j);
      }
    }
  }

  lemma SameStartSameBit(a: Immense, b: Immense, j: nat)
    requires KeyStart(a) == KeyStart(b) && 1 <= j <= 56
    ensures StartBit(a, j) == StartBit(b, j)
  {
  }

  // ---- Complements

  function Not(b: Std.Bits): (c: Std.Bits)
    ensures |c| == |b|
  {
    seq(|b|, i requires 0 <= i < |b| => !b[i])
  }

  /** Every entry of a table names one of `size` bits. */
  ghost predicate Names(table: Std.Table, width: nat, size: nat)
    requires width > 0
  {
    forall i: nat | i < |table| * width :: 1 <= Std.Cell(table, i / width, i % width) <= size
  }

  lemma NamesOf(program: nat -> Position, table: Std.Table, width: nat, size: nat)
    requires width > 0 && Agrees(program, table, width, size)
    ensures Names(table, width, size)
  {
    hide Std.Cell;
    forall i: nat | i < |table| * width
      ensures 1 <= Std.Cell(table, i / width, i % width) <= size
    {
      var j := i + 1;
      assert program(j) == Std.Cell(table, (j - 1) / width, (j - 1) % width);
    }
  }

  lemma SelectNot(table: Std.Table, width: nat, b: Std.Bits)
    requires width > 0 && Names(table, width, |b|)
    ensures Std.Select(table, width, Not(b)) == Not(Std.Select(table, width, b))
  {
    hide Std.Cell;
    var s, t := Std.Select(table, width, Not(b)), Std.Select(table, width, b);
    forall i: nat | i < |table| * width
      ensures s[i] == !t[i]
    {
      assert 1 <= Std.Cell(table, i / width, i % width) <= |b|;
    }
  }

  lemma PlusNot(a: Std.Bits, b: Std.Bits)
    requires |a| == |b|
    ensures Std.Plus(Not(a), Not(b)) == Std.Plus(a, b)
    ensures Std.Plus(Not(a), b) == Not(Std.Plus(a, b))
  {
  }

  /** Complementing half a block and the round key leaves the cipher function as it is. */
  lemma FunctionOfComplements(r: Std.Bits, k: Std.Bits)
    requires |r| == 32 && |k| == 48
    ensures Std.F(Not(r), Not(k)) == Std.F(r, k)
  {
    hide Std.Select, Std.Chosen, Std.Plus, Not, Agrees, Names, Std.E;
    IetAgrees();
    NamesOf(Iet, Std.E, 6, 32);
    SelectNot(Std.E, 6, r);
    PlusNot(Std.Select(Std.E, 6, r), k);
  }

  lemma NotSlice(b: Std.Bits, n: nat)
    requires n <= |b|
    ensures Not(b[..n]) == Not(b)[..n] && Not(b[n..]) == Not(b)[n..]
  {
  }

  lemma NotJoin(a: Std.Bits, b: Std.Bits)
    ensures Not(a + b) == Not(a) + Not(b)
  {
  }

  lemma RotateNot(b: Std.Bits, n: nat)
    requires n <= |b|
    ensures Std.RotateLeft(Not(b), n) == Not(Std.RotateLeft(b, n))
  {
  }

  lemma {:induction false} HalvesOfComplement(key: Std.Bits, n: nat)
    requires |key| == 64 && n <= 16
    ensures Std.Halves(Not(key), n) == (Not(Std.Halves(key, n).0), Not(Std.Halves(key, n).1))
  {
    hide Std.Select, Std.RotateLeft, Not, Agrees, Names, Std.PC1;
    if n == 0 {
      Ipc1Agrees();
      NamesOf(Ipc1, Std.PC1, 7, 64);
      SelectNot(Std.PC1, 7, key);
      NotSlice(Std.Select(Std.PC1, 7, key), 28);
    } else {
      HalvesOfComplement(key, n - 1);
      RotateNot(Std.Halves(key, n - 1).0, Std.SHIFTS[n - 1]);
      RotateNot(Std.Halves(key, n - 1).1, Std.SHIFTS[n - 1]);
    }
  }

  lemma RoundKeyOfComplement(key: Std.Bits, n: nat)
    requires |key| == 64 && n <= 16
    ensures Std.RoundKey(Not(key), n) == Not(Std.RoundKey(key, n))
  {
    hide Std.Select, Std.Halves, Not, Agrees, Names, Std.PC2;
    Ipc2Agrees();
    NamesOf(Ipc2, Std.PC2, 6, 56);
    HalvesOfComplement(key, n);
    var h := Std.Halves(key, n);
    NotJoin(h.0, h.1);
    SelectNot(Std.PC2, 6, h.0 + h.1);
  }

  lemma {:induction false} StateOfComplements(block: Std.Bits, key: Std.Bits, decipher: bool, n: nat)
    requires |block| == |key| == 64 && n <= 16
    ensures var s := Std.State(block, key, decipher, n);
            Std.State(Not(block), Not(key), decipher, n) == (Not(s.0), Not(s.1))
  {
    hide Std.Select, Std.RoundKey, Std.F, Not, Agrees, Names, Std.IP, Std.Plus;
    if n == 0 {
      IpAgrees();
      NamesOf(Ip, Std.IP, 8, 64);
      SelectNot(Std.IP, 8, block);
      NotSlice(Std.Select(Std.IP, 8, block), 32);
    } else {
      StateOfComplements(block, key, decipher, n - 1);
      var s, k := Std.State(block, key, decipher, n - 1), Std.RoundKey(key, if decipher then 17 - n else n);
      RoundKeyOfComplement(key, if decipher then 17 - n else n);
      FunctionOfComplements(s.1, k);
      PlusNot(s.0, Std.F(s.1, k));
    }
  }

  /** Complementing the block and the key complements the result. */
  lemma ComplementsCrypt(block: Std.Bits, key: Std.Bits, decipher: bool)
    requires |block| == |key| == 64
    ensures Std.Crypt(Not(block), Not(key), decipher) == Not(Std.Crypt(block, key, decipher))
  {
    hide Std.Select, Std.State, Not, Agrees, Names, Std.IP_INVERSE;
    IpmAgrees();
    NamesOf(Ipm, Std.IP_INVERSE, 8, 64);
    StateOfComplements(block, key, decipher, 16);
    var s := Std.State(block, key, decipher, 16);
    NotJoin(s.1, s.0);
    SelectNot(Std.IP_INVERSE, 8, s.1 + s.0);
  }

  /** All bits of both words complemented. */
  function Flipped(b: Immense): Immense {
    Immense(Xor(b.l, 0xFFFF_FFFF), Xor(b.r, 0xFFFF_FFFF))
  }

  lemma AllSet(i: nat)
    requires 1 <= i <= 32
    ensures BitOf(0xFFFF_FFFF, i)
  {
  }

  lemma FlippedBits(b: Immense)
    ensures PairBits(Flipped(b), 32) == Not(PairBits(b, 32))
  {
    hide BitOf, Xor, WordBits;
    var c := Flipped(b);
    forall i: nat | i < 32
      ensures WordBits(c.r, 32)[i] == !WordBits(b.r, 32)[i] && WordBits(c.l, 32)[i] == !WordBits(b.l, 32)[i]
    {
      AllSet(i + 1);
      XorBit(b.r, 0xFFFF_FFFF, i + 1);
      XorBit(b.l, 0xFFFF_FFFF, i + 1);
      WordBit(b.r, 32, i + 1);
      WordBit(b.l, 32, i + 1);
      WordBit(c.r, 32, i + 1);
      WordBit(c.l, 32, i + 1);
    }
  }

  lemma SameBitsSamePair(b: Immense, c: Immense)
    requires PairBits(b, 32) == PairBits(c, 32)
    ensures b == c
  {
    PairHasBits(b, 32);
    PairHasBits(c, 32);
    hide PairBit, PairBits, Std.Bit;
    SamePair(b, c);
  }

  /** Under the schedule of the complemented key, the program runs a complemented block to the complement. */
  lemma ComplementsBlock(inp: Immense, kns: seq<Great>, flipped: seq<Great>, key: Immense, isw: int)
    requires |kns| == |flipped| == 17 && IsScheduleOf(kns, key) && IsScheduleOf(flipped, Flipped(key))
    ensures Block(Flipped(inp), flipped, isw) == Flipped(Block(inp, kns, isw))
  {
    hide Block, Flipped, IsScheduleOf, PairBits, Std.Crypt;
    BlockIsStandard(inp, kns, key, isw);
    BlockIsStandard(Flipped(inp), flipped, Flipped(key), isw);
    FlippedBits(inp);
    FlippedBits(key);
    FlippedBits(Block(inp, kns, isw));
    PairSize(inp);
    PairSize(key);
    ComplementsCrypt(PairBits(inp, 32), PairBits(key, 32), isw == 1);
    SameBitsSamePair(Block(Flipped(inp), flipped, isw), Flipped(Block(inp, kns, isw)));
  }

  lemma PairSize(b: Immense)
    ensures |PairBits(b, 32)| == 64
  {
  }
}
