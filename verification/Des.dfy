/** The cipher as the program runs it, with its bit table, key halves and stored schedule. */
module Des {
  import opened BitTables
  import opened DesTables
  import opened DesSpec
  import opened DesRoundFunction
  import opened DesRefinement
  import Std = DesStandard

  class Cipher {
    var initflag: bool
    const bit: array<bv32>
    var icd: Immense
    const kns: array<Great>

    ghost predicate Valid()
      reads this, bit
    {
      && bit.Length == 33 && kns.Length == 17
      && (!initflag ==> Filled(32))
    }

    ghost predicate Filled(n: nat)
      requires bit.Length == 33 && n <= 32
      reads bit
    {
      forall i: nat | 1 <= i <= n :: bit[i] == Mask(i)
    }

    constructor ()
      ensures Valid() && initflag && fresh(bit) && fresh(kns)
    {
      initflag := true;
      bit := new bv32[33](_ => 0);
      icd := Immense(0, 0);
      kns := new Great[17](_ => Great(0, 0, 0));
    }

    method FillBits()
      requires Valid()
      modifies this`initflag, bit
      ensures Valid() && !initflag
    {
      hide Mask;
      initflag := false;
      var shifter: bv32 := 1;
      FirstMask();
      bit[1] := shifter;
      var j := 2;
      while j <= 32
        invariant 2 <= j <= 33 && !initflag
        invariant Filled(j - 1) && shifter == Mask(j - 1)
      {
        MaskDoubles(j - 1);
        shifter := Twice(shifter);
        bit[j] := shifter;
        j := j + 1;
      }
      assert Filled(32);
    }

    method GetBit(source: Immense, bitno: Position, nbits: nat) returns (b: bv32)
      requires Valid() && !initflag && 1 <= nbits <= 32 && bitno <= nbits + 32
      ensures b == BitValue(PairBit(source, bitno, nbits))
    {
      hide Mask, Hit;
      if bitno <= nbits {
        b := if Hit(source.r, bit[bitno]) then 1 else 0;
      } else {
        b := if Hit(source.l, bit[bitno - nbits]) then 1 else 0;
      }
    }

    /** Fills two words of `top` bits from the two halves of a table, from the last entries down. */
    method Arrange(source: Immense, table: nat -> Position, top: nat) returns (out: Immense)
      requires Valid() && !initflag && 1 <= top
      ensures out == Immense(Gather(source, table, top + 1, 2 * top, 32), Gather(source, table, 1, top, 32))
    {
      hide PairBit, AddBit;
      var l: bv32, r: bv32 := 0, 0;
      var j, k := top, 2 * top;
      while j >= 1
        invariant 0 <= j <= top && k == j + top
        invariant r == Gather(source, table, j + 1, top, 32)
        invariant l == Gather(source, table, k + 1, 2 * top, 32)
      {
        var b := GetBit(source, table(j), 32);
        r := AddBit(r, b);
        b := GetBit(source, table(k), 32);
        l := AddBit(l, b);
        j, k := j - 1, k - 1;
      }
      out := Immense(l, r);
    }

    /** One call of the key schedule: turns both halves and makes round key `n`. */
    method Ks(n: nat) returns (kn: Great)
      requires Valid() && !initflag
      modifies this`icd
      ensures Valid() && icd == Turn(old(icd), Turns(n)) && kn == KeyOf(icd)
    {
      hide Turn, KeyOf;
      NoTurn(icd);
      if n == 1 || n == 2 || n == 9 || n == 16 {
        TurnOne();
      } else {
        var i := 1;
        while i <= 2
          invariant 1 <= i <= 3 && Valid()
          invariant icd == Turn(old(icd), i - 1)
        {
          TurnOne();
          TurnTurn(old(icd), i - 1, 1);
          i := i + 1;
        }
      }
      kn := MakeKey();
    }

    method MakeKey() returns (kn: Great)
      requires Valid() && !initflag
      ensures kn == KeyOf(icd)
    {
      hide PairBit, AddBit, Ipc2;
      var l: bv32, c: bv32, r: bv32 := 0, 0, 0;
      var j := 16;
      while j >= 1
        invariant 0 <= j <= 16
        invariant r == Gather(icd, Ipc2, j + 1, 16, 28)
        invariant c == Gather(icd, Ipc2, j + 17, 32, 28)
        invariant l == Gather(icd, Ipc2, j + 33, 48, 28)
      {
        EntriesFit(j);
        EntriesFit(j + 16);
        EntriesFit(j + 32);
        var b := GetBit(icd, Ipc2(j), 28);
        r := AddBit(r, b);
        b := GetBit(icd, Ipc2(j + 16), 28);
        c := AddBit(c, b);
        b := GetBit(icd, Ipc2(j + 32), 28);
        l := AddBit(l, b);
        j := j - 1;
      }
      kn := Great(l, c, r);
    }

    method TurnOne()
      modifies this`icd
      ensures icd == Turn(old(icd), 1)
    {
      icd := Immense((icd.l | ((icd.l & 1) << 28)) >> 1, (icd.r | ((icd.r & 1) << 28)) >> 1);
    }

    /** The round function: expansion, key, substitution and permutation. */
    method CyFunction(ir: bv32, k: Great) returns (iout: bv32)
      requires Valid() && !initflag
      ensures iout == CyFun(ir, k)
      ensures Thin(k) ==> WordBits(iout, 32) == Std.F(WordBits(ir, 32), GreatBits(k))
    {
      hide Thin, WordBits, GreatBits, Std.F, CyFun;
      hide Gather, Entry, Ibin, Xor, Six, AddNibble, ColumnOf, RowOf, Mask;
      var ie := Expand(ir);
      ie := Great(Xor(ie.l, k.l), Xor(ie.c, k.c), Xor(ie.r, k.r));
      var iec := SixBits(ie);
      var itmp: bv32 := 0;
      var jj := 8;
      while jj >= 1
        invariant 0 <= jj <= 8
        invariant itmp == Substituted(ie, jj + 1)
      {
        var j := iec[jj];
        itmp := AddNibble(itmp, Ibin(Entry(ColumnOf(j) as int, RowOf(j) as int, jj)));
        jj := jj - 1;
      }
      iout := Spread(itmp);
      CyFunIs(ir, k);
      if Thin(k) {
        RoundFunctionIs(ir, k);
      }
    }

    method Expand(ir: bv32) returns (ie: Great)
      requires Valid() && !initflag
      ensures ie == Expanded(ir)
    {
      hide PairBit, AddBit, Iet;
      var l: bv32, c: bv32, r: bv32 := 0, 0, 0;
      var j := 16;
      while j >= 1
        invariant 0 <= j <= 16
        invariant r == Gather(Alone(ir), Iet, j + 1, 16, 32)
        invariant c == Gather(Alone(ir), Iet, j + 17, 32, 32)
        invariant l == Gather(Alone(ir), Iet, j + 33, 48, 32)
      {
        var b := GetBit(Alone(ir), Iet(j), 32);
        r := AddBit(r, b);
        b := GetBit(Alone(ir), Iet(j + 16), 32);
        c := AddBit(c, b);
        b := GetBit(Alone(ir), Iet(j + 32), 32);
        l := AddBit(l, b);
        j := j - 1;
      }
      ie := Great(l, c, r);
    }

    /** Cuts forty-eight bits into eight sixes, from the low end. */
    method SixBits(ie: Great) returns (iec: array<bv32>)
      ensures fresh(iec) && iec.Length == 9
      ensures forall jj: nat | 1 <= jj <= 8 :: iec[jj] == Six(ie, jj)
    {
      hide Six, Beside, Above, LastSix, DownSix, DownSixes;
      var ietmp1, ietmp2 := Beside(ie.c, ie.r), Above(ie.l, ie.c);
      iec := new bv32[9](_ => 0);
      NoSixDown(ietmp1);
      NoSixDown(ietmp2);
      var j := 1;
      while j <= 4
        invariant 1 <= j <= 5
        invariant ietmp1 == DownSixes(Beside(ie.c, ie.r), j - 1)
        invariant ietmp2 == DownSixes(Above(ie.l, ie.c), j - 1)
        invariant forall jj: nat | 1 <= jj < j :: iec[jj] == Six(ie, jj)
        invariant forall jj: nat | 5 <= jj < j + 4 :: iec[jj] == Six(ie, jj)
      {
        iec[j] := LastSix(ietmp1);
        iec[j + 4] := LastSix(ietmp2);
        SixesAre(ie, j);
        SixMoreDown(Beside(ie.c, ie.r), j - 1);
        SixMoreDown(Above(ie.l, ie.c), j - 1);
        ietmp1 := DownSix(ietmp1);
        ietmp2 := DownSix(ietmp2);
        j := j + 1;
      }
    }

    method Spread(itmp: bv32) returns (iout: bv32)
      requires Valid() && !initflag
      ensures iout == Gather(Alone(itmp), Ipp, 1, 32, 32)
    {
      hide PairBit, AddBit, Ipp;
      iout := 0;
      var j := 32;
      while j >= 1
        invariant 0 <= j <= 32
        invariant iout == Gather(Alone(itmp), Ipp, j + 1, 32, 32)
      {
        var b := GetBit(Alone(itmp), Ipp(j), 32);
        iout := AddBit(iout, b);
        j := j - 1;
      }
    }

    /** Makes and stores the sixteen round keys of a key. */
    method NewSchedule(key: Immense)
      requires Valid() && !initflag
      modifies this`icd, kns
      ensures Valid() && icd == KeyStart(key) && IsScheduleOf(kns[..], key)
    {
      hide Turn, KeyOf, Gather, Narrow;
      icd := Arrange(key, Ipc1, 28);
      var i := 1;
      while i <= 16
        invariant 1 <= i <= 17 && Valid() && !initflag
        invariant icd == Scheduled(KeyStart(key), i - 1)
        invariant forall n: nat | 1 <= n < i :: kns[n] == KeyOf(Turn(KeyStart(key), TotalTurns(n)))
      {
        var pg := Ks(i);
        ScheduleTotals(KeyStart(key), i);
        kns[i] := pg;
        i := i + 1;
      }
      KeyStartNarrow(key);
      ScheduleRestores(KeyStart(key));
    }

    /** Enciphers or deciphers one block, first making a schedule when a new key is flagged. */
    method Run(inp: Immense, key: Immense, newkey: int, isw: int) returns (out: Immense, stillNew: int)
      requires Valid()
      modifies this, bit, kns
      ensures Valid() && !initflag && stillNew == 0
      ensures newkey == 0 ==> icd == old(icd) && kns[..] == old(kns[..])
      ensures newkey != 0 ==> icd == KeyStart(key) && IsScheduleOf(kns[..], key)
      ensures out == Block(inp, kns[..], isw)
      ensures newkey != 0 ==> IsStandard(inp, key, isw, out)
      ensures newkey == 0 ==> forall k | IsScheduleOf(kns[..], k) :: IsStandard(inp, k, isw, out)
    {
      hide Block, KeyOf, Turn, KeyStart, TotalTurns, Mask, IsScheduleOf, IsStandard;
      if initflag {
        FillBits();
      }
      stillNew := newkey;
      if newkey != 0 {
        stillNew := 0;
        NewSchedule(key);
      }
      out := Transform(inp, isw);
      forall k | IsScheduleOf(kns[..], k)
        ensures IsStandard(inp, k, isw, out)
      {
        BlockIsStandard(inp, kns[..], k, isw);
      }
    }

    /** Sixteen rounds between the two permutations, under the stored keys. */
    method Transform(inp: Immense, isw: int) returns (out: Immense)
      requires Valid() && !initflag
      ensures out == Block(inp, kns[..], isw)
    {
      hide Gather, CyFun, Xor, Mask;
      var itmp := Arrange(inp, Ip, 32);
      var i := 1;
      while i <= 16
        invariant 1 <= i <= 17
        invariant itmp == Rounds(Permuted(inp, Ip), kns[..], isw, i - 1)
      {
        var ii := if isw == 1 then 17 - i else i;
        var ic := CyFunction(itmp.l, kns[ii]);
        itmp := Immense(Xor(ic, itmp.r), itmp.l);
        i := i + 1;
      }
      itmp := Immense(itmp.r, itmp.l);
      out := Arrange(itmp, Ipm, 32);
    }
  }

  /** A block run one way under a new key and the other way under the stored schedule comes back. */
  method ThereAndBack(inp: Immense, key: Immense, isw: int, other: int) returns (back: Immense)
    requires (isw == 1) != (other == 1)
    ensures back == inp
  {
    hide Block, KeyOf, Turn, KeyStart, TotalTurns;
    var cipher := new Cipher();
    var out, newkey := cipher.Run(inp, key, 1, isw);
    ghost var keys := cipher.kns[..];
    back, newkey := cipher.Run(out, key, newkey, other);
    Deciphers(inp, keys, isw, other);
  }

  lemma NoTurn(icd: Immense)
    ensures Turn(icd, 0) == icd
  {
  }

  lemma CyFunIs(ir: bv32, k: Great)
    ensures CyFun(ir, k) == Gather(Alone(Substituted(Keyed(Expanded(ir), k), 1)), Ipp, 1, 32, 32)
  {
  }

  lemma NoSixDown(w: bv32)
    ensures DownSixes(w, 0) == w
  {
  }

  lemma SixesAre(ie: Great, j: nat)
    requires 1 <= j <= 4
    ensures Six(ie, j) == LastSix(DownSixes(Beside(ie.c, ie.r), j - 1))
    ensures Six(ie, j + 4) == LastSix(DownSixes(Above(ie.l, ie.c), j - 1))
  {
  }

  function Twice(w: bv32): bv32 {
    w << 1
  }

  lemma FirstMask()
    ensures Mask(1) == 1
  {
  }
}
