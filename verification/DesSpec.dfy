/** The cipher as sixteen Feistel rounds between two permutations, and its key schedule. */
module DesSpec {
  import opened BitTables
  import opened DesTables

  /** Forty-eight bits in three words of sixteen, the bits of `r` first. */
  datatype Great = Great(l: bv32, c: bv32, r: bv32)

  // ---- The round function

  /** Bits of a half block or of a substituted word, in a pair of which only `r` is used. */
  function Alone(w: bv32): Immense {
    Immense(0, w)
  }

  function Expanded(ir: bv32): Great {
    Great(Gather(Alone(ir), Iet, 33, 48, 32), Gather(Alone(ir), Iet, 17, 32, 32), Gather(Alone(ir), Iet, 1, 16, 32))
  }

  function Keyed(ie: Great, k: Great): Great {
    Great(Xor(ie.l, k.l), Xor(ie.c, k.c), Xor(ie.r, k.r))
  }

  function Beside(c: bv32, r: bv32): bv32 {
    (c << 16) + r
  }

  function Above(l: bv32, c: bv32): bv32 {
    (l << 8) + (c >> 8)
  }

  /** Moving down by six bits, `n` times. */
  function DownSixes(w: bv32, n: nat): bv32 {
    if n == 0 then w else if n == 1 then w >> 6 else if n == 2 then w >> 12 else if n == 3 then w >> 18 else w >> 24
  }

  function DownSix(w: bv32): bv32 {
    w >> 6
  }

  lemma SixMoreDown(w: bv32, n: nat)
    requires n < 4
    ensures DownSixes(w, n + 1) == DownSix(DownSixes(w, n))
  {
    if n == 0 {
    } else if n == 1 {
    } else if n == 2 {
    } else {
    }
  }

  function LastSix(w: bv32): bv32 {
    w & 0x3f
  }

  function SixAt(w: bv32, n: nat): bv32 {
    LastSix(DownSixes(w, n))
  }

  /** The six bits that box `jj` reads. */
  function Six(ie: Great, jj: nat): bv32
    requires 1 <= jj <= 8
  {
    if jj <= 4 then SixAt(Beside(ie.c, ie.r), jj - 1) else SixAt(Above(ie.l, ie.c), jj - 5)
  }

  function RowOf(j: bv32): (row: bv32)
    ensures row < 4
  {
    ((j & 0x1) << 1) + ((j & 0x20) >> 5)
  }

  function ColumnOf(j: bv32): (column: bv32)
    ensures column < 16
  {
    ((j & 0x2) << 2) + (j & 0x4) + ((j & 0x8) >> 2) + ((j & 0x10) >> 4)
  }

  function Substitute(j: bv32, jj: nat): bv32
    requires 1 <= jj <= 8
  {
    Ibin(Entry(ColumnOf(j) as int, RowOf(j) as int, jj))
  }

  function AddNibble(w: bv32, n: bv32): bv32 {
    (w << 4) | n
  }

  /** The substituted nibbles of boxes `jj` to 8, box `jj` lowest. */
  function Substituted(ie: Great, jj: nat): bv32
    requires 1 <= jj <= 9
    decreases 9 - jj
  {
    if jj == 9 then 0 else AddNibble(Substituted(ie, jj + 1), Substitute(Six(ie, jj), jj))
  }

  function CyFun(ir: bv32, k: Great): bv32 {
    Gather(Alone(Substituted(Keyed(Expanded(ir), k), 1)), Ipp, 1, 32, 32)
  }

  // ---- The rounds

  function Round(x: Immense, k: Great): Immense {
    Immense(Xor(CyFun(x.l, k), x.r), x.l)
  }

  function KeyIndex(isw: int, i: int): int {
    if isw == 1 then 17 - i else i
  }

  function Rounds(x: Immense, kns: seq<Great>, isw: int, n: nat): Immense
    requires |kns| == 17 && n <= 16
  {
    if n == 0 then x else Round(Rounds(x, kns, isw, n - 1), kns[KeyIndex(isw, n)])
  }

  function Swap(x: Immense): Immense {
    Immense(x.r, x.l)
  }

  /** One block under a stored schedule. */
  function Block(inp: Immense, kns: seq<Great>, isw: int): Immense
    requires |kns| == 17
  {
    Permuted(Swap(Rounds(Permuted(inp, Ip), kns, isw, 16)), Ipm)
  }

  // ---- Deciphering

  /** A round on the swapped result of a round with the same key undoes it. */
  lemma RoundBack(x: Immense, k: Great)
    ensures Round(Swap(Round(x, k)), k) == Swap(x)
  {
    hide CyFun, Xor;
    XorFacts(CyFun(x.l, k), x.r);
  }

  /** The rounds in one direction retrace those in the other. */
  lemma {:induction false} RoundsBack(x: Immense, kns: seq<Great>, isw: int, back: int, n: nat)
    requires |kns| == 17 && n <= 16 && (isw == 1) != (back == 1)
    ensures Rounds(Swap(Rounds(x, kns, isw, 16)), kns, back, n) == Swap(Rounds(x, kns, isw, 16 - n))
  {
    hide Round, Swap;
    if n > 0 {
      RoundsBack(x, kns, isw, back, n - 1);
      RoundBack(Rounds(x, kns, isw, 16 - n), kns[KeyIndex(back, n)]);
    }
  }

  /** Running a block both ways under one stored schedule gives the block back, whatever the schedule. */
  lemma Deciphers(b: Immense, kns: seq<Great>, isw: int, back: int)
    requires |kns| == 17 && (isw == 1) != (back == 1)
    ensures Block(Block(b, kns, isw), kns, back) == b
  {
    hide Permuted, Rounds;
    forall n: Position ensures Ip(Ipm(n)) == n && Ipm(Ip(n)) == n {
      PermutationsUndo(n);
    }
    hide Ip, Ipm;
    var x := Permuted(b, Ip);
    var y := Rounds(x, kns, isw, 16);
    PermutedBack(Swap(y), Ipm, Ip);
    RoundsBack(x, kns, isw, back, 16);
    RoundsNone(x, kns, isw);
    PermutedBack(b, Ip, Ipm);
  }

  lemma RoundsNone(x: Immense, kns: seq<Great>, isw: int)
    requires |kns| == 17
    ensures Rounds(x, kns, isw, 0) == x
  {
  }

  // ---- The key schedule

  function KeyStart(key: Immense): Immense {
    Immense(Gather(key, Ipc1, 29, 56, 32), Gather(key, Ipc1, 1, 28, 32))
  }

  /** One place to the right around a half of twenty-eight bits. */
  function TurnWord(w: bv32): bv32 {
    (w | ((w & 1) << 28)) >> 1
  }

  function Turn(icd: Immense, n: nat): Immense {
    if n == 0 then icd else var t := Turn(icd, n - 1); Immense(TurnWord(t.l), TurnWord(t.r))
  }

  /** The turns made by call `n` of the schedule. */
  function Turns(n: nat): nat {
    if n == 1 || n == 2 || n == 9 || n == 16 then 1 else 2
  }

  function KeyOf(icd: Immense): Great {
    Great(Gather(icd, Ipc2, 33, 48, 28), Gather(icd, Ipc2, 17, 32, 28), Gather(icd, Ipc2, 1, 16, 28))
  }

  /** The halves after `n` calls. */
  function Scheduled(icd: Immense, n: nat): Immense {
    if n == 0 then icd else Turn(Scheduled(icd, n - 1), Turns(n))
  }

  /** The total turns of the standard's table of left shifts. */
  function TotalTurns(n: nat): nat {
    if n <= 1 then n else if n <= 8 then 2 * n - 2 else if n <= 15 then 2 * n - 3 else 28
  }

  lemma {:induction false} TurnTurn(icd: Immense, m: nat, n: nat)
    ensures Turn(Turn(icd, m), n) == Turn(icd, m + n)
  {
    hide TurnWord;
    if n > 0 {
      TurnTurn(icd, m, n - 1);
    }
  }

  /** Key `n` comes from the first halves turned by the running total. */
  lemma {:induction false} ScheduleTotals(icd: Immense, n: nat)
    requires n <= 16
    ensures Scheduled(icd, n) == Turn(icd, TotalTurns(n))
  {
    if n > 0 {
      ScheduleTotals(icd, n - 1);
      TurnTurn(icd, TotalTurns(n - 1), Turns(n));
    }
  }

  predicate Narrow(icd: Immense) {
    icd.l < 0x1000_0000 && icd.r < 0x1000_0000
  }

  function TurnFour(w: bv32): bv32 {
    ((w & 0xF) << 24) | (w >> 4)
  }

  lemma FourTurns(icd: Immense)
    requires Narrow(icd)
    ensures Turn(icd, 4) == Immense(TurnFour(icd.l), TurnFour(icd.r)) && Narrow(Turn(icd, 4))
  {
    TurnFourWord(icd.l);
    TurnFourWord(icd.r);
    hide TurnWord;
    var l1, r1 := TurnWord(icd.l), TurnWord(icd.r);
    var l2, r2 := TurnWord(l1), TurnWord(r1);
    assert Turn(icd, 1) == Immense(l1, r1);
    assert Turn(icd, 2) == Immense(l2, r2);
    assert Turn(icd, 3) == Immense(TurnWord(l2), TurnWord(r2));
    assert Turn(icd, 4) == Immense(TurnWord(TurnWord(l2)), TurnWord(TurnWord(r2)));
  }

  lemma TurnFourWord(w: bv32)
    requires w < 0x1000_0000
    ensures TurnWord(TurnWord(TurnWord(TurnWord(w)))) == TurnFour(w) && TurnFour(w) < 0x1000_0000
  {
  }

  lemma SevenTimesFour(w: bv32)
    requires w < 0x1000_0000
    ensures TurnFour(TurnFour(TurnFour(TurnFour(TurnFour(TurnFour(TurnFour(w))))))) == w
  {
  }

  /** Twenty-eight turns bring the halves back. */
  lemma FullTurn(icd: Immense)
    requires Narrow(icd)
    ensures Turn(icd, 28) == icd
  {
    SevenTimesFour(icd.l);
    SevenTimesFour(icd.r);
    hide TurnFour, Turn, Narrow;
    var a := Turn(icd, 4);
    var b := Turn(a, 4);
    var c := Turn(b, 4);
    var d := Turn(c, 4);
    var e := Turn(d, 4);
    var f := Turn(e, 4);
    FourTurns(icd);
    FourTurns(a);
    FourTurns(b);
    FourTurns(c);
    FourTurns(d);
    FourTurns(e);
    FourTurns(f);
    TurnTurn(icd, 4, 4);
    TurnTurn(icd, 8, 4);
    TurnTurn(icd, 12, 4);
    TurnTurn(icd, 16, 4);
    TurnTurn(icd, 20, 4);
    TurnTurn(icd, 24, 4);
  }

  /** The sixteen calls of the schedule leave the halves as they were. */
  lemma ScheduleRestores(icd: Immense)
    requires Narrow(icd)
    ensures Scheduled(icd, 16) == icd
  {
    ScheduleTotals(icd, 16);
    FullTurn(icd);
  }

  /** Gathering at most `bits` bits leaves the word below the next power. */
  lemma {:induction false} GatheredSmall(source: Immense, table: nat -> Position, lo: nat, hi: nat, width: nat, i: nat)
    requires 1 <= width <= 32 && hi + 1 - lo < i && 1 <= i <= 32
    ensures !BitOf(Gather(source, table, lo, hi, width), i)
    decreases hi + 1 - lo
  {
    hide Push, BitOf;
    if lo > hi {
      ZeroBit(i);
    } else {
      GatheredSmall(source, table, lo + 1, hi, width, i - 1);
      PushedBit(Gather(source, table, lo + 1, hi, width), PairBit(source, table(lo), width), i - 1);
    }
  }

  lemma ZeroBit(i: nat)
    requires 1 <= i <= 32
    ensures !BitOf(0, i)
  {
  }

  lemma KeyStartNarrow(key: Immense)
    ensures Narrow(KeyStart(key))
  {
    BelowTwentyEight(key, 1, 28);
    BelowTwentyEight(key, 29, 56);
  }

  lemma BelowTwentyEight(key: Immense, lo: nat, hi: nat)
    requires hi + 1 - lo == 28
    ensures Gather(key, Ipc1, lo, hi, 32) < 0x1000_0000
  {
    var w := Gather(key, Ipc1, lo, hi, 32);
    GatheredSmall(key, Ipc1, lo, hi, 32, 29);
    GatheredSmall(key, Ipc1, lo, hi, 32, 30);
    GatheredSmall(key, Ipc1, lo, hi, 32, 31);
    GatheredSmall(key, Ipc1, lo, hi, 32, 32);
    hide Gather;
    HighBitsClear(w);
  }

  lemma HighBitsClear(w: bv32)
    requires !BitOf(w, 29) && !BitOf(w, 30) && !BitOf(w, 31) && !BitOf(w, 32)
    ensures w < 0x1000_0000
  {
  }
}
