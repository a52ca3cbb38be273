/** The Data Encryption Standard (FIPS 46-3) on sequences of bits, bit 1 first, with its tables as printed. */
module DesStandard {
  type Bits = seq<bool>

  type Table = seq<seq<nat>>

  /** The initial permutation. */
  const IP: Table := [
    [58, 50, 42, 34, 26, 18, 10, 2],
    [60, 52, 44, 36, 28, 20, 12, 4],
    [62, 54, 46, 38, 30, 22, 14, 6],
    [64, 56, 48, 40, 32, 24, 16, 8],
    [57, 49, 41, 33, 25, 17, 9, 1],
    [59, 51, 43, 35, 27, 19, 11, 3],
    [61, 53, 45, 37, 29, 21, 13, 5],
    [63, 55, 47, 39, 31, 23, 15, 7]]

  /** The final permutation. */
  const IP_INVERSE: Table := [
    [40, 8, 48, 16, 56, 24, 64, 32],
    [39, 7, 47, 15, 55, 23, 63, 31],
    [38, 6, 46, 14, 54, 22, 62, 30],
    [37, 5, 45, 13, 53, 21, 61, 29],
    [36, 4, 44, 12, 52, 20, 60, 28],
    [35, 3, 43, 11, 51, 19, 59, 27],
    [34, 2, 42, 10, 50, 18, 58, 26],
    [33, 1, 41, 9, 49, 17, 57, 25]]

  /** The bits that enter the eight boxes, one row for each. */
  const E: Table := [
    [32, 1, 2, 3, 4, 5],
    [4, 5, 6, 7, 8, 9],
    [8, 9, 10, 11, 12, 13],
    [12, 13, 14, 15, 16, 17],
    [16, 17, 18, 19, 20, 21],
    [20, 21, 22, 23, 24, 25],
    [24, 25, 26, 27, 28, 29],
    [28, 29, 30, 31, 32, 1]]

  /** The permutation behind the boxes. */
  const P: Table := [
    [16, 7, 20, 21],
    [29, 12, 28, 17],
    [1, 15, 23, 26],
    [5, 18, 31, 10],
    [2, 8, 24, 14],
    [32, 27, 3, 9],
    [19, 13, 30, 6],
    [22, 11, 4, 25]]

  /** Permuted choice 1. */
  const PC1: Table := [
    [57, 49, 41, 33, 25, 17, 9],
    [1, 58, 50, 42, 34, 26, 18],
    [10, 2, 59, 51, 43, 35, 27],
    [19, 11, 3, 60, 52, 44, 36],
    [63, 55, 47, 39, 31, 23, 15],
    [7, 62, 54, 46, 38, 30, 22],
    [14, 6, 61, 53, 45, 37, 29],
    [21, 13, 5, 28, 20, 12, 4]]

  /** Permuted choice 2. */
  const PC2: Table := [
    [14, 17, 11, 24, 1, 5],
    [3, 28, 15, 6, 21, 10],
    [23, 19, 12, 4, 26, 8],
    [16, 7, 27, 20, 13, 2],
    [41, 52, 31, 37, 47, 55],
    [30, 40, 51, 45, 33, 48],
    [44, 49, 39, 56, 34, 53],
    [46, 42, 50, 36, 29, 32]]

  /** The rows of the eight selection functions. */
  const S1: Table := [
    [14, 4, 13, 1, 2, 15, 11, 8, 3, 10, 6, 12, 5, 9, 0, 7],
    [0, 15, 7, 4, 14, 2, 13, 1, 10, 6, 12, 11, 9, 5, 3, 8],
    [4, 1, 14, 8, 13, 6, 2, 11, 15, 12, 9, 7, 3, 10, 5, 0],
    [15, 12, 8, 2, 4, 9, 1, 7, 5, 11, 3, 14, 10, 0, 6, 13]]

  const S2: Table := [
    [15, 1, 8, 14, 6, 11, 3, 4, 9, 7, 2, 13, 12, 0, 5, 10],
    [3, 13, 4, 7, 15, 2, 8, 14, 12, 0, 1, 10, 6, 9, 11, 5],
    [0, 14, 7, 11, 10, 4, 13, 1, 5, 8, 12, 6, 9, 3, 2, 15],
    [13, 8, 10, 1, 3, 15, 4, 2, 11, 6, 7, 12, 0, 5, 14, 9]]

  const S3: Table := [
    [10, 0, 9, 14, 6, 3, 15, 5, 1, 13, 12, 7, 11, 4, 2, 8],
    [13, 7, 0, 9, 3, 4, 6, 10, 2, 8, 5, 14, 12, 11, 15, 1],
    [13, 6, 4, 9, 8, 15, 3, 0, 11, 1, 2, 12, 5, 10, 14, 7],
    [1, 10, 13, 0, 6, 9, 8, 7, 4, 15, 14, 3, 11, 5, 2, 12]]

  const S4: Table := [
    [7, 13, 14, 3, 0, 6, 9, 10, 1, 2, 8, 5, 11, 12, 4, 15],
    [13, 8, 11, 5, 6, 15, 0, 3, 4, 7, 2, 12, 1, 10, 14, 9],
    [10, 6, 9, 0, 12, 11, 7, 13, 15, 1, 3, 14, 5, 2, 8, 4],
    [3, 15, 0, 6, 10, 1, 13, 8, 9, 4, 5, 11, 12, 7, 2, 14]]

  const S5: Table := [
    [2, 12, 4, 1, 7, 10, 11, 6, 8, 5, 3, 15, 13, 0, 14, 9],
    [14, 11, 2, 12, 4, 7, 13, 1, 5, 0, 15, 10, 3, 9, 8, 6],
    [4, 2, 1, 11, 10, 13, 7, 8, 15, 9, 12, 5, 6, 3, 0, 14],
    [11, 8, 12, 7, 1, 14, 2, 13, 6, 15, 0, 9, 10, 4, 5, 3]]

  const S6: Table := [
    [12, 1, 10, 15, 9, 2, 6, 8, 0, 13, 3, 4, 14, 7, 5, 11],
    [10, 15, 4, 2, 7, 12, 9, 5, 6, 1, 13, 14, 0, 11, 3, 8],
    [9, 14, 15, 5, 2, 8, 12, 3, 7, 0, 4, 10, 1, 13, 11, 6],
    [4, 3, 2, 12, 9, 5, 15, 10, 11, 14, 1, 7, 6, 0, 8, 13]]

  const S7: Table := [
    [4, 11, 2, 14, 15, 0, 8, 13, 3, 12, 9, 7, 5, 10, 6, 1],
    [13, 0, 11, 7, 4, 9, 1, 10, 14, 3, 5, 12, 2, 15, 8, 6],
    [1, 4, 11, 13, 12, 3, 7, 14, 10, 15, 6, 8, 0, 5, 9, 2],
    [6, 11, 13, 8, 1, 4, 10, 7, 9, 5, 0, 15, 14, 2, 3, 12]]

  const S8: Table := [
    [13, 2, 8, 4, 6, 15, 11, 1, 10, 9, 3, 14, 5, 0, 12, 7],
    [1, 15, 13, 8, 10, 3, 7, 4, 12, 5, 6, 11, 0, 14, 9, 2],
    [7, 11, 4, 1, 9, 12, 14, 2, 0, 6, 10, 13, 15, 3, 5, 8],
    [2, 1, 14, 7, 4, 10, 8, 13, 15, 12, 9, 0, 3, 5, 6, 11]]

  const SHIFTS: seq<nat> := [1, 1, 2, 2, 2, 2, 2, 2, 1, 2, 2, 2, 2, 2, 2, 1]

  function Cell(table: Table, row: nat, column: nat): nat {
    if row < |table| && column < |table[row]| then table[row][column] else 0
  }

  predicate Bit(b: Bits, n: nat) {
    1 <= n <= |b| && b[n - 1]
  }

  /** The bits that a table with rows of one width names, row by row. */
  function Select(table: Table, width: nat, b: Bits): (s: Bits)
    requires width > 0
    ensures |s| == |table| * width
  {
    seq(|table| * width, i requires 0 <= i => Bit(b, Cell(table, i / width, i % width)))
  }

  /** Addition bit by bit modulo 2. */
  function Plus(a: Bits, b: Bits): (s: Bits)
    requires |a| == |b|
    ensures |s| == |a|
  {
    seq(|a|, i requires 0 <= i < |a| => a[i] != b[i])
  }

  // ---- The cipher function

  function Box(k: nat): Table {
    if k == 1 then S1 else if k == 2 then S2 else if k == 3 then S3 else if k == 4 then S4 else
    if k == 5 then S5 else if k == 6 then S6 else if k == 7 then S7 else S8
  }

  function Digit(b: bool): nat {
    if b then 1 else 0
  }

  /** The number in the row that the outer bits and the column that the inner bits spell. */
  function Choice(k: nat, b: Bits): nat
    requires |b| == 6
  {
    Cell(Box(k), 2 * Digit(b[0]) + Digit(b[5]), 8 * Digit(b[1]) + 4 * Digit(b[2]) + 2 * Digit(b[3]) + Digit(b[4]))
  }

  /** A number below sixteen as four bits. */
  function Spelled(v: nat): (s: Bits)
    ensures |s| == 4
  {
    [v / 8 % 2 == 1, v / 4 % 2 == 1, v / 2 % 2 == 1, v % 2 == 1]
  }

  /** The blocks of six bits before block `n`, each replaced by four bits. */
  function Chosen(x: Bits, n: nat): (s: Bits)
    requires 6 * n <= |x|
    ensures |s| == 4 * n
  {
    if n == 0 then [] else Chosen(x, n - 1) + Spelled(Choice(n, x[6 * n - 6..6 * n]))
  }

  function F(r: Bits, k: Bits): (s: Bits)
    requires |k| == 48
    ensures |s| == 32
  {
    Select(P, 4, Chosen(Plus(Select(E, 6, r), k), 8))
  }

  // ---- The key schedule

  function RotateLeft(b: Bits, n: nat): (s: Bits)
    requires n <= |b|
    ensures |s| == |b|
  {
    b[n..] + b[..n]
  }

  /** The halves after `n` shifts. */
  function Halves(key: Bits, n: nat): (h: (Bits, Bits))
    requires n <= 16
    ensures |h.0| == |h.1| == 28
  {
    if n == 0 then
      var chosen := Select(PC1, 7, key);
      (chosen[..28], chosen[28..])
    else
      var h := Halves(key, n - 1);
      (RotateLeft(h.0, SHIFTS[n - 1]), RotateLeft(h.1, SHIFTS[n - 1]))
  }

  function RoundKey(key: Bits, n: nat): (k: Bits)
    requires n <= 16
    ensures |k| == 48
  {
    var h := Halves(key, n);
    Select(PC2, 6, h.0 + h.1)
  }

  // ---- The rounds

  /** The halves of a block after `n` rounds; deciphering takes the round keys in the opposite order. */
  function State(block: Bits, key: Bits, decipher: bool, n: nat): (s: (Bits, Bits))
    requires n <= 16
    ensures |s.0| == |s.1| == 32
  {
    if n == 0 then
      var permuted := Select(IP, 8, block);
      (permuted[..32], permuted[32..])
    else
      var s := State(block, key, decipher, n - 1);
      (s.1, Plus(s.0, F(s.1, RoundKey(key, if decipher then 17 - n else n))))
  }

  function Crypt(block: Bits, key: Bits, decipher: bool): (s: Bits)
    ensures |s| == 64
  {
    var s := State(block, key, decipher, 16);
    Select(IP_INVERSE, 8, s.1 + s.0)
  }
}
