/** The tables of the cipher, entries numbered from one. */
module DesTables {
  import opened BitTables

  function Pick<T>(i: int, a: T, b: T, c: T, d: T, e: T, f: T, g: T, h: T): T {
    if i == 1 then a else if i == 2 then b else if i == 3 then c else if i == 4 then d else
    if i == 5 then e else if i == 6 then f else if i == 7 then g else h
  }

  /** The initial permutation. */
  function Ip(j: nat): Position {
    if j <= 8 then Pick(j, 58, 50, 42, 34, 26, 18, 10, 2) else
    if j <= 16 then Pick(j - 8, 60, 52, 44, 36, 28, 20, 12, 4) else
    if j <= 24 then Pick(j - 16, 62, 54, 46, 38, 30, 22, 14, 6) else
    if j <= 32 then Pick(j - 24, 64, 56, 48, 40, 32, 24, 16, 8) else
    if j <= 40 then Pick(j - 32, 57, 49, 41, 33, 25, 17, 9, 1) else
    if j <= 48 then Pick(j - 40, 59, 51, 43, 35, 27, 19, 11, 3) else
    if j <= 56 then Pick(j - 48, 61, 53, 45, 37, 29, 21, 13, 5) else
    Pick(j - 56, 63, 55, 47, 39, 31, 23, 15, 7)
  }

  /** The final permutation. */
  function Ipm(j: nat): Position {
    if j <= 8 then Pick(j, 40, 8, 48, 16, 56, 24, 64, 32) else
    if j <= 16 then Pick(j - 8, 39, 7, 47, 15, 55, 23, 63, 31) else
    if j <= 24 then Pick(j - 16, 38, 6, 46, 14, 54, 22, 62, 30) else
    if j <= 32 then Pick(j - 24, 37, 5, 45, 13, 53, 21, 61, 29) else
    if j <= 40 then Pick(j - 32, 36, 4, 44, 12, 52, 20, 60, 28) else
    if j <= 48 then Pick(j - 40, 35, 3, 43, 11, 51, 19, 59, 27) else
    if j <= 56 then Pick(j - 48, 34, 2, 42, 10, 50, 18, 58, 26) else
    Pick(j - 56, 33, 1, 41, 9, 49, 17, 57, 25)
  }

  /** The key bits that start the schedule. */
  function Ipc1(j: nat): Position {
    if j <= 8 then Pick(j, 57, 49, 41, 33, 25, 17, 9, 1) else
    if j <= 16 then Pick(j - 8, 58, 50, 42, 34, 26, 18, 10, 2) else
    if j <= 24 then Pick(j - 16, 59, 51, 43, 35, 27, 19, 11, 3) else
    if j <= 32 then Pick(j - 24, 60, 52, 44, 36, 63, 55, 47, 39) else
    if j <= 40 then Pick(j - 32, 31, 23, 15, 7, 62, 54, 46, 38) else
    if j <= 48 then Pick(j - 40, 30, 22, 14, 6, 61, 53, 45, 37) else
    Pick(j - 48, 29, 21, 13, 5, 28, 20, 12, 4)
  }

  /** The schedule bits that make a round key. */
  function Ipc2(j: nat): Position {
    if j <= 8 then Pick(j, 14, 17, 11, 24, 1, 5, 3, 28) else
    if j <= 16 then Pick(j - 8, 15, 6, 21, 10, 23, 19, 12, 4) else
    if j <= 24 then Pick(j - 16, 26, 8, 16, 7, 27, 20, 13, 2) else
    if j <= 32 then Pick(j - 24, 41, 52, 31, 37, 47, 55, 30, 40) else
    if j <= 40 then Pick(j - 32, 51, 45, 33, 48, 44, 49, 39, 56) else
    Pick(j - 40, 34, 53, 46, 42, 50, 36, 29, 32)
  }

  /** The expansion of half a block. */
  function Iet(j: nat): Position {
    if j <= 8 then Pick(j, 32, 1, 2, 3, 4, 5, 4, 5) else
    if j <= 16 then Pick(j - 8, 6, 7, 8, 9, 8, 9, 10, 11) else
    if j <= 24 then Pick(j - 16, 12, 13, 12, 13, 14, 15, 16, 17) else
    if j <= 32 then Pick(j - 24, 16, 17, 18, 19, 20, 21, 20, 21) else
    if j <= 40 then Pick(j - 32, 22, 23, 24, 25, 24, 25, 26, 27) else
    Pick(j - 40, 28, 29, 28, 29, 30, 31, 32, 1)
  }

  /** The permutation after the substitution. */
  function Ipp(j: nat): Position {
    if j <= 8 then Pick(j, 16, 7, 20, 21, 29, 12, 28, 17) else
    if j <= 16 then Pick(j - 8, 1, 15, 23, 26, 5, 18, 31, 10) else
    if j <= 24 then Pick(j - 16, 2, 8, 24, 14, 32, 27, 3, 9) else
    Pick(j - 24, 19, 13, 30, 6, 22, 11, 4, 25)
  }

  type Nibble = n: nat | n < 16

  /** The substitution entry of one column and row for box `jj`. */
  function Entry(icol: nat, irow: nat, jj: nat): Nibble
    requires icol < 16 && irow < 4 && 1 <= jj <= 8
  {
    if icol == 0 then
      (if irow == 0 then Pick(jj, 14, 15, 10, 7, 2, 12, 4, 13)
      else if irow == 1 then Pick(jj, 0, 3, 13, 13, 14, 10, 13, 1)
      else if irow == 2 then Pick(jj, 4, 0, 13, 10, 4, 9, 1, 7)
      else Pick(jj, 15, 13, 1, 3, 11, 4, 6, 2)) else
    if icol == 1 then
      (if irow == 0 then Pick(jj, 4, 1, 0, 13, 12, 1, 11, 2)
      else if irow == 1 then Pick(jj, 15, 13, 7, 8, 11, 15, 0, 15)
      else if irow == 2 then Pick(jj, 1, 14, 6, 6, 2, 14, 4, 11)
      else Pick(jj, 12, 8, 10, 15, 8, 3, 11, 1)) else
    if icol == 2 then
      (if irow == 0 then Pick(jj, 13, 8, 9, 14, 4, 10, 2, 8)
      else if irow == 1 then Pick(jj, 7, 4, 0, 11, 2, 4, 11, 13)
      else if irow == 2 then Pick(jj, 14, 7, 4, 9, 1, 15, 11, 4)
      else Pick(jj, 8, 10, 13, 0, 12, 2, 13, 14)) else
    if icol == 3 then
      (if irow == 0 then Pick(jj, 1, 14, 14, 3, 1, 15, 14, 4)
      else if irow == 1 then Pick(jj, 4, 7, 9, 5, 12, 2, 7, 8)
      else if irow == 2 then Pick(jj, 8, 11, 9, 0, 11, 5, 13, 1)
      else Pick(jj, 2, 1, 0, 6, 7, 12, 8, 7)) else
    if icol == 4 then
      (if irow == 0 then Pick(jj, 2, 6, 6, 0, 7, 9, 15, 6)
      else if irow == 1 then Pick(jj, 14, 15, 3, 6, 4, 7, 4, 10)
      else if irow == 2 then Pick(jj, 13, 10, 8, 12, 10, 2, 12, 9)
      else Pick(jj, 4, 3, 6, 10, 1, 9, 1, 4)) else
    if icol == 5 then
      (if irow == 0 then Pick(jj, 15, 11, 3, 6, 10, 2, 0, 15)
      else if irow == 1 then Pick(jj, 2, 2, 4, 15, 7, 12, 9, 3)
      else if irow == 2 then Pick(jj, 6, 4, 15, 11, 13, 8, 3, 12)
      else Pick(jj, 9, 15, 9, 1, 14, 5, 4, 10)) else
    if icol == 6 then
      (if irow == 0 then Pick(jj, 11, 3, 15, 9, 11, 6, 8, 11)
      else if irow == 1 then Pick(jj, 13, 8, 6, 0, 13, 9, 1, 7)
      else if irow == 2 then Pick(jj, 2, 13, 3, 7, 7, 12, 7, 14)
      else Pick(jj, 1, 4, 8, 13, 2, 15, 10, 8)) else
    if icol == 7 then
      (if irow == 0 then Pick(jj, 8, 4, 5, 10, 6, 8, 13, 1)
      else if irow == 1 then Pick(jj, 1, 14, 10, 3, 1, 5, 10, 4)
      else if irow == 2 then Pick(jj, 11, 1, 0, 13, 8, 3, 14, 2)
      else Pick(jj, 7, 2, 7, 8, 13, 10, 7, 13)) else
    if icol == 8 then
      (if irow == 0 then Pick(jj, 3, 9, 1, 1, 8, 0, 3, 10)
      else if irow == 1 then Pick(jj, 10, 12, 2, 4, 5, 6, 14, 12)
      else if irow == 2 then Pick(jj, 15, 5, 11, 15, 15, 7, 10, 0)
      else Pick(jj, 5, 11, 4, 9, 6, 11, 9, 15)) else
    if icol == 9 then
      (if irow == 0 then Pick(jj, 10, 7, 13, 2, 5, 13, 12, 9)
      else if irow == 1 then Pick(jj, 6, 0, 8, 7, 0, 1, 3, 5)
      else if irow == 2 then Pick(jj, 12, 8, 1, 1, 9, 0, 15, 6)
      else Pick(jj, 11, 6, 15, 4, 15, 14, 5, 12)) else
    if icol == 10 then
      (if irow == 0 then Pick(jj, 6, 2, 12, 8, 3, 3, 9, 3)
      else if irow == 1 then Pick(jj, 12, 1, 5, 2, 15, 13, 5, 6)
      else if irow == 2 then Pick(jj, 9, 12, 2, 3, 12, 4, 6, 10)
      else Pick(jj, 3, 7, 14, 5, 0, 1, 0, 9)) else
    if icol == 11 then
      (if irow == 0 then Pick(jj, 12, 13, 7, 5, 15, 4, 7, 14)
      else if irow == 1 then Pick(jj, 11, 10, 14, 12, 10, 14, 12, 11)
      else if irow == 2 then Pick(jj, 7, 6, 12, 14, 5, 10, 8, 13)
      else Pick(jj, 14, 12, 3, 11, 9, 7, 15, 0)) else
    if icol == 12 then
      (if irow == 0 then Pick(jj, 5, 12, 11, 11, 13, 14, 5, 5)
      else if irow == 1 then Pick(jj, 9, 6, 12, 1, 3, 0, 2, 0)
      else if irow == 2 then Pick(jj, 3, 9, 5, 5, 6, 1, 0, 15)
      else Pick(jj, 10, 0, 11, 12, 10, 6, 14, 3)) else
    if icol == 13 then
      (if irow == 0 then Pick(jj, 9, 0, 4, 12, 0, 7, 10, 0)
      else if irow == 1 then Pick(jj, 5, 9, 11, 10, 9, 11, 15, 14)
      else if irow == 2 then Pick(jj, 10, 3, 10, 2, 3, 13, 5, 3)
      else Pick(jj, 0, 5, 5, 7, 4, 0, 2, 5)) else
    if icol == 14 then
      (if irow == 0 then Pick(jj, 0, 5, 2, 4, 14, 5, 6, 12)
      else if irow == 1 then Pick(jj, 3, 11, 15, 14, 8, 3, 8, 9)
      else if irow == 2 then Pick(jj, 5, 2, 14, 8, 0, 11, 9, 5)
      else Pick(jj, 6, 14, 2, 2, 5, 8, 3, 6)) else
    (if irow == 0 then Pick(jj, 7, 10, 8, 15, 9, 11, 1, 7)
    else if irow == 1 then Pick(jj, 8, 5, 1, 9, 6, 8, 6, 2)
    else if irow == 2 then Pick(jj, 0, 15, 7, 4, 14, 6, 2, 8)
    else Pick(jj, 13, 9, 12, 14, 3, 13, 12, 11))
  }

  /** The table `ibin`: four bits in the opposite order. */
  function Ibin(n: Nibble): (r: bv32)
    ensures r < 16
  {
    if n == 0 then 0 else if n == 1 then 8 else if n == 2 then 4 else if n == 3 then 12 else if n == 4 then 2 else
    if n == 5 then 10 else if n == 6 then 6 else if n == 7 then 14 else if n == 8 then 1 else if n == 9 then 9 else
    if n == 10 then 5 else if n == 11 then 13 else if n == 12 then 3 else if n == 13 then 11 else if n == 14 then 7 else 15
  }

  lemma InitialUndone(n: nat)
    requires 1 <= n <= 64
    ensures Ip(Ipm(n)) == n
  {
    if n <= 8 {
    } else if n <= 16 {
    } else if n <= 24 {
    } else if n <= 32 {
    } else if n <= 40 {
    } else if n <= 48 {
    } else if n <= 56 {
    } else {
    }
  }

  lemma FinalUndone(n: nat)
    requires 1 <= n <= 64
    ensures Ipm(Ip(n)) == n
  {
    if n <= 8 {
    } else if n <= 16 {
    } else if n <= 24 {
    } else if n <= 32 {
    } else if n <= 40 {
    } else if n <= 48 {
    } else if n <= 56 {
    } else {
    }
  }

  /** The two permutations of a block are inverse to each other. */
  lemma PermutationsUndo(n: nat)
    requires 1 <= n <= 64
    ensures Ip(Ipm(n)) == n && Ipm(Ip(n)) == n
  {
    hide Ip, Ipm;
    InitialUndone(n);
    FinalUndone(n);
  }

  lemma EntriesFit(j: nat)
    ensures j <= 48 ==> Ipc2(j) <= 56 && Iet(j) <= 32
    ensures j <= 32 ==> Ipp(j) <= 32
  {
  }
}
