/** fdlibm's bit-by-bit square root of a double, on its two words. */
module SquareRoot {
  import opened Words

  predicate TopBit(x: u32) {
    x >= 0x8000_0000
  }

  lemma PowersUsed()
    ensures Pow2(21) == 0x20_0000 && Pow2(31) == 0x8000_0000 && Pow2(54) == 0x40_0000_0000_0000
  {
    assert Pow2(7) == 128;
    assert Pow2(14) == 128 * Pow2(7);
    assert Pow2(21) == 128 * Pow2(14);
    assert Pow2(28) == 128 * Pow2(21);
    assert Pow2(35) == 128 * Pow2(28);
    assert Pow2(42) == 128 * Pow2(35);
    assert Pow2(49) == 128 * Pow2(42);
  }

  // ---- One bit of the root

  /** With `root` found down to bit weight `g` of a root of `t`: it is the root rounded down to a
      multiple of `g`, and `rem` is the remainder scaled so that `g * rem` is twice the error. */
  ghost predicate RootSoFar(t: int, root: int, g: int, rem: int) {
    && g >= 1 && 0 <= root && root + g <= 0x40_0000_0000_0000
    && root * root <= t < (root + g) * (root + g)
    && 2 * (t - root * root) == g * rem
  }

  /** The trial of bit `b`: it is in the root exactly when the remainder allows it. */
  lemma TrialBit(t: int, root: int, b: int, rem: int)
    requires b >= 1 && RootSoFar(t, root, 2 * b, rem)
    ensures 2 * root + b <= rem ==> RootSoFar(t, root + b, b, 2 * (rem - (2 * root + b)))
    ensures rem < 2 * root + b ==> RootSoFar(t, root, b, 2 * rem)
  {
    var s := 2 * root + b;
    assert (root + b) * (root + b) == root * root + b * s;
    assert 2 * (t - root * root) == b * (2 * rem);
    assert 2 * (t - (root + b) * (root + b)) == b * (2 * (rem - s)) by {
      assert b * (2 * rem) - 2 * (b * s) == b * (2 * (rem - s));
    }
    if s <= rem {
      assert b * (2 * (rem - s)) >= 0;
    } else {
      assert b * (2 * (rem - s)) < 0;
    }
  }

  lemma Scale(g: int, a: int, b: int)
    requires g >= 0 && a <= b
    ensures g * a <= g * b
  {
    assert g * (b - a) >= 0;
  }

  /** Remainders stay small enough for their words. */
  lemma RemainderBound(t: int, root: int, g: int, rem: int)
    requires RootSoFar(t, root, g, rem)
    ensures 0 <= rem < 4 * root + 2 * g
  {
    assert (root + g) * (root + g) == root * root + g * (2 * root + g);
    assert 2 * (g * (2 * root + g)) == g * (4 * root + 2 * g);
    if rem >= 4 * root + 2 * g {
      Scale(g, 4 * root + 2 * g, rem);
    }
    if rem <= -1 {
      Scale(g, rem, -1);
    }
  }

  /** A root found so far and its remainder. */
  datatype Trial = Trial(root: int, rem: int)

  function TryBit(s: Trial, b: int): Trial {
    if 2 * s.root + b <= s.rem then Trial(s.root + b, 2 * (s.rem - (2 * s.root + b))) else Trial(s.root, 2 * s.rem)
  }

  /** The state after the trials of the first `k` of 54 bits. */
  function Trials(m: int, k: nat): Trial
    requires k <= 54
  {
    if k == 0 then Trial(0, 2 * m) else TryBit(Trials(m, k - 1), Pow2(54 - k))
  }

  lemma TryBitKeeps(t: int, s: Trial, b: int)
    requires b >= 1 && RootSoFar(t, s.root, 2 * b, s.rem)
    ensures RootSoFar(t, TryBit(s, b).root, b, TryBit(s, b).rem)
  {
    TrialBit(t, s.root, b, s.rem);
  }

  lemma StartTrial(m: int)
    requires 0x10_0000_0000_0000 <= m < 0x40_0000_0000_0000
    ensures RootSoFar(m * 0x40_0000_0000_0000, 0, 0x40_0000_0000_0000, 2 * m)
  {
  }

  lemma {:induction false} TrialsAreRoot(m: int, k: nat)
    requires 0x10_0000_0000_0000 <= m < 0x40_0000_0000_0000 && k <= 54
    ensures RootSoFar(m * 0x40_0000_0000_0000, Trials(m, k).root, Pow2(54 - k), Trials(m, k).rem)
  {
    if k == 0 {
      StartTrial(m);
      PowersUsed();
    } else {
      TrialsAreRoot(m, k - 1);
      TryBitKeeps(m * 0x40_0000_0000_0000, Trials(m, k - 1), Pow2(54 - k));
    }
  }

  /** What the words must be able to hold. */
  lemma TrialsBound(m: int, k: nat)
    requires 0x10_0000_0000_0000 <= m < 0x40_0000_0000_0000 && k <= 54
    ensures var s := Trials(m, k);
            0 <= s.root && s.root + Pow2(54 - k) <= 0x40_0000_0000_0000 && 0 <= s.rem < 4 * s.root + 2 * Pow2(54 - k)
  {
    TrialsAreRoot(m, k);
    RemainderBound(m * 0x40_0000_0000_0000, Trials(m, k).root, Pow2(54 - k), Trials(m, k).rem);
  }

  lemma {:induction false} Pow2Word(k: nat)
    ensures Pow2(k + 32) == Pow2(k) * 0x1_0000_0000
  {
    if k == 0 {
      PowersUsed();
      assert Pow2(32) == 2 * Pow2(31);
    } else {
      Pow2Word(k - 1);
    }
  }

  // ---- The two loops

  /** Comparing pairs of words word by word. */
  lemma ComparePairs(hi: int, lo: u32, hi': int, lo': u32)
    ensures Pair(hi, lo) <= Pair(hi', lo') <==> hi < hi' || (hi == hi' && lo <= lo')
  {
    if hi < hi' {
      assert (hi + 1) * 0x1_0000_0000 <= hi' * 0x1_0000_0000;
    } else if hi > hi' {
      assert (hi' + 1) * 0x1_0000_0000 <= hi * 0x1_0000_0000;
    }
  }

  /** Shifts a pair of words left by one. */
  method Double(ix0: i32, ix1: u32) returns (hi: i32, lo: u32)
    requires 0 <= ix0 < 0x4000_0000
    ensures Pair(hi, lo) == 2 * Pair(ix0, ix1)
  {
    hi := ix0 + (ix0 + if TopBit(ix1) then 1 else 0);
    lo := AddWords(ix1, ix1);
  }

  /** Takes one trial bit off the remainder, on all words. */
  method SubtractTrial(ix0: i32, ix1: u32, trial: i32, t1: u32) returns (hi: i32, lo: u32)
    requires 0 <= Pair(trial, t1) <= Pair(ix0, ix1)
    ensures Pair(hi, lo) == Pair(ix0, ix1) - Pair(trial, t1)
  {
    hi := ix0 - trial;
    if ix1 < t1 {
      hi := hi - 1;
    }
    lo := SubtractWords(ix1, t1);
  }

  /** Adds `2 * r` to the double of the root, given `t1 = s1 + r`, with the carry between the words. */
  method RaiseDouble(s0: i32, s1: u32, t1: u32, r: u32) returns (hi: i32, lo: u32)
    requires t1 == s1 + r && 0 < r && (s1 + 2 * r < 0x1_0000_0000 || (r == 0x8000_0000 && s1 == 0)) && s0 < 0x4000_0000
    ensures Pair(hi, lo) == Pair(s0, s1) + 2 * r
  {
    hi := s0;
    lo := AddWords(t1, r);
    if TopBit(t1) && !TopBit(lo) {
      hi := hi + 1;
    }
  }

  /** One bit of the upper word: the lower words of the trial are zero. */
  method UpperBit(ghost s: Trial, ix0: i32, ix1: u32, s0: i32, q: i32, r: i32)
    returns (ix0': i32, ix1': u32, s0': i32, q': i32)
    requires s == Trial(q * 0x1_0000_0000, Pair(ix0, ix1)) && s0 == 2 * q && 0 < r
    requires 0 <= q && q + 2 * r <= 0x40_0000 && 0 <= s.rem
    requires TryBit(s, r * 0x1_0000_0000).rem < 0x4000_0000_0000_0000
    ensures TryBit(s, r * 0x1_0000_0000) == Trial(q' * 0x1_0000_0000, Pair(ix0', ix1')) && s0' == 2 * q'
    ensures q <= q' && q' + r <= 0x40_0000
  {
    ix0', ix1', s0', q' := ix0, ix1, s0, q;
    var t: i32 := s0 + r;
    if t <= ix0 {
      s0' := t + r;
      ix0' := ix0 - t;
      q' := q + r;
    }
    ix0', ix1' := Double(ix0', ix1');
  }

  /** The upper 22 bits: `q` from the upper words alone. */
  method UpperBits(ghost m: int, hi: i32, lo: u32) returns (ix0: i32, ix1: u32, q: i32, s0: i32)
    requires 0x10_0000_0000_0000 <= m < 0x40_0000_0000_0000 && Pair(hi, lo) == 2 * m
    ensures s0 == 2 * q && Trials(m, 22) == Trial(q * 0x1_0000_0000, Pair(ix0, ix1))
    ensures 0 <= q < 0x40_0000
  {
    ix0, ix1, q, s0 := hi, lo, 0, 0;
    var r: i32 := 0x0020_0000;
    ghost var k := 0;
    PowersUsed();
    while r != 0
      invariant 0 <= k <= 22 && r == if k < 22 then Pow2(21 - k) else 0
      invariant s0 == 2 * q && Trials(m, k) == Trial(q * 0x1_0000_0000, Pair(ix0, ix1))
      invariant 0 <= q && q + 2 * r <= 0x40_0000
      decreases r
    {
      TrialsBound(m, k);
      TrialsBound(m, k + 1);
      Pow2Word(21 - k);
      ix0, ix1, s0, q := UpperBit(Trials(m, k), ix0, ix1, s0, q, r);
      r, k := r / 2, k + 1;
    }
    Trials22(m, q, Pair(ix0, ix1));
  }

  lemma Trials22(m: int, q: int, rem: int)
    requires 0x10_0000_0000_0000 <= m < 0x40_0000_0000_0000 && Trials(m, 22) == Trial(q * 0x1_0000_0000, rem)
    ensures q < 0x40_0000
  {
    TrialsBound(m, 22);
  }

  /** Takes bit `r` of the lower word into the root. */
  method TakeBit(ix0: i32, ix1: u32, s0: i32, s1: u32, q1: u32, r: u32, t1: u32)
    returns (ix0': i32, ix1': u32, s0': i32, s1': u32, q1': u32)
    requires t1 == s1 + r && 0 < r && q1 + r < 0x1_0000_0000
    requires s1 + 4 * r <= 0x1_0000_0000 || (s1 == 0 && r == 0x8000_0000)
    requires 0 <= s0 < 0x4000_0000 && Pair(s0, t1) <= Pair(ix0, ix1)
    ensures Pair(ix0', ix1') == Pair(ix0, ix1) - Pair(s0, t1)
    ensures Pair(s0', s1') == Pair(s0, s1) + 2 * r && s1' + 2 * r <= 0x1_0000_0000
    ensures q1' == q1 + r
  {
    s0', s1' := RaiseDouble(s0, s1, t1, r);
    ix0', ix1' := SubtractTrial(ix0, ix1, s0, t1);
    q1' := AddWords(q1, r);
  }

  /** One bit of the lower word. */
  method LowerBit(ghost s: Trial, ix0: i32, ix1: u32, s0: i32, s1: u32, ghost q: i32, q1: u32, r: u32)
    returns (ix0': i32, ix1': u32, s0': i32, s1': u32, q1': u32)
    requires s == Trial(Pair(q, q1), Pair(ix0, ix1)) && Pair(s0, s1) == 2 * s.root
    requires 0 < r && q1 + 2 * r <= 0x1_0000_0000
    requires s1 + 4 * r <= 0x1_0000_0000 || (s1 == 0 && r == 0x8000_0000)
    requires 0 <= s.root < 0x40_0000_0000_0000 && 0 <= s.rem && TryBit(s, r).rem < 0x4000_0000_0000_0000
    ensures TryBit(s, r) == Trial(Pair(q, q1'), Pair(ix0', ix1')) && Pair(s0', s1') == 2 * TryBit(s, r).root
    ensures q1' + r <= 0x1_0000_0000 && s1' + 2 * r <= 0x1_0000_0000
  {
    ix0', ix1', s0', s1', q1' := ix0, ix1, s0, s1, q1;
    var t1: u32 := AddWords(s1, r);
    assert Pair(s0, t1) == 2 * s.root + r;
    ComparePairs(s0, t1, ix0, ix1);
    if s0 < ix0 || (s0 == ix0 && t1 <= ix1) {
      ix0', ix1', s0', s1', q1' := TakeBit(ix0, ix1, s0, s1, q1, r, t1);
    }
    ix0', ix1' := Double(ix0', ix1');
  }

  /** The lower 32 bits: `q1` from both words. */
  method LowerBits(ghost m: int, hi: i32, lo: u32, q: i32, sq: i32) returns (ix0: i32, ix1: u32, q1: u32)
    requires 0x10_0000_0000_0000 <= m < 0x40_0000_0000_0000 && sq == 2 * q
    requires Trials(m, 22) == Trial(q * 0x1_0000_0000, Pair(hi, lo))
    ensures Trials(m, 54) == Trial(Pair(q, q1), Pair(ix0, ix1))
  {
    var s0: i32, s1: u32;
    ix0, ix1, q1, s0, s1 := hi, lo, 0, sq, 0;
    var r: u32 := 0x8000_0000;
    ghost var k := 22;
    PowersUsed();
    assert Pair(s0, s1) == 2 * Pair(q, q1);
    hide Pair, TryBit;
    while r != 0
      invariant 22 <= k <= 54 && r == if k < 54 then Pow2(53 - k) else 0
      invariant Trials(m, k) == Trial(Pair(q, q1), Pair(ix0, ix1)) && Pair(s0, s1) == 2 * Pair(q, q1)
      invariant q1 + 2 * r <= 0x1_0000_0000
      invariant s1 + 4 * r <= 0x1_0000_0000 || (s1 == 0 && r == 0x8000_0000)
      decreases r
    {
      TrialsBound(m, k);
      TrialsBound(m, k + 1);
      ix0, ix1, s0, s1, q1 := LowerBit(Trials(m, k), ix0, ix1, s0, s1, q, q1, r);
      r, k := r / 2, k + 1;
    }
  }

  // ---- Rounding and assembly

  datatype Rounding = ToNearest | Upward | Downward | TowardZero

  /** `one - tiny` is not below one in the modes that round it up again. */
  predicate KeepsOneMinusTiny(mode: Rounding) {
    mode.ToNearest? || mode.Upward?
  }

  /** `one + tiny` is above one only when rounding up. */
  predicate RaisesOnePlusTiny(mode: Rounding) {
    mode.Upward?
  }

  /** `n` is half the square root of `t`, correctly rounded to an integer; to nearest, never a tie. */
  ghost predicate RoundedHalfRoot(t: int, n: int, mode: Rounding) {
    match mode
    case ToNearest => (2 * n - 1) * (2 * n - 1) < t < (2 * n + 1) * (2 * n + 1)
    case Upward => (2 * n - 2) * (2 * n - 2) < t <= (2 * n) * (2 * n)
    case Downward => (2 * n) * (2 * n) <= t < (2 * n + 2) * (2 * n + 2)
    case TowardZero => (2 * n) * (2 * n) <= t < (2 * n + 2) * (2 * n + 2)
  }

  /** What is added to a 54-bit root with a remainder so that its upper 53 bits round correctly. */
  function Increment(root: int, mode: Rounding): int {
    match mode
    case ToNearest => root % 2
    case Upward => if root % 2 == 0 then 2 else 1
    case Downward => 0
    case TowardZero => 0
  }

  /** What the last bit and the remainder say about half the root. */
  lemma HalfRoot(t: int, root: int, mode: Rounding)
    requires root > 0 && root * root <= t < (root + 1) * (root + 1) && t % 2 == 0
    ensures RoundedHalfRoot(t, (root + if root * root == t then 0 else Increment(root, mode)) / 2, mode)
  {
    var h := root / 2;
    if root % 2 == 0 {
      assert root == 2 * h && (2 * h + 2) * (2 * h + 2) > (root + 1) * (root + 1);
      assert (2 * h - 1) * (2 * h - 1) < root * root;
    } else {
      assert root == 2 * h + 1 && root * root == 2 * (2 * (h * h) + 2 * h) + 1;
      assert (root + 2) * (root + 2) > (root + 1) * (root + 1);
      assert (2 * h) * (2 * h) < root * root;
    }
  }

  lemma PairParity(hi: int, lo: u32)
    ensures Pair(hi, lo) % 2 == lo % 2
    ensures Pair(hi, lo) / 2 == hi * 0x8000_0000 + lo / 2
  {
    Halve(Pair(hi, lo), hi * 0x8000_0000 + lo / 2, lo % 2);
  }

  lemma Halve(x: int, h: int, b: int)
    requires x == 2 * h + b && 0 <= b < 2
    ensures x / 2 == h && x % 2 == b
  {
  }

  /** Rounds the 54-bit root to 53 bits, by what the mode does to `1 - tiny` and `1 + tiny`. */
  method RoundRoot(q: i32, q1: u32, exact: bool, mode: Rounding) returns (q': i32, q1': u32)
    requires 0 <= q < 0x40_0000
    ensures 0 <= q' <= 0x40_0000
    ensures Pair(q', q1') / 2 == (Pair(q, q1) + if exact then 0 else Increment(Pair(q, q1), mode)) / 2
  {
    q', q1' := q, q1;
    PairParity(q, q1);
    if !exact {
      if KeepsOneMinusTiny(mode) {
        if q1 == 0xffff_ffff {
          q1' := 0;
          q' := q + 1;
          assert Pair(q', q1') == Pair(q, q1) + 1;
        } else if RaisesOnePlusTiny(mode) {
          if q1 == 0xffff_fffe {
            q' := q + 1;
          }
          q1' := AddWords(q1, 2);
          assert Pair(q', q1') == Pair(q, q1) + 2;
        } else {
          q1' := q1 + q1 % 2;
          assert Pair(q', q1') == Pair(q, q1) + q1 % 2;
        }
      }
    }
  }

  // ---- The whole function

  /** The high word of a positive finite double; with both words zero it is zero. */
  predicate IsPositive(hx: int, lx: u32) {
    0 <= hx < 0x7ff0_0000 && (hx > 0 || lx > 0)
  }

  predicate IsNormal(hx: int) {
    0x0010_0000 <= hx < 0x7ff0_0000
  }

  /** How often the fraction of a subnormal must be doubled to have 53 bits. */
  function Doublings(f: int): (k: nat)
    decreases 0x10_0000_0000_0000 - f
  {
    if f <= 0 || f >= 0x10_0000_0000_0000 then 0 else 1 + Doublings(2 * f)
  }

  /** The unbiased exponent and the 53-bit significand: the value is `sig * 2^(exp - 52)`. */
  function Exponent(hx: int, lx: u32): int {
    if IsNormal(hx) then hx / 0x10_0000 - 1023 else -1022 - Doublings(Pair(hx, lx))
  }

  function Significand(hx: int, lx: u32): int {
    if IsNormal(hx) then Pair(hx % 0x10_0000 + 0x10_0000, lx) else Pair(hx, lx) * Pow2(Doublings(Pair(hx, lx)))
  }

  /** The radicand with an even exponent: the value is `Radicand * 2^(2 * HalfExponent - 52)`. */
  function Radicand(hx: int, lx: u32): int {
    if Exponent(hx, lx) % 2 == 1 then 2 * Significand(hx, lx) else Significand(hx, lx)
  }

  function HalfExponent(hx: int, lx: u32): int {
    Exponent(hx, lx) / 2
  }

  /** `n * 2^(HalfExponent - 52)` is the square root of the argument, correctly rounded to 53 bits. */
  ghost predicate IsRoundedRoot(hx: int, lx: u32, n: int, mode: Rounding) {
    RoundedHalfRoot(Radicand(hx, lx) * 0x40_0000_0000_0000, n, mode)
  }

  // ---- Subnormal arguments

  /** C leaves open what shifting a word down by all its 32 places gives: a machine that shifts by the
      whole count clears the word, one that takes the count modulo 32 leaves it. */
  datatype WideShift = Cleared | Unchanged

  /** The bits that a shift up by `i` places moves out of a word, as the program computes them. */
  function MovedOut(x: u32, i: nat, wide: WideShift): u32
    requires i <= 20
  {
    if i > 0 then
      QuotientFits(x, Pow2(32 - i));
      x / Pow2(32 - i)
    else if wide.Cleared? then 0
    else x
  }

  /** Setting bits that a word does not have, which may make it negative. */
  function SetBits(x: i32, bits: u32): i32
    requires 0 <= x && x + bits < 0x1_0000_0000
  {
    if x + bits < 0x8000_0000 then x + bits else x + bits - 0x1_0000_0000
  }

  lemma {:induction false} DoublingsAre(f: int, k: nat)
    requires f > 0 && 0x10_0000_0000_0000 <= f * Pow2(k) < 0x20_0000_0000_0000
    ensures Doublings(f) == k
    decreases k
  {
    if k == 0 {
      assert Pow2(0) == 1;
    } else {
      assert f * Pow2(k) == (2 * f) * Pow2(k - 1) by {
        Regroup(f, Pow2(k - 1));
      }
      ProductAtLeast(2 * f, Pow2(k - 1));
      DoublingsAre(2 * f, k - 1);
    }
  }

  lemma Regroup(f: int, p: int)
    ensures f * (2 * p) == (2 * f) * p
  {
  }

  lemma ProductAtLeast(f: int, p: int)
    requires f > 0 && p >= 1
    ensures f * p >= f
  {
  }

  /** Shifting a pair left by `i` places, word by word. */
  lemma PairShift(ix0: int, ix1: u32, i: nat)
    requires 0 < i <= 21
    ensures 0 <= ix1 % Pow2(32 - i) * Pow2(i) < 0x1_0000_0000
    ensures Pair(ix0 * Pow2(i) + ix1 / Pow2(32 - i), ix1 % Pow2(32 - i) * Pow2(i)) == Pair(ix0, ix1) * Pow2(i)
  {
    PowersMultiply(i, 32 - i);
    WholeWord();
    hide Pow2;
    var p, c := Pow2(i), Pow2(32 - i);
    DivideWord(ix1, c);
    SplitProduct(ix0, ix1 / c, ix1 % c, c, p);
    BelowProduct(ix1 % c, c, p);
  }

  lemma DivideWord(x: int, c: int)
    requires c > 0
    ensures x == x / c * c + x % c && 0 <= x % c < c
  {
  }

  lemma QuotientFits(x: u32, c: int)
    requires c >= 1
    ensures 0 <= x / c <= x
  {
    if x / c > x {
      DivideWord(x, c);
      LargerProduct(c, 1, x / c);
    }
  }

  lemma {:induction false} PowersMultiply(i: nat, j: nat)
    ensures Pow2(i) * Pow2(j) == Pow2(i + j)
  {
    if i > 0 {
      PowersMultiply(i - 1, j);
      DoubleFirst(Pow2(i - 1), Pow2(j));
    }
  }

  lemma DoubleFirst(a: int, b: int)
    ensures (2 * a) * b == 2 * (a * b)
  {
  }

  lemma SplitProduct(x: int, y: int, z: int, c: int, p: int)
    requires p * c == 0x1_0000_0000
    ensures (x * p + y) * 0x1_0000_0000 + z * p == (x * 0x1_0000_0000 + (y * c + z)) * p
  {
    assert y * c * p == y * (p * c);
    assert x * 0x1_0000_0000 * p == x * p * 0x1_0000_0000;
  }

  lemma BelowProduct(z: int, c: int, p: int)
    requires 0 <= z < c && p > 0 && p * c == 0x1_0000_0000
    ensures 0 <= z * p < 0x1_0000_0000
  {
    assert z * p <= (c - 1) * p;
  }

  /** Moves bits of the lower word into an empty upper word; `s` is by how many places. */
  method FillUpper(hx: i32, lx: u32) returns (ix0: i32, ix1: u32, m: i32, ghost s: nat)
    requires 0 <= hx < 0x10_0000 && (hx > 0 || lx > 0)
    ensures Pair(ix0, ix1) == Pair(hx, lx) * Pow2(s)
    ensures m + s == 0 && s <= 42 && 0 < ix0 < 0x20_0000
    ensures ix0 >= 0x10_0000 ==> s > 0 && ix1 % 0x20_0000 == 0
  {
    ix0, ix1, m, s := hx, lx, 0, 0;
    while ix0 == 0
      invariant m + s == 0 && 0 <= ix0 < 0x20_0000
      invariant s == 0 ==> ix0 == hx && ix1 == lx
      invariant s == 21 ==> hx == 0 && ix0 == lx / 0x800 && ix1 == lx % 0x800 * 0x20_0000
      invariant s == 42 ==> hx == 0 && lx < 0x800 && ix0 == lx * 0x400 && ix1 == 0
      invariant s == 0 || s == 21 || s == 42
      decreases 42 - s
    {
      m := m - 21;
      ix0, ix1 := ix1 / 0x800, ix1 % 0x800 * 0x20_0000;
      s := s + 21;
    }
    PowersFilled();
  }

  lemma PowersFilled()
    ensures Pow2(0) == 1 && Pow2(21) == 0x20_0000 && Pow2(42) == 0x400_0000_0000
  {
    PowersUsed();
    PowersMultiply(21, 21);
  }

  /** Shifts a word up until its highest bit stands where that of a significand does. */
  method ShiftUp(x: i32) returns (y: i32, i: nat)
    requires 0 < x < 0x20_0000
    ensures y == x * Pow2(i) && 0x10_0000 <= y && y + Pow2(i) <= 0x20_0000 && i <= 20
    ensures i == 0 <==> x >= 0x10_0000
  {
    y, i := x, 0;
    assert Pow2(0) == 1;
    hide Pow2;
    while y < 0x10_0000
      invariant 0 < y && y + Pow2(i) <= 0x20_0000 && y == x * Pow2(i)
      invariant if i == 0 then y == x else x < 0x10_0000
      decreases 0x20_0000 - y
    {
      ProductAtLeast(Pow2(i), x);
      PowerBound(i);
      RoomAbove(x, i);
      NextPower(x, i);
      y := 2 * y;
      i := i + 1;
    }
    ProductAtLeast(Pow2(i), x);
    PowerBound(i);
  }

  lemma NextPower(x: int, i: nat)
    ensures Pow2(i + 1) == 2 * Pow2(i) && x * Pow2(i + 1) == 2 * (x * Pow2(i))
  {
  }

  lemma PowerBound(i: nat)
    ensures Pow2(i) < 0x20_0000 ==> i <= 20
  {
    PowersUsed();
    hide Pow2;
    Pow2Grows(21, if i > 21 then i else 21);
  }

  /** A multiple of a power below a higher power leaves room for one more. */
  lemma RoomAbove(x: int, i: nat)
    requires x * Pow2(i) < 0x10_0000 && i <= 20
    ensures x * Pow2(i) + Pow2(i) <= 0x10_0000
  {
    PowersMultiply(20 - i, i);
    PowersUsed();
    assert Pow2(21) == 2 * Pow2(20);
    hide Pow2;
    MultiplesApart(x, Pow2(20 - i), Pow2(i));
  }

  lemma MultiplesApart(x: int, y: int, p: int)
    requires x * p < y * p && p > 0
    ensures x * p + p <= y * p
  {
    if x >= y {
      LargerProduct(x, y, p);
    } else {
      LargerProduct(y, x + 1, p);
      assert (x + 1) * p == x * p + p;
    }
  }

  lemma LargerProduct(x: int, y: int, p: int)
    requires x >= y && p >= 0
    ensures x * p >= y * p
  {
  }

  /** The words of a subnormal shifted to 53 bits, and by how much. */
  lemma Shifted(f: int, ix0: int, ix1: u32, s: nat, i: nat)
    requires f > 0 && Pair(ix0, ix1) == f * Pow2(s) && 1 <= i <= 20
    requires 0x10_0000 <= ix0 * Pow2(i) && ix0 * Pow2(i) + Pow2(i) <= 0x20_0000
    ensures Pow2(32 - i) > 0 && 0 <= ix1 % Pow2(32 - i) * Pow2(i) < 0x1_0000_0000
    ensures 0x10_0000 <= ix0 * Pow2(i) + ix1 / Pow2(32 - i) < 0x20_0000
    ensures Pair(ix0 * Pow2(i) + ix1 / Pow2(32 - i), ix1 % Pow2(32 - i) * Pow2(i)) == f * Pow2(i + s)
    ensures Doublings(f) == i + s
  {
    hide Pow2, Doublings;
    PairShift(ix0, ix1, i);
    PowersMultiply(i, s);
    MoveFactor(f, Pow2(s), Pow2(i));
    UpperPart(ix1, i);
    HighWord(ix0 * Pow2(i) + ix1 / Pow2(32 - i), ix1 % Pow2(32 - i) * Pow2(i));
    hide Pair;
    DoublingsAre(f, i + s);
  }

  lemma UpperPart(x: u32, i: nat)
    requires 1 <= i <= 20
    ensures 0 <= x / Pow2(32 - i) < Pow2(i)
  {
    PowersMultiply(i, 32 - i);
    WholeWord();
    WordQuotient(x, Pow2(32 - i), Pow2(i));
  }

  lemma WordQuotient(x: u32, c: int, p: int)
    requires c > 0 && p > 0 && p * c == 0x1_0000_0000
    ensures 0 <= x / c < p
  {
    var q := x / c;
    DivideWord(x, c);
    if q >= p {
      LargerProduct(q, p, c);
    }
  }

  lemma BitsAbove(x: i32, bits: u32)
    requires 0x10_0000 <= x < 0x20_0000 && bits % 0x20_0000 == 0
    ensures x + bits < 0x1_0000_0000
    ensures SetBits(x, bits) % 0x10_0000 + 0x10_0000 == x
  {
    var q, r := bits / 0x20_0000, x - 0x10_0000;
    assert bits == q * 0x20_0000 && q < 0x800;
    assert (x + bits) == (2 * q + 1) * 0x10_0000 + r;
    assert x + bits - 0x1_0000_0000 == (2 * q + 1 - 0x1000) * 0x10_0000 + r;
  }

  /** Without a shift up, what is set in the upper word stands above its significand. */
  lemma NotShifted(f: int, ix0: i32, ix1: u32, s: nat, wide: WideShift)
    requires f > 0 && Pair(ix0, ix1) == f * Pow2(s) && 0x10_0000 <= ix0 < 0x20_0000 && ix1 % 0x20_0000 == 0
    ensures Doublings(f) == s && Pow2(0) == 1 && Pow2(32) == 0x1_0000_0000
    ensures ix0 + MovedOut(ix1, 0, wide) < 0x1_0000_0000
    ensures SetBits(ix0, MovedOut(ix1, 0, wide)) % 0x10_0000 + 0x10_0000 == ix0
  {
    assert Pow2(0) == 1;
    hide Doublings, Pow2, SetBits;
    WholeWord();
    BitsAbove(ix0, MovedOut(ix1, 0, wide));
    HighWord(ix0, ix1);
    hide Pair;
    DoublingsAre(f, s);
  }

  lemma SetBelowHidden(x: i32, bits: u32)
    requires 0 <= x && 0x10_0000 <= x + bits < 0x20_0000
    ensures SetBits(x, bits) % 0x10_0000 + 0x10_0000 == x + bits
  {
    assert x + bits == 0x10_0000 + (x + bits - 0x10_0000);
  }

  lemma WholeWordStays(x: u32)
    ensures x % 0x1_0000_0000 * 1 == x
  {
  }

  /** Both words after the shifts, by `i` places: the bits of the significand, the highest one not read. */
  lemma Placed(f: int, first: i32, ix0: i32, ix1: u32, s: nat, i: nat, wide: WideShift)
    requires f > 0 && Pair(first, ix1) == f * Pow2(s) && i <= 20 && ix0 == first * Pow2(i)
    requires 0x10_0000 <= ix0 && ix0 + Pow2(i) <= 0x20_0000 && (i == 0 ==> ix1 % 0x20_0000 == 0)
    ensures ix0 + MovedOut(ix1, i, wide) < 0x1_0000_0000
    ensures Pow2(32 - i) > 0 && 0 <= ix1 % Pow2(32 - i) * Pow2(i) < 0x1_0000_0000
    ensures Pair(SetBits(ix0, MovedOut(ix1, i, wide)) % 0x10_0000 + 0x10_0000, ix1 % Pow2(32 - i) * Pow2(i)) ==
            f * Pow2(i + s)
    ensures Doublings(f) == i + s
  {
    hide Pow2, Doublings, Pair, SetBits, MovedOut;
    if i > 0 {
      Shifted(f, first, ix1, s, i);
      MovedOutIs(ix1, i, wide);
      SetBelowHidden(ix0, ix1 / Pow2(32 - i));
    } else {
      NoShift(first);
      NotShifted(f, first, ix1, s, wide);
      WholeWordStays(ix1);
    }
  }

  lemma MovedOutIs(x: u32, i: nat, wide: WideShift)
    requires 0 < i <= 20
    ensures MovedOut(x, i, wide) == x / Pow2(32 - i)
  {
  }

  lemma NoShift(x: int)
    ensures x * Pow2(0) == x
  {
    assert Pow2(0) == 1;
  }

  /** Brings a subnormal to 53 bits, of which the highest is not read; `m` is the exponent field
      that it would have. */
  method NormaliseSubnormal(hx: i32, lx: u32, wide: WideShift) returns (ix0: i32, ix1: u32, m: i32)
    requires IsPositive(hx, lx) && !IsNormal(hx)
    ensures Pair(ix0 % 0x10_0000 + 0x10_0000, ix1) == Significand(hx, lx)
    ensures m == Exponent(hx, lx) + 1023 && -61 <= m <= 0
  {
    hide Pow2, Doublings, Pair, SetBits, MovedOut;
    ghost var s;
    ix0, ix1, m, s := FillUpper(hx, lx);
    ghost var first := ix0;
    PositivePair(hx, lx);
    var i: int;
    ix0, i := ShiftUp(ix0);
    m := m - (i - 1);
    Placed(Pair(hx, lx), first, ix0, ix1, s, i, wide);
    ix0 := SetBits(ix0, MovedOut(ix1, i, wide));
    ix1 := ix1 % Pow2(32 - i) * Pow2(i);
  }

  lemma PositivePair(hx: int, lx: u32)
    requires hx >= 0 && (hx > 0 || lx > 0)
    ensures Pair(hx, lx) > 0
  {
  }

  /** A significand in two words. */
  lemma HighWord(hi: int, lo: u32)
    ensures 0x10_0000 <= hi < 0x20_0000 <==> 0x10_0000_0000_0000 <= Pair(hi, lo) < 0x20_0000_0000_0000
  {
  }

  lemma MoveFactor(f: int, p: int, q: int)
    ensures (f * p) * q == f * (q * p)
  {
  }

  /** The exponent and significand of a positive double. */
  method Unpack(hx: i32, lx: u32, wide: WideShift) returns (ix0: i32, ix1: u32, m: i32)
    requires IsPositive(hx, lx)
    ensures m == Exponent(hx, lx) && -1084 <= m <= 1023
    ensures Pair(ix0, ix1) == Significand(hx, lx) && 0x10_0000 <= ix0 < 0x20_0000
  {
    hide Pow2, Doublings;
    m := hx / 0x10_0000;
    if m == 0 {
      ix0, ix1, m := NormaliseSubnormal(hx, lx, wide);
    } else {
      ix0, ix1 := hx, lx;
    }
    m := m - 1023;
    ix0 := ix0 % 0x10_0000 + 0x10_0000;
  }

  /** The same with even exponent, and the significand doubled once more for the loops. */
  method Normalise(hx: i32, lx: u32, wide: WideShift) returns (ix0: i32, ix1: u32, m: i32)
    requires IsPositive(hx, lx)
    ensures m == HalfExponent(hx, lx) && -542 <= m <= 511
    ensures Pair(ix0, ix1) == 2 * Radicand(hx, lx)
    ensures 0x10_0000_0000_0000 <= Radicand(hx, lx) < 0x40_0000_0000_0000
  {
    hide Exponent, Significand;
    ix0, ix1, m := Unpack(hx, lx, wide);
    if m % 2 == 1 {
      ix0, ix1 := Double(ix0, ix1);
    }
    m := m / 2;
    ix0, ix1 := Double(ix0, ix1);
  }

  /** The outcome of all trials, rounded. */
  ghost function RootOf(m: int, mode: Rounding): int {
    var s := Trials(m, 54);
    (s.root + if s.rem == 0 then 0 else Increment(s.root, mode)) / 2
  }

  /** The rounded root, as a pair of words holding it doubled. */
  method RootWords(ghost m: int, ix0: i32, ix1: u32, mode: Rounding) returns (q: i32, q1: u32)
    requires 0x10_0000_0000_0000 <= m < 0x40_0000_0000_0000 && Pair(ix0, ix1) == 2 * m
    ensures 0 <= q <= 0x40_0000 && Pair(q, q1) / 2 == RootOf(m, mode)
  {
    var rem0, rem1, s0;
    rem0, rem1, q, s0 := UpperBits(m, ix0, ix1);
    rem0, rem1, q1 := LowerBits(m, rem0, rem1, q, s0);
    TrialsBound(m, 54);
    q, q1 := RoundRoot(q, q1, rem0 == 0 && rem1 == 0, mode);
  }

  /** After all trials: the root rounded down, exact when no remainder is left. */
  lemma RootFound(m: int) returns (root: int)
    requires 0x10_0000_0000_0000 <= m < 0x40_0000_0000_0000
    ensures root == Trials(m, 54).root && 0x20_0000_0000_0000 <= root < 0x40_0000_0000_0000
    ensures root * root <= m * 0x40_0000_0000_0000 < (root + 1) * (root + 1)
    ensures Trials(m, 54).rem == 0 <==> root * root == m * 0x40_0000_0000_0000
  {
    root := Trials(m, 54).root;
    TrialsAreRoot(m, 54);
    if root >= 0x40_0000_0000_0000 {
      SquareMonotone(0x40_0000_0000_0000, root);
    }
    if root + 1 <= 0x20_0000_0000_0000 {
      SquareMonotone(root + 1, 0x20_0000_0000_0000);
    }
  }

  lemma RootIsRounded(m: int, mode: Rounding)
    requires 0x10_0000_0000_0000 <= m < 0x40_0000_0000_0000
    ensures 0x10_0000_0000_0000 <= RootOf(m, mode) <= 0x20_0000_0000_0000
    ensures RoundedHalfRoot(m * 0x40_0000_0000_0000, RootOf(m, mode), mode)
  {
    var root := RootFound(m);
    HalfRoot(m * 0x40_0000_0000_0000, root, mode);
  }

  lemma SquareMonotone(a: int, b: int)
    requires 0 <= a <= b
    ensures a * a <= b * b
  {
    Scale(a, a, b);
    Scale(b, a, b);
  }

  /** The words of the result: exponent field and significand overlap by the hidden bit. */
  method Assemble(q: i32, q1: u32, m: i32) returns (hz: i32, lz: u32)
    requires 0 <= q <= 0x40_0000 && -542 <= m <= 511
    ensures Pair(hz, lz) == (1022 + m) * 0x10_0000_0000_0000 + Pair(q, q1) / 2
  {
    hz := q / 2 + 0x3fe0_0000;
    lz := q1 / 2;
    if q % 2 == 1 {
      lz := lz + 0x8000_0000;
    }
    hz := hz + m * 0x10_0000;
  }

  /** Reading the words back. */
  lemma Decode(hz: int, lz: u32, m: int, n: int)
    requires -542 <= m <= 511 && 0x10_0000_0000_0000 <= n <= 0x20_0000_0000_0000
    requires Pair(hz, lz) == (1022 + m) * 0x10_0000_0000_0000 + n
    ensures IsNormal(hz)
    ensures n < 0x20_0000_0000_0000 ==> Exponent(hz, lz) == m && Significand(hz, lz) == n
    ensures n == 0x20_0000_0000_0000 ==> Exponent(hz, lz) == m + 1 && 2 * Significand(hz, lz) == n
  {
  }

  /** The square root of a positive double, on its words: a normal double with exponent
      `HalfExponent` (or one more, with significand `2^52`) and a correctly rounded significand. */
  method PositiveRoot(hx: i32, lx: u32, mode: Rounding, wide: WideShift) returns (hz: i32, lz: u32)
    requires IsPositive(hx, lx)
    ensures IsPositiveRoot(hx, lx, hz, lz, mode)
  {
    var ix0, ix1, m := Normalise(hx, lx, wide);
    var q, q1 := RootWords(Radicand(hx, lx), ix0, ix1, mode);
    RootIsRounded(Radicand(hx, lx), mode);
    hz, lz := Assemble(q, q1, m);
    Decode(hz, lz, m, RootOf(Radicand(hx, lx), mode));
  }

  ghost predicate IsPositiveRoot(hx: int, lx: u32, hz: int, lz: u32, mode: Rounding) {
    && IsNormal(hz)
    && if Exponent(hz, lz) == HalfExponent(hx, lx)
       then IsRoundedRoot(hx, lx, Significand(hz, lz), mode)
       else && Exponent(hz, lz) == HalfExponent(hx, lx) + 1 && Significand(hz, lz) == 0x10_0000_0000_0000
            && IsRoundedRoot(hx, lx, 2 * Significand(hz, lz), mode)
  }

  // ---- The root on the scale of the doubles

  /** The value of a finite double in units of `2^-1074`, the smallest subnormal. */
  function Scaled(hx: int, lx: u32): int
    requires hx >= 0
  {
    if hx < 0x10_0000 then Pair(hx, lx) else Pair(hx % 0x10_0000 + 0x10_0000, lx) * Pow2(hx / 0x10_0000 - 1)
  }

  /** The distance of a normal double to the next one, in the same units. */
  function Spacing(hz: int): int
    requires IsNormal(hz)
  {
    Pow2(hz / 0x10_0000 - 1)
  }

  /** Subnormals and the smallest normals count on without a gap. */
  lemma OneScale(hx: int, lx: u32)
    requires 0 <= hx < 0x20_0000
    ensures Scaled(hx, lx) == Pair(hx, lx)
  {
    assert Pow2(0) == 1;
  }

  lemma {:induction false} DoubledInRange(f: int)
    requires 0 < f < 0x20_0000_0000_0000
    ensures 0x10_0000_0000_0000 <= f * Pow2(Doublings(f)) < 0x20_0000_0000_0000
    decreases 0x20_0000_0000_0000 - f
  {
    if f < 0x10_0000_0000_0000 {
      DoubledInRange(2 * f);
      Regroup(f, Pow2(Doublings(2 * f)));
      assert Pow2(Doublings(f)) == 2 * Pow2(Doublings(2 * f));
    } else {
      assert Pow2(0) == 1;
    }
  }

  lemma DoublingsFew(f: int)
    requires 0 < f < 0x20_0000_0000_0000
    ensures Doublings(f) <= 53
  {
    DoubledInRange(f);
    PowersUsed();
    hide Doublings, Pow2;
    ProductAtLeast(Pow2(Doublings(f)), f);
    if Doublings(f) > 53 {
      Pow2Grows(54, Doublings(f));
    }
  }

  /** Exponent and significand give the value, for subnormals as for normals. */
  lemma SignificandOnScale(hx: int, lx: u32)
    requires IsPositive(hx, lx)
    ensures -1075 <= Exponent(hx, lx) <= 1023
    ensures Scaled(hx, lx) * Pow2(1100) == Significand(hx, lx) * Pow2(Exponent(hx, lx) + 2122)
  {
    if IsNormal(hx) {
      NormalOnScale(hx, lx);
    } else {
      SubnormalOnScale(hx, lx);
    }
  }

  lemma NormalOnScale(hx: int, lx: u32)
    requires IsNormal(hx)
    ensures Exponent(hx, lx) == hx / 0x10_0000 - 1023 && 1 <= hx / 0x10_0000 <= 2046
    ensures Scaled(hx, lx) == Significand(hx, lx) * Pow2(Exponent(hx, lx) + 1022)
    ensures Scaled(hx, lx) * Pow2(1100) == Significand(hx, lx) * Pow2(Exponent(hx, lx) + 2122)
  {
    hide Pow2, Pair;
    var e := hx / 0x10_0000 - 1;
    PowersMultiply(e, 1100);
    Associate(Significand(hx, lx), Pow2(e), Pow2(1100));
  }

  lemma SubnormalOnScale(hx: int, lx: u32)
    requires IsPositive(hx, lx) && !IsNormal(hx)
    ensures -1075 <= Exponent(hx, lx) <= -1022
    ensures Scaled(hx, lx) * Pow2(1100) == Significand(hx, lx) * Pow2(Exponent(hx, lx) + 2122)
  {
    PositivePair(hx, lx);
    var f := Pair(hx, lx);
    DoublingsFew(f);
    hide Pow2, Doublings, Pair;
    PowersMultiply(Doublings(f), 1100 - Doublings(f));
    Associate(f, Pow2(Doublings(f)), Pow2(1100 - Doublings(f)));
  }

  lemma Associate(a: int, b: int, c: int)
    ensures (a * b) * c == a * (b * c)
  {
  }

  lemma RadicandOnScale(hx: int, lx: u32)
    requires IsPositive(hx, lx)
    ensures -538 <= HalfExponent(hx, lx) <= 511
    ensures Scaled(hx, lx) * Pow2(1100) == Radicand(hx, lx) * Pow2(2 * HalfExponent(hx, lx) + 2122)
  {
    SignificandOnScale(hx, lx);
    var h := HalfExponent(hx, lx);
    hide Scaled, Significand, Exponent;
    if Exponent(hx, lx) % 2 == 1 {
      assert Pow2(2 * h + 2123) == 2 * Pow2(2 * h + 2122);
      Regroup(Significand(hx, lx), Pow2(2 * h + 2122));
    }
  }

  /** Four times the square of the root, in units of the unit squared. */
  lemma SquareOnScale(hx: int, lx: u32, w: int)
    requires IsPositive(hx, lx)
    requires HalfExponent(hx, lx) + 1022 >= 0 && w == Pow2(HalfExponent(hx, lx) + 1022)
    ensures 4 * (Scaled(hx, lx) * Pow2(1074)) == Radicand(hx, lx) * 0x40_0000_0000_0000 * (w * w)
  {
    hide Pow2, Scaled, Radicand, HalfExponent;
    RadicandOnScale(hx, lx);
    SameSquare(Scaled(hx, lx), Radicand(hx, lx), HalfExponent(hx, lx));
    UnitsSquared(Radicand(hx, lx), HalfExponent(hx, lx), w);
  }

  lemma SameSquare(x: int, r: int, h: int)
    requires h >= -538 && x * Pow2(1100) == r * Pow2(2 * h + 2122)
    ensures 4 * (x * Pow2(1074)) == r * Pow2(2 * h + 2098)
  {
    hide Pow2;
    MoreUnits(x);
    PowersMultiply(2 * h + 2098, 24);
    Associate(r, Pow2(2 * h + 2098), Pow2(24));
    FourthPowers();
    Cancel(x * Pow2(1074), r * Pow2(2 * h + 2098), Pow2(24), Pow2(26));
  }

  lemma UnitsSquared(r: int, h: int, w: int)
    requires h + 1022 >= 0 && w == Pow2(h + 1022)
    ensures r * 0x40_0000_0000_0000 * (w * w) == r * Pow2(2 * h + 2098)
  {
    PowersUsed();
    hide Pow2;
    PowersMultiply(h + 1022, h + 1022);
    PowersMultiply(54, 2 * h + 2044);
    Associate(r, 0x40_0000_0000_0000, w * w);
  }

  lemma MoreUnits(x: int)
    ensures x * Pow2(1100) == x * Pow2(1074) * Pow2(26)
  {
    hide Pow2;
    PowersMultiply(1074, 26);
    Associate(x, Pow2(1074), Pow2(26));
  }

  lemma FourthPowers()
    ensures Pow2(26) == 4 * Pow2(24) && Pow2(24) > 0
  {
  }

  lemma Cancel(a: int, b: int, p: int, q: int)
    requires p > 0 && q == 4 * p && a * q == b * p
    ensures 4 * a == b
  {
    assert (4 * a - b) * p == 0;
  }

  /** `z` is the square root of `x` in units of `2^-1074`, correctly rounded with the spacing `u`. */
  ghost predicate IsScaledRoot(x: int, z: int, u: int, mode: Rounding) {
    var square := x * Pow2(1074);
    && z >= u > 0
    && match mode
       case ToNearest => (2 * z - u) * (2 * z - u) < 4 * square < (2 * z + u) * (2 * z + u)
       case Upward => (z - u) * (z - u) < square <= z * z
       case Downward => z * z <= square < (z + u) * (z + u)
       case TowardZero => z * z <= square < (z + u) * (z + u)
  }

  lemma ScaledBelow(a: int, b: int, t: int, w: int)
    requires w > 0 && 0 <= b <= a * w
    ensures a * a < t ==> b * b < t * (w * w)
    ensures a * a <= t ==> b * b <= t * (w * w)
  {
    SquareMonotone(b, a * w);
    SquareOfProduct(a, w);
    ProductOrder(a * a, t, w * w);
  }

  lemma ScaledAbove(a: int, b: int, t: int, w: int)
    requires w > 0 && 0 <= a * w <= b
    ensures t < a * a ==> t * (w * w) < b * b
    ensures t <= a * a ==> t * (w * w) <= b * b
  {
    SquareMonotone(a * w, b);
    SquareOfProduct(a, w);
    ProductOrder(t, a * a, w * w);
  }

  lemma SquareOfProduct(a: int, w: int)
    requires w > 0
    ensures (a * w) * (a * w) == a * a * (w * w) && w * w > 0
  {
    Associate(a * w, a, w);
    Associate(a, w, a);
    Associate(a, a, w);
    Associate(a * a, w, w);
  }

  lemma ProductOrder(a: int, b: int, p: int)
    requires p > 0
    ensures a < b <==> a * p < b * p
  {
    if a < b {
      LargerProduct(b, a + 1, p);
      assert (a + 1) * p == a * p + p;
    } else {
      LargerProduct(a, b, p);
    }
  }

  lemma QuarterOf(b: int)
    ensures (2 * b) * (2 * b) == 4 * (b * b)
  {
  }

  lemma Multiples(n: int, w: int, z: int)
    requires z == n * w
    ensures (2 * n - 1) * w == 2 * z - w && (2 * n + 1) * w == 2 * z + w
    ensures (2 * n - 2) * w == 2 * (z - w) && (2 * n) * w == 2 * z && (2 * n + 2) * w == 2 * (z + w)
  {
  }

  /** Scaling what is said of the rounded root. */
  lemma ScaledBounds(t: int, n: int, w: int, z: int, u: int, x: int, mode: Rounding)
    requires RoundedHalfRoot(t, n, mode) && n >= 2 && w > 0 && w <= u <= 2 * w && z == n * w
    requires 4 * (x * Pow2(1074)) == t * (w * w)
    ensures IsScaledRoot(x, z, u, mode)
  {
    hide Pow2, IsScaledRoot;
    LargerProduct(n, 2, w);
    match mode
    case ToNearest => NearestBounds(t, n, w, z, u, x);
    case Upward => UpwardBounds(t, n, w, z, u, x);
    case Downward => DownwardBounds(t, n, w, z, u, x, mode);
    case TowardZero => DownwardBounds(t, n, w, z, u, x, mode);
  }

  lemma NearestBounds(t: int, n: int, w: int, z: int, u: int, x: int)
    requires RoundedHalfRoot(t, n, ToNearest) && 0 < w <= u <= z && z == n * w
    requires 4 * (x * Pow2(1074)) == t * (w * w)
    ensures IsScaledRoot(x, z, u, ToNearest)
  {
    hide Pow2;
    Multiples(n, w, z);
    ScaledBelow(2 * n - 1, 2 * z - u, t, w);
    ScaledAbove(2 * n + 1, 2 * z + u, t, w);
  }

  lemma UpwardBounds(t: int, n: int, w: int, z: int, u: int, x: int)
    requires RoundedHalfRoot(t, n, Upward) && 0 < w <= u <= z && z == n * w
    requires 4 * (x * Pow2(1074)) == t * (w * w)
    ensures IsScaledRoot(x, z, u, Upward)
  {
    hide Pow2;
    Multiples(n, w, z);
    ScaledBelow(2 * n - 2, 2 * (z - u), t, w);
    ScaledAbove(2 * n, 2 * z, t, w);
    QuarterOf(z - u);
    QuarterOf(z);
  }

  lemma DownwardBounds(t: int, n: int, w: int, z: int, u: int, x: int, mode: Rounding)
    requires (mode.Downward? || mode.TowardZero?) && RoundedHalfRoot(t, n, mode) && 0 < w <= u <= z && z == n * w
    requires 4 * (x * Pow2(1074)) == t * (w * w)
    ensures IsScaledRoot(x, z, u, mode)
  {
    hide Pow2;
    Multiples(n, w, z);
    ScaledBelow(2 * n, 2 * z, t, w);
    ScaledAbove(2 * n + 2, 2 * (z + u), t, w);
    QuarterOf(z);
    QuarterOf(z + u);
  }

  /** The words of a positive root, read as a value: the square root of the argument, correctly rounded. */
  lemma RootOnScale(hx: int, lx: u32, hz: int, lz: u32, mode: Rounding)
    requires IsPositive(hx, lx) && IsPositiveRoot(hx, lx, hz, lz, mode)
    ensures IsScaledRoot(Scaled(hx, lx), Scaled(hz, lz), Spacing(hz), mode)
  {
    RadicandOnScale(hx, lx);
    NormalOnScale(hz, lz);
    var h := HalfExponent(hx, lx);
    var w := Pow2(h + 1022);
    SquareOnScale(hx, lx, w);
    assert Pow2(h + 1023) == 2 * w;
    LargeSignificand(hz, lz);
    hide Pow2, Scaled, Radicand, HalfExponent, Exponent, Significand, RoundedHalfRoot, IsScaledRoot;
    var n := if Exponent(hz, lz) == h then Significand(hz, lz) else 2 * Significand(hz, lz);
    Regroup(Significand(hz, lz), w);
    ScaledBounds(Radicand(hx, lx) * 0x40_0000_0000_0000, n, w, Scaled(hz, lz), Spacing(hz), Scaled(hx, lx), mode);
  }

  lemma LargeSignificand(hz: int, lz: u32)
    requires IsNormal(hz)
    ensures Significand(hz, lz) >= 0x10_0000_0000_0000
  {
  }

  /** A double by its words, or one that the program leaves to floating-point arithmetic. */
  datatype Double64 = Words(hi: i32, lo: u32) | PlusInfinity | NotANumber

  /** The high word without its sign. */
  function Magnitude(hx: i32): i32 {
    if hx < 0 then hx + 0x7fff_ffff + 1 else hx
  }

  /** Negative arguments but zero, and arguments that are no numbers, have no root; plus infinity and
      both zeros are their own. */
  ghost predicate IsRoot(hx: i32, lx: u32, root: Double64, mode: Rounding) {
    if Magnitude(hx) == 0 && lx == 0 then root == Words(hx, lx)
    else if hx == 0x7ff0_0000 && lx == 0 then root == PlusInfinity
    else if hx < 0 || hx >= 0x7ff0_0000 then root == NotANumber
    else root.Words? && IsPositiveRoot(hx, lx, root.hi, root.lo, mode)
         && IsNormal(root.hi) && IsScaledRoot(Scaled(hx, lx), Scaled(root.hi, root.lo), Spacing(root.hi), mode)
  }

  /** The whole function, whatever the machine makes of the shift that C leaves open. */
  method Sqrt(hx: i32, lx: u32, mode: Rounding, wide: WideShift) returns (root: Double64)
    ensures IsRoot(hx, lx, root, mode)
  {
    if Magnitude(hx) >= 0x7ff0_0000 {
      root := if hx == 0x7ff0_0000 && lx == 0 then PlusInfinity else NotANumber;
    } else if hx <= 0 && Magnitude(hx) == 0 && lx == 0 {
      root := Words(hx, lx);
    } else if hx < 0 {
      root := NotANumber;
    } else {
      var hz, lz := PositiveRoot(hx, lx, mode, wide);
      RootOnScale(hx, lx, hz, lz, mode);
      root := Words(hz, lz);
    }
  }
}
