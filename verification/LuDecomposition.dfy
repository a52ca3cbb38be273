/** `ludcmp`: simultaneous linear equations by in-place LU decomposition, in exact arithmetic. */
module LuSpec {
  import opened LinearAlgebra

  /** Division as a total operation; a zero divisor has no meaningful quotient. */
  function Quotient(x: real, y: real): real {
    if y == 0.0 then 0.0 else x / y
  }

  function Fabs(x: real): real {
    if x >= 0.0 then x else -x
  }

  lemma QuotientTimes(x: real, y: real)
    requires y != 0.0
    ensures Quotient(x, y) * y == x
  {
  }

  // ---- Two triangular factors packed into one matrix

  /** Entry `(r, c)` of the product of the packed factors. */
  function Packed(m: Matrix, r: nat, c: nat): real {
    if r <= c then SumTo(m, m, r, c, r) + At(m, r, c) else SumTo(m, m, r, c, c) + At(m, r, c) * At(m, c, c)
  }

  lemma {:induction false} PackedTerms(m: Matrix, r: nat, c: nat, k: nat)
    ensures SumTo(Lower(m), Upper(m), r, c, k)
            == if k <= r && k <= c then SumTo(m, m, r, c, k) else Packed(m, r, c)
  {
    if k > 0 {
      PackedTerms(m, r, c, k - 1);
    }
  }

  /** Entries that a sum does not use may be overwritten. */
  lemma {:induction false} SumFrame(m: Matrix, i: nat, j: nat, w: real, r: nat, c: nat, k: nat)
    requires m.Entries? && !(i == r && j < k) && !(j == c && i < k)
    ensures SumTo(Put(m, i, j, w), Put(m, i, j, w), r, c, k) == SumTo(m, m, r, c, k)
  {
    if k > 0 {
      SumFrame(m, i, j, w, r, c, k - 1);
    }
  }

  /** Entries that product entry `(r, c)` does not use may be overwritten. */
  lemma PackedFrame(m: Matrix, i: nat, j: nat, w: real, r: nat, c: nat)
    requires m.Entries? && !(i == r && j <= c && j <= r) && !(j == c && i <= r && i <= c)
    ensures Packed(Put(m, i, j, w), r, c) == Packed(m, r, c)
  {
    SumFrame(m, i, j, w, r, c, if r <= c then r else c);
  }

  // ---- How far the factors are computed

  /** Entry `(r, c)` of the factors is right. */
  predicate Right(m: Matrix, a: Matrix, r: nat, c: nat) {
    Packed(m, r, c) == At(a, r, c)
  }

  /** Entry `(r, c)` has not been touched. */
  predicate Untouched(m: Matrix, a: Matrix, r: nat, c: nat) {
    At(m, r, c) == At(a, r, c)
  }

  /** Entry `(r, c)` is done when rows up to `i`, columns before `k`, column `k` above row `j`
      and row `i + 1` before column `l` are. */
  predicate Done(r: nat, c: nat, i: nat, k: nat, j: nat, l: nat) {
    r <= i || c < k || (c == k && r < j) || (r == i + 1 && c < l)
  }

  ghost predicate Factored(m: Matrix, a: Matrix, n: nat, i: nat, k: nat, j: nat, l: nat) {
    forall r: nat, c: nat | r < n && c < n ::
      if Done(r, c, i, k, j, l) then Right(m, a, r, c) else Untouched(m, a, r, c)
  }

  /** One more entry is done, and the others are as before. */
  lemma OneMoreDone(m: Matrix, a: Matrix, n: nat, i: nat, k: nat, j: nat, l: nat, j': nat, l': nat, r0: nat, c0: nat, v: real)
    requires m.Entries? && Factored(m, a, n, i, k, j, l) && Right(Put(m, r0, c0, v), a, r0, c0)
    requires forall r: nat, c: nat | r < n && c < n ::
               Done(r, c, i, k, j', l') <==> Done(r, c, i, k, j, l) || (r == r0 && c == c0)
    requires forall r: nat, c: nat | r < n && c < n && Done(r, c, i, k, j, l) ::
               !(r0 == r && c0 <= c && c0 <= r) && !(c0 == c && r0 <= r && r0 <= c)
    ensures Factored(Put(m, r0, c0, v), a, n, i, k, j', l')
  {
    var m' := Put(m, r0, c0, v);
    forall r: nat, c: nat | r < n && c < n
      ensures if Done(r, c, i, k, j', l') then Right(m', a, r, c) else Untouched(m', a, r, c)
    {
      if Done(r, c, i, k, j, l) {
        PackedFrame(m, r0, c0, v, r, c);
        assert Right(m, a, r, c);
      } else if r != r0 || c != c0 {
        assert Untouched(m, a, r, c);
      }
    }
  }

  /** The next entry of column `i` of the lower factor. */
  lemma ColumnStep(m: Matrix, a: Matrix, n: nat, i: nat, j: nat)
    requires m.Entries? && i < j < n && Factored(m, a, n, i, i, j, 0) && At(m, i, i) != 0.0
    ensures var v := Quotient(At(m, j, i) - SumTo(m, m, j, i, i), At(m, i, i));
            Factored(Put(m, j, i, v), a, n, i, i, j + 1, 0)
  {
    var w := At(m, j, i) - SumTo(m, m, j, i, i);
    var v := Quotient(w, At(m, i, i));
    QuotientTimes(w, At(m, i, i));
    SumFrame(m, j, i, v, j, i, i);
    assert !Done(j, i, i, i, j, 0) && Untouched(m, a, j, i);
    OneMoreDone(m, a, n, i, i, j, 0, j + 1, 0, j, i, v);
  }

  /** The next entry of row `i + 1` of the upper factor. */
  lemma RowStep(m: Matrix, a: Matrix, n: nat, i: nat, j: nat)
    requires m.Entries? && i + 1 <= j < n && Factored(m, a, n, i, i + 1, 0, j)
    ensures var v := At(m, i + 1, j) - SumTo(m, m, i + 1, j, i + 1);
            Factored(Put(m, i + 1, j, v), a, n, i, i + 1, 0, j + 1)
  {
    var v := At(m, i + 1, j) - SumTo(m, m, i + 1, j, i + 1);
    SumFrame(m, i + 1, j, v, i + 1, j, i + 1);
    assert !Done(i + 1, j, i, i + 1, 0, j) && Untouched(m, a, i + 1, j);
    OneMoreDone(m, a, n, i, i + 1, 0, j, 0, j + 1, i + 1, j, v);
  }

  // ---- The in-place passes on values

  /** Column `i` of the lower factor computed for the rows before `j`. */
  function ColumnPass(m: Matrix, i: nat, j: nat): (m': Matrix)
    requires m.Entries?
    ensures m'.Entries?
  {
    if j <= i + 1 then m
    else
      var p := ColumnPass(m, i, j - 1);
      Put(p, j - 1, i, Quotient(At(p, j - 1, i) - SumTo(p, p, j - 1, i, i), At(p, i, i)))
  }

  /** Row `i + 1` of the upper factor computed for the columns before `j`. */
  function RowPass(m: Matrix, i: nat, j: nat): (m': Matrix)
    requires m.Entries?
    ensures m'.Entries?
  {
    if j <= i + 1 then m
    else
      var p := RowPass(m, i, j - 1);
      Put(p, i + 1, j - 1, At(p, i + 1, j - 1) - SumTo(p, p, i + 1, j - 1, i + 1))
  }

  function OneStep(m: Matrix, n: nat, i: nat): (m': Matrix)
    requires m.Entries?
    ensures m'.Entries?
  {
    RowPass(ColumnPass(m, i, n), i, n)
  }

  /** The passes leave the diagonal entries alone that have served as pivots. */
  lemma {:induction false} PassesKeepPivots(m: Matrix, i: nat, j: nat, t: nat)
    requires m.Entries? && t <= i
    ensures At(ColumnPass(m, i, j), t, t) == At(m, t, t) == At(RowPass(m, i, j), t, t)
  {
    if j > i + 1 {
      PassesKeepPivots(m, i, j - 1, t);
    }
  }

  lemma {:induction false} ColumnPassFactors(m: Matrix, a: Matrix, n: nat, i: nat, j: nat)
    requires m.Entries? && i < n && i + 1 <= j <= n && Factored(m, a, n, i, i, i + 1, 0) && At(m, i, i) != 0.0
    ensures Factored(ColumnPass(m, i, j), a, n, i, i, j, 0)
  {
    hide Factored, Quotient, SumTo, At;
    if j > i + 1 {
      ColumnPassFactors(m, a, n, i, j - 1);
      PassesKeepPivots(m, i, j - 1, i);
      ColumnStep(ColumnPass(m, i, j - 1), a, n, i, j - 1);
    }
  }

  lemma {:induction false} RowPassFactors(m: Matrix, a: Matrix, n: nat, i: nat, j: nat)
    requires m.Entries? && i < n && i + 1 <= j <= n && Factored(m, a, n, i, i + 1, 0, i + 1)
    ensures Factored(RowPass(m, i, j), a, n, i, i + 1, 0, j)
  {
    hide Factored, SumTo, At;
    if j > i + 1 {
      RowPassFactors(m, a, n, i, j - 1);
      RowStep(RowPass(m, i, j - 1), a, n, i, j - 1);
    }
  }

  /** Two ways of saying how far the factors are. */
  lemma SameProgress(m: Matrix, a: Matrix, n: nat, i: nat)
    ensures Factored(m, a, n, i, i, n, 0) ==> Factored(m, a, n, i, i + 1, 0, i + 1)
    ensures Factored(m, a, n, i, i + 1, 0, n) ==> Factored(m, a, n, i + 1, i + 1, i + 2, 0)
  {
    var i1, i2 := i + 1, i + 2;
    assert forall r: nat, c: nat | r < n && c < n :: Done(r, c, i, i, n, 0) <==> Done(r, c, i, i1, 0, i1);
    assert forall r: nat, c: nat | r < n && c < n :: Done(r, c, i, i1, 0, n) <==> Done(r, c, i1, i1, i2, 0);
  }

  /** `m` results from `i` steps on `a`, all with pivots above `eps`. */
  ghost predicate AfterSteps(m: Matrix, a: Matrix, n: nat, i: nat, eps: real) {
    && Factored(m, a, n, i, i, i + 1, 0)
    && forall t: nat | t < i :: At(m, t, t) > eps || At(m, t, t) < -eps
  }

  lemma StartFactored(a: Matrix, n: nat, eps: real)
    ensures AfterSteps(a, a, n, 0, eps)
  {
  }

  /** One step with a pivot above `eps` extends the factors by one column and one row. */
  lemma StepAdvances(m: Matrix, a: Matrix, n: nat, i: nat, eps: real)
    requires m.Entries? && i + 1 < n && eps > 0.0 && AfterSteps(m, a, n, i, eps)
    requires At(m, i, i) > eps || At(m, i, i) < -eps
    ensures AfterSteps(OneStep(m, n, i), a, n, i + 1, eps)
  {
    var c := ColumnPass(m, i, n);
    ColumnPassFactors(m, a, n, i, n);
    SameProgress(c, a, n, i);
    RowPassFactors(c, a, n, i, n);
    SameProgress(RowPass(c, i, n), a, n, i);
    forall t: nat | t < i + 1
      ensures At(OneStep(m, n, i), t, t) == At(m, t, t)
    {
      PassesKeepPivots(m, i, n, t);
      PassesKeepPivots(c, i, n, t);
    }
  }

  /** After all steps the factors multiply to the original matrix. */
  lemma AllFactored(m: Matrix, a: Matrix, n: nat)
    requires n > 0 && Factored(m, a, n, n - 1, n - 1, n, 0)
    ensures IsProduct(a, Lower(m), Upper(m), n)
  {
    forall r: nat, c: nat | r < n && c < n
      ensures At(a, r, c) == SumTo(Lower(m), Upper(m), r, c, n)
    {
      PackedTerms(m, r, c, n);
      assert Right(m, a, r, c);
    }
  }

  // ---- Substitution

  /** The terms of row `r` from column `lo` up to `k`. */
  function ApplyFrom(m: Matrix, v: Vector, r: nat, lo: nat, k: nat): real {
    if k <= lo then 0.0 else ApplyFrom(m, v, r, lo, k - 1) + At(m, r, k - 1) * Get(v, k - 1)
  }

  /** The left-hand sides of the two triangular systems. */
  function ForwardRow(m: Matrix, y: Vector, r: nat): real {
    ApplyTo(m, y, r, r) + Get(y, r)
  }

  function BackRow(m: Matrix, n: nat, x: Vector, r: nat): real {
    At(m, r, r) * Get(x, r) + ApplyFrom(m, x, r, r + 1, n)
  }

  lemma {:induction false} LowerRow(m: Matrix, y: Vector, r: nat, k: nat)
    ensures ApplyTo(Lower(m), y, r, k) == if k <= r then ApplyTo(m, y, r, k) else ForwardRow(m, y, r)
  {
    if k > 0 {
      LowerRow(m, y, r, k - 1);
    }
  }

  lemma {:induction false} UpperRow(m: Matrix, x: Vector, r: nat, k: nat)
    ensures ApplyTo(Upper(m), x, r, k) == if k <= r then 0.0 else BackRow(m, k, x, r)
  {
    if k > 0 {
      UpperRow(m, x, r, k - 1);
    }
  }

  /** The rows of forward substitution before `rows`. */
  ghost predicate ForwardTo(m: Matrix, y: Vector, b: Vector, rows: nat) {
    forall r: nat | r < rows :: ForwardRow(m, y, r) == Get(b, r)
  }

  /** The rows of back substitution from `from` on. */
  ghost predicate BackFrom(m: Matrix, n: nat, x: Vector, y: Vector, from: nat) {
    forall r: nat | from <= r < n :: BackRow(m, n, x, r) == Get(y, r)
  }

  /** Values not yet read may be set. */
  lemma {:induction false} ApplyFrame(m: Matrix, v: Vector, i: nat, w: real, r: nat, lo: nat, k: nat)
    ensures k <= i ==> ApplyTo(m, v[i := w], r, k) == ApplyTo(m, v, r, k)
    ensures i < lo ==> ApplyFrom(m, v[i := w], r, lo, k) == ApplyFrom(m, v, r, lo, k)
  {
    if k > 0 {
      ApplyFrame(m, v, i, w, r, lo, k - 1);
    }
  }

  lemma ForwardStep(m: Matrix, y: Vector, b: Vector, i: nat)
    requires ForwardTo(m, y, b, i)
    ensures ForwardTo(m, y[i := Get(b, i) - ApplyTo(m, y, i, i)], b, i + 1)
  {
    var w := Get(b, i) - ApplyTo(m, y, i, i);
    forall r: nat | r < i + 1
      ensures ForwardRow(m, y[i := w], r) == if r == i then Get(b, i) else ForwardRow(m, y, r)
    {
      ApplyFrame(m, y, i, w, r, 0, r);
    }
  }

  lemma BackRowFrame(m: Matrix, n: nat, x: Vector, i: nat, w: real, r: nat)
    requires i < r
    ensures BackRow(m, n, x[i := w], r) == BackRow(m, n, x, r)
  {
    ApplyFrame(m, x, i, w, r, r + 1, n);
    assert Get(x[i := w], r) == Get(x, r);
  }

  lemma BackRowSolved(m: Matrix, n: nat, x: Vector, i: nat, s: real)
    requires At(m, i, i) != 0.0
    ensures BackRow(m, n, x[i := Quotient(s, At(m, i, i))], i) == s + ApplyFrom(m, x, i, i + 1, n)
  {
    ApplyFrame(m, x, i, Quotient(s, At(m, i, i)), i, i + 1, n);
    QuotientTimes(s, At(m, i, i));
  }

  lemma BackStep(m: Matrix, n: nat, x: Vector, y: Vector, i: nat)
    requires i < n && BackFrom(m, n, x, y, i + 1) && At(m, i, i) != 0.0
    ensures BackFrom(m, n, x[i := Quotient(Get(y, i) - ApplyFrom(m, x, i, i + 1, n), At(m, i, i))], y, i)
  {
    var s := Get(y, i) - ApplyFrom(m, x, i, i + 1, n);
    var w := Quotient(s, At(m, i, i));
    BackRowSolved(m, n, x, i, s);
    forall r: nat | i <= r < n
      ensures BackRow(m, n, x[i := w], r) == Get(y, r)
    {
      if r > i {
        BackRowFrame(m, n, x, i, w, r);
      }
    }
  }

  /** Both substitutions together solve the original system. */
  lemma Solved(m: Matrix, a: Matrix, n: nat, x: Vector, y: Vector, b: Vector)
    requires IsProduct(a, Lower(m), Upper(m), n) && ForwardTo(m, y, b, n) && BackFrom(m, n, x, y, 0)
    ensures Solves(a, x, b, n)
  {
    forall r: nat | r < n
      ensures ApplyTo(Upper(m), x, r, n) == Get(y, r)
    {
      UpperRow(m, x, r, n);
    }
    forall r: nat | r < n
      ensures ApplyTo(Lower(m), y, r, n) == Get(b, r)
    {
      LowerRow(m, y, r, n);
    }
    SolveByFactors(a, Lower(m), Upper(m), x, y, b, n);
  }

  // ---- When the last pivot is zero

  /** A vector other than zero that the leading `n` rows and columns take to zero. */
  ghost predicate InKernel(a: Matrix, v: Vector, n: nat) {
    Solves(a, v, map[], n) && exists i: nat :: i < n && Get(v, i) != 0.0
  }

  ghost predicate Singular(a: Matrix, n: nat) {
    exists v :: InKernel(a, v, n)
  }

  lemma {:induction false} ApplyZeros(m: Matrix, v: Vector, r: nat, k: nat)
    requires forall i: nat | i < k :: Get(v, i) == 0.0
    ensures ApplyTo(m, v, r, k) == 0.0
  {
    if k > 0 {
      ApplyZeros(m, v, r, k - 1);
    }
  }

  lemma {:induction false} ApplyFromZeros(m: Matrix, v: Vector, r: nat, lo: nat, k: nat)
    requires forall i: nat | lo <= i < k :: Get(v, i) == 0.0
    ensures ApplyFrom(m, v, r, lo, k) == 0.0
  {
    if k > lo {
      ApplyFromZeros(m, v, r, lo, k - 1);
    }
  }

  /** Back substitution of zero from any last component on. */
  lemma {:induction false} KernelVector(m: Matrix, n: nat, i: nat) returns (v: Vector)
    requires i <= n && At(m, n, n) == 0.0 && forall t | 0 <= t < n :: At(m, t, t) != 0.0
    ensures BackFrom(m, n + 1, v, map[], i) && Get(v, n) == 1.0
    decreases n - i
  {
    if i == n {
      v := map[n := 1.0];
      assert ApplyFrom(m, v, n, n + 1, n + 1) == 0.0;
    } else {
      var u := KernelVector(m, n, i + 1);
      BackStep(m, n + 1, u, map[], i);
      v := u[i := Quotient(Get(map[], i) - ApplyFrom(m, u, i, i + 1, n + 1), At(m, i, i))];
    }
  }

  /** The only solution of the lower system with zeros on the right. */
  lemma {:induction false} ForwardZero(m: Matrix, y: Vector, n: nat, r: nat)
    requires ForwardTo(m, y, map[], n) && r < n
    ensures forall i: nat | i <= r :: Get(y, i) == 0.0
  {
    if r > 0 {
      ForwardZero(m, y, n, r - 1);
    }
    ApplyZeros(m, y, r, r);
    assert ForwardRow(m, y, r) == 0.0;
  }

  /** The only solution of the upper system with zeros on the right. */
  lemma {:induction false} BackZero(m: Matrix, n: nat, x: Vector, y: Vector, r: nat)
    requires BackFrom(m, n, x, y, 0) && r < n
    requires forall i: nat | i < n :: Get(y, i) == 0.0 && At(m, i, i) != 0.0
    ensures forall i: nat | r <= i < n :: Get(x, i) == 0.0
    decreases n - r
  {
    if r + 1 < n {
      BackZero(m, n, x, y, r + 1);
    }
    ApplyFromZeros(m, x, r, r + 1, n);
    assert BackRow(m, n, x, r) == 0.0;
    NoZeroFactor(At(m, r, r), Get(x, r));
  }

  lemma NoZeroFactor(a: real, b: real)
    requires a != 0.0 && a * b == 0.0
    ensures b == 0.0
  {
  }

  /** A solution of the product solves the factors in turn. */
  lemma SolutionOfFactors(m: Matrix, a: Matrix, n: nat, x: Vector, b: Vector) returns (y: Vector)
    requires IsProduct(a, Lower(m), Upper(m), n) && Solves(a, x, b, n)
    ensures ForwardTo(m, y, b, n) && BackFrom(m, n, x, y, 0)
  {
    y := map r: nat | r < n :: ApplyTo(Upper(m), x, r, n);
    assert Solves(Upper(m), x, y, n);
    forall r: nat | r < n
      ensures ForwardRow(m, y, r) == Get(b, r) && BackRow(m, n, x, r) == Get(y, r)
    {
      UpperRow(m, x, r, n);
      LowerRow(m, y, r, n);
      ExchangeSums(a, Lower(m), Upper(m), x, n, r, n);
      NestedIsApply(Lower(m), Upper(m), x, y, n, r, n);
      SolvesRow(a, x, b, n, r);
    }
  }

  lemma ZeroPivotKernel(m: Matrix, a: Matrix, n: nat)
    requires IsProduct(a, Lower(m), Upper(m), n + 1) && forall t | 0 <= t < n :: At(m, t, t) != 0.0
    requires At(m, n, n) == 0.0
    ensures Singular(a, n + 1)
  {
    hide IsProduct, Solves, ApplyFrom;
    var v := KernelVector(m, n, 0);
    forall r: nat | r < n + 1
      ensures ForwardRow(m, map[], r) == 0.0
    {
      ApplyZeros(m, map[], r, r);
    }
    Solved(m, a, n + 1, v, map[], map[]);
    assert InKernel(a, v, n + 1);
  }

  lemma PivotsNoKernel(m: Matrix, a: Matrix, n: nat, v: Vector)
    requires IsProduct(a, Lower(m), Upper(m), n) && forall t | 0 <= t < n :: At(m, t, t) != 0.0
    ensures !InKernel(a, v, n)
  {
    hide IsProduct, ForwardTo, BackFrom;
    if n > 0 && InKernel(a, v, n) {
      var y := SolutionOfFactors(m, a, n, v, map[]);
      ForwardZero(m, y, n, n - 1);
      BackZero(m, n, v, y, 0);
    }
  }

  lemma PivotsRegular(m: Matrix, a: Matrix, n: nat)
    requires IsProduct(a, Lower(m), Upper(m), n) && forall t | 0 <= t < n :: At(m, t, t) != 0.0
    ensures !Singular(a, n)
  {
    hide IsProduct, InKernel;
    forall v
      ensures !InKernel(a, v, n)
    {
      PivotsNoKernel(m, a, n, v);
    }
  }

  /** After pivots that are not zero, the last one is zero if and only if the matrix is singular. */
  lemma LastPivotZeroIffSingular(m: Matrix, a: Matrix, n: nat)
    requires IsProduct(a, Lower(m), Upper(m), n + 1) && forall t | 0 <= t < n :: At(m, t, t) != 0.0
    ensures At(m, n, n) == 0.0 <==> Singular(a, n + 1)
  {
    hide IsProduct, InKernel;
    if At(m, n, n) == 0.0 {
      ZeroPivotKernel(m, a, n);
    } else {
      PivotsRegular(m, a, n + 1);
    }
  }

  /** A matrix that is not singular has one solution for each right-hand side. */
  lemma SolutionIsUnique(a: Matrix, x: Vector, y: Vector, b: Vector, n: nat)
    requires !Singular(a, n) && Solves(a, x, b, n) && Solves(a, y, b, n)
    ensures forall i: nat | i < n :: Get(x, i) == Get(y, i)
  {
    var v: Vector := map i: nat | i < n :: Get(x, i) - Get(y, i);
    forall r | 0 <= r < n
      ensures ApplyTo(a, v, r, n) == 0.0
    {
      ApplyDifference(a, x, y, v, n, r, n);
      SolvesRow(a, x, b, n, r);
      SolvesRow(a, y, b, n, r);
    }
    assert forall i: nat | i < n :: Get(v, i) == Get(x, i) - Get(y, i);
    assert !InKernel(a, v, n);
  }

  lemma {:induction false} ApplyDifference(a: Matrix, x: Vector, y: Vector, v: Vector, n: nat, r: nat, k: nat)
    requires k <= n && forall i: nat | i < n :: Get(v, i) == Get(x, i) - Get(y, i)
    ensures ApplyTo(a, v, r, k) == ApplyTo(a, x, r, k) - ApplyTo(a, y, r, k)
  {
    hide At, Get;
    if k > 0 {
      ApplyDifference(a, x, y, v, n, r, k - 1);
      assert Get(v, k - 1) == Get(x, k - 1) - Get(y, k - 1);
      DifferenceStep(ApplyTo(a, x, r, k - 1), ApplyTo(a, y, r, k - 1), At(a, r, k - 1), Get(x, k - 1), Get(y, k - 1));
    }
  }

  lemma DifferenceStep(s: real, t: real, a: real, b: real, c: real)
    ensures s - t + a * (b - c) == (s + a * b) - (t + a * c)
  {
  }

  /** One equation `0 * x == 1` has no solution, and its only pivot is the one that is not compared. */
  lemma ZeroHasNoSolution(x: Vector)
    ensures !Solves(Entries(map[]), x, map[0 := 1.0], 1)
  {
    assert ApplyTo(Entries(map[]), x, 0, 1) == 0.0;
  }
}

module LuDecomposition {
  import opened LinearAlgebra
  import opened LuSpec

  class LinearSystem {
    /** The coefficient matrix, the right-hand side and the solution. */
    const a: array2<real>
    const b: array<real>
    const x: array<real>

    constructor (a0: array2<real>, b0: array<real>, x0: array<real>)
      ensures a == a0 && b == b0 && x == x0
    {
      a, b, x := a0, b0, x0;
    }

    /** The arrays have room for `size` equations. */
    predicate HasRoom(size: nat) {
      size <= a.Length0 && size <= a.Length1 && size <= b.Length && size <= x.Length && b != x
    }

    /** The leading `size` rows and columns of the array hold `m`. */
    ghost predicate Holds(m: Matrix, size: nat)
      reads a
    {
      && HasRoom(size) && m.Entries?
      && forall r, c | 0 <= r < size && 0 <= c < size :: a[r, c] == At(m, r, c)
    }

    method Store(i: nat, j: nat, w: real, ghost m: Matrix, ghost size: nat)
      requires Holds(m, size) && i < size && j < size
      modifies a
      ensures Holds(Put(m, i, j, w), size)
    {
      a[i, j] := w;
    }

    /** `w0` less the first `k` terms of a product entry. */
    method SubtractDot(w0: real, r: nat, c: nat, k: nat, ghost m: Matrix, ghost size: nat) returns (w: real)
      requires Holds(m, size) && r < size && c < size && k <= size
      ensures w == w0 - SumTo(m, m, r, c, k)
    {
      w := w0;
      for t := 0 to k
        invariant w == w0 - SumTo(m, m, r, c, t)
      {
        assert a[r, t] == At(m, r, t) && a[t, c] == At(m, t, c);
        w := w - a[r, t] * a[t, c];
      }
    }

    /** Column `i` of the lower factor, below the diagonal. */
    method ComputeColumn(n: nat, i: nat, ghost m: Matrix)
      requires Holds(m, n + 1) && i < n
      modifies a
      ensures Holds(ColumnPass(m, i, n + 1), n + 1)
    {
      for j := i + 1 to n + 1
        invariant Holds(ColumnPass(m, i, j), n + 1)
      {
        ghost var p := ColumnPass(m, i, j);
        var w := a[j, i];
        if i != 0 {
          w := SubtractDot(w, j, i, i, p, n + 1);
        }
        assert w == At(p, j, i) - SumTo(p, p, j, i, i);
        Store(j, i, Quotient(w, a[i, i]), p, n + 1);
      }
    }

    /** Row `i + 1` of the upper factor. */
    method ComputeRow(n: nat, i: nat, ghost m: Matrix)
      requires Holds(m, n + 1) && i < n
      modifies a
      ensures Holds(RowPass(m, i, n + 1), n + 1)
    {
      for j := i + 1 to n + 1
        invariant Holds(RowPass(m, i, j), n + 1)
      {
        ghost var p := RowPass(m, i, j);
        var w := a[i + 1, j];
        w := SubtractDot(w, i + 1, j, i + 1, p, n + 1);
        Store(i + 1, j, w, p, n + 1);
      }
    }

    /** The decomposition: stops with `false` at the first pivot that is not above `eps`. */
    method Decompose(n: nat, eps: real, ghost original: Matrix) returns (ok: bool, ghost i: nat, ghost m: Matrix)
      requires Holds(original, n + 1) && eps > 0.0
      modifies a
      ensures i <= n && Holds(m, n + 1) && AfterSteps(m, original, n + 1, i, eps)
      ensures if ok then i == n else i < n && -eps <= At(m, i, i) <= eps
    {
      StartFactored(original, n + 1, eps);
      m, i := original, 0;
      var k := 0;
      while k < n
        invariant 0 <= k <= n && i == k && Holds(m, n + 1) && AfterSteps(m, original, n + 1, k, eps)
      {
        if Fabs(a[k, k]) <= eps {
          ok := false;
          return;
        }
        StepAdvances(m, original, n + 1, k, eps);
        ComputeColumn(n, k, m);
        ComputeRow(n, k, ColumnPass(m, k, n + 1));
        m := OneStep(m, n + 1, k);
        k := k + 1;
        i := k;
      }
      ok := true;
    }

    /** Forward substitution with the unit lower triangular factor. */
    method Forward(n: nat, y: array<real>, ghost m: Matrix, ghost rhs: Vector) returns (ghost v: Vector)
      requires Holds(m, n + 1) && n < y.Length && y != b && y != x && Stores(b, rhs, 0, n + 1)
      modifies y
      ensures Stores(y, v, 0, n + 1) && ForwardTo(m, v, rhs, n + 1)
    {
      v := map[];
      ForwardStep(m, v, rhs, 0);
      y[0] := b[0];
      v := v[0 := b[0]];
      for i := 1 to n + 1
        invariant Stores(y, v, 0, i) && ForwardTo(m, v, rhs, i)
      {
        var w := b[i];
        for j := 0 to i
          invariant w == Get(rhs, i) - ApplyTo(m, v, i, j)
        {
          assert a[i, j] == At(m, i, j) && y[j] == Get(v, j);
          w := w - a[i, j] * y[j];
        }
        ForwardStep(m, v, rhs, i);
        y[i] := w;
        v := v[i := w];
      }
    }

    /** Back substitution with the upper triangular factor. */
    method Backward(n: nat, y: array<real>, ghost m: Matrix, ghost rhs: Vector) returns (ghost v: Vector)
      requires Holds(m, n + 1) && n < y.Length && y != x && Stores(y, rhs, 0, n + 1)
      requires forall t | 0 <= t < n :: At(m, t, t) != 0.0
      modifies x
      ensures Stores(x, v, 0, n + 1) && (At(m, n, n) != 0.0 ==> BackFrom(m, n + 1, v, rhs, 0))
    {
      v := map[];
      if At(m, n, n) != 0.0 {
        BackStep(m, n + 1, v, rhs, n);
      }
      x[n] := Quotient(y[n], a[n, n]);
      v := v[n := x[n]];
      var i := n - 1;
      while i >= 0
        invariant -1 <= i < n && Stores(x, v, i + 1, n + 1)
        invariant At(m, n, n) != 0.0 ==> BackFrom(m, n + 1, v, rhs, i + 1)
      {
        var w := y[i];
        for j := i + 1 to n + 1
          invariant w == Get(rhs, i) - ApplyFrom(m, v, i, i + 1, j)
        {
          assert a[i, j] == At(m, i, j) && x[j] == Get(v, j);
          w := w - a[i, j] * x[j];
        }
        if At(m, n, n) != 0.0 {
          BackStep(m, n + 1, v, rhs, i);
        }
        x[i] := Quotient(w, a[i, i]);
        v := v[i := x[i]];
        i := i - 1;
      }
    }

    /** Solves `n + 1` equations. With the result 0 the matrix has become its own factors, and the
        solution is exact unless the matrix is singular, which makes the last pivot, the one never compared
        with `eps`, zero. With the result 1 a pivot was not above `eps`. */
    method Ludcmp(n: nat, eps: real, ghost original: Matrix, ghost rhs: Vector)
      returns (code: int, ghost m: Matrix, ghost solution: Vector)
      requires n <= 99 && eps > 0.0 ==> Holds(original, n + 1) && Stores(b, rhs, 0, n + 1)
      modifies a, x
      ensures code == 999 <==> n > 99 || eps <= 0.0
      ensures code == 999 ==> (forall r, c | 0 <= r < a.Length0 && 0 <= c < a.Length1 :: a[r, c] == old(a[r, c]))
                              && x[..] == old(x[..])
      ensures code == 0 || code == 1 || code == 999
      ensures code == 0 ==>
                && Holds(m, n + 1) && IsProduct(original, Lower(m), Upper(m), n + 1)
                && (forall t | 0 <= t < n :: At(m, t, t) > eps || At(m, t, t) < -eps)
                && Stores(x, solution, 0, n + 1)
                && (a[n, n] == 0.0 <==> Singular(original, n + 1))
                && (!Singular(original, n + 1) ==> Solves(original, solution, rhs, n + 1))
      ensures code == 1 ==>
                && Holds(m, n + 1) && x[..] == old(x[..])
                && exists i: nat | i < n :: AfterSteps(m, original, n + 1, i, eps) && -eps <= At(m, i, i) <= eps
    {
      m, solution := original, map[];
      if n > 99 || eps <= 0.0 {
        code := 999;
        return;
      }
      var ok;
      ghost var i;
      ok, i, m := Decompose(n, eps, original);
      if !ok {
        code := 1;
        return;
      }
      AllFactored(m, original, n + 1);
      var y := new real[100];
      ghost var v := Forward(n, y, m, rhs);
      solution := Backward(n, y, m, v);
      LastPivotZeroIffSingular(m, original, n);
      if At(m, n, n) != 0.0 {
        Solved(m, original, n + 1, solution, v, rhs);
      }
      code := 0;
    }
  }

  /** A system without a solution for which the program returns 0: one equation `0 * x == 1`. */
  method SolveNothing() returns (code: int)
    ensures code == 0 && forall x :: !Solves(Entries(map[]), x, map[0 := 1.0], 1)
  {
    var a := new real[1, 1]((r, c) => 0.0);
    var b := new real[1](r => 1.0);
    var x := new real[1](r => 0.0);
    var system := new LinearSystem(a, b, x);
    ghost var m, solution;
    code, m, solution := system.Ludcmp(0, 0.000001, Entries(map[]), map[0 := 1.0]);
    forall v
      ensures !Solves(Entries(map[]), v, map[0 := 1.0], 1)
    {
      ZeroHasNoSolution(v);
    }
  }

  /** The entries of `arr` from `lo` up to `hi` are those of `v`. */
  ghost predicate Stores(arr: array<real>, v: Vector, lo: nat, hi: nat)
    reads arr
  {
    hi <= arr.Length && forall i | lo <= i < hi :: arr[i] == Get(v, i)
  }
}
