/** Matrices and vectors of exact numbers; an entry that was never set is zero. */
module LinearAlgebra {
  type Vector = map<nat, real>

  /** A matrix by its entries, or a triangular factor of a packed pair: the unit lower triangular
      one is below the diagonal of `of`, the upper triangular one on and above it. */
  datatype Matrix = Entries(entries: map<(nat, nat), real>) | Lower(of: Matrix) | Upper(of: Matrix)

  function At(m: Matrix, r: nat, c: nat): real {
    match m
    case Entries(e) => if (r, c) in e then e[(r, c)] else 0.0
    case Lower(p) => if c < r then At(p, r, c) else if c == r then 1.0 else 0.0
    case Upper(p) => if r <= c then At(p, r, c) else 0.0
  }

  function Get(v: Vector, i: nat): real {
    if i in v then v[i] else 0.0
  }

  function Put(m: Matrix, r: nat, c: nat, w: real): (m': Matrix)
    requires m.Entries?
    ensures m'.Entries?
    ensures forall i, j :: At(m', i, j) == if i == r && j == c then w else At(m, i, j)
  {
    Entries(m.entries[(r, c) := w])
  }

  /** The first `k` terms of entry `(r, c)` of the product `l * u`. */
  function SumTo(l: Matrix, u: Matrix, r: nat, c: nat, k: nat): real {
    if k == 0 then 0.0 else SumTo(l, u, r, c, k - 1) + At(l, r, k - 1) * At(u, k - 1, c)
  }

  /** The first `k` terms of component `r` of `m * v`. */
  function ApplyTo(m: Matrix, v: Vector, r: nat, k: nat): real {
    if k == 0 then 0.0 else ApplyTo(m, v, r, k - 1) + At(m, r, k - 1) * Get(v, k - 1)
  }

  /** `a == l * u` for the leading `n` rows and columns. */
  ghost predicate IsProduct(a: Matrix, l: Matrix, u: Matrix, n: nat) {
    forall r, c | 0 <= r < n && 0 <= c < n :: At(a, r, c) == SumTo(l, u, r, c, n)
  }

  /** `m * v == w` for the first `n` components. */
  ghost predicate Solves(m: Matrix, v: Vector, w: Vector, n: nat) {
    forall r | 0 <= r < n :: ApplyTo(m, v, r, n) == Get(w, r)
  }

  // ---- Two products after one another

  /** Component `r` of `l * (u * v)`, with `k` columns of `u` and the first `t` rows. */
  function NestedTo(l: Matrix, u: Matrix, v: Vector, r: nat, k: nat, t: nat): real {
    if t == 0 then 0.0 else NestedTo(l, u, v, r, k, t - 1) + At(l, r, t - 1) * ApplyTo(u, v, t - 1, k)
  }

  /** What column `k` of `u` contributes to the nested sum. */
  function ColumnTo(l: Matrix, u: Matrix, v: Vector, r: nat, k: nat, t: nat): real {
    if t == 0 then 0.0 else ColumnTo(l, u, v, r, k, t - 1) + At(l, r, t - 1) * (At(u, t - 1, k) * Get(v, k))
  }

  lemma {:induction false} ColumnIsScaledSum(l: Matrix, u: Matrix, v: Vector, r: nat, k: nat, t: nat)
    ensures ColumnTo(l, u, v, r, k, t) == SumTo(l, u, r, k, t) * Get(v, k)
  {
    if t > 0 {
      ColumnIsScaledSum(l, u, v, r, k, t - 1);
      ScaleStep(SumTo(l, u, r, k, t - 1), At(l, r, t - 1), At(u, t - 1, k), Get(v, k));
    }
  }

  lemma ScaleStep(s: real, a: real, c: real, d: real)
    ensures (s + a * c) * d == s * d + a * (c * d)
  {
  }

  lemma {:induction false} OneMoreColumn(l: Matrix, u: Matrix, v: Vector, r: nat, k: nat, t: nat)
    ensures NestedTo(l, u, v, r, k + 1, t) == NestedTo(l, u, v, r, k, t) + ColumnTo(l, u, v, r, k, t)
  {
    hide At, Get;
    if t > 0 {
      OneMoreColumn(l, u, v, r, k, t - 1);
      Distribute(At(l, r, t - 1), ApplyTo(u, v, t - 1, k), At(u, t - 1, k) * Get(v, k));
    }
  }

  lemma Distribute(a: real, b: real, c: real)
    ensures a * (b + c) == a * b + a * c
  {
  }

  lemma {:induction false} NestedZero(l: Matrix, u: Matrix, v: Vector, r: nat, t: nat)
    ensures NestedTo(l, u, v, r, 0, t) == 0.0
  {
    if t > 0 {
      NestedZero(l, u, v, r, t - 1);
    }
  }

  /** Column `c` of a product contributes what column `c` of its second factor does. */
  lemma ProductColumn(a: Matrix, l: Matrix, u: Matrix, v: Vector, n: nat, r: nat, c: nat)
    requires At(a, r, c) == SumTo(l, u, r, c, n)
    ensures ApplyTo(a, v, r, c + 1) == ApplyTo(a, v, r, c) + ColumnTo(l, u, v, r, c, n)
  {
    ColumnIsScaledSum(l, u, v, r, c, n);
  }

  /** The order of summation does not matter. */
  lemma {:induction false} ExchangeSums(a: Matrix, l: Matrix, u: Matrix, v: Vector, n: nat, r: nat, k: nat)
    requires IsProduct(a, l, u, n) && r < n && k <= n
    ensures ApplyTo(a, v, r, k) == NestedTo(l, u, v, r, k, n)
  {
    if k == 0 {
      NestedZero(l, u, v, r, n);
    } else {
      ExchangeSums(a, l, u, v, n, r, k - 1);
      OneMoreColumn(l, u, v, r, k - 1, n);
      ProductColumn(a, l, u, v, n, r, k - 1);
    }
  }

  lemma SolvesRow(m: Matrix, v: Vector, w: Vector, n: nat, r: nat)
    requires Solves(m, v, w, n) && r < n
    ensures ApplyTo(m, v, r, n) == Get(w, r)
  {
  }

  lemma {:induction false} NestedIsApply(l: Matrix, u: Matrix, v: Vector, w: Vector, n: nat, r: nat, t: nat)
    requires Solves(u, v, w, n) && t <= n
    ensures NestedTo(l, u, v, r, n, t) == ApplyTo(l, w, r, t)
  {
    if t > 0 {
      NestedIsApply(l, u, v, w, n, r, t - 1);
      SolvesRow(u, v, w, n, t - 1);
    }
  }

  /** Solving one factor after the other solves the product. */
  lemma SolveByFactors(a: Matrix, l: Matrix, u: Matrix, x: Vector, y: Vector, b: Vector, n: nat)
    requires IsProduct(a, l, u, n) && Solves(u, x, y, n) && Solves(l, y, b, n)
    ensures Solves(a, x, b, n)
  {
    forall r | 0 <= r < n
      ensures ApplyTo(a, x, r, n) == Get(b, r)
    {
      ExchangeSums(a, l, u, x, n, r, n);
      NestedIsApply(l, u, x, y, n, r, n);
      SolvesRow(l, y, b, n, r);
    }
  }
}
