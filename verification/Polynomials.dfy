/** Polynomials over GF(2): the set of exponents with coefficient one. */
module Polynomials {
  type Poly = set<nat>

  /** Sum and difference: coefficients add modulo two. */
  function Add(p: Poly, q: Poly): (r: Poly)
    ensures forall e :: e in r <==> (e in p) != (e in q)
  {
    (p - q) + (q - p)
  }

  /** The product with `x^n`. */
  function Shift(p: Poly, n: nat): (r: Poly)
    ensures forall e :: e in r <==> e >= n && e - n in p
  {
    set e | e in p :: e + n
  }

  /** The product with `x^16 + x^12 + x^5 + 1`. */
  function TimesG(p: Poly): Poly {
    Add(Add(Shift(p, 16), Shift(p, 12)), Add(Shift(p, 5), p))
  }

  /** The difference is a multiple of the generator. */
  ghost predicate Congruent(p: Poly, q: Poly) {
    exists k :: Add(p, q) == TimesG(k)
  }

  predicate Below(p: Poly, n: nat) {
    forall e | e in p :: e < n
  }

  // ---- Arithmetic

  lemma TimesAdd(j: Poly, k: Poly)
    ensures TimesG(Add(j, k)) == Add(TimesG(j), TimesG(k))
  {
    hide Shift, Add;
    ShiftAdd(j, k, 16);
    ShiftAdd(j, k, 12);
    ShiftAdd(j, k, 5);
    Interchange(Shift(j, 16), Shift(k, 16), Shift(j, 12), Shift(k, 12));
    Interchange(Shift(j, 5), Shift(k, 5), j, k);
    Interchange(Add(Shift(j, 16), Shift(j, 12)), Add(Shift(k, 16), Shift(k, 12)),
                Add(Shift(j, 5), j), Add(Shift(k, 5), k));
  }

  lemma Interchange(p: Poly, q: Poly, r: Poly, s: Poly)
    ensures Add(Add(p, q), Add(r, s)) == Add(Add(p, r), Add(q, s))
  {
  }

  lemma ShiftAdd(p: Poly, q: Poly, n: nat)
    ensures Shift(Add(p, q), n) == Add(Shift(p, n), Shift(q, n))
  {
  }

  lemma ShiftShift(p: Poly, m: nat, n: nat)
    ensures Shift(Shift(p, m), n) == Shift(p, m + n)
  {
  }

  lemma TimesShift(k: Poly, n: nat)
    ensures TimesG(Shift(k, n)) == Shift(TimesG(k), n)
  {
    ShiftShift(k, n, 16);
    ShiftShift(k, n, 12);
    ShiftShift(k, n, 5);
    ShiftShift(k, 16, n);
    ShiftShift(k, 12, n);
    ShiftShift(k, 5, n);
    ShiftAdd(Shift(k, 16), Shift(k, 12), n);
    ShiftAdd(Shift(k, 5), k, n);
    ShiftAdd(Add(Shift(k, 16), Shift(k, 12)), Add(Shift(k, 5), k), n);
  }

  lemma AddAssociates(p: Poly, q: Poly, r: Poly)
    ensures Add(Add(p, q), Add(q, r)) == Add(p, r)
    ensures Add(Add(p, r), Add(q, r)) == Add(p, q)
  {
  }

  // ---- Congruence

  lemma CongruentSelf(p: Poly)
    ensures Congruent(p, p)
  {
    assert Add(p, p) == TimesG({});
  }

  lemma CongruentTransitive(p: Poly, q: Poly, r: Poly)
    requires Congruent(p, q) && Congruent(q, r)
    ensures Congruent(p, r)
  {
    var j :| Add(p, q) == TimesG(j);
    var k :| Add(q, r) == TimesG(k);
    TimesAdd(j, k);
    AddAssociates(p, q, r);
  }

  lemma CongruentShift(p: Poly, q: Poly, n: nat)
    requires Congruent(p, q)
    ensures Congruent(Shift(p, n), Shift(q, n))
  {
    var k :| Add(p, q) == TimesG(k);
    ShiftAdd(p, q, n);
    TimesShift(k, n);
  }

  lemma CongruentAdd(p: Poly, q: Poly, r: Poly)
    requires Congruent(p, q)
    ensures Congruent(Add(p, r), Add(q, r))
  {
    var k :| Add(p, q) == TimesG(k);
    AddAssociates(p, q, r);
  }

  /** A nonzero multiple of the generator has an exponent of at least 16. */
  lemma MultipleIsHigh(k: Poly)
    requires Below(TimesG(k), 16)
    ensures k == {}
  {
    if k != {} {
      var m := Largest(k);
      LeadingTerm(k, m);
    }
  }

  lemma LeadingTerm(k: Poly, m: nat)
    requires m in k && forall e | e in k :: e <= m
    ensures m + 16 in TimesG(k)
  {
    assert m + 16 in Shift(k, 16);
    assert m + 16 !in Shift(k, 12) && m + 16 !in Shift(k, 5) && m + 16 !in k;
  }

  lemma {:induction false} Largest(k: Poly) returns (m: nat)
    requires k != {}
    ensures m in k && forall e | e in k :: e <= m
    decreases k
  {
    m :| m in k;
    var rest := k - {m};
    assert forall e | e in k :: e == m || e in rest;
    if rest != {} {
      var n := Largest(rest);
      m := if n > m then n else m;
    }
  }

  /** Remainders are unique: congruent polynomials of degree below 16 are equal. */
  lemma RemainderUnique(p: Poly, q: Poly)
    requires Congruent(p, q) && Below(p, 16) && Below(q, 16)
    ensures p == q
  {
    var k :| Add(p, q) == TimesG(k);
    MultipleIsHigh(k);
    assert Add(p, q) == {};
    assert forall e :: e in p <==> e in q;
  }
}
