/** Polynomials in one variable with integer coefficients, and a test that one is not negative on an interval. */
module Polynomials {
  import opened Limbs

  /** Zero, or c plus the variable times the rest. */
  datatype Poly = Zero | Term(c: int, rest: Poly)

  /** The product, by a name of its own so that proofs can do without its arithmetic. */
  ghost function Mul(a: real, b: real): real { a * b }

  ghost function Eval(p: Poly, x: real): real
  {
    match p case Zero => 0.0 case Term(c, rest) => c as real + Mul(x, Eval(rest, x))
  }

  function Sum(p: Poly, q: Poly): Poly
  {
    match (p, q)
    case (Zero, _) => q
    case (_, Zero) => p
    case (Term(c, p'), Term(d, q')) => Term(c + d, Sum(p', q'))
  }

  function Scaled(k: int, p: Poly): Poly
  {
    match p case Zero => Zero case Term(c, rest) => Term(k * c, Scaled(k, rest))
  }

  function Product(p: Poly, q: Poly): Poly
  {
    match p case Zero => Zero case Term(c, rest) => Sum(Scaled(c, q), Term(0, Product(rest, q)))
  }

  /** p at twice the variable. */
  function AtDouble(p: Poly): Poly
  {
    match p case Zero => Zero case Term(c, rest) => Term(c, Scaled(2, AtDouble(rest)))
  }

  /** p at the variable plus h. */
  function Moved(p: Poly, h: int): Poly
  {
    match p
    case Zero => Zero
    case Term(c, rest) => var q := Moved(rest, h); Sum(Term(c, q), Scaled(h, q))
  }

  lemma MulAdds(a: real, b: real, c: real)
    ensures Mul(a, b + c) == Mul(a, b) + Mul(a, c) && Mul(a + b, c) == Mul(a, c) + Mul(b, c)
  {}

  lemma MulTurns(a: real, b: real, c: real)
    ensures Mul(a, Mul(b, c)) == Mul(b, Mul(a, c)) == Mul(Mul(a, b), c)
  {}

  lemma AsReal(a: int, b: int)
    ensures (a * b) as real == Mul(a as real, b as real)
  {}

  lemma {:induction false} EvalSum(p: Poly, q: Poly, x: real)
    ensures Eval(Sum(p, q), x) == Eval(p, x) + Eval(q, x)
  {
    hide Mul;
    if p.Term? && q.Term? {
      EvalSum(p.rest, q.rest, x);
      MulAdds(x, Eval(p.rest, x), Eval(q.rest, x));
    }
  }

  lemma {:induction false} EvalScaled(k: int, p: Poly, x: real)
    ensures Eval(Scaled(k, p), x) == Mul(k as real, Eval(p, x))
  {
    if p.Term? {
      hide Mul;
      EvalScaled(k, p.rest, x);
      AsReal(k, p.c);
      MulAdds(k as real, p.c as real, Mul(x, Eval(p.rest, x)));
      MulTurns(k as real, x, Eval(p.rest, x));
    }
  }

  lemma {:induction false} EvalProduct(p: Poly, q: Poly, x: real)
    ensures Eval(Product(p, q), x) == Mul(Eval(p, x), Eval(q, x))
  {
    if p.Term? {
      hide Mul;
      EvalProduct(p.rest, q, x);
      EvalSum(Scaled(p.c, q), Term(0, Product(p.rest, q)), x);
      EvalScaled(p.c, q, x);
      MulTurns(x, Eval(p.rest, x), Eval(q, x));
      MulAdds(p.c as real, Mul(x, Eval(p.rest, x)), Eval(q, x));
    }
  }

  lemma {:induction false} EvalAtDouble(p: Poly, x: real)
    ensures Eval(AtDouble(p), x) == Eval(p, Mul(2.0, x))
  {
    hide Mul;
    if p.Term? {
      EvalAtDouble(p.rest, x);
      EvalScaled(2, AtDouble(p.rest), x);
      MulTurns(2.0, x, Eval(p.rest, Mul(2.0, x)));
    }
  }

  lemma {:induction false} EvalMoved(p: Poly, h: int, x: real)
    ensures Eval(Moved(p, h), x) == Eval(p, x + h as real)
  {
    hide Mul;
    if p.Term? {
      var q := Moved(p.rest, h);
      EvalMoved(p.rest, h, x);
      EvalSum(Term(p.c, q), Scaled(h, q), x);
      EvalScaled(h, q, x);
      MulAdds(x, h as real, Eval(q, x));
    }
  }

  // ---------- Bounds on an interval ----------

  function Abs(x: int): nat { if x < 0 then -x else x }

  /** How far p can be from zero at most r away from it. */
  function Reach(p: Poly, r: nat): nat
  {
    match p case Zero => 0 case Term(c, rest) => Abs(c) + r * Reach(rest, r)
  }

  ghost predicate Within(x: real, r: real) { -r <= x <= r }

  lemma {:induction false} WithinReach(p: Poly, r: nat, x: real)
    requires Within(x, r as real)
    ensures Within(Eval(p, x), Reach(p, r) as real)
  {
    if p.Term? {
      hide Mul;
      WithinReach(p.rest, r, x);
      ProductWithin(x, r as real, Eval(p.rest, x), Reach(p.rest, r) as real);
      AsReal(r, Reach(p.rest, r));
    }
  }

  lemma ProductWithin(x: real, r: real, y: real, s: real)
    requires r >= 0.0 && s >= 0.0 && Within(x, r) && Within(y, s)
    ensures Within(Mul(x, y), Mul(r, s))
  {
    NonNegative(r - x, s + y);
    NonNegative(r + x, s - y);
    NonNegative(r - x, s - y);
    NonNegative(r + x, s + y);
    assert Mul(r - x, s + y) + Mul(r + x, s - y) == 2.0 * Mul(r, s) - 2.0 * Mul(x, y);
    assert Mul(r - x, s - y) + Mul(r + x, s + y) == 2.0 * Mul(r, s) + 2.0 * Mul(x, y);
  }

  lemma NonNegative(a: real, b: real)
    requires a >= 0.0 && b >= 0.0
    ensures Mul(a, b) >= 0.0
  {}

  /** At most r away from zero the constant term outweighs all the others. */
  predicate Settled(p: Poly, r: nat)
  {
    p.Term? && p.c >= r * Reach(p.rest, r)
  }

  lemma NotNegative(p: Poly, r: nat, x: real)
    requires Settled(p, r) && Within(x, r as real)
    ensures Eval(p, x) >= 0.0
  {
    hide Mul, Reach;
    WithinReach(p.rest, r, x);
    ProductWithin(x, r as real, Eval(p.rest, x), Reach(p.rest, r) as real);
    AsReal(r, Reach(p.rest, r));
  }
}
