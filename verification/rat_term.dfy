/**
 * The coefficients and terms RatPoly is built from. RatNum and RatTerm are
 * not part of this model; they are given here the behaviour RatPoly relies
 * on: a coefficient is an exact rational or NaN, and NaN absorbs every
 * operation; a term is a coefficient times x to a non-negative exponent.
 */
module Terms {

  /** A RatNum: an exact rational, or not-a-number. */
  datatype Num = Rat(val: real) | NaN

  const Zero: Num := Rat(0.0)

  function Plus(a: Num, b: Num): (c: Num)
    ensures c.NaN? <==> a.NaN? || b.NaN?
    ensures c.Rat? ==> c.val == a.val + b.val
  {
    if a.NaN? || b.NaN? then NaN else Rat(a.val + b.val)
  }

  function Negated(a: Num): (c: Num)
    ensures c.NaN? <==> a.NaN?
    ensures c.Rat? ==> c.val == -a.val
  {
    if a.NaN? then NaN else Rat(-a.val)
  }

  function Times(a: Num, b: Num): (c: Num)
    ensures c.NaN? <==> a.NaN? || b.NaN?
    ensures c.Rat? ==> c.val == a.val * b.val
  {
    if a.NaN? || b.NaN? then NaN else Rat(a.val * b.val)
  }

  /** Division by zero gives NaN. */
  function Over(a: Num, b: Num): (c: Num)
    ensures c.NaN? <==> a.NaN? || b.NaN? || b == Zero
    ensures c.Rat? ==> c.val * b.val == a.val
  {
    if a.NaN? || b.NaN? || b == Zero then NaN else Rat(a.val / b.val)
  }

  /** Zero times a rational is zero, on either side. */
  lemma TimesZero(a: Num)
    requires a.Rat?
    ensures Times(Zero, a) == Zero && Times(a, Zero) == Zero
  {
    assert 0.0 * a.val == 0.0 && a.val * 0.0 == 0.0;
  }

  /** Dividing by what was multiplied in gives back the rational. */
  lemma OverTimes(a: Num, b: Num)
    requires a.Rat? && b.Rat? && b != Zero
    ensures Over(Times(a, b), b) == a
  {
    assert b.val != 0.0;
    assert (a.val * b.val) / b.val == a.val;
  }

  /** Zero over anything non-zero is zero. */
  lemma ZeroOver(b: Num)
    requires b.Rat? && b != Zero
    ensures Over(Zero, b) == Zero
  {
    assert 0.0 / b.val == 0.0;
  }

  /** Multiplying by what was divided out gives back the rational. */
  lemma TimesOver(a: Num, b: Num)
    requires a.Rat? && b.Rat? && b != Zero
    ensures Times(Over(a, b), b) == a
  {
  }

  /** Multiplication distributes over addition, NaN included. */
  lemma TimesPlus(c: Num, x: Num, y: Num)
    ensures Times(c, Plus(x, y)) == Plus(Times(c, x), Times(c, y))
  {
    if c.Rat? && x.Rat? && y.Rat? {
      assert c.val * (x.val + y.val) == c.val * x.val + c.val * y.val;
    }
  }

  /**
   * The RatTerm invariant: a zero or NaN coefficient goes with exponent 0
   * (RatTerm.ZERO and RatTerm.NaN are the only such terms).
   */
  datatype Term = Term(coeff: Num, expt: nat)

  predicate TermOk(t: Term) {
    (t.coeff == Zero || t.coeff.NaN?) ==> t.expt == 0
  }

  type RatTerm = t: Term | TermOk(t) witness Term(Zero, 0)

  const ZeroTerm: RatTerm := Term(Zero, 0)
  const NaNTerm: RatTerm := Term(NaN, 0)

  /** new RatTerm(c, e): the exponent is dropped when the coefficient is zero or NaN. */
  function MakeTerm(c: Num, e: nat): (t: RatTerm)
    ensures t.coeff == c
    ensures c != Zero && c.Rat? ==> t.expt == e
  {
    if c == Zero || c.NaN? then Term(c, 0) else Term(c, e)
  }

  predicate IsZeroTerm(t: Term) {
    t.coeff == Zero
  }

  predicate IsNaNTerm(t: Term) {
    t.coeff.NaN?
  }

  /** RatTerm.add, on terms of the same exponent (the only way RatPoly uses it). */
  function AddTerm(t: RatTerm, u: RatTerm): (s: RatTerm)
    requires t.expt == u.expt
    ensures s.coeff == Plus(t.coeff, u.coeff)
    ensures !IsZeroTerm(s) && !IsNaNTerm(s) ==> s.expt == t.expt
  {
    MakeTerm(Plus(t.coeff, u.coeff), t.expt)
  }

  /** RatTerm.ZERO.sub(t): the coefficient negated, the exponent kept. */
  function NegTerm(t: RatTerm): (s: RatTerm)
    ensures s.coeff == Negated(t.coeff)
    ensures !IsNaNTerm(t) ==> s.expt == t.expt
  {
    MakeTerm(Negated(t.coeff), t.expt)
  }

  /** RatTerm.mul: coefficients multiplied, exponents added. */
  function MulTerm(t: RatTerm, u: RatTerm): (s: RatTerm)
    ensures s.coeff == Times(t.coeff, u.coeff)
    ensures !IsZeroTerm(s) && !IsNaNTerm(s) ==> s.expt == t.expt + u.expt
  {
    MakeTerm(Times(t.coeff, u.coeff), t.expt + u.expt)
  }

  /**
   * RatTerm.div: coefficients divided, exponents subtracted; RatPoly only
   * divides by a term of no greater exponent.
   */
  function DivTerm(t: RatTerm, u: RatTerm): (s: RatTerm)
    requires u.expt <= t.expt
    ensures s.coeff == Over(t.coeff, u.coeff)
    ensures !IsZeroTerm(s) && !IsNaNTerm(s) ==> s.expt == t.expt - u.expt
  {
    MakeTerm(Over(t.coeff, u.coeff), t.expt - u.expt)
  }

  /** RatTerm.differentiate: c*x^e becomes (c*e)*x^(e-1); a constant becomes zero. */
  function DiffTerm(t: RatTerm): (s: RatTerm)
    ensures s.coeff == Times(t.coeff, Rat(t.expt as real))
    ensures !IsZeroTerm(s) && !IsNaNTerm(s) ==> t.expt > 0 && s.expt == t.expt - 1
  {
    MakeTerm(Times(t.coeff, Rat(t.expt as real)), if t.expt == 0 then 0 else t.expt - 1)
  }

  /** RatTerm.antiDifferentiate: c*x^e becomes (c/(e+1))*x^(e+1). */
  function AntiTerm(t: RatTerm): (s: RatTerm)
    ensures s.coeff == Over(t.coeff, Rat((t.expt + 1) as real))
    ensures !IsZeroTerm(s) && !IsNaNTerm(s) ==> s.expt == t.expt + 1
  {
    MakeTerm(Over(t.coeff, Rat((t.expt + 1) as real)), t.expt + 1)
  }
}
