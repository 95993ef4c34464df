/**
 * poly/RatPoly.java: immutable polynomials in one variable with rational
 * coefficients, kept as a list of terms in canonical form. A polynomial is
 * NaN when one of its terms has a NaN coefficient.
 */
module Polys {
  import opened Terms

  datatype Poly = Poly(terms: seq<RatTerm>)

  /**
   * The "Sorted List<RatTerm>" of sortedInsert and the rep invariant
   * (RatPoly.java:39-48): exponents strictly descending (so no exponent
   * twice) and no zero coefficient. Exponents are non-negative by type.
   */
  predicate Sorted(ts: seq<RatTerm>) {
    && (forall i, j :: 0 <= i < j < |ts| ==> ts[i].expt > ts[j].expt)
    && (forall i :: 0 <= i < |ts| ==> ts[i].coeff != Zero)
  }

  /** checkRep's invariant. */
  predicate Valid(p: Poly) {
    Sorted(p.terms)
  }

  /** cofind(lst, e): the coefficient of the term of exponent e, or zero when there is none. */
  function Cofind(ts: seq<RatTerm>, e: nat): Num {
    if ts == [] then Zero else if ts[0].expt == e then ts[0].coeff else Cofind(ts[1..], e)
  }

  /** The coefficient of x^e in p. */
  function Coeff(p: Poly, e: nat): Num {
    Cofind(p.terms, e)
  }

  const ZeroPoly: Poly := Poly([])
  const NaNPoly: Poly := Poly([NaNTerm])

  // ---------------------------------------------------------------------
  // Coefficients of sorted term lists

  /** In a sorted list the coefficient at a term's exponent is that term's. */
  lemma {:induction false} CofindAt(ts: seq<RatTerm>, i: nat)
    requires Sorted(ts) && i < |ts|
    ensures Cofind(ts, ts[i].expt) == ts[i].coeff
  {
    if i > 0 {
      assert ts[0].expt > ts[i].expt;
      assert ts[1..][i - 1] == ts[i];
      CofindAt(ts[1..], i - 1);
    }
  }

  /** The coefficient at an exponent no term has is zero. */
  lemma {:induction false} CofindAbsent(ts: seq<RatTerm>, e: nat)
    requires forall i :: 0 <= i < |ts| ==> ts[i].expt != e
    ensures Cofind(ts, e) == Zero
  {
    if ts != [] {
      assert forall i :: 0 <= i < |ts| - 1 ==> ts[1..][i] == ts[i + 1];
      CofindAbsent(ts[1..], e);
    }
  }

  /** A non-zero coefficient belongs to a term. */
  lemma {:induction false} CofindPresent(ts: seq<RatTerm>, e: nat) returns (i: nat)
    requires Cofind(ts, e) != Zero
    ensures i < |ts| && ts[i].expt == e && ts[i].coeff == Cofind(ts, e)
  {
    if ts[0].expt == e {
      i := 0;
    } else {
      var k := CofindPresent(ts[1..], e);
      i := k + 1;
    }
  }

  /** The tail of a sorted list is sorted and has no term of the head's exponent. */
  lemma Tail(ts: seq<RatTerm>)
    requires Sorted(ts) && ts != []
    ensures Sorted(ts[1..]) && Cofind(ts[1..], ts[0].expt) == Zero
    ensures forall e: nat :: e != ts[0].expt ==> Cofind(ts, e) == Cofind(ts[1..], e)
  {
    assert forall i :: 0 <= i < |ts| - 1 ==> ts[1..][i] == ts[i + 1];
    CofindAbsent(ts[1..], ts[0].expt);
  }

  /** Every coefficient above a bound is zero exactly when no term's exponent reaches it. */
  lemma ZeroAbove(ts: seq<RatTerm>, d: nat)
    requires Sorted(ts)
    requires forall e: nat :: e >= d ==> Cofind(ts, e) == Zero
    ensures ts == [] || ts[0].expt < d
  {
    if ts != [] && ts[0].expt >= d {
      CofindAt(ts, 0);
    }
  }

  /**
   * A sorted list is determined by its coefficients: the canonical form is
   * unique.
   */
  lemma {:induction false} Canonical(a: seq<RatTerm>, b: seq<RatTerm>)
    requires Sorted(a) && Sorted(b)
    requires forall e: nat :: Cofind(a, e) == Cofind(b, e)
    ensures a == b
    decreases |a| + |b|
  {
    if a != [] {
      CofindAt(a, 0);
    }
    if b != [] {
      CofindAt(b, 0);
    }
    if a != [] && b != [] {
      if a[0].expt > b[0].expt {
        CofindAbsent(b, a[0].expt);
      } else if a[0].expt < b[0].expt {
        CofindAbsent(a, b[0].expt);
      }
      assert a[0] == b[0];
      Tail(a);
      Tail(b);
      Canonical(a[1..], b[1..]);
      assert a == [a[0]] + a[1..] && b == [b[0]] + b[1..];
    }
  }

  /** The first i + 1 terms have the coefficients of the first i, and that of term i. */
  lemma PrefixCofind(ts: seq<RatTerm>, i: nat)
    requires Sorted(ts) && i < |ts|
    ensures Sorted(ts[..i]) && Sorted(ts[..i + 1])
    ensures Cofind(ts[..i], ts[i].expt) == Zero
    ensures forall e: nat :: Cofind(ts[..i + 1], e) == if e == ts[i].expt then ts[i].coeff else Cofind(ts[..i], e)
  {
    var a, b := ts[..i], ts[..i + 1];
    assert forall k :: 0 <= k < i ==> a[k] == b[k] == ts[k];
    CofindAbsent(a, ts[i].expt);
    forall e: nat
      ensures Cofind(b, e) == if e == ts[i].expt then ts[i].coeff else Cofind(a, e)
    {
      if e == ts[i].expt {
        CofindAt(b, i);
      } else if Cofind(b, e) != Zero {
        var k := CofindPresent(b, e);
        CofindAt(a, k);
      } else if Cofind(a, e) != Zero {
        var k := CofindPresent(a, e);
        CofindAt(b, k);
      }
    }
  }

  // ---------------------------------------------------------------------
  // sortedInsert and the three edits it makes

  /** What sortedInsert promises: still sorted, and newTerm's coefficient added at its exponent. */
  ghost predicate Inserted(lst: seq<RatTerm>, t: RatTerm, r: seq<RatTerm>) {
    && Sorted(r)
    && (forall e: nat :: Cofind(r, e) == if e == t.expt then Plus(Cofind(lst, e), t.coeff) else Cofind(lst, e))
  }

  /** The list with t inserted at i lines up with lst on both sides of i. */
  lemma InsertedShape(lst: seq<RatTerm>, i: nat, t: RatTerm)
    requires Sorted(lst) && i <= |lst| && t.coeff != Zero
    requires forall k :: 0 <= k < i ==> lst[k].expt > t.expt
    requires i < |lst| ==> t.expt > lst[i].expt
    ensures var r := lst[..i] + [t] + lst[i..];
      && Sorted(r) && |r| == |lst| + 1 && r[i] == t
      && (forall k :: 0 <= k < i ==> r[k] == lst[k])
      && (forall k :: i < k < |r| ==> r[k] == lst[k - 1])
  {
    var r := lst[..i] + [t] + lst[i..];
    assert forall k :: 0 <= k < i ==> r[k] == lst[k];
    assert forall k :: i < k < |r| ==> r[k] == lst[k - 1];
    assert r[i] == t;
  }

  /** Inserting at i leaves the coefficient of every other exponent alone. */
  lemma InsertedCofind(lst: seq<RatTerm>, i: nat, t: RatTerm, e: nat)
    requires Sorted(lst) && i <= |lst| && t.coeff != Zero
    requires forall k :: 0 <= k < i ==> lst[k].expt > t.expt
    requires i < |lst| ==> t.expt > lst[i].expt
    requires e != t.expt
    ensures Cofind(lst[..i] + [t] + lst[i..], e) == Cofind(lst, e)
  {
    var r := lst[..i] + [t] + lst[i..];
    InsertedShape(lst, i, t);
    if Cofind(r, e) != Zero {
      var k := CofindPresent(r, e);
      CofindAt(lst, if k < i then k else k - 1);
    } else if Cofind(lst, e) != Zero {
      var k := CofindPresent(lst, e);
      CofindAt(r, if k < i then k else k + 1);
    }
  }

  /** Inserting a term before the first of lower exponent. */
  lemma InsertAt(lst: seq<RatTerm>, i: nat, t: RatTerm)
    requires Sorted(lst) && i <= |lst| && t.coeff != Zero
    requires forall k :: 0 <= k < i ==> lst[k].expt > t.expt
    requires i < |lst| ==> t.expt > lst[i].expt
    ensures Inserted(lst, t, lst[..i] + [t] + lst[i..])
  {
    var r := lst[..i] + [t] + lst[i..];
    InsertedShape(lst, i, t);
    CofindAbsent(lst, t.expt);
    CofindAt(r, i);
    forall e: nat
      ensures Cofind(r, e) == if e == t.expt then Plus(Cofind(lst, e), t.coeff) else Cofind(lst, e)
    {
      if e != t.expt {
        InsertedCofind(lst, i, t, e);
      }
    }
  }

  /** Replacing a term by one of the same exponent and another non-zero coefficient. */
  lemma ReplaceAt(lst: seq<RatTerm>, i: nat, n: RatTerm)
    requires Sorted(lst) && i < |lst| && n.expt == lst[i].expt && n.coeff != Zero
    ensures Sorted(lst[i := n])
    ensures forall e: nat :: Cofind(lst[i := n], e) == if e == n.expt then n.coeff else Cofind(lst, e)
  {
    var r := lst[i := n];
    forall e: nat
      ensures Cofind(r, e) == if e == n.expt then n.coeff else Cofind(lst, e)
    {
      if e == n.expt {
        CofindAt(r, i);
      } else if Cofind(r, e) != Zero {
        var k := CofindPresent(r, e);
        CofindAt(lst, k);
      } else if Cofind(lst, e) != Zero {
        var k := CofindPresent(lst, e);
        CofindAt(r, k);
      }
    }
  }

  /** The list without term i lines up with lst on both sides of i. */
  lemma RemovedShape(lst: seq<RatTerm>, i: nat)
    requires Sorted(lst) && i < |lst|
    ensures var r := lst[..i] + lst[i + 1..];
      && Sorted(r) && |r| == |lst| - 1
      && (forall k :: 0 <= k < i ==> r[k] == lst[k])
      && (forall k :: i <= k < |r| ==> r[k] == lst[k + 1])
  {
    var r := lst[..i] + lst[i + 1..];
    assert forall k :: 0 <= k < i ==> r[k] == lst[k];
    assert forall k :: i <= k < |r| ==> r[k] == lst[k + 1];
  }

  /** Removing term i leaves the coefficient of every other exponent alone. */
  lemma RemovedCofind(lst: seq<RatTerm>, i: nat, e: nat)
    requires Sorted(lst) && i < |lst| && e != lst[i].expt
    ensures Cofind(lst[..i] + lst[i + 1..], e) == Cofind(lst, e)
  {
    var r := lst[..i] + lst[i + 1..];
    RemovedShape(lst, i);
    if Cofind(r, e) != Zero {
      var k := CofindPresent(r, e);
      CofindAt(lst, if k < i then k else k + 1);
    } else if Cofind(lst, e) != Zero {
      var k := CofindPresent(lst, e);
      CofindAt(r, if k < i then k else k - 1);
    }
  }

  /** Removing a term leaves a zero coefficient at its exponent. */
  lemma RemoveAt(lst: seq<RatTerm>, i: nat)
    requires Sorted(lst) && i < |lst|
    ensures Sorted(lst[..i] + lst[i + 1..])
    ensures forall e: nat :: Cofind(lst[..i] + lst[i + 1..], e) == if e == lst[i].expt then Zero else Cofind(lst, e)
  {
    var r := lst[..i] + lst[i + 1..];
    RemovedShape(lst, i);
    CofindAbsent(r, lst[i].expt);
    forall e: nat
      ensures Cofind(r, e) == if e == lst[i].expt then Zero else Cofind(lst, e)
    {
      if e != lst[i].expt {
        RemovedCofind(lst, i, e);
      }
    }
  }

  /**
   * sortedInsert: a zero term changes nothing; otherwise the term goes in
   * before the first term of lower exponent, or is added to the term of
   * its exponent, which disappears when the sum is zero.
   */
  method SortedInsert(lst: seq<RatTerm>, t: RatTerm) returns (r: seq<RatTerm>)
    requires Sorted(lst)
    ensures Sorted(r)
    ensures Cofind(r, t.expt) == Plus(Cofind(lst, t.expt), t.coeff)
    ensures forall e: nat :: e != t.expt ==> Cofind(r, e) == Cofind(lst, e)
    ensures IsZeroTerm(t) ==> r == lst
  {
    r := lst;
    if !IsZeroTerm(t) {
      var found := false;
      var i := 0;
      while i < |r| && !found
        invariant !found ==> r == lst && i <= |lst|
        invariant !found ==> forall k :: 0 <= k < i ==> lst[k].expt > t.expt
        invariant found ==> Inserted(lst, t, r)
        decreases !found, |r| - i
      {
        var rt := r[i];
        if t.expt > rt.expt {
          InsertAt(lst, i, t);
          r := r[..i] + [t] + r[i..];
          found := true;
        } else if t.expt == rt.expt {
          CofindAt(lst, i);
          var n := AddTerm(t, rt);
          if IsZeroTerm(n) {
            RemoveAt(lst, i);
            r := r[..i] + r[i + 1..];
          } else {
            assert n.expt == rt.expt;
            ReplaceAt(lst, i, n);
            r := r[i := n];
          }
          found := true;
        }
        i := i + 1;
      }
      if !found {
        InsertAt(lst, |lst|, t);
        assert r + [t] == lst[..|lst|] + [t] + lst[|lst|..];
        r := r + [t];
      }
    }
  }

  /** duplicate: a copy of the list, term by term. */
  method Duplicate(lst: seq<RatTerm>) returns (r: seq<RatTerm>)
    ensures r == lst
  {
    r := [];
    for i := 0 to |lst|
      invariant r == lst[..i]
    {
      var p := lst[i];
      r := r + [MakeTerm(p.coeff, p.expt)];
    }
  }

  // ---------------------------------------------------------------------
  // Read-only scans

  /** Some term of the list has a NaN coefficient. */
  function HasNaN(ts: seq<RatTerm>): (b: bool)
    ensures b <==> exists i :: 0 <= i < |ts| && IsNaNTerm(ts[i])
  {
    if ts == [] then false
    else if IsNaNTerm(ts[0]) then true
    else
      assert forall i :: 0 < i < |ts| ==> ts[i] == ts[1..][i - 1];
      HasNaN(ts[1..])
  }

  /** isNaN: true iff some coefficient is NaN. */
  function IsNaN(p: Poly): (b: bool)
    ensures b <==> exists i :: 0 <= i < |p.terms| && IsNaNTerm(p.terms[i])
  {
    HasNaN(p.terms)
  }

  /** A NaN term has exponent 0, so a sorted list is NaN exactly when its constant coefficient is. */
  lemma NaNAtZero(ts: seq<RatTerm>)
    requires Sorted(ts)
    ensures HasNaN(ts) <==> Cofind(ts, 0).NaN?
    ensures !HasNaN(ts) ==> forall e: nat :: Cofind(ts, e).Rat?
  {
    if HasNaN(ts) {
      var i :| 0 <= i < |ts| && IsNaNTerm(ts[i]);
      CofindAt(ts, i);
    }
    forall e: nat | Cofind(ts, e).NaN?
      ensures HasNaN(ts)
    {
      var i := CofindPresent(ts, e);
    }
  }

  /** The largest exponent among the terms, or 0 when there are none (the loop of degree). */
  function MaxExpt(ts: seq<RatTerm>): (d: nat)
    ensures forall i :: 0 <= i < |ts| ==> ts[i].expt <= d
    ensures d == 0 || exists i :: 0 <= i < |ts| && ts[i].expt == d
    decreases |ts|
  {
    if ts == [] then 0
    else
      var init := ts[..|ts| - 1];
      var d := MaxExpt(init);
      assert forall i :: 0 <= i < |init| ==> init[i] == ts[i];
      if d < ts[|ts| - 1].expt then ts[|ts| - 1].expt else d
  }

  /** degree: the largest exponent with a non-zero coefficient, or 0 for the zero polynomial. */
  function Degree(p: Poly): (d: nat)
    ensures Valid(p) ==> forall e: nat :: e > d ==> Coeff(p, e) == Zero
    ensures Valid(p) && p.terms != [] ==> d == p.terms[0].expt && Coeff(p, d) != Zero
  {
    var d := MaxExpt(p.terms);
    assert Valid(p) ==> forall e: nat :: e > d ==> Coeff(p, e) == Zero by {
      forall e: nat | e > d {
        CofindAbsent(p.terms, e);
      }
    }
    assert Valid(p) && p.terms != [] ==> d == p.terms[0].expt && Coeff(p, d) != Zero by {
      if Valid(p) && p.terms != [] {
        assert forall i :: 0 <= i < |p.terms| ==> p.terms[i].expt <= p.terms[0].expt;
        CofindAt(p.terms, 0);
      }
    }
    d
  }

  /** The first term of exponent deg, or the zero term (the loop of getTerm). */
  function FindTerm(ts: seq<RatTerm>, deg: nat): (t: RatTerm)
    ensures t.coeff == Cofind(ts, deg)
    ensures t == ZeroTerm || (t in ts && t.expt == deg)
    ensures t == ZeroTerm ==> Cofind(ts, deg) == Zero
  {
    if ts == [] then ZeroTerm
    else if ts[0].expt == deg then ts[0]
    else FindTerm(ts[1..], deg)
  }

  /** getTerm: the term of exponent deg, or the zero term when there is none. */
  function GetTerm(p: Poly, deg: nat): (t: RatTerm)
    ensures t.coeff == Coeff(p, deg)
    ensures t == ZeroTerm || (t in p.terms && t.expt == deg)
    ensures (forall i :: 0 <= i < |p.terms| ==> p.terms[i].expt != deg) ==> t == ZeroTerm
  {
    if forall i :: 0 <= i < |p.terms| ==> p.terms[i].expt != deg then
      CofindAbsent(p.terms, deg);
      FindTerm(p.terms, deg)
    else
      FindTerm(p.terms, deg)
  }

  /** isNaN: the loop over the terms, stopping at the first NaN coefficient. */
  method ScanNaN(p: Poly) returns (b: bool)
    ensures b == IsNaN(p)
  {
    for i := 0 to |p.terms|
      invariant forall k :: 0 <= k < i ==> !IsNaNTerm(p.terms[k])
    {
      if IsNaNTerm(p.terms[i]) {
        return true;
      }
    }
    return false;
  }

  /** degree: the loop keeping the largest exponent seen so far, from 0. */
  method ScanDegree(p: Poly) returns (n: nat)
    ensures n == Degree(p)
  {
    n := 0;
    for i := 0 to |p.terms|
      invariant n == MaxExpt(p.terms[..i])
    {
      assert p.terms[..i + 1][..i] == p.terms[..i];
      n := if n < p.terms[i].expt then p.terms[i].expt else n;
    }
    assert p.terms[..|p.terms|] == p.terms;
  }

  /** getTerm: the loop returning the first term of exponent deg, or the zero term. */
  method ScanTerm(p: Poly, deg: nat) returns (t: RatTerm)
    ensures t == GetTerm(p, deg)
  {
    for i := 0 to |p.terms|
      invariant FindTerm(p.terms[i..], deg) == FindTerm(p.terms, deg)
    {
      assert p.terms[i..][1..] == p.terms[i + 1..];
      if p.terms[i].expt == deg {
        return p.terms[i];
      }
    }
    return ZeroTerm;
  }

  // ---------------------------------------------------------------------
  // Constructors

  /** The coefficients of a one-term list. */
  lemma CofindSingle(t: RatTerm)
    ensures forall e: nat :: Cofind([t], e) == if e == t.expt then t.coeff else Zero
  {
    assert [t][1..] == [];
  }

  /** new RatPoly(rt): the polynomial rt, or 0 when rt is zero. */
  function FromTerm(rt: RatTerm): (p: Poly)
    ensures Valid(p)
    ensures forall e: nat :: Coeff(p, e) == if e == rt.expt then rt.coeff else Zero
  {
    if IsZeroTerm(rt) then ZeroPoly else CofindSingle(rt); Poly([rt])
  }

  /** new RatPoly(c, e): c*x^e, or 0 when c is zero. */
  function FromInt(c: int, e: nat): (p: Poly)
    ensures Valid(p)
    ensures forall d: nat :: Coeff(p, d) == if d == e then Rat(c as real) else Zero
  {
    if c == 0 then ZeroPoly
    else
      var t := Term(Rat(c as real), e);
      CofindSingle(t);
      Poly([t])
  }

  // ---------------------------------------------------------------------
  // What the operations promise

  /** What div keeps: u equals v times the quotient so far plus the remainder. */
  ghost predicate DivSoFar(u: Poly, v: Poly, q: seq<RatTerm>, rem: Poly) {
    forall e: nat :: Coeff(u, e) == Plus(PairSum(v.terms, q, e), Coeff(rem, e))
  }

  /**
   * The truncating division u / v = q: there is a remainder r, of degree
   * below v's (or zero), with u = v * q + r.
   */
  ghost predicate DividesWithRemainder(u: Poly, v: Poly, q: Poly, r: Poly) {
    && Valid(r) && !IsNaN(r)
    && (r.terms == [] || Degree(r) < Degree(v))
    && DivSoFar(u, v, q.terms, r)
  }

  /** r = p + q: NaN when either is, otherwise the coefficients added. */
  ghost predicate IsSum(r: Poly, p: Poly, q: Poly) {
    && (IsNaN(p) || IsNaN(q) ==> r == NaNPoly)
    && (!IsNaN(p) && !IsNaN(q) ==> !IsNaN(r) && forall e: nat :: Coeff(r, e) == Plus(Coeff(p, e), Coeff(q, e)))
  }

  /** r = p - q: NaN when either is, otherwise the coefficients subtracted. */
  ghost predicate IsDifference(r: Poly, p: Poly, q: Poly) {
    && (IsNaN(p) || IsNaN(q) ==> r == NaNPoly)
    && (!IsNaN(p) && !IsNaN(q) ==> !IsNaN(r) && forall e: nat :: Coeff(r, e) == Plus(Coeff(p, e), Negated(Coeff(q, e))))
  }

  /**
   * r = p * q: NaN when either is, otherwise the coefficient at e is the
   * sum of the products of the coefficients whose exponents add up to e.
   */
  ghost predicate IsProduct(r: Poly, p: Poly, q: Poly) {
    && (IsNaN(p) || IsNaN(q) ==> r == NaNPoly)
    && (!IsNaN(p) && !IsNaN(q) ==> !IsNaN(r) && forall e: nat :: Coeff(r, e) == PairSum(p.terms, q.terms, e))
  }

  /**
   * q = u / v, truncating: NaN when either is NaN or v is zero; otherwise
   * u = v * q + rem for a remainder of lower degree than v, and q's degree
   * is at most u's.
   */
  ghost predicate IsQuotient(q: Poly, u: Poly, v: Poly) {
    && (IsNaN(u) || IsNaN(v) || v.terms == [] ==> q == NaNPoly)
    && (!IsNaN(u) && !IsNaN(v) && v.terms != [] ==>
          && !IsNaN(q) && (q.terms == [] || Degree(q) <= Degree(u))
          && exists rem :: DividesWithRemainder(u, v, q, rem))
  }

  /** r = dp/dx: NaN for NaN, otherwise the coefficient at e is (e + 1) times p's at e + 1. */
  ghost predicate IsDerivative(r: Poly, p: Poly) {
    && (IsNaN(p) ==> r == NaNPoly)
    && (!IsNaN(p) ==> !IsNaN(r) && forall e: nat :: Coeff(r, e) == Times(Coeff(p, e + 1), Rat((e + 1) as real)))
  }

  /**
   * r is the antiderivative of p with constant c: NaN when c or p is,
   * otherwise c at exponent 0 and p's coefficient at e over e + 1 at e + 1.
   */
  ghost predicate IsAntiderivative(r: Poly, p: Poly, c: Num) {
    && (c.NaN? ==> r == NaNPoly)
    && (c.Rat? && IsNaN(p) ==> IsNaN(r))
    && (c.Rat? && !IsNaN(p) ==> !IsNaN(r) && Coeff(r, 0) == c)
    && (c.Rat? && !IsNaN(p) ==> forall e: nat :: Coeff(r, e + 1) == Over(Coeff(p, e), Rat((e + 1) as real)))
  }

  // ---------------------------------------------------------------------
  // Arithmetic

  /** Negating every term of a sorted list keeps it sorted and negates every coefficient. */
  lemma {:induction false} NegatedTerms(ts: seq<RatTerm>, ns: seq<RatTerm>)
    requires Sorted(ts) && !HasNaN(ts)
    requires |ns| == |ts| && forall k :: 0 <= k < |ts| ==> ns[k] == NegTerm(ts[k])
    ensures Sorted(ns) && !HasNaN(ns)
    ensures forall e: nat :: Cofind(ns, e) == Negated(Cofind(ts, e))
  {
    if ts != [] {
      NegatedTerms(ts[1..], ns[1..]);
    }
  }

  /** negate: NaN for NaN, otherwise every coefficient negated. */
  method Negate(p: Poly) returns (r: Poly)
    requires Valid(p)
    ensures Valid(r)
    ensures IsNaN(p) ==> r == NaNPoly
    ensures !IsNaN(p) ==> !IsNaN(r) && forall e: nat :: Coeff(r, e) == Negated(Coeff(p, e))
  {
    var nan := ScanNaN(p);
    if nan {
      return NaNPoly;
    }
    var lst := Duplicate(p.terms);
    for i := 0 to |lst|
      invariant |lst| == |p.terms|
      invariant forall k :: 0 <= k < i ==> lst[k] == NegTerm(p.terms[k])
      invariant forall k :: i <= k < |lst| ==> lst[k] == p.terms[k]
    {
      var rt := lst[i];
      lst := lst[i := NegTerm(rt)];
    }
    NegatedTerms(p.terms, lst);
    r := Poly(lst);
  }

  /**
   * add: NaN when either operand is; otherwise the terms of `p` inserted
   * one by one into a copy of those of `q`, so that each coefficient is
   * the sum of the operands'.
   */
  method Add(p: Poly, q: Poly) returns (r: Poly)
    requires Valid(p) && Valid(q)
    ensures Valid(r) && IsSum(r, p, q)
  {
    var pNaN := ScanNaN(p);
    var qNaN := ScanNaN(q);
    if pNaN || qNaN {
      return NaNPoly;
    }
    var result := Duplicate(q.terms);
    for i := 0 to |p.terms|
      invariant Sorted(result)
      invariant Sorted(p.terms[..i])
      invariant forall e: nat :: Cofind(result, e) == Plus(Cofind(p.terms[..i], e), Cofind(q.terms, e))
    {
      PrefixCofind(p.terms, i);
      ghost var before := result;
      result := SortedInsert(result, p.terms[i]);
      AddStep(p.terms[..i], p.terms[..i + 1], p.terms[i], q.terms, before, result);
    }
    assert p.terms[..|p.terms|] == p.terms;
    r := Poly(result);
    NaNAtZero(p.terms);
    NaNAtZero(q.terms);
    NaNAtZero(result);
  }

  /** The arithmetic of one coefficient in a step of add's loop. */
  lemma AddStepAt(old0: Num, new0: Num, a0: Num, a1: Num, q0: Num, c: Num, hit: bool)
    requires old0 == Plus(a0, q0)
    requires hit ==> a0 == Zero && a1 == c && new0 == Plus(old0, c)
    requires !hit ==> a1 == a0 && new0 == old0
    ensures new0 == Plus(a1, q0)
  {
  }

  /** One step of add's loop: inserting term t of p keeps result = (terms of p so far) + q. */
  lemma AddStep(a: seq<RatTerm>, a1: seq<RatTerm>, t: RatTerm, q: seq<RatTerm>, res: seq<RatTerm>, res1: seq<RatTerm>)
    requires forall e: nat :: Cofind(res, e) == Plus(Cofind(a, e), Cofind(q, e))
    requires Cofind(a, t.expt) == Zero
    requires forall e: nat :: Cofind(a1, e) == if e == t.expt then t.coeff else Cofind(a, e)
    requires Cofind(res1, t.expt) == Plus(Cofind(res, t.expt), t.coeff)
    requires forall e: nat :: e != t.expt ==> Cofind(res1, e) == Cofind(res, e)
    ensures forall e: nat :: Cofind(res1, e) == Plus(Cofind(a1, e), Cofind(q, e))
  {
    forall e: nat
      ensures Cofind(res1, e) == Plus(Cofind(a1, e), Cofind(q, e))
    {
      AddStepAt(Cofind(res, e), Cofind(res1, e), Cofind(a, e), Cofind(a1, e), Cofind(q, e), t.coeff, e == t.expt);
    }
  }

  /** sub: p + (-q). */
  method Sub(p: Poly, q: Poly) returns (r: Poly)
    requires Valid(p) && Valid(q)
    ensures Valid(r) && IsDifference(r, p, q)
  {
    var n := Negate(q);
    r := Add(p, n);
  }

  /** What t times one term contributes at exponent e. */
  function Contribution(t: RatTerm, e: nat): Num {
    if t.expt == e then t.coeff else Zero
  }

  /** The sum, over the terms u of qs, of what t * u contributes at exponent e. */
  function RowSum(t: RatTerm, qs: seq<RatTerm>, e: nat): Num
    decreases |qs|
  {
    if qs == [] then Zero else Plus(RowSum(t, qs[..|qs| - 1], e), Contribution(MulTerm(t, qs[|qs| - 1]), e))
  }

  /** The sum, over all pairs of a term of ps and a term of qs, of what their product contributes at e. */
  function PairSum(ps: seq<RatTerm>, qs: seq<RatTerm>, e: nat): Num
    decreases |ps|
  {
    if ps == [] then Zero else Plus(PairSum(ps[..|ps| - 1], qs, e), RowSum(ps[|ps| - 1], qs, e))
  }

  /**
   * The inner loop of mul: the products of rt with every term of qs
   * inserted one by one into res.
   */
  method InsertRow(res: seq<RatTerm>, rt: RatTerm, qs: seq<RatTerm>) returns (r: seq<RatTerm>)
    requires Sorted(res)
    ensures Sorted(r)
    ensures forall e: nat :: Cofind(r, e) == Plus(Cofind(res, e), RowSum(rt, qs, e))
  {
    r := res;
    var copy := Duplicate(qs);
    for j := 0 to |copy|
      invariant Sorted(r)
      invariant forall e: nat :: Cofind(r, e) == Plus(Cofind(res, e), RowSum(rt, copy[..j], e))
    {
      ghost var before := r;
      var m := MulTerm(rt, copy[j]);
      r := SortedInsert(r, m);
      MulStep(res, rt, copy[..j], copy[..j + 1], m, before, r);
    }
    assert copy[..|copy|] == copy;
  }

  /**
   * mul as written: every product of a term of p and a term of q inserted
   * into an initially empty list. There is no NaN check, so the result is
   * NaN only if some product is.
   */
  method MulAsWritten(p: Poly, q: Poly) returns (r: Poly)
    requires Valid(p) && Valid(q)
    ensures Valid(r)
    ensures forall e: nat :: Coeff(r, e) == PairSum(p.terms, q.terms, e)
  {
    var result: seq<RatTerm> := [];
    for i := 0 to |p.terms|
      invariant Sorted(result)
      invariant forall e: nat :: Cofind(result, e) == PairSum(p.terms[..i], q.terms, e)
    {
      ghost var before := result;
      result := InsertRow(result, p.terms[i], q.terms);
      RowDone(p.terms, q.terms, i, before, result);
    }
    assert p.terms[..|p.terms|] == p.terms;
    r := Poly(result);
  }

  /** After mul's inner loop the row of term i is complete. */
  lemma RowDone(ps: seq<RatTerm>, qs: seq<RatTerm>, i: nat, res: seq<RatTerm>, res1: seq<RatTerm>)
    requires i < |ps|
    requires forall e: nat :: Cofind(res, e) == PairSum(ps[..i], qs, e)
    requires forall e: nat :: Cofind(res1, e) == Plus(Cofind(res, e), RowSum(ps[i], qs, e))
    ensures forall e: nat :: Cofind(res1, e) == PairSum(ps[..i + 1], qs, e)
  {
    assert ps[..i + 1][..i] == ps[..i];
  }

  /** One step of mul's inner loop: inserting rt * (next term) adds that product's contribution. */
  lemma MulStep(res0: seq<RatTerm>, rt: RatTerm, c: seq<RatTerm>, c1: seq<RatTerm>,
                m: RatTerm, res: seq<RatTerm>, res1: seq<RatTerm>)
    requires |c1| == |c| + 1 && c1[..|c|] == c && m == MulTerm(rt, c1[|c|])
    requires forall e: nat :: Cofind(res, e) == Plus(Cofind(res0, e), RowSum(rt, c, e))
    requires Cofind(res1, m.expt) == Plus(Cofind(res, m.expt), m.coeff)
    requires forall e: nat :: e != m.expt ==> Cofind(res1, e) == Cofind(res, e)
    ensures forall e: nat :: Cofind(res1, e) == Plus(Cofind(res0, e), RowSum(rt, c1, e))
  {
    forall e: nat
      ensures Cofind(res1, e) == Plus(Cofind(res0, e), RowSum(rt, c1, e))
    {
      var x, y, z := Cofind(res0, e), RowSum(rt, c, e), Contribution(m, e);
      assert RowSum(rt, c1, e) == Plus(y, z);
      assert Plus(Plus(x, y), z) == Plus(x, Plus(y, z));
      if e != m.expt {
        assert z == Zero && Plus(y, z) == y;
      }
    }
  }

  /** As written, anything times the zero polynomial is the zero polynomial. */
  lemma {:induction false} MulByEmpty(ps: seq<RatTerm>, e: nat)
    ensures PairSum(ps, [], e) == Zero
    decreases |ps|
  {
    if ps != [] {
      MulByEmpty(ps[..|ps| - 1], e);
    }
  }

  /** Multiplying NaN by 0 as written: the result is 0, not NaN. */
  method MulNaNByZero() returns (r: Poly)
    ensures IsNaN(NaNPoly) && r == ZeroPoly
  {
    r := MulAsWritten(NaNPoly, ZeroPoly);
    forall e: nat
      ensures Coeff(r, e) == Cofind([], e)
    {
      MulByEmpty(NaNPoly.terms, e);
    }
    Canonical(r.terms, []);
  }

  /** Products of rationals are rational. */
  lemma {:induction false} PairSumRat(ps: seq<RatTerm>, qs: seq<RatTerm>, e: nat)
    requires !HasNaN(ps) && !HasNaN(qs)
    ensures PairSum(ps, qs, e).Rat?
    decreases |ps|
  {
    if ps != [] {
      var init := ps[..|ps| - 1];
      assert forall i :: 0 <= i < |init| ==> init[i] == ps[i];
      PairSumRat(init, qs, e);
      RowSumRat(ps[|ps| - 1], qs, e);
    }
  }

  lemma {:induction false} RowSumRat(t: RatTerm, qs: seq<RatTerm>, e: nat)
    requires !IsNaNTerm(t) && !HasNaN(qs)
    ensures RowSum(t, qs, e).Rat?
    decreases |qs|
  {
    if qs != [] {
      var init := qs[..|qs| - 1];
      assert forall i :: 0 <= i < |init| ==> init[i] == qs[i];
      RowSumRat(t, init, e);
      assert !IsNaNTerm(qs[|qs| - 1]);
    }
  }

  /**
   * mul, corrected: NaN when either operand is, as documented; otherwise
   * the product computed as written.
   */
  method Mul(p: Poly, q: Poly) returns (r: Poly)
    requires Valid(p) && Valid(q)
    ensures Valid(r) && IsProduct(r, p, q)
  {
    var pNaN := ScanNaN(p);
    var qNaN := ScanNaN(q);
    if pNaN || qNaN {
      return NaNPoly;
    }
    r := MulAsWritten(p, q);
    PairSumRat(p.terms, q.terms, 0);
    NaNAtZero(r.terms);
  }

  // ---------------------------------------------------------------------
  // Derivatives

  /** The derivative's terms: every term differentiated, the ones that become zero dropped. */
  function Derived(ts: seq<RatTerm>): seq<RatTerm> {
    if ts == [] then []
    else if IsZeroTerm(DiffTerm(ts[0])) then Derived(ts[1..])
    else [DiffTerm(ts[0])] + Derived(ts[1..])
  }

  /** Differentiating one more term extends the derivative by that term's derivative, if non-zero. */
  lemma {:induction false} DerivedSnoc(ts: seq<RatTerm>, t: RatTerm)
    ensures Derived(ts + [t]) == Derived(ts) + (if IsZeroTerm(DiffTerm(t)) then [] else [DiffTerm(t)])
    decreases |ts|
  {
    if ts == [] {
      assert [t][1..] == [];
    } else {
      assert (ts + [t])[1..] == ts[1..] + [t];
      DerivedSnoc(ts[1..], t);
    }
  }

  /** One more term of the derivative. */
  lemma DerivedStep(ts: seq<RatTerm>, j: nat)
    requires j < |ts|
    ensures Derived(ts[..j + 1]) == Derived(ts[..j]) + (if IsZeroTerm(DiffTerm(ts[j])) then [] else [DiffTerm(ts[j])])
  {
    assert ts[..j + 1] == ts[..j] + [ts[j]];
    DerivedSnoc(ts[..j], ts[j]);
  }

  /**
   * One step of differentiate's loop: the list is the derivative of the
   * first j terms followed by the rest, and term j is at index i; it is
   * removed or replaced by its derivative.
   */
  lemma DiffLoopStep(ts: seq<RatTerm>, j: nat, result: seq<RatTerm>, i: nat)
    requires j < |ts| && i == |Derived(ts[..j])| && result == Derived(ts[..j]) + ts[j..]
    ensures i < |result| && result[i] == ts[j]
    ensures IsZeroTerm(DiffTerm(ts[j])) ==>
      |Derived(ts[..j + 1])| == i && result[..i] + result[i + 1..] == Derived(ts[..j + 1]) + ts[j + 1..]
    ensures !IsZeroTerm(DiffTerm(ts[j])) ==>
      |Derived(ts[..j + 1])| == i + 1 && result[i := DiffTerm(ts[j])] == Derived(ts[..j + 1]) + ts[j + 1..]
  {
    var done := Derived(ts[..j]);
    assert result[..i] == done && result[i..] == ts[j..];
    assert result[i + 1..] == result[i..][1..] == ts[j + 1..];
    DerivedStep(ts, j);
    if !IsZeroTerm(DiffTerm(ts[j])) {
      assert result[i := DiffTerm(ts[j])] == done + [DiffTerm(ts[j])] + ts[j + 1..];
    }
  }

  /** When differentiate's loop stops, every term has been differentiated. */
  lemma DiffLoopDone(ts: seq<RatTerm>, j: nat, result: seq<RatTerm>, i: int)
    requires j <= |ts| && i == |Derived(ts[..j])| && result == Derived(ts[..j]) + ts[j..]
    requires i >= |result|
    ensures result == Derived(ts)
  {
    assert j == |ts|;
    assert ts[..j] == ts && ts[j..] == [];
  }

  /** The derivative of a sorted rational list is sorted and rational, and lies below the first exponent. */
  lemma {:induction false} DerivedShape(ts: seq<RatTerm>)
    requires Sorted(ts) && !HasNaN(ts)
    ensures Sorted(Derived(ts)) && !HasNaN(Derived(ts))
    ensures ts != [] ==> forall k :: 0 <= k < |Derived(ts)| ==> Derived(ts)[k].expt < ts[0].expt
  {
    if ts != [] {
      var t, rest := ts[0], ts[1..];
      assert forall i :: 0 <= i < |rest| ==> rest[i] == ts[i + 1];
      DerivedShape(rest);
      assert !IsNaNTerm(t);
      if t.expt == 0 {
        assert rest == [];
        TimesZero(t.coeff);
      } else {
        var d, dr := DiffTerm(t), Derived(rest);
        assert d.coeff != Zero;
        var r := [d] + dr;
        assert Derived(ts) == r;
        assert forall k :: 0 < k < |r| ==> r[k] == dr[k - 1];
        assert Sorted(r);
      }
    }
  }

  /** The derivative's coefficient at e is (e + 1) times the coefficient at e + 1. */
  lemma {:induction false} DerivedCoeff(ts: seq<RatTerm>)
    requires Sorted(ts) && !HasNaN(ts)
    ensures Sorted(Derived(ts)) && !HasNaN(Derived(ts))
    ensures ts != [] ==> forall k :: 0 <= k < |Derived(ts)| ==> Derived(ts)[k].expt < ts[0].expt
    ensures forall e: nat :: Cofind(Derived(ts), e) == Times(Cofind(ts, e + 1), Rat((e + 1) as real))
  {
    DerivedShape(ts);
    if ts != [] {
      var rest := ts[1..];
      assert Sorted(rest) && !HasNaN(rest) by {
        assert forall i :: 0 <= i < |rest| ==> rest[i] == ts[i + 1];
      }
      DerivedCoeff(rest);
      DerivedConsCoeff(ts);
    }
  }

  /** The coefficients of the derivative of a list, from those of the derivative of its tail. */
  lemma DerivedConsCoeff(ts: seq<RatTerm>)
    requires Sorted(ts) && ts != [] && !IsNaNTerm(ts[0])
    requires forall e: nat :: Cofind(Derived(ts[1..]), e) == Times(Cofind(ts[1..], e + 1), Rat((e + 1) as real))
    ensures forall e: nat :: Cofind(Derived(ts), e) == Times(Cofind(ts, e + 1), Rat((e + 1) as real))
  {
    var t, rest := ts[0], ts[1..];
    Tail(ts);
    if t.expt == 0 {
      assert rest == [];
      TimesZero(t.coeff);
      TimesZero(Rat(1.0));
      forall e: nat
        ensures Cofind(Derived(ts), e) == Times(Cofind(ts, e + 1), Rat((e + 1) as real))
      {
        TimesZero(Rat((e + 1) as real));
      }
    } else {
      var d, dr := DiffTerm(t), Derived(rest);
      assert d.coeff != Zero;
      assert Derived(ts) == [d] + dr;
      forall e: nat
        ensures Cofind([d] + dr, e) == Times(Cofind(ts, e + 1), Rat((e + 1) as real))
      {
        if e != d.expt {
          assert Cofind([d] + dr, e) == Cofind(dr, e);
        }
      }
    }
  }

  /**
   * differentiate: NaN for NaN; otherwise each term of a copy replaced by
   * its derivative, and the one that becomes zero (the constant) removed.
   */
  method Differentiate(p: Poly) returns (r: Poly)
    requires Valid(p)
    ensures Valid(r) && IsDerivative(r, p)
  {
    var nan := ScanNaN(p);
    if nan {
      return NaNPoly;
    }
    var result := DifferentiateTerms(p.terms);
    DerivedCoeff(p.terms);
    r := Poly(result);
  }

  /**
   * differentiate's loop over a copy of the terms: each replaced by its
   * derivative, or removed (the index stepping back) when that is zero.
   */
  method DifferentiateTerms(ts: seq<RatTerm>) returns (result: seq<RatTerm>)
    ensures result == Derived(ts)
  {
    result := Duplicate(ts);
    var i: int := 0;
    ghost var j := 0;
    while i < |result|
      invariant j <= |ts| && i == |Derived(ts[..j])|
      invariant result == Derived(ts[..j]) + ts[j..]
      decreases |ts| - j
    {
      DiffLoopStep(ts, j, result, i);
      var rt := result[i];
      var dydx := DiffTerm(rt);
      if IsZeroTerm(dydx) {
        result := result[..i] + result[i + 1..];
        i := i - 1;
      } else {
        result := result[i := dydx];
      }
      i := i + 1;
      j := j + 1;
    }
    DiffLoopDone(ts, j, result, i);
  }

  /** Anti-differentiating every term of a sorted list keeps it sorted. */
  lemma AntiSorted(ts: seq<RatTerm>, ns: seq<RatTerm>)
    requires Sorted(ts)
    requires |ns| == |ts| && forall k :: 0 <= k < |ts| ==> ns[k] == AntiTerm(ts[k])
    ensures Sorted(ns)
  {
    forall i, j | 0 <= i < j < |ns|
      ensures ns[i].expt > ns[j].expt
    {
      assert ts[i].expt > ts[j].expt;
      assert ts[i].expt > 0;
      assert !IsNaNTerm(ts[i]) && ts[i].coeff != Zero;
    }
  }

  /**
   * Anti-differentiating every term of a sorted list keeps its NaN terms;
   * the coefficient at e + 1 becomes the one at e over e + 1, and the
   * constant becomes zero.
   */
  lemma {:induction false} AntiTerms(ts: seq<RatTerm>, ns: seq<RatTerm>)
    requires Sorted(ts)
    requires |ns| == |ts| && forall k :: 0 <= k < |ts| ==> ns[k] == AntiTerm(ts[k])
    ensures HasNaN(ns) <==> HasNaN(ts)
    ensures !HasNaN(ts) ==> Cofind(ns, 0) == Zero
    ensures !HasNaN(ts) ==> forall e: nat :: Cofind(ns, e + 1) == Over(Cofind(ts, e), Rat((e + 1) as real))
  {
    if ts != [] {
      var rest, nrest := ts[1..], ns[1..];
      assert forall i :: 0 <= i < |rest| ==> rest[i] == ts[i + 1] && nrest[i] == ns[i + 1];
      assert Sorted(rest);
      AntiTerms(rest, nrest);
      assert IsNaNTerm(ns[0]) <==> IsNaNTerm(ts[0]);
      if !HasNaN(ts) {
        var t, n := ts[0], ns[0];
        assert !IsNaNTerm(t) && t.coeff != Zero && !HasNaN(rest);
        assert n.coeff == Over(t.coeff, Rat((t.expt + 1) as real)) != Zero;
        assert n.expt == t.expt + 1;
        forall e: nat
          ensures Cofind(ns, e + 1) == Over(Cofind(ts, e), Rat((e + 1) as real))
        {
          if e != t.expt {
            assert Cofind(ns, e + 1) == Cofind(nrest, e + 1);
            assert Cofind(ts, e) == Cofind(rest, e);
          }
        }
      }
    } else {
      forall e: nat
        ensures Cofind(ns, e + 1) == Over(Cofind(ts, e), Rat((e + 1) as real))
      {
        ZeroOver(Rat((e + 1) as real));
      }
    }
  }

  /**
   * antiDifferentiate: NaN when the constant of integration is; otherwise
   * each term of a copy anti-differentiated and the constant inserted. A
   * NaN polynomial needs no check of its own: its NaN term stays NaN.
   */
  method AntiDifferentiate(p: Poly, c: Num) returns (r: Poly)
    requires Valid(p)
    ensures Valid(r) && IsAntiderivative(r, p, c)
  {
    if c.NaN? {
      return NaNPoly;
    }
    var result := Duplicate(p.terms);
    for i := 0 to |result|
      invariant |result| == |p.terms|
      invariant forall k :: 0 <= k < i ==> result[k] == AntiTerm(p.terms[k])
      invariant forall k :: i <= k < |result| ==> result[k] == p.terms[k]
    {
      var rt := result[i];
      result := result[i := AntiTerm(rt)];
    }
    AntiSorted(p.terms, result);
    AntiTerms(p.terms, result);
    NaNAtZero(result);
    var last := SortedInsert(result, MakeTerm(c, 0));
    NaNAtZero(last);
    r := Poly(last);
  }

  /** Differentiating an antiderivative gives back the polynomial. */
  method DiffOfAntiDiff(p: Poly, c: Num) returns (r: Poly)
    requires Valid(p) && !IsNaN(p) && c.Rat?
    ensures r == p
  {
    var a := AntiDifferentiate(p, c);
    r := Differentiate(a);
    NaNAtZero(p.terms);
    forall e: nat
      ensures Cofind(r.terms, e) == Cofind(p.terms, e)
    {
      var b := Rat((e + 1) as real);
      assert Coeff(a, e + 1) == Over(Coeff(p, e), b);
      assert Coeff(r, e) == Times(Coeff(a, e + 1), b);
      TimesOver(Coeff(p, e), b);
    }
    Canonical(r.terms, p.terms);
  }

  /** Anti-differentiating a derivative with the original constant gives back the polynomial. */
  method AntiDiffOfDiff(p: Poly) returns (r: Poly)
    requires Valid(p) && !IsNaN(p)
    ensures r == p
  {
    var d := Differentiate(p);
    NaNAtZero(p.terms);
    r := AntiDifferentiate(d, Coeff(p, 0));
    forall e: nat
      ensures Cofind(r.terms, e) == Cofind(p.terms, e)
    {
      if e > 0 {
        var b := Rat(e as real);
        assert Coeff(r, (e - 1) + 1) == Over(Coeff(d, e - 1), b);
        assert Coeff(d, e - 1) == Times(Coeff(p, e), b);
        OverTimes(Coeff(p, e), b);
      }
    }
    Canonical(r.terms, p.terms);
  }

  // ---------------------------------------------------------------------
  // Truncating division

  /** The coefficient t contributes to a product with qs at e: t's times qs's at e - t.expt. */
  function Shift(t: RatTerm, qs: seq<RatTerm>, e: nat): Num {
    if t.expt <= e then Times(t.coeff, Cofind(qs, e - t.expt)) else Zero
  }

  /** What the product of two rational terms contributes at e. */
  lemma ContributionOf(t: RatTerm, u: RatTerm, e: nat)
    requires !IsNaNTerm(t) && !IsNaNTerm(u)
    ensures Contribution(MulTerm(t, u), e) == if t.expt + u.expt == e then Times(t.coeff, u.coeff) else Zero
  {
    var m := MulTerm(t, u);
    if IsZeroTerm(m) {
      assert Contribution(m, e) == Zero;
    } else {
      assert m.expt == t.expt + u.expt;
    }
  }

  /** What the last term of a sorted, NaN-free list adds to the coefficient at k. */
  lemma LastTerm(ts: seq<RatTerm>, k: nat)
    requires Sorted(ts) && !HasNaN(ts) && ts != []
    ensures var n := |ts| - 1;
      && Sorted(ts[..n]) && !HasNaN(ts[..n]) && !IsNaNTerm(ts[n])
      && Cofind(ts[..n], k).Rat?
      && (k == ts[n].expt ==> Cofind(ts[..n], k) == Zero && Cofind(ts, k) == ts[n].coeff)
      && (k != ts[n].expt ==> Cofind(ts, k) == Cofind(ts[..n], k))
  {
    var n := |ts| - 1;
    PrefixCofind(ts, n);
    assert ts[..n + 1] == ts;
    assert !HasNaN(ts[..n]) by {
      assert forall i :: 0 <= i < n ==> ts[..n][i] == ts[i];
    }
    NaNAtZero(ts[..n]);
  }

  /** Shift at e, for k the exponent of qs that t's exponent brings up to e. */
  lemma ShiftAt(t: RatTerm, qs: seq<RatTerm>, e: nat, k: nat)
    requires t.expt <= e ==> k == e - t.expt
    ensures Shift(t, qs, e) == if t.expt <= e then Times(t.coeff, Cofind(qs, k)) else Zero
  {
  }

  /** The arithmetic of one step of RowShift. */
  lemma RowShiftAt(s0: Num, con: Num, s1: Num, tc: Num, uc: Num, ci: Num, cq: Num, inRange: bool, hit: bool)
    requires tc.Rat? && uc.Rat? && ci.Rat?
    requires s0 == (if inRange then Times(tc, ci) else Zero)
    requires s1 == (if inRange then Times(tc, cq) else Zero)
    requires con == (if hit then Times(tc, uc) else Zero)
    requires hit ==> inRange && ci == Zero && cq == uc
    requires inRange && !hit ==> cq == ci
    ensures Plus(s0, con) == s1
  {
    TimesZero(tc);
  }

  /** A row of mul's products, summed, is the row's term times the shifted coefficients of qs. */
  lemma {:induction false} RowShift(t: RatTerm, qs: seq<RatTerm>, e: nat)
    requires Sorted(qs) && !HasNaN(qs) && !IsNaNTerm(t)
    ensures RowSum(t, qs, e) == Shift(t, qs, e)
    decreases |qs|
  {
    if qs != [] {
      var n := |qs| - 1;
      var init, u := qs[..n], qs[n];
      var k := if t.expt <= e then e - t.expt else 0;
      var inRange, hit := t.expt <= e, t.expt <= e && k == u.expt;
      var ci, cq := Cofind(init, k), Cofind(qs, k);
      assert Sorted(init) && !HasNaN(init) && !IsNaNTerm(u) && ci.Rat?
             && (hit ==> ci == Zero && cq == u.coeff) && (inRange && !hit ==> cq == ci) by {
        LastTerm(qs, k);
      }
      RowShift(t, init, e);
      var con := Contribution(MulTerm(t, u), e);
      assert con == (if hit then Times(t.coeff, u.coeff) else Zero) by {
        ContributionOf(t, u, e);
      }
      assert RowSum(t, qs, e) == Plus(RowSum(t, init, e), con);
      ShiftAt(t, init, e, k);
      ShiftAt(t, qs, e, k);
      RowShiftAt(Shift(t, init, e), con, Shift(t, qs, e), t.coeff, u.coeff, ci, cq, inRange, hit);
    }
  }

  /** A term's shifted contribution is additive in the other factor. */
  lemma ShiftSplit(t: RatTerm, q: seq<RatTerm>, s: seq<RatTerm>, q1: seq<RatTerm>, e: nat)
    requires forall k: nat :: Cofind(q1, k) == Plus(Cofind(q, k), Cofind(s, k))
    ensures Shift(t, q1, e) == Plus(Shift(t, q, e), Shift(t, s, e))
  {
    if t.expt <= e {
      var k := e - t.expt;
      TimesPlus(t.coeff, Cofind(q, k), Cofind(s, k));
    }
  }

  /** The arithmetic of PairSumSplit: regrouping a sum of four coefficients. */
  lemma Regroup(a: Num, b: Num, x: Num, y: Num, z: Num)
    requires z == Plus(x, y)
    ensures Plus(Plus(a, b), z) == Plus(Plus(a, x), Plus(b, y))
  {
  }

  /** Products are additive in the second factor. */
  lemma {:induction false} PairSumSplit(ps: seq<RatTerm>, q: seq<RatTerm>, s: seq<RatTerm>, q1: seq<RatTerm>, e: nat)
    requires !HasNaN(ps)
    requires Sorted(q) && !HasNaN(q) && Sorted(s) && !HasNaN(s) && Sorted(q1) && !HasNaN(q1)
    requires forall k: nat :: Cofind(q1, k) == Plus(Cofind(q, k), Cofind(s, k))
    ensures PairSum(ps, q1, e) == Plus(PairSum(ps, q, e), PairSum(ps, s, e))
    decreases |ps|
  {
    if ps != [] {
      var n := |ps| - 1;
      var init, t := ps[..n], ps[n];
      assert !HasNaN(init) by {
        assert forall i :: 0 <= i < n ==> init[i] == ps[i];
      }
      assert !IsNaNTerm(t);
      PairSumSplit(init, q, s, q1, e);
      RowShift(t, q, e);
      RowShift(t, s, e);
      RowShift(t, q1, e);
      ShiftSplit(t, q, s, q1, e);
      Regroup(PairSum(init, q, e), PairSum(init, s, e), Shift(t, q, e), Shift(t, s, e), Shift(t, q1, e));
    }
  }

  /** Multiplying by one rational term shifts every coefficient by its exponent and scales it. */
  lemma {:induction false} SingleProduct(ps: seq<RatTerm>, f: RatTerm, e: nat)
    requires Sorted(ps) && !HasNaN(ps) && !IsNaNTerm(f) && f.coeff != Zero
    ensures PairSum(ps, [f], e) == if f.expt <= e then Times(Cofind(ps, e - f.expt), f.coeff) else Zero
    decreases |ps|
  {
    TimesZero(f.coeff);
    if ps != [] {
      var n := |ps| - 1;
      var init, t := ps[..n], ps[n];
      var k := if f.expt <= e then e - f.expt else 0;
      LastTerm(ps, k);
      SingleProduct(init, f, e);
      RowSingle(t, f, e);
      SingleStepAt(PairSum(init, [f], e), RowSum(t, [f], e), if f.expt <= e then Times(Cofind(ps, k), f.coeff) else Zero,
                   Cofind(init, k), Cofind(ps, k), t.coeff, f.coeff, f.expt <= e && k == t.expt, f.expt <= e);
    }
  }

  /** What a rational term times the single term f contributes at e. */
  lemma RowSingle(t: RatTerm, f: RatTerm, e: nat)
    requires !IsNaNTerm(t) && !IsNaNTerm(f)
    ensures RowSum(t, [f], e) == if t.expt + f.expt == e then Times(t.coeff, f.coeff) else Zero
  {
    assert [f][..0] == [];
    ContributionOf(t, f, e);
  }

  /** The arithmetic of one step of SingleProduct. */
  lemma SingleStepAt(pi: Num, sh: Num, r: Num, ci: Num, cp: Num, tc: Num, fc: Num, hit: bool, inRange: bool)
    requires fc.Rat? && tc.Rat? && ci.Rat?
    requires pi == (if inRange then Times(ci, fc) else Zero)
    requires r == (if inRange then Times(cp, fc) else Zero)
    requires hit ==> inRange && ci == Zero && cp == tc && sh == Times(tc, fc)
    requires inRange && !hit ==> cp == ci
    requires !hit ==> sh == Zero
    ensures Plus(pi, sh) == r
  {
    TimesZero(fc);
  }

  /** The arithmetic of one step of div's loop: what goes to the quotient is taken off the remainder. */
  lemma DivStepAt(u: Num, a: Num, r: Num, p: Num, a1: Num, r1: Num)
    requires p.Rat? && u == Plus(a, r) && a1 == Plus(a, p) && r1 == Plus(r, Negated(p))
    ensures u == Plus(a1, r1)
  {
  }

  /** One step of div's loop keeps u = v * quotient + remainder. */
  lemma DivStep(u: Poly, v: Poly, q: seq<RatTerm>, rem: Poly, f: RatTerm, q1: seq<RatTerm>, prod: Poly, rem1: Poly)
    requires Valid(v) && !IsNaN(v) && Sorted(q) && !HasNaN(q) && Sorted(q1)
    requires !IsNaNTerm(f) && f.coeff != Zero
    requires Cofind(q1, f.expt) == Plus(Cofind(q, f.expt), f.coeff)
    requires forall e: nat :: e != f.expt ==> Cofind(q1, e) == Cofind(q, e)
    requires forall e: nat :: Coeff(prod, e) == PairSum(v.terms, [f], e)
    requires forall e: nat :: Coeff(rem1, e) == Plus(Coeff(rem, e), Negated(Coeff(prod, e)))
    requires DivSoFar(u, v, q, rem)
    ensures !HasNaN(q1) && DivSoFar(u, v, q1, rem1)
  {
    CofindSingle(f);
    NaNAtZero(q);
    forall k: nat
      ensures Cofind(q1, k) == Plus(Cofind(q, k), Cofind([f], k))
    {
      if k != f.expt {
        assert Cofind([f], k) == Zero;
      }
    }
    NaNAtZero(q1);
    assert !HasNaN([f]);
    forall e: nat
      ensures Coeff(u, e) == Plus(PairSum(v.terms, q1, e), Coeff(rem1, e))
    {
      PairSumSplit(v.terms, q, [f], q1, e);
      PairSumRat(v.terms, [f], e);
      DivStepAt(Coeff(u, e), PairSum(v.terms, q, e), Coeff(rem, e), PairSum(v.terms, [f], e), PairSum(v.terms, q1, e), Coeff(rem1, e));
    }
  }

  /** The arithmetic of cancelling a leading coefficient. */
  lemma CancelAt(lead: Num, vlead: Num)
    requires lead.Rat? && vlead.Rat? && vlead != Zero
    ensures Plus(lead, Negated(Times(vlead, Over(lead, vlead)))) == Zero
  {
    TimesOver(lead, vlead);
    assert Times(vlead, Over(lead, vlead)) == Times(Over(lead, vlead), vlead);
  }

  /** The factor div takes: a rational, non-zero term of exponent deg(rem) - deg(v). */
  lemma LeadFactor(v: Poly, rem: Poly, f: RatTerm)
    requires Valid(v) && !IsNaN(v) && v.terms != [] && Valid(rem) && !IsNaN(rem) && rem.terms != []
    requires Degree(rem) >= Degree(v)
    requires f == DivTerm(GetTerm(rem, Degree(rem)), GetTerm(v, Degree(v)))
    ensures !IsNaNTerm(f) && f.coeff != Zero && f.expt == Degree(rem) - Degree(v)
    ensures Coeff(rem, Degree(rem)).Rat? && Coeff(v, Degree(v)).Rat? && Coeff(v, Degree(v)) != Zero
    ensures f.coeff == Over(Coeff(rem, Degree(rem)), Coeff(v, Degree(v)))
    ensures FromTerm(f) == Poly([f]) && !IsNaN(FromTerm(f))
  {
    NaNAtZero(rem.terms);
    NaNAtZero(v.terms);
    var lead, vlead := Coeff(rem, Degree(rem)), Coeff(v, Degree(v));
    assert lead.Rat? && lead != Zero && vlead.Rat? && vlead != Zero;
    TimesOver(lead, vlead);
    assert f.coeff == Over(lead, vlead) != Zero;
    assert !HasNaN([f]);
  }

  /** One step of div's loop cancels the leading term of the remainder. */
  lemma DivDegree(v: Poly, rem: Poly, f: RatTerm, prod: Poly, rem1: Poly)
    requires Valid(v) && !IsNaN(v) && v.terms != [] && Valid(rem) && rem.terms != [] && Valid(rem1)
    requires Degree(rem) >= Degree(v)
    requires f == DivTerm(GetTerm(rem, Degree(rem)), GetTerm(v, Degree(v)))
    requires !IsNaN(rem)
    requires forall e: nat :: Coeff(prod, e) == PairSum(v.terms, [f], e)
    requires forall e: nat :: Coeff(rem1, e) == Plus(Coeff(rem, e), Negated(Coeff(prod, e)))
    ensures rem1.terms == [] || Degree(rem1) < Degree(rem)
  {
    var d, dv := Degree(rem), Degree(v);
    var lead, vlead := Coeff(rem, d), Coeff(v, dv);
    LeadFactor(v, rem, f);
    TimesZero(f.coeff);
    forall e: nat | e >= d
      ensures Cofind(rem1.terms, e) == Zero
    {
      SingleProduct(v.terms, f, e);
      assert Coeff(prod, e) == Times(Coeff(v, e - f.expt), f.coeff);
      if e > d {
        assert Coeff(v, e - f.expt) == Zero && Coeff(rem, e) == Zero;
        assert Coeff(prod, e) == Zero;
      } else {
        assert e - f.expt == dv;
        CancelAt(lead, vlead);
      }
    }
    ZeroAbove(rem1.terms, d);
  }

  /**
   * One pass of div's loop: the leading term of the remainder over the
   * divisor's goes into the quotient, and that multiple of the divisor is
   * taken off the remainder.
   */
  method DivideOnce(ghost u: Poly, v: Poly, pTerm: RatTerm, quotient: seq<RatTerm>, remainder: Poly, reDegree: nat)
    returns (q1: seq<RatTerm>, rem1: Poly)
    requires Valid(v) && !IsNaN(v) && v.terms != [] && pTerm == GetTerm(v, Degree(v))
    requires Valid(remainder) && !IsNaN(remainder) && remainder.terms != []
    requires reDegree == Degree(remainder) >= Degree(v)
    requires Sorted(quotient) && !HasNaN(quotient) && DivSoFar(u, v, quotient, remainder)
    ensures Valid(rem1) && !IsNaN(rem1) && (rem1.terms == [] || Degree(rem1) < reDegree)
    ensures Sorted(q1) && !HasNaN(q1) && DivSoFar(u, v, q1, rem1)
    ensures forall e: nat :: e > reDegree ==> Cofind(q1, e) == Cofind(quotient, e)
  {
    var lead := ScanTerm(remainder, reDegree);
    var factor := DivTerm(lead, pTerm);
    LeadFactor(v, remainder, factor);
    q1 := SortedInsert(quotient, factor);
    var prod := Mul(v, FromTerm(factor));
    rem1 := Sub(remainder, prod);
    DivDegree(v, remainder, factor, prod, rem1);
    DivStep(u, v, quotient, remainder, factor, q1, prod, rem1);
  }

  /**
   * div: NaN when either operand is NaN or the divisor is zero; otherwise
   * the leading term of the remainder divided by the divisor's goes to the
   * quotient and that multiple of the divisor is taken off the remainder,
   * until the remainder is zero or of lower degree than the divisor.
   */
  method Div(u: Poly, v: Poly) returns (r: Poly)
    requires Valid(u) && Valid(v)
    ensures Valid(r) && IsQuotient(r, u, v)
  {
    var uNaN := ScanNaN(u);
    var vNaN := ScanNaN(v);
    if uNaN || vNaN || |v.terms| == 0 {
      return NaNPoly;
    }
    var quotient: seq<RatTerm> := [];
    var dup := Duplicate(u.terms);
    var remainder := Poly(dup);
    var reDegree := ScanDegree(remainder);
    var pDegree := ScanDegree(v);
    var pTerm := ScanTerm(v, pDegree);
    forall e: nat
      ensures Coeff(u, e) == Plus(PairSum(v.terms, quotient, e), Coeff(remainder, e))
    {
      MulByEmpty(v.terms, e);
    }
    while |remainder.terms| > 0 && reDegree >= pDegree
      invariant Valid(remainder) && !IsNaN(remainder) && reDegree == Degree(remainder)
      invariant remainder.terms != [] ==> reDegree <= Degree(u)
      invariant Sorted(quotient) && !HasNaN(quotient)
      invariant forall e: nat :: e > Degree(u) ==> Cofind(quotient, e) == Zero
      invariant DivSoFar(u, v, quotient, remainder)
      decreases if remainder.terms == [] then 0 else reDegree + 1
    {
      quotient, remainder := DivideOnce(u, v, pTerm, quotient, remainder, reDegree);
      reDegree := ScanDegree(remainder);
    }
    r := Poly(quotient);
    ZeroAbove(quotient, Degree(u) + 1);
    assert DividesWithRemainder(u, v, r, remainder);
  }

  /**
   * equals on two RatPolys: every NaN polynomial equals every other NaN
   * polynomial; otherwise the term lists must be equal.
   */
  predicate Equals(p: Poly, q: Poly) {
    (IsNaN(p) && IsNaN(q)) || p.terms == q.terms
  }

  /**
   * hashCode: 0 for every NaN polynomial, otherwise the hash code of the
   * term list, which `hashTerms` stands for (List.hashCode over RatTerm's
   * hashCode, not part of this model).
   */
  function HashCode(p: Poly, hashTerms: seq<RatTerm> -> int): (h: int)
    ensures IsNaN(p) ==> h == 0
    ensures !IsNaN(p) ==> h == hashTerms(p.terms)
  {
    if IsNaN(p) then 0 else hashTerms(p.terms)
  }

  /** equals is an equivalence relation, though it identifies different NaN term lists. */
  lemma EqualsIsEquivalence(p: Poly, q: Poly, r: Poly)
    ensures Equals(p, p)
    ensures Equals(p, q) ==> Equals(q, p)
    ensures Equals(p, q) && Equals(q, r) ==> Equals(p, r)
    ensures IsNaN(p) && IsNaN(q) ==> Equals(p, q)
  {
  }

  /** Equal polynomials have equal hash codes, whatever the hash of term lists. */
  lemma EqualsImpliesSameHashCode(p: Poly, q: Poly, hashTerms: seq<RatTerm> -> int)
    requires Equals(p, q)
    ensures HashCode(p, hashTerms) == HashCode(q, hashTerms)
  {
  }
}
