/** `Poly::div_mod` and `Poly::divide_by_linear`. */
module PolynomialDivision {
  import opened Goldilocks
  import opened Powers
  import opened Primality
  import opened Polynomials
  import opened PolynomialOps

  /** f = q d + r as functions on the whole field. */
  ghost predicate DivIdentity(f: Poly, d: Poly, q: Poly, r: Poly) {
    forall x: Elem :: Eval(f, x) == Add(Mul(Eval(q, x), Eval(d, x)), Eval(r, x))
  }

  /** Quotient and remainder: the identity, with fewer remainder coefficients than deg d + 1. */
  ghost predicate IsDivision(f: Poly, d: Poly, q: Poly, r: Poly) {
    && DivIdentity(f, d, q, r)
    && |r| <= |d| - 1
    && (q == [] || Canonical(q))
    && |q| <= if |f| >= |d| then |f| - |d| + 1 else 1
  }

  function Zeros(n: nat): (z: Poly)
    ensures |z| == n
    ensures forall i :: 0 <= i < n ==> z[i] == ZERO
  {
    seq(n, _ => ZERO)
  }

  /** c X^k d. */
  function ShiftedMultiple(d: Poly, c: Elem, k: nat): (s: Poly)
    ensures |s| == k + |d|
  {
    Zeros(k) + Scaled(d, c)
  }

  lemma EvalShiftedMultiple(d: Poly, c: Elem, k: nat, x: Elem)
    ensures Eval(ShiftedMultiple(d, c, k), x) == Mul(Mul(c, Pow(x, k)), Eval(d, x))
  {
    hide Add, Mul, Pow;
    EvalAppend(Zeros(k), Scaled(d, c), x);
    EvalOfZero(Zeros(k), x);
    EvalScaled(d, c, x);
    AddNeutral(Mul(Pow(x, k), Mul(Eval(d, x), c)));
    MulLaws();
    assert Mul(Pow(x, k), Mul(Eval(d, x), c)) == Mul(Mul(Pow(x, k), c), Eval(d, x));
  }

  /** rem - c X^k d, in place. */
  function SubtractMultiple(rem: Poly, d: Poly, c: Elem, k: nat): (r: Poly)
    requires k + |d| <= |rem|
    ensures |r| == |rem|
    ensures forall i :: 0 <= i < |r| ==>
              r[i] == if k <= i < k + |d| then Sub(rem[i], Mul(c, d[i - k])) else rem[i]
  {
    seq(|rem|, i requires 0 <= i < |rem| =>
      if k <= i < k + |d| then Sub(rem[i], Mul(c, d[i - k])) else rem[i])
  }

  lemma EvalSubtractMultiple(rem: Poly, d: Poly, c: Elem, k: nat, x: Elem)
    requires k + |d| <= |rem|
    ensures Eval(SubtractMultiple(rem, d, c, k), x) ==
            Sub(Eval(rem, x), Mul(Mul(c, Pow(x, k)), Eval(d, x)))
  {
    hide Add, Mul, Sub, Neg, Eval, Pow;
    var s := ShiftedMultiple(d, c, k);
    var l, r := SubtractMultiple(rem, d, c, k), Sum(rem, Negated(s));
    assert l == r by {
      forall i | 0 <= i < |l|
        ensures l[i] == r[i]
      {
        if k <= i < k + |d| {
          assert s[i] == Mul(d[i - k], c);
          MulCommutes(c, d[i - k]);
          SubIsAddNeg(rem[i], s[i]);
        } else {
          assert Coeff(Negated(s), i) == ZERO by { NegZero(); }
          AddNeutral(rem[i]);
        }
      }
    }
    EvalSum(rem, Negated(s), x);
    EvalNegated(s, x);
    EvalShiftedMultiple(d, c, k, x);
    SubIsAddNeg(Eval(rem, x), Eval(s, x));
  }

  lemma NegZero()
    ensures Neg(ZERO) == ZERO
  {
  }

  lemma EvalSetCoeff(q: Poly, k: nat, c: Elem, x: Elem)
    requires k < |q| && q[k] == ZERO
    ensures Eval(q[k := c], x) == Add(Eval(q, x), Mul(c, Pow(x, k)))
  {
    hide Add, Mul, Eval, Pow;
    var s := ShiftedMultiple([ONE], c, k);
    assert q[k := c] == Sum(q, s) by {
      MulNeutral(c);
      AddNeutral(c);
      forall i | 0 <= i < |q| && i != k
        ensures q[i] == Sum(q, s)[i]
      {
        AddNeutral(q[i]);
      }
    }
    EvalSum(q, s, x);
    EvalShiftedMultiple([ONE], c, k, x);
    EvalConstant(ONE, x);
    MulNeutral(Mul(c, Pow(x, k)));
  }

  /** One step of long division preserves the identity. */
  lemma DivisionStep(f: Poly, d: Poly, q: Poly, rem: Poly, c: Elem, k: nat)
    requires DivIdentity(f, d, q, rem)
    requires k < |q| && q[k] == ZERO && k + |d| <= |rem|
    ensures DivIdentity(f, d, q[k := c], SubtractMultiple(rem, d, c, k))
  {
    hide Add, Mul, Sub, Eval, Pow, SubtractMultiple;
    forall x: Elem
      ensures Eval(f, x) == Add(Mul(Eval(q[k := c], x), Eval(d, x)), Eval(SubtractMultiple(rem, d, c, k), x))
    {
      EvalSetCoeff(q, k, c, x);
      EvalSubtractMultiple(rem, d, c, k, x);
      MoveTerm(Eval(q, x), Mul(c, Pow(x, k)), Eval(d, x), Eval(rem, x));
    }
  }

  lemma MoveTerm(q: Elem, t: Elem, d: Elem, r: Elem)
    ensures Add(Mul(Add(q, t), d), Sub(r, Mul(t, d))) == Add(Mul(q, d), r)
  {
    hide Add, Mul;
    MulCommutes(Add(q, t), d);
    MulDistributes(d, q, t);
    MulCommutes(d, q);
    MulCommutes(d, t);
    LinearLaws();
  }

  /** The inner loop of `div_mod`. */
  method SubtractShifted(rem0: Poly, d: Poly, c: Elem, k: nat) returns (rem: Poly)
    requires k + |d| <= |rem0|
    ensures rem == SubtractMultiple(rem0, d, c, k)
  {
    hide Mul, Sub;
    rem := rem0;
    for j := 0 to |d|
      invariant |rem| == |rem0|
      invariant forall i :: 0 <= i < |rem| ==>
        rem[i] == if k <= i < k + j then Sub(rem0[i], Mul(c, d[i - k])) else rem0[i]
    {
      rem := rem[k + j := Sub(rem[k + j], Mul(c, d[j]))];
    }
  }

  /** The quotient coefficient cancels the top of the remainder. */
  lemma TopCancels(rem: Poly, d: Poly, lcInv: Elem, k: nat)
    requires |d| >= 1 && k + |d| <= |rem| && Mul(d[|d| - 1], lcInv) == ONE
    ensures SubtractMultiple(rem, d, Mul(rem[k + |d| - 1], lcInv), k)[k + |d| - 1] == ZERO
  {
    hide Mul, Add;
    var t, lc := rem[k + |d| - 1], d[|d| - 1];
    MulAssociates(t, lcInv, lc);
    MulCommutes(lcInv, lc);
    MulNeutral(t);
  }

  lemma IdentityAtStart(f: Poly, d: Poly, q: Poly)
    requires IsZero(q)
    ensures DivIdentity(f, d, q, f)
  {
    hide Add, Mul, Eval;
    forall x: Elem
      ensures Eval(f, x) == Add(Mul(Eval(q, x), Eval(d, x)), Eval(f, x))
    {
      EvalOfZero(q, x);
      MulNeutral(Eval(d, x));
      AddNeutral(Eval(f, x));
    }
  }

  /** Normalising both results, and cutting the zero part of the remainder, keeps the identity. */
  lemma IdentityAtEnd(f: Poly, d: Poly, q: Poly, rem: Poly, m: nat)
    requires DivIdentity(f, d, q, rem) && m <= |rem|
    requires forall i :: m <= i < |rem| ==> rem[i] == ZERO
    ensures DivIdentity(f, d, Trim(q), Trim(rem[..m]))
  {
    hide Add, Mul, Eval, Trim;
    forall x: Elem
      ensures Eval(f, x) == Add(Mul(Eval(Trim(q), x), Eval(d, x)), Eval(Trim(rem[..m]), x))
    {
      EvalTrim(q, x);
      EvalTrim(rem[..m], x);
      EvalSameCoeffs(rem[..m], rem, x);
    }
  }

  lemma ConstantDivisor(f: Poly, d: Poly)
    requires |d| == 1 && d[0] != ZERO
    ensures DivIdentity(f, d, PolyScale(f, Inv(d[0])), [])
  {
    hide Add, Mul, PolyScale, Inv;
    forall x: Elem
      ensures Eval(f, x) == Add(Mul(Eval(PolyScale(f, Inv(d[0])), x), Eval(d, x)), Eval([], x))
    {
      var s, v := Inv(d[0]), Eval(f, x);
      EvalOps(f, [], s, x);
      EvalConstant(d[0], x);
      assert d == Constant(d[0]);
      InverseIsExact(d[0]);
      MulAssociates(v, s, d[0]);
      MulCommutes(s, d[0]);
      MulNeutral(v);
      AddNeutral(v);
    }
  }

  /** A zero multiple takes nothing away. */
  lemma SubtractNothing(rem: Poly, d: Poly, k: nat)
    requires k + |d| <= |rem|
    ensures SubtractMultiple(rem, d, ZERO, k) == rem
  {
    hide Mul, Sub;
    forall i | 0 <= i < |d|
      ensures Sub(rem[k + i], Mul(ZERO, d[i])) == rem[k + i]
    {
      MulNeutral(d[i]);
      MulCommutes(ZERO, d[i]);
      SubNothing(rem[k + i]);
    }
  }

  lemma SubNothing(a: Elem)
    ensures Sub(a, ZERO) == a
  {
  }

  /** `div_mod`.  Division by a zero constant or by a longer divisor returns (0, f); where the
      divisor's leading coefficient is not zero the results are quotient and remainder; with
      a leading zero the quotient is zero and the remainder is cut off. */
  method DivMod(f: Poly, d: Poly) returns (q: Poly, r: Poly)
    requires d != []
    ensures d == [ZERO] ==> q == [] && r == f
    ensures d[|d| - 1] != ZERO ==> IsDivision(f, d, q, r)
    ensures |d| >= 2 && Canonical(f) ==> Canonical(r)
    ensures d == [ZERO] || (|d| >= 2 && |f| < |d|) ==> q == [] && r == f
    ensures d != [ZERO] && |d| == 1 ==> Canonical(q) && r == []
    ensures 2 <= |d| <= |f| ==> Canonical(q) && Canonical(r)
    ensures 2 <= |d| <= |f| && d[|d| - 1] == ZERO ==> q == [ZERO] && r == Trim(f[..|d| - 1])
  {
    hide Add, Mul, Eval, Pow, Trim, DivIdentity, SubtractMultiple, PolyScale, Inv;
    var n := if |f| == 0 then 0 else |f| - 1;
    var m := |d| - 1;
    if n < m || (m == 0 && d[0] == ZERO) {
      IdentityAtStart(f, d, []);
      return [], f;
    }
    if m == 0 {
      ConstantDivisor(f, d);
      ScaleIsCanonical(f, Inv(d[0]));
      return PolyScale(f, Inv(d[0])), [];
    }
    var rem := f;
    var lcInv := Inv(d[m]);
    InverseIsExact(d[m]);
    q := Zeros(n - m + 1);
    IdentityAtStart(f, d, q);
    for i := n + 1 downto m
      invariant |rem| == n + 1 && |q| == n - m + 1
      invariant DivIdentity(f, d, q, rem)
      invariant d[m] != ZERO ==> forall j :: i <= j < |rem| ==> rem[j] == ZERO
      invariant d[m] == ZERO ==> rem == f && forall j :: 0 <= j < |q| ==> q[j] == ZERO
      invariant forall j :: 0 <= j < |q| && j + m < i ==> q[j] == ZERO
    {
      if rem[i] != ZERO {
        var coeff := Mul(rem[i], lcInv);
        var qi := i - m;
        DivisionStep(f, d, q, rem, coeff, qi);
        if d[m] != ZERO {
          TopCancels(rem, d, lcInv, qi);
        } else {
          MulNeutral(rem[i]);
          SubtractNothing(rem, d, qi);
        }
        q := q[qi := coeff];
        rem := SubtractShifted(rem, d, coeff, qi);
      }
    }
    if d[m] != ZERO {
      IdentityAtEnd(f, d, q, rem, m);
    }
    TrimKeepsCoeffs(q);
    TrimKeepsCoeffs(rem[..m]);
    if d[m] == ZERO {
      TrimOfZero(q);
    }
    q := FromCoeffs(q);
    r := FromCoeffs(rem[..m]);
  }

  lemma ScaleIsCanonical(f: Poly, s: Elem)
    ensures Canonical(PolyScale(f, s)) && |PolyScale(f, s)| <= Max(|f|, 1)
  {
    hide Mul, Trim;
    TrimKeepsCoeffs(Scaled(f, s));
  }

  // ----- f = q d + r, coefficient by coefficient -----

  /** The field elements 0, 1, ..., n - 1. */
  function FirstElements(n: nat): (xs: seq<Elem>)
    requires n <= MODULUS
    ensures |xs| == n && Distinct(xs)
  {
    seq(n, i requires 0 <= i < n => i)
  }

  /** n different elements, none of them r. */
  function AvoidingElements(n: nat, r: Elem): (xs: seq<Elem>)
    requires 2 * n <= MODULUS
    ensures |xs| == n && Distinct(xs) && r !in xs
  {
    var base := if r < n then n else 0;
    seq(n, i requires 0 <= i < n => base + i)
  }

  /** The functional identity is an identity of polynomials. */
  lemma DivisionIsExact(f: Poly, d: Poly, q: Poly, r: Poly)
    requires d != [] && IsDivision(f, d, q, r)
    requires |f| + |d| <= MODULUS
    ensures SameCoeffs(f, Sum(Conv(q, d), r))
  {
    hide Add, Mul, Eval, Conv, Sum;
    var g := Sum(Conv(q, d), r);
    var n := |f| + |d|;
    forall i | 0 <= i < n
      ensures Eval(f, FirstElements(n)[i]) == Eval(g, FirstElements(n)[i])
    {
      var x := FirstElements(n)[i];
      EvalSum(Conv(q, d), r, x);
      EvalConv(q, d, x);
    }
    AgreementForcesEquality(f, g, FirstElements(n));
  }

  /** When dividend and divisor vanish together at deg d points, the division is exact. */
  lemma RemainderZeroGivesValue(f: Poly, d: Poly, q: Poly, r: Poly, xs: seq<Elem>, x: Elem)
    requires IsDivision(f, d, q, r)
    requires Distinct(xs) && |d| - 1 <= |xs|
    requires forall i :: 0 <= i < |xs| ==> Eval(f, xs[i]) == ZERO && Eval(d, xs[i]) == ZERO
    ensures IsZero(r)
    ensures Eval(f, x) == Mul(Eval(q, x), Eval(d, x))
  {
    hide Add, Mul, Eval;
    forall i | 0 <= i < |xs|
      ensures Eval(r, xs[i]) == ZERO
    {
      MulNeutral(Eval(q, xs[i]));
      AddNeutral(Eval(r, xs[i]));
    }
    RootsForceZero(r, xs);
    EvalOfZero(r, x);
    AddNeutral(Mul(Eval(q, x), Eval(d, x)));
  }

  lemma CanonicalZero(r: Poly)
    requires Canonical(r) && IsZero(r)
    ensures r == [ZERO]
  {
  }

  lemma TrimOfZero(f: Poly)
    requires IsZero(f)
    ensures Trim(f) == [ZERO]
  {
    hide Trim;
    TrimKeepsCoeffs(f);
    forall i | 0 <= i < |Trim(f)|
      ensures Trim(f)[i] == ZERO
    {
      assert Coeff(Trim(f), i) == Coeff(f, i);
    }
    CanonicalZero(Trim(f));
  }

  // ----- synthetic division -----

  /** `divide_by_linear`: an empty list stays empty. */
  function DivideByLinear(f: Poly, r: Elem): Poly {
    if f == [] then [] else Trim(SyntheticQuotient(f, r))
  }

  method DivideByLinearLoop(f: Poly, r: Elem) returns (result: Poly)
    ensures result == DivideByLinear(f, r)
  {
    hide Add, Mul, Trim;
    var n := |f|;
    if n == 0 {
      return [];
    }
    var q := Zeros(n - 1);
    var carry := ZERO;
    MulNeutral(r);
    assert Eval(f[n..], r) == ZERO;
    for i := n - 1 downto 0
      invariant |q| == n - 1
      invariant carry == Mul(r, Eval(f[i + 1..], r))
      invariant forall j :: i <= j < n - 1 ==> q[j] == Eval(f[j + 1..], r)
    {
      assert f[i + 1..][1..] == f[i + 2..];
      q := q[i := Add(f[i + 1], carry)];
      MulCommutes(q[i], r);
      carry := Mul(q[i], r);
    }
    assert q == SyntheticQuotient(f, r);
    result := FromCoeffs(q);
  }
}
