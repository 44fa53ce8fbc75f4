/** The rows of a trace on which transition constraints are imposed: every point of the
    domain but the last.  A polynomial that vanishes there is divided exactly by the
    vanishing polynomial, which is (X^N - 1)/(X - w^(N-1)). */
module TransitionRows {
  import opened Goldilocks
  import opened Powers
  import opened Primality
  import opened RootsOfUnity
  import opened Polynomials
  import opened PolynomialOps
  import opened TransformInversion
  import opened PolynomialDivision
  import opened Interpolation

  /** The rows on which the transition constraint is imposed: all but the last. */
  function TransitionPoints(k: nat): (xs: seq<Elem>)
    ensures |xs| == Pow2(k) - 1
  {
    DomainOf(k)[..Pow2(k) - 1]
  }

  function BoundaryPoint(k: nat): Elem {
    Pow(RootOfUnity(k), Pow2(k) - 1)
  }

  lemma BoundaryInDomain(k: nat)
    ensures BoundaryPoint(k) in DomainOf(k)
    ensures DomainOf(k)[Pow2(k) - 1] == BoundaryPoint(k)
  {
    hide Pow, RootOfUnity;
    assert DomainOf(k)[Pow2(k) - 1] == BoundaryPoint(k);
  }

  /** The points are different, and multiplying their linear factors gives degree N - 1. */
  lemma RowsLaws(k: nat)
    requires k <= 32
    ensures Distinct(TransitionPoints(k))
    ensures |LinearProduct(TransitionPoints(k))| == Pow2(k)
  {
    hide DomainOf, LinearProduct;
    DomainIsDistinct(k);
    LinearProductLaws(TransitionPoints(k), ZERO);
  }

  /** Dividing a polynomial that vanishes on the rows leaves nothing. */
  lemma DivisionOverRows(f: Poly, q: Poly, rem: Poly, k: nat)
    requires 1 <= k <= 32 && |f| < 2 * Pow2(k)
    requires forall i :: 0 <= i < Pow2(k) - 1 ==> Eval(f, TransitionPoints(k)[i]) == ZERO
    requires IsDivision(f, LinearProduct(TransitionPoints(k)), q, rem)
    ensures IsZero(rem)
    ensures |q| <= Pow2(k) && (q == [] || Canonical(q))
    ensures forall x: Elem :: Eval(f, x) == Mul(Eval(q, x), ProductAt(TransitionPoints(k), x))
  {
    hide Add, Mul, Sub, Eval, LinearProduct, ProductAt, DivIdentity, TransitionPoints;
    var points := TransitionPoints(k);
    var z := LinearProduct(points);
    RowsLaws(k);
    forall i | 0 <= i < |points|
      ensures Eval(f, points[i]) == ZERO && Eval(z, points[i]) == ZERO
    {
      LinearProductLaws(points, points[i]);
      ProductAtZero(points, points[i]);
    }
    forall x: Elem
      ensures Eval(f, x) == Mul(Eval(q, x), ProductAt(points, x))
    {
      RemainderZeroGivesValue(f, z, q, rem, points, x);
      LinearProductLaws(points, x);
    }
    RemainderZeroGivesValue(f, z, q, rem, points, ZERO);
  }

  // ----- X^N - 1 -----

  /** X^n + c as a coefficient list. */
  function PowerPlus(n: nat, c: Elem): (f: Poly)
    requires n >= 1
    ensures |f| == n + 1 && f[n] == ONE
  {
    [c] + Zeros(n - 1) + [ONE]
  }

  lemma EvalPowerPlus(n: nat, c: Elem, x: Elem)
    requires n >= 1
    ensures Eval(PowerPlus(n, c), x) == Add(Pow(x, n), c)
  {
    hide Add, Mul, Pow;
    var low := [c] + Zeros(n - 1);
    EvalAppend(low, [ONE], x);
    EvalConstant(ONE, x);
    MulNeutral(Pow(x, n));
    EvalAppend([c], Zeros(n - 1), x);
    EvalConstant(c, x);
    EvalOfZero(Zeros(n - 1), x);
    MulNeutral(Pow(x, 1));
    AddNeutral(c);
    AddCommutes(c, Pow(x, n));
  }

  lemma DomainPower(k: nat, i: nat)
    requires k <= 32 && i < Pow2(k)
    ensures Pow(DomainOf(k)[i], Pow2(k)) == ONE
  {
    hide Pow, RootOfUnity, PrimitiveRoot;
    RootIsPrimitive(k);
    RootToFullOrder(RootOfUnity(k), k);
    SwapPowers(RootOfUnity(k), i, Pow2(k));
    OnePow(i);
  }

  /** The linear factors of the whole domain multiply up to X^N - 1. */
  lemma DomainProduct(k: nat, x: Elem)
    requires k <= 32
    ensures ProductAt(DomainOf(k), x) == Sub(Pow(x, Pow2(k)), ONE)
  {
    hide Add, Mul, Sub, Neg, Eval, Pow, ProductAt, LinearProduct, DomainOf, PowerPlus;
    var d := DomainOf(k);
    var n := Pow2(k);
    var f, g := PowerPlus(n, Neg(ONE)), LinearProduct(d);
    LinearProductLaws(d, x);
    EvalPowerPlus(n, Neg(ONE), x);
    SubIsAddNeg(Pow(x, n), ONE);
    DomainIsDistinct(k);
    forall i | 0 <= i < n
      ensures Eval(f, d[i]) == ZERO && Eval(g, d[i]) == ZERO
    {
      LinearProductLaws(d, d[i]);
      ProductAtZero(d, d[i]);
      EvalPowerPlus(n, Neg(ONE), d[i]);
      DomainPower(k, i);
      AddNeutral(ONE);
    }
    MonicAgree(f, g, d);
    EvalSameCoeffs(f, g, x);
  }

  /** Two monic polynomials of degree n with n common roots are the same. */
  lemma MonicAgree(f: Poly, g: Poly, xs: seq<Elem>)
    requires |f| == |g| == |xs| + 1 && f[|xs|] == g[|xs|] == ONE
    requires Distinct(xs)
    requires forall i :: 0 <= i < |xs| ==> Eval(f, xs[i]) == ZERO && Eval(g, xs[i]) == ZERO
    ensures SameCoeffs(f, g)
  {
    hide Add, Mul, Sub, Neg, Eval;
    var n := |xs|;
    forall i | 0 <= i < n
      ensures Eval(f[..n], xs[i]) == Eval(g[..n], xs[i])
    {
      assert f == f[..n] + [ONE] && g == g[..n] + [ONE];
      EvalAppend(f[..n], [ONE], xs[i]);
      EvalAppend(g[..n], [ONE], xs[i]);
      CancelAdd(Eval(f[..n], xs[i]), Eval(g[..n], xs[i]), Mul(Pow(xs[i], n), Eval([ONE], xs[i])));
    }
    AgreementForcesEquality(f[..n], g[..n], xs);
    forall i: nat
      ensures Coeff(f, i) == Coeff(g, i)
    {
      assert Coeff(f[..n], i) == Coeff(g[..n], i);
    }
  }

  lemma CancelAdd(a: Elem, b: Elem, c: Elem)
    requires Add(a, c) == Add(b, c)
    ensures a == b
  {
    hide Add;
    LinearLaws();
  }
}
