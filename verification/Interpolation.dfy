/** Products of linear factors, and `Poly::interpolate`. */
module Interpolation {
  import opened Goldilocks
  import opened Powers
  import opened Primality
  import opened RootsOfUnity
  import opened Polynomials
  import opened PolynomialOps
  import opened NumberTheoreticTransform
  import opened TransformInversion
  import opened PolynomialProduct
  import opened PolynomialDivision

  // ----- products of linear factors -----

  /** The product of the values x - xs[i]. */
  function ProductAt(xs: seq<Elem>, x: Elem): Elem {
    if xs == [] then ONE else Mul(ProductAt(xs[..|xs| - 1], x), Sub(x, xs[|xs| - 1]))
  }

  /** The product of the polynomials X - xs[i]. */
  function LinearProduct(xs: seq<Elem>): (z: Poly)
    ensures z != []
  {
    if xs == [] then [ONE]
    else PolyMul(LinearProduct(xs[..|xs| - 1]), Trim([Neg(xs[|xs| - 1]), ONE]))
  }

  /** The top coefficient of a convolution is the product of the top coefficients. */
  lemma {:induction false} ConvTop(f: Poly, g: Poly)
    requires f != [] && g != []
    ensures ConvCoeff(f, g, |f| + |g| - 2) == Mul(f[|f| - 1], g[|g| - 1])
    decreases |f|
  {
    hide Add, Mul;
    var k := |f| + |g| - 2;
    AddNeutral(Mul(f[0], Coeff(g, k)));
    if |f| == 1 {
      if k > 0 {
        ConvCoeffPastEnd(f[1..], g, k - 1);
      }
    } else {
      ConvTop(f[1..], g);
      MulNeutral(f[0]);
      AddNeutral(Mul(f[|f| - 1], g[|g| - 1]));
    }
  }

  /** It has degree |xs|, leading coefficient 1, and vanishes exactly at the points. */
  lemma {:induction false} LinearProductLaws(xs: seq<Elem>, x: Elem)
    ensures var z := LinearProduct(xs);
            && |z| == |xs| + 1
            && z[|xs|] == ONE
            && Eval(z, x) == ProductAt(xs, x)
  {
    hide Add, Mul, Sub, Neg, Eval, Trim;
    if xs == [] {
      EvalConstant(ONE, x);
    } else {
      var n := |xs| - 1;
      var z, l := LinearProduct(xs[..n]), [Neg(xs[n]), ONE];
      LinearProductLaws(xs[..n], x);
      TrimMonic(l);
      ConvTop(z, l);
      MulNeutral(ONE);
      TrimMonic(Conv(z, l));
      EvalPolyMul(z, l, x);
      EvalLinear(xs[n], x);
    }
  }

  /** A list that ends in 1 is already canonical. */
  lemma TrimMonic(f: Poly)
    requires f != [] && f[|f| - 1] == ONE
    ensures Trim(f) == f
  {
  }

  lemma {:induction false} ProductAtZero(xs: seq<Elem>, x: Elem)
    ensures ProductAt(xs, x) == ZERO <==> x in xs
  {
    hide Mul, Sub;
    if xs != [] {
      var n := |xs| - 1;
      var p, d := ProductAt(xs[..n], x), Sub(x, xs[n]);
      ProductAtZero(xs[..n], x);
      SubZero(x, xs[n]);
      MulNeutral(p);
      MulNeutral(d);
      assert xs == xs[..n] + [xs[n]];
      if Mul(p, d) == ZERO && p != ZERO {
        NoZeroDivisors(p, d);
      }
    }
  }

  /** The loops that multiply up linear factors (`master`, `z`, `vanishing`). */
  method MultiplyLinearFactors(xs: seq<Elem>) returns (z: Poly)
    requires |xs| < MAX_TRANSFORM
    ensures z == LinearProduct(xs)
  {
    hide Trim, PolyMul, Neg;
    z := FromCoeffs([ONE]);
    TrimMonic([ONE]);
    for i := 0 to |xs|
      invariant z == LinearProduct(xs[..i])
    {
      assert xs[..i + 1][..i] == xs[..i];
      LinearProductLaws(xs[..i], ZERO);
      var l := FromCoeffs([Neg(xs[i]), ONE]);
      TrimMonic([Neg(xs[i]), ONE]);
      z := Multiply(z, l);
    }
    assert xs[..|xs|] == xs;
  }

  // ----- interpolation -----

  /** p has at most one coefficient per point and takes the prescribed values. */
  ghost predicate Interpolates(p: Poly, xs: seq<Elem>, ys: seq<Elem>)
    requires |xs| == |ys|
  {
    && |p| <= |xs|
    && (xs != [] ==> Canonical(p))
    && forall i :: 0 <= i < |xs| ==> Eval(p, xs[i]) == ys[i]
  }

  /** On different points there is only one interpolant. */
  lemma InterpolantUnique(p: Poly, q: Poly, xs: seq<Elem>, ys: seq<Elem>)
    requires |xs| == |ys| && xs != [] && Distinct(xs)
    requires Interpolates(p, xs, ys) && Interpolates(q, xs, ys)
    ensures p == q
  {
    hide Eval;
    AgreementForcesEquality(p, q, xs);
    CanonicalUnique(p, q);
  }

  /** The i-th basis polynomial vanishes at every other point and not at its own. */
  lemma BasisValues(xs: seq<Elem>, i: nat, j: nat)
    requires Distinct(xs) && i < |xs| && j < |xs|
    ensures var basis := DivideByLinear(LinearProduct(xs), xs[i]);
            && |basis| <= |xs|
            && (Eval(basis, xs[j]) == ZERO <==> i != j)
  {
    hide Add, Mul, Sub, Eval, Trim, LinearProduct;
    var z, r, x := LinearProduct(xs), xs[i], xs[j];
    var q := SyntheticQuotient(z, r);
    LinearProductLaws(xs, r);
    LinearProductLaws(xs, x);
    ProductAtZero(xs, r);
    ProductAtZero(xs, x);
    EvalTrim(q, x);
    if i != j {
      OtherPointVanishes(z, r, x);
    } else if Eval(q, r) == ZERO {
      forall k | 0 <= k < |xs|
        ensures Eval(q, xs[k]) == ZERO
      {
        LinearProductLaws(xs, xs[k]);
        ProductAtZero(xs, xs[k]);
        if k != i {
          OtherPointVanishes(z, r, xs[k]);
        }
      }
      RootsForceZero(q, xs);
      TopOfQuotient(z, r);
    }
  }

  lemma OtherPointVanishes(z: Poly, r: Elem, x: Elem)
    requires Eval(z, r) == ZERO && Eval(z, x) == ZERO && x != r
    ensures Eval(SyntheticQuotient(z, r), x) == ZERO
  {
    hide Add, Mul, Sub, Eval;
    var v := Eval(SyntheticQuotient(z, r), x);
    SyntheticDivision(z, r, x);
    AddNeutral(Mul(Sub(x, r), v));
    SubZero(x, r);
    NoZeroDivisors(Sub(x, r), v);
  }

  lemma TopOfQuotient(z: Poly, r: Elem)
    requires |z| >= 2
    ensures SyntheticQuotient(z, r)[|z| - 2] == z[|z| - 1]
  {
    assert z[|z| - 1..] == [z[|z| - 1]];
    EvalConstant(z[|z| - 1], r);
  }

  /** The scaled basis polynomial takes the value y at its own point and 0 elsewhere. */
  lemma ScaledBasisValue(basis: Poly, y: Elem, own: Elem, x: Elem)
    requires Eval(basis, own) != ZERO
    requires x == own || Eval(basis, x) == ZERO
    ensures Eval(PolyScale(basis, Mul(y, Inv(Eval(basis, own)))), x) == if x == own then y else ZERO
  {
    hide Mul, Eval, Inv;
    var v := Eval(basis, own);
    var s := Mul(y, Inv(v));
    EvalOps(basis, [], s, x);
    if x == own {
      InverseIsExact(v);
      MulLaws();
      assert Mul(v, Mul(y, Inv(v))) == Mul(y, Mul(v, Inv(v)));
    } else {
      MulNeutral(s);
    }
  }

  /** `interpolate`: on pairwise different points the result is the interpolant. */
  method Interpolate(xs: seq<Elem>, ys: seq<Elem>) returns (result: Poly)
    requires |xs| == |ys| && |xs| < MAX_TRANSFORM
    requires Distinct(xs)
    ensures Interpolates(result, xs, ys)
  {
    hide Add, Mul, Eval, Trim, LinearProduct, PolyScale, Inv, DivideByLinear, PolyAdd;
    var n := |xs|;
    var master := MultiplyLinearFactors(xs);
    result := [];
    assert forall j :: 0 <= j < n ==> Eval([], xs[j]) == ZERO by { EvalNothing(); }
    for i := 0 to n
      invariant |result| <= n && (i > 0 ==> Canonical(result))
      invariant forall j :: 0 <= j < n ==> Eval(result, xs[j]) == if j < i then ys[j] else ZERO
    {
      var basis := DivideByLinearLoop(master, xs[i]);
      BasisValues(xs, i, i);
      var liXi := EvalAt(basis, xs[i]);
      var li := PolyScale(basis, Mul(ys[i], Inv(liXi)));
      ScaleIsCanonical(basis, Mul(ys[i], Inv(liXi)));
      forall j | 0 <= j < n
        ensures Eval(PolyAdd(result, li), xs[j]) == if j <= i then ys[j] else ZERO
      {
        BasisValues(xs, i, j);
        ScaledBasisValue(basis, ys[i], xs[i], xs[j]);
        EvalOps(result, li, ZERO, xs[j]);
        AddNeutral(ys[j]);
        AddNeutral(ZERO);
      }
      AddIsCanonical(result, li);
      result := AddPolys(result, li);
    }
  }

  lemma AddIsCanonical(f: Poly, g: Poly)
    ensures Canonical(PolyAdd(f, g)) && |PolyAdd(f, g)| <= Max(1, Max(|f|, |g|))
  {
    hide Add, Trim;
    TrimKeepsCoeffs(Sum(f, g));
  }

  /** Interpolation on a root-of-unity domain needs no side condition. */
  lemma DomainIsDistinct(k: nat)
    requires k <= 32
    ensures Distinct(DomainOf(k))
  {
    hide Pow, RootOfUnity, PrimitiveRoot;
    RootIsPrimitive(k);
    forall i, j | 0 <= i < j < Pow2(k)
      ensures DomainOf(k)[i] != DomainOf(k)[j]
    {
      DomainDistinct(RootOfUnity(k), k, i, j);
    }
  }

  /** On a root-of-unity domain the inverse transform interpolates the values. */
  lemma InverseTransformInterpolates(ys: seq<Elem>, k: nat)
    requires k <= 32 && |ys| == Pow2(k)
    ensures Interpolates(Trim(InverseTransform(ys, k)), DomainOf(k), ys)
  {
    hide Eval, Pow, RootOfUnity, Trim, InverseTransform;
    var f := InverseTransform(ys, k);
    TrimKeepsCoeffs(f);
    ForwardUndoesInverse(ys, k);
    forall i | 0 <= i < |ys|
      ensures Eval(Trim(f), DomainOf(k)[i]) == ys[i]
    {
      EvalTrim(f, DomainOf(k)[i]);
      assert ForwardTransform(f, k)[i] == ys[i];
    }
  }

  /** So the interpolant there is the inverse transform. */
  lemma InterpolantIsInverseTransform(p: Poly, ys: seq<Elem>, k: nat)
    requires k <= 32 && |ys| == Pow2(k)
    requires Interpolates(p, DomainOf(k), ys)
    ensures p == Trim(InverseTransform(ys, k))
  {
    hide Eval, Pow, RootOfUnity, Trim, InverseTransform, DomainOf;
    InverseTransformInterpolates(ys, k);
    DomainIsDistinct(k);
    assert Pow2(k) >= 1;
    InterpolantUnique(p, Trim(InverseTransform(ys, k)), DomainOf(k), ys);
  }

  // ----- division by the points of a zero set -----

  /** A polynomial that vanishes at different points is a multiple of their product. */
  lemma {:induction false} RootsDivide(f: Poly, xs: seq<Elem>) returns (q: Poly)
    requires Distinct(xs)
    requires forall i :: 0 <= i < |xs| ==> Eval(f, xs[i]) == ZERO
    ensures |q| <= |f|
    ensures forall x: Elem :: Eval(f, x) == Mul(Eval(q, x), ProductAt(xs, x))
    decreases |xs|
  {
    hide Add, Mul, Sub, Eval;
    if xs == [] {
      q := f;
      forall x: Elem
        ensures Eval(f, x) == Mul(Eval(q, x), ProductAt(xs, x))
      {
        MulNeutral(Eval(f, x));
      }
    } else {
      var n := |xs| - 1;
      var r := xs[n];
      var g := SyntheticQuotient(f, r);
      forall i | 0 <= i < n
        ensures Eval(g, xs[..n][i]) == ZERO
      {
        OtherPointVanishes(f, r, xs[i]);
      }
      q := RootsDivide(g, xs[..n]);
      forall x: Elem
        ensures Eval(f, x) == Mul(Eval(q, x), ProductAt(xs, x))
      {
        var d, v, p := Sub(x, r), Eval(q, x), ProductAt(xs[..n], x);
        SyntheticDivision(f, r, x);
        AddNeutral(Mul(d, Mul(v, p)));
        MulCommutes(d, Mul(v, p));
        MulAssociates(v, p, d);
      }
    }
  }
}
