/** Polynomials over Fp as coefficient lists (index i holds the coefficient of X^i):
    evaluation, the linear operations, schoolbook convolution, and the fact that a
    polynomial with fewer coefficients than roots is zero. */
module Polynomials {
  import opened Goldilocks
  import opened Powers
  import opened Primality

  type Poly = seq<Elem>

  /** f(x). */
  function Eval(f: Poly, x: Elem): Elem {
    if f == [] then ZERO else Add(f[0], Mul(x, Eval(f[1..], x)))
  }

  /** The coefficient of X^i, zero past the end of the list. */
  function Coeff(f: Poly, i: nat): Elem {
    if i < |f| then f[i] else ZERO
  }

  ghost predicate SameCoeffs(f: Poly, g: Poly) {
    forall i: nat :: Coeff(f, i) == Coeff(g, i)
  }

  ghost predicate IsZero(f: Poly) {
    forall i :: 0 <= i < |f| ==> f[i] == ZERO
  }

  function Tail(f: Poly): Poly {
    if f == [] then [] else f[1..]
  }

  lemma EvalNothing()
    ensures forall x: Elem :: Eval([], x) == ZERO
  {
  }

  lemma EvalUnfold(f: Poly, x: Elem)
    ensures Eval(f, x) == Add(Coeff(f, 0), Mul(x, Eval(Tail(f), x)))
  {
    hide Add, Mul;
    if f == [] {
      MulNeutral(x);
      AddNeutral(ZERO);
    }
  }

  lemma {:induction false} EvalSameCoeffs(f: Poly, g: Poly, x: Elem)
    requires SameCoeffs(f, g)
    ensures Eval(f, x) == Eval(g, x)
    decreases |f| + |g|
  {
    hide Add, Mul;
    if f != [] || g != [] {
      EvalUnfold(f, x);
      EvalUnfold(g, x);
      forall i: nat
        ensures Coeff(Tail(f), i) == Coeff(Tail(g), i)
      {
        assert Coeff(f, i + 1) == Coeff(g, i + 1);
      }
      EvalSameCoeffs(Tail(f), Tail(g), x);
    }
  }

  lemma {:induction false} EvalOfZero(f: Poly, x: Elem)
    requires IsZero(f)
    ensures Eval(f, x) == ZERO
  {
    hide Add, Mul;
    assert SameCoeffs(f, []);
    EvalSameCoeffs(f, [], x);
  }

  lemma {:induction false} EvalAppend(f: Poly, g: Poly, x: Elem)
    ensures Eval(f + g, x) == Add(Eval(f, x), Mul(Pow(x, |f|), Eval(g, x)))
  {
    hide Add, Mul, Pow;
    PowUnfold(x, 0);
    if f == [] {
      assert f + g == g;
      MulNeutral(Eval(g, x));
      AddNeutral(Eval(g, x));
      AddCommutes(ZERO, Eval(g, x));
    } else {
      assert (f + g)[1..] == f[1..] + g;
      EvalAppend(f[1..], g, x);
      var e, p, v := Eval(f[1..], x), Pow(x, |f| - 1), Eval(g, x);
      PowUnfold(x, |f| - 1);
      MulDistributes(x, e, Mul(p, v));
      MulAssociates(x, p, v);
      AddAssociates(f[0], Mul(x, e), Mul(x, Mul(p, v)));
    }
  }

  // ----- canonical form -----

  /** `from_coeffs`: drop high zeros, keep at least one coefficient. */
  function Trim(f: Poly): (t: Poly)
    ensures 1 <= |t| && (|t| <= |f| || t == [ZERO])
  {
    if |f| > 1 && f[|f| - 1] == ZERO then Trim(f[..|f| - 1])
    else if f == [] then [ZERO]
    else f
  }

  ghost predicate Canonical(f: Poly) {
    |f| >= 1 && (|f| > 1 ==> f[|f| - 1] != ZERO)
  }

  lemma {:induction false} TrimKeepsCoeffs(f: Poly)
    ensures SameCoeffs(Trim(f), f)
    ensures Canonical(Trim(f))
  {
    if |f| > 1 && f[|f| - 1] == ZERO {
      TrimKeepsCoeffs(f[..|f| - 1]);
      forall i: nat
        ensures Coeff(Trim(f), i) == Coeff(f, i)
      {
        assert Coeff(Trim(f[..|f| - 1]), i) == Coeff(f[..|f| - 1], i);
      }
    }
  }

  /** Equal coefficient functions have one canonical list. */
  lemma CanonicalUnique(f: Poly, g: Poly)
    requires Canonical(f) && Canonical(g) && SameCoeffs(f, g)
    ensures f == g
  {
    var top := Max(|f|, |g|) - 1;
    assert Coeff(f, top) == Coeff(g, top);
    forall i | 0 <= i < |f|
      ensures f[i] == g[i]
    {
      assert Coeff(f, i) == Coeff(g, i);
    }
  }

  lemma EvalTrim(f: Poly, x: Elem)
    ensures Eval(Trim(f), x) == Eval(f, x)
  {
    hide Add, Mul, Trim;
    TrimKeepsCoeffs(f);
    EvalSameCoeffs(Trim(f), f, x);
  }

  // ----- linear operations -----

  function Max(a: nat, b: nat): nat {
    if a >= b then a else b
  }

  /** Coefficientwise sum, padded to the longer operand. */
  function Sum(f: Poly, g: Poly): (s: Poly)
    ensures |s| == Max(|f|, |g|)
    ensures forall i :: 0 <= i < |s| ==> s[i] == Add(Coeff(f, i), Coeff(g, i))
  {
    seq(Max(|f|, |g|), i requires 0 <= i => Add(Coeff(f, i), Coeff(g, i)))
  }

  function Scaled(f: Poly, s: Elem): (t: Poly)
    ensures |t| == |f|
    ensures forall i :: 0 <= i < |t| ==> t[i] == Mul(f[i], s)
  {
    seq(|f|, i requires 0 <= i < |f| => Mul(f[i], s))
  }

  function Negated(f: Poly): (t: Poly)
    ensures |t| == |f|
    ensures forall i :: 0 <= i < |t| ==> t[i] == Neg(f[i])
  {
    seq(|f|, i requires 0 <= i < |f| => Neg(f[i]))
  }

  /** The coefficients of f(s X). */
  function Dilated(f: Poly, s: Elem): (t: Poly)
    ensures |t| == |f|
    ensures forall i :: 0 <= i < |t| ==> t[i] == Mul(f[i], Pow(s, i))
  {
    seq(|f|, i requires 0 <= i < |f| => Mul(f[i], Pow(s, i)))
  }

  lemma {:induction false} EvalSum(f: Poly, g: Poly, x: Elem)
    ensures Eval(Sum(f, g), x) == Add(Eval(f, x), Eval(g, x))
    decreases |f| + |g|
  {
    hide Add, Mul;
    if f == [] && g == [] {
      AddNeutral(ZERO);
    } else {
      EvalUnfold(f, x);
      EvalUnfold(g, x);
      EvalUnfold(Sum(f, g), x);
      assert Tail(Sum(f, g)) == Sum(Tail(f), Tail(g));
      EvalSum(Tail(f), Tail(g), x);
      SumStep(Coeff(f, 0), Coeff(g, 0), x, Eval(Tail(f), x), Eval(Tail(g), x));
    }
  }

  lemma SumStep(a: Elem, b: Elem, x: Elem, u: Elem, v: Elem)
    ensures Add(Add(a, b), Mul(x, Add(u, v))) == Add(Add(a, Mul(x, u)), Add(b, Mul(x, v)))
  {
    hide Add, Mul;
    RingLaws();
  }

  lemma {:induction false} EvalScaled(f: Poly, s: Elem, x: Elem)
    ensures Eval(Scaled(f, s), x) == Mul(Eval(f, x), s)
  {
    hide Add, Mul;
    if f == [] {
      MulNeutral(s);
    } else {
      assert Scaled(f, s)[1..] == Scaled(f[1..], s);
      EvalScaled(f[1..], s, x);
      RingLaws();
      var u := Eval(f[1..], x);
      assert Mul(s, Add(f[0], Mul(x, u))) == Add(Mul(f[0], s), Mul(x, Mul(u, s)));
    }
  }

  lemma {:induction false} EvalNegated(f: Poly, x: Elem)
    ensures Eval(Negated(f), x) == Neg(Eval(f, x))
  {
    hide Add, Mul, Neg;
    if f == [] {
      assert Neg(ZERO) == ZERO by { NegOfZero(); }
    } else {
      assert Negated(f)[1..] == Negated(f[1..]);
      EvalNegated(f[1..], x);
      MulNeg(x, Eval(f[1..], x));
      NegOfSum(f[0], Mul(x, Eval(f[1..], x)));
    }
  }

  lemma {:induction false} EvalDilated(f: Poly, s: Elem, x: Elem)
    ensures Eval(Dilated(f, s), x) == Eval(f, Mul(s, x))
  {
    hide Add, Mul;
    if f != [] {
      var rest := f[1..];
      assert Dilated(f, s)[1..] == Scaled(Dilated(rest, s), s) by {
        forall i | 0 <= i < |rest|
          ensures Dilated(f, s)[1..][i] == Scaled(Dilated(rest, s), s)[i]
        {
          MulLaws();
          assert Mul(rest[i], Mul(s, Pow(s, i))) == Mul(Mul(rest[i], Pow(s, i)), s);
        }
      }
      EvalDilated(rest, s, x);
      EvalScaled(Dilated(rest, s), s, x);
      MulLaws();
      var u := Eval(rest, Mul(s, x));
      assert Mul(x, Mul(u, s)) == Mul(Mul(s, x), u);
      assert Dilated(f, s)[0] == f[0];
    }
  }

  // ----- schoolbook convolution -----

  /** The sum of f_i * g_(k-i) over i. */
  function ConvCoeff(f: Poly, g: Poly, k: nat): Elem {
    if f == [] then ZERO
    else Add(Mul(f[0], Coeff(g, k)), if k == 0 then ZERO else ConvCoeff(f[1..], g, k - 1))
  }

  function Conv(f: Poly, g: Poly): (c: Poly)
    requires |f| + |g| >= 1
    ensures |c| == |f| + |g| - 1
    ensures forall k :: 0 <= k < |c| ==> c[k] == ConvCoeff(f, g, k)
  {
    seq(|f| + |g| - 1, k requires 0 <= k => ConvCoeff(f, g, k))
  }

  lemma {:induction false} ConvCoeffPastEnd(f: Poly, g: Poly, k: nat)
    requires k + 1 >= |f| + |g| || f == [] || g == []
    ensures ConvCoeff(f, g, k) == ZERO
  {
    hide Add, Mul;
    if f != [] {
      MulNeutral(f[0]);
      AddNeutral(ZERO);
      if k > 0 {
        ConvCoeffPastEnd(f[1..], g, k - 1);
      }
    }
  }

  lemma ConvIsCoeff(f: Poly, g: Poly, k: nat)
    requires |f| + |g| >= 1
    ensures Coeff(Conv(f, g), k) == ConvCoeff(f, g, k)
  {
    hide Add, Mul, ConvCoeff;
    if k >= |f| + |g| - 1 {
      ConvCoeffPastEnd(f, g, k);
    }
  }

  /** Convolution is multiplication of the polynomial functions. */
  lemma {:induction false} EvalConv(f: Poly, g: Poly, x: Elem)
    requires |f| + |g| >= 1
    ensures Eval(Conv(f, g), x) == Mul(Eval(f, x), Eval(g, x))
    decreases |f|
  {
    hide Add, Mul;
    if f == [] || g == [] {
      forall k | 0 <= k < |f| + |g| - 1
        ensures Conv(f, g)[k] == ZERO
      {
        ConvCoeffPastEnd(f, g, k);
      }
      EvalOfZero(Conv(f, g), x);
      MulNeutral(Eval(f, x));
      MulNeutral(Eval(g, x));
    } else {
      var rest := f[1..];
      var shifted := [ZERO] + Conv(rest, g);
      var parts := Sum(Scaled(g, f[0]), shifted);
      ConvSplits(f, g);
      EvalSameCoeffs(Conv(f, g), parts, x);
      EvalSum(Scaled(g, f[0]), shifted, x);
      EvalScaled(g, f[0], x);
      assert shifted[1..] == Conv(rest, g);
      EvalConv(rest, g, x);
      ConvStep(f[0], x, Eval(rest, x), Eval(g, x));
    }
  }

  lemma ConvStep(a: Elem, x: Elem, u: Elem, v: Elem)
    ensures Add(Mul(v, a), Add(ZERO, Mul(x, Mul(u, v)))) == Mul(Add(a, Mul(x, u)), v)
  {
    hide Add, Mul;
    RingLaws();
    assert Mul(v, Add(a, Mul(x, u))) == Add(Mul(v, a), Mul(v, Mul(x, u)));
  }

  lemma ConvSplits(f: Poly, g: Poly)
    requires f != [] && g != []
    ensures SameCoeffs(Conv(f, g), Sum(Scaled(g, f[0]), [ZERO] + Conv(f[1..], g)))
  {
    hide Add, Mul;
    var rest := f[1..];
    var shifted := [ZERO] + Conv(rest, g);
    var parts := Sum(Scaled(g, f[0]), shifted);
    forall k: nat
      ensures Coeff(Conv(f, g), k) == Coeff(parts, k)
    {
      ConvIsCoeff(f, g, k);
      MulNeutral(f[0]);
      AddNeutral(ZERO);
      MulCommutes(f[0], Coeff(g, k));
      assert Coeff(Scaled(g, f[0]), k) == Mul(f[0], Coeff(g, k));
      if k > 0 {
        ConvIsCoeff(rest, g, k - 1);
        assert Coeff(shifted, k) == ConvCoeff(rest, g, k - 1);
      }
    }
  }

  // ----- synthetic division and roots -----

  /** The quotient of f by X - r: its i-th coefficient is the value at r of the part of f above X^i. */
  function SyntheticQuotient(f: Poly, r: Elem): (q: Poly)
    ensures |q| == if f == [] then 0 else |f| - 1
    ensures forall i :: 0 <= i < |q| ==> q[i] == Eval(f[i + 1..], r)
  {
    if f == [] then [] else seq(|f| - 1, i requires 0 <= i < |f| - 1 => Eval(f[i + 1..], r))
  }

  /** f(x) = (x - r) q(x) + f(r). */
  lemma {:induction false} SyntheticDivision(f: Poly, r: Elem, x: Elem)
    ensures Eval(f, x) == Add(Mul(Sub(x, r), Eval(SyntheticQuotient(f, r), x)), Eval(f, r))
  {
    hide Add, Mul, Sub;
    var q := SyntheticQuotient(f, r);
    if |f| <= 1 {
      MulNeutral(Sub(x, r));
      LinearLaws();
      if |f| == 1 {
        assert f[1..] == [];
        MulNeutral(x);
        MulNeutral(r);
      }
    } else {
      var rest := f[1..];
      var q' := SyntheticQuotient(rest, r);
      SyntheticDivision(rest, r, x);
      assert q[1..] == q' by {
        forall i | 0 <= i < |q'|
          ensures q[1..][i] == q'[i]
        {
          assert f[i + 2..] == rest[i + 1..];
        }
      }
      assert q[0] == Eval(rest, r);
      SyntheticStep(f[0], x, r, Eval(q', x), Eval(rest, r));
    }
  }

  lemma SyntheticStep(a: Elem, x: Elem, r: Elem, q: Elem, v: Elem)
    ensures Add(a, Mul(x, Add(Mul(Sub(x, r), q), v))) ==
            Add(Mul(Sub(x, r), Add(v, Mul(x, q))), Add(a, Mul(r, v)))
  {
    hide Add, Mul, Sub;
    RingLaws();
    assert Add(r, Sub(x, r)) == x by {
      SubAdds(x, r);
    }
    var d := Sub(x, r);
    assert Mul(x, v) == Add(Mul(r, v), Mul(d, v)) by {
      assert Mul(v, Add(r, d)) == Add(Mul(v, r), Mul(v, d));
    }
    assert Mul(x, Mul(d, q)) == Mul(d, Mul(x, q));
  }

  ghost predicate Distinct(xs: seq<Elem>) {
    forall i, j :: 0 <= i < j < |xs| ==> xs[i] != xs[j]
  }

  /** A polynomial with at least as many different roots as coefficients is zero. */
  lemma {:induction false} RootsForceZero(f: Poly, xs: seq<Elem>)
    requires |f| <= |xs| && Distinct(xs)
    requires forall i :: 0 <= i < |xs| ==> Eval(f, xs[i]) == ZERO
    ensures IsZero(f)
    decreases |f|
  {
    if f != [] {
      hide Add, Mul, Sub, Eval;
      var n := |xs| - 1;
      var r := xs[n];
      var q := SyntheticQuotient(f, r);
      forall i | 0 <= i < n
        ensures Eval(q, xs[i]) == ZERO
      {
        SyntheticDivision(f, r, xs[i]);
        AddNeutral(Mul(Sub(xs[i], r), Eval(q, xs[i])));
        SubZero(xs[i], r);
        NoZeroDivisors(Sub(xs[i], r), Eval(q, xs[i]));
      }
      RootsForceZero(q, xs[..n]);
      ZeroFromQuotient(f, r);
    }
  }

  lemma ZeroFromQuotient(f: Poly, r: Elem)
    requires f != [] && Eval(f, r) == ZERO && IsZero(SyntheticQuotient(f, r))
    ensures IsZero(f)
  {
    hide Add, Mul;
    var q := SyntheticQuotient(f, r);
    forall i | 0 <= i < |f|
      ensures f[i] == ZERO
    {
      assert f[i..][1..] == f[i + 1..];
      assert Eval(f[i..], r) == ZERO by {
        if i > 0 {
          assert q[i - 1] == ZERO;
        } else {
          assert f[0..] == f;
        }
      }
      assert Eval(f[i + 1..], r) == ZERO by {
        if i < |q| {
          assert q[i] == ZERO;
        }
      }
      MulNeutral(r);
      AddNeutral(f[i]);
    }
  }

  /** Two polynomials with at most n coefficients that agree at n points are the same. */
  lemma AgreementForcesEquality(f: Poly, g: Poly, xs: seq<Elem>)
    requires |f| <= |xs| && |g| <= |xs| && Distinct(xs)
    requires forall i :: 0 <= i < |xs| ==> Eval(f, xs[i]) == Eval(g, xs[i])
    ensures SameCoeffs(f, g)
  {
    hide Add, Mul, Eval;
    var d := Sum(f, Negated(g));
    forall i | 0 <= i < |xs|
      ensures Eval(d, xs[i]) == ZERO
    {
      EvalSum(f, Negated(g), xs[i]);
      EvalNegated(g, xs[i]);
      AddNeutral(Eval(g, xs[i]));
    }
    RootsForceZero(d, xs);
    forall i: nat
      ensures Coeff(f, i) == Coeff(g, i)
    {
      if i < |d| {
        assert d[i] == ZERO;
        LinearLaws();
      }
    }
  }

  // ----- even and odd parts -----

  function Evens(f: Poly): (e: Poly)
    ensures |e| == (|f| + 1) / 2
    ensures forall i :: 0 <= i < |e| ==> e[i] == f[2 * i]
  {
    if f == [] then [] else [f[0]] + Odds(f[1..])
  }

  function Odds(f: Poly): (o: Poly)
    ensures |o| == |f| / 2
    ensures forall i :: 0 <= i < |o| ==> o[i] == f[2 * i + 1]
  {
    if f == [] then [] else Evens(f[1..])
  }

  /** f(x) = E(x^2) + x O(x^2). */
  lemma {:induction false} EvalEvenOdd(f: Poly, x: Elem)
    ensures Eval(f, x) == Add(Eval(Evens(f), Mul(x, x)), Mul(x, Eval(Odds(f), Mul(x, x))))
    decreases |f|
  {
    hide Add, Mul;
    var y := Mul(x, x);
    if f == [] {
      MulNeutral(x);
      AddNeutral(ZERO);
    } else {
      var g := f[1..];
      EvalEvenOdd(g, x);
      assert Evens(f)[1..] == Odds(g);
      EvenOddStep(f[0], x, Eval(Evens(g), y), Eval(Odds(g), y));
    }
  }

  lemma EvenOddStep(a: Elem, x: Elem, e: Elem, o: Elem)
    ensures Add(a, Mul(x, Add(e, Mul(x, o)))) == Add(Add(a, Mul(Mul(x, x), o)), Mul(x, e))
  {
    hide Add, Mul;
    RingLaws();
    assert Mul(x, Add(e, Mul(x, o))) == Add(Mul(x, e), Mul(x, Mul(x, o)));
  }
}
