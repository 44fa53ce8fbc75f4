/** The `Poly` operations built from the coefficient-level functions: each result is
    normalised by `from_coeffs`, and each loop computes exactly its specification. */
module PolynomialOps {
  import opened Goldilocks
  import opened Powers
  import opened Polynomials

  function Constant(c: Elem): Poly {
    [c]
  }

  function PolyAdd(f: Poly, g: Poly): Poly {
    Trim(Sum(f, g))
  }

  function PolyNeg(f: Poly): Poly {
    Trim(Negated(f))
  }

  function PolySub(f: Poly, g: Poly): Poly {
    PolyAdd(f, PolyNeg(g))
  }

  function PolyScale(f: Poly, s: Elem): Poly {
    Trim(Scaled(f, s))
  }

  function PolyScaleVar(f: Poly, s: Elem): Poly {
    Trim(Dilated(f, s))
  }

  /** Product: the convolution, normalised. */
  function PolyMul(f: Poly, g: Poly): Poly
    requires |f| + |g| >= 1
  {
    Trim(Conv(f, g))
  }

  /** Every operation acts on values as its name says. */
  lemma EvalOps(f: Poly, g: Poly, s: Elem, x: Elem)
    ensures Eval(PolyAdd(f, g), x) == Add(Eval(f, x), Eval(g, x))
    ensures Eval(PolyNeg(f), x) == Neg(Eval(f, x))
    ensures Eval(PolySub(f, g), x) == Sub(Eval(f, x), Eval(g, x))
    ensures Eval(PolyScale(f, s), x) == Mul(Eval(f, x), s)
    ensures Eval(PolyScaleVar(f, s), x) == Eval(f, Mul(s, x))
  {
    hide Add, Mul, Sub, Neg, Eval, Trim;
    EvalTrim(Sum(f, g), x);
    EvalSum(f, g, x);
    EvalTrim(Negated(f), x);
    EvalNegated(f, x);
    EvalTrim(Negated(g), x);
    EvalNegated(g, x);
    EvalTrim(Sum(f, PolyNeg(g)), x);
    EvalSum(f, PolyNeg(g), x);
    SubIsAddNeg(Eval(f, x), Eval(g, x));
    EvalTrim(Scaled(f, s), x);
    EvalScaled(f, s, x);
    EvalTrim(Dilated(f, s), x);
    EvalDilated(f, s, x);
  }

  lemma EvalPolyMul(f: Poly, g: Poly, x: Elem)
    requires |f| + |g| >= 1
    ensures Eval(PolyMul(f, g), x) == Mul(Eval(f, x), Eval(g, x))
  {
    hide Add, Mul, Eval, Trim;
    EvalTrim(Conv(f, g), x);
    EvalConv(f, g, x);
  }

  lemma EvalConstant(c: Elem, x: Elem)
    ensures Eval(Constant(c), x) == c
  {
    hide Add, Mul;
    MulNeutral(x);
    AddNeutral(c);
  }

  /** X - r at x. */
  lemma EvalLinear(r: Elem, x: Elem)
    ensures Eval([Neg(r), ONE], x) == Sub(x, r)
  {
    hide Add, Mul;
    EvalConstant(ONE, x);
    assert [Neg(r), ONE][1..] == [ONE];
    MulNeutral(x);
    LinearLaws();
  }

  // ----- loops -----

  /** `from_coeffs`. */
  method FromCoeffs(coeffs: Poly) returns (c: Poly)
    ensures c == Trim(coeffs)
  {
    c := coeffs;
    while |c| > 1 && c[|c| - 1] == ZERO
      invariant Trim(c) == Trim(coeffs)
    {
      c := c[..|c| - 1];
    }
    if c == [] {
      c := c + [ZERO];
    }
  }

  /** `eval`: Horner's rule from the top coefficient. */
  method EvalAt(f: Poly, x: Elem) returns (acc: Elem)
    ensures acc == Eval(f, x)
  {
    hide Add, Mul;
    acc := ZERO;
    for i := |f| downto 0
      invariant acc == Eval(f[i..], x)
    {
      assert f[i..][1..] == f[i + 1..];
      MulCommutes(acc, x);
      AddCommutes(f[i], Mul(x, acc));
      acc := Add(Mul(acc, x), f[i]);
    }
    assert f[0..] == f;
  }

  function Values(f: Poly, xs: seq<Elem>): (vs: seq<Elem>)
    ensures |vs| == |xs|
    ensures forall i :: 0 <= i < |vs| ==> vs[i] == Eval(f, xs[i])
  {
    seq(|xs|, i requires 0 <= i < |xs| => Eval(f, xs[i]))
  }

  /** `eval_many`. */
  method EvalMany(f: Poly, xs: seq<Elem>) returns (vs: seq<Elem>)
    ensures vs == Values(f, xs)
  {
    hide Eval;
    vs := [];
    for i := 0 to |xs|
      invariant |vs| == i
      invariant forall j :: 0 <= j < i ==> vs[j] == Eval(f, xs[j])
    {
      var v := EvalAt(f, xs[i]);
      vs := vs + [v];
    }
  }

  /** `impl Add for Poly`: accumulate both operands into a zeroed list. */
  method AddPolys(f: Poly, g: Poly) returns (r: Poly)
    ensures r == PolyAdd(f, g)
  {
    hide Add, Trim;
    LinearLaws();
    var n := Max(|f|, |g|);
    var c: Poly := seq(n, _ => ZERO);
    for i := 0 to |f|
      invariant |c| == n
      invariant forall j :: 0 <= j < n ==> c[j] == if j < i then f[j] else ZERO
    {
      c := c[i := Add(c[i], f[i])];
    }
    for i := 0 to |g|
      invariant |c| == n
      invariant forall j :: 0 <= j < n ==> c[j] == if j < i then Add(Coeff(f, j), g[j]) else Coeff(f, j)
    {
      c := c[i := Add(c[i], g[i])];
    }
    assert c == Sum(f, g);
    r := FromCoeffs(c);
  }

  /** `scale_var`: f(s X), with the running power of s. */
  method ScaleVar(f: Poly, s: Elem) returns (r: Poly)
    ensures r == PolyScaleVar(f, s)
  {
    hide Mul, Trim, Pow;
    var pow := ONE;
    var c: Poly := [];
    PowUnfold(s, 0);
    for i := 0 to |f|
      invariant pow == Pow(s, i)
      invariant |c| == i
      invariant forall j :: 0 <= j < i ==> c[j] == Mul(f[j], Pow(s, j))
    {
      c := c + [Mul(f[i], pow)];
      PowUnfold(s, i);
      MulCommutes(s, pow);
      pow := Mul(pow, s);
    }
    assert c == Dilated(f, s);
    r := FromCoeffs(c);
  }
}
