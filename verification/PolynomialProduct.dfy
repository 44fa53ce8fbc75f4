/** `Poly::mul`: the product computed through three transforms is the schoolbook
    convolution, for all operands that are not both empty and whose product fits 2^32
    coefficients. */
module PolynomialProduct {
  import opened Goldilocks
  import opened Powers
  import opened RootsOfUnity
  import opened Polynomials
  import opened PolynomialOps
  import opened NumberTheoreticTransform
  import opened TransformInversion

  const MAX_TRANSFORM: nat := 0x1_0000_0000

  /** The exponent of `next_power_of_two`: the least k with n <= 2^k. */
  function CeilLog2(n: nat): (k: nat)
    requires n >= 1
    ensures n <= Pow2(k)
    ensures k > 0 ==> Pow2(k - 1) < n
  {
    if n == 1 then 0 else 1 + CeilLog2((n + 1) / 2)
  }

  lemma CeilLog2Bound(n: nat)
    requires 1 <= n <= MAX_TRANSFORM
    ensures CeilLog2(n) <= 32
  {
    hide Pow2;
    Pow2Of32();
    var k := CeilLog2(n);
    if k > 33 {
      Pow2Monotonic(32, k - 1);
    }
  }

  /** `Vec::resize`: pad with zeros or cut. */
  function Resized(f: Poly, n: nat): (r: Poly)
    ensures |r| == n
    ensures forall i :: 0 <= i < n ==> r[i] == Coeff(f, i)
  {
    seq(n, i requires 0 <= i => Coeff(f, i))
  }

  lemma EvalResized(f: Poly, n: nat, x: Elem)
    requires |f| <= n || IsZero(f)
    ensures Eval(Resized(f, n), x) == Eval(f, x)
  {
    EvalSameCoeffs(Resized(f, n), f, x);
  }

  function Pointwise(a: seq<Elem>, b: seq<Elem>): (c: seq<Elem>)
    requires |a| == |b|
    ensures |c| == |a|
    ensures forall i :: 0 <= i < |c| ==> c[i] == Mul(a[i], b[i])
  {
    seq(|a|, i requires 0 <= i < |a| => Mul(a[i], b[i]))
  }

  /** Values of the factors multiply to values of the convolution.  When one operand is
      empty the other may be cut by the resize, but then everything is zero. */
  lemma ResizedValues(f: Poly, g: Poly, n: nat, x: Elem)
    requires |f| + |g| >= 1 && |f| + |g| - 1 <= n
    ensures Mul(Eval(Resized(f, n), x), Eval(Resized(g, n), x)) == Eval(Resized(Conv(f, g), n), x)
  {
    hide Add, Mul, Eval, Resized, Conv;
    EvalResized(Conv(f, g), n, x);
    EvalConv(f, g, x);
    if f == [] || g == [] {
      var empty, other := if f == [] then f else g, if f == [] then g else f;
      EvalResized(empty, n, x);
      EvalOfZero(empty, x);
      MulNeutral(Eval(other, x));
      MulNeutral(Eval(Resized(other, n), x));
    } else {
      EvalResized(f, n, x);
      EvalResized(g, n, x);
    }
  }

  /** The convolution theorem. */
  lemma ConvolutionTheorem(f: Poly, g: Poly, k: nat)
    requires k <= 32 && |f| + |g| >= 1 && |f| + |g| - 1 <= Pow2(k)
    ensures InverseTransform(
              Pointwise(ForwardTransform(Resized(f, Pow2(k)), k), ForwardTransform(Resized(g, Pow2(k)), k)), k)
            == Resized(Conv(f, g), Pow2(k))
  {
    hide Mul, Eval, Pow, RootOfUnity, Pow2, InverseTransform;
    var n := Pow2(k);
    var h := Resized(Conv(f, g), n);
    var product := Pointwise(ForwardTransform(Resized(f, n), k), ForwardTransform(Resized(g, n), k));
    var target := ForwardTransform(h, k);
    forall j | 0 <= j < n
      ensures product[j] == target[j]
    {
      ResizedValues(f, g, n, Pow(RootOfUnity(k), j));
    }
    assert product == target;
    InverseUndoesForward(h, k);
  }

  /** The case `out_len <= 1` of `mul`. */
  lemma ShortProduct(f: Poly, g: Poly)
    requires 1 <= |f| + |g| <= 2
    ensures Constant(Mul(Coeff(f, 0), Coeff(g, 0))) == PolyMul(f, g)
  {
    hide Add, Mul;
    MulNeutral(Coeff(f, 0));
    MulNeutral(Coeff(g, 0));
    AddNeutral(Mul(Coeff(f, 0), Coeff(g, 0)));
    if |f| + |g| == 2 {
      assert Conv(f, g) == [ConvCoeff(f, g, 0)];
      AddNeutral(ZERO);
    } else {
      assert Conv(f, g) == [];
    }
  }

  /** `Poly::mul`. */
  method Multiply(f: Poly, g: Poly) returns (r: Poly)
    requires |f| + |g| >= 1 && |f| + |g| - 1 <= MAX_TRANSFORM
    ensures r == PolyMul(f, g)
  {
    hide Mul, Trim, Conv, Pow2, ForwardTransform, InverseTransform;
    var outLen := |f| + |g| - 1;
    if outLen <= 1 {
      ShortProduct(f, g);
      return Constant(Mul(Coeff(f, 0), Coeff(g, 0)));
    }
    var log2 := CeilLog2(outLen);
    var n := Pow2(log2);
    CeilLog2Bound(outLen);
    var fa := ArrayOf(Resized(f, n));
    var fb := ArrayOf(Resized(g, n));
    Ntt(fa, log2, false);
    Ntt(fb, log2, false);
    ghost var a, b := fa[..], fb[..];
    for i := 0 to n
      invariant fb[..] == b
      invariant forall j :: 0 <= j < n ==> fa[j] == if j < i then Mul(a[j], b[j]) else a[j]
    {
      fa[i] := Mul(fa[i], fb[i]);
    }
    assert fa[..] == Pointwise(a, b);
    Ntt(fa, log2, true);
    ConvolutionTheorem(f, g, log2);
    assert fa[..outLen] == Conv(f, g);
    r := FromCoeffs(fa[..outLen]);
  }

  method ArrayOf(s: seq<Elem>) returns (a: array<Elem>)
    ensures fresh(a) && a[..] == s
  {
    a := new Elem[|s|](i requires 0 <= i < |s| => s[i]);
  }
}
