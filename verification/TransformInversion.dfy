/** The inverse transform undoes the forward transform, and conversely: orthogonality of
    the powers of a root of unity. */
module TransformInversion {
  import opened Goldilocks
  import opened Powers
  import opened Primality
  import opened RootsOfUnity
  import opened Polynomials
  import opened PolynomialOps
  import opened NumberTheoreticTransform

  function Ones(n: nat): (f: Poly)
    ensures |f| == n
    ensures forall i :: 0 <= i < n ==> f[i] == ONE
  {
    seq(n, _ => ONE)
  }

  /** r G + 1 = G + r^n for G = 1 + r + ... + r^(n-1). */
  lemma {:induction false} GeometricSum(r: Elem, n: nat)
    ensures Add(Mul(r, Eval(Ones(n), r)), ONE) == Add(Eval(Ones(n), r), Pow(r, n))
  {
    hide Add, Mul;
    if n == 0 {
      MulNeutral(r);
    } else {
      GeometricSum(r, n - 1);
      assert Ones(n)[1..] == Ones(n - 1);
      GeometricStep(r, Eval(Ones(n - 1), r), Pow(r, n - 1));
    }
  }

  lemma GeometricStep(r: Elem, g: Elem, p: Elem)
    requires Add(Mul(r, g), ONE) == Add(g, p)
    ensures var g' := Add(ONE, Mul(r, g)); Add(Mul(r, g'), ONE) == Add(g', Mul(r, p))
  {
    hide Add, Mul;
    AddCommutes(ONE, Mul(r, g));
    MulDistributes(r, g, p);
    AddCommutes(Mul(r, Add(g, p)), ONE);
    AddAssociates(ONE, Mul(r, g), Mul(r, p));
  }

  /** The powers of a root other than 1 sum to zero. */
  lemma RootSumVanishes(r: Elem, n: nat)
    requires Pow(r, n) == ONE && r != ONE
    ensures Eval(Ones(n), r) == ZERO
  {
    hide Add, Mul, Pow, Eval;
    var g := Eval(Ones(n), r);
    GeometricSum(r, n);
    assert Mul(r, g) == g by { LinearLaws(); }
    MulSub(g, r, ONE);
    MulCommutes(g, r);
    MulNeutral(g);
    MulCommutes(g, Sub(r, ONE));
    SubZero(r, ONE);
    NoZeroDivisors(Sub(r, ONE), g);
  }

  lemma {:induction false} OnesAtOne(n: nat)
    ensures Eval(Ones(n), ONE) == n % MODULUS
  {
    hide Add, Mul;
    if n > 0 {
      OnesAtOne(n - 1);
      assert Ones(n)[1..] == Ones(n - 1);
      MulNeutral(Eval(Ones(n - 1), ONE));
      AddIsModular(ONE, (n - 1) % MODULUS);
      ModAdd(1, n - 1);
    }
  }

  /** Row j of the inverse transform against column m of the forward transform. */
  lemma Orthogonality(w: Elem, wi: Elem, k: nat, m: nat, j: nat)
    requires PrimitiveRoot(w, k) && Mul(w, wi) == ONE && m < Pow2(k) && j < Pow2(k)
    ensures Eval(PowersOf(Pow(w, m), Pow2(k)), Pow(wi, j)) == if m == j then LengthElem(k) else ZERO
  {
    hide Add, Mul, Pow, Eval, Pow2, PrimitiveRoot;
    var n, u, y := Pow2(k), Pow(w, m), Pow(wi, j);
    var r := Mul(u, y);
    assert PowersOf(u, n) == Dilated(Ones(n), u) by {
      MulLaws();
    }
    EvalDilated(Ones(n), u, y);
    InverseRootProduct(w, wi, k, m, j);
    if m == j {
      OnesAtOne(n);
    } else {
      RootSumVanishes(r, n);
    }
  }

  lemma InverseRootProduct(w: Elem, wi: Elem, k: nat, m: nat, j: nat)
    requires PrimitiveRoot(w, k) && Mul(w, wi) == ONE && m < Pow2(k) && j < Pow2(k)
    ensures Pow(Mul(Pow(w, m), Pow(wi, j)), Pow2(k)) == ONE
    ensures Mul(Pow(w, m), Pow(wi, j)) == ONE <==> m == j
  {
    hide Mul, Pow, Pow2, PrimitiveRoot;
    var n, u, y := Pow2(k), Pow(w, m), Pow(wi, j);
    var r := Mul(u, y);
    RootToFullOrder(w, k);
    PowOfProduct(w, wi, n);
    OnePow(n);
    MulNeutral(Pow(wi, n));
    PowOfProduct(u, y, n);
    SwapPowers(w, m, n);
    SwapPowers(wi, j, n);
    OnePow(m);
    OnePow(j);
    MulNeutral(ONE);
    PowOfProduct(w, wi, j);
    if m != j {
      DomainDistinct(w, k, m, j);
      var z := Pow(w, j);
      MulAssociates(u, y, z);
      MulCommutes(y, z);
      MulNeutral(u);
      MulNeutral(z);
    }
  }

  lemma SwapPowers(w: Elem, m: nat, n: nat)
    ensures Pow(Pow(w, m), n) == Pow(Pow(w, n), m)
  {
    hide Mul, Pow;
    PowMul(w, m, n);
    PowMul(w, n, m);
    assert m * n == n * m;
  }

  /** Adding one coefficient adds one column to the transform. */
  lemma DftAddsColumn(f: Poly, w: Elem, n: nat, m: nat)
    requires m < |f|
    ensures Dft(f[..m + 1], w, n) == Sum(Dft(f[..m], w, n), Scaled(PowersOf(Pow(w, m), n), f[m]))
  {
    hide Add, Mul, Pow, Eval;
    var l, r := Dft(f[..m + 1], w, n), Sum(Dft(f[..m], w, n), Scaled(PowersOf(Pow(w, m), n), f[m]));
    forall j | 0 <= j < n
      ensures l[j] == r[j]
    {
      var x := Pow(w, j);
      assert f[..m + 1] == f[..m] + [f[m]];
      EvalAppend(f[..m], [f[m]], x);
      EvalConstant(f[m], x);
      SwapPowers(w, j, m);
    }
  }

  /** Evaluating the transform of a prefix at an inverse power picks out one coefficient. */
  lemma {:induction false} TransformPicks(f: Poly, w: Elem, wi: Elem, k: nat, m: nat, j: nat)
    requires PrimitiveRoot(w, k) && Mul(w, wi) == ONE
    requires m <= |f| == Pow2(k) && j < Pow2(k)
    ensures Eval(Dft(f[..m], w, Pow2(k)), Pow(wi, j)) ==
            if j < m then Mul(f[j], LengthElem(k)) else ZERO
    decreases m
  {
    hide Add, Mul, Pow, PrimitiveRoot, Dft, PowersOf, Pow2, LengthElem;
    var n, y := Pow2(k), Pow(wi, j);
    if m == 0 {
      var d := Dft(f[..0], w, n);
      assert IsZero(d);
      EvalOfZero(d, y);
    } else {
      hide Eval;
      var before, column := Dft(f[..m - 1], w, n), PowersOf(Pow(w, m - 1), n);
      TransformPicks(f, w, wi, k, m - 1, j);
      DftAddsColumn(f, w, n, m - 1);
      EvalSum(before, Scaled(column, f[m - 1]), y);
      EvalScaled(column, f[m - 1], y);
      Orthogonality(w, wi, k, m - 1, j);
      MulNeutral(f[m - 1]);
      MulCommutes(LengthElem(k), f[m - 1]);
      AddNeutral(Mul(f[m - 1], LengthElem(k)));
      if j < m - 1 {
        AddNeutral(Mul(f[j], LengthElem(k)));
      }
      AddNeutral(ZERO);
    }
  }

  lemma LengthIsUnit(k: nat)
    requires k <= 32
    ensures Mul(LengthElem(k), Inv(LengthElem(k))) == ONE
  {
    hide Mul, Pow2, Inv;
    Pow2Of32();
    if k < 32 {
      Pow2Monotonic(k, 32);
    }
    assert 1 <= Pow2(k) < MODULUS;
    InverseIsExact(LengthElem(k));
  }

  /** The transform at one root followed by the scaled transform at its inverse is the identity. */
  lemma TransformPairIsIdentity(f: Poly, w: Elem, wi: Elem, k: nat)
    requires k <= 32 && PrimitiveRoot(w, k) && Mul(w, wi) == ONE && |f| == Pow2(k)
    ensures Scaled(Dft(Dft(f, w, Pow2(k)), wi, Pow2(k)), Inv(LengthElem(k))) == f
  {
    hide Add, Mul, Pow, Eval, PrimitiveRoot, Pow2, LengthElem, Inv;
    var n, len := Pow2(k), LengthElem(k);
    var r := Scaled(Dft(Dft(f, w, n), wi, n), Inv(len));
    forall j | 0 <= j < n
      ensures r[j] == f[j]
    {
      assert f[..n] == f;
      TransformPicks(f, w, wi, k, n, j);
      LengthIsUnit(k);
      MulAssociates(f[j], len, Inv(len));
      MulNeutral(f[j]);
    }
  }

  /** `ntt` with `inv = true` undoes `ntt` with `inv = false`. */
  lemma InverseUndoesForward(f: Poly, k: nat)
    requires k <= 32 && |f| == Pow2(k)
    ensures InverseTransform(ForwardTransform(f, k), k) == f
  {
    hide RootOfUnity, Inv, Dft, PrimitiveRoot, Pow2, LengthElem, Mul, Scaled;
    RootIsPrimitive(k);
    RootTimesInverse(k);
    TransformPairIsIdentity(f, RootOfUnity(k), Inv(RootOfUnity(k)), k);
  }

  /** `ntt` with `inv = false` undoes `ntt` with `inv = true`. */
  lemma ForwardUndoesInverse(v: seq<Elem>, k: nat)
    requires k <= 32 && |v| == Pow2(k)
    ensures ForwardTransform(InverseTransform(v, k), k) == v
  {
    hide RootOfUnity, Inv, Eval, PrimitiveRoot, Pow2, LengthElem, Mul, Pow;
    var n, w, c := Pow2(k), RootOfUnity(k), Inv(LengthElem(k));
    var wi := Inv(w);
    LayerRootLaws(k, true);
    RootTimesInverse(k);
    MulCommutes(w, wi);
    TransformPairIsIdentity(v, wi, w, k);
    var inner := Dft(v, wi, n);
    forall j | 0 <= j < n
      ensures Dft(Scaled(inner, c), w, n)[j] == v[j]
    {
      EvalScaled(inner, c, Pow(w, j));
      assert Scaled(Dft(inner, w, n), c)[j] == v[j];
    }
  }
}
