/** `Fp::pow`, `Fp::inv`, `Fp::root_of_unity` and the root-of-unity domains. */
module RootsOfUnity {
  import opened Goldilocks
  import opened Powers
  import opened Primality

  // ----- square-and-multiply -----

  /** The shift `x >> i`. */
  function Shr(x: nat, i: nat): nat {
    if i == 0 then x else Shr(x, i - 1) / 2
  }

  lemma {:induction false} ShrOfMultiple(m: nat, r: nat, i: nat)
    requires r < Pow2(i)
    ensures Shr(m * Pow2(i) + r, i) == m
    decreases i
  {
    if i > 0 {
      var h := Pow2(i - 1);
      assert Pow2(i) == 2 * h;
      hide Pow2;
      SplitTopBit(m, r, h);
      if r < h {
        ShrOfMultiple(2 * m, r, i - 1);
      } else {
        ShrOfMultiple(2 * m + 1, r - h, i - 1);
      }
    }
  }

  lemma SplitTopBit(m: nat, r: nat, h: nat)
    ensures m * (2 * h) + r == (2 * m) * h + r
    ensures r >= h ==> m * (2 * h) + r == (2 * m + 1) * h + (r - h)
  {
  }

  /** The loop body shared by `pow` and `inv`: square, then multiply if bit i is set. */
  lemma SquareAndMultiply(base: Elem, acc: Elem, exp: nat, i: nat)
    requires acc == Pow(base, Shr(exp, i + 1))
    ensures Pow(base, Shr(exp, i)) ==
            if Shr(exp, i) % 2 == 1 then Mul(Mul(acc, acc), base) else Mul(acc, acc)
  {
    hide Mul, Pow;
    var e := Shr(exp, i + 1);
    PowAdd(base, e, e);
    PowAdd(base, 2 * e, 1);
    PowOne(base);
  }

  lemma ShrOfWord(x: U64)
    ensures Shr(x, 64) == 0
  {
    Pow2Of32();
    Pow2Add(32, 32);
    hide Shr, Pow2;
    ShrOfMultiple(0, x, 64);
  }

  /** `Fp::pow`, on any word. */
  method Power(self: U64, exp: U64) returns (acc: Elem)
    ensures acc == Pow(New(self), exp)
    ensures self < MODULUS ==> acc == Pow(self, exp)
  {
    hide Mul, MulWords, Pow;
    acc := ONE;
    ShrOfWord(exp);
    PowUnfold(New(self), 0);
    for i := 64 downto 0
      invariant acc == Pow(New(self), Shr(exp, i))
    {
      SquareAndMultiply(New(self), acc, exp, i);
      acc := Mul(acc, acc);
      if Shr(exp, i) % 2 == 1 {
        MulOfResidues(acc, self);
        NewOfElem(acc);
        acc := MulWords(acc, self);
      }
    }
    if self < MODULUS {
      NewOfElem(self);
    }
  }

  /** `Fp::inv`, on any word. */
  method Inverse(a: U64) returns (acc: Elem)
    ensures acc == Inv(New(a))
    ensures New(a) != ZERO ==> Mul(New(a), acc) == ONE
  {
    hide Mul, Pow;
    var base := New(a);
    var exp := MODULUS - 2;
    InverseIsExact(base);
    acc := ONE;
    ShrOfWord(exp);
    PowUnfold(base, 0);
    for i := 64 downto 0
      invariant acc == Pow(base, Shr(exp, i))
    {
      SquareAndMultiply(base, acc, exp, i);
      acc := Mul(acc, acc);
      if Shr(exp, i) % 2 == 1 {
        acc := Mul(acc, base);
      }
    }
  }

  // ----- roots of unity -----

  /** `Fp::root_of_unity`: g^((p-1) >> k). */
  function RootOfUnity(k: nat): Elem {
    Pow(GENERATOR, Shr(MODULUS - 1, k))
  }

  /** The root of order 2^k is the generator 7 to the power (p - 1) / 2^k. */
  lemma RootIsGeneratorPower(k: nat)
    requires k <= 32
    ensures Pow2(k) * ((MODULUS - 1) / Pow2(k)) == MODULUS - 1
    ensures RootOfUnity(k) == Pow(7, (MODULUS - 1) / Pow2(k))
  {
    hide Pow, Pow2, Shr;
    var m, n := Pow2(k), Pow2(32 - k);
    Pow2Of32();
    Pow2Add(k, 32 - k);
    var q := 0xFFFF_FFFF * n;
    assert q * m == MODULUS - 1 by {
      assert (0xFFFF_FFFF * n) * m == 0xFFFF_FFFF * (m * n);
    }
    ShrOfMultiple(q, 0, k);
    ModUnique(MODULUS - 1, q, 0, m);
  }

  lemma RootFromRoot32(k: nat)
    requires k <= 32
    ensures RootOfUnity(k) == Pow(ROOT32, Pow2(32 - k))
  {
    hide Pow, Pow2, Shr;
    var m, n := Pow2(k), Pow2(32 - k);
    Pow2Of32();
    Pow2Add(k, 32 - k);
    assert (0xFFFF_FFFF * n) * m + 0 == MODULUS - 1 by {
      assert (0xFFFF_FFFF * n) * m == 0xFFFF_FFFF * (m * n);
    }
    ShrOfMultiple(0xFFFF_FFFF * n, 0, k);
    GeneratorToRoot32();
    PowMul(GENERATOR, 0xFFFF_FFFF, n);
  }

  /** For every k <= 32 the element is a primitive 2^k-th root: its half power is -1. */
  lemma RootIsPrimitive(k: nat)
    requires k <= 32
    ensures PrimitiveRoot(RootOfUnity(k), k)
  {
    hide Pow, RootOfUnity;
    RootFromRoot32(k);
    Root32IsPrimitive();
    if k == 0 {
      RootToFullOrder(ROOT32, 32);
    } else {
      PowMul(ROOT32, Pow2(32 - k), Pow2(k - 1));
      Pow2Add(32 - k, k - 1);
    }
  }

  /** Squaring steps down one level. */
  lemma RootSquared(k: nat)
    requires 1 <= k <= 32
    ensures Mul(RootOfUnity(k), RootOfUnity(k)) == RootOfUnity(k - 1)
  {
    hide Mul, Pow, RootOfUnity;
    RootFromRoot32(k);
    RootFromRoot32(k - 1);
    PowAdd(ROOT32, Pow2(32 - k), Pow2(32 - k));
    assert Pow2(33 - k) == 2 * Pow2(32 - k);
  }

  /** The order is exactly 2^k: a power is 1 iff the exponent is a multiple of 2^k. */
  lemma RootOrderExact(w: Elem, k: nat, e: nat)
    requires PrimitiveRoot(w, k)
    ensures Pow(w, e) == Pow(w, e % Pow2(k))
    ensures Pow(w, e) == ONE <==> e % Pow2(k) == 0
  {
    hide Mul, Pow, Pow2, PrimitiveRoot;
    var n := Pow2(k);
    var q, r := e / n, e % n;
    assert e == n * q + r;
    PowAdd(w, n * q, r);
    PowMul(w, n, q);
    RootToFullOrder(w, k);
    OnePow(q);
    MulNeutral(Pow(w, r));
    PowUnfold(w, 0);
    if r > 0 {
      assert Divisor(MODULUS);
      NoSmallOrder(w, k, r, MODULUS);
    }
  }

  /** The points of the domain are pairwise different. */
  lemma DomainDistinct(w: Elem, k: nat, i: nat, j: nat)
    requires PrimitiveRoot(w, k) && i < Pow2(k) && j < Pow2(k) && i != j
    ensures Pow(w, i) != Pow(w, j)
  {
    hide Mul, Pow, Pow2, PrimitiveRoot;
    assert Divisor(MODULUS);
    if i < j {
      PowersDiffer(w, k, i, j, MODULUS);
    } else {
      PowersDiffer(w, k, j, i, MODULUS);
    }
  }

  // ----- domains -----

  /** The first n powers of w. */
  function PowersOf(w: Elem, n: nat): (d: seq<Elem>)
    ensures |d| == n
    ensures forall i :: 0 <= i < n ==> d[i] == Pow(w, i)
  {
    seq(n, i requires 0 <= i < n => Pow(w, i))
  }

  /** The 2^k-th roots of unity in the order of their exponents. */
  function DomainOf(k: nat): (d: seq<Elem>)
    ensures |d| == Pow2(k)
  {
    PowersOf(RootOfUnity(k), Pow2(k))
  }

  lemma DomainElement(k: nat, i: nat)
    requires i < Pow2(k)
    ensures Pow(RootOfUnity(k), i) in DomainOf(k)
  {
    hide Pow, RootOfUnity;
    assert DomainOf(k)[i] == Pow(RootOfUnity(k), i);
  }

  /** `domain`: the list is built by repeated multiplication. */
  method Domain(k: nat) returns (pts: seq<Elem>)
    requires k <= 32
    ensures pts == DomainOf(k)
  {
    hide Mul, Pow;
    var w := RootOfUnity(k);
    pts := [];
    var x := ONE;
    PowUnfold(w, 0);
    for i := 0 to Pow2(k)
      invariant x == Pow(w, i)
      invariant |pts| == i
      invariant forall j :: 0 <= j < i ==> pts[j] == Pow(w, j)
    {
      pts := pts + [x];
      PowAdd(w, i, 1);
      PowOne(w);
      x := Mul(x, w);
    }
  }
}
