/** p is prime, and Fermat's little theorem holds for it.

    Primality: w = 7^(2^32 - 1) has w^(2^31) = -1, so modulo any divisor d >= 2 of p its
    2^32 powers are pairwise different; hence d >= 2^32, and two such divisors already
    exceed p.  Fermat: multiplication by a unit permutes the nonzero residues. */
module Primality {
  import opened Goldilocks
  import opened Powers

  const MINUS_ONE: Elem := MODULUS - 1

  /** w is a primitive 2^k-th root of unity: its 2^(k-1)-th power is -1. */
  ghost predicate PrimitiveRoot(w: Elem, k: nat) {
    if k == 0 then w == ONE else Pow(w, Pow2(k - 1)) == MINUS_ONE
  }

  lemma MinusOneTimes(v: Elem)
    ensures Mul(MINUS_ONE, v) == Neg(v)
  {
    hide Mul;
    MulNeg(v, ONE);
    MulNeutral(v);
    MulCommutes(MINUS_ONE, v);
    assert Neg(ONE) == MINUS_ONE;
  }

  lemma MinusOneSquared()
    ensures Mul(MINUS_ONE, MINUS_ONE) == ONE
  {
    hide Mul;
    MulIsModular(MINUS_ONE, MINUS_ONE);
    assert (0xFFFF_FFFF_0000_0000 * 0xFFFF_FFFF_0000_0000) % MODULUS == 1;
  }

  lemma RootToFullOrder(w: Elem, k: nat)
    requires PrimitiveRoot(w, k)
    ensures Pow(w, Pow2(k)) == ONE
  {
    hide Mul;
    if k == 0 {
      PowOne(w);
    } else {
      PowAdd(w, Pow2(k - 1), Pow2(k - 1));
      MinusOneSquared();
    }
  }

  // ----- congruence modulo a divisor of p -----

  ghost predicate Divisor(d: nat) {
    d >= 2 && MODULUS % d == 0
  }

  function Residue(x: nat, d: nat): nat
    requires d >= 2
  {
    x % d
  }

  lemma ModOfMod(x: nat, d: nat)
    requires Divisor(d)
    ensures (x % MODULUS) % d == x % d
  {
    var c, q := MODULUS / d, x / MODULUS;
    assert x == x % MODULUS + d * (c * q) by {
      assert x == x % MODULUS + MODULUS * q;
      assert MODULUS == d * c;
      assert (d * c) * q == d * (c * q);
    }
    ModPlusMultiple(x % MODULUS, c * q, d);
  }

  lemma {:induction false} ModPlusMultiple(r: nat, m: nat, d: nat)
    requires d >= 1
    ensures (r + d * m) % d == r % d
  {
    var q := r / d;
    assert r + d * m == d * (q + m) + r % d;
    ModUnique(r + d * m, q + m, r % d, d);
  }

  lemma ModUnique(x: int, q: int, r: int, d: int)
    requires 0 <= r < d && x == d * q + r
    ensures x % d == r
    ensures x / d == q
  {
    var q', r' := x / d, x % d;
    assert x == d * q' + r';
    assert d * (q - q') == d * q - d * q';
    assert d * (q' - q) == d * q' - d * q;
    if q > q' {
      MulMonotonic(d, d, 1, q - q');
    } else if q < q' {
      MulMonotonic(d, d, 1, q' - q);
    }
  }

  lemma ExpandProduct(d: nat, q: nat, r: nat, q': nat, r': nat)
    ensures (d * q + r) * (d * q' + r') == r * r' + d * (q * (d * q' + r') + r * q')
  {
    var b := d * q' + r';
    assert (d * q + r) * b == (d * q) * b + r * b;
    assert (d * q) * b == d * (q * b);
    assert r * b == r * (d * q') + r * r';
    assert r * (d * q') == d * (r * q');
    assert d * (q * b + r * q') == d * (q * b) + d * (r * q');
  }

  lemma MulModNat(a: nat, b: nat, d: nat)
    requires d >= 1
    ensures (a * b) % d == ((a % d) * (b % d)) % d
  {
    var q, r, q', r' := a / d, a % d, b / d, b % d;
    ExpandProduct(d, q, r, q', r');
    assert a == d * q + r && b == d * q' + r';
    ModPlusMultiple(r * r', q * b + r * q', d);
  }

  lemma MulModDivisor(a: Elem, b: Elem, d: nat)
    requires Divisor(d)
    ensures Mul(a, b) % d == ((a % d) * (b % d)) % d
  {
    hide Mul;
    MulIsModular(a, b);
    ModOfMod(a * b, d);
    MulModNat(a, b, d);
  }

  lemma MulModCongruent(a: Elem, a': Elem, b: Elem, d: nat)
    requires Divisor(d)
    requires Residue(a, d) == Residue(a', d)
    ensures Residue(Mul(a, b), d) == Residue(Mul(a', b), d)
  {
    hide Mul;
    MulModDivisor(a, b, d);
    MulModDivisor(a', b, d);
  }

  lemma {:induction false} PowModDivisor(a: Elem, e: nat, d: nat)
    requires Divisor(d) && a % d == 1
    ensures Pow(a, e) % d == 1
  {
    hide Mul;
    if e == 0 {
      OneModDivisor(d);
    } else {
      PowModDivisor(a, e - 1, d);
      hide Divisor, Pow;
      PowUnfold(a, e - 1);
      OnesMultiply(a, Pow(a, e - 1), d);
    }
  }

  lemma OneModDivisor(d: nat)
    requires Divisor(d)
    ensures ONE % d == 1
  {
  }

  lemma OnesMultiply(a: Elem, b: Elem, d: nat)
    requires Divisor(d) && a % d == 1 && b % d == 1
    ensures Mul(a, b) % d == 1
  {
    hide Mul;
    MulModDivisor(a, b, d);
    OneModDivisor(d);
  }

  lemma {:induction false} MinusOneOddPow(e: nat)
    requires e % 2 == 1
    ensures Pow(MINUS_ONE, e) == MINUS_ONE
  {
    hide Mul;
    if e == 1 {
      PowOne(MINUS_ONE);
    } else {
      MinusOneOddPow(e - 2);
      PowAdd(MINUS_ONE, 2, e - 2);
      PowOne(MINUS_ONE);
      MinusOneSquared();
      MulNeutral(MINUS_ONE);
    }
  }

  /** Modulo any divisor d >= 2 of p, a primitive 2^k-th root has no power congruent to 1
      before the 2^k-th. */
  lemma {:induction false} NoSmallOrder(w: Elem, k: nat, e: nat, d: nat)
    requires PrimitiveRoot(w, k) && 0 < e < Pow2(k)
    requires Divisor(d)
    ensures Residue(Pow(w, e), d) != Residue(ONE, d)
    decreases k
  {
    hide Mul;
    if e % 2 == 0 {
      // w^2 is a primitive 2^(k-1)-th root.
      var v := Mul(w, w);
      PowOne(w);
      PowMul(w, 2, e / 2);
      assert k >= 2;
      PowMul(w, 2, Pow2(k - 2));
      NoSmallOrder(v, k - 1, e / 2, d);
    } else if Pow(w, e) % d == 1 {
      // Raising to 2^(k-1) gives 1 on one side and (-1)^e = -1 on the other.
      var h := Pow2(k - 1);
      PowModDivisor(Pow(w, e), h, d);
      PowMul(w, e, h);
      PowMul(w, h, e);
      assert e * h == h * e;
      MinusOneOddPow(e);
      assert MINUS_ONE % d == 1;
      MinusOneIsNotOne(d);
    }
  }

  lemma MinusOneIsNotOne(d: nat)
    requires Divisor(d)
    ensures MINUS_ONE % d != 1
  {
    var c := MODULUS / d;
    assert MODULUS == d * c;
    assert d * (c - 1) == d * c - d;
    ModUnique(MINUS_ONE, c - 1, d - 1, d);
    assert MODULUS % 2 == 1;
  }

  // ----- pigeonhole -----

  ghost function Interval(hi: nat): (s: set<int>)
    ensures forall i :: i in s <==> 0 <= i < hi
    ensures |s| == hi
  {
    if hi == 0 then {} else Interval(hi - 1) + {hi - 1}
  }

  lemma SubsetSize<T>(a: set<T>, b: set<T>)
    requires a <= b
    ensures |a| <= |b|
    ensures |a| == |b| ==> a == b
  {
    assert b == a + (b - a);
    if a != b {
      assert b - a != {};
    }
  }

  ghost function PowersMod(w: Elem, n: nat, d: nat): (s: set<int>)
    requires d >= 2
    ensures forall x :: x in s ==> 0 <= x < d
  {
    if n == 0 then {} else PowersMod(w, n - 1, d) + {Residue(Pow(w, n - 1), d)}
  }

  lemma {:induction false} PowersModMember(w: Elem, n: nat, d: nat, x: int) returns (i: nat)
    requires d >= 2 && x in PowersMod(w, n, d)
    ensures i < n && Residue(Pow(w, i), d) == x
  {
    hide Mul, Pow;
    if x == Residue(Pow(w, n - 1), d) {
      i := n - 1;
    } else {
      i := PowersModMember(w, n - 1, d, x);
    }
  }

  lemma {:induction false} PowersModSize(w: Elem, k: nat, n: nat, d: nat)
    requires PrimitiveRoot(w, k) && n <= Pow2(k)
    requires Divisor(d)
    ensures |PowersMod(w, n, d)| == n
  {
    hide Mul, Pow;
    if n > 0 {
      PowersModSize(w, k, n - 1, d);
      if Residue(Pow(w, n - 1), d) in PowersMod(w, n - 1, d) {
        var i := PowersModMember(w, n - 1, d, Residue(Pow(w, n - 1), d));
        PowersDiffer(w, k, i, n - 1, d);
      }
    }
  }

  lemma PowersRatio(w: Elem, k: nat, i: nat, j: nat)
    requires PrimitiveRoot(w, k) && i < j < Pow2(k)
    ensures Mul(Pow(w, i), Pow(w, Pow2(k) - i)) == ONE
    ensures Mul(Pow(w, j), Pow(w, Pow2(k) - i)) == Pow(w, j - i)
  {
    hide Mul, Pow, PrimitiveRoot, Pow2;
    var c := Pow2(k) - i;
    RootToFullOrder(w, k);
    PowAdd(w, i, c);
    PowAdd(w, j, c);
    PowAdd(w, Pow2(k), j - i);
    assert j + c == Pow2(k) + (j - i);
    MulNeutral(Pow(w, j - i));
  }

  lemma PowersDiffer(w: Elem, k: nat, i: nat, j: nat, d: nat)
    requires PrimitiveRoot(w, k) && i < j < Pow2(k)
    requires d >= 2 && Divisor(d)
    ensures Residue(Pow(w, i), d) != Residue(Pow(w, j), d)
  {
    hide Mul, Pow, PrimitiveRoot, Divisor, Pow2, Residue;
    if Residue(Pow(w, i), d) == Residue(Pow(w, j), d) {
      PowersRatio(w, k, i, j);
      MulModCongruent(Pow(w, i), Pow(w, j), Pow(w, Pow2(k) - i), d);
      NoSmallOrder(w, k, j - i, d);
    }
  }

  lemma Root32IsPrimitive()
    ensures PrimitiveRoot(ROOT32, 32)
  {
    GeneratorHalfOrder();
    GeneratorToRoot32();
    Pow2Of32();
    hide Mul, Pow;
    PowMul(GENERATOR, 0xFFFF_FFFF, 0x8000_0000);
  }

  lemma DivisorsAreLarge(d: nat)
    requires Divisor(d)
    ensures d >= 0x1_0000_0000
  {
    Root32IsPrimitive();
    Pow2Of32();
    hide Mul, Pow, PrimitiveRoot, Pow2;
    var s := PowersMod(ROOT32, 0x1_0000_0000, d);
    PowersModSize(ROOT32, 32, 0x1_0000_0000, d);
    assert s <= Interval(d);
    SubsetSize(s, Interval(d));
  }

  /** The modulus is prime. */
  lemma ModulusIsPrime(d: nat)
    requires 2 <= d < MODULUS
    ensures MODULUS % d != 0
  {
    if MODULUS % d == 0 {
      var c := MODULUS / d;
      assert MODULUS == d * c;
      assert c >= 2;
      assert MODULUS % c == 0 by {
        assert MODULUS == c * d + 0;
        ModUnique(MODULUS, d, 0, c);
      }
      DivisorsAreLarge(d);
      DivisorsAreLarge(c);
      MulMonotonic(0x1_0000_0000, d, 0x1_0000_0000, c);
    }
  }

  // ----- no zero divisors -----

  /** Euclid's lemma for p: descend from a to p mod a. */
  lemma {:induction false} NoZeroDivisors(a: Elem, b: Elem)
    requires a != ZERO && Mul(a, b) == ZERO
    ensures b == ZERO
    decreases a
  {
    hide Mul;
    if a == 1 {
      MulNeutral(b);
    } else {
      var q, r := MODULUS / a, MODULUS % a;
      assert MODULUS == a * q + r;
      ModulusIsPrime(a);
      assert Mul(r, b) == ZERO by {
        MulIsModular(a, b);
        MulIsModular(r, b);
        RemainderKillsToo(a, b, q, r);
      }
      NoZeroDivisors(r, b);
    }
  }

  lemma RemainderKillsToo(a: nat, b: nat, q: nat, r: nat)
    requires MODULUS == a * q + r && (a * b) % MODULUS == 0
    ensures (r * b) % MODULUS == 0
  {
    var c := (a * b) / MODULUS;
    assert a * b == MODULUS * c;
    assert r * b == MODULUS * (b - q * c) by {
      assert (a * q + r) * b == (a * q) * b + r * b;
      assert (a * q) * b == q * (a * b);
      assert q * (MODULUS * c) == MODULUS * (q * c);
      assert MODULUS * (b - q * c) == MODULUS * b - MODULUS * (q * c);
    }
    ModUnique(r * b, b - q * c, 0, MODULUS);
  }

  lemma CancelFactor(a: Elem, x: Elem, y: Elem)
    requires a != ZERO && Mul(a, x) == Mul(a, y)
    ensures x == y
  {
    hide Mul;
    MulSub(a, x, y);
    NoZeroDivisors(a, Sub(x, y));
  }

  // ----- Fermat's little theorem -----

  ghost function Pick(s: set<Elem>): (x: Elem)
    requires s != {}
    ensures x in s
  {
    var x :| x in s; x
  }

  ghost function Product(s: set<Elem>): Elem {
    if s == {} then ONE else Mul(Pick(s), Product(s - {Pick(s)}))
  }

  lemma {:induction false} ProductRemove(s: set<Elem>, y: Elem)
    requires y in s
    ensures Product(s) == Mul(y, Product(s - {y}))
  {
    hide Mul;
    var x := Pick(s);
    if x != y {
      ProductRemove(s - {x}, y);
      ProductRemove(s - {y}, x);
      assert s - {x} - {y} == s - {y} - {x};
      MulLaws();
    }
  }

  ghost function Times(a: Elem, s: set<Elem>): set<Elem> {
    if s == {} then {} else Times(a, s - {Pick(s)}) + {Mul(a, Pick(s))}
  }

  lemma {:induction false} TimesMember(a: Elem, s: set<Elem>, y: Elem) returns (x: Elem)
    requires y in Times(a, s)
    ensures x in s && Mul(a, x) == y
  {
    hide Mul;
    if y == Mul(a, Pick(s)) {
      x := Pick(s);
    } else {
      x := TimesMember(a, s - {Pick(s)}, y);
    }
  }

  lemma {:induction false} TimesProduct(a: Elem, s: set<Elem>)
    requires a != ZERO
    ensures |Times(a, s)| == |s|
    ensures Product(Times(a, s)) == Mul(Pow(a, |s|), Product(s))
  {
    hide Mul;
    if s == {} {
      MulNeutral(ONE);
    } else {
      var x := Pick(s);
      var s' := s - {x};
      TimesProduct(a, s');
      if Mul(a, x) in Times(a, s') {
        var x' := TimesMember(a, s', Mul(a, x));
        CancelFactor(a, x, x');
      }
      assert Times(a, s) - {Mul(a, x)} == Times(a, s');
      ProductRemove(Times(a, s), Mul(a, x));
      ProductRearranged(a, x, Pow(a, |s'|), Product(s'));
    }
  }

  lemma ProductRearranged(a: Elem, x: Elem, u: Elem, v: Elem)
    ensures Mul(Mul(a, x), Mul(u, v)) == Mul(Mul(a, u), Mul(x, v))
  {
    hide Mul;
    MulLaws();
  }

  lemma {:induction false} ProductNonzero(s: set<Elem>)
    requires ZERO !in s
    ensures Product(s) != ZERO
  {
    hide Mul;
    if s != {} {
      ProductNonzero(s - {Pick(s)});
      if Product(s) == ZERO {
        NoZeroDivisors(Pick(s), Product(s - {Pick(s)}));
      }
    }
  }

  ghost function NonzeroBelow(n: nat): (s: set<Elem>)
    requires 1 <= n <= MODULUS
    ensures forall x: Elem :: x in s <==> 0 < x < n
    ensures |s| == n - 1
  {
    if n == 1 then {} else NonzeroBelow(n - 1) + {n - 1}
  }

  lemma TimesNonzero(a: Elem, s: set<Elem>)
    requires a != ZERO && ZERO !in s
    ensures ZERO !in Times(a, s)
  {
    hide Mul, Times;
    if ZERO in Times(a, s) {
      var x := TimesMember(a, s, ZERO);
      NoZeroDivisors(a, x);
    }
  }

  /** Multiplication by a nonzero element permutes the nonzero elements. */
  lemma TimesPermutes(a: Elem, n: nat)
    requires a != ZERO && n == MODULUS
    ensures Times(a, NonzeroBelow(n)) == NonzeroBelow(n)
  {
    hide Mul, Times, Pow, Product, NonzeroBelow;
    var all := NonzeroBelow(n);
    TimesProduct(a, all);
    TimesNonzero(a, all);
    SubsetSize(Times(a, all), all);
  }

  /** a^(p-1) = 1 for every nonzero a. */
  lemma Fermat(a: Elem)
    requires a != ZERO
    ensures Pow(a, MODULUS - 1) == ONE
  {
    hide Mul, Pow, Product, Times;
    var n := MODULUS;
    var all := NonzeroBelow(n);
    TimesPermutes(a, n);
    TimesProduct(a, all);
    ProductNonzero(all);
    MulCommutes(Product(all), Pow(a, n - 1));
    MulNeutral(Product(all));
    CancelFactor(Product(all), Pow(a, n - 1), ONE);
  }

  /** The inverse computed by `Fp::inv`: a^(p-2). */
  function Inv(a: Elem): Elem {
    Pow(a, MODULUS - 2)
  }

  /** `inv_self` is a true inverse on every nonzero element, and maps zero to zero. */
  lemma InverseIsExact(a: Elem)
    ensures a != ZERO ==> Mul(a, Inv(a)) == ONE
    ensures a == ZERO ==> Inv(a) == ZERO
  {
    hide Mul;
    if a != ZERO {
      Fermat(a);
    } else {
      MulNeutral(Pow(a, MODULUS - 3));
    }
  }
}
