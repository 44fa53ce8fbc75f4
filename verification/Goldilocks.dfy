/** The Goldilocks field Fp, p = 2^64 - 2^32 + 1, on 64-bit words.

    Field elements are canonical words below p.  Multiplication is the three-fold
    reduction of the 128-bit product; the casts that drop high bits are written out
    and shown to drop nothing.  The ring laws at the end are what every later module
    uses: they hide the word-level definitions. */
module Goldilocks {

  const MODULUS: nat := 0xFFFF_FFFF_0000_0001
  const TWO32_MINUS_1: nat := 0xFFFF_FFFF
  const TWO64: nat := 0x1_0000_0000_0000_0000
  const TWO128: nat := 0x1_0000_0000_0000_0000_0000_0000_0000_0000

  type U64 = x: nat | x < TWO64
  type U128 = x: nat | x < TWO128

  /** A field element in canonical form. */
  type Elem = x: nat | x < MODULUS

  const ZERO: Elem := 0
  const ONE: Elem := 1
  const GENERATOR: Elem := 7

  /** The cast `x as u64` of a 128-bit value. */
  function Low64(x: U128): U64 {
    x % TWO64
  }

  /** `Fp::new`. */
  function New(v: U64): Elem {
    v % MODULUS
  }

  lemma NewOfElem(b: Elem)
    ensures New(b) == b
  {
  }

  /** One folding step: 2^64 is congruent to 2^32 - 1, so the high word may be
      multiplied by 2^32 - 1 and added to the low word. */
  function FoldHigh(t: U128): (s: nat)
    requires t < TWO128
    ensures s % MODULUS == t % MODULUS
    ensures s < TWO128
  {
    var lo := Low64(t);
    var hi := Low64(t / TWO64);
    var s := lo + hi * TWO32_MINUS_1;
    assert t == s + hi * MODULUS;
    ModDropMultiple(s, hi);
    s
  }

  /** One conditional subtraction of the modulus. */
  function SubtractOnce(r: nat): (d: nat)
    ensures d % MODULUS == r % MODULUS
    ensures r < MODULUS ==> d == r
  {
    if r >= MODULUS then r - MODULUS else r
  }

  /** Three folds, the cast `r as u64`, and the two conditional subtractions. */
  function Reduce(t: U128): (r: Elem)
    requires t <= (TWO64 - 1) * (TWO64 - 1)
    ensures r == t % MODULUS
  {
    FoldBounds(t);
    var s := FoldHigh(FoldHigh(FoldHigh(t)));
    // The cast keeps every bit, and the second subtraction does nothing.
    SubtractToCanonical(s);
    SubtractOnce(SubtractOnce(Low64(s)))
  }

  /** `Fp::mul`: exact for every pair of words, canonical or not. */
  function MulWords(a: U64, b: U64): (r: Elem)
    ensures r == (a * b) % MODULUS
  {
    MulMonotonic(a, TWO64 - 1, b, TWO64 - 1);
    Reduce(a * b)
  }

  lemma SubtractToCanonical(s: nat)
    requires s < TWO64
    ensures Low64(s) == s
    ensures SubtractOnce(SubtractOnce(s)) == s % MODULUS
  {
    var d := SubtractOnce(SubtractOnce(s));
    assert d < MODULUS;
  }

  lemma ModDropMultiple(s: nat, q: nat)
    ensures (s + q * MODULUS) % MODULUS == s % MODULUS
  {
  }

  lemma MulMonotonic(a: nat, a': nat, b: nat, b': nat)
    requires a <= a' && b <= b'
    ensures a * b <= a' * b'
  {
    assert a * b <= a' * b;
    assert a' * b <= a' * b';
  }

  /** The bounds that make the last cast exact: after one fold the value is below 2^96,
      after two it is at most 2^65 - 2^33, and after three it fits in 64 bits. */
  lemma FoldBounds(t: U128)
    requires t <= (TWO64 - 1) * (TWO64 - 1)
    ensures FoldHigh(t) < 0x1_0000_0000_0000_0000_0000_0000
    ensures FoldHigh(FoldHigh(t)) <= 0x1_FFFF_FFFE_0000_0000
    ensures FoldHigh(FoldHigh(FoldHigh(t))) < TWO64
  {
    hide FoldHigh;
    FoldIs(t);
    FoldIs(FoldHigh(t));
    FoldIs(FoldHigh(FoldHigh(t)));
  }

  lemma FoldIs(t: U128)
    ensures FoldHigh(t) == t % TWO64 + (t / TWO64) * TWO32_MINUS_1
  {
  }

  // ----- the operators on words -----

  /** `impl Add`: the carry out of 64 bits is caught, then one wrapping subtraction. */
  function AddWords(a: U64, b: U64): U64 {
    var r := (a + b) % TWO64;
    var carry := a + b >= TWO64;
    if carry || r >= MODULUS then (r + TWO64 - MODULUS) % TWO64 else r
  }

  /** `impl Sub`; the inner subtraction wraps, as in a release build. */
  function SubWords(a: U64, b: U64): U64 {
    if a >= b then a - b else (MODULUS + TWO64 - (b - a)) % TWO64
  }

  /** `impl Neg`, likewise. */
  function NegWord(a: U64): U64 {
    if a == 0 then a else (MODULUS + TWO64 - a) % TWO64
  }

  /** Addition of words is modular iff the sum does not pass 2^64 by p or more. */
  /** Addition of words, as a word: when p is subtracted and what wraps. */
  lemma AddOnWords(a: U64, b: U64)
    ensures AddWords(a, b) == if a + b < MODULUS then a + b
                              else if a + b < 0x1_0000_0000_0000_0000 + MODULUS then a + b - MODULUS
                              else a + b - 0x1_0000_0000_0000_0000 - MODULUS
  {
  }

  lemma SubOnWords(a: U64, b: U64)
    ensures SubWords(a, b) == if a >= b then a - b
                              else if b - a <= MODULUS then MODULUS - (b - a)
                              else 0x1_0000_0000_0000_0000 + MODULUS - (b - a)
  {
  }

  lemma NegOnWords(a: U64)
    ensures NegWord(a) == if a == 0 then 0
                          else if a <= MODULUS then MODULUS - a
                          else 0x1_0000_0000_0000_0000 + MODULUS - a
  {
  }

  lemma AddWordsExact(a: U64, b: U64)
    ensures New(AddWords(a, b)) == (a + b) % MODULUS <==> a + b < TWO64 + MODULUS
  {
    var s := a + b;
    if s < TWO64 + MODULUS {
      assert AddWords(a, b) == s || AddWords(a, b) + MODULUS == s;
    } else {
      assert AddWords(a, b) == s - TWO64 - MODULUS;
      assert AddWords(a, b) + MODULUS + TWO32_MINUS_1 + MODULUS == s;
      ShiftedResidue(AddWords(a, b), TWO32_MINUS_1);
    }
  }

  lemma ShiftedResidue(x: nat, e: nat)
    requires 0 < e < MODULUS
    ensures (x + e) % MODULUS != x % MODULUS
    ensures (x + e + 2 * MODULUS) % MODULUS == (x + e) % MODULUS
  {
  }

  /** Subtraction of words undoes addition iff it does not wrap: b may exceed a by p at most. */
  lemma SubWordsExact(a: U64, b: U64)
    ensures (SubWords(a, b) + b) % MODULUS == New(a) <==> b <= a + MODULUS
  {
    if b > a + MODULUS {
      assert SubWords(a, b) + b == a + TWO32_MINUS_1 + 2 * MODULUS;
      ShiftedResidue(a, TWO32_MINUS_1);
    }
  }

  /** Negation of a word is its additive inverse iff the word does not exceed p. */
  lemma NegWordExact(a: U64)
    ensures (NegWord(a) + a) % MODULUS == 0 <==> a <= MODULUS
  {
    if a > MODULUS {
      assert NegWord(a) + a == MODULUS + TWO64;
      ShiftedResidue(0, TWO32_MINUS_1);
    }
  }

  // ----- the operators on canonical elements -----

  function Add(a: Elem, b: Elem): Elem {
    AddWords(a, b)
  }

  function Sub(a: Elem, b: Elem): Elem {
    SubWords(a, b)
  }

  function Neg(a: Elem): Elem {
    NegWord(a)
  }

  /** `impl Mul`. */
  function Mul(a: Elem, b: Elem): Elem {
    MulWords(a, b)
  }

  lemma SubIs(a: Elem, b: Elem)
    ensures Sub(a, b) == if a >= b then a - b else MODULUS - (b - a)
  {
  }

  lemma NegIs(a: Elem)
    ensures Neg(a) == if a == 0 then 0 else MODULUS - a
  {
  }

  lemma AddIsModular(a: Elem, b: Elem)
    ensures Add(a, b) == (a + b) % MODULUS
    ensures Add(a, b) == if a + b >= MODULUS then a + b - MODULUS else a + b
  {
  }

  lemma MulIsModular(a: Elem, b: Elem)
    ensures Mul(a, b) == (a * b) % MODULUS
  {
  }

  // ----- ring laws -----

  lemma AddCommutes(a: Elem, b: Elem)
    ensures Add(a, b) == Add(b, a)
  {
  }

  lemma AddAssociates(a: Elem, b: Elem, c: Elem)
    ensures Add(Add(a, b), c) == Add(a, Add(b, c))
  {
    hide Add;
    AddIsModular(a, b);
    AddIsModular(b, c);
    AddIsModular(Add(a, b), c);
    AddIsModular(a, Add(b, c));
  }

  lemma AddNeutral(a: Elem)
    ensures Add(a, ZERO) == a && Add(ZERO, a) == a
    ensures Add(a, Neg(a)) == ZERO
  {
  }

  lemma SubIsAddNeg(a: Elem, b: Elem)
    ensures Sub(a, b) == Add(a, Neg(b))
  {
    hide Add, Sub, Neg;
    SubIs(a, b);
    NegIs(b);
    AddIsModular(a, Neg(b));
  }

  lemma MulCommutes(a: Elem, b: Elem)
    ensures Mul(a, b) == Mul(b, a)
  {
  }

  lemma MulNeutral(a: Elem)
    ensures Mul(a, ONE) == a && Mul(ONE, a) == a
    ensures Mul(a, ZERO) == ZERO && Mul(ZERO, a) == ZERO
  {
    hide Mul;
    MulIsModular(a, ONE);
    MulIsModular(ONE, a);
    MulIsModular(a, ZERO);
    MulIsModular(ZERO, a);
  }

  /** Reducing a factor does not change a product modulo p. */
  lemma ModMul(x: nat, y: nat)
    ensures ((x % MODULUS) * y) % MODULUS == (x * y) % MODULUS
  {
    var q := x / MODULUS;
    assert x * y == (x % MODULUS) * y + (q * y) * MODULUS;
    ModDropMultiple((x % MODULUS) * y, q * y);
  }

  lemma ModMulBoth(x: nat, y: nat)
    ensures ((x % MODULUS) * (y % MODULUS)) % MODULUS == (x * y) % MODULUS
  {
    var r, s := x % MODULUS, y % MODULUS;
    ModMul(x, y);
    ModMul(y, r);
    assert s * r == r * s && y * r == r * y;
  }

  /** Multiplication of words is multiplication of their residues. */
  lemma MulOfResidues(a: U64, b: U64)
    ensures MulWords(a, b) == Mul(New(a), New(b))
  {
    ModMulBoth(a, b);
  }

  lemma MulAssociates(a: Elem, b: Elem, c: Elem)
    ensures Mul(Mul(a, b), c) == Mul(a, Mul(b, c))
  {
    hide Mul;
    MulIsModular(a, b);
    MulIsModular(b, c);
    MulIsModular(Mul(a, b), c);
    MulIsModular(a, Mul(b, c));
    ModMul(a * b, c);
    ModMul(b * c, a);
    assert a * Mul(b, c) == Mul(b, c) * a;
    assert (a * b) * c == (b * c) * a;
  }

  lemma MulDistributes(a: Elem, b: Elem, c: Elem)
    ensures Mul(a, Add(b, c)) == Add(Mul(a, b), Mul(a, c))
  {
    hide Add, Mul;
    AddIsModular(b, c);
    AddIsModular(Mul(a, b), Mul(a, c));
    MulIsModular(a, b);
    MulIsModular(a, c);
    MulIsModular(a, Add(b, c));
    ModDistributes(a, b, c);
  }

  lemma ModDistributes(a: nat, b: nat, c: nat)
    ensures (a * ((b + c) % MODULUS)) % MODULUS == ((a * b) % MODULUS + (a * c) % MODULUS) % MODULUS
  {
    ModMul(b + c, a);
    assert a * ((b + c) % MODULUS) == ((b + c) % MODULUS) * a;
    assert (b + c) * a == a * b + a * c;
    ModAdd(a * b, a * c);
  }

  lemma ModAdd(x: nat, y: nat)
    ensures (x % MODULUS + y % MODULUS) % MODULUS == (x + y) % MODULUS
  {
  }

  lemma MulSub(a: Elem, b: Elem, c: Elem)
    ensures Mul(a, Sub(b, c)) == Sub(Mul(a, b), Mul(a, c))
  {
    hide Add, Mul, Sub;
    MulDistributes(a, Sub(b, c), c);
    SubAdds(b, c);
    AddCommutes(c, Sub(b, c));
    SubUndoesAdd(Mul(a, Sub(b, c)), Mul(a, c));
  }

  lemma MulNeg(a: Elem, b: Elem)
    ensures Mul(a, Neg(b)) == Neg(Mul(a, b))
  {
    hide Add, Mul, Neg;
    MulDistributes(a, Neg(b), b);
    NegCancels(b);
    MulNeutral(a);
    NegUnique(Mul(a, Neg(b)), Mul(a, b));
  }

  lemma NegCancels(b: Elem)
    ensures Add(Neg(b), b) == ZERO
  {
    hide Add, Neg;
    NegIs(b);
    AddIsModular(Neg(b), b);
  }

  lemma NegUnique(a: Elem, b: Elem)
    requires Add(a, b) == ZERO
    ensures a == Neg(b)
  {
    hide Add, Neg;
    NegIs(b);
    AddIsModular(a, b);
  }

  /** Additive identities are linear arithmetic with a case split; use under `hide Add`. */
  lemma LinearLaws()
    ensures forall a: Elem, b: Elem {:trigger Add(a, b)} ::
              Add(a, b) == if a + b >= MODULUS then a + b - MODULUS else a + b
  {
    forall a: Elem, b: Elem
      ensures Add(a, b) == if a + b >= MODULUS then a + b - MODULUS else a + b
    {
      AddIsModular(a, b);
    }
  }

  lemma SubBack(p: Elem, r: Elem)
    ensures Sub(Sub(Add(p, r), p), r) == ZERO
  {
    hide Add;
    LinearLaws();
  }

  lemma SubZero(x: Elem, r: Elem)
    ensures Sub(x, r) == ZERO <==> x == r
  {
  }

  lemma NegOfZero()
    ensures Neg(ZERO) == ZERO
  {
  }

  lemma NegOfSum(a: Elem, b: Elem)
    ensures Neg(Add(a, b)) == Add(Neg(a), Neg(b))
  {
    hide Add, Neg;
    NegIs(a);
    NegIs(b);
    NegIs(Add(a, b));
    AddIsModular(a, b);
    AddIsModular(Neg(a), Neg(b));
  }

  lemma SumOfResidues(a: U64, b: U64)
    ensures Add(New(a), New(b)) == (a + b) % MODULUS
  {
    hide Add;
    AddIsModular(New(a), New(b));
    ModAdd(a, b);
  }

  lemma SubAdds(x: Elem, r: Elem)
    ensures Add(r, Sub(x, r)) == x
  {
    hide Add;
    LinearLaws();
  }

  lemma SubUndoesAdd(a: Elem, b: Elem)
    ensures Sub(Add(a, b), b) == a
  {
    hide Add;
    LinearLaws();
  }

  /** On canonical elements the word operators are the field operators. */
  lemma WordsAreElems(a: Elem, b: Elem)
    ensures AddWords(a, b) == Add(a, b) && SubWords(a, b) == Sub(a, b) && MulWords(a, b) == Mul(a, b)
  {
    hide AddWords, SubWords, MulWords;
  }

  /** Multiplication is a commutative monoid; use under `hide Mul`. */
  lemma MulLaws()
    ensures forall a: Elem, b: Elem {:trigger Mul(a, b)} :: Mul(a, b) == Mul(b, a)
    ensures forall a: Elem, b: Elem, c: Elem {:trigger Mul(Mul(a, b), c)} :: Mul(Mul(a, b), c) == Mul(a, Mul(b, c))
    ensures forall a: Elem {:trigger Mul(a, ONE)} :: Mul(a, ONE) == a
    ensures forall a: Elem {:trigger Mul(a, ZERO)} :: Mul(a, ZERO) == ZERO
  {
    hide Mul;
    forall a: Elem, b: Elem
      ensures Mul(a, b) == Mul(b, a)
    {
      MulCommutes(a, b);
    }
    forall a: Elem, b: Elem, c: Elem
      ensures Mul(Mul(a, b), c) == Mul(a, Mul(b, c))
    {
      MulAssociates(a, b, c);
    }
    forall a: Elem
      ensures Mul(a, ONE) == a && Mul(a, ZERO) == ZERO
    {
      MulNeutral(a);
    }
  }

  /** The commutative-semiring laws as rewrite rules; use under `hide Add, Mul`. */
  lemma RingLaws()
    ensures forall a: Elem, b: Elem {:trigger Add(a, b)} :: Add(a, b) == Add(b, a)
    ensures forall a: Elem, b: Elem, c: Elem {:trigger Add(Add(a, b), c)} :: Add(Add(a, b), c) == Add(a, Add(b, c))
    ensures forall a: Elem, b: Elem {:trigger Mul(a, b)} :: Mul(a, b) == Mul(b, a)
    ensures forall a: Elem, b: Elem, c: Elem {:trigger Mul(Mul(a, b), c)} :: Mul(Mul(a, b), c) == Mul(a, Mul(b, c))
    ensures forall a: Elem, b: Elem, c: Elem {:trigger Mul(a, Add(b, c))} :: Mul(a, Add(b, c)) == Add(Mul(a, b), Mul(a, c))
    ensures forall a: Elem {:trigger Add(a, ZERO)} :: Add(a, ZERO) == a
    ensures forall a: Elem {:trigger Mul(a, ONE)} :: Mul(a, ONE) == a
    ensures forall a: Elem {:trigger Mul(a, ZERO)} :: Mul(a, ZERO) == ZERO
  {
    hide Add, Mul;
    MulLaws();
    forall a: Elem, b: Elem
      ensures Add(a, b) == Add(b, a)
    {
      AddCommutes(a, b);
    }
    forall a: Elem, b: Elem, c: Elem
      ensures Add(Add(a, b), c) == Add(a, Add(b, c))
      ensures Mul(a, Add(b, c)) == Add(Mul(a, b), Mul(a, c))
    {
      AddAssociates(a, b, c);
      MulDistributes(a, b, c);
    }
    forall a: Elem
      ensures Add(a, ZERO) == a
    {
      AddNeutral(a);
    }
  }
}
