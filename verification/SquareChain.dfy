/** The square-chain proof: the prover knows a with t[0] = a, t[i+1] = t[i]^2 + c and
    t[N-1] = b.  Every honest proof is accepted, for every a and c. */
module SquareChain {
  import opened Goldilocks
  import opened Residues
  import opened Powers
  import opened Primality
  import opened RootsOfUnity
  import opened Polynomials
  import opened PolynomialOps
  import opened PolynomialProduct
  import opened PolynomialDivision
  import opened Interpolation
  import opened Bytes
  import opened FriProtocol
  import opened Wrappers
  import opened FriCompleteness
  import opened FriLoops
  import opened Challenge
  import opened TransitionRows

  datatype DemoProof = DemoProof(
    traceFri: FriProof, quotientFri: FriProof, challenge: U64, opens: (U64, U64, U64))

  // ----- the computation -----

  /** Element i of the chain. */
  function ChainAt(a: U64, c: U64, i: nat): Elem {
    if i == 0 then New(a) else Add(Mul(ChainAt(a, c, i - 1), ChainAt(a, c, i - 1)), New(c))
  }

  function Chain(a: U64, c: U64, n: nat): (t: seq<Elem>)
    ensures |t| == n
    ensures forall i :: 0 <= i < n ==> t[i] == ChainAt(a, c, i)
  {
    seq(n, i requires 0 <= i < n => ChainAt(a, c, i))
  }

  /** The public output: the last element. */
  function ChainOutput(a: U64, c: U64, nLog2: nat): Elem {
    ChainAt(a, c, Pow2(nLog2) - 1)
  }

  /** The same chain over the integers: a, a^2 + c, (a^2 + c)^2 + c, ... */
  function IntegerChain(a: nat, c: nat, i: nat): nat {
    if i == 0 then a else IntegerChain(a, c, i - 1) * IntegerChain(a, c, i - 1) + c
  }

  lemma {:induction false} ChainIsInteger(a: U64, c: U64, i: nat)
    ensures ChainAt(a, c, i) == IntegerChain(a, c, i) % MODULUS
  {
    hide Add, Mul, New;
    if i == 0 {
      NewIsResidue(a);
    } else {
      var t, n := ChainAt(a, c, i - 1), IntegerChain(a, c, i - 1);
      ChainIsInteger(a, c, i - 1);
      NewIsResidue(c);
      MulResidue(t, t, n, n);
      AddResidue(Mul(t, t), New(c), n * n, c);
    }
  }

  /** `public_b`. */
  method PublicB(a: U64, c: U64, nLog2: nat) returns (t: Elem)
    ensures t == ChainOutput(a, c, nLog2)
    ensures t == IntegerChain(a, c, Pow2(nLog2) - 1) % MODULUS
  {
    hide Add, Mul, IntegerChain;
    t := New(a);
    for i := 1 to Pow2(nLog2)
      invariant t == ChainAt(a, c, i - 1)
    {
      t := Add(Mul(t, t), New(c));
    }
    ChainIsInteger(a, c, Pow2(nLog2) - 1);
  }

  // ----- the arithmetisation -----

  /** T(wX) - T(X)^2 - c. */
  function ConstraintPoly(t: Poly, c: U64, w: Elem): Poly
    requires t != []
  {
    PolySub(PolySub(PolyScaleVar(t, w), PolyMul(t, t)), Constant(New(c)))
  }

  /** The right-hand side of the constraint check, on opened words. */
  function ConstraintValue(atX: U64, atWx: U64, c: U64): U64 {
    SubWords(SubWords(atWx, MulWords(atX, atX)), New(c))
  }

  lemma CanonicalConstraint(atX: Elem, atWx: Elem, c: U64)
    ensures ConstraintValue(atX, atWx, c) == Sub(Sub(atWx, Mul(atX, atX)), New(c))
  {
    hide Mul, Sub, SubWords, MulWords, New;
    WordsAreElems(atX, atX);
    WordsAreElems(atWx, Mul(atX, atX));
    WordsAreElems(Sub(atWx, Mul(atX, atX)), New(c));
  }

  lemma EvalConstraint(t: Poly, c: U64, w: Elem, x: Elem)
    requires t != []
    ensures Eval(ConstraintPoly(t, c, w), x) == Sub(Sub(Eval(t, Mul(w, x)), Mul(Eval(t, x), Eval(t, x))), New(c))
    ensures Eval(ConstraintPoly(t, c, w), x) == ConstraintValue(Eval(t, x), Eval(t, Mul(w, x)), c)
  {
    hide Add, Mul, Sub, Eval, PolySub, PolyScaleVar, PolyMul, New, ConstraintValue;
    CanonicalConstraint(Eval(t, x), Eval(t, Mul(w, x)), c);
    var shifted, sq := PolyScaleVar(t, w), PolyMul(t, t);
    EvalOps(t, [], w, x);
    EvalPolyMul(t, t, x);
    EvalOps(shifted, sq, ZERO, x);
    EvalConstant(New(c), x);
    EvalOps(PolySub(shifted, sq), Constant(New(c)), ZERO, x);
  }

  /** An interpolated chain satisfies the constraint on every transition row. */
  lemma ConstraintVanishes(t: Poly, a: U64, c: U64, k: nat, i: nat)
    requires k <= 32 && t != [] && i < Pow2(k) - 1
    requires Interpolates(t, DomainOf(k), Chain(a, c, Pow2(k)))
    ensures Eval(ConstraintPoly(t, c, RootOfUnity(k)), TransitionPoints(k)[i]) == ZERO
  {
    hide Add, Mul, Sub, Eval, Pow, RootOfUnity, ConstraintPoly, ConstraintValue, New, Pow2;
    var w := RootOfUnity(k);
    var x := DomainOf(k)[i];
    PowUnfold(w, i);
    assert Mul(w, x) == DomainOf(k)[i + 1];
    EvalConstraint(t, c, w, x);
    ChainStep(a, c, i);
    SubBack(Mul(Eval(t, x), Eval(t, x)), New(c));
  }

  lemma ChainStep(a: U64, c: U64, i: nat)
    ensures ChainAt(a, c, i + 1) == Add(Mul(ChainAt(a, c, i), ChainAt(a, c, i)), New(c))
  {
    hide Add, Mul, New;
  }

  // ----- prover and verifier -----

  /** The proof assembled from a trace polynomial and a quotient. */
  function ProofFrom(hash: Hash, t: Poly, q: Poly, k: nat, numQueries: nat): DemoProof
    requires 2 <= k <= 32
  {
    hide Mul, Eval, Pow, RootOfUnity, FriProve, DerivedChallenge, DomainOf, Inv;
    BoundaryInDomain(k);
    var traceFri := FriProve(hash, t, k, numQueries, [], Some(BoundaryPoint(k)));
    var quotientFri := FriProve(hash, q, k, numQueries, [], None);
    var chi := DerivedChallenge(hash, traceFri, quotientFri);
    DemoProof(traceFri, quotientFri, chi, (Eval(t, chi), Eval(t, Mul(RootOfUnity(k), chi)), Eval(q, chi)))
  }

  /** q is the exact quotient of the constraint by the vanishing polynomial of the rows. */
  ghost predicate ExactQuotient(t: Poly, q: Poly, c: U64, k: nat)
    requires t != []
  {
    && |q| <= Pow2(k)
    && (q == [] || Canonical(q))
    && forall x: Elem ::
         Eval(ConstraintPoly(t, c, RootOfUnity(k)), x) == Mul(Eval(q, x), ProductAt(TransitionPoints(k), x))
  }

  /** What `prove_square_chain` returns: t interpolates the chain, q is the exact quotient,
      and the proof is assembled from them. */
  ghost predicate IsHonestProof(
    hash: Hash, proof: DemoProof, t: Poly, q: Poly, a: U64, c: U64, k: nat, numQueries: nat)
  {
    && 2 <= k <= 31
    && t != []
    && Interpolates(t, DomainOf(k), Chain(a, c, Pow2(k)))
    && ExactQuotient(t, q, c, k)
    && proof == ProofFrom(hash, t, q, k, numQueries)
  }

  datatype ChainVerdict =
    | ChainAccept
    | TraceRejected(why: Verdict)
    | QuotientRejected(why: Verdict)
    | ChallengeMismatch
    | ConstraintFailed

  /** `verify_square_chain`. */
  function ChainVerify(hash: Hash, proof: DemoProof, c: U64, b: U64, k: nat, numQueries: nat): ChainVerdict
    requires 1 <= k <= 32
  {
    var traceVerdict := FriVerify(hash, proof.traceFri, k, numQueries, [], Claim(BoundaryPoint(k), New(b)));
    if traceVerdict != Accept then TraceRejected(traceVerdict)
    else
      var quotientVerdict := FriVerify(hash, proof.quotientFri, k, numQueries, [], None);
      if quotientVerdict != Accept then QuotientRejected(quotientVerdict)
      else
        var chi := DerivedChallenge(hash, proof.traceFri, proof.quotientFri);
        if chi != proof.challenge then ChallengeMismatch
        else
          var (tChi, tWchi, qChi) := proof.opens;
          if MulWords(qChi, ProductAt(TransitionPoints(k), chi)) != ConstraintValue(tChi, tWchi, c)
          then ConstraintFailed
          else ChainAccept
  }

  /** An accepted proof, honest or not, carries the challenge derived from its commitments:
      the first word of the hash of the message that lists them. */
  lemma AcceptedChallengeIsDerived(hash: Hash, proof: DemoProof, c: U64, b: U64, k: nat, numQueries: nat)
    requires 1 <= k <= 32 && ChainVerify(hash, proof, c, b, k, numQueries) == ChainAccept
    ensures proof.challenge == DerivedChallenge(hash, proof.traceFri, proof.quotientFri)
    ensures hide ChainVerify, ChallengeMessage, FromBigEndian;
            proof.challenge ==
            FromBigEndian(hash(ChallengeMessage(proof.traceFri, proof.quotientFri))[..8]) % MODULUS
  {
    hide FriVerify, DerivedChallenge, FromBigEndian, ChallengeMessage, ProductAt, MulWords, ConstraintValue, New;
    ChallengeIsFirstWord(hash, proof.traceFri, proof.quotientFri);
  }

  /** Completeness: for every secret, constant, length and query count, the honest proof is
      accepted for the public output of the chain. */
  lemma SquareChainComplete(
    hash: Hash, proof: DemoProof, t: Poly, q: Poly, a: U64, c: U64, k: nat, numQueries: nat)
    requires 2 <= k <= 31 && IsHonestProof(hash, proof, t, q, a, c, k, numQueries)
    ensures hide ChainVerify, ChainOutput, IsHonestProof;
            ChainVerify(hash, proof, c, ChainOutput(a, c, k), k, numQueries) == ChainAccept
  {
    hide Mul, MulWords, Sub, Eval, Pow, RootOfUnity, FriProve, FriVerify, DerivedChallenge, ProductAt,
         ConstraintPoly, ConstraintValue, ChainAt, DomainOf, Pow2, TransitionPoints;
    var pt, b := BoundaryPoint(k), ChainOutput(a, c, k);
    BoundaryInDomain(k);
    assert Eval(t, pt) == b;
    NewOfElem(b);
    FriComplete(hash, t, k, numQueries, [], Some(pt), Claim(pt, b));
    FriComplete(hash, q, k, numQueries, [], None, None);
    EvalConstraint(t, c, RootOfUnity(k), proof.challenge);
    WordsAreElems(Eval(q, proof.challenge), ProductAt(TransitionPoints(k), proof.challenge));
  }

  lemma SubAgree(s: Elem, c: Elem, c': Elem)
    ensures Sub(s, c) == Sub(s, c') <==> c == c'
  {
  }

  /** Exactness for public inputs: an honest proof is accepted for a constant c' and an
      output b' iff they are, as field elements, the constant and the output of the chain. */
  lemma HonestProofExact(
    hash: Hash, proof: DemoProof, t: Poly, q: Poly, a: U64, c: U64, k: nat, numQueries: nat, c': U64, b': U64)
    requires 2 <= k <= 31 && IsHonestProof(hash, proof, t, q, a, c, k, numQueries)
    ensures hide ChainVerify, IsHonestProof, ChainOutput;
            ChainVerify(hash, proof, c', b', k, numQueries) == ChainAccept <==>
            New(b') == ChainOutput(a, c, k) && New(c') == New(c)
  {
    hide Add, Mul, MulWords, Sub, Eval, Pow, RootOfUnity, FriProve, FriVerify, DerivedChallenge, ProductAt,
         ConstraintPoly, ConstraintValue, ChainAt, DomainOf, Pow2, TransitionPoints, New;
    var pt := BoundaryPoint(k);
    BoundaryInDomain(k);
    assert Eval(t, pt) == ChainAt(a, c, Pow2(k) - 1);
    BoundaryExact(hash, t, k, numQueries, [], pt, New(b'));
    FriComplete(hash, q, k, numQueries, [], None, None);
    EvalConstraint(t, c, RootOfUnity(k), proof.challenge);
    WordsAreElems(Eval(q, proof.challenge), ProductAt(TransitionPoints(k), proof.challenge));
    var atChi, atNext := proof.opens.0, proof.opens.1;
    CanonicalConstraint(atChi, atNext, c);
    CanonicalConstraint(atChi, atNext, c');
    SubAgree(Sub(atNext, Mul(atChi, atChi)), New(c), New(c'));
  }

  /** The chain determines the trace polynomial. */
  lemma TraceUnique(
    hash: Hash, p: DemoProof, t: Poly, q: Poly, p': DemoProof, t': Poly, q': Poly,
    a: U64, c: U64, k: nat, numQueries: nat)
    requires IsHonestProof(hash, p, t, q, a, c, k, numQueries)
    requires IsHonestProof(hash, p', t', q', a, c, k, numQueries)
    ensures t == t'
  {
    hide Eval, ExactQuotient, ProofFrom, Chain, Pow2, DomainOf;
    DomainIsDistinct(k);
    InterpolantUnique(t, t', DomainOf(k), Chain(a, c, Pow2(k)));
  }

  /** The trace loop. */
  method TraceLoop(a: U64, c: U64, n: nat) returns (trace: seq<Elem>)
    requires n >= 1
    ensures trace == Chain(a, c, n)
  {
    hide Add, Mul, New;
    trace := [New(a)];
    for i := 1 to n
      invariant |trace| == i
      invariant forall j :: 0 <= j < i ==> trace[j] == ChainAt(a, c, j)
    {
      var prev := trace[i - 1];
      trace := trace + [Add(Mul(prev, prev), New(c))];
    }
  }

  /** The quotient: the division by the vanishing polynomial leaves no remainder. */
  method QuotientOf(t: Poly, a: U64, c: U64, k: nat) returns (q: Poly)
    requires 2 <= k <= 31 && t != []
    requires Interpolates(t, DomainOf(k), Chain(a, c, Pow2(k)))
    ensures ExactQuotient(t, q, c, k)
  {
    hide Add, Mul, Sub, Eval, Pow, RootOfUnity, New, LinearProduct, PolySub, PolyScaleVar, PolyMul,
         Chain, ProductAt, DomainOf, Pow2, TransitionPoints;
    SizeFits(k);
    var n := Pow2(k);
    var w := RootOfUnity(k);
    var shifted := ScaleVar(t, w);
    var tSq := Multiply(t, t);
    var cPoly := PolySub(PolySub(shifted, tSq), Constant(New(c)));
    assert cPoly == ConstraintPoly(t, c, w);
    ConstraintLength(t, c, w);
    var points := TransitionPoints(k);
    var z := MultiplyLinearFactors(points);
    LinearProductLaws(points, ZERO);
    var rem;
    q, rem := DivMod(cPoly, z);
    ConstraintDivides(t, q, rem, a, c, k);
    // the debug assertion on the remainder
    CanonicalZero(rem);
    assert rem == [ZERO];
  }

  lemma SizeFits(k: nat)
    requires 2 <= k <= 31
    ensures 4 <= Pow2(k) <= 0x8000_0000
  {
    Pow2Of32();
    if k < 31 {
      Pow2Monotonic(k, 31);
    }
    if k > 2 {
      Pow2Monotonic(2, k);
    }
    assert Pow2(2) == 4;
  }

  lemma ConstraintLength(t: Poly, c: U64, w: Elem)
    requires t != []
    ensures Canonical(ConstraintPoly(t, c, w))
    ensures |ConstraintPoly(t, c, w)| <= 2 * |t| - 1
  {
    hide Add, Mul, Neg, Trim, New, Conv, Dilated;
    var shifted, sq := PolyScaleVar(t, w), PolyMul(t, t);
    AddIsCanonical(shifted, PolyNeg(sq));
    AddIsCanonical(PolySub(shifted, sq), PolyNeg(Constant(New(c))));
  }

  lemma ConstraintDivides(t: Poly, q: Poly, rem: Poly, a: U64, c: U64, k: nat)
    requires 2 <= k <= 31 && t != []
    requires Interpolates(t, DomainOf(k), Chain(a, c, Pow2(k)))
    requires IsDivision(ConstraintPoly(t, c, RootOfUnity(k)), LinearProduct(TransitionPoints(k)), q, rem)
    ensures IsZero(rem) && ExactQuotient(t, q, c, k)
  {
    hide Add, Mul, Sub, Eval, Pow, RootOfUnity, ConstraintPoly, LinearProduct, Chain, ProductAt, Pow2,
         DomainOf, IsDivision, TransitionPoints;
    var f := ConstraintPoly(t, c, RootOfUnity(k));
    SizeFits(k);
    ConstraintLength(t, c, RootOfUnity(k));
    forall i | 0 <= i < Pow2(k) - 1
      ensures Eval(f, TransitionPoints(k)[i]) == ZERO
    {
      ConstraintVanishes(t, a, c, k, i);
    }
    DivisionOverRows(f, q, rem, k);
  }

  /** `prove_square_chain`. */
  method ProveSquareChain(hash: Hash, a: U64, c: U64, k: nat, numQueries: nat)
    returns (proof: DemoProof, ghost t: Poly, ghost q: Poly)
    requires 2 <= k <= 31
    ensures hide ChainVerify, ChainOutput;
            ChainVerify(hash, proof, c, ChainOutput(a, c, k), k, numQueries) == ChainAccept
    ensures hide ChainVerify, ChainOutput;
            IsHonestProof(hash, proof, t, q, a, c, k, numQueries)
  {
    hide Mul, Eval, Pow, RootOfUnity, Chain, ExactQuotient, FriProve, DerivedChallenge, DomainOf, Pow2, ChainVerify,
         ChainOutput;
    SizeFits(k);
    DomainIsDistinct(k);
    var trace := TraceLoop(a, c, Pow2(k));
    var d := Domain(k);
    var tp := Interpolate(d, trace);
    var qp := QuotientOf(tp, a, c, k);
    t, q := tp, qp;
    BoundaryInDomain(k);
    var transcript := new Transcript([]);
    var traceFri := Prove(hash, tp, k, numQueries, transcript, Some(BoundaryPoint(k)));
    transcript := new Transcript([]);
    var quotientFri := Prove(hash, qp, k, numQueries, transcript, None);
    var chi := DeriveChallenge(hash, traceFri, quotientFri);
    var atChi := EvalAt(tp, chi);
    var atNext := EvalAt(tp, Mul(RootOfUnity(k), chi));
    var qAt := EvalAt(qp, chi);
    proof := DemoProof(traceFri, quotientFri, chi, (atChi, atNext, qAt));
    SquareChainComplete(hash, proof, t, q, a, c, k, numQueries);
  }

  /** The loop multiplying up Z at the challenge. */
  method VanishingAt(k: nat, chi: Elem) returns (z: Elem)
    requires 1 <= k <= 32
    ensures z == ProductAt(TransitionPoints(k), chi)
  {
    hide Mul, Sub, Pow, RootOfUnity;
    DomainSizes(k);
    var n := Pow2(k);
    var w := RootOfUnity(k);
    ghost var points := TransitionPoints(k);
    z := ONE;
    for i := 0 to n - 1
      invariant z == ProductAt(points[..i], chi)
    {
      assert points[..i + 1][..i] == points[..i];
      var wi := Power(w, i);
      z := Mul(z, Sub(chi, wi));
    }
    assert points[..n - 1] == points;
  }

  /** `verify_square_chain`. */
  method VerifySquareChain(hash: Hash, proof: DemoProof, c: U64, b: U64, k: nat, numQueries: nat)
    returns (v: ChainVerdict)
    requires 1 <= k <= 32
    ensures v == ChainVerify(hash, proof, c, b, k, numQueries)
  {
    hide MulWords, Pow, RootOfUnity, FriVerify, DerivedChallenge, ProductAt, ConstraintValue, New, TransitionPoints;
    var transcript := new Transcript([]);
    var traceVerdict := Verify(hash, proof.traceFri, k, numQueries, transcript, Claim(BoundaryPoint(k), New(b)));
    if traceVerdict != Accept {
      return TraceRejected(traceVerdict);
    }
    transcript := new Transcript([]);
    var quotientVerdict := Verify(hash, proof.quotientFri, k, numQueries, transcript, None);
    if quotientVerdict != Accept {
      return QuotientRejected(quotientVerdict);
    }
    var chi := DeriveChallenge(hash, proof.traceFri, proof.quotientFri);
    if chi != proof.challenge {
      return ChallengeMismatch;
    }
    var (tChi, tWchi, qChi) := proof.opens;
    var zChi := VanishingAt(k, chi);
    var rhs := ConstraintValue(tChi, tWchi, c);
    if MulWords(qChi, zChi) != rhs {
      return ConstraintFailed;
    }
    v := ChainAccept;
  }

  /** Proving and then verifying against the public output always succeeds. */
  method ProveThenVerify(hash: Hash, a: U64, c: U64, k: nat, numQueries: nat) returns (v: ChainVerdict)
    requires 2 <= k <= 31
    ensures v == ChainAccept
  {
    hide ChainVerify, IsHonestProof, ChainOutput;
    var proof, t, q := ProveSquareChain(hash, a, c, k, numQueries);
    var b := PublicB(a, c, k);
    v := VerifySquareChain(hash, proof, c, b, k, numQueries);
  }
}
