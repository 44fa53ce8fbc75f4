/** The tower proof: p[0] = 1000 * initial, p[i+1] = p[i] (1000 + g) - 1000 d(w^i), with the
    value after 127 layers public.  The honest proof is accepted for every input unless the
    challenge hits the one row that Z leaves out, and then exactly when the recurrence
    closes up on itself. */
module Tower {
  import opened Goldilocks
  import opened Residues
  import opened Powers
  import opened Primality
  import opened RootsOfUnity
  import opened Polynomials
  import opened PolynomialOps
  import opened PolynomialProduct
  import opened PolynomialDivision
  import opened Interpolation
  import opened Bytes
  import opened FriProtocol
  import opened Wrappers
  import opened FriCompleteness
  import opened FriLoops
  import opened Challenge
  import opened TransitionRows

  const TOWER_LOG2: nat := 7
  const TOWER_ROWS: nat := 128
  const TOWER_LAYERS: nat := 127
  const FRI_LOG2: nat := 9

  datatype TowerProof = TowerProof(
    traceFri: FriProof, quotientFri: FriProof, challenge: U64, opens: (U64, U64, U64))

  /** The public configuration: growth in permille and the difficulty coefficients. */
  datatype Config = Config(growth: U64, a: U64, b: U64, c: U64)

  // ----- the computation -----

  /** `saturating_mul(1000)`. */
  function StartPower(initial: U64): U64 {
    if initial * 1000 >= TWO64 then TWO64 - 1 else initial * 1000
  }

  function DifficultyPoly(cfg: Config): Poly {
    Trim([New(cfg.c), New(cfg.b), New(cfg.a)])
  }

  /** `Fp::new(1000 + growth)`; the sum wraps, as in a release build. */
  function Growth(cfg: Config): Elem {
    New((1000 + cfg.growth) % TWO64)
  }

  function Omega(): Elem {
    RootOfUnity(TOWER_LOG2)
  }

  /** The power after i layers. */
  function TowerAt(initial: U64, cfg: Config, i: nat): Elem {
    if i == 0 then New(StartPower(initial))
    else Sub(Mul(TowerAt(initial, cfg, i - 1), Growth(cfg)),
             Mul(Eval(DifficultyPoly(cfg), Pow(Omega(), i - 1)), New(1000)))
  }

  function TowerTrace(initial: U64, cfg: Config): (t: seq<Elem>)
    ensures |t| == TOWER_ROWS
    ensures forall i :: 0 <= i < TOWER_ROWS ==> t[i] == TowerAt(initial, cfg, i)
  {
    seq(TOWER_ROWS, i requires 0 <= i => TowerAt(initial, cfg, i))
  }

  // ----- the computation over the integers -----

  /** A x^2 + B x + C. */
  function Difficulty(cfg: Config, x: int): int {
    cfg.a * x * x + cfg.b * x + cfg.c
  }

  /** p' = p (1000 + g) - 1000 (A x^2 + B x + C), where x is the i-th power of the root of
      unity of order 128 and the factor wraps at 2^64. */
  function Recurrence(initial: U64, cfg: Config, i: nat): int {
    if i == 0 then if initial * 1000 < 0x1_0000_0000_0000_0000 then initial * 1000 else 0xFFFF_FFFF_FFFF_FFFF
    else Recurrence(initial, cfg, i - 1) * ((1000 + cfg.growth) % 0x1_0000_0000_0000_0000)
         - 1000 * Difficulty(cfg, Pow(RootOfUnity(7), i - 1))
  }

  /** The difficulty polynomial takes that value modulo p. */
  lemma DifficultyValue(cfg: Config, x: Elem)
    ensures Eval(DifficultyPoly(cfg), x) == (cfg.a * x * x + cfg.b * x + cfg.c) % MODULUS
  {
    hide Add, Mul, Eval, New, Trim;
    var a, b, c := New(cfg.a), New(cfg.b), New(cfg.c);
    EvalTrim([c, b, a], x);
    EvalThree(c, b, a, x);
    QuadraticResidue(cfg.a, cfg.b, cfg.c, x);
  }

  lemma EvalThree(c: Elem, b: Elem, a: Elem, x: Elem)
    ensures Eval([c, b, a], x) == Add(c, Mul(x, Add(b, Mul(x, a))))
  {
    hide Add, Mul;
    assert [c, b, a][1..] == [b, a];
    assert [b, a][1..] == [a];
    EvalConstant(a, x);
    assert [a] == Constant(a);
  }

  lemma QuadraticResidue(a: U64, b: U64, c: U64, x: Elem)
    ensures Add(New(c), Mul(x, Add(New(b), Mul(x, New(a))))) == (a * x * x + b * x + c) % MODULUS
  {
    hide Add, Mul;
    MulResidue(x, New(a), x, a);
    AddResidue(New(b), Mul(x, New(a)), b, x * a);
    MulResidue(x, Add(New(b), Mul(x, New(a))), x, b + x * a);
    AddResidue(New(c), Mul(x, Add(New(b), Mul(x, New(a)))), c, x * (b + x * a));
    Expanded(a, b, c, x);
  }

  lemma Expanded(a: int, b: int, c: int, x: int)
    ensures c + x * (b + x * a) == a * x * x + b * x + c
  {
    assert x * (b + x * a) == x * b + x * (x * a);
    assert x * (x * a) == a * x * x;
  }

  lemma StepResidue(t: Elem, g: Elem, e: Elem, p: int, growth: int, d: int)
    requires t == p % MODULUS && g == growth % MODULUS && e == d % MODULUS
    ensures Sub(Mul(t, g), Mul(e, New(1000))) == (p * growth - 1000 * d) % MODULUS
  {
    hide Mul, Sub, New;
    NewIsResidue(1000);
    MulResidue(t, g, p, growth);
    MulResidue(e, New(1000), d, 1000);
    SubResidue(Mul(t, g), Mul(e, New(1000)), p * growth, d * 1000);
  }

  /** The power after i layers is the integer recurrence modulo p. */
  lemma {:induction false} TowerIsRecurrence(initial: U64, cfg: Config, i: nat)
    ensures TowerAt(initial, cfg, i) == Recurrence(initial, cfg, i) % MODULUS
  {
    hide Mul, Sub, Eval, Pow, RootOfUnity, New, DifficultyPoly, Growth, Difficulty;
    if i == 0 {
      NewIsResidue(StartPower(initial));
    } else {
      hide TowerAt, Recurrence;
      var x: Elem := Pow(RootOfUnity(7), i - 1);
      TowerIsRecurrence(initial, cfg, i - 1);
      DifficultyValue(cfg, x);
      DifficultyIs(cfg, x);
      GrowthIsResidue(cfg);
      StepResidue(TowerAt(initial, cfg, i - 1), Growth(cfg), Eval(DifficultyPoly(cfg), x),
                  Recurrence(initial, cfg, i - 1), (1000 + cfg.growth) % TWO64, Difficulty(cfg, x));
      RecurrenceUnfolds(initial, cfg, i);
    }
  }

  lemma DifficultyIs(cfg: Config, x: int)
    ensures Difficulty(cfg, x) == cfg.a * x * x + cfg.b * x + cfg.c
  {
  }

  lemma RecurrenceUnfolds(initial: U64, cfg: Config, i: nat)
    requires i > 0
    ensures var x := Pow(RootOfUnity(7), i - 1);
            && TowerAt(initial, cfg, i) ==
               Sub(Mul(TowerAt(initial, cfg, i - 1), Growth(cfg)), Mul(Eval(DifficultyPoly(cfg), x), New(1000)))
            && Recurrence(initial, cfg, i) ==
               Recurrence(initial, cfg, i - 1) * ((1000 + cfg.growth) % TWO64) - 1000 * Difficulty(cfg, x)
  {
    hide Mul, Sub, Eval, Pow, RootOfUnity, New, DifficultyPoly, Growth, Difficulty;
  }

  lemma GrowthIsResidue(cfg: Config)
    ensures Growth(cfg) == (1000 + cfg.growth) % TWO64 % MODULUS
  {
  }

  /** `simulate_tower`. */
  method SimulateTower(initial: U64, cfg: Config, layers: U64) returns (p: Elem)
    ensures p == TowerAt(initial, cfg, layers)
    ensures p == Recurrence(initial, cfg, layers) % MODULUS
  {
    hide Mul, Sub, Eval, Pow, RootOfUnity, Trim, New, Recurrence;
    p := New(StartPower(initial));
    var g := Growth(cfg);
    var omega := Omega();
    var d := DifficultyPoly(cfg);
    for i := 0 to layers
      invariant p == TowerAt(initial, cfg, i)
    {
      var x := Power(omega, i);
      var di := EvalAt(d, x);
      p := Sub(Mul(p, g), Mul(di, New(1000)));
    }
    TowerIsRecurrence(initial, cfg, layers);
  }

  // ----- the arithmetisation -----

  /** T(wX) - T(X) (1000 + g) + 1000 d(X). */
  function ConstraintPoly(t: Poly, cfg: Config): Poly {
    PolyAdd(PolySub(PolyScaleVar(t, Omega()), PolyMul(t, Constant(Growth(cfg)))),
            PolyMul(DifficultyPoly(cfg), Constant(New(1000))))
  }

  /** The right-hand side of the constraint check, on opened words. */
  function ConstraintValue(atX: U64, atWx: U64, dAtX: Elem, cfg: Config): U64 {
    AddWords(SubWords(atWx, MulWords(atX, Growth(cfg))), Mul(dAtX, New(1000)))
  }

  lemma CanonicalConstraint(atX: Elem, atWx: Elem, dAtX: Elem, cfg: Config)
    ensures ConstraintValue(atX, atWx, dAtX, cfg) == Add(Sub(atWx, Mul(atX, Growth(cfg))), Mul(dAtX, New(1000)))
  {
    hide Add, Mul, Sub, AddWords, SubWords, MulWords, New, Growth;
    WordsAreElems(atX, Growth(cfg));
    WordsAreElems(atWx, Mul(atX, Growth(cfg)));
    WordsAreElems(Sub(atWx, Mul(atX, Growth(cfg))), Mul(dAtX, New(1000)));
  }

  lemma EvalConstraint(t: Poly, cfg: Config, x: Elem)
    ensures Eval(ConstraintPoly(t, cfg), x) ==
            Add(Sub(Eval(t, Mul(Omega(), x)), Mul(Eval(t, x), Growth(cfg))),
                Mul(Eval(DifficultyPoly(cfg), x), New(1000)))
    ensures Eval(ConstraintPoly(t, cfg), x) ==
            ConstraintValue(Eval(t, x), Eval(t, Mul(Omega(), x)), Eval(DifficultyPoly(cfg), x), cfg)
  {
    hide Add, Mul, Sub, Eval, PolyAdd, PolySub, PolyScaleVar, PolyMul, New, DifficultyPoly, Omega, ConstraintValue, Growth;
    CanonicalConstraint(Eval(t, x), Eval(t, Mul(Omega(), x)), Eval(DifficultyPoly(cfg), x), cfg);
    var d := DifficultyPoly(cfg);
    var shifted, grown := PolyScaleVar(t, Omega()), PolyMul(t, Constant(Growth(cfg)));
    EvalOps(t, [], Omega(), x);
    EvalConstant(Growth(cfg), x);
    EvalPolyMul(t, Constant(Growth(cfg)), x);
    EvalOps(shifted, grown, ZERO, x);
    EvalConstant(New(1000), x);
    EvalPolyMul(d, Constant(New(1000)), x);
    EvalOps(PolySub(shifted, grown), PolyMul(d, Constant(New(1000))), ZERO, x);
  }

  /** The constraint on row i compares p[i+1] with the value after i + 1 layers. */
  lemma ConstraintOnRow(t: Poly, initial: U64, cfg: Config, i: nat, next: Elem)
    requires i < TOWER_ROWS == Pow2(TOWER_LOG2)
    requires Eval(t, DomainOf(TOWER_LOG2)[i]) == TowerAt(initial, cfg, i)
    requires Eval(t, Mul(Omega(), DomainOf(TOWER_LOG2)[i])) == next
    ensures Eval(ConstraintPoly(t, cfg), DomainOf(TOWER_LOG2)[i]) == ZERO <==> next == TowerAt(initial, cfg, i + 1)
  {
    hide Add, Mul, Sub, Eval, Pow, RootOfUnity, ConstraintPoly, ConstraintValue, New, DifficultyPoly, Growth;
    EvalConstraint(t, cfg, DomainOf(TOWER_LOG2)[i]);
    StepIff(next, Mul(TowerAt(initial, cfg, i), Growth(cfg)),
            Mul(Eval(DifficultyPoly(cfg), DomainOf(TOWER_LOG2)[i]), New(1000)));
  }

  lemma StepIff(n: Elem, u: Elem, v: Elem)
    ensures Add(Sub(n, u), v) == ZERO <==> n == Sub(u, v)
  {
    hide Add;
    LinearLaws();
  }

  lemma Rows()
    ensures Pow2(TOWER_LOG2) == TOWER_ROWS && Pow2(FRI_LOG2) == 512
  {
  }

  lemma ConstraintVanishes(t: Poly, initial: U64, cfg: Config, i: nat)
    requires TOWER_ROWS == Pow2(TOWER_LOG2) && i < TOWER_LAYERS
    requires Interpolates(t, DomainOf(TOWER_LOG2), TowerTrace(initial, cfg))
    ensures Eval(ConstraintPoly(t, cfg), TransitionPoints(TOWER_LOG2)[i]) == ZERO
  {
    hide Add, Mul, Sub, Eval, Pow, RootOfUnity, ConstraintPoly, TowerAt, Pow2;
    PowUnfold(Omega(), i);
    assert Mul(Omega(), DomainOf(TOWER_LOG2)[i]) == DomainOf(TOWER_LOG2)[i + 1];
    ConstraintOnRow(t, initial, cfg, i, TowerAt(initial, cfg, i + 1));
  }

  /** Past the last row the trace wraps around to its start. */
  lemma ConstraintAtLastRow(t: Poly, initial: U64, cfg: Config)
    requires TOWER_ROWS == Pow2(TOWER_LOG2)
    requires Interpolates(t, DomainOf(TOWER_LOG2), TowerTrace(initial, cfg))
    ensures Eval(ConstraintPoly(t, cfg), BoundaryPoint(TOWER_LOG2)) == ZERO <==>
            TowerAt(initial, cfg, TOWER_ROWS) == TowerAt(initial, cfg, 0)
  {
    hide Add, Mul, Sub, Eval, Pow, RootOfUnity, ConstraintPoly, TowerAt, PrimitiveRoot, Pow2;
    BoundaryInDomain(TOWER_LOG2);
    RootIsPrimitive(TOWER_LOG2);
    RootToFullOrder(Omega(), TOWER_LOG2);
    PowUnfold(Omega(), TOWER_LAYERS);
    PowUnfold(Omega(), 0);
    assert Mul(Omega(), DomainOf(TOWER_LOG2)[TOWER_LAYERS]) == DomainOf(TOWER_LOG2)[0];
    ConstraintOnRow(t, initial, cfg, TOWER_LAYERS, TowerAt(initial, cfg, 0));
  }

  // ----- Z -----

  /** `Fp::new(-1i64 as u64)`: 2^32 - 2, not -1. */
  const MINUS_ONE_WORD: Elem := 0xFFFF_FFFE

  lemma CastOfMinusOne()
    ensures New(TWO64 - 1) == MINUS_ONE_WORD != MINUS_ONE
  {
  }

  /** The added constant c only reaches the remainder: whatever it is, the quotient of
      X^N + c by X - r takes the values of (X^N - 1)/(X - r). */
  lemma QuotientIgnoresConstant(z: Poly, rem: Poly, k: nat, c: Elem, x: Elem)
    requires 1 <= k <= 32
    requires IsDivision(PowerPlus(Pow2(k), c), [Neg(BoundaryPoint(k)), ONE], z, rem)
    ensures Mul(Eval(z, x), Sub(x, BoundaryPoint(k))) == Sub(Pow(x, Pow2(k)), ONE)
  {
    hide Add, Mul, Sub, Neg, Eval, Pow, PowerPlus, RootOfUnity, Pow2, DomainOf;
    var n, r := Pow2(k), BoundaryPoint(k);
    var f, d := PowerPlus(n, c), [Neg(r), ONE];
    BoundaryInDomain(k);
    DomainPower(k, n - 1);
    EvalPowerPlus(n, c, x);
    EvalPowerPlus(n, c, r);
    EvalLinear(r, x);
    EvalLinear(r, r);
    SubZero(r, r);
    MulNeutral(Eval(z, r));
    AddNeutral(Eval(rem, r));
    ShortIsConstant(rem, x, r);
    // x^n + c = z(x) (x - r) + (1 + c)
    RemoveConstant(Mul(Eval(z, x), Sub(x, r)), Pow(x, n), c);
  }

  lemma ShortIsConstant(f: Poly, x: Elem, y: Elem)
    requires |f| <= 1
    ensures Eval(f, x) == Eval(f, y)
  {
    hide Add, Mul;
    if |f| == 1 {
      assert f == Constant(f[0]);
      EvalConstant(f[0], x);
      EvalConstant(f[0], y);
    }
  }

  lemma RemoveConstant(m: Elem, p: Elem, c: Elem)
    requires Add(p, c) == Add(m, Add(ONE, c))
    ensures m == Sub(p, ONE)
  {
    hide Add;
    LinearLaws();
  }

  /** Hence Z is the product of X - w^i over the rows but the last. */
  lemma ZIsRowProduct(z: Poly, rem: Poly, k: nat, c: Elem)
    requires 1 <= k <= 31
    requires IsDivision(PowerPlus(Pow2(k), c), [Neg(BoundaryPoint(k)), ONE], z, rem)
    ensures z == LinearProduct(TransitionPoints(k))
  {
    hide Add, Mul, Sub, Neg, Eval, Pow, PowerPlus, RootOfUnity, Pow2, LinearProduct, DivIdentity,
         BoundaryPoint, TransitionPoints;
    var n, r := Pow2(k), BoundaryPoint(k);
    var l := LinearProduct(TransitionPoints(k));
    SmallPow2(k);
    var xs := AvoidingElements(n, r);
    RowsLaws(k);
    forall i | 0 <= i < n
      ensures Eval(z, xs[i]) == Eval(l, xs[i])
    {
      SameQuotientValue(z, rem, k, c, xs[i]);
    }
    AgreementForcesEquality(z, l, xs);
    LinearProductLaws(TransitionPoints(k), ZERO);
    assert Coeff(z, n - 1) == Coeff(l, n - 1);
    CanonicalUnique(z, l);
  }

  lemma SmallPow2(k: nat)
    requires k <= 31
    ensures 2 * Pow2(k) <= MODULUS
  {
    Pow2Of32();
    if k < 31 {
      Pow2Monotonic(k, 31);
    }
  }

  lemma SameQuotientValue(z: Poly, rem: Poly, k: nat, c: Elem, x: Elem)
    requires 1 <= k <= 31 && x != BoundaryPoint(k)
    requires IsDivision(PowerPlus(Pow2(k), c), [Neg(BoundaryPoint(k)), ONE], z, rem)
    ensures Eval(z, x) == Eval(LinearProduct(TransitionPoints(k)), x)
  {
    hide Add, Mul, Sub, Neg, Eval, Pow, PowerPlus, RootOfUnity, Pow2, LinearProduct, IsDivision,
         BoundaryPoint;
    QuotientIgnoresConstant(z, rem, k, c, x);
    RowProductValue(k, x);
    LinearProductLaws(TransitionPoints(k), x);
    SubZero(x, BoundaryPoint(k));
    var s := Sub(x, BoundaryPoint(k));
    MulCommutes(Eval(z, x), s);
    MulCommutes(ProductAt(TransitionPoints(k), x), s);
    CancelFactor(s, Eval(z, x), ProductAt(TransitionPoints(k), x));
  }

  /** prod_{i < N-1} (x - w^i) times (x - w^(N-1)) is x^N - 1. */
  lemma RowProductValue(k: nat, x: Elem)
    requires 1 <= k <= 32
    ensures Mul(ProductAt(TransitionPoints(k), x), Sub(x, BoundaryPoint(k))) == Sub(Pow(x, Pow2(k)), ONE)
  {
    hide Mul, Sub, Pow, RootOfUnity, DomainOf;
    DomainProduct(k, x);
    BoundaryInDomain(k);
  }

  /** The verifier's fast evaluation: (x^N - 1) (x - w^(N-1))^(-1), with 0 inverted to 0. */
  function FastVanishing(x: Elem): Elem {
    Mul(Sub(Pow(x, TOWER_ROWS), ONE), Inv(Sub(x, Pow(Omega(), TOWER_LAYERS))))
  }

  lemma FastVanishingIsExact(x: Elem)
    requires Pow2(TOWER_LOG2) == TOWER_ROWS
    ensures FastVanishing(x) ==
            if x == BoundaryPoint(TOWER_LOG2) then ZERO else ProductAt(TransitionPoints(TOWER_LOG2), x)
  {
    hide Mul, Sub, Pow, RootOfUnity, ProductAt, TransitionPoints, Inv, Pow2;
    var s := Sub(x, BoundaryPoint(TOWER_LOG2));
    var p := ProductAt(TransitionPoints(TOWER_LOG2), x);
    RowProductValue(TOWER_LOG2, x);
    SubZero(x, BoundaryPoint(TOWER_LOG2));
    InverseIsExact(s);
    MulAssociates(p, s, Inv(s));
    MulNeutral(p);
    MulNeutral(Sub(Pow(x, TOWER_ROWS), ONE));
  }

  // ----- prover and verifier -----

  /** The last trace row is a point of the four times larger FRI domain. */
  lemma BoundaryInFriDomain()
    ensures BoundaryPoint(TOWER_LOG2) in DomainOf(FRI_LOG2)
  {
    Rows();
    hide Pow, RootOfUnity, Mul, DomainOf, Pow2;
    RootSquared(9);
    RootSquared(8);
    PowOne(RootOfUnity(9));
    PowOne(RootOfUnity(8));
    PowMul(RootOfUnity(9), 2, 2);
    PowMul(RootOfUnity(9), 4, TOWER_LAYERS);
    DomainElement(FRI_LOG2, 508);
  }

  function ProofFrom(hash: Hash, t: Poly, q: Poly, numQueries: nat): TowerProof {
    hide Mul, Eval, Pow, RootOfUnity, FriProve, DerivedChallenge, DomainOf, Inv;
    BoundaryInFriDomain();
    var traceFri := FriProve(hash, t, FRI_LOG2, numQueries, [], Some(BoundaryPoint(TOWER_LOG2)));
    var quotientFri := FriProve(hash, q, FRI_LOG2, numQueries, [], None);
    var chi := DerivedChallenge(hash, traceFri, quotientFri);
    TowerProof(traceFri, quotientFri, chi, (Eval(t, chi), Eval(t, Mul(Omega(), chi)), Eval(q, chi)))
  }

  /** q is the exact quotient of the constraint by Z. */
  ghost predicate ExactQuotient(t: Poly, q: Poly, cfg: Config) {
    && |q| <= Pow2(TOWER_LOG2)
    && (q == [] || Canonical(q))
    && forall x: Elem ::
         Eval(ConstraintPoly(t, cfg), x) == Mul(Eval(q, x), ProductAt(TransitionPoints(TOWER_LOG2), x))
  }

  /** What `prove_tower` returns. */
  ghost predicate IsHonestProof(
    hash: Hash, proof: TowerProof, t: Poly, q: Poly, initial: U64, cfg: Config, numQueries: nat)
  {
    && |DomainOf(TOWER_LOG2)| == TOWER_ROWS
    && Interpolates(t, DomainOf(TOWER_LOG2), TowerTrace(initial, cfg))
    && ExactQuotient(t, q, cfg)
    && proof == ProofFrom(hash, t, q, numQueries)
  }

  datatype TowerVerdict =
    | TowerAccept
    | TraceRejected(why: Verdict)
    | QuotientRejected(why: Verdict)
    | ChallengeMismatch
    | ConstraintFailed

  /** `verify_tower`. */
  function TowerVerify(hash: Hash, proof: TowerProof, cfg: Config, claimedFinal: U64, numQueries: nat): TowerVerdict {
    var boundaryPt := Pow(Omega(), TOWER_LAYERS);
    var traceVerdict := FriVerify(hash, proof.traceFri, FRI_LOG2, numQueries, [], Claim(boundaryPt, New(claimedFinal)));
    if traceVerdict != Accept then TraceRejected(traceVerdict)
    else
      var quotientVerdict := FriVerify(hash, proof.quotientFri, FRI_LOG2, numQueries, [], None);
      if quotientVerdict != Accept then QuotientRejected(quotientVerdict)
      else
        var chi := DerivedChallenge(hash, proof.traceFri, proof.quotientFri);
        if chi != proof.challenge then ChallengeMismatch
        else
          var (tChi, tWchi, qChi) := proof.opens;
          if MulWords(qChi, FastVanishing(chi)) != ConstraintValue(tChi, tWchi, Eval(DifficultyPoly(cfg), chi), cfg)
          then ConstraintFailed
          else TowerAccept
  }

  /** An accepted proof, honest or not, carries the challenge derived from its commitments:
      the first word of the hash of the message that lists them. */
  lemma AcceptedChallengeIsDerived(hash: Hash, proof: TowerProof, cfg: Config, claim: U64, numQueries: nat)
    requires TowerVerify(hash, proof, cfg, claim, numQueries) == TowerAccept
    ensures proof.challenge == DerivedChallenge(hash, proof.traceFri, proof.quotientFri)
    ensures hide TowerVerify, ChallengeMessage, FromBigEndian;
            proof.challenge ==
            FromBigEndian(hash(ChallengeMessage(proof.traceFri, proof.quotientFri))[..8]) % MODULUS
  {
    hide FriVerify, DerivedChallenge, FromBigEndian, ChallengeMessage, FastVanishing, MulWords, ConstraintValue, New,
         Eval, DifficultyPoly, Pow;
    ChallengeIsFirstWord(hash, proof.traceFri, proof.quotientFri);
  }

  /** Completeness, exactly: the honest proof is accepted unless the challenge is the last
      row of the trace, and there it is accepted iff the recurrence returns to its start. */
  lemma TowerComplete(
    hash: Hash, proof: TowerProof, t: Poly, q: Poly, initial: U64, cfg: Config, numQueries: nat)
    requires IsHonestProof(hash, proof, t, q, initial, cfg, numQueries)
    ensures hide TowerVerify, IsHonestProof, TowerAt, Omega, Pow;
            TowerVerify(hash, proof, cfg, TowerAt(initial, cfg, TOWER_LAYERS), numQueries) == TowerAccept <==>
            (proof.challenge != Pow(Omega(), TOWER_LAYERS) ||
             TowerAt(initial, cfg, TOWER_ROWS) == TowerAt(initial, cfg, 0))
  {
    Rows();
    hide Mul, MulWords, Sub, Eval, Pow, RootOfUnity, FriProve, FriVerify, DerivedChallenge, ProductAt, FastVanishing,
         ConstraintPoly, ConstraintValue, TowerAt, DomainOf, Pow2, TransitionPoints, DifficultyPoly;
    var pt, p := BoundaryPoint(TOWER_LOG2), TowerAt(initial, cfg, TOWER_LAYERS);
    BoundaryInFriDomain();
    BoundaryInDomain(TOWER_LOG2);
    assert Eval(t, pt) == p;
    NewOfElem(p);
    FriComplete(hash, t, FRI_LOG2, numQueries, [], Some(pt), Claim(pt, p));
    FriComplete(hash, q, FRI_LOG2, numQueries, [], None, None);
    EvalConstraint(t, cfg, proof.challenge);
    FastVanishingIsExact(proof.challenge);
    WordsAreElems(Eval(q, proof.challenge), FastVanishing(proof.challenge));
    ConstraintAtLastRow(t, initial, cfg);
    MulNeutral(Eval(q, proof.challenge));
  }

  /** An honest proof, offered for another final power, is accepted for exactly the claims that
      are the same field element.  This is about the honest proof object only. */
  lemma ClaimExact(
    hash: Hash, proof: TowerProof, t: Poly, q: Poly, initial: U64, cfg: Config, numQueries: nat, claim: U64)
    requires IsHonestProof(hash, proof, t, q, initial, cfg, numQueries)
    ensures hide TowerVerify, IsHonestProof, TowerAt, New;
            TowerVerify(hash, proof, cfg, claim, numQueries) == TowerAccept <==>
            New(claim) == TowerAt(initial, cfg, TOWER_LAYERS) &&
            TowerVerify(hash, proof, cfg, TowerAt(initial, cfg, TOWER_LAYERS), numQueries) == TowerAccept
  {
    Rows();
    hide Mul, MulWords, Sub, Eval, Pow, RootOfUnity, FriProve, FriVerify, DerivedChallenge, ProductAt, FastVanishing,
         ConstraintPoly, ConstraintValue, TowerAt, DomainOf, Pow2, TransitionPoints, DifficultyPoly, New;
    var pt, p := BoundaryPoint(TOWER_LOG2), TowerAt(initial, cfg, TOWER_LAYERS);
    BoundaryInFriDomain();
    BoundaryInDomain(TOWER_LOG2);
    assert Eval(t, pt) == p;
    NewOfElem(p);
    BoundaryExact(hash, t, FRI_LOG2, numQueries, [], pt, New(claim));
  }

  /** One layer from power p at the domain element x. */
  function LayerStep(cfg: Config, p: Elem, x: Elem): Elem {
    Sub(Mul(p, Growth(cfg)), Mul(Eval(DifficultyPoly(cfg), x), New(1000)))
  }

  lemma TwoSteps(w: Elem, u: Elem, d: Elem, u': Elem, d': Elem)
    ensures Add(Sub(w, u), d) == Add(Sub(w, u'), d') <==> Sub(u, d) == Sub(u', d')
  {
    hide Add, Sub;
    SubIs(w, u);
    SubIs(w, u');
    SubIs(u, d);
    SubIs(u', d');
    AddIsModular(Sub(w, u), d);
    AddIsModular(Sub(w, u'), d');
  }

  lemma FirstAfterLast(t: Poly, initial: U64, cfg: Config)
    requires TOWER_ROWS == Pow2(TOWER_LOG2)
    requires Interpolates(t, DomainOf(TOWER_LOG2), TowerTrace(initial, cfg))
    ensures Eval(t, BoundaryPoint(TOWER_LOG2)) == TowerAt(initial, cfg, TOWER_LAYERS)
    ensures Eval(t, Mul(Omega(), BoundaryPoint(TOWER_LOG2))) == TowerAt(initial, cfg, 0)
  {
    hide Add, Mul, Sub, Eval, Pow, RootOfUnity, TowerAt, PrimitiveRoot, Pow2;
    BoundaryInDomain(TOWER_LOG2);
    RootIsPrimitive(TOWER_LOG2);
    RootToFullOrder(Omega(), TOWER_LOG2);
    PowUnfold(Omega(), TOWER_LAYERS);
    PowUnfold(Omega(), 0);
    assert Mul(Omega(), DomainOf(TOWER_LOG2)[TOWER_LAYERS]) == DomainOf(TOWER_LOG2)[0];
  }

  /** The honest openings at x pass the constraint check of a configuration iff it makes the
      same step from T(x); on the last row, iff it steps from the last power to the first. */
  lemma CheckExact(t: Poly, q: Poly, initial: U64, cfg: Config, cfg': Config, x: Elem)
    requires TOWER_ROWS == Pow2(TOWER_LOG2) && t != []
    requires Interpolates(t, DomainOf(TOWER_LOG2), TowerTrace(initial, cfg)) && ExactQuotient(t, q, cfg)
    ensures MulWords(Eval(q, x), FastVanishing(x)) ==
            ConstraintValue(Eval(t, x), Eval(t, Mul(Omega(), x)), Eval(DifficultyPoly(cfg'), x), cfg') <==>
            if x != BoundaryPoint(TOWER_LOG2) then LayerStep(cfg, Eval(t, x), x) == LayerStep(cfg', Eval(t, x), x)
            else TowerAt(initial, cfg, 0) == LayerStep(cfg', TowerAt(initial, cfg, TOWER_LAYERS), x)
  {
    hide Add, Mul, MulWords, Sub, Eval, Pow, RootOfUnity, ProductAt, FastVanishing, ConstraintPoly, ConstraintValue,
         TowerAt, DomainOf, Pow2, TransitionPoints, DifficultyPoly, New, Growth, Omega, BoundaryPoint;
    var v, w, d, d' := Eval(t, x), Eval(t, Mul(Omega(), x)), Eval(DifficultyPoly(cfg), x), Eval(DifficultyPoly(cfg'), x);
    EvalConstraint(t, cfg, x);
    CanonicalConstraint(v, w, d', cfg');
    FastVanishingIsExact(x);
    WordsAreElems(Eval(q, x), FastVanishing(x));
    TwoSteps(w, Mul(v, Growth(cfg)), Mul(d, New(1000)), Mul(v, Growth(cfg')), Mul(d', New(1000)));
    if x == BoundaryPoint(TOWER_LOG2) {
      FirstAfterLast(t, initial, cfg);
      MulNeutral(Eval(q, x));
      StepIff(w, Mul(v, Growth(cfg')), Mul(d', New(1000)));
    }
  }

  /** An honest proof, offered for another configuration and claim, is accepted iff the claim
      is the final power and the other configuration makes the same step from the trace's
      value at the challenge (on the last row: steps from the last power to the first). */
  lemma ConfigExact(
    hash: Hash, proof: TowerProof, t: Poly, q: Poly, initial: U64, cfg: Config, numQueries: nat,
    cfg': Config, claim: U64)
    requires IsHonestProof(hash, proof, t, q, initial, cfg, numQueries)
    ensures proof.challenge < MODULUS
    ensures hide TowerVerify, IsHonestProof, TowerAt, New, LayerStep, Eval, Pow, Omega;
            var chi: Elem := proof.challenge;
            TowerVerify(hash, proof, cfg', claim, numQueries) == TowerAccept <==>
            New(claim) == TowerAt(initial, cfg, TOWER_LAYERS) &&
            if chi != Pow(Omega(), TOWER_LAYERS) then LayerStep(cfg, Eval(t, chi), chi) == LayerStep(cfg', Eval(t, chi), chi)
            else TowerAt(initial, cfg, 0) == LayerStep(cfg', TowerAt(initial, cfg, TOWER_LAYERS), chi)
  {
    Rows();
    hide Mul, MulWords, Sub, Eval, Pow, RootOfUnity, FriProve, FriVerify, DerivedChallenge, ProductAt, FastVanishing,
         ConstraintPoly, ConstraintValue, TowerAt, DomainOf, Pow2, TransitionPoints, DifficultyPoly, New, LayerStep,
         ExactQuotient;
    var pt, p := BoundaryPoint(TOWER_LOG2), TowerAt(initial, cfg, TOWER_LAYERS);
    BoundaryInFriDomain();
    BoundaryInDomain(TOWER_LOG2);
    assert Eval(t, pt) == p;
    BoundaryExact(hash, t, FRI_LOG2, numQueries, [], pt, New(claim));
    QuotientFits(t, q, cfg);
    FriComplete(hash, q, FRI_LOG2, numQueries, [], None, None);
    CheckExact(t, q, initial, cfg, cfg', proof.challenge);
  }

  lemma QuotientFits(t: Poly, q: Poly, cfg: Config)
    requires ExactQuotient(t, q, cfg)
    ensures |q| <= Pow2(FRI_LOG2)
  {
    Rows();
  }

  // ----- loops -----

  method TraceLoop(initial: U64, cfg: Config) returns (trace: seq<Elem>)
    ensures trace == TowerTrace(initial, cfg)
  {
    hide Mul, Sub, Eval, Pow, RootOfUnity, Trim, New;
    var d := DifficultyPoly(cfg);
    var g := Growth(cfg);
    var omega := Omega();
    trace := [New(StartPower(initial))];
    for i := 0 to TOWER_ROWS - 1
      invariant |trace| == i + 1
      invariant forall j :: 0 <= j <= i ==> trace[j] == TowerAt(initial, cfg, j)
    {
      var x := Power(omega, i);
      var di := EvalAt(d, x);
      trace := trace + [Sub(Mul(trace[i], g), Mul(di, New(1000)))];
    }
  }

  /** The block that builds Z by dividing X^128 + (2^32 - 2) by X - w^127. */
  method BuildZ() returns (z: Poly)
    ensures z == LinearProduct(TransitionPoints(TOWER_LOG2))
  {
    Rows();
    hide Neg, Trim, LinearProduct, Pow, RootOfUnity, IsDivision, Pow2, Add, New;
    CastOfMinusOne();
    var xRows := FromCoeffs(Zeros(TOWER_ROWS) + [ONE]);
    TrimMonic(Zeros(TOWER_ROWS) + [ONE]);
    var minusOne := Constant(New(TWO64 - 1));
    var denom := FromCoeffs([Neg(Pow(Omega(), TOWER_LAYERS)), ONE]);
    TrimMonic([Neg(Pow(Omega(), TOWER_LAYERS)), ONE]);
    var sum := AddPolys(xRows, minusOne);
    SumIsPowerPlus(xRows, minusOne);
    var rem;
    z, rem := DivMod(sum, denom);
    ZIsRowProduct(z, rem, TOWER_LOG2, MINUS_ONE_WORD);
  }

  lemma SumIsPowerPlus(xRows: Poly, c: Poly)
    requires xRows == Zeros(TOWER_ROWS) + [ONE] && c == [MINUS_ONE_WORD]
    ensures PolyAdd(xRows, c) == PowerPlus(TOWER_ROWS, MINUS_ONE_WORD)
  {
    hide Add;
    LinearLaws();
    assert Sum(xRows, c) == PowerPlus(TOWER_ROWS, MINUS_ONE_WORD);
    TrimMonic(Sum(xRows, c));
  }

  lemma ConstraintLength(t: Poly, cfg: Config)
    requires 1 <= |t| <= TOWER_ROWS
    ensures Canonical(ConstraintPoly(t, cfg)) && |ConstraintPoly(t, cfg)| <= TOWER_ROWS
  {
    hide Add, Mul, Neg, Trim, New, Conv, Dilated;
    var shifted, grown := PolyScaleVar(t, Omega()), PolyMul(t, Constant(Growth(cfg)));
    var scaled := PolyMul(DifficultyPoly(cfg), Constant(New(1000)));
    AddIsCanonical(shifted, PolyNeg(grown));
    AddIsCanonical(PolySub(shifted, grown), scaled);
  }

  /** The constraint polynomial is divided by Z without remainder. */
  method QuotientOf(t: Poly, initial: U64, cfg: Config) returns (q: Poly)
    requires |DomainOf(TOWER_LOG2)| == TOWER_ROWS
    requires Interpolates(t, DomainOf(TOWER_LOG2), TowerTrace(initial, cfg))
    ensures ExactQuotient(t, q, cfg)
  {
    Rows();
    hide Add, Mul, Sub, Eval, Pow, RootOfUnity, New, LinearProduct, PolyAdd, PolySub, PolyScaleVar, PolyMul,
         TowerTrace, ProductAt, DomainOf, Pow2, TransitionPoints, DifficultyPoly, IsDivision;
    var d := DifficultyPoly(cfg);
    var shifted := ScaleVar(t, Omega());
    DifficultyLength(cfg);
    var grown := Multiply(t, Constant(Growth(cfg)));
    var scaled := Multiply(d, Constant(New(1000)));
    var cPoly := AddPolys(PolySub(shifted, grown), scaled);
    assert cPoly == ConstraintPoly(t, cfg);
    ConstraintLength(t, cfg);
    var z := BuildZ();
    RowsLaws(TOWER_LOG2);
    LinearProductLaws(TransitionPoints(TOWER_LOG2), ZERO);
    var rem;
    q, rem := DivMod(cPoly, z);
    forall i | 0 <= i < TOWER_LAYERS
      ensures Eval(cPoly, TransitionPoints(TOWER_LOG2)[i]) == ZERO
    {
      ConstraintVanishes(t, initial, cfg, i);
    }
    DivisionOverRows(cPoly, q, rem, TOWER_LOG2);
    // the debug assertion on the remainder
    CanonicalZero(rem);
    assert rem == [ZERO];
  }

  lemma DifficultyLength(cfg: Config)
    ensures 1 <= |DifficultyPoly(cfg)| <= 3
  {
    hide Trim, New;
  }

  /** `prove_tower`. */
  method ProveTower(hash: Hash, initial: U64, cfg: Config, numQueries: nat)
    returns (proof: TowerProof, ghost t: Poly, ghost q: Poly)
    ensures IsHonestProof(hash, proof, t, q, initial, cfg, numQueries)
    ensures hide TowerVerify, IsHonestProof, TowerAt, Omega, Pow;
            TowerVerify(hash, proof, cfg, TowerAt(initial, cfg, TOWER_LAYERS), numQueries) == TowerAccept <==>
            (proof.challenge != Pow(Omega(), TOWER_LAYERS) ||
             TowerAt(initial, cfg, TOWER_ROWS) == TowerAt(initial, cfg, 0))
  {
    Rows();
    hide Mul, Eval, Pow, RootOfUnity, TowerTrace, ExactQuotient, FriProve, DerivedChallenge, DomainOf, Pow2, TowerVerify,
         TowerAt;
    DomainIsDistinct(TOWER_LOG2);
    var trace := TraceLoop(initial, cfg);
    var d := Domain(TOWER_LOG2);
    var tp := Interpolate(d, trace);
    var qp := QuotientOf(tp, initial, cfg);
    t, q := tp, qp;
    BoundaryInFriDomain();
    var boundaryPt := BoundaryPoint(TOWER_LOG2);
    var transcript := new Transcript([]);
    var traceFri := Prove(hash, tp, FRI_LOG2, numQueries, transcript, Some(boundaryPt));
    transcript := new Transcript([]);
    var quotientFri := Prove(hash, qp, FRI_LOG2, numQueries, transcript, None);
    var chi := DeriveChallenge(hash, traceFri, quotientFri);
    var atChi := EvalAt(tp, chi);
    var atNext := EvalAt(tp, Mul(Omega(), chi));
    var qAt := EvalAt(qp, chi);
    proof := TowerProof(traceFri, quotientFri, chi, (atChi, atNext, qAt));
    TowerComplete(hash, proof, t, q, initial, cfg, numQueries);
  }

  /** `verify_tower`. */
  method VerifyTower(hash: Hash, proof: TowerProof, cfg: Config, claimedFinal: U64, numQueries: nat)
    returns (v: TowerVerdict)
    ensures v == TowerVerify(hash, proof, cfg, claimedFinal, numQueries)
  {
    hide MulWords, Mul, ConstraintValue, Pow, RootOfUnity, FriVerify, DerivedChallenge, Sub, New, Inv, Eval, DifficultyPoly;
    var omega := Omega();
    var boundaryPt := Power(omega, TOWER_LAYERS);
    var transcript := new Transcript([]);
    var traceVerdict := Verify(hash, proof.traceFri, FRI_LOG2, numQueries, transcript, Claim(boundaryPt, New(claimedFinal)));
    if traceVerdict != Accept {
      return TraceRejected(traceVerdict);
    }
    transcript := new Transcript([]);
    var quotientVerdict := Verify(hash, proof.quotientFri, FRI_LOG2, numQueries, transcript, None);
    if quotientVerdict != Accept {
      return QuotientRejected(quotientVerdict);
    }
    var chi := DeriveChallenge(hash, proof.traceFri, proof.quotientFri);
    if chi != proof.challenge {
      return ChallengeMismatch;
    }
    var (tChi, tWchi, qChi) := proof.opens;
    var chiPow := Power(chi, TOWER_ROWS);
    var zChi := Mul(Sub(chiPow, ONE), Inv(Sub(chi, boundaryPt)));
    var dChi := EvalAt(DifficultyPoly(cfg), chi);
    var rhs := ConstraintValue(tChi, tWchi, dChi, cfg);
    if MulWords(qChi, zChi) != rhs {
      return ConstraintFailed;
    }
    v := TowerAccept;
  }

  /** Proving and then verifying against the simulated final power succeeds unless the
      challenge of the proof is the last row and the recurrence does not return there. */
  method ProveThenVerify(hash: Hash, initial: U64, cfg: Config, numQueries: nat)
    returns (v: TowerVerdict, proof: TowerProof, ghost t: Poly, ghost q: Poly)
    ensures v == TowerAccept <==>
            (proof.challenge != Pow(Omega(), TOWER_LAYERS) ||
             TowerAt(initial, cfg, TOWER_ROWS) == TowerAt(initial, cfg, 0))
    ensures hide TowerAt, Pow, Omega;
            IsHonestProof(hash, proof, t, q, initial, cfg, numQueries)
  {
    hide TowerVerify, IsHonestProof, TowerAt, Pow, Omega;
    var honest, poly, quotient := ProveTower(hash, initial, cfg, numQueries);
    var final := SimulateTower(initial, cfg, TOWER_LAYERS);
    v := VerifyTower(hash, honest, cfg, final, numQueries);
    proof, t, q := honest, poly, quotient;
  }
}
