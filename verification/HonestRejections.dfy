/** Inputs on which an honest proof is rejected: the exceptions in the completeness theorems
    of the tower and of the enhance circuit do occur. */
module HonestRejections {
  import opened Goldilocks
  import opened Powers
  import opened Primality
  import opened RootsOfUnity
  import opened Polynomials
  import opened PolynomialDivision
  import opened Interpolation
  import opened Bytes
  import opened FriProtocol
  import opened FriCompleteness
  import opened Challenge
  import opened Words
  import opened XorshiftAir
  import opened EnhanceConstraints
  import opened EnhanceProtocol
  import opened EnhanceLoops
  import T = Tower

  // ----- digests with a chosen first word -----

  /** A digest that holds a word and a number. */
  function Numbered(v: U64, n: nat): (d: Digest)
    ensures d[..8] == WordBytes(v) && d[8..16] == WordBytes(n)
  {
    WordBytes(v) + WordBytes(n) + seq(16, _ => 0)
  }

  lemma WordOfNumbered(v: U64, n: nat)
    ensures WordOf(Numbered(v, n)) == v
  {
    hide BigEndian, FromBigEndian, Pow256;
    Pow256Of8();
    BigEndianRoundTrip(v, 8);
  }

  // ----- the tower -----

  /** Growth p - 1000 multiplies by zero: the power is 1000 and then 0 for ever. */
  const STUCK: T.Config := T.Config(MODULUS - 1000, 0, 0, 0)

  /** Every hash names the last row of the trace. */
  function LastRowHash(): Hash {
    _ => Numbered(Pow(T.Omega(), T.TOWER_LAYERS), 0)
  }

  lemma ZeroGrowth()
    ensures T.Growth(STUCK) == ZERO && IsZero(T.DifficultyPoly(STUCK))
  {
    assert Trim([0, 0, 0]) == [0] by {
      assert [0, 0, 0][..2] == [0, 0] && [0, 0][..1] == [0];
    }
  }

  lemma StuckPower(i: nat)
    ensures T.TowerAt(1, STUCK, i) == if i == 0 then 1000 else 0
  {
    hide Mul, Pow, RootOfUnity, Eval, New;
    ZeroGrowth();
    if i == 0 {
      assert T.StartPower(1) == 1000 == New(1000) by { NewOfElem(1000); }
    } else {
      EvalOfZero(T.DifficultyPoly(STUCK), Pow(T.Omega(), i - 1));
      MulNeutral(T.TowerAt(1, STUCK, i - 1));
      MulNeutral(New(1000));
      MulCommutes(New(1000), ZERO);
      SubZero(ZERO, ZERO);
    }
  }

  /** An honest proof from an initial power of 1, with that hash and configuration. */
  ghost predicate IsStuckProof(proof: T.TowerProof, t: Poly, q: Poly, numQueries: nat) {
    hide LastRowHash, T.Growth, T.DifficultyPoly;
    ZeroGrowth();
    T.IsHonestProof(LastRowHash(), proof, t, q, 1, STUCK, numQueries)
  }

  /** With that hash and configuration the honest proof from an initial power of 1 is rejected. */
  lemma TowerRejected(proof: T.TowerProof, t: Poly, q: Poly, numQueries: nat)
    requires IsStuckProof(proof, t, q, numQueries)
    ensures hide T.TowerAt, T.TowerVerify, IsStuckProof, LastRowHash, Pow;
            T.TowerVerify(LastRowHash(), proof, STUCK, T.TowerAt(1, STUCK, T.TOWER_LAYERS), numQueries) != T.TowerAccept
  {
    hide Mul, Pow, RootOfUnity, FriProve, Eval, T.TowerVerify, T.TowerAt, T.TowerTrace, T.ExactQuotient, RootBytes,
         CoeffBytes, WordOf, Numbered, DomainOf;
    StuckPower(T.TOWER_ROWS);
    StuckPower(0);
    WordOfNumbered(Pow(T.Omega(), T.TOWER_LAYERS), 0);
    NewOfElem(Pow(T.Omega(), T.TOWER_LAYERS));
    T.TowerComplete(LastRowHash(), proof, t, q, 1, STUCK, numQueries);
  }

  method RejectedTower(numQueries: nat) returns (v: T.TowerVerdict, proof: T.TowerProof)
    ensures v != T.TowerAccept
    ensures exists t: Poly, q: Poly :: IsStuckProof(proof, t, q, numQueries)
  {
    hide T.IsHonestProof, T.TowerVerify, T.TowerAt, LastRowHash;
    ZeroGrowth();
    var honest, t, q := T.ProveTower(LastRowHash(), 1, STUCK, numQueries);
    TowerRejected(honest, t, q, numQueries);
    var final := T.SimulateTower(1, STUCK, T.TOWER_LAYERS);
    v := T.VerifyTower(LastRowHash(), honest, STUCK, final, numQueries);
    proof := honest;
  }

  // ----- the enhance circuit: a hash that singles out one constraint -----

  const ROW: nat := 11
  const COLUMN: nat := 59

  /** The position of the constraint that column 59 is zero on row 11. */
  const POSITION: nat := 764

  /** The n-th squeezed word: one for the coefficient of that constraint, zero otherwise. */
  function NthWord(n: nat): U64 {
    if n == 65 + POSITION then 1 else 0
  }

  /** Transcript states number themselves; everything longer hashes to the row point. */
  function Counted(b: Bytes): Digest {
    hide WordBytes, FromBigEndian, Pow, RootOfUnity;
    if |b| == 32 then Numbered(NthWord(1), 1)
    else if |b| == 64 then
      var n := FromBigEndian(b[8..16]) + 1;
      Numbered(NthWord(n), n)
    else Numbered(Pow(Omega(), ROW), 0)
  }

  function CountingHash(): Hash {
    hide Counted;
    (b: Bytes) => Counted(b)
  }

  lemma NextState(v: U64, n: nat)
    requires n < WORD
    ensures SqueezeHash(CountingHash(), Numbered(v, n)) == Numbered(NthWord(n + 1), n + 1)
    ensures SqueezeValue(CountingHash(), Numbered(v, n)) == NthWord(n + 1)
  {
    hide BigEndian, FromBigEndian, Pow256, WordBytes, Pow;
    var b: Bytes := Numbered(v, n) + Zero32();
    assert b[8..16] == Numbered(v, n)[8..16];
    Pow256Of8();
    CounterOf(n);
    WordOfNumbered(NthWord(n + 1), n + 1);
  }

  lemma CounterOf(n: nat)
    requires n < WORD
    ensures FromBigEndian(WordBytes(n)) == n
  {
    Pow256Of8();
    BigEndianRoundTrip(n, 8);
  }

  lemma {:induction false} SqueezedWords(v: U64, m: nat, n: nat)
    requires m + n < WORD
    ensures forall i :: 0 <= i < n ==> SqueezeMany(CountingHash(), Numbered(v, m), n)[i] == NthWord(m + 1 + i)
    ensures SqueezeState(CountingHash(), Numbered(v, m), n) ==
            if n == 0 then Numbered(v, m) else Numbered(NthWord(m + n), m + n)
    decreases n
  {
    hide CountingHash, Numbered, SqueezeValue, SqueezeHash;
    if n > 0 {
      NextState(v, m);
      SqueezedWords(NthWord(m + 1), m + 1, n - 1);
    }
  }

  lemma FirstState()
    ensures SqueezeState(CountingHash(), [], 64) == SqueezeState(CountingHash(), Numbered(NthWord(1), 1), 63)
  {
    hide Numbered;
    assert [] + Zero32() == Zero32();
  }

  /** The state after the first 64 squeezes. */
  lemma AlphaState()
    ensures SqueezeState(CountingHash(), [], 64) == Numbered(NthWord(64), 64)
  {
    hide CountingHash, Numbered, SqueezeMany, SqueezeState, NthWord;
    FirstState();
    SqueezedWords(NthWord(1), 1, 63);
  }

  lemma CountingAlphas(i: nat)
    requires i < NUM_CONSTRAINTS
    ensures Alphas(CountingHash())[i] == if i == POSITION then ONE else ZERO
  {
    hide CountingHash, Numbered, SqueezeMany, SqueezeState;
    AlphaState();
    SqueezedWords(NthWord(64), 64, NUM_CONSTRAINTS);
    assert Alphas(CountingHash())[i] == NthWord(65 + i);
  }

  // ----- a column with a single one -----

  const SEED: U64 := 0x8000_0000_0000_0000

  function BitIn(s: set<nat>, j: nat): nat {
    if j in s then 1 else 0
  }

  ghost predicate HasBits(x: U64, s: set<nat>) {
    forall j :: 0 <= j < 64 ==> BitAt(x, j) == BitIn(s, j)
  }

  lemma StepBits(x: U64, s: set<nat>, kind: nat, s': set<nat>)
    requires HasBits(x, s)
    requires forall j :: 0 <= j < 64 ==>
               BitIn(s', j) == (BitIn(s, j) + if SourceCol(kind, j) >= 0 then BitIn(s, SourceCol(kind, j)) else 0) % 2
    ensures HasBits(XorshiftSub(x, kind), s')
  {
    hide BitAt, XorshiftSub;
    forall j | 0 <= j < 64
      ensures BitAt(XorshiftSub(x, kind), j) == BitIn(s', j)
    {
      BitOfSub(x, kind, j);
    }
  }

  lemma SeedBits()
    ensures HasBits(SEED, {63})
  {
    hide Shl;
    assert Shl(1, 63) == SEED by { ShiftedOne(); }
    forall j | 0 <= j < 64
      ensures BitAt(SEED, j) == BitIn({63}, j)
    {
      BitOfShl(1, 63, j);
      BitOfOne(j);
    }
  }

  lemma ShiftedOne()
    ensures Shl(1, 63) == SEED
  {
    Pow2Of32();
    Pow2Add(32, 31);
    assert Pow2(32) == 2 * Pow2(31);
  }

  lemma BitOfOne(j: nat)
    ensures BitAt(1, 0) == 1
  {
  }

  /** The bits of the ten words. */
  const BITS: seq<set<nat>> := [
    {63}, {63}, {56, 63}, {56, 63}, {56, 63}, {49, 63}, {49, 63}, {49, 62, 63},
    {42, 49, 55, 56, 62, 63}, {42, 49, 55, 56, 59, 62, 63}
  ]

  lemma BitsFollow(r: nat, j: nat)
    requires r <= 8 && j < 64
    ensures var kind := STEPS[r].1;
            BitIn(BITS[r + 1], j) ==
            (BitIn(BITS[r], j) + if SourceCol(kind, j) >= 0 then BitIn(BITS[r], SourceCol(kind, j)) else 0) % 2
  {
  }

  lemma {:induction false} BitsOfWords(r: nat)
    requires r <= 9
    ensures HasBits(WordAt(SEED, r), BITS[r])
  {
    hide HasBits, XorshiftSub, BitIn, SourceCol;
    if r == 0 {
      SeedBits();
    } else {
      BitsOfWords(r - 1);
      forall j | 0 <= j < 64
        ensures var kind := STEPS[r - 1].1;
                BitIn(BITS[r], j) ==
                (BitIn(BITS[r - 1], j) + if SourceCol(kind, j) >= 0 then BitIn(BITS[r - 1], SourceCol(kind, j)) else 0) % 2
      {
        BitsFollow(r - 1, j);
      }
      StepBits(WordAt(SEED, r - 1), BITS[r - 1], STEPS[r - 1].1, BITS[r]);
    }
  }

  /** Only the last word has bit 59. */
  lemma ColumnBits(r: nat)
    requires r <= 9
    ensures BitAt(WordAt(SEED, r), COLUMN) == if r == 9 then 1 else 0
  {
    hide BitAt, WordAt;
    BitsOfWords(r);
  }

  lemma ColumnCells(roll: U64, m: nat)
    requires m < 16
    ensures TraceOf(SEED, roll)[m][COLUMN] == if m == 9 then 1 else 0
  {
    hide BitAt, WordAt;
    assert TraceOf(SEED, roll)[m] == RowOf(SEED, roll, m);
    if m <= 9 {
      ColumnBits(m);
      NewOfElem(BitAt(WordAt(SEED, m), COLUMN));
    }
  }

  // ----- its quotient does not vanish on the row -----

  const OTHER_ROWS: seq<nat> := [0, 1, 2, 3, 4, 5, 6, 7, 8, 10, 11, 12, 13, 14, 15]

  lemma SyntheticAgrees(t: Poly, q: Poly, r: Elem)
    requires 1 <= |t| <= 16 && |q| <= 64 && Eval(t, r) == ZERO
    requires forall x: Elem :: Eval(t, x) == Mul(Eval(q, x), Sub(x, r))
    ensures Eval(SyntheticQuotient(t, r), r) == Eval(q, r)
  {
    hide Add, Mul, Sub, Eval, AvoidingElements;
    var s := SyntheticQuotient(t, r);
    var xs := AvoidingElements(80, r);
    forall i | 0 <= i < 80
      ensures Eval(q, xs[i]) == Eval(s, xs[i])
    {
      SameQuotient(t, q, r, xs[i]);
    }
    AgreementForcesEquality(q, s, xs);
    EvalSameCoeffs(q, s, r);
  }

  lemma OtherRowsDistinct()
    ensures Distinct(RowPoints(OTHER_ROWS))
    ensures forall i :: 0 <= i < 15 ==> OTHER_ROWS[i] < 16 && OTHER_ROWS[i] != 9
  {
    hide Pow, RootOfUnity, RowPoints;
    RowPointsDistinct(OTHER_ROWS);
  }

  /** A polynomial of degree at most 15 with fifteen roots has no double root. */
  lemma SimpleRoot(t: Poly, q: Poly)
    requires 1 <= |t| <= 16 && |q| <= 64
    requires forall m :: 0 <= m < 16 ==> Eval(t, Pow(Omega(), m)) == if m == 9 then 1 else 0
    requires forall x: Elem :: Eval(t, x) == Mul(Eval(q, x), Sub(x, Pow(Omega(), ROW)))
    ensures Eval(q, Pow(Omega(), ROW)) != ZERO
  {
    hide Add, Mul, Sub, Eval, Pow, RootOfUnity, Distinct;
    var r, x := Pow(Omega(), ROW), Pow(Omega(), 9);
    var s := SyntheticQuotient(t, r);
    if Eval(q, r) == ZERO {
      SyntheticAgrees(t, q, r);
      OtherRowsDistinct();
      forall i | 0 <= i < 15
        ensures Eval(s, RowPoints(OTHER_ROWS)[i]) == ZERO
      {
        OtherRowsVanish(t, s, r, OTHER_ROWS[i]);
      }
      RootsForceZero(s, RowPoints(OTHER_ROWS));
      EvalOfZero(s, x);
      SyntheticDivision(t, r, x);
      MulNeutral(Sub(x, r));
      AddNeutral(ZERO);
    }
  }

  lemma SameQuotient(t: Poly, q: Poly, r: Elem, x: Elem)
    requires x != r && Eval(t, r) == ZERO
    requires Eval(t, x) == Mul(Eval(q, x), Sub(x, r))
    ensures Eval(q, x) == Eval(SyntheticQuotient(t, r), x)
  {
    hide Add, Mul, Sub, Eval;
    SyntheticDivision(t, r, x);
    AddNeutral(Mul(Sub(x, r), Eval(SyntheticQuotient(t, r), x)));
    SubZero(x, r);
    MulCommutes(Eval(q, x), Sub(x, r));
    CancelFactor(Sub(x, r), Eval(q, x), Eval(SyntheticQuotient(t, r), x));
  }

  lemma OtherRowsVanish(t: Poly, s: Poly, r: Elem, m: nat)
    requires m < 16 && m != 9 && r == Pow(Omega(), ROW) && s == SyntheticQuotient(t, r)
    requires Eval(s, r) == ZERO && Eval(t, r) == ZERO && Eval(t, Pow(Omega(), m)) == ZERO
    ensures Eval(s, Pow(Omega(), m)) == ZERO
  {
    hide Add, Mul, Sub, Eval, Pow, RootOfUnity;
    var x := Pow(Omega(), m);
    if x != r {
      SyntheticDivision(t, r, x);
      AddNeutral(Mul(Sub(x, r), Eval(s, x)));
      SubZero(x, r);
      NoZeroDivisors(Sub(x, r), Eval(s, x));
    }
  }

  // ----- the missing term -----

  lemma TheConstraint()
    ensures Descriptors()[POSITION] == ZeroC(ROW, COLUMN)
  {
    hide Descriptors, AllStepCs;
    Positions();
    assert ZeroC(11, 59).row == 11;
  }

  lemma {:induction false} OnlyOneTerm(quotients: seq<Poly>, alphas: seq<Elem>, chi: Elem, n: nat)
    requires |quotients| == |alphas| == NUM_CONSTRAINTS && n <= NUM_CONSTRAINTS
    requires forall i :: 0 <= i < NUM_CONSTRAINTS ==> alphas[i] == if i == POSITION then ONE else ZERO
    requires chi in RowPoints(RowsOf(Descriptors()[POSITION]))
    ensures MissingSum(Descriptors(), quotients, alphas, chi, n) ==
            if n > POSITION then Eval(quotients[POSITION], chi) else ZERO
    decreases n
  {
    hide Add, Mul, Eval, Descriptors, RowPoints, RowsOf;
    if n > 0 {
      OnlyOneTerm(quotients, alphas, chi, n - 1);
      MulNeutral(Eval(quotients[n - 1], chi));
      AddNeutral(ZERO);
      AddNeutral(Eval(quotients[POSITION], chi));
      AddCommutes(ZERO, Eval(quotients[POSITION], chi));
    }
  }

  lemma QuotientOnRow(cols: seq<Poly>, quotients: seq<Poly>, roll: U64)
    requires |cols| == 64 && |quotients| == NUM_CONSTRAINTS && AreHonest(cols, quotients, SEED, roll)
    ensures Eval(quotients[POSITION], Pow(Omega(), ROW)) != ZERO
  {
    hide Add, Mul, Sub, Eval, Pow, RootOfUnity, Descriptors, EnhanceRoll, TraceOf, ProductAt, RowPoints;
    DescriptorsListed();
    TheConstraint();
    var t, q := cols[COLUMN], quotients[POSITION];
    forall m | 0 <= m < 16
      ensures Eval(t, Pow(Omega(), m)) == if m == 9 then 1 else 0
    {
      ColumnCells(roll, m);
    }
    forall x: Elem
      ensures Eval(t, x) == Mul(Eval(q, x), Sub(x, Pow(Omega(), ROW)))
    {
      SingleProduct(x);
      assert IsQuotient(ZeroC(ROW, COLUMN), cols, q);
    }
    SimpleRoot(t, q);
  }

  lemma SingleProduct(x: Elem)
    ensures ProductAt(RowPoints([ROW]), x) == Sub(x, Pow(Omega(), ROW))
  {
    hide Mul, Sub, Pow, RootOfUnity;
    var xs := RowPoints([ROW]);
    assert xs[..0] == [];
    MulCommutes(ONE, Sub(x, Pow(Omega(), ROW)));
    MulNeutral(Sub(x, Pow(Omega(), ROW)));
  }

  lemma {:induction false} LastNonempty(hash: Hash, f: Poly, k: nat, folds: nat, state: Bytes)
    requires 0 < folds <= k <= 32
    ensures CommitLayers(hash, f, k, folds, state).last != []
    decreases folds
  {
    hide SqueezeValue, SqueezeHash, LayerTree, Fold;
    var root := LayerTree(hash, f, k).root;
    var alpha := SqueezeValue(hash, state + root);
    FoldLength(f, alpha);
    if folds > 1 {
      LastNonempty(hash, Fold(f, alpha), k - 1, folds - 1, SqueezeHash(hash, state + root));
    }
  }

  lemma {:induction false} CoeffBytesLength(coeffs: seq<U64>)
    ensures |CoeffBytes(coeffs)| == 8 * |coeffs|
  {
    hide WordBytes;
    if coeffs != [] {
      CoeffBytesLength(coeffs[..|coeffs| - 1]);
    }
  }

  /** The derived challenge is the row point. */
  lemma ChallengeOnRow(cols: seq<Poly>, quotients: seq<Poly>, numQueries: nat)
    requires |cols| == 64 && |quotients| == NUM_CONSTRAINTS
    ensures DerivedFrom(CountingHash(), cols, quotients, numQueries) == Pow(Omega(), ROW)
  {
    hide Pow, RootOfUnity, TauFri, Numbered, WordOf, Combine, CoeffBytes, CommitLayers, QueryStarts, QueryOpens, Alphas;
    var hash := CountingHash();
    var q := QuotientFri(hash, quotients, numQueries);
    LastNonempty(hash, Combine(quotients, Alphas(hash), NUM_CONSTRAINTS), FRI_K, FRI_K - 1, []);
    CoeffBytesLength(q.finalCoeffs);
    WordOfNumbered(Pow(Omega(), ROW), 0);
    NewOfElem(Pow(Omega(), ROW));
  }

  /** With that hash the honest proof for seed 2^63 is rejected. */
  lemma EnhanceRejected(
    proof: EnhanceProof, cols: seq<Poly>, quotients: seq<Poly>, roll: U64, numQueries: nat)
    requires IsHonestProof(CountingHash(), proof, cols, quotients, SEED, roll, numQueries)
    requires numQueries >= MIN_ENHANCE_QUERIES
    ensures EnhanceVerify(CountingHash(), proof, roll, numQueries) != EnhanceAccept
  {
    hide Pow, RootOfUnity, Eval, Descriptors, MissingSum, EnhanceVerify, AreHonest, Alphas, CountingHash, DerivedFrom,
         ColOpensAt, TauFri, QuotientFri, Combine;
    var hash := CountingHash();
    EnhanceComplete(hash, proof, cols, quotients, SEED, roll, numQueries);
    ChallengeOnRow(cols, quotients, numQueries);
    forall i | 0 <= i < NUM_CONSTRAINTS
      ensures Alphas(hash)[i] == if i == POSITION then ONE else ZERO
    {
      CountingAlphas(i);
    }
    TheConstraint();
    assert RowPoints([ROW])[0] == Pow(Omega(), ROW);
    OnlyOneTerm(quotients, Alphas(hash), Pow(Omega(), ROW), NUM_CONSTRAINTS);
    QuotientOnRow(cols, quotients, roll);
  }

  method RejectedEnhance(numQueries: nat) returns (v: EnhanceVerdict, proof: EnhanceProof, roll: U64)
    requires numQueries >= MIN_ENHANCE_QUERIES
    ensures v != EnhanceAccept && roll == EnhanceRoll(SEED).1
    ensures hide IsHonestProof, CountingHash;
            exists cols: seq<Poly>, quotients: seq<Poly> ::
              IsHonestProof(CountingHash(), proof, cols, quotients, SEED, roll, numQueries)
  {
    hide IsHonestProof, EnhanceVerify, EnhanceRoll, CountingHash, DomainOf;
    RollIsWord(SEED);
    roll := EnhanceRoll(SEED).1;
    var honest, cols, quotients := ProveEnhance(CountingHash(), SEED, roll, numQueries);
    EnhanceRejected(honest, cols, quotients, roll, numQueries);
    v := VerifyEnhance(CountingHash(), honest, roll, numQueries);
    proof := honest;
  }
}
