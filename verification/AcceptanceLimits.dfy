/** What acceptance does not determine.  The verifiers check openings for membership, not for
    their position, and take the values of the constraint check as sent; these theorems say
    how much that leaves open.  No soundness statement is made anywhere in this model. */
module AcceptanceLimits {
  import opened Goldilocks
  import opened Powers
  import opened Primality
  import opened RootsOfUnity
  import opened Polynomials
  import opened PolynomialOps
  import opened RawPolynomials
  import opened Bytes
  import opened Merkle
  import opened MerkleBinding
  import opened FriProtocol
  import opened FriCompleteness
  import opened FriAcceptance
  import opened Challenge
  import opened Interpolation
  import opened TransitionRows
  import opened Wrappers
  import C = EnhanceConstraints
  import E = EnhanceProtocol
  import S = SquareChain
  import T = Tower

  // ----- the first commitment -----

  /** Half of v + v, as the fold computes it. */
  function Midpoint(v: U64): Elem {
    MulWords(AddWords(v, v), Inv(New(2)))
  }

  lemma MidpointDoubled(v: U64)
    ensures Add(Midpoint(v), Midpoint(v)) == New(AddWords(v, v))
    ensures New(SubWords(v, v)) == ZERO
  {
    hide Add, Mul, MulWords, AddWords, Inv, New;
    var s, h := New(AddWords(v, v)), Inv(New(2));
    MulOfResidues(AddWords(v, v), h);
    NewOfElem(h);
    TwoInverse();
    Doubled(Mul(s, h));
    MulAssociates(s, h, Add(ONE, ONE));
    MulCommutes(h, Add(ONE, ONE));
    MulNeutral(s);
    assert SubWords(v, v) == 0;
    NewOfElem(0);
  }

  function Constants(y: Elem, m: nat): (l: seq<U64>)
    ensures |l| == Pow2(m)
    ensures forall i :: 0 <= i < |l| ==> l[i] == y
  {
    seq(Pow2(m), _ => y)
  }

  /** The tree over 2^m equal leaves. */
  function ConstantTree(hash: Hash, y: Elem, m: nat): MerkleTree
    requires m <= 32
  {
    hide Constants, Pow2, DomainOf, TreeOf;
    DomainSizes(m);
    TreeOf(hash, Constants(y, m))
  }

  /** The opening of its leaf 0. */
  function LeafZero(hash: Hash, y: Elem, m: nat): OpenVal
    requires m <= 32
  {
    hide Constants, Pow2, DomainOf, AuthPath, VerifyPath;
    DomainSizes(m);
    OpeningVerifies(hash, Constants(y, m), m, 0);
    OpenVal(0, y, AuthPath(ConstantTree(hash, y, m).levels, 0))
  }

  lemma LeafZeroOpens(hash: Hash, y: Elem, m: nat)
    requires m <= 32
    ensures Opens(hash, LeafZero(hash, y, m), ConstantTree(hash, y, m).root)
  {
    hide AuthPath, TreeOf, VerifyPath;
    DomainSizes(m);
    OpeningVerifies(hash, Constants(y, m), m, 0);
  }

  /** The opening used in layer j: the given one first, then leaf 0 of constants. */
  function OpenAt(hash: Hash, o: OpenVal, k: nat, j: nat): OpenVal
    requires j <= k <= 32
  {
    hide LeafZero, Midpoint;
    if j == 0 then o else LeafZero(hash, Midpoint(o.value), k - j)
  }

  function RootAt(hash: Hash, o: OpenVal, root: Digest, k: nat, j: nat): Digest
    requires j <= k <= 32
  {
    hide ConstantTree, Midpoint;
    if j == 0 then root else ConstantTree(hash, Midpoint(o.value), k - j).root
  }

  lemma OpenAtOpens(hash: Hash, o: OpenVal, root: Digest, k: nat, j: nat)
    requires j <= k <= 32 && Opens(hash, o, root)
    ensures Opens(hash, OpenAt(hash, o, k, j), RootAt(hash, o, root, k, j))
    ensures OpenAt(hash, o, k, j).value == if j == 0 then o.value else Midpoint(o.value)
  {
    hide Opens, Midpoint, ConstantTree;
    if j > 0 {
      LeafZeroOpens(hash, Midpoint(o.value), k - j);
    }
  }

  /** The layers of every query. */
  function LayersFrom(hash: Hash, o: OpenVal, k: nat): (opens: seq<LayerOpen>)
    requires 2 <= k <= 32
    ensures |opens| == k - 1
  {
    hide OpenAt, Midpoint;
    seq(k - 1, j requires 0 <= j < k - 1 =>
      var here := OpenAt(hash, o, k, j);
      LayerOpen(here, here,
                if j + 1 < k - 1 then OpenAt(hash, o, k, j + 1) else OpenVal(0, Midpoint(o.value), [])))
  }

  function RootsFrom(hash: Hash, o: OpenVal, root: Digest, k: nat): (roots: seq<Digest>)
    requires 2 <= k <= 32
    ensures |roots| == k - 1
    ensures forall j :: 0 <= j < k - 1 ==> roots[j] == RootAt(hash, o, root, k, j)
  {
    hide RootAt;
    seq(k - 1, j requires 0 <= j < k - 1 => RootAt(hash, o, root, k, j))
  }

  /** A proof built from one opening under its first root. */
  function ProofOver(hash: Hash, o: OpenVal, root: Digest, k: nat, numQueries: nat): FriProof
    requires 2 <= k <= 32
  {
    hide LayersFrom, RootsFrom, Midpoint;
    var opens := LayersFrom(hash, o, k);
    FriProof(RootsFrom(hash, o, root, k), [Midpoint(o.value)], seq(numQueries, _ => opens),
             seq(numQueries, _ => ONE), Some(o))
  }

  lemma ConstantValue(v: Elem, x: Elem)
    ensures EvalWords([v], x) == v
  {
    hide Eval, EvalWords;
    EvalCanonical([v], x);
    EvalConstant(v, x);
    assert [v] == Constant(v);
  }

  lemma LayerFrom(hash: Hash, o: OpenVal, root: Digest, k: nat, alphas: seq<Elem>, j: nat)
    requires 2 <= k <= 32 && j < k - 1 == |alphas| && Opens(hash, o, root)
    ensures LayerAccepted(hash, LayersFrom(hash, o, k), RootsFrom(hash, o, root, k), alphas,
                          [Midpoint(o.value)], j, ONE)
  {
    hide Add, Mul, AddWords, SubWords, EvalWords, New, Midpoint, OpenAt, RootAt, Opens;
    var y := Midpoint(o.value);
    OpenAtOpens(hash, o, root, k, j);
    OpenAtOpens(hash, o, root, k, j + 1);
    ConstantValue(y, Mul(ONE, ONE));
    MidpointDoubled(o.value);
    MidpointDoubled(y);
    WordsAreElems(y, y);
    NewOfElem(Add(y, y));
    Doubled(y);
    MulCommutes(y, Add(ONE, ONE));
    MulNeutral(Add(y, y));
    MulCommutes(ONE, Add(y, y));
    MulNeutral(alphas[j]);
    AddNeutral(Add(y, y));
  }

  lemma OneInDomain(k: nat)
    ensures ONE in DomainOf(k)
    ensures forall j: nat :: PointAt(ONE, j) == ONE
  {
    hide Pow, RootOfUnity;
    PowUnfold(RootOfUnity(k), 0);
    DomainElement(k, 0);
    forall j: nat
      ensures PointAt(ONE, j) == ONE
    {
      OnePow(Pow2(j));
    }
  }

  /** One accepted opening under a root is enough for a proof with that first root, accepted
      with and without the opening as boundary claim. */
  lemma OpeningSuffices(hash: Hash, o: OpenVal, root: Digest, k: nat, numQueries: nat, state: Bytes)
    requires 2 <= k <= 32 && Opens(hash, o, root) && o.index < |DomainOf(k)|
    ensures hide FriVerify, DomainOf, LayersFrom, RootsFrom;
            var proof := ProofOver(hash, o, root, k, numQueries);
            && FriVerify(hash, proof, k, numQueries, state, None) == Accept
            && FriVerify(hash, proof, k, numQueries, state, Some((DomainOf(k)[o.index], o.value))) == Accept
            && proof.roots != [] && proof.roots[0] == root
  {
    hide LayersFrom, RootAt, FriVerify, DomainOf, TranscriptAlphas, LayerAccepted, Midpoint, PointAt, Opens;
    var proof := ProofOver(hash, o, root, k, numQueries);
    var alphas := TranscriptAlphas(hash, proof.roots, state);
    OneInDomain(k);
    forall j | 0 <= j < k - 1
      ensures LayerAccepted(hash, LayersFrom(hash, o, k), proof.roots, alphas, proof.finalCoeffs, j, ONE)
    {
      LayerFrom(hash, o, root, k, alphas, j);
    }
    forall q | 0 <= q < numQueries
      ensures QueryAccepted(hash, proof, alphas, k, q)
    {
    }
    assert proof.roots[0] == RootAt(hash, o, root, k, 0) == root by { FirstRoot(hash, o, root, k); }
    AcceptExact(hash, proof, k, numQueries, state, None);
    AcceptExact(hash, proof, k, numQueries, state, Some((DomainOf(k)[o.index], o.value)));
  }

  lemma FirstRoot(hash: Hash, o: OpenVal, root: Digest, k: nat)
    requires k <= 32
    ensures RootAt(hash, o, root, k, 0) == root
  {
  }

  /** Some accepted proof has this first root and claims v at the i-th point of the domain. */
  ghost predicate ClaimAccepted(
    hash: Hash, root: Digest, k: nat, i: nat, v: U64, numQueries: nat, state: Bytes)
    requires 2 <= k <= 32
  {
    hide FriVerify, DomainOf;
    i < |DomainOf(k)| &&
    exists proof: FriProof ::
      && FriVerify(hash, proof, k, numQueries, state, Some((DomainOf(k)[i], v))) == Accept
      && proof.roots != [] && proof.roots[0] == root
  }

  /** What acceptance of a claim says about the first root, exactly: some path opens index i
      of that root to v. */
  lemma ClaimAcceptedExact(hash: Hash, root: Digest, k: nat, i: Word, v: U64, numQueries: nat, state: Bytes)
    requires 2 <= k <= 32
    ensures ClaimAccepted(hash, root, k, i, v, numQueries, state) <==>
            i < |DomainOf(k)| && exists path: seq<Digest> :: VerifyPath(hash, i, v, path, root)
  {
    hide FriVerify, DomainOf, VerifyPath, ProofOver, TranscriptAlphas, AllQueriesAccepted;
    if i >= |DomainOf(k)| {
      return;
    }
    var pt := DomainOf(k)[i];
    DomainIsDistinct(k);
    forall proof: FriProof |
      && FriVerify(hash, proof, k, numQueries, state, Some((pt, v))) == Accept
      && proof.roots != [] && proof.roots[0] == root
      ensures exists path: seq<Digest> :: VerifyPath(hash, i, v, path, root)
    {
      AcceptExact(hash, proof, k, numQueries, state, Some((pt, v)));
      assert VerifyPath(hash, i, v, proof.boundary.value.path, root);
    }
    forall path: seq<Digest> | VerifyPath(hash, i, v, path, root)
      ensures ClaimAccepted(hash, root, k, i, v, numQueries, state)
    {
      OpeningSuffices(hash, OpenVal(i, v, path), root, k, numQueries, state);
    }
  }

  /** For every table of 2^k words, low degree or not, every index and every number of queries
      there is an accepted proof whose first root commits to that table and whose claim is the
      table's entry. */
  lemma FirstRootUndetermined(hash: Hash, table: seq<U64>, k: nat, i: nat, numQueries: nat, state: Bytes)
    requires |table| == Pow2(k) && 2 <= k <= 32 && i < |table|
    ensures |table| <= WORD
    ensures hide FriVerify, TreeOf;
            exists proof: FriProof ::
              && FriVerify(hash, proof, k, numQueries, state, None) == Accept
              && FriVerify(hash, proof, k, numQueries, state, Some((DomainOf(k)[i], table[i]))) == Accept
              && proof.roots != [] && proof.roots[0] == TreeOf(hash, table).root
  {
    hide DomainOf, VerifyPath, TreeOf, AuthPath, Pow2, ProofOver, FriVerify;
    DomainSizes(k);
    OpeningVerifies(hash, table, k, i);
    var o := OpenVal(i, table[i], AuthPath(TreeOf(hash, table).levels, i));
    OpeningSuffices(hash, o, TreeOf(hash, table).root, k, numQueries, state);
  }

  /** Paths are not required to have length k, so one first root can be accepted with any two
      values at the second point of the domain, whatever the hash. */
  lemma ClaimsUnbound(hash: Hash, k: nat, v: U64, v': U64, numQueries: nat, state: Bytes) returns (root: Digest)
    requires 2 <= k <= 32
    ensures ClaimAccepted(hash, root, k, 1, v, numQueries, state)
    ensures ClaimAccepted(hash, root, k, 1, v', numQueries, state)
  {
    hide ClaimAccepted, DomainOf, VerifyPath, SameTurns;
    DomainSizes(k);
    assert Pow2(k) == 2 * Pow2(k - 1);
    LongerPathTurns(k);
    var path, path';
    path, path', root := OpeningsUnbound(hash, 1, v, k, 1, v', k + 1);
    ClaimAcceptedExact(hash, root, k, 1, v, numQueries, state);
    ClaimAcceptedExact(hash, root, k, 1, v', numQueries, state);
  }

  // ----- the claimed final power -----

  /** The opened values that satisfy the constraint check at any challenge. */
  lemma ZeroOpenings(cfg: T.Config, d: Elem, z: Elem)
    ensures T.ConstraintValue(0, Neg(Mul(d, New(1000))), d, cfg) == 0 == MulWords(0, z)
  {
    hide Add, Mul, Sub, Neg, MulWords, T.Growth, New, T.ConstraintValue;
    var m := Mul(d, New(1000));
    T.CanonicalConstraint(0, Neg(m), d, cfg);
    MulCommutes(0, T.Growth(cfg));
    MulNeutral(T.Growth(cfg));
    NegCancels(m);
    SubZeroRight(Neg(m));
    WordsAreElems(0, z);
    MulCommutes(0, z);
    MulNeutral(z);
  }

  lemma SubZeroRight(a: Elem)
    ensures Sub(a, 0) == a
  {
  }

  /** For every hash, configuration, claim and number of queries there is an accepted proof. */
  lemma ClaimUndetermined(hash: Hash, cfg: T.Config, claim: U64, numQueries: nat)
    ensures exists proof: T.TowerProof :: T.TowerVerify(hash, proof, cfg, claim, numQueries) == T.TowerAccept
  {
    hide Add, Mul, Neg, MulWords, Eval, Pow, RootOfUnity, FriProve, FriVerify, DomainOf, DerivedChallenge,
         T.FastVanishing, T.ConstraintValue, T.DifficultyPoly, New, Pow2;
    T.Rows();
    T.BoundaryInFriDomain();
    var pt, f := BoundaryPoint(T.TOWER_LOG2), Constant(New(claim));
    EvalConstant(New(claim), pt);
    FriComplete(hash, f, T.FRI_LOG2, numQueries, [], Some(pt), Claim(pt, New(claim)));
    FriComplete(hash, [], T.FRI_LOG2, numQueries, [], None, None);
    var traceFri := FriProve(hash, f, T.FRI_LOG2, numQueries, [], Some(pt));
    var quotientFri := FriProve(hash, [], T.FRI_LOG2, numQueries, [], None);
    var chi := DerivedChallenge(hash, traceFri, quotientFri);
    var d := Eval(T.DifficultyPoly(cfg), chi);
    ZeroOpenings(cfg, d, T.FastVanishing(chi));
    var proof := T.TowerProof(traceFri, quotientFri, chi, (0, Neg(Mul(d, New(1000))), 0));
    assert T.TowerVerify(hash, proof, cfg, claim, numQueries) == T.TowerAccept;
  }

  // ----- the public outputs of the other circuits -----

  lemma ChainOpenings(c: U64, z: Elem)
    ensures S.ConstraintValue(0, New(c), c) == 0 == MulWords(0, z)
  {
    hide Mul, Sub, MulWords, New, S.ConstraintValue;
    S.CanonicalConstraint(0, New(c), c);
    MulNeutral(ZERO);
    SubZeroRight(New(c));
    SubZero(New(c), New(c));
    WordsAreElems(0, z);
    MulNeutral(z);
  }

  /** For every hash, constant, output, length and number of queries some square-chain proof is
      accepted. */
  lemma OutputUndetermined(hash: Hash, c: U64, b: U64, k: nat, numQueries: nat)
    requires 2 <= k <= 32
    ensures exists proof: S.DemoProof :: S.ChainVerify(hash, proof, c, b, k, numQueries) == S.ChainAccept
  {
    hide Mul, MulWords, Eval, Pow, RootOfUnity, FriProve, FriVerify, DomainOf, DerivedChallenge, ProductAt,
         S.ConstraintValue, New, Pow2, TransitionPoints, BoundaryPoint;
    BoundaryInDomain(k);
    DomainSizes(k);
    var pt, f := BoundaryPoint(k), Constant(New(b));
    EvalConstant(New(b), pt);
    FriComplete(hash, f, k, numQueries, [], Some(pt), Claim(pt, New(b)));
    FriComplete(hash, [], k, numQueries, [], None, None);
    var traceFri := FriProve(hash, f, k, numQueries, [], Some(pt));
    var quotientFri := FriProve(hash, [], k, numQueries, [], None);
    var chi := DerivedChallenge(hash, traceFri, quotientFri);
    ChainOpenings(c, ProductAt(TransitionPoints(k), chi));
    var proof := S.DemoProof(traceFri, quotientFri, chi, (0, New(c), 0));
    assert S.ChainVerify(hash, proof, c, b, k, numQueries) == S.ChainAccept;
  }

  lemma SumIgnoresValue(hash: Hash, proof: E.EnhanceProof, v: U64)
    requires |proof.colOpens| >= 64
    ensures E.ConstraintSum(hash, proof.(qAtChi := v)) == E.ConstraintSum(hash, proof)
  {
    hide E.RawWeightedSum, E.OpenRow, E.Alphas;
  }

  /** For every hash, public roll and number of queries from 16 on some enhance proof is
      accepted. */
  lemma RollUndetermined(hash: Hash, roll: U64, numQueries: nat)
    requires numQueries >= E.MIN_ENHANCE_QUERIES
    ensures exists proof: E.EnhanceProof :: E.EnhanceVerify(hash, proof, roll, numQueries) == E.EnhanceAccept
  {
    hide Eval, Pow, RootOfUnity, FriProve, FriVerify, DomainOf, Pow2, E.ExpectedTau, E.Betas, E.ConstraintSum;
    E.RollRowInFriDomain();
    DomainSizes(E.FRI_K - 1);
    DomainSizes(E.FRI_K);
    var pt, v := Pow(C.Omega(), 10), E.ExpectedTau(E.Betas(hash), roll, 10);
    EvalConstant(v, pt);
    FriComplete(hash, Constant(v), E.FRI_K - 1, numQueries, [], Some(pt), Claim(pt, v));
    FriComplete(hash, [], E.FRI_K, numQueries, [], None, None);
    var tauFri := FriProve(hash, Constant(v), E.FRI_K - 1, numQueries, [], Some(pt));
    var quotientFri := FriProve(hash, [], E.FRI_K, numQueries, [], None);
    var opens := seq(64, _ => E.ColOpen(0, 0, 0, 0));
    var unset := E.EnhanceProof(tauFri, quotientFri, 0, opens, 0);
    var proof := unset.(qAtChi := E.ConstraintSum(hash, unset));
    SumIgnoresValue(hash, unset, E.ConstraintSum(hash, unset));
    assert E.EnhanceVerify(hash, proof, roll, numQueries) == E.EnhanceAccept;
  }
}
