/** The enhance proof: what the prover sends, what the verifier checks, and completeness. */
module EnhanceProtocol {
  import opened Goldilocks
  import opened Powers
  import opened Primality
  import opened RootsOfUnity
  import opened Polynomials
  import opened PolynomialOps
  import opened PolynomialDivision
  import opened Interpolation
  import opened TransitionRows
  import opened Bytes
  import opened FriProtocol
  import opened Wrappers
  import opened FriCompleteness
  import opened Challenge
  import opened Words
  import opened XorshiftAir
  import opened EnhanceConstraints

  const FRI_K: nat := 7
  const MIN_ENHANCE_QUERIES: nat := 16

  /** A column at chi, w chi, w^-4 chi and w^-5 chi. */
  datatype ColOpen = ColOpen(at0: U64, at1: U64, at2: U64, at3: U64)

  datatype EnhanceProof = EnhanceProof(
    tauFri: FriProof, quotientFri: FriProof, challenge: U64, colOpens: seq<ColOpen>, qAtChi: U64)

  // ----- combination coefficients -----

  function SqueezeMany(hash: Hash, state: Bytes, n: nat): (vs: seq<Elem>)
    ensures |vs| == n
    decreases n
  {
    if n == 0 then [] else [SqueezeValue(hash, state)] + SqueezeMany(hash, SqueezeHash(hash, state), n - 1)
  }

  function SqueezeState(hash: Hash, state: Bytes, n: nat): Bytes
    decreases n
  {
    if n == 0 then state else SqueezeState(hash, SqueezeHash(hash, state), n - 1)
  }

  function Betas(hash: Hash): (b: seq<Elem>)
    ensures |b| == 64
  {
    SqueezeMany(hash, [], 64)
  }

  function Alphas(hash: Hash): (a: seq<Elem>)
    ensures |a| == NUM_CONSTRAINTS
  {
    SqueezeMany(hash, SqueezeState(hash, [], 64), NUM_CONSTRAINTS)
  }

  /** The combination of the first n polynomials. */
  function Combine(polys: seq<Poly>, coeffs: seq<Elem>, n: nat): Poly
    requires n <= |polys| && n <= |coeffs|
  {
    if n == 0 then [] else PolyAdd(Combine(polys, coeffs, n - 1), PolyScale(polys[n - 1], coeffs[n - 1]))
  }

  function CombineAt(polys: seq<Poly>, coeffs: seq<Elem>, x: Elem, n: nat): Elem
    requires n <= |polys| && n <= |coeffs|
  {
    if n == 0 then ZERO
    else Add(CombineAt(polys, coeffs, x, n - 1), Mul(Eval(polys[n - 1], x), coeffs[n - 1]))
  }

  lemma {:induction false} EvalCombine(polys: seq<Poly>, coeffs: seq<Elem>, x: Elem, n: nat)
    requires n <= |polys| && n <= |coeffs|
    ensures Eval(Combine(polys, coeffs, n), x) == CombineAt(polys, coeffs, x, n)
    decreases n
  {
    hide Add, Mul, PolyAdd, PolyScale;
    if n > 0 {
      hide Eval;
      EvalCombine(polys, coeffs, x, n - 1);
      EvalOps(polys[n - 1], [], coeffs[n - 1], x);
      EvalOps(Combine(polys, coeffs, n - 1), PolyScale(polys[n - 1], coeffs[n - 1]), ZERO, x);
    }
  }

  lemma {:induction false} CombineLength(polys: seq<Poly>, coeffs: seq<Elem>, n: nat, bound: nat)
    requires n <= |polys| && n <= |coeffs| && bound >= 1
    requires forall i :: 0 <= i < n ==> |polys[i]| <= bound
    ensures |Combine(polys, coeffs, n)| <= bound
    decreases n
  {
    hide PolyAdd, PolyScale;
    if n > 0 {
      CombineLength(polys, coeffs, n - 1, bound);
      ScaleIsCanonical(polys[n - 1], coeffs[n - 1]);
      AddIsCanonical(Combine(polys, coeffs, n - 1), PolyScale(polys[n - 1], coeffs[n - 1]));
    }
  }

  // ----- the constraint sum -----

  /** One term of the verifier's sum: alpha C(chi) / Z(chi), with 0 inverted to 0. */
  function Term(c: Constraint, alpha: Elem, t0: Row, t1: Row, t2: Row, t3: Row, chi: Elem): Elem
    requires c.ModC? || c.col < 64
  {
    Mul(Mul(alpha, ValueOf(c, t0, t1, t2, t3)), Inv(ProductAt(RowPoints(RowsOf(c)), chi)))
  }

  /** The sum of the first n terms. */
  function WeightedSum(
    cs: seq<Constraint>, alphas: seq<Elem>, t0: Row, t1: Row, t2: Row, t3: Row, chi: Elem, n: nat): Elem
    requires n <= |cs| && n <= |alphas| && AllListed(cs)
  {
    if n == 0 then ZERO
    else Add(WeightedSum(cs, alphas, t0, t1, t2, t3, chi, n - 1), Term(cs[n - 1], alphas[n - 1], t0, t1, t2, t3, chi))
  }

  /** The part of the quotient's value that the verifier cannot reproduce: the constraints
      whose rows contain the challenge. */
  ghost function MissingSum(cs: seq<Constraint>, quotients: seq<Poly>, alphas: seq<Elem>, chi: Elem, n: nat): Elem
    requires n <= |cs| && n <= |quotients| && n <= |alphas|
  {
    if n == 0 then ZERO
    else Add(MissingSum(cs, quotients, alphas, chi, n - 1),
             if chi in RowPoints(RowsOf(cs[n - 1])) then Mul(Eval(quotients[n - 1], chi), alphas[n - 1]) else ZERO)
  }

  ghost predicate AreQuotients(cs: seq<Constraint>, cols: seq<Poly>, quotients: seq<Poly>)
    requires AllListed(cs) && AreColumns(cols)
  {
    |quotients| == |cs| && forall i :: 0 <= i < |cs| ==> IsQuotient(cs[i], cols, quotients[i])
  }

  lemma CancelInverse(alpha: Elem, v: Elem, z: Elem)
    ensures Mul(Mul(alpha, Mul(v, z)), Inv(z)) == if z == ZERO then ZERO else Mul(v, alpha)
  {
    hide Mul, Inv;
    InverseIsExact(z);
    MulNeutral(Mul(alpha, Mul(v, z)));
    MulNeutral(Mul(v, alpha));
    MulAssociates(alpha, Mul(v, z), Inv(z));
    MulAssociates(v, z, Inv(z));
    MulCommutes(z, Inv(z));
    MulNeutral(v);
    MulCommutes(alpha, v);
    MulCommutes(Mul(alpha, Mul(v, z)), ZERO);
  }

  /** Off the rows of a constraint its term is the quotient's share; on them it is zero. */
  lemma TermIsQuotientShare(c: Constraint, cols: seq<Poly>, q: Poly, alpha: Elem, chi: Elem)
    requires Listed(c) && AreColumns(cols) && IsQuotient(c, cols, q)
    ensures var w := Omega();
            Term(c, alpha, RowAt(cols, chi), RowAt(cols, Mul(w, chi)),
                 RowAt(cols, Mul(Pow(Inv(w), 4), chi)), RowAt(cols, Mul(Pow(Inv(w), 5), chi)), chi)
            == if chi in RowPoints(RowsOf(c)) then ZERO else Mul(Eval(q, chi), alpha)
  {
    hide Add, Mul, Eval, Pow, Inv, RootOfUnity, ProductAt, PolyOf, ValueOf, RowAt, RowPoints, RowsOf;
    var points := RowPoints(RowsOf(c));
    EvalPolyOf(c, cols, Omega(), chi);
    ProductAtZero(points, chi);
    CancelInverse(alpha, Eval(q, chi), ProductAt(points, chi));
  }

  /** The combined quotient at chi is the verifier's sum plus the missing terms. */
  lemma {:induction false} SumsAgree(
    cs: seq<Constraint>, cols: seq<Poly>, quotients: seq<Poly>, alphas: seq<Elem>, chi: Elem, n: nat)
    requires AllListed(cs) && AreColumns(cols) && AreQuotients(cs, cols, quotients)
    requires n <= |cs| && n <= |alphas|
    ensures var w := Omega();
            CombineAt(quotients, alphas, chi, n) ==
            Add(WeightedSum(cs, alphas, RowAt(cols, chi), RowAt(cols, Mul(w, chi)),
                            RowAt(cols, Mul(Pow(Inv(w), 4), chi)), RowAt(cols, Mul(Pow(Inv(w), 5), chi)), chi, n),
                MissingSum(cs, quotients, alphas, chi, n))
    decreases n
  {
    hide Add, Mul, Eval, Pow, Inv, RootOfUnity, Term, RowAt, RowPoints, IsQuotient, Listed, AreColumns;
    ColumnCount(cols);
    AddNeutral(ZERO);
    if n > 0 {
      SumsAgree(cs, cols, quotients, alphas, chi, n - 1);
      TermIsQuotientShare(cs[n - 1], cols, quotients[n - 1], alphas[n - 1], chi);
      SplitShare(
        WeightedSum(cs, alphas, RowAt(cols, chi), RowAt(cols, Mul(Omega(), chi)),
                    RowAt(cols, Mul(Pow(Inv(Omega()), 4), chi)), RowAt(cols, Mul(Pow(Inv(Omega()), 5), chi)), chi, n - 1),
        MissingSum(cs, quotients, alphas, chi, n - 1), Mul(Eval(quotients[n - 1], chi), alphas[n - 1]));
    }
  }

  lemma ColumnCount(cols: seq<Poly>)
    requires AreColumns(cols)
    ensures |cols| == 64
  {
  }

  /** A share goes to either side of the sum. */
  lemma SplitShare(sum: Elem, missing: Elem, share: Elem)
    ensures Add(Add(sum, missing), share) == Add(Add(sum, ZERO), Add(missing, share))
    ensures Add(Add(sum, missing), share) == Add(Add(sum, share), Add(missing, ZERO))
  {
    hide Add;
    LinearLaws();
  }

  lemma RowsInDomain(c: Constraint, chi: Elem)
    requires Listed(c) && chi !in DomainOf(N_LOG2)
    ensures chi !in RowPoints(RowsOf(c))
  {
    hide Mul, Pow, RootOfUnity, RowsOf;
    var rows := RowsOf(c);
    assert Pow2(N_LOG2) == 16;
    forall i | 0 <= i < |rows|
      ensures RowPoints(rows)[i] != chi
    {
      assert DomainOf(N_LOG2)[rows[i]] == RowPoints(rows)[i];
    }
  }

  /** Outside the 16-point domain nothing is missing. */
  lemma {:induction false} NothingMissing(
    cs: seq<Constraint>, quotients: seq<Poly>, alphas: seq<Elem>, chi: Elem, n: nat)
    requires n <= |cs| && n <= |quotients| && n <= |alphas| && AllListed(cs)
    requires chi !in DomainOf(N_LOG2)
    ensures MissingSum(cs, quotients, alphas, chi, n) == ZERO
    decreases n
  {
    hide Add, Mul, Eval, Pow, RootOfUnity, Listed, RowPoints, RowsOf, DomainOf;
    if n > 0 {
      NothingMissing(cs, quotients, alphas, chi, n - 1);
      RowsInDomain(cs[n - 1], chi);
      AddNeutral(ZERO);
    }
  }

  // ----- the same sum on opened words -----

  type WordRow = r: seq<U64> | |r| == 64 witness ZeroRow()

  /** The closure `xor2` on words. */
  function Xor2Words(a: U64, b: U64): U64 {
    SubWords(AddWords(a, b), Mul(MulWords(a, b), New(2)))
  }

  /** The sum of t[j] 2^j over the first n columns. */
  function RawSum(t: WordRow, n: nat): Elem
    requires n <= 64
  {
    if n == 0 then ZERO else Add(RawSum(t, n - 1), MulWords(t[n - 1], Pow(New(2), n - 1)))
  }

  /** The value of a constraint on opened words. */
  function RawValue(c: Constraint, t0: WordRow, t1: WordRow, t2: WordRow, t3: WordRow): U64
    requires c.ModC? || c.col < 64
  {
    match c
    case BitC(_, j) => SubWords(MulWords(t0[j], t0[j]), t0[j])
    case StepC(_, kind, j) =>
      SubWords(t1[j], Xor2Words(t0[j], if SourceCol(kind, j) >= 0 then t0[SourceCol(kind, j)] else 0))
    case ModC => Sub(Sub(RawSum(t3, 64), MulWords(t0[0], New(1000))), RawSum(t2, 10))
    case ZeroC(_, j) => t0[j]
  }

  /** The closure `zc` at a word. */
  function RawProduct(xs: seq<Elem>, chi: U64): Elem {
    if xs == [] then ONE else MulWords(RawProduct(xs[..|xs| - 1], chi), SubWords(chi, xs[|xs| - 1]))
  }

  function RawTerm(c: Constraint, alpha: Elem, t0: WordRow, t1: WordRow, t2: WordRow, t3: WordRow, chi: U64): Elem
    requires c.ModC? || c.col < 64
  {
    Mul(MulWords(alpha, RawValue(c, t0, t1, t2, t3)), Inv(RawProduct(RowPoints(RowsOf(c)), chi)))
  }

  function RawWeightedSum(
    cs: seq<Constraint>, alphas: seq<Elem>, t0: WordRow, t1: WordRow, t2: WordRow, t3: WordRow, chi: U64, n: nat): Elem
    requires n <= |cs| && n <= |alphas| && AllListed(cs)
  {
    if n == 0 then ZERO
    else
      Add(RawWeightedSum(cs, alphas, t0, t1, t2, t3, chi, n - 1),
          RawTerm(cs[n - 1], alphas[n - 1], t0, t1, t2, t3, chi))
  }

  lemma {:induction false} CanonicalProduct(xs: seq<Elem>, chi: Elem)
    ensures RawProduct(xs, chi) == ProductAt(xs, chi)
  {
    hide Mul, Sub, MulWords, SubWords;
    if xs != [] {
      var n := |xs| - 1;
      CanonicalProduct(xs[..n], chi);
      WordsAreElems(chi, xs[n]);
      WordsAreElems(ProductAt(xs[..n], chi), Sub(chi, xs[n]));
    }
  }

  lemma {:induction false} CanonicalSum(t: Row, n: nat)
    requires n <= 64
    ensures RawSum(t, n) == WordSum(t, n)
    decreases n
  {
    hide Add, Mul, MulWords, Pow, New;
    if n > 0 {
      CanonicalSum(t, n - 1);
      WordsAreElems(t[n - 1], Pow(New(2), n - 1));
    }
  }

  lemma CanonicalXor2(a: Elem, b: Elem)
    ensures Xor2Words(a, b) == Xor2(a, b)
  {
    hide Add, Mul, Sub, AddWords, MulWords, SubWords, New;
    WordsAreElems(a, b);
    WordsAreElems(Add(a, b), Mul(Mul(a, b), New(2)));
  }

  lemma CanonicalValue(c: Constraint, t0: Row, t1: Row, t2: Row, t3: Row)
    requires c.ModC? || c.col < 64
    ensures RawValue(c, t0, t1, t2, t3) == ValueOf(c, t0, t1, t2, t3)
  {
    hide Add, Mul, Sub, AddWords, MulWords, SubWords, New, Xor2, Xor2Words, RawSum, WordSum;
    match c
    case BitC(_, j) =>
      WordsAreElems(t0[j], t0[j]);
      WordsAreElems(Mul(t0[j], t0[j]), t0[j]);
    case StepC(_, kind, j) =>
      var src := if SourceCol(kind, j) >= 0 then t0[SourceCol(kind, j)] else ZERO;
      CanonicalXor2(t0[j], src);
      WordsAreElems(t1[j], Xor2(t0[j], src));
    case ModC =>
      CanonicalSum(t3, 64);
      CanonicalSum(t2, 10);
      WordsAreElems(t0[0], New(1000));
    case ZeroC(_, j) =>
  }

  /** On canonical openings the verifier evaluates the constraint sum in the field. */
  lemma {:induction false} CanonicalWeightedSum(
    cs: seq<Constraint>, alphas: seq<Elem>, t0: Row, t1: Row, t2: Row, t3: Row, chi: Elem, n: nat)
    requires n <= |cs| && n <= |alphas| && AllListed(cs)
    ensures RawWeightedSum(cs, alphas, t0, t1, t2, t3, chi, n) == WeightedSum(cs, alphas, t0, t1, t2, t3, chi, n)
    decreases n
  {
    hide Add, Mul, MulWords, Inv, ProductAt, RawProduct, ValueOf, RawValue, RowPoints, RowsOf, Listed;
    if n > 0 {
      var c := cs[n - 1];
      ListedColumn(c);
      CanonicalWeightedSum(cs, alphas, t0, t1, t2, t3, chi, n - 1);
      CanonicalValue(c, t0, t1, t2, t3);
      CanonicalProduct(RowPoints(RowsOf(c)), chi);
      WordsAreElems(alphas[n - 1], ValueOf(c, t0, t1, t2, t3));
    }
  }

  lemma ListedColumn(c: Constraint)
    requires Listed(c)
    ensures c.ModC? || c.col < 64
  {
  }

  // ----- the boundary -----

  /** The public value of the combined trace on the roll row. */
  function ExpectedTau(betas: seq<Elem>, roll: U64, n: nat): Elem
    requires n <= |betas|
  {
    if n == 0 then ZERO else Add(ExpectedTau(betas, roll, n - 1), Mul(betas[n - 1], New(BitAt(roll, n - 1))))
  }

  /** Row 10 holds the ten bits of the roll. */
  ghost predicate ShowsRoll(t: Trace, roll: U64) {
    forall j :: 0 <= j < 64 ==> t[10][j] == if j < 10 then New(BitAt(roll, j)) else ZERO
  }

  lemma HonestTraceShows(seed: U64, roll: U64)
    ensures ShowsRoll(TraceOf(seed, roll), roll)
  {
    hide BitAt, New, WordAt;
    assert TraceOf(seed, roll)[10] == RowOf(seed, roll, 10);
  }

  lemma {:induction false} TauOnRollRow(cols: seq<Poly>, t: Trace, roll: U64, betas: seq<Elem>, n: nat)
    requires ColumnsOf(cols, t) && ShowsRoll(t, roll) && n <= 64 == |betas|
    ensures CombineAt(cols, betas, Pow(Omega(), 10), n) == ExpectedTau(betas, roll, if n <= 10 then n else 10)
    decreases n
  {
    hide Add, Mul, Eval, Pow, RootOfUnity, BitAt, New, WordAt;
    if n > 0 {
      TauOnRollRow(cols, t, roll, betas, n - 1);
      var j := n - 1;
      assert Eval(cols[j], Pow(Omega(), 10)) == t[10][j];
      MulCommutes(t[10][j], betas[j]);
      MulNeutral(betas[j]);
      AddNeutral(ExpectedTau(betas, roll, 10));
    }
  }

  lemma RollRowInFriDomain()
    ensures Pow(Omega(), 10) in DomainOf(FRI_K - 1)
  {
    hide Pow, RootOfUnity, Mul, DomainOf;
    RootSquared(6);
    RootSquared(5);
    PowOne(RootOfUnity(6));
    PowOne(RootOfUnity(5));
    PowMul(RootOfUnity(6), 2, 2);
    PowMul(RootOfUnity(6), 4, 10);
    assert Pow2(6) == 64;
    DomainElement(6, 40);
  }

  // ----- prover -----

  /** The hashed message: both first roots and the quotient's final coefficients. */
  function EnhanceMessage(tauRoot: Digest, qRoot: Digest, qCoeffs: seq<U64>): Bytes {
    tauRoot + qRoot + CoeffBytes(qCoeffs)
  }

  /** `derive_challenge`. */
  function EnhanceChallenge(hash: Hash, tauRoot: Digest, qRoot: Digest, qCoeffs: seq<U64>): Elem {
    New(WordOf(hash(EnhanceMessage(tauRoot, qRoot, qCoeffs))))
  }

  function ColOpenAt(f: Poly, chi: Elem): ColOpen {
    hide Mul, Eval, Pow, Inv, RootOfUnity;
    var w := Omega();
    ColOpen(Eval(f, chi), Eval(f, Mul(w, chi)), Eval(f, Mul(Pow(Inv(w), 4), chi)), Eval(f, Mul(Pow(Inv(w), 5), chi)))
  }

  function ColOpensAt(cols: seq<Poly>, chi: Elem): (os: seq<ColOpen>)
    ensures |os| == |cols|
    ensures forall j :: 0 <= j < |cols| ==> os[j] == ColOpenAt(cols[j], chi)
  {
    seq(|cols|, j requires 0 <= j < |cols| => ColOpenAt(cols[j], chi))
  }

  /** The commitment to the combined trace, opened on the roll row. */
  function TauFri(hash: Hash, cols: seq<Poly>, numQueries: nat): (f: FriProof)
    requires |cols| == 64
    ensures |f.roots| == FRI_K - 2
  {
    hide Pow, RootOfUnity, DomainOf;
    RollRowInFriDomain();
    FriProve(hash, Combine(cols, Betas(hash), 64), FRI_K - 1, numQueries, [], Some(Pow(Omega(), 10)))
  }

  /** The commitment to the combined quotient. */
  function QuotientFri(hash: Hash, quotients: seq<Poly>, numQueries: nat): (f: FriProof)
    requires |quotients| == NUM_CONSTRAINTS
    ensures |f.roots| == FRI_K - 1
  {
    hide Pow, RootOfUnity, DomainOf;
    FriProve(hash, Combine(quotients, Alphas(hash), NUM_CONSTRAINTS), FRI_K, numQueries, [], None)
  }

  /** The challenge the prover derives from both commitments. */
  function DerivedFrom(hash: Hash, cols: seq<Poly>, quotients: seq<Poly>, numQueries: nat): Elem
    requires |cols| == 64 && |quotients| == NUM_CONSTRAINTS
  {
    hide TauFri, QuotientFri;
    var tau, q := TauFri(hash, cols, numQueries), QuotientFri(hash, quotients, numQueries);
    EnhanceChallenge(hash, tau.roots[0], q.roots[0], q.finalCoeffs)
  }

  /** The proof assembled from columns and quotients and opened at chi. */
  function ProofAt(hash: Hash, cols: seq<Poly>, quotients: seq<Poly>, numQueries: nat, chi: Elem): EnhanceProof
    requires |cols| == 64 && |quotients| == NUM_CONSTRAINTS
  {
    hide TauFri, QuotientFri, Eval, Combine, ColOpensAt;
    EnhanceProof(TauFri(hash, cols, numQueries), QuotientFri(hash, quotients, numQueries), chi, ColOpensAt(cols, chi),
                 Eval(Combine(quotients, Alphas(hash), NUM_CONSTRAINTS), chi))
  }

  /** The columns of a seed and its roll, and the quotients of their constraints. */
  ghost predicate AreHonest(cols: seq<Poly>, quotients: seq<Poly>, seed: U64, roll: U64) {
    DescriptorsListed();
    && roll == EnhanceRoll(seed).1
    && ColumnsOf(cols, TraceOf(seed, roll))
    && AreQuotients(Descriptors(), cols, quotients)
  }

  /** The columns of a trace that shows the roll, and the quotients of its constraints. */
  ghost predicate AreSatisfying(cols: seq<Poly>, quotients: seq<Poly>, t: Trace, roll: U64) {
    DescriptorsListed();
    ColumnsOf(cols, t) && ShowsRoll(t, roll) && AreQuotients(Descriptors(), cols, quotients)
  }

  lemma HonestSatisfies(cols: seq<Poly>, quotients: seq<Poly>, seed: U64, roll: U64)
    requires AreHonest(cols, quotients, seed, roll)
    ensures AreSatisfying(cols, quotients, TraceOf(seed, roll), roll)
  {
    hide ColumnsOf, ShowsRoll, AreQuotients, TraceOf, EnhanceRoll, Descriptors;
    HonestTraceShows(seed, roll);
  }

  /** What `prove_enhance` returns for a seed and its roll. */
  ghost predicate IsHonestProof(
    hash: Hash, proof: EnhanceProof, cols: seq<Poly>, quotients: seq<Poly>, seed: U64, roll: U64, numQueries: nat)
  {
    && |cols| == 64 && |quotients| == NUM_CONSTRAINTS
    && AreHonest(cols, quotients, seed, roll)
    && proof == ProofAt(hash, cols, quotients, numQueries, DerivedFrom(hash, cols, quotients, numQueries))
  }

  // ----- verifier -----

  datatype EnhanceVerdict =
    | EnhanceAccept
    | TooFewQueries
    | TauRejected(why: Verdict)
    | QuotientRejected(why: Verdict)
    | ConstraintFailed
    | MissingColumns // an out-of-bounds index in the verifier

  function OpenRow(os: seq<ColOpen>, which: nat): (r: WordRow)
    requires |os| >= 64
    ensures forall j :: 0 <= j < 64 ==>
              r[j] == if which == 0 then os[j].at0 else if which == 1 then os[j].at1
                      else if which == 2 then os[j].at2 else os[j].at3
  {
    seq(64, j requires 0 <= j < 64 =>
      if which == 0 then os[j].at0 else if which == 1 then os[j].at1
      else if which == 2 then os[j].at2 else os[j].at3)
  }

  /** The verifier's evaluation of the combined quotient. */
  function ConstraintSum(hash: Hash, proof: EnhanceProof): Elem
    requires |proof.colOpens| >= 64
  {
    DescriptorsListed();
    var os := proof.colOpens;
    RawWeightedSum(Descriptors(), Alphas(hash), OpenRow(os, 0), OpenRow(os, 1), OpenRow(os, 2),
                   OpenRow(os, 3), proof.challenge, NUM_CONSTRAINTS)
  }

  /** `verify_enhance`. */
  function EnhanceVerify(hash: Hash, proof: EnhanceProof, roll: U64, numQueries: nat): EnhanceVerdict {
    hide Pow, RootOfUnity, FriVerify, ExpectedTau, Betas, ConstraintSum;
    if numQueries < MIN_ENHANCE_QUERIES then TooFewQueries
    else
      var expected := ExpectedTau(Betas(hash), roll, 10);
      var tauVerdict := FriVerify(hash, proof.tauFri, FRI_K - 1, numQueries, [], Claim(Pow(Omega(), 10), expected));
      if tauVerdict != Accept then TauRejected(tauVerdict)
      else
        var quotientVerdict := FriVerify(hash, proof.quotientFri, FRI_K, numQueries, [], None);
        if quotientVerdict != Accept then QuotientRejected(quotientVerdict)
        else if |proof.colOpens| < 64 then MissingColumns
        else if ConstraintSum(hash, proof) != proof.qAtChi then ConstraintFailed
        else EnhanceAccept
  }

  // ----- completeness -----

  lemma OpenedRows(cols: seq<Poly>, chi: Elem)
    requires |cols| == 64
    ensures var w, os := Omega(), ColOpensAt(cols, chi);
            && OpenRow(os, 0) == RowAt(cols, chi)
            && OpenRow(os, 1) == RowAt(cols, Mul(w, chi))
            && OpenRow(os, 2) == RowAt(cols, Mul(Pow(Inv(w), 4), chi))
            && OpenRow(os, 3) == RowAt(cols, Mul(Pow(Inv(w), 5), chi))
  {
    hide Mul, Eval, Pow, Inv, RootOfUnity;
  }

  lemma TauAccepted(
    hash: Hash, cols: seq<Poly>, t: Trace, roll: U64, numQueries: nat)
    requires ColumnsOf(cols, t) && ShowsRoll(t, roll)
    requires Pow(Omega(), 10) in DomainOf(FRI_K - 1)
    ensures hide Pow, RootOfUnity, DomainOf, Combine, Betas, ExpectedTau, FriProve, FriVerify;
            var tau := Combine(cols, Betas(hash), 64);
            var pt := Pow(Omega(), 10);
            FriVerify(hash, FriProve(hash, tau, FRI_K - 1, numQueries, [], Some(pt)), FRI_K - 1, numQueries, [],
                      Claim(pt, ExpectedTau(Betas(hash), roll, 10))) == Accept
  {
    hide Add, Mul, Eval, Pow, RootOfUnity, FriProve, FriVerify, DomainOf, Betas, Combine, CombineAt, ExpectedTau,
         ShowsRoll, PolyAdd, PolyScale;
    var tau, pt := Combine(cols, Betas(hash), 64), Pow(Omega(), 10);
    EvalColumns(cols, t);
    CombineLength(cols, Betas(hash), 64, 16);
    EvalCombine(cols, Betas(hash), pt, 64);
    TauOnRollRow(cols, t, roll, Betas(hash), 64);
    assert Pow2(6) == 64;
    FriComplete(hash, tau, FRI_K - 1, numQueries, [], Some(pt), Claim(pt, ExpectedTau(Betas(hash), roll, 10)));
  }

  lemma QuotientAccepted(hash: Hash, cols: seq<Poly>, quotients: seq<Poly>, numQueries: nat)
    requires AreColumns(cols) && AllListed(Descriptors()) && AreQuotients(Descriptors(), cols, quotients)
    ensures var q := Combine(quotients, Alphas(hash), NUM_CONSTRAINTS);
            FriVerify(hash, FriProve(hash, q, FRI_K, numQueries, [], None), FRI_K, numQueries, [], None) == Accept
  {
    hide Add, Mul, Eval, Pow, RootOfUnity, FriProve, FriVerify, DomainOf, Alphas, Combine, Descriptors, AllListed,
         AreColumns, PolyOf;
    CombineLength(quotients, Alphas(hash), NUM_CONSTRAINTS, 64);
    assert Pow2(7) == 128;
    FriComplete(hash, Combine(quotients, Alphas(hash), NUM_CONSTRAINTS), FRI_K, numQueries, [], None, None);
  }

  /** The verifier's hand-evaluated sum against the prover's combined quotient. */
  lemma ConstraintSumExact(hash: Hash, cols: seq<Poly>, quotients: seq<Poly>, proof: EnhanceProof, chi: Elem)
    requires |cols| == 64 && |quotients| == NUM_CONSTRAINTS
    requires AreColumns(cols) && AllListed(Descriptors()) && AreQuotients(Descriptors(), cols, quotients)
    requires proof.challenge == chi && proof.colOpens == ColOpensAt(cols, chi)
    requires proof.qAtChi == Eval(Combine(quotients, Alphas(hash), NUM_CONSTRAINTS), chi)
    ensures proof.qAtChi ==
            Add(ConstraintSum(hash, proof), MissingSum(Descriptors(), quotients, Alphas(hash), chi, NUM_CONSTRAINTS))
  {
    hide Add, Mul, Eval, Pow, Inv, RootOfUnity, Alphas, Combine, Descriptors, AllListed, AreColumns, AreQuotients,
         WeightedSum, RawWeightedSum, MissingSum, CombineAt, OpenRow, ColOpensAt, RowAt;
    var w := Omega();
    EvalCombine(quotients, Alphas(hash), chi, NUM_CONSTRAINTS);
    OpenedRows(cols, chi);
    CanonicalWeightedSum(Descriptors(), Alphas(hash), RowAt(cols, chi), RowAt(cols, Mul(w, chi)),
                         RowAt(cols, Mul(Pow(Inv(w), 4), chi)), RowAt(cols, Mul(Pow(Inv(w), 5), chi)), chi,
                         NUM_CONSTRAINTS);
    SumsAgree(Descriptors(), cols, quotients, Alphas(hash), chi, NUM_CONSTRAINTS);
  }

  lemma AddZeroIff(a: Elem, b: Elem)
    ensures a == Add(a, b) <==> b == ZERO
  {
    hide Add;
    LinearLaws();
  }

  /** The verifier takes the challenge from the proof.  With at least 16 queries, commitments
      to any satisfying trace opened at any chi, derived or not, are accepted iff the terms
      whose rows contain chi cancel, in particular for every chi outside the 16-point domain. */
  lemma AnyChallengeExact(
    hash: Hash, cols: seq<Poly>, quotients: seq<Poly>, t: Trace, roll: U64, numQueries: nat, chi: Elem)
    requires |cols| == 64 && |quotients| == NUM_CONSTRAINTS && AreSatisfying(cols, quotients, t, roll)
    requires numQueries >= MIN_ENHANCE_QUERIES
    ensures hide AreSatisfying, Descriptors, EnhanceVerify, MissingSum, ProofAt;
            EnhanceVerify(hash, ProofAt(hash, cols, quotients, numQueries, chi), roll, numQueries) == EnhanceAccept <==>
            MissingSum(Descriptors(), quotients, Alphas(hash), chi, NUM_CONSTRAINTS) == ZERO
    ensures hide AreSatisfying, EnhanceVerify, DomainOf, ProofAt;
            chi !in DomainOf(N_LOG2) ==>
              EnhanceVerify(hash, ProofAt(hash, cols, quotients, numQueries, chi), roll, numQueries) == EnhanceAccept
  {
    hide Add, Mul, Eval, Pow, RootOfUnity, FriProve, FriVerify, DomainOf, Descriptors, Combine, ExpectedTau,
         ConstraintSum, MissingSum, ColOpensAt, ShowsRoll, ColumnsOf, AreQuotients, AreColumns, Betas, Alphas;
    var proof := ProofAt(hash, cols, quotients, numQueries, chi);
    DescriptorsListed();
    SatisfyingShape(cols, quotients, t);
    RollRowInFriDomain();
    TauAccepted(hash, cols, t, roll, numQueries);
    QuotientAccepted(hash, cols, quotients, numQueries);
    ConstraintSumExact(hash, cols, quotients, proof, chi);
    AddZeroIff(ConstraintSum(hash, proof), MissingSum(Descriptors(), quotients, Alphas(hash), chi, NUM_CONSTRAINTS));
    if chi !in DomainOf(N_LOG2) {
      NothingMissing(Descriptors(), quotients, Alphas(hash), chi, NUM_CONSTRAINTS);
    }
  }

  /** Completeness, exactly: the honest proof is accepted iff the terms whose rows contain
      its challenge cancel, in particular whenever that lies outside the 16-point domain. */
  lemma EnhanceComplete(
    hash: Hash, proof: EnhanceProof, cols: seq<Poly>, quotients: seq<Poly>, seed: U64, roll: U64, numQueries: nat)
    requires IsHonestProof(hash, proof, cols, quotients, seed, roll, numQueries)
    requires numQueries >= MIN_ENHANCE_QUERIES
    ensures hide *;
            |quotients| == NUM_CONSTRAINTS && proof.challenge < MODULUS
    ensures hide IsHonestProof, Descriptors, EnhanceVerify, MissingSum;
            EnhanceVerify(hash, proof, roll, numQueries) == EnhanceAccept <==>
            MissingSum(Descriptors(), quotients, Alphas(hash), proof.challenge, NUM_CONSTRAINTS) == ZERO
    ensures hide IsHonestProof, EnhanceVerify, DomainOf;
            proof.challenge !in DomainOf(N_LOG2) ==> EnhanceVerify(hash, proof, roll, numQueries) == EnhanceAccept
  {
    hide AreHonest, AreSatisfying, TraceOf, Descriptors, EnhanceVerify, MissingSum, DomainOf, DerivedFrom, ColOpensAt,
         TauFri, QuotientFri, Eval, Combine;
    HonestSatisfies(cols, quotients, seed, roll);
    AnyChallengeExact(
      hash, cols, quotients, TraceOf(seed, roll), roll, numQueries, DerivedFrom(hash, cols, quotients, numQueries));
  }

  /** 2 and 4 are no 16th roots of unity. */
  lemma OutsideDomain(chi: Elem)
    requires chi == 2 || chi == 4
    ensures chi !in DomainOf(N_LOG2)
  {
    hide Mul, Pow, Pow2, RootOfUnity, DomainOf;
    SmallPowers();
    PowOfTwo(16);
    PowOfTwo(32);
    PowOfTwo(2);
    PowMul(2, 2, 16);
    if chi in DomainOf(N_LOG2) {
      DomainPowerIsOne(chi);
    }
  }

  lemma DomainPowerIsOne(x: Elem)
    requires x in DomainOf(N_LOG2)
    ensures Pow(x, 16) == ONE
  {
    hide Mul, Pow, RootOfUnity;
    SmallPowers();
    var i :| 0 <= i < |DomainOf(N_LOG2)| && DomainOf(N_LOG2)[i] == x;
    DomainPower(N_LOG2, i);
  }

  lemma SmallPowers()
    ensures New(2) == 2 && Pow2(2) == 4 && Pow2(N_LOG2) == 16 && Pow2(16) == 0x1_0000 && Pow2(32) == 0x1_0000_0000
  {
    Pow2Of32();
    assert Pow2(4) == 16;
    assert Pow2(8) == 256;
    assert Pow2(12) == 0x1000;
  }

  /** So a proof whose challenge is not the derived one is accepted, for every satisfying trace. */
  lemma UnderivedChallengeAccepted(
    hash: Hash, cols: seq<Poly>, quotients: seq<Poly>, t: Trace, roll: U64, numQueries: nat) returns (chi: Elem)
    requires |cols| == 64 && |quotients| == NUM_CONSTRAINTS && AreSatisfying(cols, quotients, t, roll)
    requires numQueries >= MIN_ENHANCE_QUERIES
    ensures chi != DerivedFrom(hash, cols, quotients, numQueries)
    ensures EnhanceVerify(hash, ProofAt(hash, cols, quotients, numQueries, chi), roll, numQueries) == EnhanceAccept
  {
    hide AreSatisfying, EnhanceVerify, DomainOf, DerivedFrom, ProofAt;
    chi := if DerivedFrom(hash, cols, quotients, numQueries) == 2 then 4 else 2;
    OutsideDomain(chi);
    AnyChallengeExact(hash, cols, quotients, t, roll, numQueries, chi);
  }

  lemma TauClaim(
    hash: Hash, cols: seq<Poly>, t: Trace, roll: U64, numQueries: nat, claim: U64)
    requires ColumnsOf(cols, t) && ShowsRoll(t, roll)
    requires Pow(Omega(), 10) in DomainOf(FRI_K - 1)
    ensures hide Pow, RootOfUnity, DomainOf, Combine, Betas, ExpectedTau, FriProve, FriVerify;
            var tau := Combine(cols, Betas(hash), 64);
            var pt := Pow(Omega(), 10);
            var proof := FriProve(hash, tau, FRI_K - 1, numQueries, [], Some(pt));
            FriVerify(hash, proof, FRI_K - 1, numQueries, [], Claim(pt, ExpectedTau(Betas(hash), claim, 10))) == Accept
            <==> ExpectedTau(Betas(hash), claim, 10) == ExpectedTau(Betas(hash), roll, 10)
  {
    hide Add, Mul, Eval, Pow, RootOfUnity, FriProve, FriVerify, DomainOf, Betas, Combine, CombineAt, ExpectedTau,
         ShowsRoll, PolyAdd, PolyScale;
    var tau, pt := Combine(cols, Betas(hash), 64), Pow(Omega(), 10);
    EvalColumns(cols, t);
    CombineLength(cols, Betas(hash), 64, 16);
    EvalCombine(cols, Betas(hash), pt, 64);
    TauOnRollRow(cols, t, roll, Betas(hash), 64);
    assert Pow2(6) == 64;
    BoundaryExact(hash, tau, FRI_K - 1, numQueries, [], pt, ExpectedTau(Betas(hash), claim, 10));
  }

  /** An honest proof, offered for another public roll, is accepted iff the weighted bits of
      that roll have the same sum.  This is about the honest proof object only. */
  lemma RollExact(
    hash: Hash, proof: EnhanceProof, cols: seq<Poly>, quotients: seq<Poly>, seed: U64, roll: U64, numQueries: nat,
    claim: U64)
    requires IsHonestProof(hash, proof, cols, quotients, seed, roll, numQueries)
    ensures hide EnhanceVerify, IsHonestProof, Betas, ExpectedTau;
            EnhanceVerify(hash, proof, claim, numQueries) == EnhanceAccept <==>
            ExpectedTau(Betas(hash), claim, 10) == ExpectedTau(Betas(hash), roll, 10) &&
            EnhanceVerify(hash, proof, roll, numQueries) == EnhanceAccept
  {
    hide Add, Mul, Eval, Pow, RootOfUnity, FriProve, FriVerify, DomainOf, Descriptors, Combine, ExpectedTau,
         ConstraintSum, DerivedFrom, ColOpensAt, TraceOf, EnhanceRoll, ColumnsOf, ShowsRoll, AreQuotients,
         AreColumns, Betas, Alphas;
    DescriptorsListed();
    SatisfyingShape(cols, quotients, TraceOf(seed, roll));
    HonestTraceShows(seed, roll);
    RollRowInFriDomain();
    TauClaim(hash, cols, TraceOf(seed, roll), roll, numQueries, claim);
  }

  lemma SatisfyingShape(cols: seq<Poly>, quotients: seq<Poly>, t: Trace)
    requires AllListed(Descriptors()) && ColumnsOf(cols, t)
    requires AreQuotients(Descriptors(), cols, quotients)
    ensures AreColumns(cols) && |cols| == 64 && |quotients| == NUM_CONSTRAINTS
  {
    hide Descriptors, Eval, IsQuotient;
  }
}
