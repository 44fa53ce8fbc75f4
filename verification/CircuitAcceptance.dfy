/** What the three verifiers accept and why they reject, for every proof object.

    Acceptance means: both commitments pass the low-degree test on their domain, the trace's
    with the public value as boundary claim, the challenge is the derived one (in two of the
    three), and the opened words satisfy the constraint equation. */
module CircuitAcceptance {
  import opened Goldilocks
  import opened Residues
  import opened Powers
  import opened RootsOfUnity
  import opened Polynomials
  import opened Bytes
  import opened FriProtocol
  import opened FriAcceptance
  import opened Challenge
  import opened Interpolation
  import opened TransitionRows
  import opened Wrappers
  import opened EnhanceValues
  import S = SquareChain
  import T = Tower
  import E = EnhanceProtocol

  // ----- the square chain -----

  lemma ChainAcceptExact(hash: Hash, proof: S.DemoProof, c: U64, b: U64, k: nat, numQueries: nat)
    requires 1 <= k <= 32
    ensures hide Accepted, Pow, RootOfUnity, DomainOf, ProductAt, ChallengeMessage, S.ChainVerify, MulWords, SubWords,
                 FromBigEndian;
            S.ChainVerify(hash, proof, c, b, k, numQueries) == S.ChainAccept <==>
            && Accepted(hash, proof.traceFri, k, numQueries, [],
                        Claim(Pow(RootOfUnity(k), Pow2(k) - 1), b % MODULUS))
            && Accepted(hash, proof.quotientFri, k, numQueries, [], None)
            && proof.challenge ==
               FromBigEndian(hash(ChallengeMessage(proof.traceFri, proof.quotientFri))[..8]) % MODULUS
            && MulWords(proof.opens.2, ProductAt(DomainOf(k)[..Pow2(k) - 1], proof.challenge)) ==
               SubWords(SubWords(proof.opens.1, MulWords(proof.opens.0, proof.opens.0)), c % MODULUS)
  {
    hide Accepted, Pow, RootOfUnity, DomainOf, ProductAt, ChallengeMessage, MulWords, SubWords, FriVerify,
         FromBigEndian;
    AcceptExact(hash, proof.traceFri, k, numQueries, [], Claim(BoundaryPoint(k), New(b)));
    AcceptExact(hash, proof.quotientFri, k, numQueries, [], None);
  }

  /** Which check decides, in the order of the source. */
  lemma ChainVerdictExact(hash: Hash, proof: S.DemoProof, c: U64, b: U64, k: nat, numQueries: nat)
    requires 1 <= k <= 32
    ensures hide FriVerify, Pow, RootOfUnity, DomainOf, DerivedChallenge, S.ChainVerify;
            var trace := FriVerify(hash, proof.traceFri, k, numQueries, [], Claim(BoundaryPoint(k), b % MODULUS));
            var quotient := FriVerify(hash, proof.quotientFri, k, numQueries, [], None);
            var derived := proof.challenge == DerivedChallenge(hash, proof.traceFri, proof.quotientFri);
            var v := S.ChainVerify(hash, proof, c, b, k, numQueries);
            && (trace != Accept ==> v == S.TraceRejected(trace))
            && (trace == Accept && quotient != Accept ==> v == S.QuotientRejected(quotient))
            && (trace == Accept && quotient == Accept && !derived ==> v == S.ChallengeMismatch)
            && (trace == Accept && quotient == Accept && derived ==> v in {S.ConstraintFailed, S.ChainAccept})
  {
    hide FriVerify, Pow, RootOfUnity, DomainOf, DerivedChallenge, ProductAt, MulWords, SubWords;
  }

  // ----- the tower -----

  lemma TowerAcceptExact(hash: Hash, proof: T.TowerProof, cfg: T.Config, claim: U64, numQueries: nat)
    ensures hide Accepted, Pow, RootOfUnity, DomainOf, ProductAt, ChallengeMessage, T.TowerVerify, MulWords, SubWords,
                 AddWords, FromBigEndian;
            T.TowerVerify(hash, proof, cfg, claim, numQueries) == T.TowerAccept <==>
            && Accepted(hash, proof.traceFri, 9, numQueries, [], Claim(Pow(RootOfUnity(7), 127), claim % MODULUS))
            && Accepted(hash, proof.quotientFri, 9, numQueries, [], None)
            && proof.challenge ==
               FromBigEndian(hash(ChallengeMessage(proof.traceFri, proof.quotientFri))[..8]) % MODULUS
            && var chi: Elem, (t, tNext, q) := proof.challenge, proof.opens;
               var z := if chi == Pow(RootOfUnity(7), 127) then 0 else ProductAt(TransitionPoints(7), chi);
               MulWords(q, z) ==
               AddWords(SubWords(tNext, MulWords(t, (1000 + cfg.growth) % 0x1_0000_0000_0000_0000 % MODULUS)),
                        1000 * (cfg.a * chi * chi + cfg.b * chi + cfg.c) % MODULUS)
  {
    hide Accepted, Pow, RootOfUnity, DomainOf, ProductAt, ChallengeMessage, MulWords, SubWords, AddWords, FriVerify,
         FromBigEndian, Mul, T.FastVanishing, T.DifficultyPoly, Eval, TransitionPoints;
    AcceptExact(hash, proof.traceFri, 9, numQueries, [], Claim(BoundaryPoint(7), New(claim)));
    AcceptExact(hash, proof.quotientFri, 9, numQueries, [], None);
    var chi := DerivedChallenge(hash, proof.traceFri, proof.quotientFri);
    T.Rows();
    T.FastVanishingIsExact(chi);
    DifficultyTerm(cfg, chi);
  }

  lemma DifficultyTerm(cfg: T.Config, x: Elem)
    ensures Mul(Eval(T.DifficultyPoly(cfg), x), New(1000)) ==
            1000 * (cfg.a * x * x + cfg.b * x + cfg.c) % MODULUS
  {
    hide Mul, Eval, T.DifficultyPoly, New;
    var d: int := cfg.a * x * x + cfg.b * x + cfg.c;
    T.DifficultyValue(cfg, x);
    NewIsResidue(1000);
    MulResidue(Eval(T.DifficultyPoly(cfg), x), New(1000), d, 1000);
    assert d * 1000 == 1000 * d;
  }

  /** Which check decides, in the order of the source. */
  lemma TowerVerdictExact(hash: Hash, proof: T.TowerProof, cfg: T.Config, claim: U64, numQueries: nat)
    ensures hide FriVerify, Pow, RootOfUnity, DomainOf, DerivedChallenge, T.TowerVerify;
            var trace := FriVerify(hash, proof.traceFri, 9, numQueries, [],
                                   Claim(Pow(RootOfUnity(7), 127), claim % MODULUS));
            var quotient := FriVerify(hash, proof.quotientFri, 9, numQueries, [], None);
            var derived := proof.challenge == DerivedChallenge(hash, proof.traceFri, proof.quotientFri);
            var v := T.TowerVerify(hash, proof, cfg, claim, numQueries);
            && (trace != Accept ==> v == T.TraceRejected(trace))
            && (trace == Accept && quotient != Accept ==> v == T.QuotientRejected(quotient))
            && (trace == Accept && quotient == Accept && !derived ==> v == T.ChallengeMismatch)
            && (trace == Accept && quotient == Accept && derived ==> v in {T.ConstraintFailed, T.TowerAccept})
  {
    hide FriVerify, Pow, RootOfUnity, DomainOf, DerivedChallenge, MulWords, SubWords, AddWords, T.FastVanishing,
         T.DifficultyPoly, Eval, T.ConstraintValue;
  }

  // ----- the enhance circuit -----

  lemma EnhanceAcceptExact(hash: Hash, proof: E.EnhanceProof, roll: U64, numQueries: nat)
    ensures hide Accepted, Pow, RootOfUnity, E.EnhanceVerify, E.Betas, E.ConstraintSum, WeighedBits;
            E.EnhanceVerify(hash, proof, roll, numQueries) == E.EnhanceAccept <==>
            && numQueries >= 16
            && Accepted(hash, proof.tauFri, 6, numQueries, [],
                        Claim(Pow(RootOfUnity(4), 10), WeighedBits(E.Betas(hash), roll, 10) % MODULUS))
            && Accepted(hash, proof.quotientFri, 7, numQueries, [], None)
            && |proof.colOpens| >= 64
            && E.ConstraintSum(hash, proof) == proof.qAtChi
  {
    hide Accepted, Pow, RootOfUnity, E.Betas, E.ConstraintSum, WeighedBits, FriVerify, E.ExpectedTau;
    ExpectedTauIs(E.Betas(hash), roll, 10);
    AcceptExact(hash, proof.tauFri, 6, numQueries, [],
                Claim(Pow(RootOfUnity(4), 10), WeighedBits(E.Betas(hash), roll, 10) % MODULUS));
    AcceptExact(hash, proof.quotientFri, 7, numQueries, [], None);
  }

  /** Which check decides, in the order of the source. */
  lemma EnhanceVerdictExact(hash: Hash, proof: E.EnhanceProof, roll: U64, numQueries: nat)
    ensures hide FriVerify, Pow, RootOfUnity, E.EnhanceVerify, E.Betas, WeighedBits;
            var tau := FriVerify(hash, proof.tauFri, 6, numQueries, [],
                                 Claim(Pow(RootOfUnity(4), 10), WeighedBits(E.Betas(hash), roll, 10) % MODULUS));
            var quotient := FriVerify(hash, proof.quotientFri, 7, numQueries, [], None);
            var v := E.EnhanceVerify(hash, proof, roll, numQueries);
            && (numQueries < 16 ==> v == E.TooFewQueries)
            && (numQueries >= 16 && tau != Accept ==> v == E.TauRejected(tau))
            && (numQueries >= 16 && tau == Accept && quotient != Accept ==> v == E.QuotientRejected(quotient))
            && (numQueries >= 16 && tau == Accept && quotient == Accept ==>
                  if |proof.colOpens| < 64 then v == E.MissingColumns else v in {E.ConstraintFailed, E.EnhanceAccept})
  {
    hide FriVerify, Pow, RootOfUnity, E.Betas, E.ConstraintSum, WeighedBits, E.ExpectedTau;
    ExpectedTauIs(E.Betas(hash), roll, 10);
  }

  // ----- what the challenges commit to -----

  /** The two proofs commit to the same roots and final coefficients. */
  ghost predicate SameCommitments(t: FriProof, q: FriProof, t': FriProof, q': FriProof) {
    && t.roots == t'.roots && q.roots == q'.roots
    && t.finalCoeffs + q.finalCoeffs == t'.finalCoeffs + q'.finalCoeffs
  }

  /** Two accepted chain proofs of one length and one challenge have the same commitments, or
      their messages, which list these, are different and meet. */
  lemma ChainChallengeBinds(
    hash: Hash, p: S.DemoProof, c: U64, b: U64, n: nat, p': S.DemoProof, c': U64, b': U64, n': nat, k: nat)
    requires 1 <= k <= 32 && p.challenge == p'.challenge
    requires S.ChainVerify(hash, p, c, b, k, n) == S.ChainAccept
    requires S.ChainVerify(hash, p', c', b', k, n') == S.ChainAccept
    ensures SameCommitments(p.traceFri, p.quotientFri, p'.traceFri, p'.quotientFri) ||
            WordsMeet(hash, ChallengeMessage(p.traceFri, p.quotientFri), ChallengeMessage(p'.traceFri, p'.quotientFri))
  {
    hide S.ChainVerify, AllQueriesAccepted, TranscriptAlphas, BoundaryAccepted, ProductAt, Pow, RootOfUnity, DomainOf,
         ChallengeMessage, WordsMeet, FromBigEndian, MulWords, SubWords;
    ChainAcceptExact(hash, p, c, b, k, n);
    ChainAcceptExact(hash, p', c', b', k, n');
    ChallengeBinding(hash, p.traceFri, p.quotientFri, p'.traceFri, p'.quotientFri);
  }

  lemma TowerChallengeBinds(
    hash: Hash, p: T.TowerProof, cfg: T.Config, claim: U64, n: nat,
    p': T.TowerProof, cfg': T.Config, claim': U64, n': nat)
    requires p.challenge == p'.challenge
    requires T.TowerVerify(hash, p, cfg, claim, n) == T.TowerAccept
    requires T.TowerVerify(hash, p', cfg', claim', n') == T.TowerAccept
    ensures SameCommitments(p.traceFri, p.quotientFri, p'.traceFri, p'.quotientFri) ||
            WordsMeet(hash, ChallengeMessage(p.traceFri, p.quotientFri), ChallengeMessage(p'.traceFri, p'.quotientFri))
  {
    hide T.TowerVerify, AllQueriesAccepted, TranscriptAlphas, BoundaryAccepted, ProductAt, Pow, RootOfUnity, DomainOf,
         ChallengeMessage, WordsMeet, FromBigEndian, MulWords, SubWords, AddWords;
    TowerAcceptExact(hash, p, cfg, claim, n);
    TowerAcceptExact(hash, p', cfg', claim', n');
    ChallengeBinding(hash, p.traceFri, p.quotientFri, p'.traceFri, p'.quotientFri);
  }

  /** The message of the enhance challenge: both roots, then the coefficients in eight bytes
      each; it determines them all. */
  lemma EnhanceMessageLayout(tauRoot: Digest, qRoot: Digest, coeffs: seq<U64>)
    ensures var m := E.EnhanceMessage(tauRoot, qRoot, coeffs);
            && |m| == 64 + 8 * |coeffs|
            && m[..32] == tauRoot && m[32..64] == qRoot
            && forall i :: 0 <= i < |coeffs| ==> m[64..][8 * i..8 * i + 8] == BigEndian(coeffs[i], 8)
  {
    hide CoeffBytes, BigEndian;
    CoeffBytesLayout(coeffs);
    MessageParts(E.EnhanceMessage(tauRoot, qRoot, coeffs), tauRoot, qRoot, CoeffBytes(coeffs));
  }

  lemma EnhanceMessageBinding(
    tauRoot: Digest, qRoot: Digest, coeffs: seq<U64>, tauRoot': Digest, qRoot': Digest, coeffs': seq<U64>)
    requires E.EnhanceMessage(tauRoot, qRoot, coeffs) == E.EnhanceMessage(tauRoot', qRoot', coeffs')
    ensures tauRoot == tauRoot' && qRoot == qRoot' && coeffs == coeffs'
  {
    hide CoeffBytes;
    MessageParts(E.EnhanceMessage(tauRoot, qRoot, coeffs), tauRoot, qRoot, CoeffBytes(coeffs));
    MessageParts(E.EnhanceMessage(tauRoot', qRoot', coeffs'), tauRoot', qRoot', CoeffBytes(coeffs'));
    CoeffBytesInjective(coeffs, coeffs');
  }

  /** One enhance challenge for two commitments: they are the same, or the messages meet. */
  lemma EnhanceChallengeBinding(
    hash: Hash, tauRoot: Digest, qRoot: Digest, coeffs: seq<U64>, tauRoot': Digest, qRoot': Digest, coeffs': seq<U64>)
    requires E.EnhanceChallenge(hash, tauRoot, qRoot, coeffs) == E.EnhanceChallenge(hash, tauRoot', qRoot', coeffs')
    ensures (tauRoot == tauRoot' && qRoot == qRoot' && coeffs == coeffs') ||
            WordsMeet(hash, E.EnhanceMessage(tauRoot, qRoot, coeffs), E.EnhanceMessage(tauRoot', qRoot', coeffs'))
  {
    hide E.EnhanceMessage, FromBigEndian;
    if E.EnhanceMessage(tauRoot, qRoot, coeffs) == E.EnhanceMessage(tauRoot', qRoot', coeffs') {
      EnhanceMessageBinding(tauRoot, qRoot, coeffs, tauRoot', qRoot', coeffs');
    }
  }

  /** The honest proof's challenge, from the roots and coefficients that it carries. */
  lemma EnhanceChallengeIs(
    hash: Hash, proof: E.EnhanceProof, cols: seq<Poly>, quotients: seq<Poly>, seed: U64, roll: U64, numQueries: nat)
    requires E.IsHonestProof(hash, proof, cols, quotients, seed, roll, numQueries)
    ensures hide E.IsHonestProof;
            proof.tauFri.roots != [] && proof.quotientFri.roots != []
    ensures hide E.IsHonestProof, E.EnhanceMessage, FromBigEndian;
            proof.challenge ==
            FromBigEndian(hash(E.EnhanceMessage(proof.tauFri.roots[0], proof.quotientFri.roots[0],
                                                proof.quotientFri.finalCoeffs))[..8]) % MODULUS
  {
    hide E.TauFri, E.QuotientFri, E.EnhanceMessage, FromBigEndian, E.AreHonest, E.ColOpensAt, Eval, E.Combine;
  }
}
