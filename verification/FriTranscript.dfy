/** The transcript of the low-degree test, as flat lists of digests: what is hashed for every
    challenge, every query point and every combination coefficient; and what an honest proof
    holds, layer by layer. */
module FriTranscript {
  import opened Goldilocks
  import opened Powers
  import opened RootsOfUnity
  import opened Polynomials
  import opened PolynomialOps
  import opened Bytes
  import opened Merkle
  import opened FriProtocol
  import opened FriAcceptance
  import opened Wrappers

  /** The first eight bytes of a digest, most significant first. */
  function FirstWord(d: Digest): nat {
    FromBigEndian(d[..8])
  }

  ghost predicate AllZero(b: Bytes) {
    forall i :: 0 <= i < |b| ==> b[i] == 0
  }

  // ----- folding challenges -----

  /** Round j hashes the previous digest (at first the state), root j and 32 zero bytes. */
  ghost predicate AreRounds(hash: Hash, roots: seq<Digest>, state: Bytes, rounds: seq<Digest>, zeros: Bytes) {
    && |rounds| == |roots| && |zeros| == 32 && AllZero(zeros)
    && forall j {:trigger rounds[j]} :: 0 <= j < |roots| ==>
         rounds[j] == hash((if j == 0 then state else rounds[j - 1]) + roots[j] + zeros)
  }

  lemma ZerosAreZero()
    ensures AllZero(Zero32())
  {
  }

  lemma RoundsPrepend(hash: Hash, roots: seq<Digest>, state: Bytes, rest: seq<Digest>, zeros: Bytes)
    requires roots != [] && |zeros| == 32
    requires AreRounds(hash, roots[1..], hash(state + roots[0] + zeros), rest, zeros)
    ensures AreRounds(hash, roots, state, [hash(state + roots[0] + zeros)] + rest, zeros)
  {
    var all := [hash(state + roots[0] + zeros)] + rest;
    forall j | 0 <= j < |roots|
      ensures all[j] == hash((if j == 0 then state else all[j - 1]) + roots[j] + zeros)
    {
      if j > 0 {
        var before: Bytes := if j == 1 then all[0] else rest[j - 2];
        assert rest[j - 1] == hash(before + roots[1..][j - 1] + zeros);
      }
    }
  }

  /** The folding challenge of layer j is the first word of round j, reduced. */
  lemma {:induction false} ChallengesFlat(hash: Hash, roots: seq<Digest>, state: Bytes)
    returns (rounds: seq<Digest>, zeros: Bytes)
    ensures AreRounds(hash, roots, state, rounds, zeros)
    ensures forall j :: 0 <= j < |roots| ==> TranscriptAlphas(hash, roots, state)[j] == FirstWord(rounds[j]) % MODULUS
    ensures zeros == Zero32()
  {
    hide FromBigEndian;
    zeros := Zero32();
    ZerosAreZero();
    if roots == [] {
      rounds := [];
    } else {
      var next := SqueezeHash(hash, state + roots[0]);
      var rest, _ := ChallengesFlat(hash, roots[1..], next);
      rounds := [next] + rest;
      RoundsPrepend(hash, roots, state, rest, zeros);
    }
  }

  // ----- query points -----

  /** Draw i hashes everything so far and is then appended to it. */
  ghost predicate AreDraws(hash: Hash, state: Bytes, draws: seq<Digest>, states: seq<Bytes>) {
    && |states| == |draws| + 1 && states[0] == state
    && forall i {:trigger draws[i]} :: 0 <= i < |draws| ==>
         draws[i] == hash(states[i]) && states[i + 1] == states[i] + draws[i]
  }

  /** The i-th query point has the first word of draw i, modulo the length, as exponent. */
  lemma {:induction false} QueryPointsFlat(hash: Hash, state: Bytes, k: nat, n: nat)
    returns (draws: seq<Digest>, states: seq<Bytes>)
    requires k <= 32
    ensures |draws| == n && AreDraws(hash, state, draws, states)
    ensures forall i :: 0 <= i < n ==>
              QueryStarts(hash, state, k, n)[i] == Pow(RootOfUnity(k), FirstWord(draws[i]) % Pow2(k))
    decreases n
  {
    hide FromBigEndian, Pow, RootOfUnity, Pow2;
    if n == 0 {
      draws, states := [], [state];
    } else {
      var h := hash(state);
      var rest, after := QueryPointsFlat(hash, state + h, k, n - 1);
      draws, states := [h] + rest, [state] + after;
      DrawsPrepend(hash, state, rest, after);
    }
  }

  lemma DrawsPrepend(hash: Hash, state: Bytes, rest: seq<Digest>, after: seq<Bytes>)
    requires AreDraws(hash, state + hash(state), rest, after)
    ensures AreDraws(hash, state, [hash(state)] + rest, [state] + after)
  {
    var draws, states := [hash(state)] + rest, [state] + after;
    forall i | 0 <= i < |draws|
      ensures draws[i] == hash(states[i]) && states[i + 1] == states[i] + draws[i]
    {
      if i > 0 {
        assert rest[i - 1] == hash(after[i - 1]) && after[i] == after[i - 1] + rest[i - 1];
      }
    }
  }

  lemma RoundsTail(hash: Hash, roots: seq<Digest>, state: Bytes, rounds: seq<Digest>, zeros: Bytes)
    requires roots != [] && AreRounds(hash, roots, state, rounds, zeros)
    ensures |rounds| == |roots| && rounds[0] == hash(state + roots[0] + zeros)
    ensures AreRounds(hash, roots[1..], rounds[0], rounds[1..], zeros)
  {
    var first, rest := rounds[0], rounds[1..];
    forall j | 0 <= j < |rest|
      ensures var before: Bytes := if j == 0 then first else rest[j - 1];
              rest[j] == hash(before + roots[1..][j] + zeros)
    {
      var before: Bytes := rounds[j];
      assert rounds[j + 1] == hash(before + roots[j + 1] + zeros);
    }
  }

  lemma {:induction false} StateAfterCommit(
    hash: Hash, f: Poly, k: nat, folds: nat, state: Bytes, rounds: seq<Digest>, zeros: Bytes)
    requires folds <= k <= 32 && zeros == Zero32()
    requires AreRounds(hash, CommitLayers(hash, f, k, folds, state).roots, state, rounds, zeros)
    ensures folds > 0 ==> |rounds| == folds
    ensures CommitLayers(hash, f, k, folds, state).state == if folds == 0 then state else rounds[folds - 1]
    decreases folds
  {
    hide Fold, LayerTree, AreRounds;
    if folds > 0 {
      var root := LayerTree(hash, f, k).root;
      var c := CommitLayers(hash, f, k, folds, state);
      RoundsTail(hash, c.roots, state, rounds, zeros);
      assert c.roots[1..] == CommitLayers(hash, Fold(f, c.alphas[0]), k - 1, folds - 1, rounds[0]).roots;
      StateAfterCommit(hash, Fold(f, c.alphas[0]), k - 1, folds - 1, rounds[0], rounds[1..], zeros);
    }
  }

  /** The transcript of an honest proof, read off the proof: after the last root the digest of
      the last round is hashed again and again, each time with all draws so far, and every
      draw gives one query point. */
  lemma HonestTranscript(hash: Hash, f: Poly, k: nat, numQueries: nat, state: Bytes, boundary: Option<Elem>)
    returns (rounds: seq<Digest>, zeros: Bytes, draws: seq<Digest>, states: seq<Bytes>)
    requires 1 <= k <= 32
    requires boundary.Some? ==> k >= 2 && boundary.value in DomainOf(k)
    ensures var proof := FriProve(hash, f, k, numQueries, state, boundary);
            && |proof.roots| == k - 1
            && AreRounds(hash, proof.roots, state, rounds, zeros)
            && |draws| == |proof.queryStarts| == |proof.queries| == numQueries
            && AreDraws(hash, if k == 1 then state else rounds[k - 2], draws, states)
            && forall i :: 0 <= i < numQueries ==>
                 proof.queryStarts[i] == Pow(RootOfUnity(k), FirstWord(draws[i]) % Pow2(k))
  {
    hide FromBigEndian, Pow, RootOfUnity, Pow2, QueryOpens, OpenPoint, CommitLayers, QueryStarts, AreRounds, AreDraws,
         TranscriptAlphas, FirstWord, DomainOf;
    var c := CommitLayers(hash, f, k, k - 1, state);
    rounds, zeros := ChallengesFlat(hash, c.roots, state);
    StateAfterCommit(hash, f, k, k - 1, state, rounds, zeros);
    RoundCount(hash, c.roots, state, rounds, zeros);
    draws, states := QueryPointsFlat(hash, c.state, k, numQueries);
  }

  lemma RoundCount(hash: Hash, roots: seq<Digest>, state: Bytes, rounds: seq<Digest>, zeros: Bytes)
    requires AreRounds(hash, roots, state, rounds, zeros)
    ensures |rounds| == |roots|
  {
  }

  // ----- the contents of an honest proof -----

  /** A fold pairs the coefficients: c_2i + alpha c_(2i+1). */
  lemma FoldCoefficients(f: Poly, alpha: Elem, i: nat)
    ensures Coeff(Fold(f, alpha), i) == Add(Coeff(f, 2 * i), Mul(Coeff(f, 2 * i + 1), alpha))
  {
    hide Add, Mul, Trim, Evens, Odds;
    var e, o := Trim(Evens(f)), Trim(Odds(f));
    TrimKeepsCoeffs(Evens(f));
    TrimKeepsCoeffs(Odds(f));
    TrimKeepsCoeffs(Scaled(o, alpha));
    TrimKeepsCoeffs(Sum(e, PolyScale(o, alpha)));
    assert Coeff(e, i) == Coeff(Evens(f), i) == Coeff(f, 2 * i);
    assert Coeff(o, i) == Coeff(Odds(f), i) == Coeff(f, 2 * i + 1);
    MulNeutral(alpha);
    AddNeutral(ZERO);
    assert Coeff(PolyScale(o, alpha), i) == Coeff(Scaled(o, alpha), i) == Mul(Coeff(o, i), alpha);
    assert Coeff(Sum(e, PolyScale(o, alpha)), i) == Add(Coeff(e, i), Coeff(PolyScale(o, alpha), i));
  }

  lemma CommitUnfold(hash: Hash, f: Poly, k: nat, folds: nat, state: Bytes)
    requires 1 <= folds <= k <= 32
    ensures |DomainOf(k)| <= WORD
    ensures var c := CommitLayers(hash, f, k, folds, state);
            var next := SqueezeHash(hash, state + c.roots[0]);
            var rest := CommitLayers(hash, Fold(f, c.alphas[0]), k - 1, folds - 1, next);
            && c.polys == [f] + rest.polys && c.roots[1..] == rest.roots && c.alphas[1..] == rest.alphas
            && c.last == rest.last
            && c.roots[0] == TreeOf(hash, Values(f, DomainOf(k))).root
  {
    hide Fold, TreeOf, DomainOf, Values, SqueezeHash, SqueezeValue;
    DomainSizes(k);
  }

  lemma CommitNone(hash: Hash, f: Poly, k: nat, state: Bytes)
    requires k <= 32
    ensures CommitLayers(hash, f, k, 0, state).last == f
  {
  }

  lemma CommitFirst(hash: Hash, f: Poly, k: nat, folds: nat, state: Bytes)
    requires 1 <= folds <= k <= 32
    ensures CommitLayers(hash, f, k, folds, state).polys[0] == f
  {
    hide CommitLayers;
  }

  /** Each layer folds into the next with its challenge, and its root commits to its values on
      its domain. */
  lemma {:induction false} LayersFlat(hash: Hash, f: Poly, k: nat, folds: nat, state: Bytes, j: nat)
    requires j < folds <= k <= 32
    ensures |DomainOf(k - j)| <= WORD
    ensures hide CommitLayers, Fold, TreeOf, DomainOf;
            var c := CommitLayers(hash, f, k, folds, state);
            && c.polys[0] == f
            && (if j + 1 < folds then c.polys[j + 1] else c.last) == Fold(c.polys[j], c.alphas[j])
            && c.roots[j] == TreeOf(hash, Values(c.polys[j], DomainOf(k - j))).root
    decreases folds
  {
    hide Fold, TreeOf, DomainOf, Values, SqueezeHash, SqueezeValue, CommitLayers;
    var c := CommitLayers(hash, f, k, folds, state);
    var next := SqueezeHash(hash, state + c.roots[0]);
    CommitUnfold(hash, f, k, folds, state);
    DomainSizes(k - j);
    if j > 0 {
      var rest := CommitLayers(hash, Fold(f, c.alphas[0]), k - 1, folds - 1, next);
      LayersFlat(hash, Fold(f, c.alphas[0]), k - 1, folds - 1, next, j - 1);
      assert c.roots[j] == c.roots[1..][j - 1] == rest.roots[j - 1];
      assert c.alphas[j] == c.alphas[1..][j - 1] == rest.alphas[j - 1];
      assert c.polys[j] == rest.polys[j - 1];
    } else if folds == 1 {
      CommitNone(hash, Fold(f, c.alphas[0]), k - 1, next);
    } else {
      CommitFirst(hash, Fold(f, c.alphas[0]), k - 1, folds - 1, next);
    }
  }

  lemma OpensUnfold(hash: Hash, polys: seq<Poly>, k: nat, x: Elem, last: Poly)
    requires 1 <= |polys| <= k <= 32 && x in DomainOf(k)
    ensures hide QueryOpens, DomainOf, Mul, Neg, OpenPoint, Eval;
            Neg(x) in DomainOf(k) && Mul(x, x) in DomainOf(k - 1)
    ensures hide QueryOpens, DomainOf, Mul, Neg, OpenPoint, Eval;
            var opens, y := QueryOpens(hash, polys, k, x, last), Mul(x, x);
            && opens[1..] == QueryOpens(hash, polys[1..], k - 1, y, last)
            && opens[0].atX == OpenPoint(hash, polys[0], k, x)
            && opens[0].atNegX == OpenPoint(hash, polys[0], k, Neg(x))
            && opens[0].atY == if |polys| > 1 then OpenPoint(hash, polys[1], k - 1, y)
                               else OpenVal(0xFFFF_FFFF_FFFF_FFFF, Eval(last, y), [])
  {
    hide Mul, Neg, DomainOf, Eval, OpenPoint;
    DomainClosed(x, k);
  }

  lemma OpenPointIs(hash: Hash, f: Poly, k: nat, x: Elem)
    requires k <= 32 && x in DomainOf(k)
    ensures hide OpenPoint, DomainOf, Eval;
            var o := OpenPoint(hash, f, k, x);
            o.index < |DomainOf(k)| && DomainOf(k)[o.index] == x && o.value == Eval(f, x)
  {
    hide DomainOf, Eval, AuthPath, LayerTree;
  }

  /** The openings of a query in layer j: both points of the layer with their values, and after
      the last layer the value of the last polynomial, with the index 2^64 - 1 and no path. */
  lemma {:induction false} OpensFlat(hash: Hash, polys: seq<Poly>, k: nat, x: Elem, last: Poly, j: nat)
    requires j < |polys| <= k <= 32 && x in DomainOf(k)
    ensures hide QueryOpens, DomainOf, Eval, Pow, Mul;
            var o, p := QueryOpens(hash, polys, k, x, last)[j], PointAt(x, j);
            && o.atX.index < |DomainOf(k - j)| && DomainOf(k - j)[o.atX.index] == p && o.atX.value == Eval(polys[j], p)
            && o.atNegX.index < |DomainOf(k - j)| && DomainOf(k - j)[o.atNegX.index] == Neg(p)
            && o.atNegX.value == Eval(polys[j], Neg(p))
            && (j + 1 < |polys| ==> o.atY == QueryOpens(hash, polys, k, x, last)[j + 1].atX)
            && (j + 1 == |polys| ==> o.atY == OpenVal(0xFFFF_FFFF_FFFF_FFFF, Eval(last, Mul(p, p)), []))
    decreases |polys|
  {
    hide Mul, Neg, DomainOf, Eval, Pow, PointAt, OpenPoint, QueryOpens;
    OpensUnfold(hash, polys, k, x, last);
    PointSteps(x, if j > 0 then j - 1 else 0);
    var opens := QueryOpens(hash, polys, k, x, last);
    if j > 0 {
      OpensFlat(hash, polys[1..], k - 1, Mul(x, x), last, j - 1);
      assert opens[j] == opens[1..][j - 1];
      assert j + 1 < |polys| ==> opens[j + 1] == opens[1..][j];
    } else {
      OpenPointIs(hash, polys[0], k, x);
      OpenPointIs(hash, polys[0], k, Neg(x));
      if |polys| > 1 {
        OpensUnfold(hash, polys[1..], k - 1, Mul(x, x), last);
        assert opens[1] == opens[1..][0];
      }
    }
  }

  /** The boundary opening of a proof: present iff a point was given, and then the value at
      that point, found by its place in the largest domain. */
  lemma BoundaryOpened(hash: Hash, f: Poly, k: nat, numQueries: nat, state: Bytes, boundary: Option<Elem>)
    requires 1 <= k <= 32
    requires boundary.Some? ==> k >= 2 && boundary.value in DomainOf(k)
    ensures hide FriProve, DomainOf, Eval;
            var o := FriProve(hash, f, k, numQueries, state, boundary).boundary;
            && o.Some? == boundary.Some?
            && (o.Some? ==>
                  && o.value.index < |DomainOf(k)| && DomainOf(k)[o.value.index] == boundary.value
                  && o.value.value == Eval(f, boundary.value))
  {
    hide QueryOpens, OpenPoint, CommitLayers, QueryStarts, DomainOf, Eval;
    if boundary.Some? {
      OpenPointIs(hash, f, k, boundary.value);
    }
  }
}
