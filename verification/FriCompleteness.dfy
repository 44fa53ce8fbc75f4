/** FRI completeness: the verifier accepts every honest proof, for every hash, every
    polynomial of low enough degree, and every number of queries. */
module FriCompleteness {
  import opened Goldilocks
  import opened Powers
  import opened Primality
  import opened RootsOfUnity
  import opened Polynomials
  import opened PolynomialOps
  import opened RawPolynomials
  import opened Bytes
  import opened Merkle
  import opened MerkleBinding
  import opened FriProtocol
  import opened Wrappers

  // ----- folding -----

  /** Folding halves the number of coefficients (rounded up). */
  lemma FoldLength(f: Poly, alpha: Elem)
    ensures |Fold(f, alpha)| <= Max(1, (|f| + 1) / 2)
    ensures Canonical(Fold(f, alpha))
  {
    hide Add, Mul, Trim;
    var e, o := Trim(Evens(f)), PolyScale(Trim(Odds(f)), alpha);
    TrimKeepsCoeffs(Sum(e, o));
  }

  lemma EvalFold(f: Poly, alpha: Elem, y: Elem)
    ensures Eval(Fold(f, alpha), y) == Add(Eval(Evens(f), y), Mul(Eval(Odds(f), y), alpha))
  {
    hide Add, Mul, Eval, Trim, PolyAdd, PolyScale;
    EvalTrim(Evens(f), y);
    EvalTrim(Odds(f), y);
    EvalOps(Trim(Odds(f)), [], alpha, y);
    EvalOps(Trim(Evens(f)), PolyScale(Trim(Odds(f)), alpha), ZERO, y);
  }

  lemma TwoInverse()
    ensures Mul(Add(ONE, ONE), Inv(New(2))) == ONE
  {
    hide Mul, Inv;
    assert Add(ONE, ONE) == New(2);
    InverseIsExact(New(2));
  }

  lemma Halve(t: Elem, h: Elem)
    requires Mul(Add(ONE, ONE), h) == ONE
    ensures Mul(Add(t, t), h) == t
  {
    hide Add, Mul;
    MulDistributes(t, ONE, ONE);
    MulNeutral(t);
    MulAssociates(t, Add(ONE, ONE), h);
  }

  lemma SumAndDifference(e: Elem, t: Elem)
    ensures Add(Add(e, t), Sub(e, t)) == Add(e, e)
    ensures Sub(Add(e, t), Sub(e, t)) == Add(t, t)
  {
    hide Add;
    LinearLaws();
  }

  /** On canonical values the fold is computed in the field. */
  lemma CanonicalFold(vx: Elem, vnx: Elem, x: Elem, alpha: Elem)
    ensures var h := Inv(New(2));
            FoldValue(vx, vnx, x, alpha) ==
            Add(Mul(Add(vx, vnx), h), Mul(alpha, Mul(Mul(Sub(vx, vnx), h), Inv(x))))
  {
    hide Add, Sub, Mul, Inv, AddWords, SubWords, MulWords;
    WordsAreElems(vx, vnx);
    WordsAreElems(Add(vx, vnx), Inv(New(2)));
    WordsAreElems(Sub(vx, vnx), Inv(New(2)));
  }

  /** The fold equation recovers E + alpha O from the two values at x and -x. */
  lemma FoldEquation(e: Elem, o: Elem, x: Elem, alpha: Elem)
    requires x != ZERO
    ensures FoldValue(Add(e, Mul(x, o)), Sub(e, Mul(x, o)), x, alpha) == Add(e, Mul(o, alpha))
  {
    hide Add, Sub, Mul, Inv, AddWords, SubWords, MulWords;
    var t, h := Mul(x, o), Inv(New(2));
    CanonicalFold(Add(e, t), Sub(e, t), x, alpha);
    SumAndDifference(e, t);
    TwoInverse();
    Halve(e, h);
    Halve(t, h);
    InverseIsExact(x);
    MulCommutes(x, o);
    MulAssociates(o, x, Inv(x));
    MulNeutral(o);
    MulCommutes(alpha, o);
  }

  /** f(-x) = E(x^2) - x O(x^2). */
  lemma EvalAtNegated(f: Poly, x: Elem)
    ensures Eval(f, Neg(x)) == Sub(Eval(Evens(f), Mul(x, x)), Mul(x, Eval(Odds(f), Mul(x, x))))
  {
    hide Add, Mul, Neg, Sub, Eval;
    var o := Eval(Odds(f), Mul(x, x));
    EvalEvenOdd(f, Neg(x));
    MulNeg(Neg(x), x);
    MulCommutes(Neg(x), x);
    MulNeg(x, x);
    NegNeg(Mul(x, x));
    MulCommutes(Neg(x), o);
    MulNeg(o, x);
    MulCommutes(o, x);
    SubIsAddNeg(Eval(Evens(f), Mul(x, x)), Mul(x, o));
  }

  lemma NegNeg(a: Elem)
    ensures Neg(Neg(a)) == a
  {
  }

  /** The honest values satisfy the fold equation at every point. */
  lemma HonestFold(f: Poly, x: Elem, alpha: Elem)
    requires x != ZERO
    ensures FoldValue(Eval(f, x), Eval(f, Neg(x)), x, alpha) == Eval(Fold(f, alpha), Mul(x, x))
  {
    hide Add, Mul, Neg, Sub, Eval, FoldValue, Fold;
    EvalEvenOdd(f, x);
    EvalAtNegated(f, x);
    EvalFold(f, alpha, Mul(x, x));
    FoldEquation(Eval(Evens(f), Mul(x, x)), Eval(Odds(f), Mul(x, x)), x, alpha);
  }

  // ----- openings -----

  /** An honest opening verifies against the root of its layer. */
  lemma HonestOpen(hash: Hash, f: Poly, k: nat, x: Elem)
    requires k <= 32 && x in DomainOf(k)
    ensures var o := OpenPoint(hash, f, k, x);
            && CheckOpen(hash, o, LayerTree(hash, f, k).root)
            && o.value == Eval(f, x)
            && o.index < |DomainOf(k)| && DomainOf(k)[o.index] == x
  {
    hide Eval, DomainOf, TreeOf, AuthPath;
    DomainSizes(k);
    var i := IndexOf(DomainOf(k), x);
    OpeningVerifies(hash, Values(f, DomainOf(k)), k, i);
  }

  // ----- the commit phase -----

  /** The verifier re-derives the prover's challenges. */
  lemma {:induction false} AlphasAgree(hash: Hash, f: Poly, k: nat, folds: nat, state: Bytes)
    requires folds <= k <= 32
    ensures var c := CommitLayers(hash, f, k, folds, state);
            TranscriptAlphas(hash, c.roots, state) == c.alphas
    decreases folds
  {
    hide SqueezeValue, SqueezeHash, LayerTree, Fold;
    if folds > 0 {
      var root := LayerTree(hash, f, k).root;
      var alpha := SqueezeValue(hash, state + root);
      AlphasAgree(hash, Fold(f, alpha), k - 1, folds - 1, SqueezeHash(hash, state + root));
      var rest := CommitLayers(hash, Fold(f, alpha), k - 1, folds - 1, SqueezeHash(hash, state + root));
      assert ([root] + rest.roots)[1..] == rest.roots;
    }
  }

  /** After all folds at most two coefficients remain. */
  lemma {:induction false} LastIsShort(hash: Hash, f: Poly, k: nat, folds: nat, state: Bytes)
    requires folds <= k <= 32 && |f| <= 2 * Pow2(folds)
    ensures |CommitLayers(hash, f, k, folds, state).last| <= 2
    decreases folds
  {
    hide SqueezeValue, SqueezeHash, LayerTree, Fold;
    if folds > 0 {
      var root := LayerTree(hash, f, k).root;
      var alpha := SqueezeValue(hash, state + root);
      FoldLength(f, alpha);
      LastIsShort(hash, Fold(f, alpha), k - 1, folds - 1, SqueezeHash(hash, state + root));
    }
  }

  // ----- queries -----

  /** Every layer of an honest query is accepted. */
  lemma {:induction false} HonestLayers(
    hash: Hash, f: Poly, k: nat, folds: nat, state: Bytes, x: Elem, j: nat)
    requires folds <= k <= 32 && x in DomainOf(k)
    ensures var c := CommitLayers(hash, f, k, folds, state);
            CheckLayers(hash, QueryOpens(hash, c.polys, k, x, c.last), c.roots, c.alphas, c.last, x, j) == Accept
    decreases folds
  {
    hide SqueezeValue, SqueezeHash, LayerTree, Fold, DomainOf, Mul, Neg, Eval, OpenPoint, CheckLayer, CheckOpen;
    if folds > 0 {
      var root := LayerTree(hash, f, k).root;
      var alpha := SqueezeValue(hash, state + root);
      var f', state' := Fold(f, alpha), SqueezeHash(hash, state + root);
      var c := CommitLayers(hash, f, k, folds, state);
      var rest := CommitLayers(hash, f', k - 1, folds - 1, state');
      var y := Mul(x, x);
      DomainClosed(x, k);
      HonestLayers(hash, f', k - 1, folds - 1, state', y, j + 1);
      assert c.polys[1..] == rest.polys && c.roots[1..] == rest.roots && c.alphas[1..] == rest.alphas;
      var opens := QueryOpens(hash, c.polys, k, x, c.last);
      assert opens[1..] == QueryOpens(hash, rest.polys, k - 1, y, c.last);
      var atY := if folds > 1 then OpenPoint(hash, f', k - 1, y) else OpenVal(USIZE_MAX, Eval(f', y), []);
      var next := if folds > 1 then Some(LayerTree(hash, f', k - 1).root) else None;
      assert opens[0] == LayerOpen(OpenPoint(hash, f, k, x), OpenPoint(hash, f, k, Neg(x)), atY);
      HonestOpen(hash, f, k, x);
      HonestOpen(hash, f, k, Neg(x));
      if folds > 1 {
        HonestOpen(hash, f', k - 1, y);
      }
      HonestLayer(hash, f, x, alpha, j, opens[0], root, next, c.last);
    }
  }

  /** One layer: both openings verify, the next opening is the folded value, and the fold
      equation holds. */
  lemma HonestLayer(
    hash: Hash, f: Poly, x: Elem, alpha: Elem, j: nat,
    open: LayerOpen, root: Digest, next: Option<Digest>, last: Poly)
    requires x != ZERO
    requires CheckOpen(hash, open.atX, root) && open.atX.value == Eval(f, x)
    requires CheckOpen(hash, open.atNegX, root) && open.atNegX.value == Eval(f, Neg(x))
    requires open.atY.value == Eval(Fold(f, alpha), Mul(x, x))
    requires if next.Some? then CheckOpen(hash, open.atY, next.value) else last == Fold(f, alpha)
    ensures CheckLayer(hash, open, root, next, last, alpha, x, j) == Accept
  {
    hide Fold, Mul, Neg, Eval, CheckOpen, FoldValue, TrimWords, EvalWords;
    HonestFold(f, x, alpha);
    EvalTrimWords(last, Mul(x, x));
    EvalCanonical(last, Mul(x, x));
  }

  lemma {:induction false} HonestQueries(
    hash: Hash, f: Poly, k: nat, numQueries: nat, state: Bytes, boundary: Option<Elem>, i: nat)
    requires 1 <= k <= 32 && i <= numQueries
    requires boundary.Some? ==> k >= 2 && boundary.value in DomainOf(k)
    ensures var c := CommitLayers(hash, f, k, k - 1, state);
            CheckQueries(hash, FriProve(hash, f, k, numQueries, state, boundary), c.alphas, k, i) == Accept
    decreases numQueries - i
  {
    hide CommitLayers, QueryOpens, DomainOf, CheckLayers, OpenPoint;
    if i < numQueries {
      HonestQueries(hash, f, k, numQueries, state, boundary, i + 1);
      var c := CommitLayers(hash, f, k, k - 1, state);
      HonestLayers(hash, f, k, k - 1, state, QueryStarts(hash, c.state, k, numQueries)[i], 0);
    }
  }

  lemma AcceptedWhen(
    hash: Hash, proof: FriProof, k: nat, numQueries: nat, state: Bytes, expected: Option<(U64, U64)>)
    requires 1 <= k <= 32
    requires |proof.roots| == k - 1 && |proof.finalCoeffs| <= 2
    requires |proof.queries| == |proof.queryStarts| == numQueries
    requires CheckQueries(hash, proof, TranscriptAlphas(hash, proof.roots, state), k, 0) == Accept
    requires CheckBoundary(hash, proof, k, expected) == Accept
    ensures FriVerify(hash, proof, k, numQueries, state, expected) == Accept
  {
    hide CheckQueries, CheckBoundary, TranscriptAlphas;
  }

  lemma ProofShape(hash: Hash, f: Poly, k: nat, numQueries: nat, state: Bytes, boundary: Option<Elem>)
    requires 1 <= k <= 32
    requires boundary.Some? ==> k >= 2 && boundary.value in DomainOf(k)
    ensures var proof := FriProve(hash, f, k, numQueries, state, boundary);
            var c := CommitLayers(hash, f, k, k - 1, state);
            && proof.roots == c.roots && proof.finalCoeffs == c.last
            && |proof.queries| == |proof.queryStarts| == numQueries
  {
    hide QueryOpens, DomainOf, OpenPoint, CommitLayers, QueryStarts;
  }

  /** Completeness: with at most 2^k coefficients, `verify` accepts what `prove` produces,
      and a boundary opening is checked against the value of f at that point. */
  lemma FriComplete(
    hash: Hash, f: Poly, k: nat, numQueries: nat, state: Bytes,
    boundary: Option<Elem>, expected: Option<(U64, U64)>)
    requires 1 <= k <= 32 && |f| <= Pow2(k)
    requires boundary.Some? ==> k >= 2 && boundary.value in DomainOf(k)
    requires expected.Some? ==>
               boundary.Some? && expected.value.0 == boundary.value && expected.value.1 == Eval(f, boundary.value)
    ensures FriVerify(hash, FriProve(hash, f, k, numQueries, state, boundary), k, numQueries, state, expected) == Accept
  {
    hide DomainOf, Eval, CheckQueries, CheckBoundary, Pow2, TranscriptAlphas, CommitLayers, FriProve, FriVerify;
    AlphasAgree(hash, f, k, k - 1, state);
    Pow2Add(1, k - 1);
    Pow2One();
    LastIsShort(hash, f, k, k - 1, state);
    ProofShape(hash, f, k, numQueries, state, boundary);
    HonestQueries(hash, f, k, numQueries, state, boundary, 0);
    HonestBoundary(hash, f, k, numQueries, state, boundary, expected);
    AcceptedWhen(hash, FriProve(hash, f, k, numQueries, state, boundary), k, numQueries, state, expected);
  }

  /** An accepted verdict includes the boundary check. */
  lemma AcceptChecksBoundary(
    hash: Hash, proof: FriProof, k: nat, numQueries: nat, state: Bytes, pt: U64, v: U64)
    requires 1 <= k <= 32
    requires FriVerify(hash, proof, k, numQueries, state, Some((pt, v))) == Accept
    ensures proof.boundary.Some? && proof.boundary.value.value == v
  {
    hide CheckQueries, TranscriptAlphas, CheckOpen, DomainOf;
  }

  lemma BoundaryOfProof(hash: Hash, f: Poly, k: nat, numQueries: nat, state: Bytes, pt: Elem)
    requires 2 <= k <= 32 && pt in DomainOf(k)
    ensures var b := FriProve(hash, f, k, numQueries, state, Some(pt)).boundary;
            b.Some? && b.value.value == Eval(f, pt)
  {
    hide QueryOpens, DomainOf, OpenPoint, CommitLayers, QueryStarts, Eval;
    HonestOpen(hash, f, k, pt);
  }

  /** Against a boundary claim the honest proof is accepted iff the claim is the value. */
  lemma BoundaryExact(hash: Hash, f: Poly, k: nat, numQueries: nat, state: Bytes, pt: Elem, v: U64)
    requires 2 <= k <= 32 && |f| <= Pow2(k) && pt in DomainOf(k)
    ensures var proof := FriProve(hash, f, k, numQueries, state, Some(pt));
            FriVerify(hash, proof, k, numQueries, state, Some((pt, v))) == Accept <==> v == Eval(f, pt)
  {
    hide FriVerify, FriProve, DomainOf, Eval, Pow2;
    var proof := FriProve(hash, f, k, numQueries, state, Some(pt));
    BoundaryOfProof(hash, f, k, numQueries, state, pt);
    if v == Eval(f, pt) {
      FriComplete(hash, f, k, numQueries, state, Some(pt), Some((pt, v)));
    }
    if FriVerify(hash, proof, k, numQueries, state, Some((pt, v))) == Accept {
      AcceptChecksBoundary(hash, proof, k, numQueries, state, pt, v);
    }
  }

  lemma HonestBoundary(
    hash: Hash, f: Poly, k: nat, numQueries: nat, state: Bytes,
    boundary: Option<Elem>, expected: Option<(U64, U64)>)
    requires 1 <= k <= 32
    requires boundary.Some? ==> k >= 2 && boundary.value in DomainOf(k)
    requires expected.Some? ==>
               boundary.Some? && expected.value.0 == boundary.value && expected.value.1 == Eval(f, boundary.value)
    ensures CheckBoundary(hash, FriProve(hash, f, k, numQueries, state, boundary), k, expected) == Accept
  {
    hide QueryOpens, DomainOf, Eval, CheckOpen, OpenPoint, LayerTree, Pow2;
    if expected.Some? {
      HonestOpen(hash, f, k, boundary.value);
      var c := CommitLayers(hash, f, k, k - 1, state);
      assert c.roots[0] == LayerTree(hash, f, k).root;
    }
  }

  lemma Pow2One()
    ensures Pow2(1) == 2
  {
  }

  /** Conversely an accepted boundary opening fixes the claimed value: two accepted proofs
      with the same first root, claims at one point, and boundary paths that take the same
      turns (paths of one length do) carry one opening, or those two openings clash. */
  lemma BoundaryBinding(hash: Hash, p: FriProof, p': FriProof, k: nat, pt: U64, v: U64, v': U64)
    requires 2 <= k <= 32
    requires CheckBoundary(hash, p, k, Some((pt, v))) == Accept
    requires CheckBoundary(hash, p', k, Some((pt, v'))) == Accept
    requires p.roots[0] == p'.roots[0]
    requires var o, o' := p.boundary.value, p'.boundary.value;
             SameTurns(o.index, |o.path|, o'.index, |o'.path|)
    ensures var o, o' := p.boundary.value, p'.boundary.value;
            && o.index == o'.index
            && ((v == v' && o == o') ||
                Clash(hash, OpeningInputs(hash, o.index, o.value, o.path),
                      OpeningInputs(hash, o'.index, o'.value, o'.path)))
  {
    hide VerifyPath, Pow, RootOfUnity, PrimitiveRoot, SameTurns, Clash, OpeningInputs;
    var o, o' := p.boundary.value, p'.boundary.value;
    RootIsPrimitive(k);
    if o.index != o'.index {
      DomainDistinct(RootOfUnity(k), k, o.index, o'.index);
    }
    OpeningBinding(hash, o.index, o.value, o.path, o'.index, o'.value, o'.path, p.roots[0]);
  }
}
