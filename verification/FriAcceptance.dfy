/** What the FRI verifier accepts, for every proof object, honest or not, canonical or not: a
    statement about all queries and layers at once, with the fold equation free of inverses. */
module FriAcceptance {
  import opened Goldilocks
  import opened Powers
  import opened Primality
  import opened RootsOfUnity
  import opened RawPolynomials
  import opened Bytes
  import opened Merkle
  import opened FriProtocol
  import opened FriCompleteness
  import opened Wrappers

  // ----- the fold equation -----

  lemma Interchange(a: Elem, b: Elem, c: Elem, d: Elem)
    ensures Mul(Mul(a, b), Mul(c, d)) == Mul(Mul(a, c), Mul(b, d))
  {
    hide Mul;
    MulAssociates(a, b, Mul(c, d));
    MulAssociates(b, c, d);
    MulCommutes(b, c);
    MulAssociates(c, b, d);
    MulAssociates(a, c, Mul(b, d));
  }

  lemma Doubled(x: Elem)
    ensures Add(x, x) == Mul(x, Add(ONE, ONE))
    ensures x != ZERO ==> Add(x, x) != ZERO
  {
    hide Mul;
    MulDistributes(x, ONE, ONE);
    MulNeutral(x);
    assert Add(ONE, ONE) != ZERO;
  }

  /** 2x times the verifier's expected value. */
  lemma ScaledFoldValue(s: Elem, d: Elem, x: Elem, alpha: Elem)
    requires x != ZERO
    ensures var h := Inv(New(2));
            Mul(Add(x, x), Add(Mul(s, h), Mul(alpha, Mul(Mul(d, h), Inv(x))))) == Add(Mul(x, s), Mul(alpha, d))
  {
    hide Add, Mul, Inv;
    var two, h, u := Add(ONE, ONE), Inv(New(2)), Inv(x);
    Doubled(x);
    TwoInverse();
    InverseIsExact(x);
    MulDistributes(Mul(x, two), Mul(s, h), Mul(alpha, Mul(Mul(d, h), u)));
    Interchange(x, two, s, h);
    MulNeutral(Mul(x, s));
    MulAssociates(d, h, u);
    MulAssociates(alpha, d, Mul(h, u));
    MulCommutes(h, u);
    Interchange(x, two, u, h);
    MulNeutral(ONE);
    MulCommutes(Mul(x, two), Mul(Mul(alpha, d), Mul(u, h)));
    MulAssociates(Mul(alpha, d), Mul(u, h), Mul(x, two));
    MulCommutes(Mul(u, h), Mul(x, two));
    MulNeutral(Mul(alpha, d));
  }

  /** The expected value is the word y iff y is canonical and
      2 x y = x (f(x) + f(-x)) + alpha (f(x) - f(-x)) for the residues of sum and difference. */
  lemma FoldExact(vx: U64, vnx: U64, x: Elem, alpha: Elem, y: U64)
    requires x != ZERO
    ensures FoldValue(vx, vnx, x, alpha) == y <==>
            y < MODULUS &&
            Mul(Add(x, x), y) == Add(Mul(x, New(AddWords(vx, vnx))), Mul(alpha, New(SubWords(vx, vnx))))
  {
    hide Add, Mul, Inv, AddWords, SubWords, MulWords, New;
    var s, d, h := New(AddWords(vx, vnx)), New(SubWords(vx, vnx)), Inv(New(2));
    MulOfResidues(AddWords(vx, vnx), h);
    MulOfResidues(SubWords(vx, vnx), h);
    NewOfElem(h);
    ScaledFoldValue(s, d, x, alpha);
    Doubled(x);
    if y < MODULUS && Mul(Add(x, x), y) == Add(Mul(x, s), Mul(alpha, d)) {
      CancelFactor(Add(x, x), y, FoldValue(vx, vnx, x, alpha));
    }
  }

  /** Where neither operator leaves the modular range the residues are those of the sum and
      the difference. */
  lemma OperandsInRange(vx: U64, vnx: U64)
    requires vx + vnx < TWO64 + MODULUS && vnx <= vx + MODULUS
    ensures New(AddWords(vx, vnx)) == Add(New(vx), New(vnx))
    ensures New(SubWords(vx, vnx)) == Sub(New(vx), New(vnx))
  {
    hide Add, Sub, AddWords, SubWords;
    AddWordsExact(vx, vnx);
    SubWordsExact(vx, vnx);
    SumOfResidues(vx, vnx);
    SumOfResidues(SubWords(vx, vnx), vnx);
    SubUndoesAdd(New(SubWords(vx, vnx)), New(vnx));
  }

  // ----- one query -----

  ghost predicate Opens(hash: Hash, o: OpenVal, root: Digest) {
    VerifyPath(hash, o.index, o.value, o.path, root)
  }

  /** Layer j of a query at the point x: all openings verify, the last layer agrees with the
      final coefficients, and the fold equation holds. */
  ghost predicate LayerAccepted(
    hash: Hash, opens: seq<LayerOpen>, roots: seq<Digest>, alphas: seq<Elem>, last: seq<U64>, j: nat, x: Elem)
    requires j < |opens| == |roots| == |alphas|
  {
    var o := opens[j];
    && Opens(hash, o.atX, roots[j])
    && Opens(hash, o.atNegX, roots[j])
    && (if j + 1 < |roots| then Opens(hash, o.atY, roots[j + 1]) else EvalWords(last, Mul(x, x)) == o.atY.value)
    && o.atY.value < MODULUS
    && Mul(Add(x, x), o.atY.value) ==
       Add(Mul(x, New(AddWords(o.atX.value, o.atNegX.value))),
           Mul(alphas[j], New(SubWords(o.atX.value, o.atNegX.value))))
  }

  /** The point of layer j: j squarings of the start. */
  function PointAt(start: Elem, j: nat): Elem {
    Pow(start, Pow2(j))
  }

  lemma PointSteps(x: Elem, j: nat)
    ensures PointAt(x, 0) == x
    ensures PointAt(Mul(x, x), j) == PointAt(x, j + 1)
  {
    hide Mul, Pow;
    PowOne(x);
    PowOfProduct(x, x, Pow2(j));
    PowAdd(x, Pow2(j), Pow2(j));
  }

  lemma FirstLayerExact(
    hash: Hash, opens: seq<LayerOpen>, roots: seq<Digest>, alphas: seq<Elem>, last: seq<U64>, x: Elem, j: nat)
    requires 0 < |opens| == |roots| == |alphas| && x != ZERO
    ensures var next := if |roots| > 1 then Some(roots[1]) else None;
            CheckLayer(hash, opens[0], roots[0], next, last, alphas[0], x, j) == Accept <==>
            LayerAccepted(hash, opens, roots, alphas, last, 0, x)
  {
    hide Add, Mul, FoldValue, VerifyPath, EvalWords, TrimWords, AddWords, SubWords, New;
    var o := opens[0];
    EvalTrimWords(last, Mul(x, x));
    FoldExact(o.atX.value, o.atNegX.value, x, alphas[0], o.atY.value);
  }

  lemma {:induction false} LayersExact(
    hash: Hash, opens: seq<LayerOpen>, roots: seq<Digest>, alphas: seq<Elem>, last: seq<U64>, x: Elem, j: nat, k: nat)
    requires |opens| == |roots| == |alphas| <= k <= 32 && x in DomainOf(k)
    ensures CheckLayers(hash, opens, roots, alphas, last, x, j) == Accept <==>
            forall i :: 0 <= i < |opens| ==> LayerAccepted(hash, opens, roots, alphas, last, i, PointAt(x, i))
    decreases |opens|
  {
    hide Add, Mul, EvalWords, Pow, Pow2, CheckLayer, LayerAccepted, DomainOf, PointAt, VerifyPath;
    if opens != [] {
      var y := Mul(x, x);
      DomainClosed(x, k);
      FirstLayerExact(hash, opens, roots, alphas, last, x, j);
      PointSteps(x, 0);
      LayersExact(hash, opens[1..], roots[1..], alphas[1..], last, y, j + 1, k - 1);
      forall i | 0 <= i < |opens| - 1
        ensures LayerAccepted(hash, opens[1..], roots[1..], alphas[1..], last, i, PointAt(y, i)) <==>
                LayerAccepted(hash, opens, roots, alphas, last, i + 1, PointAt(x, i + 1))
      {
        PointSteps(x, i);
        LayerShift(hash, opens, roots, alphas, last, i, PointAt(y, i));
      }
      ShiftRange(hash, opens, roots, alphas, last, x, y);
    }
  }

  lemma LayerShift(
    hash: Hash, opens: seq<LayerOpen>, roots: seq<Digest>, alphas: seq<Elem>, last: seq<U64>, i: nat, x: Elem)
    requires i + 1 < |opens| == |roots| == |alphas|
    ensures LayerAccepted(hash, opens[1..], roots[1..], alphas[1..], last, i, x) <==>
            LayerAccepted(hash, opens, roots, alphas, last, i + 1, x)
  {
    hide Add, Mul, EvalWords, Opens, AddWords, SubWords, New;
  }

  /** All layers of the tail are the layers after the first. */
  lemma ShiftRange(
    hash: Hash, opens: seq<LayerOpen>, roots: seq<Digest>, alphas: seq<Elem>, last: seq<U64>, x: Elem, y: Elem)
    requires 0 < |opens| == |roots| == |alphas|
    requires forall i :: 0 <= i < |opens| - 1 ==>
               (LayerAccepted(hash, opens[1..], roots[1..], alphas[1..], last, i, PointAt(y, i)) <==>
                LayerAccepted(hash, opens, roots, alphas, last, i + 1, PointAt(x, i + 1)))
    ensures (forall i :: 0 <= i < |opens| ==> LayerAccepted(hash, opens, roots, alphas, last, i, PointAt(x, i))) <==>
            (LayerAccepted(hash, opens, roots, alphas, last, 0, PointAt(x, 0)) &&
             forall i :: 0 <= i < |opens| - 1 ==>
               LayerAccepted(hash, opens[1..], roots[1..], alphas[1..], last, i, PointAt(y, i)))
  {
    hide LayerAccepted, PointAt;
    if LayerAccepted(hash, opens, roots, alphas, last, 0, PointAt(x, 0)) &&
       forall i :: 0 <= i < |opens| - 1 ==>
         LayerAccepted(hash, opens[1..], roots[1..], alphas[1..], last, i, PointAt(y, i))
    {
      forall i | 0 <= i < |opens|
        ensures LayerAccepted(hash, opens, roots, alphas, last, i, PointAt(x, i))
      {
        if i > 0 {
          assert LayerAccepted(hash, opens[1..], roots[1..], alphas[1..], last, i - 1, PointAt(y, i - 1));
          assert (i - 1) + 1 == i;
        }
      }
    }
  }

  // ----- all queries -----

  ghost predicate QueryAccepted(hash: Hash, proof: FriProof, alphas: seq<Elem>, k: nat, q: nat)
    requires q < |proof.queries| == |proof.queryStarts| && |proof.roots| == |alphas|
  {
    && |proof.queries[q]| == |proof.roots|
    && proof.queryStarts[q] in DomainOf(k)
    && forall j :: 0 <= j < |proof.roots| ==>
         LayerAccepted(hash, proof.queries[q], proof.roots, alphas, proof.finalCoeffs, j,
                       PointAt(proof.queryStarts[q], j))
  }

  lemma QueryExact(hash: Hash, proof: FriProof, alphas: seq<Elem>, k: nat, q: nat)
    requires q < |proof.queries| == |proof.queryStarts| && |proof.roots| == |alphas| <= k <= 32
    ensures CheckQuery(hash, proof.queries[q], proof.queryStarts[q], proof.roots, alphas, proof.finalCoeffs, k) == Accept
            <==> QueryAccepted(hash, proof, alphas, k, q)
  {
    hide CheckLayers, LayerAccepted, DomainOf, PointAt;
    if |proof.queries[q]| == |proof.roots| && proof.queryStarts[q] in DomainOf(k) {
      LayersExact(hash, proof.queries[q], proof.roots, alphas, proof.finalCoeffs, proof.queryStarts[q], 0, k);
    }
  }

  lemma {:induction false} QueriesExact(hash: Hash, proof: FriProof, alphas: seq<Elem>, k: nat, i: nat)
    requires i <= |proof.queries| == |proof.queryStarts| && |proof.roots| == |alphas| <= k <= 32
    ensures CheckQueries(hash, proof, alphas, k, i) == Accept <==>
            forall q :: i <= q < |proof.queries| ==> QueryAccepted(hash, proof, alphas, k, q)
    decreases |proof.queries| - i
  {
    hide CheckQuery, QueryAccepted;
    if i < |proof.queries| {
      QueryExact(hash, proof, alphas, k, i);
      QueriesExact(hash, proof, alphas, k, i + 1);
    }
  }

  ghost predicate AllQueriesAccepted(hash: Hash, proof: FriProof, alphas: seq<Elem>, k: nat)
    requires |proof.queries| == |proof.queryStarts| && |proof.roots| == |alphas|
  {
    forall q :: 0 <= q < |proof.queries| ==> QueryAccepted(hash, proof, alphas, k, q)
  }

  lemma AllQueriesExact(hash: Hash, proof: FriProof, alphas: seq<Elem>, k: nat)
    requires |proof.queries| == |proof.queryStarts| && |proof.roots| == |alphas| <= k <= 32
    ensures CheckQueries(hash, proof, alphas, k, 0) == Accept <==> AllQueriesAccepted(hash, proof, alphas, k)
  {
    hide QueryAccepted, CheckQueries;
    QueriesExact(hash, proof, alphas, k, 0);
  }

  ghost predicate BoundaryAccepted(hash: Hash, proof: FriProof, k: nat, pt: U64, v: U64) {
    && proof.boundary.Some?
    && proof.roots != []
    && Opens(hash, proof.boundary.value, proof.roots[0])
    && proof.boundary.value.value == v
    && proof.boundary.value.index < |DomainOf(k)|
    && DomainOf(k)[proof.boundary.value.index] == pt
  }

  lemma BoundaryCheckExact(hash: Hash, proof: FriProof, k: nat, expected: Option<(U64, U64)>)
    requires 1 <= k <= 32
    ensures CheckBoundary(hash, proof, k, expected) == Accept <==>
            (expected.Some? ==> BoundaryAccepted(hash, proof, k, expected.value.0, expected.value.1))
  {
    hide DomainOf, VerifyPath;
  }

  /** The right shape, and every query, every layer and the boundary accepted, with the
      challenges drawn from the roots. */
  ghost predicate Accepted(
    hash: Hash, proof: FriProof, k: nat, numQueries: nat, state: Bytes, expected: Option<(U64, U64)>)
  {
    && |proof.roots| + 1 == k
    && |proof.finalCoeffs| <= 2
    && |proof.queries| == |proof.queryStarts| == numQueries
    && AllQueriesAccepted(hash, proof, TranscriptAlphas(hash, proof.roots, state), k)
    && (expected.Some? ==> BoundaryAccepted(hash, proof, k, expected.value.0, expected.value.1))
  }

  /** `verify` accepts exactly these proofs. */
  lemma AcceptExact(
    hash: Hash, proof: FriProof, k: nat, numQueries: nat, state: Bytes, expected: Option<(U64, U64)>)
    requires 1 <= k <= 32
    ensures FriVerify(hash, proof, k, numQueries, state, expected) == Accept <==>
            Accepted(hash, proof, k, numQueries, state, expected)
  {
    hide CheckQueries, AllQueriesAccepted, CheckBoundary, BoundaryAccepted, TranscriptAlphas;
    BoundaryCheckExact(hash, proof, k, expected);
    if |proof.roots| == k - 1 && |proof.queries| == |proof.queryStarts| == numQueries {
      AllQueriesExact(hash, proof, TranscriptAlphas(hash, proof.roots, state), k);
    }
  }

  /** The challenges: the j-th one is squeezed after the roots up to j have been absorbed. */
  lemma {:induction false} AlphaAt(hash: Hash, roots: seq<Digest>, state: Bytes, j: nat)
    requires j < |roots|
    ensures TranscriptAlphas(hash, roots, state)[j] == SqueezeValue(hash, StateBefore(hash, roots, state, j) + roots[j])
  {
    hide SqueezeValue, SqueezeHash;
    if j > 0 {
      AlphaAt(hash, roots[1..], SqueezeHash(hash, state + roots[0]), j - 1);
      StateUnfold(hash, roots, state, j);
    }
  }

  /** The transcript before root j is absorbed. */
  function StateBefore(hash: Hash, roots: seq<Digest>, state: Bytes, j: nat): Bytes
    requires j <= |roots|
  {
    if j == 0 then state else SqueezeHash(hash, StateBefore(hash, roots, state, j - 1) + roots[j - 1])
  }

  lemma {:induction false} StateUnfold(hash: Hash, roots: seq<Digest>, state: Bytes, j: nat)
    requires 0 < j <= |roots|
    ensures StateBefore(hash, roots, state, j) ==
            StateBefore(hash, roots[1..], SqueezeHash(hash, state + roots[0]), j - 1)
  {
    hide SqueezeHash;
    if j > 1 {
      StateUnfold(hash, roots, state, j - 1);
    } else {
      assert StateBefore(hash, roots, state, 0) == state;
    }
  }
}
