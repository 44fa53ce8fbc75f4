/** Which error `verify` reports: the first failing check in the order of the source, named by
    the query, the layer and the check. */
module FriVerdicts {
  import opened Goldilocks
  import opened Powers
  import opened RootsOfUnity
  import opened RawPolynomials
  import opened Bytes
  import opened Merkle
  import opened FriProtocol
  import opened FriAcceptance
  import opened Wrappers

  /** Before any query: the number of roots, then of coefficients, then of queries. */
  lemma ShapeVerdict(
    hash: Hash, proof: FriProof, k: nat, numQueries: nat, state: Bytes, expected: Option<(U64, U64)>)
    requires 1 <= k <= 32
    ensures var v := FriVerify(hash, proof, k, numQueries, state, expected);
            && (|proof.roots| + 1 != k ==> v == Reject(RootCount))
            && (|proof.roots| + 1 == k && |proof.finalCoeffs| > 2 ==> v == Reject(FinalDegreeTooHigh))
            && (|proof.roots| + 1 == k && |proof.finalCoeffs| <= 2 ==>
                  |proof.queries| == |proof.queryStarts| == numQueries || v == Reject(QueryCountMismatch))
  {
    hide CheckQueries, CheckBoundary, TranscriptAlphas;
  }

  /** The error of a layer whose predecessors are accepted. */
  lemma LayerVerdict(
    hash: Hash, opens: seq<LayerOpen>, roots: seq<Digest>, alphas: seq<Elem>, last: seq<U64>, x: Elem, j: nat)
    requires 0 < |opens| == |roots| == |alphas| && x != ZERO
    requires !LayerAccepted(hash, opens, roots, alphas, last, 0, x)
    ensures hide LayerAccepted, EvalWords, Mul, CheckLayer;
            var o := opens[0];
            var next := if |roots| > 1 then Some(roots[1]) else None;
            CheckLayer(hash, o, roots[0], next, last, alphas[0], x, j) == Reject(
              if !Opens(hash, o.atX, roots[0]) then MerkleFailAtX(j)
              else if !Opens(hash, o.atNegX, roots[0]) then MerkleFailAtNegX(j)
              else if |roots| > 1 && !Opens(hash, o.atY, roots[1]) then MerkleFailAtY(j)
              else if |roots| == 1 && EvalWords(last, Mul(x, x)) != o.atY.value then FinalEvalMismatch
              else FoldMismatch(j))
  {
    hide LayerAccepted, Mul, FoldValue, EvalWords, TrimWords, VerifyPath;
    FirstLayerExact(hash, opens, roots, alphas, last, x, j);
    EvalTrimWords(last, Mul(x, x));
  }

  /** A query with the right shape is rejected at its first bad layer. */
  lemma {:induction false} LayersVerdict(
    hash: Hash, opens: seq<LayerOpen>, roots: seq<Digest>, alphas: seq<Elem>, last: seq<U64>, x: Elem, j: nat, k: nat,
    i: nat)
    requires i < |opens| == |roots| == |alphas| <= k <= 32 && x in DomainOf(k)
    requires forall h :: 0 <= h < i ==> LayerAccepted(hash, opens, roots, alphas, last, h, PointAt(x, h))
    requires !LayerAccepted(hash, opens, roots, alphas, last, i, PointAt(x, i))
    ensures hide CheckLayers, LayerAccepted, EvalWords, Mul, PointAt, DomainOf;
            var o, y := opens[i], Mul(PointAt(x, i), PointAt(x, i));
            CheckLayers(hash, opens, roots, alphas, last, x, j) == Reject(
              if !Opens(hash, o.atX, roots[i]) then MerkleFailAtX(j + i)
              else if !Opens(hash, o.atNegX, roots[i]) then MerkleFailAtNegX(j + i)
              else if i + 1 < |roots| && !Opens(hash, o.atY, roots[i + 1]) then MerkleFailAtY(j + i)
              else if i + 1 == |roots| && EvalWords(last, y) != o.atY.value then FinalEvalMismatch
              else FoldMismatch(j + i))
    decreases |opens|
  {
    hide Mul, EvalWords, Pow, Pow2, CheckLayer, LayerAccepted, DomainOf, PointAt, Opens;
    DomainClosed(x, k);
    PointSteps(x, if i > 0 then i - 1 else 0);
    if i == 0 {
      LayerVerdict(hash, opens, roots, alphas, last, x, j);
    } else {
      var y := Mul(x, x);
      assert LayerAccepted(hash, opens, roots, alphas, last, 0, PointAt(x, 0));
      FirstLayerExact(hash, opens, roots, alphas, last, x, j);
      forall h | 0 <= h < i - 1
        ensures LayerAccepted(hash, opens[1..], roots[1..], alphas[1..], last, h, PointAt(y, h))
      {
        PointSteps(x, h);
        LayerShift(hash, opens, roots, alphas, last, h, PointAt(y, h));
        assert LayerAccepted(hash, opens, roots, alphas, last, h + 1, PointAt(x, h + 1));
      }
      LayerShift(hash, opens, roots, alphas, last, i - 1, PointAt(y, i - 1));
      LayersVerdict(hash, opens[1..], roots[1..], alphas[1..], last, y, j + 1, k - 1, i - 1);
    }
  }

  /** Among the queries the first bad one decides. */
  lemma {:induction false} QueriesVerdict(hash: Hash, proof: FriProof, alphas: seq<Elem>, k: nat, i: nat, q: nat)
    requires i <= q < |proof.queries| == |proof.queryStarts| && |proof.roots| == |alphas| <= k <= 32
    requires forall h :: i <= h < q ==> QueryAccepted(hash, proof, alphas, k, h)
    requires !QueryAccepted(hash, proof, alphas, k, q)
    ensures var w := CheckQuery(hash, proof.queries[q], proof.queryStarts[q], proof.roots, alphas,
                                proof.finalCoeffs, k);
            && w != Accept
            && CheckQueries(hash, proof, alphas, k, i) == w
            && (|proof.queries[q]| != |proof.roots| ==> w == Reject(QueryLayerCount))
            && (|proof.queries[q]| == |proof.roots| && proof.queryStarts[q] !in DomainOf(k) ==>
                  w == Reject(StartNotInDomain))
            && (|proof.queries[q]| == |proof.roots| && proof.queryStarts[q] in DomainOf(k) ==>
                  w == CheckLayers(hash, proof.queries[q], proof.roots, alphas, proof.finalCoeffs,
                                   proof.queryStarts[q], 0))
    decreases q - i
  {
    hide QueryAccepted, CheckLayers, DomainOf;
    QueryExact(hash, proof, alphas, k, i);
    if i < q {
      QueriesVerdict(hash, proof, alphas, k, i + 1, q);
    }
  }

  /** The verdict of a well-shaped proof: of its first bad query, or of the boundary. */
  lemma QueryOrBoundaryVerdict(
    hash: Hash, proof: FriProof, alphas: seq<Elem>, k: nat, numQueries: nat, state: Bytes,
    expected: Option<(U64, U64)>, q: nat)
    requires 1 <= k <= 32 && |proof.roots| + 1 == k && |proof.finalCoeffs| <= 2
    requires |proof.queries| == |proof.queryStarts| == numQueries && q <= numQueries
    requires alphas == TranscriptAlphas(hash, proof.roots, state)
    requires forall h :: 0 <= h < q ==> QueryAccepted(hash, proof, alphas, k, h)
    requires q < numQueries ==> !QueryAccepted(hash, proof, alphas, k, q)
    ensures FriVerify(hash, proof, k, numQueries, state, expected) ==
            if q == numQueries then CheckBoundary(hash, proof, k, expected)
            else CheckQuery(hash, proof.queries[q], proof.queryStarts[q], proof.roots, alphas, proof.finalCoeffs, k)
  {
    hide QueryAccepted, CheckQuery, CheckQueries, CheckBoundary, TranscriptAlphas;
    if q < numQueries {
      QueriesVerdict(hash, proof, alphas, k, 0, q);
    } else {
      QueriesExact(hash, proof, alphas, k, 0);
    }
  }

  /** The boundary: missing, no root (which panics), not under the root, another value, an
      index outside the domain (which panics), another point, in this order. */
  lemma BoundaryVerdict(hash: Hash, proof: FriProof, k: nat, pt: U64, v: U64)
    ensures hide DomainOf, Opens;
            var w := CheckBoundary(hash, proof, k, Some((pt, v)));
            && (proof.boundary.None? ==> w == Reject(BoundaryMissing))
            && (proof.boundary.Some? ==>
                  var o := proof.boundary.value;
                  w == if |proof.roots| == 0 then Panic
                       else if !Opens(hash, o, proof.roots[0]) then Reject(BoundaryMerkleFail)
                       else if o.value != v then Reject(BoundaryValueMismatch)
                       else if o.index >= |DomainOf(k)| then Panic
                       else if DomainOf(k)[o.index] != pt then Reject(BoundaryPointMismatch)
                       else Accept)
  {
    hide DomainOf, VerifyPath;
  }
}
