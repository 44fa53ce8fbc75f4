/** The FRI low-degree test: transcript, proof objects, and what the prover sends and the
    verifier checks, as functions. */
module FriProtocol {
  import opened Goldilocks
  import opened Powers
  import opened Primality
  import opened RootsOfUnity
  import opened Polynomials
  import opened PolynomialOps
  import opened RawPolynomials
  import opened Bytes
  import opened Merkle
  import opened Wrappers

  const USIZE_MAX: Word := WORD - 1

  // ----- Fiat-Shamir transcript -----

  function Zero32(): (z: Bytes)
    ensures |z| == 32
  {
    seq(32, _ => 0)
  }

  function SqueezeHash(hash: Hash, state: Bytes): Digest {
    hash(state + Zero32())
  }

  function SqueezeValue(hash: Hash, state: Bytes): Elem {
    New(WordOf(SqueezeHash(hash, state)))
  }

  /** `Transcript`: absorb commitments, squeeze field elements. */
  class Transcript {
    var state: Bytes

    constructor (initial: Bytes)
      ensures state == initial
    {
      state := initial;
    }

    method Absorb(bytes: Bytes)
      modifies this
      ensures state == old(state) + bytes
    {
      state := state + bytes;
    }

    /** The squeezed element depends on everything absorbed, and the state becomes the hash. */
    method SqueezeFp(hash: Hash) returns (v: Elem)
      modifies this
      ensures v == SqueezeValue(hash, old(state))
      ensures state == SqueezeHash(hash, old(state))
    {
      var prefix := state + Zero32();
      var h := hash(prefix);
      state := h;
      v := New(WordOf(h));
    }
  }

  // ----- proof objects -----

  // A received proof carries words; nothing has reduced them.

  datatype OpenVal = OpenVal(index: Word, value: U64, path: seq<Digest>)

  /** The three openings of one query in one layer: at x, at -x, and of the next layer at x^2. */
  datatype LayerOpen = LayerOpen(atX: OpenVal, atNegX: OpenVal, atY: OpenVal)

  datatype FriProof = FriProof(
    roots: seq<Digest>,
    finalCoeffs: seq<U64>,
    queries: seq<seq<LayerOpen>>,
    queryStarts: seq<U64>,
    boundary: Option<OpenVal>)

  // ----- domain facts -----

  /** -x stays in the domain, and x^2 lies in the domain of the next layer. */
  lemma DomainClosed(x: Elem, k: nat)
    requires 1 <= k <= 32 && x in DomainOf(k)
    ensures Neg(x) in DomainOf(k)
    ensures Mul(x, x) in DomainOf(k - 1)
    ensures x != ZERO
  {
    hide Mul, Pow, RootOfUnity, Neg;
    var w, n, h := RootOfUnity(k), Pow2(k), Pow2(k - 1);
    var i :| 0 <= i < n && DomainOf(k)[i] == x;
    RootIsPrimitive(k);
    RootIsPrimitive(k - 1);
    PowAdd(w, h, i);
    MinusOneTimes(x);
    RootOrderExact(w, k, h + i);
    assert DomainOf(k)[(h + i) % n] == Neg(x);
    PowOfProduct(w, w, i);
    RootSquared(k);
    RootOrderExact(RootOfUnity(k - 1), k - 1, i);
    assert DomainOf(k - 1)[i % h] == Mul(x, x);
    PowerNonzero(w, k, i);
  }

  lemma PowerNonzero(w: Elem, k: nat, i: nat)
    requires PrimitiveRoot(w, k) && i < Pow2(k)
    ensures Pow(w, i) != ZERO
  {
    hide Mul, Pow, PrimitiveRoot, Pow2;
    RootToFullOrder(w, k);
    PowAdd(w, i, Pow2(k) - i);
    MulNeutral(Pow(w, Pow2(k) - i));
  }

  /** `position`: the first index holding x. */
  function IndexOf(s: seq<Elem>, x: Elem): (i: nat)
    requires x in s
    ensures i < |s| && s[i] == x
    ensures x !in s[..i]
  {
    if s[0] == x then 0 else
      var i := IndexOf(s[1..], x) + 1;
      assert s[..i] == [s[0]] + s[1..][..i - 1];
      i
  }

  lemma DomainSizes(k: nat)
    requires k <= 32
    ensures 1 <= |DomainOf(k)| == Pow2(k) <= 0x1_0000_0000 < WORD
  {
    Pow2Of32();
    if k < 32 {
      Pow2Monotonic(k, 32);
    }
  }

  // ----- prover -----

  /** The commitment of a layer: the Merkle tree over the values on its domain. */
  function LayerTree(hash: Hash, f: Poly, k: nat): MerkleTree
    requires k <= 32
  {
    DomainSizes(k);
    TreeOf(hash, Values(f, DomainOf(k)))
  }

  lemma LayerPathFits(hash: Hash, f: Poly, k: nat, i: nat)
    requires k <= 32 && i < Pow2(k)
    ensures PathFits(LayerTree(hash, f, k).levels, i)
  {
    DomainSizes(k);
    OpeningVerifies(hash, Values(f, DomainOf(k)), k, i);
  }

  /** `open_at`. */
  function OpenPoint(hash: Hash, f: Poly, k: nat, x: Elem): OpenVal
    requires k <= 32 && x in DomainOf(k)
  {
    DomainSizes(k);
    var i := IndexOf(DomainOf(k), x);
    LayerPathFits(hash, f, k, i);
    OpenVal(i, Eval(f, x), AuthPath(LayerTree(hash, f, k).levels, i))
  }

  /** One fold: E + alpha O. */
  function Fold(f: Poly, alpha: Elem): Poly {
    PolyAdd(Trim(Evens(f)), PolyScale(Trim(Odds(f)), alpha))
  }

  /** What the commit phase produces: the layer polynomials, their roots and challenges,
      the last polynomial, and the transcript afterwards. */
  datatype CommitPhase = CommitPhase(
    polys: seq<Poly>, roots: seq<Digest>, alphas: seq<Elem>, last: Poly, state: Bytes)

  function CommitLayers(hash: Hash, f: Poly, k: nat, folds: nat, state: Bytes): (c: CommitPhase)
    requires folds <= k <= 32
    ensures |c.polys| == |c.roots| == |c.alphas| == folds
    ensures folds > 0 ==> c.polys[0] == f
    decreases folds
  {
    if folds == 0 then CommitPhase([], [], [], f, state)
    else
      var root := LayerTree(hash, f, k).root;
      var alpha := SqueezeValue(hash, state + root);
      var rest := CommitLayers(hash, Fold(f, alpha), k - 1, folds - 1, SqueezeHash(hash, state + root));
      CommitPhase([f] + rest.polys, [root] + rest.roots, [alpha] + rest.alphas, rest.last, rest.state)
  }

  /** The openings of one query, layer by layer from x. */
  function QueryOpens(hash: Hash, polys: seq<Poly>, k: nat, x: Elem, last: Poly): (opens: seq<LayerOpen>)
    requires |polys| <= k <= 32 && x in DomainOf(k)
    ensures |opens| == |polys|
    decreases |polys|
  {
    hide Mul, Neg, DomainOf, Eval, OpenPoint;
    if polys == [] then []
    else
      DomainClosed(x, k);
      var y := Mul(x, x);
      var atY := if |polys| > 1 then OpenPoint(hash, polys[1], k - 1, y) else OpenVal(USIZE_MAX, Eval(last, y), []);
      [LayerOpen(OpenPoint(hash, polys[0], k, x), OpenPoint(hash, polys[0], k, Neg(x)), atY)]
      + QueryOpens(hash, polys[1..], k - 1, y, last)
  }

  function QueryStart(hash: Hash, state: Bytes, k: nat): (x: Elem)
    requires k <= 32
    ensures x in DomainOf(k)
  {
    DomainOf(k)[WordOf(hash(state)) % Pow2(k)]
  }

  /** The query points: each hash of the transcript is absorbed before the next. */
  function QueryStarts(hash: Hash, state: Bytes, k: nat, n: nat): (xs: seq<Elem>)
    requires k <= 32
    ensures |xs| == n
    ensures forall i :: 0 <= i < n ==> xs[i] in DomainOf(k)
    decreases n
  {
    if n == 0 then []
    else [QueryStart(hash, state, k)] + QueryStarts(hash, state + hash(state), k, n - 1)
  }

  /** `prove`. */
  function FriProve(hash: Hash, f: Poly, k: nat, numQueries: nat, state: Bytes, boundary: Option<Elem>): FriProof
    requires 1 <= k <= 32
    requires boundary.Some? ==> k >= 2 && boundary.value in DomainOf(k)
  {
    hide DomainOf, OpenPoint, QueryOpens, QueryStarts, CommitLayers;
    var c := CommitLayers(hash, f, k, k - 1, state);
    var starts := QueryStarts(hash, c.state, k, numQueries);
    FriProof(
      c.roots,
      AsWords(c.last),
      seq(numQueries, i requires 0 <= i < numQueries => QueryOpens(hash, c.polys, k, starts[i], c.last)),
      AsWords(starts),
      if boundary.Some? then Some(OpenPoint(hash, f, k, boundary.value)) else None)
  }

  // ----- verifier -----

  datatype FriError =
    | RootCount
    | FinalDegreeTooHigh
    | QueryCountMismatch
    | QueryLayerCount
    | StartNotInDomain
    | MerkleFailAtX(layer: nat)
    | MerkleFailAtNegX(layer: nat)
    | MerkleFailAtY(layer: nat)
    | FinalEvalMismatch
    | FoldMismatch(layer: nat)
    | BoundaryMissing
    | BoundaryMerkleFail
    | BoundaryValueMismatch
    | BoundaryPointMismatch

  /** A verdict; `Panic` stands for an out-of-bounds index in the verifier itself. */
  datatype Verdict = Accept | Reject(error: FriError) | Panic

  function TranscriptAlphas(hash: Hash, roots: seq<Digest>, state: Bytes): (alphas: seq<Elem>)
    ensures |alphas| == |roots|
  {
    if roots == [] then []
    else [SqueezeValue(hash, state + roots[0])] +
         TranscriptAlphas(hash, roots[1..], SqueezeHash(hash, state + roots[0]))
  }

  /** The right-hand side of the fold equation. */
  function FoldValue(vx: U64, vnx: U64, x: Elem, alpha: Elem): Elem {
    var twoInv := Inv(New(2));
    Add(MulWords(AddWords(vx, vnx), twoInv), Mul(alpha, Mul(MulWords(SubWords(vx, vnx), twoInv), Inv(x))))
  }

  function CheckOpen(hash: Hash, o: OpenVal, root: Digest): bool {
    VerifyPath(hash, o.index, o.value, o.path, root)
  }

  function CheckLayer(
    hash: Hash, open: LayerOpen, root: Digest, next: Option<Digest>, finalCoeffs: seq<U64>,
    alpha: Elem, x: Elem, j: nat): Verdict
  {
    if !CheckOpen(hash, open.atX, root) then Reject(MerkleFailAtX(j))
    else if !CheckOpen(hash, open.atNegX, root) then Reject(MerkleFailAtNegX(j))
    else if next.Some? && !CheckOpen(hash, open.atY, next.value) then Reject(MerkleFailAtY(j))
    else if next.None? && EvalWords(TrimWords(finalCoeffs), Mul(x, x)) != open.atY.value then Reject(FinalEvalMismatch)
    else if FoldValue(open.atX.value, open.atNegX.value, x, alpha) != open.atY.value then Reject(FoldMismatch(j))
    else Accept
  }

  /** The layers of one query from layer j on. */
  function CheckLayers(
    hash: Hash, opens: seq<LayerOpen>, roots: seq<Digest>, alphas: seq<Elem>, finalCoeffs: seq<U64>,
    x: Elem, j: nat): Verdict
    requires |opens| == |roots| == |alphas|
    decreases |opens|
  {
    if opens == [] then Accept
    else
      var next := if |roots| > 1 then Some(roots[1]) else None;
      var v := CheckLayer(hash, opens[0], roots[0], next, finalCoeffs, alphas[0], x, j);
      if v != Accept then v
      else CheckLayers(hash, opens[1..], roots[1..], alphas[1..], finalCoeffs, Mul(x, x), j + 1)
  }

  function CheckQuery(
    hash: Hash, opens: seq<LayerOpen>, start: U64, roots: seq<Digest>, alphas: seq<Elem>, finalCoeffs: seq<U64>, k: nat): Verdict
    requires |roots| == |alphas|
  {
    if |opens| != |roots| then Reject(QueryLayerCount)
    else if start !in DomainOf(k) then Reject(StartNotInDomain)
    else CheckLayers(hash, opens, roots, alphas, finalCoeffs, start, 0)
  }

  /** The queries from the i-th on, in order. */
  function CheckQueries(hash: Hash, proof: FriProof, alphas: seq<Elem>, k: nat, i: nat): Verdict
    requires |proof.queries| == |proof.queryStarts| && |proof.roots| == |alphas| && i <= |proof.queries|
    decreases |proof.queries| - i
  {
    if i == |proof.queries| then Accept
    else
      var v := CheckQuery(hash, proof.queries[i], proof.queryStarts[i], proof.roots, alphas, proof.finalCoeffs, k);
      if v != Accept then v else CheckQueries(hash, proof, alphas, k, i + 1)
  }

  /** The claim that a point of the domain is opened to a value. */
  function Claim(pt: Elem, v: Elem): (c: Option<(U64, U64)>)
    ensures c.Some? && c.value.0 == pt && c.value.1 == v
  {
    Some((pt, v))
  }

  function CheckBoundary(hash: Hash, proof: FriProof, k: nat, expected: Option<(U64, U64)>): Verdict {
    if expected.None? then Accept
    else if proof.boundary.None? then Reject(BoundaryMissing)
    else
      var (pt, value) := expected.value;
      var open := proof.boundary.value;
      if proof.roots == [] then Panic
      else if !CheckOpen(hash, open, proof.roots[0]) then Reject(BoundaryMerkleFail)
      else if open.value != value then Reject(BoundaryValueMismatch)
      else if open.index >= |DomainOf(k)| then Panic
      else if DomainOf(k)[open.index] != pt then Reject(BoundaryPointMismatch)
      else Accept
  }

  /** `verify`. */
  function FriVerify(
    hash: Hash, proof: FriProof, k: nat, numQueries: nat, state: Bytes, expected: Option<(U64, U64)>): Verdict
    requires 1 <= k <= 32
  {
    if |proof.roots| != k - 1 then Reject(RootCount)
    else if |proof.finalCoeffs| > 2 then Reject(FinalDegreeTooHigh)
    else if |proof.queries| != numQueries || |proof.queryStarts| != numQueries then Reject(QueryCountMismatch)
    else
      var alphas := TranscriptAlphas(hash, proof.roots, state);
      var v := CheckQueries(hash, proof, alphas, k, 0);
      if v != Accept then v else CheckBoundary(hash, proof, k, expected)
  }
}
