/** The loops of `prove` and `verify` compute exactly the functions of FriProtocol. */
module FriLoops {
  import opened Goldilocks
  import opened Primality
  import opened RootsOfUnity
  import opened Polynomials
  import opened PolynomialOps
  import opened RawPolynomials
  import opened Bytes
  import opened Merkle
  import opened FriProtocol
  import opened Wrappers

  /** `even_odd_split`. */
  method EvenOddSplit(f: Poly) returns (e: Poly, o: Poly)
    ensures e == Trim(Evens(f)) && o == Trim(Odds(f))
  {
    hide Trim;
    e, o := [], [];
    for i := 0 to |f|
      invariant |e| == (i + 1) / 2 && |o| == i / 2
      invariant forall j :: 0 <= j < |e| ==> e[j] == f[2 * j]
      invariant forall j :: 0 <= j < |o| ==> o[j] == f[2 * j + 1]
    {
      if i % 2 == 0 {
        e := e + [f[i]];
      } else {
        o := o + [f[i]];
      }
    }
    assert e == Evens(f) && o == Odds(f);
    e := FromCoeffs(e);
    o := FromCoeffs(o);
  }

  /** A committed layer: its tree and its values. */
  datatype LayerCommit = LayerCommit(tree: MerkleTree, values: seq<Elem>)

  function CommitOf(hash: Hash, f: Poly, k: nat): LayerCommit
    requires k <= 32
  {
    LayerCommit(LayerTree(hash, f, k), Values(f, DomainOf(k)))
  }

  method CommitLayer(hash: Hash, f: Poly, k: nat) returns (c: LayerCommit)
    requires k <= 32
    ensures c == CommitOf(hash, f, k)
  {
    hide Eval, TreeOf;
    DomainSizes(k);
    var d := Domain(k);
    var values := EvalMany(f, d);
    var tree := NewTree(hash, values, k);
    c := LayerCommit(tree, values);
  }

  method Position(s: seq<Elem>, x: Elem) returns (i: nat)
    requires x in s
    ensures i == IndexOf(s, x)
  {
    i := 0;
    assert s[0..] == s;
    while s[i] != x
      invariant i < |s| && x in s[i..]
      invariant i + IndexOf(s[i..], x) == IndexOf(s, x)
      decreases |s| - i
    {
      assert s[i..][1..] == s[i + 1..];
      assert s[i..] == [s[i]] + s[i + 1..];
      i := i + 1;
    }
  }

  /** `open_at`. */
  method OpenAt(hash: Hash, commit: LayerCommit, dom: seq<Elem>, x: Elem, ghost f: Poly, ghost k: nat) returns (o: OpenVal)
    requires k <= 32 && commit == CommitOf(hash, f, k) && dom == DomainOf(k) && x in dom
    ensures o == OpenPoint(hash, f, k, x)
  {
    hide Eval, DomainOf, LayerTree;
    DomainSizes(k);
    var index := Position(dom, x);
    LayerPathFits(hash, f, k, index);
    var path := AuthPathLoop(commit.tree.levels, index);
    o := OpenVal(index, commit.values[index], path);
  }

  // ----- prover -----

  /** The layers already committed, in front of those still to come. */
  function Resume(polys: seq<Poly>, roots: seq<Digest>, alphas: seq<Elem>, rest: CommitPhase): CommitPhase {
    CommitPhase(polys + rest.polys, roots + rest.roots, alphas + rest.alphas, rest.last, rest.state)
  }

  lemma ResumeStep(
    hash: Hash, f: Poly, k: nat, folds: nat, state: Bytes,
    polys: seq<Poly>, roots: seq<Digest>, alphas: seq<Elem>)
    requires 1 <= folds <= k <= 32
    ensures var root := LayerTree(hash, f, k).root;
            var alpha := SqueezeValue(hash, state + root);
            Resume(polys, roots, alphas, CommitLayers(hash, f, k, folds, state)) ==
            Resume(polys + [f], roots + [root], alphas + [alpha],
                   CommitLayers(hash, Fold(f, alpha), k - 1, folds - 1, SqueezeHash(hash, state + root)))
  {
    hide LayerTree, SqueezeValue, SqueezeHash, Fold;
    var root := LayerTree(hash, f, k).root;
    var alpha := SqueezeValue(hash, state + root);
    var rest := CommitLayers(hash, Fold(f, alpha), k - 1, folds - 1, SqueezeHash(hash, state + root));
    ConcatLevels(polys, f, rest.polys);
    ConcatLevels(roots, root, rest.roots);
    ConcatLevels(alphas, alpha, rest.alphas);
  }

  /** One round: commit, absorb the root, squeeze the challenge, fold. */
  method CommitRound(hash: Hash, cur: Poly, k: nat, transcript: Transcript)
    returns (c: LayerCommit, alpha: Elem, next: Poly)
    requires k <= 32
    modifies transcript
    ensures c == CommitOf(hash, cur, k) && c.tree.root == LayerTree(hash, cur, k).root
    ensures alpha == SqueezeValue(hash, old(transcript.state) + c.tree.root)
    ensures transcript.state == SqueezeHash(hash, old(transcript.state) + c.tree.root)
    ensures next == Fold(cur, alpha)
  {
    hide SqueezeValue, SqueezeHash, LayerTree, PolyAdd, PolyScale, Trim, DomainOf, Values;
    c := CommitLayer(hash, cur, k);
    transcript.Absorb(c.tree.root);
    alpha := transcript.SqueezeFp(hash);
    var e, o := EvenOddSplit(cur);
    next := AddPolys(e, PolyScale(o, alpha));
  }

  /** The commit loop. */
  method CommitLoop(hash: Hash, f: Poly, k: nat, transcript: Transcript)
    returns (commits: seq<LayerCommit>, roots: seq<Digest>, alphas: seq<Elem>, cur: Poly, ghost polys: seq<Poly>)
    requires 1 <= k <= 32
    modifies transcript
    ensures CommitPhase(polys, roots, alphas, cur, transcript.state) ==
            CommitLayers(hash, f, k, k - 1, old(transcript.state))
    ensures |commits| == |polys| == k - 1
    ensures forall j :: 0 <= j < k - 1 ==> commits[j] == CommitOf(hash, polys[j], k - j)
  {
    hide CommitLayers, CommitOf, SqueezeValue, SqueezeHash, Fold, LayerTree, Resume;
    var folds := k - 1;
    commits, roots, alphas, cur, polys := [], [], [], f, [];
    ghost var goal := CommitLayers(hash, f, k, folds, transcript.state);
    ResumeNothing(goal);
    for j := 0 to folds
      invariant |commits| == |polys| == j
      invariant forall i :: 0 <= i < j ==> commits[i] == CommitOf(hash, polys[i], k - i)
      invariant Resume(polys, roots, alphas, CommitLayers(hash, cur, k - j, folds - j, transcript.state)) == goal
    {
      ResumeStep(hash, cur, k - j, folds - j, transcript.state, polys, roots, alphas);
      var c, alpha, next := CommitRound(hash, cur, k - j, transcript);
      commits := commits + [c];
      roots := roots + [c.tree.root];
      alphas := alphas + [alpha];
      polys := polys + [cur];
      cur := next;
    }
    CommitNothing(hash, cur, 1, transcript.state);
    ResumeAll(polys, roots, alphas, cur, transcript.state);
  }

  lemma ResumeAll(polys: seq<Poly>, roots: seq<Digest>, alphas: seq<Elem>, cur: Poly, state: Bytes)
    ensures Resume(polys, roots, alphas, CommitPhase([], [], [], cur, state)) ==
            CommitPhase(polys, roots, alphas, cur, state)
  {
  }

  lemma ResumeNothing(c: CommitPhase)
    ensures Resume([], [], [], c) == c
  {
  }

  lemma CommitNothing(hash: Hash, f: Poly, k: nat, state: Bytes)
    requires k <= 32
    ensures CommitLayers(hash, f, k, 0, state) == CommitPhase([], [], [], f, state)
  {
  }

  lemma QueryOpensStep(hash: Hash, polys: seq<Poly>, k: nat, x: Elem, last: Poly)
    requires 1 <= |polys| <= k <= 32 && x in DomainOf(k)
    ensures var opens := QueryOpens(hash, polys, k, x, last);
            && FirstOpens(hash, polys, k, x, last, opens[0])
            && OtherOpens(hash, polys, k, x, last, opens[1..])
  {
    hide Mul, Neg, Eval, DomainOf, OpenPoint;
    DomainClosed(x, k);
  }

  ghost predicate FirstOpens(hash: Hash, polys: seq<Poly>, k: nat, x: Elem, last: Poly, o: LayerOpen)
    requires 1 <= |polys| <= k <= 32 && x in DomainOf(k)
  {
    hide Mul, Neg, Eval, DomainOf, OpenPoint;
    DomainClosed(x, k);
    var y := Mul(x, x);
    && o.atX == OpenPoint(hash, polys[0], k, x)
    && o.atNegX == OpenPoint(hash, polys[0], k, Neg(x))
    && o.atY == if |polys| > 1 then OpenPoint(hash, polys[1], k - 1, y) else OpenVal(USIZE_MAX, Eval(last, y), [])
  }

  ghost predicate OtherOpens(hash: Hash, polys: seq<Poly>, k: nat, x: Elem, last: Poly, rest: seq<LayerOpen>)
    requires 1 <= |polys| <= k <= 32 && x in DomainOf(k)
  {
    hide Mul, DomainOf;
    DomainClosed(x, k);
    rest == QueryOpens(hash, polys[1..], k - 1, Mul(x, x), last)
  }

  /** The layers of one query. */
  method OpenLayers(
    hash: Hash, commits: seq<LayerCommit>, k: nat, start: Elem, cur: Poly, ghost polys: seq<Poly>)
    returns (opens: seq<LayerOpen>)
    requires 1 <= k <= 32 && |commits| == |polys| == k - 1
    requires forall j :: 0 <= j < k - 1 ==> commits[j] == CommitOf(hash, polys[j], k - j)
    requires start in DomainOf(k)
    ensures opens == QueryOpens(hash, polys, k, start, cur)
  {
    hide Mul, Neg, Eval, DomainOf, OpenPoint, QueryOpens, CommitOf;
    var folds := k - 1;
    var x := start;
    opens := [];
    assert polys[0..] == polys;
    for j := 0 to folds
      invariant x in DomainOf(k - j)
      invariant opens + QueryOpens(hash, polys[j..], k - j, x, cur) == QueryOpens(hash, polys, k, start, cur)
    {
      ghost var rest := polys[j..];
      assert rest[1..] == polys[j + 1..];
      var dj := Domain(k - j);
      var negX := Neg(x);
      var y := Mul(x, x);
      DomainClosed(x, k - j);
      QueryOpensStep(hash, rest, k - j, x, cur);
      ghost var now := QueryOpens(hash, rest, k - j, x, cur);
      assert now == [now[0]] + now[1..];
      var o1 := OpenAt(hash, commits[j], dj, x, polys[j], k - j);
      var o2 := OpenAt(hash, commits[j], dj, negX, polys[j], k - j);
      var o3;
      if j + 1 < folds {
        var dj1 := Domain(k - (j + 1));
        o3 := OpenAt(hash, commits[j + 1], dj1, y, polys[j + 1], k - (j + 1));
      } else {
        var v := EvalAt(cur, y);
        o3 := OpenVal(USIZE_MAX, v, []);
      }
      ConcatLevels(opens, LayerOpen(o1, o2, o3), QueryOpens(hash, polys[j + 1..], k - j - 1, y, cur));
      opens := opens + [LayerOpen(o1, o2, o3)];
      x := y;
    }
    NoOpens(hash, 1, x, cur);
    assert polys[folds..] == [];
  }

  lemma NoOpens(hash: Hash, k: nat, x: Elem, last: Poly)
    requires k <= 32 && x in DomainOf(k)
    ensures QueryOpens(hash, [], k, x, last) == []
  {
  }

  /** One list of openings per starting point. */
  ghost predicate AreOpens(
    hash: Hash, polys: seq<Poly>, k: nat, starts: seq<Elem>, cur: Poly, queries: seq<seq<LayerOpen>>)
    requires 1 <= k <= 32 && |polys| == k - 1
  {
    && |queries| == |starts|
    && forall i :: 0 <= i < |starts| ==>
         starts[i] in DomainOf(k) && queries[i] == QueryOpens(hash, polys, k, starts[i], cur)
  }

  lemma AppendOpens(
    hash: Hash, polys: seq<Poly>, k: nat, starts: seq<Elem>, cur: Poly, queries: seq<seq<LayerOpen>>, x: Elem)
    requires 1 <= k <= 32 && |polys| == k - 1
    requires AreOpens(hash, polys, k, starts, cur, queries) && x in DomainOf(k)
    ensures AreOpens(hash, polys, k, starts + [x], cur, queries + [QueryOpens(hash, polys, k, x, cur)])
  {
    hide QueryOpens, DomainOf;
  }

  lemma NoQueries(hash: Hash, polys: seq<Poly>, k: nat, cur: Poly)
    requires 1 <= k <= 32 && |polys| == k - 1
    ensures AreOpens(hash, polys, k, [], cur, [])
  {
  }

  lemma OpensOfStarts(
    hash: Hash, polys: seq<Poly>, k: nat, starts: seq<Elem>, cur: Poly, queries: seq<seq<LayerOpen>>)
    requires 1 <= k <= 32 && |polys| == k - 1 && AreOpens(hash, polys, k, starts, cur, queries)
    ensures |queries| == |starts|
    ensures forall i :: 0 <= i < |starts| ==> starts[i] in DomainOf(k)
    ensures forall i :: 0 <= i < |starts| ==> queries[i] == QueryOpens(hash, polys, k, starts[i], cur)
  {
    hide QueryOpens, DomainOf;
  }

  /** The query loop: hash the transcript for an index, absorb the hash, open the layers. */
  method QueryLoop(
    hash: Hash, commits: seq<LayerCommit>, k: nat, numQueries: nat, cur: Poly, transcript: Transcript,
    ghost polys: seq<Poly>)
    returns (starts: seq<Elem>, queries: seq<seq<LayerOpen>>)
    requires 1 <= k <= 32 && |commits| == |polys| == k - 1
    requires forall j :: 0 <= j < k - 1 ==> commits[j] == CommitOf(hash, polys[j], k - j)
    modifies transcript
    ensures starts == QueryStarts(hash, old(transcript.state), k, numQueries)
    ensures |queries| == numQueries
    ensures forall i :: 0 <= i < numQueries ==> queries[i] == QueryOpens(hash, polys, k, starts[i], cur)
  {
    hide QueryOpens, DomainOf, CommitOf, QueryStart, AreOpens;
    var d0 := Domain(k);
    DomainSizes(k);
    queries, starts := [], [];
    assert AreOpens(hash, polys, k, [], cur, []) by { NoQueries(hash, polys, k, cur); }
    ghost var goal := QueryStarts(hash, transcript.state, k, numQueries);
    for q := 0 to numQueries
      invariant |starts| == q && AreOpens(hash, polys, k, starts, cur, queries)
      invariant starts + QueryStarts(hash, transcript.state, k, numQueries - q) == goal
    {
      var h := hash(transcript.state);
      var x := d0[WordOf(h) % |d0|];
      QueryStartIs(hash, transcript.state, k);
      ConcatLevels(starts, x, QueryStarts(hash, transcript.state + h, k, numQueries - q - 1));
      transcript.Absorb(h);
      AppendOpens(hash, polys, k, starts, cur, queries, x);
      starts := starts + [x];
      var opens := OpenLayers(hash, commits, k, x, cur, polys);
      queries := queries + [opens];
    }
    OpensOfStarts(hash, polys, k, starts, cur, queries);
  }

  /** `prove`. */
  method Prove(hash: Hash, f: Poly, k: nat, numQueries: nat, transcript: Transcript, boundary: Option<Elem>)
    returns (proof: FriProof)
    requires 1 <= k <= 32
    requires boundary.Some? ==> k >= 2 && boundary.value in DomainOf(k)
    modifies transcript
    ensures proof == FriProve(hash, f, k, numQueries, old(transcript.state), boundary)
  {
    hide QueryOpens, OpenPoint, DomainOf, CommitLayers, CommitOf, QueryStarts;
    var commits, roots, alphas, cur, polys := CommitLoop(hash, f, k, transcript);
    var starts, queries := QueryLoop(hash, commits, k, numQueries, cur, transcript, polys);
    var b := None;
    if boundary.Some? {
      var d0 := Domain(k);
      var o := OpenAt(hash, commits[0], d0, boundary.value, f, k);
      b := Some(o);
    }
    proof := FriProof(roots, cur, queries, starts, b);
  }

  lemma QueryStartIs(hash: Hash, state: Bytes, k: nat)
    requires k <= 32
    ensures QueryStart(hash, state, k) == DomainOf(k)[WordOf(hash(state)) % |DomainOf(k)|]
  {
  }

  // ----- verifier -----

  method CheckLayerLoop(
    hash: Hash, opens: seq<LayerOpen>, roots: seq<Digest>, alphas: seq<Elem>, finalCoeffs: seq<U64>, start: Elem)
    returns (v: Verdict)
    requires |opens| == |roots| == |alphas|
    ensures v == CheckLayers(hash, opens, roots, alphas, finalCoeffs, start, 0)
  {
    hide VerifyPath, Mul, Inv, Add, AddWords, SubWords, MulWords, EvalWords, TrimWords;
    var folds := |roots|;
    var twoInv := Inv(New(2));
    var x := start;
    ghost var goal := CheckLayers(hash, opens, roots, alphas, finalCoeffs, start, 0);
    for j := 0 to folds
      invariant goal == CheckLayers(hash, opens[j..], roots[j..], alphas[j..], finalCoeffs, x, j)
    {
      assert opens[j..][1..] == opens[j + 1..] && roots[j..][1..] == roots[j + 1..] && alphas[j..][1..] == alphas[j + 1..];
      var ox, onx, oy := opens[j].atX, opens[j].atNegX, opens[j].atY;
      var ok := VerifyLoop(hash, ox.index, ox.value, ox.path, roots[j]);
      if !ok {
        return Reject(MerkleFailAtX(j));
      }
      ok := VerifyLoop(hash, onx.index, onx.value, onx.path, roots[j]);
      if !ok {
        return Reject(MerkleFailAtNegX(j));
      }
      var y := Mul(x, x);
      if j + 1 < folds {
        ok := VerifyLoop(hash, oy.index, oy.value, oy.path, roots[j + 1]);
        if !ok {
          return Reject(MerkleFailAtY(j));
        }
      } else {
        var fLast := FromWords(finalCoeffs);
        var last := EvalWordsAt(fLast, y);
        if last != oy.value {
          return Reject(FinalEvalMismatch);
        }
      }
      var sum := AddWords(ox.value, onx.value);
      var diff := SubWords(ox.value, onx.value);
      var expected := Add(MulWords(sum, twoInv), Mul(alphas[j], Mul(MulWords(diff, twoInv), Inv(x))));
      if expected != oy.value {
        return Reject(FoldMismatch(j));
      }
      x := y;
    }
    v := Accept;
  }

  method AlphaLoop(hash: Hash, roots: seq<Digest>, transcript: Transcript) returns (alphas: seq<Elem>)
    modifies transcript
    ensures alphas == TranscriptAlphas(hash, roots, old(transcript.state))
  {
    hide SqueezeValue, SqueezeHash;
    alphas := [];
    for j := 0 to |roots|
      invariant alphas + TranscriptAlphas(hash, roots[j..], transcript.state) ==
                TranscriptAlphas(hash, roots, old(transcript.state))
    {
      assert roots[j..][1..] == roots[j + 1..];
      ghost var st := transcript.state + roots[j];
      ConcatLevels(alphas, SqueezeValue(hash, st), TranscriptAlphas(hash, roots[j + 1..], SqueezeHash(hash, st)));
      transcript.Absorb(roots[j]);
      var a := transcript.SqueezeFp(hash);
      alphas := alphas + [a];
    }
  }

  /** `verify`. */
  method Verify(
    hash: Hash, proof: FriProof, k: nat, numQueries: nat, transcript: Transcript, expected: Option<(U64, U64)>)
    returns (v: Verdict)
    requires 1 <= k <= 32
    modifies transcript
    ensures v == FriVerify(hash, proof, k, numQueries, old(transcript.state), expected)
  {
    hide CheckLayers, DomainOf, VerifyPath, TranscriptAlphas;
    if |proof.roots| != k - 1 {
      return Reject(RootCount);
    }
    if |proof.finalCoeffs| > 2 {
      return Reject(FinalDegreeTooHigh);
    }
    if |proof.queries| != numQueries || |proof.queryStarts| != numQueries {
      return Reject(QueryCountMismatch);
    }
    var alphas := AlphaLoop(hash, proof.roots, transcript);
    var d0 := Domain(k);
    ghost var goal := CheckQueries(hash, proof, alphas, k, 0);
    for qi := 0 to numQueries
      invariant goal == CheckQueries(hash, proof, alphas, k, qi)
    {
      var opens := proof.queries[qi];
      if |opens| != |proof.roots| {
        return Reject(QueryLayerCount);
      }
      var x := proof.queryStarts[qi];
      if x !in d0 {
        return Reject(StartNotInDomain);
      }
      var w := CheckLayerLoop(hash, opens, proof.roots, alphas, proof.finalCoeffs, x);
      if w != Accept {
        return w;
      }
    }
    if expected.Some? {
      if proof.boundary.None? {
        return Reject(BoundaryMissing);
      }
      var (pt, value) := expected.value;
      var open := proof.boundary.value;
      if proof.roots == [] {
        return Panic;
      }
      var ok := VerifyLoop(hash, open.index, open.value, open.path, proof.roots[0]);
      if !ok {
        return Reject(BoundaryMerkleFail);
      }
      if open.value != value {
        return Reject(BoundaryValueMismatch);
      }
      if open.index >= |d0| {
        return Panic;
      }
      if d0[open.index] != pt {
        return Reject(BoundaryPointMismatch);
      }
    }
    v := Accept;
  }
}
