/** The constraint challenge of the square-chain and tower proofs: a hash of both
    commitments and both final layers. */
module Challenge {
  import opened Goldilocks
  import opened Bytes
  import opened FriProtocol

  function RootBytes(roots: seq<Digest>): Bytes {
    if roots == [] then [] else RootBytes(roots[..|roots| - 1]) + roots[|roots| - 1]
  }

  function CoeffBytes(coeffs: seq<U64>): Bytes {
    if coeffs == [] then [] else CoeffBytes(coeffs[..|coeffs| - 1]) + WordBytes(coeffs[|coeffs| - 1])
  }

  /** The hashed message: all roots, then all final coefficients, the trace's first. */
  function ChallengeMessage(traceFri: FriProof, quotientFri: FriProof): Bytes {
    RootBytes(traceFri.roots) + RootBytes(quotientFri.roots) +
    CoeffBytes(traceFri.finalCoeffs) + CoeffBytes(quotientFri.finalCoeffs)
  }

  /** `derive_challenge`. */
  function DerivedChallenge(hash: Hash, traceFri: FriProof, quotientFri: FriProof): Elem {
    New(WordOf(hash(ChallengeMessage(traceFri, quotientFri))))
  }

  method AppendRoots(buf0: Bytes, roots: seq<Digest>) returns (buf: Bytes)
    ensures buf == buf0 + RootBytes(roots)
  {
    buf := buf0;
    for i := 0 to |roots|
      invariant buf == buf0 + RootBytes(roots[..i])
    {
      assert roots[..i + 1][..i] == roots[..i];
      buf := buf + roots[i];
    }
    assert roots[..|roots|] == roots;
  }

  method AppendCoeffs(buf0: Bytes, coeffs: seq<U64>) returns (buf: Bytes)
    ensures buf == buf0 + CoeffBytes(coeffs)
  {
    hide WordBytes;
    buf := buf0;
    for i := 0 to |coeffs|
      invariant buf == buf0 + CoeffBytes(coeffs[..i])
    {
      assert coeffs[..i + 1][..i] == coeffs[..i];
      buf := buf + WordBytes(coeffs[i]);
    }
    assert coeffs[..|coeffs|] == coeffs;
  }

  method DeriveChallenge(hash: Hash, traceFri: FriProof, quotientFri: FriProof) returns (chi: Elem)
    ensures chi == DerivedChallenge(hash, traceFri, quotientFri)
  {
    hide RootBytes, CoeffBytes;
    var buf := AppendRoots([], traceFri.roots);
    assert buf == RootBytes(traceFri.roots);
    buf := AppendRoots(buf, quotientFri.roots);
    buf := AppendCoeffs(buf, traceFri.finalCoeffs);
    buf := AppendCoeffs(buf, quotientFri.finalCoeffs);
    chi := New(WordOf(hash(buf)));
  }

  // ----- what the challenge commits to -----

  /** A list of roots is written out root after root. */
  lemma {:induction false} RootBytesLayout(roots: seq<Digest>)
    ensures |RootBytes(roots)| == 32 * |roots|
    ensures forall i :: 0 <= i < |roots| ==> RootBytes(roots)[32 * i..32 * i + 32] == roots[i]
  {
    if roots != [] {
      var n := |roots| - 1;
      var front := RootBytes(roots[..n]);
      RootBytesLayout(roots[..n]);
      forall i | 0 <= i <= n
        ensures RootBytes(roots)[32 * i..32 * i + 32] == roots[i]
      {
        if i < n {
          assert RootBytes(roots)[32 * i..32 * i + 32] == front[32 * i..32 * i + 32];
          assert roots[..n][i] == roots[i];
        }
      }
    }
  }

  /** A list of coefficients is written out in eight big-endian bytes each. */
  lemma {:induction false} CoeffBytesLayout(coeffs: seq<U64>)
    ensures |CoeffBytes(coeffs)| == 8 * |coeffs|
    ensures forall i :: 0 <= i < |coeffs| ==> CoeffBytes(coeffs)[8 * i..8 * i + 8] == BigEndian(coeffs[i], 8)
  {
    if coeffs != [] {
      hide BigEndian;
      var n := |coeffs| - 1;
      var front := CoeffBytes(coeffs[..n]);
      CoeffBytesLayout(coeffs[..n]);
      forall i | 0 <= i <= n
        ensures CoeffBytes(coeffs)[8 * i..8 * i + 8] == BigEndian(coeffs[i], 8)
      {
        if i < n {
          assert CoeffBytes(coeffs)[8 * i..8 * i + 8] == front[8 * i..8 * i + 8];
          assert coeffs[..n][i] == coeffs[i];
        }
      }
    }
  }

  lemma RootBytesInjective(a: seq<Digest>, b: seq<Digest>)
    requires |a| == |b| && RootBytes(a) == RootBytes(b)
    ensures a == b
  {
    hide RootBytes;
    RootBytesLayout(a);
    RootBytesLayout(b);
    assert forall i :: 0 <= i < |a| ==> a[i] == RootBytes(a)[32 * i..32 * i + 32] == b[i];
  }

  lemma CoeffBytesInjective(a: seq<U64>, b: seq<U64>)
    requires CoeffBytes(a) == CoeffBytes(b)
    ensures a == b
  {
    hide CoeffBytes, BigEndian;
    CoeffBytesLayout(a);
    CoeffBytesLayout(b);
    forall i | 0 <= i < |a|
      ensures a[i] == b[i]
    {
      assert BigEndian(a[i], 8) == CoeffBytes(a)[8 * i..8 * i + 8] == BigEndian(b[i], 8);
      WordBytesInjective(a[i], b[i]);
    }
  }

  lemma {:induction false} CoeffBytesConcat(a: seq<U64>, b: seq<U64>)
    ensures CoeffBytes(a + b) == CoeffBytes(a) + CoeffBytes(b)
  {
    hide WordBytes;
    if b == [] {
      assert a + b == a;
    } else {
      var n := |b| - 1;
      CoeffBytesConcat(a, b[..n]);
      assert (a + b)[..|a + b| - 1] == a + b[..n];
    }
  }

  /** Where every root and coefficient stands in the message. */
  lemma MessageLayout(traceFri: FriProof, quotientFri: FriProof)
    ensures var m, t, q := ChallengeMessage(traceFri, quotientFri), traceFri, quotientFri;
            var coeffs := t.finalCoeffs + q.finalCoeffs;
            && |m| == 32 * |t.roots| + 32 * |q.roots| + 8 * |coeffs|
            && (forall i :: 0 <= i < |t.roots| ==> m[32 * i..32 * i + 32] == t.roots[i])
            && (forall i :: 0 <= i < |q.roots| ==>
                  m[32 * |t.roots|..][32 * i..32 * i + 32] == q.roots[i])
            && (forall i :: 0 <= i < |coeffs| ==>
                  m[32 * |t.roots|..][32 * |q.roots|..][8 * i..8 * i + 8] == BigEndian(coeffs[i], 8))
  {
    hide RootBytes, CoeffBytes, BigEndian;
    var t, q := traceFri, quotientFri;
    var coeffs := t.finalCoeffs + q.finalCoeffs;
    var m, a, b, c := ChallengeMessage(t, q), RootBytes(t.roots), RootBytes(q.roots), CoeffBytes(coeffs);
    RootBytesLayout(t.roots);
    RootBytesLayout(q.roots);
    CoeffBytesLayout(coeffs);
    CoeffBytesConcat(t.finalCoeffs, q.finalCoeffs);
    assert m == a + (b + c);
    assert m[|a|..] == b + c;
    assert m[|a|..][|b|..] == c;
    forall i | 0 <= i < |t.roots|
      ensures m[32 * i..32 * i + 32] == t.roots[i]
    {
      assert m[32 * i..32 * i + 32] == a[32 * i..32 * i + 32];
    }
    forall i | 0 <= i < |q.roots|
      ensures m[32 * |t.roots|..][32 * i..32 * i + 32] == q.roots[i]
    {
      assert (b + c)[32 * i..32 * i + 32] == b[32 * i..32 * i + 32];
    }
  }

  /** With equal numbers of roots, equal messages mean equal commitments and coefficients. */
  lemma MessageBinding(t: FriProof, q: FriProof, t': FriProof, q': FriProof)
    requires |t.roots| == |t'.roots| && |q.roots| == |q'.roots|
    requires ChallengeMessage(t, q) == ChallengeMessage(t', q')
    ensures t.roots == t'.roots && q.roots == q'.roots
    ensures t.finalCoeffs + q.finalCoeffs == t'.finalCoeffs + q'.finalCoeffs
  {
    hide RootBytes, CoeffBytes;
    var m := ChallengeMessage(t, q);
    var n, n' := 32 * |t.roots|, 32 * |q.roots|;
    RootBytesLayout(t.roots);
    RootBytesLayout(t'.roots);
    RootBytesLayout(q.roots);
    RootBytesLayout(q'.roots);
    CoeffBytesConcat(t.finalCoeffs, q.finalCoeffs);
    CoeffBytesConcat(t'.finalCoeffs, q'.finalCoeffs);
    MessageParts(m, RootBytes(t.roots), RootBytes(q.roots), CoeffBytes(t.finalCoeffs + q.finalCoeffs));
    MessageParts(m, RootBytes(t'.roots), RootBytes(q'.roots), CoeffBytes(t'.finalCoeffs + q'.finalCoeffs));
    RootBytesInjective(t.roots, t'.roots);
    RootBytesInjective(q.roots, q'.roots);
    CoeffBytesInjective(t.finalCoeffs + q.finalCoeffs, t'.finalCoeffs + q'.finalCoeffs);
  }

  lemma MessageParts(m: Bytes, a: Bytes, b: Bytes, c: Bytes)
    requires m == a + b + c
    ensures m[..|a|] == a && m[|a|..|a| + |b|] == b && m[|a| + |b|..] == c
  {
  }

  /** The challenge is the first word of the message's hash, reduced. */
  lemma ChallengeIsFirstWord(hash: Hash, t: FriProof, q: FriProof)
    ensures DerivedChallenge(hash, t, q) == FromBigEndian(hash(ChallengeMessage(t, q))[..8]) % MODULUS
  {
    hide ChallengeMessage, FromBigEndian;
  }

  /** Two different messages whose hashes agree, modulo p, in their first eight bytes. */
  ghost predicate WordsMeet(hash: Hash, m: Bytes, m': Bytes) {
    m != m' && FromBigEndian(hash(m)[..8]) % MODULUS == FromBigEndian(hash(m')[..8]) % MODULUS
  }

  /** One challenge for two pairs of commitments: they are the same, or the two messages meet. */
  lemma ChallengeBinding(hash: Hash, t: FriProof, q: FriProof, t': FriProof, q': FriProof)
    requires |t.roots| == |t'.roots| && |q.roots| == |q'.roots|
    requires DerivedChallenge(hash, t, q) == DerivedChallenge(hash, t', q')
    ensures (t.roots == t'.roots && q.roots == q'.roots &&
             t.finalCoeffs + q.finalCoeffs == t'.finalCoeffs + q'.finalCoeffs) ||
            WordsMeet(hash, ChallengeMessage(t, q), ChallengeMessage(t', q'))
  {
    hide ChallengeMessage, FromBigEndian;
    if ChallengeMessage(t, q) == ChallengeMessage(t', q') {
      MessageBinding(t, q, t', q');
    }
  }
}
