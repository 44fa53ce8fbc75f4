/** The loops of the enhance prover and verifier, each proved to compute its specification;
    at the end, proving and then verifying. */
module EnhanceLoops {
  import opened Goldilocks
  import opened Powers
  import opened Primality
  import opened RootsOfUnity
  import opened Polynomials
  import opened PolynomialOps
  import opened PolynomialProduct
  import opened PolynomialDivision
  import opened Interpolation
  import opened Bytes
  import opened FriProtocol
  import opened Wrappers
  import opened FriLoops
  import opened Challenge
  import opened Words
  import opened XorshiftAir
  import opened EnhanceConstraints
  import opened EnhanceProtocol

  // ----- trace -----

  /** `bits_of`. */
  method WordBits(v: U64) returns (b: seq<nat>)
    ensures b == BitsOf(v, 64)
  {
    hide BitAt;
    b := [];
    for i := 0 to 64
      invariant b == BitsOf(v, i)
    {
      b := b + [BitAt(v, i)];
    }
  }

  /** The loop over the nine sub-steps. */
  method WordsLoop(seed: U64) returns (words: seq<U64>)
    ensures |words| == 10
    ensures forall i :: 0 <= i <= 9 ==> words[i] == WordAt(seed, i)
  {
    hide XorshiftSub;
    words := [seed];
    var cur := seed;
    for i := 0 to 9
      invariant cur == WordAt(seed, i) && |words| == i + 1
      invariant forall r :: 0 <= r <= i ==> words[r] == WordAt(seed, r)
    {
      cur := XorshiftSub(cur, STEPS[i].1);
      words := words + [cur];
    }
  }

  /** Write the leading bits of a word into a row. */
  method WriteBits(trace: array2<Elem>, row: nat, v: U64, n: nat)
    requires trace.Length0 == 16 && trace.Length1 == 64 && row < 16 && n <= 64
    modifies trace
    ensures forall r, j :: 0 <= r < 16 && 0 <= j < 64 ==>
              trace[r, j] == if r == row && j < n then New(BitAt(v, j)) else old(trace[r, j])
  {
    hide BitAt, New;
    var b := WordBits(v);
    for j := 0 to n
      invariant forall r, i :: 0 <= r < 16 && 0 <= i < 64 ==>
                  trace[r, i] == if r == row && i < j then New(BitAt(v, i)) else old(trace[r, i])
    {
      trace[row, j] := New(b[j]);
    }
  }

  /** `build_trace`. */
  method BuildTrace(seed: U64, roll: U64) returns (trace: array2<Elem>)
    ensures fresh(trace) && trace.Length0 == 16 && trace.Length1 == 64
    ensures forall r, j :: 0 <= r < 16 && 0 <= j < 64 ==> trace[r, j] == CellAt(seed, roll, r, j)
  {
    hide BitAt, New, WordAt, QuotientCell;
    var words := WordsLoop(seed);
    trace := new Elem[16, 64]((_, _) => ZERO);
    for row := 0 to 10
      invariant forall r, j :: 0 <= r < 16 && 0 <= j < 64 ==>
                  trace[r, j] == if r < row then New(BitAt(WordAt(seed, r), j)) else ZERO
    {
      WriteBits(trace, row, words[row], 64);
    }
    WriteBits(trace, 10, roll, 10);
    trace[14, 0] := New(QuotientCell(words[9], roll));
  }

  // ----- columns -----

  method InterpolateColumns(trace: array2<Elem>, seed: U64, roll: U64) returns (cols: seq<Poly>)
    requires trace.Length0 == 16 && trace.Length1 == 64
    requires forall r, j :: 0 <= r < 16 && 0 <= j < 64 ==> trace[r, j] == CellAt(seed, roll, r, j)
    ensures ColumnsOf(cols, TraceOf(seed, roll))
    ensures forall j :: 0 <= j < 64 ==> Canonical(cols[j])
  {
    hide Eval, Pow, RootOfUnity, CellAt;
    assert Pow2(N_LOG2) == 16;
    DomainIsDistinct(N_LOG2);
    var d := Domain(N_LOG2);
    cols := [];
    for j := 0 to 64
      invariant |cols| == j
      invariant forall i :: 0 <= i < j ==> 1 <= |cols[i]| <= 16 && Canonical(cols[i])
      invariant forall m, i :: 0 <= m < 16 && 0 <= i < j ==> Eval(cols[i], Pow(Omega(), m)) == CellAt(seed, roll, m, i)
    {
      var vals: seq<Elem> := seq(16, r requires 0 <= r < 16 reads trace => trace[r, j]);
      var p := Interpolate(d, vals);
      forall m | 0 <= m < 16
        ensures Eval(p, Pow(Omega(), m)) == CellAt(seed, roll, m, j)
      {
        assert Eval(p, d[m]) == vals[m];
      }
      cols := cols + [p];
    }
    forall m, i | 0 <= m < 16 && 0 <= i < 64
      ensures Eval(cols[i], Pow(Omega(), m)) == TraceOf(seed, roll)[m][i]
    {
      assert TraceOf(seed, roll)[m] == RowOf(seed, roll, m);
    }
  }

  // ----- constraints -----

  type Entry = (seq<nat>, Poly)

  /** The rows and the polynomial of each constraint. */
  ghost function Entries(cs: seq<Constraint>, cols: seq<Poly>, omega: Elem): (es: seq<Entry>)
    requires AllListed(cs) && AreColumns(cols)
    ensures |es| == |cs|
    ensures forall i :: 0 <= i < |es| ==> es[i] == (RowsOf(cs[i]), PolyOf(cs[i], cols, omega))
  {
    seq(|cs|, i requires 0 <= i < |cs| => (RowsOf(cs[i]), PolyOf(cs[i], cols, omega)))
  }

  lemma EntriesConcat(a: seq<Constraint>, b: seq<Constraint>, cols: seq<Poly>, omega: Elem)
    requires AllListed(a) && AllListed(b) && AreColumns(cols)
    ensures AllListed(a + b)
    ensures Entries(a + b, cols, omega) == Entries(a, cols, omega) + Entries(b, cols, omega)
  {
    hide PolyOf, Listed;
  }

  method BitEntries(cols: seq<Poly>, rows: seq<nat>, n: nat, ghost omega: Elem) returns (csts: seq<Entry>)
    requires n <= 64 && AreColumns(cols) && AllListed(BitCs(rows, n))
    ensures csts == Entries(BitCs(rows, n), cols, omega)
  {
    hide PolyMul, PolySub, Listed;
    csts := [];
    for j := 0 to n
      invariant |csts| == j
      invariant forall i :: 0 <= i < j ==> csts[i] == (rows, PolyOf(BitC(rows, i), cols, omega))
    {
      var square := Multiply(cols[j], cols[j]);
      csts := csts + [(rows, PolySub(square, cols[j]))];
    }
  }

  method StepEntries(cols: seq<Poly>, row: nat, kind: nat, omega: Elem) returns (csts: seq<Entry>)
    requires AreColumns(cols) && AllListed(StepCs(row, kind))
    ensures csts == Entries(StepCs(row, kind), cols, omega)
  {
    hide PolyMul, PolySub, PolyAdd, PolyScale, PolyScaleVar, Listed;
    csts := [];
    for j := 0 to 64
      invariant |csts| == j
      invariant forall i :: 0 <= i < j ==> csts[i] == ([row], PolyOf(StepC(row, kind, i), cols, omega))
    {
      var src := SourcePoly(cols, kind, j);
      var sum := AddPolys(cols[j], src);
      var product := Multiply(cols[j], src);
      var xor := PolySub(sum, PolyScale(product, New(2)));
      var next := ScaleVar(cols[j], omega);
      csts := csts + [([row], PolySub(next, xor))];
    }
  }

  method AllStepEntries(cols: seq<Poly>, omega: Elem) returns (csts: seq<Entry>)
    requires AreColumns(cols) && AllListed(AllStepCs(9))
    ensures csts == Entries(AllStepCs(9), cols, omega)
  {
    hide PolyOf, AllListed, StepCs;
    StepsListed(0);
    csts := [];
    for r := 0 to 9
      invariant AllListed(AllStepCs(r)) && csts == Entries(AllStepCs(r), cols, omega)
    {
      OneStepListed(r);
      StepsListed(r);
      var added := StepEntries(cols, STEPS[r].0, STEPS[r].1, omega);
      EntriesConcat(AllStepCs(r), StepCs(STEPS[r].0, STEPS[r].1), cols, omega);
      csts := csts + added;
    }
  }

  /** The loop that sums columns with doubling weights. */
  method PolyWordLoop(cols: seq<Poly>, s: Elem, n: nat) returns (sum: Poly)
    requires n <= |cols|
    ensures sum == PolyWordSum(cols, s, n)
  {
    hide Mul, Pow, PolyAdd, PolyScale, PolyScaleVar, New;
    sum := [];
    var pow2 := ONE;
    PowUnfold(New(2), 0);
    for j := 0 to n
      invariant pow2 == Pow(New(2), j) && sum == PolyWordSum(cols, s, j)
    {
      var shifted := ScaleVar(cols[j], s);
      sum := AddPolys(sum, PolyScale(shifted, pow2));
      PowUnfold(New(2), j);
      MulCommutes(New(2), pow2);
      pow2 := Mul(pow2, New(2));
    }
  }

  /** Products of w^-1 with itself. */
  method FourthAndFifth(inv: Elem) returns (p4: Elem, p5: Elem)
    ensures p4 == Pow(inv, 4) && p5 == Pow(inv, 5)
  {
    hide Mul, Pow;
    p4 := Mul(Mul(Mul(inv, inv), inv), inv);
    p5 := Mul(p4, inv);
    PowOne(inv);
    PowUnfold(inv, 1);
    PowUnfold(inv, 2);
    PowUnfold(inv, 3);
    PowUnfold(inv, 4);
    MulCommutes(inv, Pow(inv, 2));
    MulCommutes(inv, Pow(inv, 3));
    MulCommutes(inv, Pow(inv, 4));
  }

  method ModEntry(cols: seq<Poly>, omega: Elem) returns (entry: Entry)
    requires AreColumns(cols)
    ensures entry == (RowsOf(ModC), PolyOf(ModC, cols, omega))
  {
    hide Pow, PolySub, PolyScale, PolyWordSum, New, Inv;
    var p4, p5 := FourthAndFifth(Inv(omega));
    var xSum := PolyWordLoop(cols, p5, 64);
    var rSum := PolyWordLoop(cols, p4, 10);
    entry := ([14], PolySub(PolySub(xSum, PolyScale(cols[0], New(1000))), rSum));
  }

  method ZeroEntries(cols: seq<Poly>, row: nat, from: nat, ghost omega: Elem) returns (csts: seq<Entry>)
    requires from <= 64 && AreColumns(cols) && AllListed(ZeroCs(row, from))
    ensures csts == Entries(ZeroCs(row, from), cols, omega)
  {
    hide Listed;
    csts := [];
    for j := from to 64
      invariant |csts| == j - from
      invariant forall i :: 0 <= i < j - from ==> csts[i] == ([row], cols[from + i])
    {
      csts := csts + [([row], cols[j])];
    }
    forall i | 0 <= i < 64 - from
      ensures ZeroCs(row, from)[i] == ZeroC(row, from + i)
    {
      assert ZeroCs(row, from)[(from + i) - from] == ZeroC(row, from + i);
    }
  }

  /** `build_constraints`: all 1024 entries, in order. */
  method BuildConstraints(cols: seq<Poly>, omega: Elem) returns (csts: seq<Entry>)
    requires AreColumns(cols) && AllListed(Descriptors())
    ensures csts == Entries(Descriptors(), cols, omega)
  {
    hide PolyOf, AllListed, AreColumns, BitCs, AllStepCs, ZeroCs, Entries;
    BitsListed(WORD_ROWS, 64);
    BitsListed([10], 10);
    StepsListed(9);
    assert Listed(ModC);
    SingleListed(ModC);
    var part := BitEntries(cols, WORD_ROWS, 64, omega);
    csts := part;
    ghost var cs := BitCs(WORD_ROWS, 64);
    part := BitEntries(cols, [10], 10, omega);
    EntriesConcat(cs, BitCs([10], 10), cols, omega);
    csts, cs := csts + part, cs + BitCs([10], 10);
    part := AllStepEntries(cols, omega);
    EntriesConcat(cs, AllStepCs(9), cols, omega);
    csts, cs := csts + part, cs + AllStepCs(9);
    var entry := ModEntry(cols, omega);
    SingleEntry(ModC, cols, omega);
    EntriesConcat(cs, [ModC], cols, omega);
    csts, cs := csts + [entry], cs + [ModC];
    csts, cs := AppendZeros(cols, 10, 10, omega, csts, cs);
    csts, cs := AppendZeros(cols, 11, 0, omega, csts, cs);
    csts, cs := AppendZeros(cols, 12, 0, omega, csts, cs);
    csts, cs := AppendZeros(cols, 13, 0, omega, csts, cs);
    csts, cs := AppendZeros(cols, 15, 0, omega, csts, cs);
    csts, cs := AppendZeros(cols, 14, 1, omega, csts, cs);
    assert cs == Descriptors();
  }

  lemma SingleEntry(c: Constraint, cols: seq<Poly>, omega: Elem)
    requires AllListed([c]) && AreColumns(cols)
    ensures c.ModC? || c.col < 64
    ensures Entries([c], cols, omega) == [(RowsOf(c), PolyOf(c, cols, omega))]
  {
    hide PolyOf;
    assert Listed([c][0]);
  }

  method AppendZeros(
    cols: seq<Poly>, row: nat, from: nat, ghost omega: Elem, csts: seq<Entry>, ghost cs: seq<Constraint>)
    returns (csts': seq<Entry>, ghost cs': seq<Constraint>)
    requires 10 <= row <= 15 && from <= 64 && (row == 10 ==> from >= 10) && (row == 14 ==> from >= 1)
    requires AreColumns(cols) && AllListed(cs) && csts == Entries(cs, cols, omega)
    ensures cs' == cs + ZeroCs(row, from) && AllListed(cs')
    ensures csts' == Entries(cs', cols, omega)
  {
    hide AllListed, AreColumns, ZeroCs, Entries;
    ZerosListed(row, from);
    var part := ZeroEntries(cols, row, from, omega);
    EntriesConcat(cs, ZeroCs(row, from), cols, omega);
    csts' := csts + part;
    cs' := cs + ZeroCs(row, from);
  }

  // ----- quotients -----

  /** `vanishing`. */
  method Vanishing(rows: seq<nat>) returns (z: Poly)
    requires |rows| <= 10 && forall i :: 0 <= i < |rows| ==> rows[i] < 16
    ensures z == LinearProduct(RowPoints(rows))
  {
    hide Pow, RootOfUnity, LinearProduct;
    var points := [];
    for i := 0 to |rows|
      invariant |points| == i && forall j :: 0 <= j < i ==> points[j] == Pow(Omega(), rows[j])
    {
      var wm := Power(Omega(), rows[i]);
      points := points + [wm];
    }
    assert points == RowPoints(rows);
    z := MultiplyLinearFactors(points);
  }

  /** One constraint polynomial divides exactly; the debug assertion on the remainder holds. */
  method QuotientOf(entry: Entry, ghost c: Constraint, ghost cols: seq<Poly>, ghost t: Trace) returns (q: Poly)
    requires ColumnsOf(cols, t) && AreColumns(cols) && Listed(c) && Satisfied(c, t)
    requires forall j :: 0 <= j < 64 ==> Canonical(cols[j])
    requires entry == (RowsOf(c), PolyOf(c, cols, Omega()))
    ensures IsQuotient(c, cols, q)
  {
    hide Eval, Pow, RootOfUnity, PolyOf, LinearProduct, ProductAt, Satisfied, RowsOf, IsDivision, ColumnsOf, RowPoints,
         IsQuotient;
    var z := Vanishing(entry.0);
    LinearProductLaws(RowPoints(entry.0), ZERO);
    var rem;
    q, rem := DivMod(entry.1, z);
    PolyOfLength(c, cols, Omega());
    QuotientExists(c, cols, t, q, rem);
    ZeroCanonical(c, cols, Omega());
    CanonicalZero(rem);
    assert rem == [ZERO];
  }

  lemma ZeroCanonical(c: Constraint, cols: seq<Poly>, omega: Elem)
    requires AreColumns(cols) && (c.ModC? || c.col < 64)
    requires forall j :: 0 <= j < 64 ==> Canonical(cols[j])
    ensures Canonical(PolyOf(c, cols, omega))
  {
    hide PolyOf;
    PolyOfLength(c, cols, omega);
    if c.ZeroC? {
      assert PolyOf(c, cols, omega) == cols[c.col] by { ZeroPolyIs(c, cols, omega); }
    }
  }

  lemma ZeroPolyIs(c: Constraint, cols: seq<Poly>, omega: Elem)
    requires AreColumns(cols) && c.ZeroC? && c.col < 64
    ensures PolyOf(c, cols, omega) == cols[c.col]
  {
  }

  method Quotients(csts: seq<Entry>, ghost cols: seq<Poly>, ghost seed: U64, ghost roll: U64)
    returns (quotients: seq<Poly>)
    requires roll == EnhanceRoll(seed).1 && ColumnsOf(cols, TraceOf(seed, roll)) && AreColumns(cols)
    requires forall j :: 0 <= j < 64 ==> Canonical(cols[j])
    requires AllListed(Descriptors()) && csts == Entries(Descriptors(), cols, Omega())
    ensures AreQuotients(Descriptors(), cols, quotients)
  {
    hide Eval, Pow, RootOfUnity, PolyOf, Satisfied, RowsOf, ColumnsOf, IsQuotient, Descriptors, TraceOf, EnhanceRoll,
         AreColumns;
    ghost var cs, t := Descriptors(), TraceOf(seed, roll);
    quotients := [];
    for i := 0 to |csts|
      invariant |quotients| == i
      invariant forall j :: 0 <= j < i ==> IsQuotient(cs[j], cols, quotients[j])
    {
      TraceSatisfiesAll(seed, roll, i);
      var q := QuotientOf(csts[i], cs[i], cols, t);
      quotients := quotients + [q];
    }
  }

  // ----- combination -----

  method SqueezeLoop(hash: Hash, transcript: Transcript, n: nat) returns (vs: seq<Elem>)
    modifies transcript
    ensures vs == SqueezeMany(hash, old(transcript.state), n)
    ensures transcript.state == SqueezeState(hash, old(transcript.state), n)
  {
    hide SqueezeValue, SqueezeHash;
    vs := [];
    ghost var start := transcript.state;
    for i := 0 to n
      invariant |vs| == i && vs + SqueezeMany(hash, transcript.state, n - i) == SqueezeMany(hash, start, n)
      invariant SqueezeState(hash, transcript.state, n - i) == SqueezeState(hash, start, n)
    {
      ghost var st := transcript.state;
      assert vs + ([SqueezeValue(hash, st)] + SqueezeMany(hash, SqueezeHash(hash, st), n - i - 1)) ==
             (vs + [SqueezeValue(hash, st)]) + SqueezeMany(hash, SqueezeHash(hash, st), n - i - 1);
      var v := transcript.SqueezeFp(hash);
      vs := vs + [v];
    }
  }

  /** Both sides draw 64 and then 1024 coefficients from a fresh transcript. */
  method DrawCoefficients(hash: Hash) returns (betas: seq<Elem>, alphas: seq<Elem>)
    ensures betas == Betas(hash) && alphas == Alphas(hash)
  {
    hide SqueezeMany, SqueezeState;
    var tr := new Transcript([]);
    betas := SqueezeLoop(hash, tr, 64);
    alphas := SqueezeLoop(hash, tr, NUM_CONSTRAINTS);
  }

  method CombineLoop(polys: seq<Poly>, coeffs: seq<Elem>) returns (sum: Poly)
    requires |polys| == |coeffs|
    ensures sum == Combine(polys, coeffs, |polys|)
  {
    hide PolyAdd, PolyScale;
    sum := [];
    for j := 0 to |polys|
      invariant sum == Combine(polys, coeffs, j)
    {
      sum := AddPolys(sum, PolyScale(polys[j], coeffs[j]));
    }
  }

  // ----- prover -----

  method OpenColumns(cols: seq<Poly>, chi: Elem) returns (opens: seq<ColOpen>)
    requires |cols| == 64
    ensures opens == ColOpensAt(cols, chi)
  {
    hide Mul, Eval, Pow, RootOfUnity, Inv;
    var w := Omega();
    var p4, p5 := FourthAndFifth(Inv(w));
    opens := [];
    for j := 0 to 64
      invariant |opens| == j
      invariant forall i :: 0 <= i < j ==> opens[i] == ColOpenAt(cols[i], chi)
    {
      var at0 := EvalAt(cols[j], chi);
      var at1 := EvalAt(cols[j], Mul(w, chi));
      var at2 := EvalAt(cols[j], Mul(p4, chi));
      var at3 := EvalAt(cols[j], Mul(p5, chi));
      opens := opens + [ColOpen(at0, at1, at2, at3)];
    }
  }

  method DeriveEnhanceChallenge(hash: Hash, tauRoot: Digest, qRoot: Digest, qCoeffs: seq<U64>) returns (chi: Elem)
    ensures chi == EnhanceChallenge(hash, tauRoot, qRoot, qCoeffs)
  {
    hide CoeffBytes;
    var buf := AppendCoeffs(tauRoot + qRoot, qCoeffs);
    chi := New(WordOf(hash(buf)));
  }

  /** The prover after columns and quotients are known. */
  method AssembleProof(hash: Hash, cols: seq<Poly>, quotients: seq<Poly>, numQueries: nat) returns (proof: EnhanceProof)
    requires |cols| == 64 && |quotients| == NUM_CONSTRAINTS
    ensures proof == ProofAt(hash, cols, quotients, numQueries, DerivedFrom(hash, cols, quotients, numQueries))
  {
    hide Pow, RootOfUnity, DomainOf, Eval, Combine, Betas, Alphas, ColOpensAt, EnhanceChallenge, SqueezeMany, FriProve;
    var betas, alphas := DrawCoefficients(hash);
    var tau := CombineLoop(cols, betas);
    var q := CombineLoop(quotients, alphas);
    RollRowInFriDomain();
    var boundaryPt := Power(Omega(), 10);
    var transcript := new Transcript([]);
    var tauFri := Prove(hash, tau, FRI_K - 1, numQueries, transcript, Some(boundaryPt));
    assert tauFri == TauFri(hash, cols, numQueries);
    transcript := new Transcript([]);
    var quotientFri := Prove(hash, q, FRI_K, numQueries, transcript, None);
    assert quotientFri == QuotientFri(hash, quotients, numQueries);
    var chi := DeriveEnhanceChallenge(hash, tauFri.roots[0], quotientFri.roots[0], quotientFri.finalCoeffs);
    var opens := OpenColumns(cols, chi);
    var qAt := EvalAt(q, chi);
    proof := EnhanceProof(tauFri, quotientFri, chi, opens, qAt);
  }

  /** `prove_enhance`, for a seed and its roll. */
  method ProveEnhance(hash: Hash, seed: U64, roll: U64, numQueries: nat)
    returns (proof: EnhanceProof, ghost cols: seq<Poly>, ghost quotients: seq<Poly>)
    requires roll == EnhanceRoll(seed).1
    ensures IsHonestProof(hash, proof, cols, quotients, seed, roll, numQueries)
    ensures hide EnhanceVerify, DomainOf;
            numQueries >= MIN_ENHANCE_QUERIES && proof.challenge !in DomainOf(N_LOG2) ==>
              EnhanceVerify(hash, proof, roll, numQueries) == EnhanceAccept
  {
    hide EnhanceVerify, DomainOf, ColumnsOf, AreQuotients, AreColumns, Descriptors, TraceOf, EnhanceRoll, CellAt,
         ProofAt, DerivedFrom, AllListed, RootOfUnity, Entries;
    DescriptorsListed();
    var trace := BuildTrace(seed, roll);
    var cs := InterpolateColumns(trace, seed, roll);
    EvalColumns(cs, TraceOf(seed, roll));
    var csts := BuildConstraints(cs, Omega());
    var qs := Quotients(csts, cs, seed, roll);
    cols, quotients := cs, qs;
    SatisfyingShape(cs, qs, TraceOf(seed, roll));
    proof := AssembleProof(hash, cs, qs, numQueries);
    if numQueries >= MIN_ENHANCE_QUERIES {
      EnhanceComplete(hash, proof, cs, qs, seed, roll, numQueries);
    }
  }

  // ----- verifier -----

  /** What the constraint check reads. */
  datatype Openings = Openings(alphas: seq<Elem>, t0: WordRow, t1: WordRow, t2: WordRow, t3: WordRow, chi: U64)

  /** The sum of the first n terms. */
  ghost function SumOf(o: Openings, n: nat): Elem
    requires |o.alphas| == NUM_CONSTRAINTS && n <= NUM_CONSTRAINTS
  {
    DescriptorsListed();
    RawWeightedSum(Descriptors(), o.alphas, o.t0, o.t1, o.t2, o.t3, o.chi, n)
  }

  lemma NextTerm(o: Openings, ci: nat, c: Constraint)
    requires |o.alphas| == NUM_CONSTRAINTS && ci < NUM_CONSTRAINTS && Descriptors()[ci] == c
    ensures c.ModC? || c.col < 64
    ensures SumOf(o, ci + 1) == Add(SumOf(o, ci), RawTerm(c, o.alphas[ci], o.t0, o.t1, o.t2, o.t3, o.chi))
  {
    hide Add, Descriptors, RawTerm, Pow;
    DescriptorsListed();
    assert Listed(Descriptors()[ci]);
  }

  /** The closure `zc`. */
  method RowProduct(rows: seq<nat>, chi: U64) returns (z: Elem)
    requires forall i :: 0 <= i < |rows| ==> rows[i] < 16
    ensures z == RawProduct(RowPoints(rows), chi)
  {
    hide MulWords, SubWords, Pow, RootOfUnity;
    z := ONE;
    ghost var points := RowPoints(rows);
    for i := 0 to |rows|
      invariant z == RawProduct(points[..i], chi)
    {
      assert points[..i + 1][..i] == points[..i];
      var wm := Power(Omega(), rows[i]);
      z := MulWords(z, SubWords(chi, wm));
    }
    assert points[..|rows|] == points;
  }

  /** Add alpha C(chi) / Z(chi) to the sum. */
  method AddTerm(o: Openings, ci: nat, rows: seq<nat>, value: U64, rhs: Elem, ghost c: Constraint) returns (rhs': Elem)
    requires |o.alphas| == NUM_CONSTRAINTS && ci < NUM_CONSTRAINTS && Descriptors()[ci] == c
    requires c.ModC? || c.col < 64
    requires rows == RowsOf(c) && forall i :: 0 <= i < |rows| ==> rows[i] < 16
    requires value == RawValue(c, o.t0, o.t1, o.t2, o.t3) && rhs == SumOf(o, ci)
    ensures rhs' == SumOf(o, ci + 1)
  {
    hide Add, Mul, MulWords, Inv, RawProduct, RowPoints, RawValue, Descriptors, SumOf, RowsOf;
    var z := RowProduct(rows, o.chi);
    NextTerm(o, ci, c);
    rhs' := Add(rhs, Mul(MulWords(o.alphas[ci], value), Inv(z)));
  }

  method BitTerms(o: Openings, ci: nat, rows: seq<nat>, n: nat, rhs0: Elem) returns (rhs: Elem)
    requires |o.alphas| == NUM_CONSTRAINTS && n <= 64 && ci + n <= NUM_CONSTRAINTS
    requires forall i :: 0 <= i < |rows| ==> rows[i] < 16
    requires forall j {:trigger BitC(rows, j)} :: 0 <= j < n ==> Descriptors()[ci + j] == BitC(rows, j)
    requires rhs0 == SumOf(o, ci)
    ensures rhs == SumOf(o, ci + n)
  {
    hide Add, MulWords, SubWords, Inv, Descriptors, SumOf;
    rhs := rhs0;
    for j := 0 to n
      invariant rhs == SumOf(o, ci + j)
    {
      var c := SubWords(MulWords(o.t0[j], o.t0[j]), o.t0[j]);
      rhs := AddTerm(o, ci + j, rows, c, rhs, BitC(rows, j));
    }
  }

  method StepTerms(o: Openings, ci: nat, row: nat, kind: nat, rhs0: Elem) returns (rhs: Elem)
    requires |o.alphas| == NUM_CONSTRAINTS && ci + 64 <= NUM_CONSTRAINTS && row < 16
    requires forall j {:trigger StepC(row, kind, j)} :: 0 <= j < 64 ==> Descriptors()[ci + j] == StepC(row, kind, j)
    requires rhs0 == SumOf(o, ci)
    ensures rhs == SumOf(o, ci + 64)
  {
    hide Add, MulWords, SubWords, Inv, Descriptors, SumOf, Xor2Words;
    rhs := rhs0;
    for j := 0 to 64
      invariant rhs == SumOf(o, ci + j)
    {
      var src := if SourceCol(kind, j) >= 0 then o.t0[SourceCol(kind, j)] else 0;
      var c := SubWords(o.t1[j], Xor2Words(o.t0[j], src));
      rhs := AddTerm(o, ci + j, [row], c, rhs, StepC(row, kind, j));
    }
  }

  method RawSumLoop(t: WordRow, n: nat) returns (sum: Elem)
    requires n <= 64
    ensures sum == RawSum(t, n)
  {
    hide Add, Mul, MulWords, Pow, New;
    sum := ZERO;
    var p2 := ONE;
    PowUnfold(New(2), 0);
    for j := 0 to n
      invariant p2 == Pow(New(2), j) && sum == RawSum(t, j)
    {
      sum := Add(sum, MulWords(t[j], p2));
      PowUnfold(New(2), j);
      MulCommutes(New(2), p2);
      p2 := Mul(p2, New(2));
    }
  }

  method ModTerm(o: Openings, ci: nat, rhs0: Elem) returns (rhs: Elem)
    requires |o.alphas| == NUM_CONSTRAINTS && ci < NUM_CONSTRAINTS && Descriptors()[ci] == ModC
    requires rhs0 == SumOf(o, ci)
    ensures rhs == SumOf(o, ci + 1)
  {
    hide Add, MulWords, Sub, Inv, Descriptors, SumOf, RawSum, New;
    var xSum := RawSumLoop(o.t3, 64);
    var rSum := RawSumLoop(o.t2, 10);
    var c := Sub(Sub(xSum, MulWords(o.t0[0], New(1000))), rSum);
    rhs := AddTerm(o, ci, [14], c, rhs0, ModC);
  }

  method ZeroTerms(o: Openings, ci: nat, row: nat, from: nat, rhs0: Elem) returns (rhs: Elem)
    requires |o.alphas| == NUM_CONSTRAINTS && from <= 64 && ci + 64 - from <= NUM_CONSTRAINTS && row < 16
    requires forall j {:trigger ZeroC(row, j)} :: from <= j < 64 ==> Descriptors()[ci + j - from] == ZeroC(row, j)
    requires rhs0 == SumOf(o, ci)
    ensures rhs == SumOf(o, ci + 64 - from)
  {
    hide Add, Mul, Sub, Inv, Descriptors, SumOf;
    rhs := rhs0;
    for j := from to 64
      invariant rhs == SumOf(o, ci + j - from)
    {
      rhs := AddTerm(o, ci + j - from, [row], o.t0[j], rhs, ZeroC(row, j));
    }
  }

  method AllStepTerms(o: Openings, rhs0: Elem) returns (rhs: Elem)
    requires |o.alphas| == NUM_CONSTRAINTS && rhs0 == SumOf(o, 74)
    ensures rhs == SumOf(o, 650)
  {
    hide SumOf, Descriptors, AllStepCs;
    Positions();
    rhs := rhs0;
    for r := 0 to 9
      invariant rhs == SumOf(o, 74 + 64 * r)
    {
      var (row, kind) := STEPS[r];
      forall j | 0 <= j < 64
        ensures Descriptors()[74 + 64 * r + j] == StepC(row, kind, j)
      {
        StepPosition(9, r, j);
        assert Descriptors()[74 + (64 * r + j)] == AllStepCs(9)[64 * r + j];
      }
      rhs := StepTerms(o, 74 + 64 * r, row, kind, rhs);
    }
  }

  /** The constraint check's sum: every group in order. */
  method SumLoop(o: Openings) returns (rhs: Elem)
    requires |o.alphas| == NUM_CONSTRAINTS
    ensures rhs == SumOf(o, NUM_CONSTRAINTS)
  {
    hide SumOf, Descriptors, AllStepCs;
    Positions();
    rhs := ZERO;
    assert rhs == SumOf(o, 0) by { EmptySum(o); }
    rhs := BitTerms(o, 0, WORD_ROWS, 64, rhs);
    rhs := BitTerms(o, 64, [10], 10, rhs);
    rhs := AllStepTerms(o, rhs);
    rhs := ModTerm(o, 650, rhs);
    rhs := ZeroTerms(o, 651, 10, 10, rhs);
    rhs := ZeroTerms(o, 705, 11, 0, rhs);
    rhs := ZeroTerms(o, 769, 12, 0, rhs);
    rhs := ZeroTerms(o, 833, 13, 0, rhs);
    rhs := ZeroTerms(o, 897, 15, 0, rhs);
    rhs := ZeroTerms(o, 961, 14, 1, rhs);
  }

  lemma EmptySum(o: Openings)
    requires |o.alphas| == NUM_CONSTRAINTS
    ensures SumOf(o, 0) == ZERO
  {
    hide Descriptors;
  }

  method ExpectedLoop(betas: seq<Elem>, roll: U64) returns (expected: Elem)
    requires |betas| == 64
    ensures expected == ExpectedTau(betas, roll, 10)
  {
    hide Add, Mul, BitAt, New;
    var rbits := WordBits(roll);
    expected := ZERO;
    for j := 0 to 10
      invariant expected == ExpectedTau(betas, roll, j)
    {
      expected := Add(expected, Mul(betas[j], New(rbits[j])));
    }
  }

  /** `verify_enhance`. */
  method VerifyEnhance(hash: Hash, proof: EnhanceProof, roll: U64, numQueries: nat) returns (v: EnhanceVerdict)
    ensures v == EnhanceVerify(hash, proof, roll, numQueries)
  {
    hide Pow, RootOfUnity, FriVerify, ExpectedTau, Betas, Alphas, RawWeightedSum, Descriptors, OpenRow;
    if numQueries < MIN_ENHANCE_QUERIES {
      return TooFewQueries;
    }
    var boundaryPt := Power(Omega(), 10);
    var betas, alphas := DrawCoefficients(hash);
    var expected := ExpectedLoop(betas, roll);
    var transcript := new Transcript([]);
    var tauVerdict := Verify(hash, proof.tauFri, FRI_K - 1, numQueries, transcript, Claim(boundaryPt, expected));
    if tauVerdict != Accept {
      return TauRejected(tauVerdict);
    }
    transcript := new Transcript([]);
    var quotientVerdict := Verify(hash, proof.quotientFri, FRI_K, numQueries, transcript, None);
    if quotientVerdict != Accept {
      return QuotientRejected(quotientVerdict);
    }
    if |proof.colOpens| < 64 {
      return MissingColumns;
    }
    var os := proof.colOpens;
    var rhs := SumLoop(Openings(alphas, OpenRow(os, 0), OpenRow(os, 1), OpenRow(os, 2), OpenRow(os, 3), proof.challenge));
    if rhs != proof.qAtChi {
      return ConstraintFailed;
    }
    v := EnhanceAccept;
  }

  /** Proving and then verifying succeeds for every seed whenever the challenge of the proof
      lies outside the 16-point domain. */
  method ProveThenVerify(hash: Hash, seed: U64, numQueries: nat)
    returns (v: EnhanceVerdict, proof: EnhanceProof, ghost cols: seq<Poly>, ghost quotients: seq<Poly>)
    requires numQueries >= MIN_ENHANCE_QUERIES
    ensures proof.challenge !in DomainOf(N_LOG2) ==> v == EnhanceAccept
    ensures hide EnhanceRoll, IsHonestProof, DomainOf;
            EnhanceRoll(seed).1 < TWO64 &&
            IsHonestProof(hash, proof, cols, quotients, seed, EnhanceRoll(seed).1, numQueries)
  {
    hide EnhanceVerify, IsHonestProof, EnhanceRoll, DomainOf;
    RollIsWord(seed);
    var roll: U64 := EnhanceRoll(seed).1;
    var honest, cs, qs := ProveEnhance(hash, seed, roll, numQueries);
    v := VerifyEnhance(hash, honest, roll, numQueries);
    proof, cols, quotients := honest, cs, qs;
  }

  lemma RollIsWord(seed: U64)
    ensures EnhanceRoll(seed).1 < 1000
  {
    hide Xorshift;
  }
}
