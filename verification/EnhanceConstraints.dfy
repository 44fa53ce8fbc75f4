/** The 1024 constraints of the enhance circuit in their order, as polynomials and as
    values, and why each polynomial is divided exactly by the vanishing polynomial of its
    rows. */
module EnhanceConstraints {
  import opened Goldilocks
  import opened Powers
  import opened Primality
  import opened RootsOfUnity
  import opened Polynomials
  import opened PolynomialOps
  import opened PolynomialDivision
  import opened Interpolation
  import opened XorshiftAir

  const N_LOG2: nat := 4
  const NUM_CONSTRAINTS: nat := 1024

  function Omega(): Elem {
    RootOfUnity(N_LOG2)
  }

  // ----- the list -----

  const WORD_ROWS: seq<nat> := [0, 1, 2, 3, 4, 5, 6, 7, 8, 9]

  function BitCs(rows: seq<nat>, n: nat): (cs: seq<Constraint>)
    ensures |cs| == n
    ensures forall j :: 0 <= j < n ==> cs[j] == BitC(rows, j)
  {
    seq(n, j requires 0 <= j => BitC(rows, j))
  }

  function StepCs(row: nat, kind: nat): (cs: seq<Constraint>)
    ensures |cs| == 64
    ensures forall j :: 0 <= j < 64 ==> cs[j] == StepC(row, kind, j)
  {
    seq(64, j requires 0 <= j => StepC(row, kind, j))
  }

  /** The step constraints of the first n rows. */
  function AllStepCs(n: nat): (cs: seq<Constraint>)
    requires n <= 9
    ensures |cs| == 64 * n
  {
    if n == 0 then [] else AllStepCs(n - 1) + StepCs(STEPS[n - 1].0, STEPS[n - 1].1)
  }

  function ZeroCs(row: nat, from: nat): (cs: seq<Constraint>)
    requires from <= 64
    ensures |cs| == 64 - from
    ensures forall j :: from <= j < 64 ==> cs[j - from] == ZeroC(row, j)
  {
    seq(64 - from, i requires 0 <= i => ZeroC(row, from + i))
  }

  /** All constraints in the order of `build_constraints`. */
  function Descriptors(): (cs: seq<Constraint>)
    ensures |cs| == NUM_CONSTRAINTS
  {
    BitCs(WORD_ROWS, 64) + BitCs([10], 10) + AllStepCs(9) + [ModC] + ZeroCs(10, 10)
    + ZeroCs(11, 0) + ZeroCs(12, 0) + ZeroCs(13, 0) + ZeroCs(15, 0) + ZeroCs(14, 1)
  }

  ghost predicate AllListed(cs: seq<Constraint>) {
    forall i :: 0 <= i < |cs| ==> Listed(cs[i])
  }

  lemma AllListedConcat(a: seq<Constraint>, b: seq<Constraint>)
    requires AllListed(a) && AllListed(b)
    ensures AllListed(a + b)
  {
    hide Listed;
  }

  lemma {:induction false} StepsListed(n: nat)
    requires n <= 9
    ensures AllListed(AllStepCs(n))
  {
    hide AllListed, StepCs;
    if n == 0 {
      NoneListed();
    } else {
      StepsListed(n - 1);
      OneStepListed(n - 1);
      AllListedConcat(AllStepCs(n - 1), StepCs(STEPS[n - 1].0, STEPS[n - 1].1));
    }
  }

  lemma NoneListed()
    ensures AllListed([])
  {
  }

  lemma OneStepListed(r: nat)
    requires r < 9
    ensures AllListed(StepCs(STEPS[r].0, STEPS[r].1))
  {
    assert STEPS[r].0 == r;
  }

  lemma BitsListed(rows: seq<nat>, n: nat)
    requires (rows == WORD_ROWS && n == 64) || (rows == [10] && n == 10)
    ensures AllListed(BitCs(rows, n))
  {
    forall j | 0 <= j < n
      ensures Listed(BitCs(rows, n)[j])
    {
      BitListed(rows, j);
    }
  }

  lemma BitListed(rows: seq<nat>, j: nat)
    requires (rows == WORD_ROWS && j < 64) || (rows == [10] && j < 10)
    ensures Listed(BitC(rows, j))
  {
    assert forall i :: 0 <= i < |WORD_ROWS| ==> WORD_ROWS[i] == i;
  }

  lemma SingleListed(c: Constraint)
    requires Listed(c)
    ensures AllListed([c])
  {
    hide Listed;
  }

  lemma ZerosListed(row: nat, from: nat)
    requires 10 <= row <= 15 && from <= 64 && (row == 10 ==> from >= 10) && (row == 14 ==> from >= 1)
    ensures AllListed(ZeroCs(row, from))
  {
    forall i | 0 <= i < 64 - from
      ensures Listed(ZeroCs(row, from)[i])
    {
      assert ZeroCs(row, from)[(from + i) - from] == ZeroC(row, from + i);
    }
  }

  lemma DescriptorsListed()
    ensures AllListed(Descriptors())
  {
    hide AllListed, BitCs, ZeroCs, AllStepCs;
    BitsListed(WORD_ROWS, 64);
    BitsListed([10], 10);
    assert Listed(ModC);
    SingleListed(ModC);
    StepsListed(9);
    var s1 := BitCs(WORD_ROWS, 64) + BitCs([10], 10);
    AllListedConcat(BitCs(WORD_ROWS, 64), BitCs([10], 10));
    var s2 := s1 + AllStepCs(9);
    AllListedConcat(s1, AllStepCs(9));
    var s3 := s2 + [ModC];
    AllListedConcat(s2, [ModC]);
    ZerosListed(10, 10);
    var s4 := s3 + ZeroCs(10, 10);
    AllListedConcat(s3, ZeroCs(10, 10));
    ZerosListed(11, 0);
    var s5 := s4 + ZeroCs(11, 0);
    AllListedConcat(s4, ZeroCs(11, 0));
    ZerosListed(12, 0);
    var s6 := s5 + ZeroCs(12, 0);
    AllListedConcat(s5, ZeroCs(12, 0));
    ZerosListed(13, 0);
    var s7 := s6 + ZeroCs(13, 0);
    AllListedConcat(s6, ZeroCs(13, 0));
    ZerosListed(15, 0);
    var s8 := s7 + ZeroCs(15, 0);
    AllListedConcat(s7, ZeroCs(15, 0));
    ZerosListed(14, 1);
    AllListedConcat(s8, ZeroCs(14, 1));
  }

  /** The trace of a seed and its roll satisfies all 1024 constraints. */
  lemma TraceSatisfiesAll(seed: U64, roll: U64, i: nat)
    requires roll == EnhanceRoll(seed).1 && i < NUM_CONSTRAINTS
    ensures Listed(Descriptors()[i]) && Satisfied(Descriptors()[i], TraceOf(seed, roll))
  {
    hide Descriptors, EnhanceRoll, Satisfied, TraceOf;
    DescriptorsListed();
    TraceSatisfies(seed, roll, Descriptors()[i]);
  }

  /** Where each group starts in the list of constraints. */
  lemma Positions()
    ensures forall j {:trigger BitC(WORD_ROWS, j)} :: 0 <= j < 64 ==> Descriptors()[j] == BitC(WORD_ROWS, j)
    ensures forall j {:trigger BitC([10], j)} :: 0 <= j < 10 ==> Descriptors()[64 + j] == BitC([10], j)
    ensures forall i :: 0 <= i < 576 ==> Descriptors()[74 + i] == AllStepCs(9)[i]
    ensures Descriptors()[650] == ModC
    ensures forall j {:trigger ZeroC(10, j)} :: 10 <= j < 64 ==> Descriptors()[641 + j] == ZeroC(10, j)
    ensures forall j {:trigger ZeroC(11, j)} :: 0 <= j < 64 ==> Descriptors()[705 + j] == ZeroC(11, j)
    ensures forall j {:trigger ZeroC(12, j)} :: 0 <= j < 64 ==> Descriptors()[769 + j] == ZeroC(12, j)
    ensures forall j {:trigger ZeroC(13, j)} :: 0 <= j < 64 ==> Descriptors()[833 + j] == ZeroC(13, j)
    ensures forall j {:trigger ZeroC(15, j)} :: 0 <= j < 64 ==> Descriptors()[897 + j] == ZeroC(15, j)
    ensures forall j {:trigger ZeroC(14, j)} :: 1 <= j < 64 ==> Descriptors()[960 + j] == ZeroC(14, j)
  {
    hide AllStepCs, BitCs, ZeroCs;
  }

  lemma {:induction false} StepPosition(n: nat, r: nat, j: nat)
    requires r < n <= 9 && j < 64
    ensures AllStepCs(n)[64 * r + j] == StepC(r, STEPS[r].1, j)
  {
    if r < n - 1 {
      StepPosition(n - 1, r, j);
    } else {
      assert STEPS[r].0 == r;
    }
  }

  /** The bit and step constraints of the word rows, among the 1024. */
  ghost predicate WordPartSatisfied(t: Trace) {
    DescriptorsListed();
    forall i :: 0 <= i < 64 || 74 <= i < 650 ==> Satisfied(Descriptors()[i], t)
  }

  lemma BitSatisfied(t: Trace, j: nat)
    requires j < 64
    ensures WellFormed(BitC(WORD_ROWS, j))
    ensures Satisfied(BitC(WORD_ROWS, j), t) <==> forall r :: 0 <= r <= 9 ==> RowValue(BitC([r], j), t, r) == ZERO
  {
    hide Mul, Sub;
    BitListed(WORD_ROWS, j);
    var c := BitC(WORD_ROWS, j);
    assert forall i :: 0 <= i < 10 ==> WORD_ROWS[i] == i;
    forall r | 0 <= r <= 9
      ensures RowValue(BitC([r], j), t, r) == RowValue(c, t, WORD_ROWS[r])
    {
    }
  }

  lemma StepSatisfied(t: Trace, r: nat, j: nat)
    requires r <= 8 && j < 64
    ensures WellFormed(StepC(r, STEPS[r].1, j))
    ensures Satisfied(StepC(r, STEPS[r].1, j), t) <==> RowValue(StepC(r, STEPS[r].1, j), t, r) == ZERO
  {
    hide RowValue;
    var c := StepC(r, STEPS[r].1, j);
    assert RowsOf(c) == [r];
    assert RowsOf(c)[0] == r;
  }

  lemma WordStepAt(r: nat, j: nat)
    requires r <= 8 && j < 64
    ensures Descriptors()[74 + 64 * r + j] == StepC(r, STEPS[r].1, j)
  {
    hide Descriptors, AllStepCs;
    Positions();
    StepPosition(9, r, j);
    assert Descriptors()[74 + (64 * r + j)] == AllStepCs(9)[64 * r + j];
  }

  lemma WordBitAt(j: nat)
    requires j < 64
    ensures Descriptors()[j] == BitC(WORD_ROWS, j)
  {
    hide Descriptors, AllStepCs;
    Positions();
    assert BitC(WORD_ROWS, j).col == j;
  }

  lemma WordPartIs(t: Trace)
    ensures WordPartSatisfied(t) <==> BitAndStepConstraints(t)
  {
    hide Descriptors, RowValue, Satisfied, WellFormed;
    DescriptorsListed();
    if WordPartSatisfied(t) {
      forall r, j | 0 <= r <= 8 && 0 <= j < 64
        ensures RowValue(StepC(r, STEPS[r].1, j), t, r) == ZERO
      {
        WordStepAt(r, j);
        StepSatisfied(t, r, j);
        assert Satisfied(Descriptors()[74 + 64 * r + j], t);
      }
      forall r, j | 0 <= r <= 9 && 0 <= j < 64
        ensures RowValue(BitC([r], j), t, r) == ZERO
      {
        WordBitAt(j);
        BitSatisfied(t, j);
      }
    }
    if BitAndStepConstraints(t) {
      forall i | 0 <= i < 64 || 74 <= i < 650
        ensures Satisfied(Descriptors()[i], t)
      {
        if i < 64 {
          WordBitAt(i);
          BitSatisfied(t, i);
        } else {
          var r, j := (i - 74) / 64, (i - 74) % 64;
          WordStepAt(r, j);
          StepSatisfied(t, r, j);
        }
      }
    }
  }

  /** AIR exactness over the circuit's own list: its word-bit and step constraints hold iff
      rows 0..9 are the nine successive sub-steps of one 64-bit seed. */
  lemma WordPartExact(t: Trace)
    ensures WordPartSatisfied(t) <==> exists seed: U64 :: HoldsWords(t, seed)
  {
    hide WordPartSatisfied, BitAndStepConstraints, HoldsWords;
    WordPartIs(t);
    AirExact(t);
  }

  // ----- polynomials -----

  /** One nonempty polynomial per column. */
  ghost predicate AreColumns(cols: seq<Poly>) {
    |cols| == 64 && forall j :: 0 <= j < 64 ==> 1 <= |cols[j]| <= 16
  }

  /** The columns at x. */
  function RowAt(cols: seq<Poly>, x: Elem): (r: Row)
    requires |cols| == 64
    ensures forall j :: 0 <= j < 64 ==> r[j] == Eval(cols[j], x)
  {
    seq(64, j requires 0 <= j < 64 => Eval(cols[j], x))
  }

  /** The sum of T_j(s X) 2^j over the first n columns. */
  function PolyWordSum(cols: seq<Poly>, s: Elem, n: nat): Poly
    requires n <= |cols|
  {
    if n == 0 then []
    else PolyAdd(PolyWordSum(cols, s, n - 1), PolyScale(PolyScaleVar(cols[n - 1], s), Pow(New(2), n - 1)))
  }

  function SourcePoly(cols: seq<Poly>, kind: nat, j: nat): Poly
    requires |cols| == 64 && j < 64
  {
    if SourceCol(kind, j) >= 0 then cols[SourceCol(kind, j)] else []
  }

  /** The polynomial of a constraint. */
  function PolyOf(c: Constraint, cols: seq<Poly>, omega: Elem): Poly
    requires AreColumns(cols) && (c.ModC? || c.col < 64)
  {
    match c
    case BitC(_, j) => PolySub(PolyMul(cols[j], cols[j]), cols[j])
    case StepC(_, kind, j) =>
      var src := SourcePoly(cols, kind, j);
      PolySub(PolyScaleVar(cols[j], omega),
              PolySub(PolyAdd(cols[j], src), PolyScale(PolyMul(cols[j], src), New(2))))
    case ModC =>
      PolySub(PolySub(PolyWordSum(cols, Pow(Inv(omega), 5), 64), PolyScale(cols[0], New(1000))),
              PolyWordSum(cols, Pow(Inv(omega), 4), 10))
    case ZeroC(_, j) => cols[j]
  }

  /** The value of a constraint at an arbitrary point. */
  function ValueAt(c: Constraint, cols: seq<Poly>, omega: Elem, x: Elem): Elem
    requires |cols| == 64 && (c.ModC? || c.col < 64)
  {
    ValueOf(c, RowAt(cols, x), RowAt(cols, Mul(omega, x)),
            RowAt(cols, Mul(Pow(Inv(omega), 4), x)), RowAt(cols, Mul(Pow(Inv(omega), 5), x)))
  }

  lemma {:induction false} EvalWordSum(cols: seq<Poly>, s: Elem, n: nat, x: Elem)
    requires |cols| == 64 && n <= 64
    ensures Eval(PolyWordSum(cols, s, n), x) == WordSum(RowAt(cols, Mul(s, x)), n)
    decreases n
  {
    hide Add, Mul, Pow, New, PolyAdd, PolyScale, PolyScaleVar;
    if n > 0 {
      hide Eval;
      EvalWordSum(cols, s, n - 1, x);
      var p := PolyScaleVar(cols[n - 1], s);
      EvalOps(cols[n - 1], [], s, x);
      EvalOps(p, [], Pow(New(2), n - 1), x);
      EvalOps(PolyWordSum(cols, s, n - 1), PolyScale(p, Pow(New(2), n - 1)), ZERO, x);
    }
  }

  /** A constraint polynomial takes the constraint's value. */
  lemma EvalPolyOf(c: Constraint, cols: seq<Poly>, omega: Elem, x: Elem)
    requires AreColumns(cols) && (c.ModC? || c.col < 64)
    ensures Eval(PolyOf(c, cols, omega), x) == ValueAt(c, cols, omega, x)
  {
    hide Add, Mul, Sub, Eval, Pow, New, PolyAdd, PolySub, PolyScale, PolyScaleVar, PolyMul, PolyWordSum, WordSum, Inv;
    match c
    case BitC(_, j) =>
      EvalPolyMul(cols[j], cols[j], x);
      EvalOps(PolyMul(cols[j], cols[j]), cols[j], ZERO, x);
    case StepC(_, kind, j) =>
      EvalStep(cols[j], SourcePoly(cols, kind, j), omega, x);
      EvalNothing();
    case ModC =>
      var xs, rs := PolyWordSum(cols, Pow(Inv(omega), 5), 64), PolyWordSum(cols, Pow(Inv(omega), 4), 10);
      var q := PolyScale(cols[0], New(1000));
      EvalWordSum(cols, Pow(Inv(omega), 5), 64, x);
      EvalWordSum(cols, Pow(Inv(omega), 4), 10, x);
      EvalOps(cols[0], [], New(1000), x);
      EvalOps(xs, q, ZERO, x);
      EvalOps(PolySub(xs, q), rs, ZERO, x);
    case ZeroC(_, j) =>
  }

  lemma EvalStep(t: Poly, src: Poly, omega: Elem, x: Elem)
    requires t != []
    ensures Eval(PolySub(PolyScaleVar(t, omega), PolySub(PolyAdd(t, src), PolyScale(PolyMul(t, src), New(2)))), x)
            == Sub(Eval(t, Mul(omega, x)), Xor2(Eval(t, x), Eval(src, x)))
  {
    hide Add, Mul, Sub, Eval, New, PolyAdd, PolySub, PolyScale, PolyScaleVar, PolyMul;
    var p := PolyMul(t, src);
    var xor := PolySub(PolyAdd(t, src), PolyScale(p, New(2)));
    EvalPolyMul(t, src, x);
    EvalOps(p, [], New(2), x);
    EvalOps(t, src, omega, x);
    EvalOps(PolyAdd(t, src), PolyScale(p, New(2)), ZERO, x);
    EvalOps(PolyScaleVar(t, omega), xor, ZERO, x);
  }

  // ----- rows of the domain -----

  /** Powers of w whose exponents agree modulo 16 agree. */
  lemma RowPoint(e: nat)
    ensures Pow(Omega(), e) == Pow(Omega(), e % 16)
  {
    hide Pow, RootOfUnity, PrimitiveRoot;
    RootIsPrimitive(N_LOG2);
    assert Pow2(N_LOG2) == 16;
    RootOrderExact(Omega(), N_LOG2, e);
  }

  /** w^-1 = w^15. */
  lemma InverseOmega()
    ensures Inv(Omega()) == Pow(Omega(), 15)
  {
    hide Mul, Pow, RootOfUnity, Inv;
    var w := Omega();
    RowPoint(16);
    PowUnfold(w, 0);
    PowUnfold(w, 15);
    OmegaNonzero();
    InverseIsExact(w);
    CancelFactor(w, Inv(w), Pow(w, 15));
  }

  lemma OmegaNonzero()
    ensures Omega() != ZERO
  {
    hide Mul, Pow, RootOfUnity;
    RowPoint(16);
    PowUnfold(Omega(), 0);
    PowUnfold(Omega(), 15);
    MulNeutral(Pow(Omega(), 15));
  }

  /** Shifting a row point by w, w^-4, w^-5 moves to rows m + 1, m - 4, m - 5. */
  lemma ShiftedRows(m: nat)
    requires m < 16
    ensures var w, x := Omega(), Pow(Omega(), m);
            && Mul(w, x) == Pow(w, (m + 1) % 16)
            && Mul(Pow(Inv(w), 4), x) == Pow(w, (m + 12) % 16)
            && Mul(Pow(Inv(w), 5), x) == Pow(w, (m + 11) % 16)
  {
    hide Mul, Pow, RootOfUnity, Inv;
    var w := Omega();
    InverseOmega();
    PowUnfold(w, m);
    RowPoint(m + 1);
    PowMul(w, 15, 4);
    PowAdd(w, 60, m);
    RowPoint(60 + m);
    PowMul(w, 15, 5);
    PowAdd(w, 75, m);
    RowPoint(75 + m);
  }

  /** The columns interpolate the trace. */
  ghost predicate ColumnsOf(cols: seq<Poly>, t: Trace) {
    && AreColumns(cols)
    && forall m, j :: 0 <= m < 16 && 0 <= j < 64 ==> Eval(cols[j], Pow(Omega(), m)) == t[m][j]
  }

  lemma RowAtPoint(cols: seq<Poly>, t: Trace, m: nat)
    requires ColumnsOf(cols, t) && m < 16
    ensures RowAt(cols, Pow(Omega(), m)) == t[m]
  {
    hide Eval, Pow, RootOfUnity;
  }

  /** On a row of the domain the polynomial has the trace's row value. */
  lemma ValueOnRow(c: Constraint, cols: seq<Poly>, t: Trace, m: nat)
    requires ColumnsOf(cols, t) && m < 16 && (c.ModC? || c.col < 64)
    ensures Eval(PolyOf(c, cols, Omega()), Pow(Omega(), m)) == RowValue(c, t, m)
  {
    hide Mul, Eval, Pow, RootOfUnity, Inv, ValueOf, PolyOf, RowAt, ColumnsOf;
    EvalColumns(cols, t);
    EvalPolyOf(c, cols, Omega(), Pow(Omega(), m));
    ShiftedRows(m);
    RowAtPoint(cols, t, m);
    RowAtPoint(cols, t, (m + 1) % 16);
    RowAtPoint(cols, t, (m + 12) % 16);
    RowAtPoint(cols, t, (m + 11) % 16);
  }

  lemma EvalColumns(cols: seq<Poly>, t: Trace)
    requires ColumnsOf(cols, t)
    ensures AreColumns(cols)
  {
  }

  // ----- quotients -----

  /** The domain points of a row list. */
  function RowPoints(rows: seq<nat>): (xs: seq<Elem>)
    ensures |xs| == |rows|
    ensures forall i :: 0 <= i < |xs| ==> xs[i] == Pow(Omega(), rows[i])
  {
    seq(|rows|, i requires 0 <= i < |rows| => Pow(Omega(), rows[i]))
  }

  lemma RowPointsDistinct(rows: seq<nat>)
    requires forall i :: 0 <= i < |rows| ==> rows[i] < 16
    requires forall i, k :: 0 <= i < k < |rows| ==> rows[i] != rows[k]
    ensures Distinct(RowPoints(rows))
  {
    hide Pow, RootOfUnity, PrimitiveRoot;
    RootIsPrimitive(N_LOG2);
    assert Pow2(N_LOG2) == 16;
    forall i, k | 0 <= i < k < |rows|
      ensures RowPoints(rows)[i] != RowPoints(rows)[k]
    {
      DomainDistinct(Omega(), N_LOG2, rows[i], rows[k]);
    }
  }

  /** q is the exact quotient of the constraint by the vanishing polynomial of its rows. */
  ghost predicate IsQuotient(c: Constraint, cols: seq<Poly>, q: Poly)
    requires AreColumns(cols) && (c.ModC? || c.col < 64)
  {
    && |q| <= 64
    && forall x: Elem ::
         Eval(PolyOf(c, cols, Omega()), x) == Mul(Eval(q, x), ProductAt(RowPoints(RowsOf(c)), x))
  }

  lemma QuotientExists(c: Constraint, cols: seq<Poly>, t: Trace, q: Poly, rem: Poly)
    requires ColumnsOf(cols, t) && WellFormed(c) && Satisfied(c, t)
    requires IsDivision(PolyOf(c, cols, Omega()), LinearProduct(RowPoints(RowsOf(c))), q, rem)
    requires |PolyOf(c, cols, Omega())| <= 64
    ensures IsZero(rem) && IsQuotient(c, cols, q)
  {
    hide Mul, Eval, Pow, RootOfUnity, PolyOf, LinearProduct, ProductAt, DivIdentity, RowValue, ColumnsOf;
    EvalColumns(cols, t);
    var rows := RowsOf(c);
    var points := RowPoints(rows);
    var f, z := PolyOf(c, cols, Omega()), LinearProduct(points);
    RowPointsDistinct(rows);
    LinearProductLaws(points, ZERO);
    forall i | 0 <= i < |points|
      ensures Eval(f, points[i]) == ZERO && Eval(z, points[i]) == ZERO
    {
      ValueOnRow(c, cols, t, rows[i]);
      LinearProductLaws(points, points[i]);
      ProductAtZero(points, points[i]);
    }
    forall x: Elem
      ensures Eval(f, x) == Mul(Eval(q, x), ProductAt(points, x))
    {
      RemainderZeroGivesValue(f, z, q, rem, points, x);
      LinearProductLaws(points, x);
    }
    RemainderZeroGivesValue(f, z, q, rem, points, ZERO);
  }

  lemma {:induction false} WordSumLength(cols: seq<Poly>, s: Elem, n: nat)
    requires AreColumns(cols) && n <= 64
    ensures |PolyWordSum(cols, s, n)| <= 16
    decreases n
  {
    hide Add, Mul, Pow, New, PolyAdd;
    if n > 0 {
      WordSumLength(cols, s, n - 1);
      ScaleVarLength(cols[n - 1], s);
      var p := PolyScaleVar(cols[n - 1], s);
      ScaleIsCanonical(p, Pow(New(2), n - 1));
      AddIsCanonical(PolyWordSum(cols, s, n - 1), PolyScale(p, Pow(New(2), n - 1)));
    }
  }

  lemma ScaleVarLength(f: Poly, s: Elem)
    ensures |PolyScaleVar(f, s)| <= Max(1, |f|)
  {
    hide Mul, Trim, Pow;
  }

  lemma NegLength(f: Poly)
    ensures |PolyNeg(f)| <= Max(1, |f|)
  {
    hide Neg, Trim;
  }

  lemma SubLength(f: Poly, g: Poly)
    ensures Canonical(PolySub(f, g)) && |PolySub(f, g)| <= Max(1, Max(|f|, |g|))
  {
    hide PolyNeg, PolyAdd;
    NegLength(g);
    AddIsCanonical(f, PolyNeg(g));
    SubIs(f, g);
  }

  lemma SubIs(f: Poly, g: Poly)
    ensures PolySub(f, g) == PolyAdd(f, PolyNeg(g))
  {
  }

  lemma MulLength(f: Poly, g: Poly)
    requires f != []
    ensures |PolyMul(f, g)| <= Max(1, |f| + |g| - 1)
  {
    hide Trim, Conv;
  }

  /** No constraint polynomial has more than 31 coefficients. */
  lemma PolyOfLength(c: Constraint, cols: seq<Poly>, omega: Elem)
    requires AreColumns(cols) && (c.ModC? || c.col < 64)
    ensures |PolyOf(c, cols, omega)| <= 31
    ensures !c.ZeroC? ==> Canonical(PolyOf(c, cols, omega))
  {
    hide Pow, New, PolyAdd, PolySub, PolyScale, PolyScaleVar, PolyMul, PolyWordSum, Inv;
    match c
    case BitC(_, j) =>
      MulLength(cols[j], cols[j]);
      SubLength(PolyMul(cols[j], cols[j]), cols[j]);
    case StepC(_, kind, j) =>
      var src := SourcePoly(cols, kind, j);
      MulLength(cols[j], src);
      ScaleIsCanonical(PolyMul(cols[j], src), New(2));
      AddIsCanonical(cols[j], src);
      SubLength(PolyAdd(cols[j], src), PolyScale(PolyMul(cols[j], src), New(2)));
      ScaleVarLength(cols[j], omega);
      SubLength(PolyScaleVar(cols[j], omega),
                PolySub(PolyAdd(cols[j], src), PolyScale(PolyMul(cols[j], src), New(2))));
    case ModC =>
      var xs, rs := PolyWordSum(cols, Pow(Inv(omega), 5), 64), PolyWordSum(cols, Pow(Inv(omega), 4), 10);
      WordSumLength(cols, Pow(Inv(omega), 5), 64);
      WordSumLength(cols, Pow(Inv(omega), 4), 10);
      ScaleIsCanonical(cols[0], New(1000));
      SubLength(xs, PolyScale(cols[0], New(1000)));
      SubLength(PolySub(xs, PolyScale(cols[0], New(1000))), rs);
    case ZeroC(_, j) =>
  }
}
