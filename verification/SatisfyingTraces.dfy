/** What the whole constraint system says about a trace.

    Main results: a trace satisfies all 1024 constraints iff it is the trace of some seed and
    some ten-bit roll whose row 14 holds (x - roll) / 1000 in the field.  So the system does
    not tie the roll to the seed; a roll is the seed's iff it is below 1000 and the modulus
    row holds over the integers.  The polynomials of a satisfying trace exist, and their
    proofs are accepted as those of the source's trace are. */
module SatisfyingTraces {
  import opened Goldilocks
  import opened Powers
  import opened Primality
  import opened RootsOfUnity
  import opened Polynomials
  import opened NumberTheoreticTransform
  import opened Interpolation
  import opened Bytes
  import opened Words
  import opened XorshiftAir
  import opened EnhanceConstraints
  import opened EnhanceProtocol

  const ROLLS: nat := 1024

  // ----- the traces -----

  /** The field's (x - roll) / 1000. */
  function FieldQuotient(x: U64, roll: U64): Elem {
    Mul(Sub(New(x), New(roll)), Inv(New(1000)))
  }

  /** The trace of a seed and any roll, with the field's quotient in row 14. */
  function TraceWith(seed: U64, roll: U64): (t: Trace) {
    hide FieldQuotient, TraceOf, WordAt;
    var t := TraceOf(seed, roll);
    t[14 := t[14][0 := FieldQuotient(WordAt(seed, 9), roll)]]
  }

  lemma CellsWith(seed: U64, roll: U64, r: nat, j: nat)
    requires r < 16 && j < 64
    ensures TraceWith(seed, roll)[r][j] ==
            if r <= 9 then BitAt(WordAt(seed, r), j)
            else if r == 10 && j < 10 then BitAt(roll, j)
            else if r == 14 && j == 0 then FieldQuotient(WordAt(seed, 9), roll)
            else ZERO
  {
    hide BitAt, WordAt, FieldQuotient, New;
    assert TraceOf(seed, roll)[r] == RowOf(seed, roll, r);
    NewOfElem(BitAt(roll, j));
    if r <= 9 {
      NewOfElem(BitAt(WordAt(seed, r), j));
    }
  }

  // ----- the modulus row -----

  /** c 1000 = d exactly when c = d / 1000. */
  lemma QuotientInField(c: Elem, d: Elem)
    ensures Mul(c, New(1000)) == d <==> c == Mul(d, Inv(New(1000)))
  {
    hide Mul, Inv;
    var k := New(1000);
    InverseIsExact(k);
    MulAssociates(c, k, Inv(k));
    MulAssociates(d, Inv(k), k);
    MulCommutes(k, Inv(k));
    MulNeutral(c);
    MulNeutral(d);
  }

  lemma BothDifferences(x: Elem, m: Elem, r: Elem)
    ensures Sub(Sub(x, m), r) == ZERO <==> m == Sub(x, r)
  {
    hide Add;
    LinearLaws();
  }

  /** With the bits of x in row 9 and of the roll in row 10, the modulus row fixes its cell. */
  lemma ModRowExact(t: Trace, x: U64, roll: U64)
    requires roll < ROLLS
    requires forall j :: 0 <= j < 64 ==> t[9][j] == BitAt(x, j)
    requires forall j :: 0 <= j < 10 ==> t[10][j] == BitAt(roll, j)
    ensures RowValue(ModC, t, 14) == ZERO <==> t[14][0] == FieldQuotient(x, roll)
  {
    hide BitAt, Mul, Sub, WordSum, BitsOf, FromBits, Inv;
    WordSumOfBits(t[9], x, 64);
    WordSumOfBits(t[10], roll, 10);
    SumOfWords(x, roll);
    BothDifferences(New(x), Mul(t[14][0], New(1000)), New(roll));
    QuotientInField(t[14][0], Sub(New(x), New(roll)));
  }

  lemma SumOfWords(x: U64, roll: U64)
    requires roll < ROLLS
    ensures FromBits(BitsOf(x, 64)) % MODULUS == New(x)
    ensures FromBits(BitsOf(roll, 10)) % MODULUS == New(roll)
  {
    hide Pow2, BitsOf, FromBits;
    Pow2Of64();
    Pow2Of10();
    FromBitsOf(x, 64);
    FromBitsOf(roll, 10);
  }

  // ----- the whole list -----

  ghost predicate AllSatisfied(t: Trace) {
    DescriptorsListed();
    forall i :: 0 <= i < NUM_CONSTRAINTS ==> Satisfied(Descriptors()[i], t)
  }

  /** Where the constraint of a blank cell stands in the list. */
  function BlankPosition(r: nat, j: nat): (i: nat)
    requires BlankCell(r, j)
    ensures i < NUM_CONSTRAINTS
  {
    if r == 10 then 641 + j else if r == 11 then 705 + j else if r == 12 then 769 + j
    else if r == 13 then 833 + j else if r == 14 then 960 + j else 897 + j
  }

  lemma BlankListed(r: nat, j: nat)
    requires BlankCell(r, j)
    ensures Descriptors()[BlankPosition(r, j)] == ZeroC(r, j)
  {
    hide Descriptors;
    Positions();
    assert ZeroC(r, j).row == r;
  }

  lemma RollBitListed(j: nat)
    requires j < 10
    ensures Descriptors()[64 + j] == BitC([10], j)
  {
    hide Descriptors;
    Positions();
    assert BitC([10], j).col == j;
  }

  lemma BlankIsZero(t: Trace, r: nat, j: nat)
    requires BlankCell(r, j) && Satisfied(ZeroC(r, j), t)
    ensures t[r][j] == ZERO
  {
    assert RowsOf(ZeroC(r, j))[0] == r;
  }

  lemma RollCellIsBit(t: Trace, j: nat)
    requires j < 10 && WellFormed(BitC([10], j)) && Satisfied(BitC([10], j), t)
    ensures t[10][j] <= 1
  {
    hide Mul, Sub;
    assert RowsOf(BitC([10], j))[0] == 10;
    BitConstraintExact(t[10][j]);
  }

  lemma ModRowValue(t: Trace)
    requires WellFormed(ModC) && Satisfied(ModC, t)
    ensures RowValue(ModC, t, 14) == ZERO
  {
    hide RowValue;
    assert RowsOf(ModC)[0] == 14;
  }

  /** The list splits into the part about the word rows and the part about the roll. */
  lemma AllSatisfiedIs(t: Trace)
    ensures AllSatisfied(t) <==> BitAndStepConstraints(t) && RollPartHolds(t)
  {
    hide Descriptors, RowValue, Satisfied, WellFormed, BitAndStepConstraints, BlankCell;
    DescriptorsListed();
    if AllSatisfied(t) {
      WordPartIs(t);
      RollPartFollows(t);
    }
    if BitAndStepConstraints(t) && RollPartHolds(t) {
      forall i | 0 <= i < NUM_CONSTRAINTS
        ensures Satisfied(Descriptors()[i], t)
      {
        ListedSatisfied(t, Descriptors()[i]);
      }
    }
  }

  lemma RollPartFollows(t: Trace)
    requires AllSatisfied(t)
    ensures RollPartHolds(t)
  {
    hide Descriptors, RowValue, Satisfied, WellFormed;
    DescriptorsListed();
    forall j | 0 <= j < 10
      ensures t[10][j] <= 1
    {
      RollBitListed(j);
      assert Listed(Descriptors()[64 + j]) && Satisfied(Descriptors()[64 + j], t);
      RollCellIsBit(t, j);
    }
    forall r: nat, j: nat | BlankCell(r, j)
      ensures t[r][j] == ZERO
    {
      BlankListed(r, j);
      assert Listed(Descriptors()[BlankPosition(r, j)]) && Satisfied(Descriptors()[BlankPosition(r, j)], t);
      BlankIsZero(t, r, j);
    }
    Positions();
    assert Listed(Descriptors()[650]) && Satisfied(Descriptors()[650], t);
    ModRowValue(t);
  }

  // ----- the meaning of the list -----

  /** The words of the seed, the bits of the roll and the field's quotient; blanks elsewhere. */
  ghost predicate Holds(t: Trace, seed: U64, roll: U64) {
    && HoldsWords(t, seed)
    && (forall j :: 0 <= j < 10 ==> t[10][j] == BitAt(roll, j))
    && (forall r: nat, j: nat :: BlankCell(r, j) ==> t[r][j] == ZERO)
    && t[14][0] == FieldQuotient(WordAt(seed, 9), roll)
  }

  lemma HoldsIs(t: Trace, seed: U64, roll: U64)
    ensures Holds(t, seed, roll) <==> t == TraceWith(seed, roll)
  {
    hide BitAt, WordAt, FieldQuotient, TraceWith;
    var w := TraceWith(seed, roll);
    forall r: nat, j: nat | r < 16 && j < 64
      ensures Holds(t, seed, roll) ==> t[r][j] == w[r][j]
    {
      CellsWith(seed, roll, r, j);
      assert BlankCell(r, j) || r <= 9 || (r == 10 && j < 10) || (r == 14 && j == 0);
    }
    if Holds(t, seed, roll) {
      assert forall r :: 0 <= r < 16 ==> t[r] == w[r];
    }
    HoldsWith(seed, roll);
  }

  lemma HoldsWith(seed: U64, roll: U64)
    ensures Holds(TraceWith(seed, roll), seed, roll)
  {
    hide BitAt, WordAt, FieldQuotient, TraceWith;
    var w := TraceWith(seed, roll);
    forall r, j | 0 <= r <= 9 && 0 <= j < 64
      ensures w[r][j] == BitAt(WordAt(seed, r), j)
    {
      CellsWith(seed, roll, r, j);
    }
    forall j | 0 <= j < 10
      ensures w[10][j] == BitAt(roll, j)
    {
      CellsWith(seed, roll, 10, j);
    }
    forall r: nat, j: nat | BlankCell(r, j)
      ensures w[r][j] == ZERO
    {
      CellsWith(seed, roll, r, j);
    }
    CellsWith(seed, roll, 14, 0);
  }

  /** The roll written in row 10. */
  function RollOf(row: Row): nat {
    FromBits(row[..10])
  }

  lemma RollRowIsRoll(row: Row)
    requires forall j :: 0 <= j < 10 ==> row[j] <= 1
    ensures RollOf(row) < ROLLS
    ensures forall j :: 0 <= j < 10 ==> row[j] == BitAt(RollOf(row), j)
  {
    hide BitAt, FromBits;
    Pow2Of10();
    var bits: seq<nat> := row[..10];
    assert AreBits(bits);
    FromBitsBound(bits);
    forall j | 0 <= j < 10
      ensures row[j] == BitAt(RollOf(row), j)
    {
      BitOfFromBits(bits, j);
    }
  }

  /** Every seed and every ten-bit roll have a satisfying trace. */
  lemma AnyRollSatisfies(seed: U64, roll: U64)
    requires roll < ROLLS
    ensures AllSatisfied(TraceWith(seed, roll))
    ensures HoldsWords(TraceWith(seed, roll), seed)
    ensures forall j :: 0 <= j < 10 ==> TraceWith(seed, roll)[10][j] == BitAt(roll, j)
  {
    hide BitAt, WordAt, TraceWith, RowValue, FieldQuotient, AllSatisfied, BitAndStepConstraints;
    var t := TraceWith(seed, roll);
    HoldsIs(t, seed, roll);
    WordsSatisfy(t, seed);
    ModRowExact(t, WordAt(seed, 9), roll);
    AllSatisfiedIs(t);
  }

  /** A trace satisfies all 1024 constraints iff it belongs to some seed and some ten-bit roll. */
  lemma AllSatisfiedExact(t: Trace)
    ensures AllSatisfied(t) <==> exists seed: U64, roll: U64 :: roll < ROLLS && t == TraceWith(seed, roll)
  {
    hide BitAt, WordAt, TraceWith, RowValue, FieldQuotient, AllSatisfied, BitAndStepConstraints, RollOf;
    AllSatisfiedIs(t);
    if AllSatisfied(t) {
      AirExact(t);
      var seed: U64 :| HoldsWords(t, seed);
      RollRowIsRoll(t[10]);
      var roll: U64 := RollOf(t[10]);
      ModRowExact(t, WordAt(seed, 9), roll);
      HoldsIs(t, seed, roll);
    }
    forall seed: U64, roll: U64 | roll < ROLLS && t == TraceWith(seed, roll)
      ensures AllSatisfied(t)
    {
      AnyRollSatisfies(seed, roll);
    }
  }

  // ----- when the roll is the seed's -----

  lemma QuotientUnique(c: Elem, x: U64, roll: U64)
    requires c * 1000 + roll == x
    ensures c == FieldQuotient(x, roll)
  {
    hide Mul, Sub, Inv, Add;
    MulIsModular(c, New(1000));
    ModAdd(c * 1000, roll);
    AddIsModular(Mul(c, New(1000)), New(roll));
    SubUndoesAdd(Mul(c, New(1000)), New(roll));
    QuotientInField(c, Sub(New(x), New(roll)));
  }

  /** The roll of a satisfying trace is the seed's iff it is below 1000 and the modulus row
      holds over the integers. */
  lemma RollTiedExact(seed: U64, roll: U64)
    requires roll < ROLLS
    ensures roll == EnhanceRoll(seed).1 <==>
            roll < 1000 && 1000 * TraceWith(seed, roll)[14][0] + roll == EnhanceRoll(seed).0
  {
    hide WordAt, FieldQuotient, EnhanceRoll, TraceWith;
    var x := WordAt(seed, 9);
    LastWordIsRollWord(seed);
    CellsWith(seed, roll, 14, 0);
    QuotientOrRemainder(x, roll);
    RollIsRemainder(seed);
  }

  lemma RollIsRemainder(seed: U64)
    ensures EnhanceRoll(seed).1 == EnhanceRoll(seed).0 % 1000
  {
    hide Xorshift;
  }

  lemma QuotientOrRemainder(x: U64, roll: U64)
    ensures roll == x % 1000 <==> roll < 1000 && 1000 * FieldQuotient(x, roll) + roll == x
  {
    hide FieldQuotient;
    if roll == x % 1000 {
      QuotientUnique(x / 1000, x, roll);
    }
  }

  /** With the seed's own roll it is the source's trace. */
  lemma HonestTraceWith(seed: U64, roll: U64)
    requires roll == EnhanceRoll(seed).1
    ensures TraceWith(seed, roll) == TraceOf(seed, roll)
  {
    hide WordAt, FieldQuotient, EnhanceRoll, New, QuotientCell;
    var x := WordAt(seed, 9);
    LastWordIsRollWord(seed);
    RollIsRemainder(seed);
    QuotientCellIs(x, roll);
    QuotientUnique(x / 1000, x, roll);
    assert TraceOf(seed, roll)[14] == RowOf(seed, roll, 14);
    assert TraceOf(seed, roll)[14][0] == FieldQuotient(x, roll);
    assert TraceOf(seed, roll)[14][0 := FieldQuotient(x, roll)] == TraceOf(seed, roll)[14];
  }

  /** So for every seed some satisfying trace shows a roll below 1000 that is not the seed's. */
  lemma RollNotTied(seed: U64) returns (roll: U64)
    ensures roll < 1000 && roll != EnhanceRoll(seed).1
    ensures AllSatisfied(TraceWith(seed, roll)) && HoldsWords(TraceWith(seed, roll), seed)
  {
    hide EnhanceRoll, AllSatisfied, TraceWith, HoldsWords;
    roll := if EnhanceRoll(seed).1 == 0 then 1 else 0;
    AnyRollSatisfies(seed, roll);
  }

  // ----- polynomials of a satisfying trace -----

  function Column(t: Trace, j: nat): (ys: seq<Elem>)
    requires j < 64
    ensures |ys| == 16
    ensures forall m :: 0 <= m < 16 ==> ys[m] == t[m][j]
  {
    seq(16, m requires 0 <= m < 16 => t[m][j])
  }

  lemma ColumnExists(t: Trace, j: nat) returns (p: Poly)
    requires j < 64
    ensures 1 <= |p| <= 16
    ensures forall m :: 0 <= m < 16 ==> Eval(p, Pow(Omega(), m)) == t[m][j]
  {
    hide Eval, Pow, RootOfUnity, Trim, InverseTransform;
    assert Pow2(N_LOG2) == 16;
    p := Trim(InverseTransform(Column(t, j), N_LOG2));
    InverseTransformInterpolates(Column(t, j), N_LOG2);
    forall m | 0 <= m < 16
      ensures Eval(p, Pow(Omega(), m)) == t[m][j]
    {
      assert DomainOf(N_LOG2)[m] == Pow(Omega(), m);
    }
  }

  lemma ColumnsExist(t: Trace) returns (cols: seq<Poly>)
    ensures ColumnsOf(cols, t)
  {
    hide Eval, Pow, RootOfUnity;
    cols := [];
    for j := 0 to 64
      invariant |cols| == j
      invariant forall i :: 0 <= i < j ==> 1 <= |cols[i]| <= 16
      invariant forall m, i :: 0 <= m < 16 && 0 <= i < j ==> Eval(cols[i], Pow(Omega(), m)) == t[m][i]
    {
      var p := ColumnExists(t, j);
      cols := cols + [p];
    }
  }

  lemma OneQuotient(c: Constraint, cols: seq<Poly>, t: Trace) returns (q: Poly)
    requires ColumnsOf(cols, t) && Listed(c) && Satisfied(c, t)
    ensures AreColumns(cols) && IsQuotient(c, cols, q)
  {
    hide Eval, Pow, RootOfUnity, PolyOf, ProductAt, RowValue, ColumnsOf, RowsOf;
    EvalColumns(cols, t);
    var points := RowPoints(RowsOf(c));
    RowPointsDistinct(RowsOf(c));
    forall i | 0 <= i < |points|
      ensures Eval(PolyOf(c, cols, Omega()), points[i]) == ZERO
    {
      ValueOnRow(c, cols, t, RowsOf(c)[i]);
    }
    PolyOfLength(c, cols, Omega());
    q := RootsDivide(PolyOf(c, cols, Omega()), points);
  }

  lemma QuotientsExist(cols: seq<Poly>, t: Trace) returns (quotients: seq<Poly>)
    requires ColumnsOf(cols, t) && AllSatisfied(t)
    ensures AreColumns(cols) && AllListed(Descriptors()) && AreQuotients(Descriptors(), cols, quotients)
  {
    hide ColumnsOf, Descriptors, Satisfied, IsQuotient, AreColumns;
    EvalColumns(cols, t);
    DescriptorsListed();
    quotients := [];
    for i := 0 to NUM_CONSTRAINTS
      invariant |quotients| == i
      invariant forall k :: 0 <= k < i ==> IsQuotient(Descriptors()[k], cols, quotients[k])
    {
      var q := OneQuotient(Descriptors()[i], cols, t);
      quotients := quotients + [q];
    }
  }

  lemma QuotientGivesZeros(c: Constraint, cols: seq<Poly>, t: Trace, q: Poly)
    requires ColumnsOf(cols, t) && Listed(c) && AreColumns(cols) && IsQuotient(c, cols, q)
    ensures Satisfied(c, t)
  {
    hide Eval, Pow, Mul, RootOfUnity, PolyOf, ProductAt, RowValue, ColumnsOf, RowsOf;
    var points := RowPoints(RowsOf(c));
    forall i | 0 <= i < |points|
      ensures RowValue(c, t, RowsOf(c)[i]) == ZERO
    {
      ValueOnRow(c, cols, t, RowsOf(c)[i]);
      ProductAtZero(points, points[i]);
      MulNeutral(Eval(q, points[i]));
    }
  }

  /** Columns with exact quotients exist exactly for the satisfying traces. */
  lemma PolynomialsExact(t: Trace, roll: U64)
    ensures (exists cols: seq<Poly>, quotients: seq<Poly> :: AreSatisfying(cols, quotients, t, roll)) <==>
            AllSatisfied(t) && ShowsRoll(t, roll)
  {
    hide ColumnsOf, Descriptors, WellFormed, Satisfied, IsQuotient, AreColumns, ShowsRoll;
    DescriptorsListed();
    if AllSatisfied(t) && ShowsRoll(t, roll) {
      var cols := ColumnsExist(t);
      var quotients := QuotientsExist(cols, t);
      assert AreSatisfying(cols, quotients, t, roll);
    }
    forall cols: seq<Poly>, quotients: seq<Poly> | AreSatisfying(cols, quotients, t, roll)
      ensures AllSatisfied(t)
    {
      EvalColumns(cols, t);
      forall i | 0 <= i < NUM_CONSTRAINTS
        ensures Satisfied(Descriptors()[i], t)
      {
        QuotientGivesZeros(Descriptors()[i], cols, t, quotients[i]);
      }
    }
  }

  lemma ShowsRollWith(seed: U64, roll: U64)
    ensures ShowsRoll(TraceWith(seed, roll), roll)
  {
    hide ShowsRoll, FieldQuotient, WordAt;
    HonestTraceShows(seed, roll);
    assert TraceWith(seed, roll)[10] == TraceOf(seed, roll)[10];
    SameRollRow(TraceWith(seed, roll), TraceOf(seed, roll), roll);
  }

  lemma SameRollRow(t: Trace, u: Trace, roll: U64)
    requires t[10] == u[10] && ShowsRoll(u, roll)
    ensures ShowsRoll(t, roll)
  {
  }

  /** For every seed and every ten-bit roll there are columns and exact quotients whose proof,
      with at least 16 queries, is accepted for that roll at every challenge outside the
      16-point domain, derived or not, whatever the hash. */
  lemma AnyRollAccepted(seed: U64, roll: U64) returns (cols: seq<Poly>, quotients: seq<Poly>)
    requires roll < ROLLS
    ensures |cols| == 64 && |quotients| == NUM_CONSTRAINTS
    ensures AreSatisfying(cols, quotients, TraceWith(seed, roll), roll)
    ensures hide EnhanceVerify, ProofAt, DomainOf;
            forall hash: Hash, numQueries: nat, chi: Elem {:trigger ProofAt(hash, cols, quotients, numQueries, chi)} ::
              numQueries >= MIN_ENHANCE_QUERIES && chi !in DomainOf(N_LOG2) ==>
                EnhanceVerify(hash, ProofAt(hash, cols, quotients, numQueries, chi), roll, numQueries) == EnhanceAccept
  {
    hide EnhanceVerify, ProofAt, DomainOf, AreSatisfying, TraceWith, AllSatisfied, ShowsRoll, Descriptors;
    var t := TraceWith(seed, roll);
    AnyRollSatisfies(seed, roll);
    ShowsRollWith(seed, roll);
    PolynomialsExact(t, roll);
    cols, quotients :| AreSatisfying(cols, quotients, t, roll);
    SatisfyingCounts(cols, quotients, t, roll);
    forall hash: Hash, numQueries: nat, chi: Elem |
      numQueries >= MIN_ENHANCE_QUERIES && chi !in DomainOf(N_LOG2)
      ensures EnhanceVerify(hash, ProofAt(hash, cols, quotients, numQueries, chi), roll, numQueries) == EnhanceAccept
    {
      AnyChallengeExact(hash, cols, quotients, t, roll, numQueries, chi);
    }
  }

  lemma SatisfyingCounts(cols: seq<Poly>, quotients: seq<Poly>, t: Trace, roll: U64)
    requires AreSatisfying(cols, quotients, t, roll)
    ensures |cols| == 64 && |quotients| == NUM_CONSTRAINTS
  {
    DescriptorsListed();
    SatisfyingShape(cols, quotients, t);
  }
}
