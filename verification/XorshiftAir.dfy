/** The xorshift computation, its trace, and the constraint system over traces.

    Main results: a trace satisfies the bit and step constraints iff its first ten rows are
    the successive xorshift words of one 64-bit seed, and the trace of a seed and its roll
    satisfies every constraint. */
module XorshiftAir {
  import opened Goldilocks
  import opened Powers
  import opened Primality
  import opened RootsOfUnity
  import opened Words

  // ----- the computation -----

  /** `xorshift_sub`: kind 0 is << 13, kind 1 is >> 7, otherwise << 17. */
  function XorshiftSub(x: U64, kind: nat): (r: U64) {
    SubBound(x, kind);
    if kind == 0 then Xor(x, Shl(x, 13))
    else if kind == 1 then Xor(x, Shr(x, 7))
    else Xor(x, Shl(x, 17))
  }

  lemma SubBound(x: U64, kind: nat)
    ensures Shr(x, 7) < TWO64
    ensures Xor(x, Shl(x, 13)) < TWO64 && Xor(x, Shr(x, 7)) < TWO64 && Xor(x, Shl(x, 17)) < TWO64
  {
    hide Xor, Shr, Shl, Pow2;
    Pow2Of64();
    ShrShrinks(x, 7);
    XorBound(x, Shl(x, 13), 64);
    XorBound(x, Shr(x, 7), 64);
    XorBound(x, Shl(x, 17), 64);
  }

  /** `xorshift`: the three sub-steps. */
  function Xorshift(x: U64): U64 {
    XorshiftSub(XorshiftSub(XorshiftSub(x, 0), 1), 2)
  }

  /** `enhance_roll`. */
  function EnhanceRoll(seed: U64): (U64, nat) {
    var x := Xorshift(Xorshift(Xorshift(seed)));
    (x, x % 1000)
  }

  /** The kind of sub-step i: the table STEPS lists (row i, kind i mod 3). */
  const STEPS: seq<(nat, nat)> := [
    (0, 0), (1, 1), (2, 2),
    (3, 0), (4, 1), (5, 2),
    (6, 0), (7, 1), (8, 2)
  ]

  /** The word after i sub-steps. */
  function WordAt(seed: U64, i: nat): U64
    requires i <= 9
  {
    if i == 0 then seed else XorshiftSub(WordAt(seed, i - 1), STEPS[i - 1].1)
  }

  lemma LastWordIsRollWord(seed: U64)
    ensures WordAt(seed, 9) == EnhanceRoll(seed).0
  {
    hide WordAt, Xorshift, XorshiftSub;
    ThreeSteps(seed, 0);
    ThreeSteps(seed, 3);
    ThreeSteps(seed, 6);
    WordStart(seed);
  }

  lemma WordStart(seed: U64)
    ensures WordAt(seed, 0) == seed
  {
  }

  lemma WordStep(seed: U64, r: nat)
    requires r <= 8
    ensures WordAt(seed, r + 1) == XorshiftSub(WordAt(seed, r), STEPS[r].1)
  {
    hide XorshiftSub;
  }

  lemma ThreeSteps(seed: U64, r: nat)
    requires r in {0, 3, 6}
    ensures WordAt(seed, r + 3) == Xorshift(WordAt(seed, r))
  {
    hide WordAt, XorshiftSub;
    WordStep(seed, r);
    WordStep(seed, r + 1);
    WordStep(seed, r + 2);
  }

  /** The column read together with column j, if it exists. */
  function SourceCol(kind: nat, j: nat): (s: int)
    requires j < 64
    ensures -1 <= s < 64
  {
    if kind == 0 then (if j >= 13 then j - 13 else -1)
    else if kind == 1 then (if j + 7 < 64 then j + 7 else -1)
    else (if j >= 17 then j - 17 else -1)
  }

  function SourceBit(x: U64, kind: nat, j: nat): (b: nat)
    requires j < 64
    ensures b <= 1
  {
    if SourceCol(kind, j) >= 0 then BitAt(x, SourceCol(kind, j)) else 0
  }

  /** A sub-step is the exclusive or of two columns. */
  lemma BitOfSub(x: U64, kind: nat, j: nat)
    requires j < 64
    ensures BitAt(XorshiftSub(x, kind), j) == (BitAt(x, j) + SourceBit(x, kind, j)) % 2
  {
    hide BitAt, Xor, Shr, Shl;
    SubBound(x, kind);
    if kind == 0 {
      BitOfXor(x, Shl(x, 13), j);
      BitOfShl(x, 13, j);
    } else if kind == 1 {
      BitOfXor(x, Shr(x, 7), j);
      BitOfShr(x, 7, j);
    } else {
      BitOfXor(x, Shl(x, 17), j);
      BitOfShl(x, 17, j);
    }
  }

  /** The exclusive or of bit j with bit j + up - down of the word, where there is one. */
  function MixedBit(x: U64, j: nat, up: nat, down: nat): nat
    requires j < 64
  {
    (BitAt(x, j) + if down <= j + up < 64 + down then BitAt(x, j + up - down) else 0) % 2
  }

  /** One round, bit by bit: x ^ x << 13, then ^ >> 7, then ^ << 17. */
  lemma XorshiftBits(x: U64) returns (a: U64, b: U64)
    ensures forall j :: 0 <= j < 64 ==> BitAt(a, j) == MixedBit(x, j, 0, 13)
    ensures forall j :: 0 <= j < 64 ==> BitAt(b, j) == MixedBit(a, j, 7, 0)
    ensures forall j :: 0 <= j < 64 ==> BitAt(Xorshift(x), j) == MixedBit(b, j, 0, 17)
  {
    hide BitAt, XorshiftSub;
    a := XorshiftSub(x, 0);
    b := XorshiftSub(a, 1);
    forall j | 0 <= j < 64
      ensures BitAt(a, j) == MixedBit(x, j, 0, 13) && BitAt(b, j) == MixedBit(a, j, 7, 0)
      ensures BitAt(Xorshift(x), j) == MixedBit(b, j, 0, 17)
    {
      BitOfSub(x, 0, j);
      BitOfSub(a, 1, j);
      BitOfSub(b, 2, j);
    }
  }

  // ----- traces -----

  type Row = r: seq<Elem> | |r| == 64 witness ZeroRow()
  type Trace = t: seq<Row> | |t| == 16 witness Repeated(ZeroRow(), 16)

  function ZeroRow(): (r: seq<Elem>)
    ensures |r| == 64
  {
    seq(64, _ => ZERO)
  }

  function Repeated(row: Row, n: nat): (t: seq<Row>)
    ensures |t| == n
    ensures forall i :: 0 <= i < n ==> t[i] == row
  {
    if n == 0 then [] else Repeated(row, n - 1) + [row]
  }

  /** `x.saturating_sub(roll) / 1000`. */
  function QuotientCell(x: U64, roll: U64): (q: U64)
    ensures x < roll ==> q == 0
    ensures x >= roll ==> 1000 * q <= x - roll < 1000 * q + 1000
  {
    (if x >= roll then x - roll else 0) / 1000
  }

  /** The cell in row r and column j. */
  function CellAt(seed: U64, roll: U64, r: nat, j: nat): Elem
    requires r < 16 && j < 64
  {
    if r <= 9 then New(BitAt(WordAt(seed, r), j))
    else if r == 10 && j < 10 then New(BitAt(roll, j))
    else if r == 14 && j == 0 then New(QuotientCell(WordAt(seed, 9), roll))
    else ZERO
  }

  function RowOf(seed: U64, roll: U64, r: nat): (row: Row)
    requires r < 16
    ensures forall j :: 0 <= j < 64 ==> row[j] == CellAt(seed, roll, r, j)
  {
    seq(64, j requires 0 <= j < 64 => CellAt(seed, roll, r, j))
  }

  function TraceOf(seed: U64, roll: U64): (t: Trace)
    ensures forall r :: 0 <= r < 16 ==> t[r] == RowOf(seed, roll, r)
  {
    seq(16, r requires 0 <= r < 16 => RowOf(seed, roll, r))
  }

  // ----- constraints -----

  datatype Constraint =
    | BitC(rows: seq<nat>, col: nat)
    | StepC(row: nat, kind: nat, col: nat)
    | ModC
    | ZeroC(row: nat, col: nat)

  ghost predicate WellFormed(c: Constraint) {
    && (forall i :: 0 <= i < |RowsOf(c)| ==> RowsOf(c)[i] < 16)
    && 1 <= |RowsOf(c)| <= 10
    && (forall i, k :: 0 <= i < k < |RowsOf(c)| ==> RowsOf(c)[i] != RowsOf(c)[k])
    && (c.ModC? || c.col < 64)
    && (c.StepC? ==> c.row <= 8 && c.kind == STEPS[c.row].1)
  }

  function RowsOf(c: Constraint): seq<nat> {
    match c
    case BitC(rows, _) => rows
    case StepC(row, _, _) => [row]
    case ModC => [14]
    case ZeroC(row, _) => [row]
  }

  /** The field form of exclusive or: a + b - 2ab. */
  function Xor2(a: Elem, b: Elem): Elem {
    Sub(Add(a, b), Mul(Mul(a, b), New(2)))
  }

  /** The sum of t[j] 2^j over the first n columns. */
  function WordSum(t: Row, n: nat): Elem
    requires n <= 64
  {
    if n == 0 then ZERO else Add(WordSum(t, n - 1), Mul(t[n - 1], Pow(New(2), n - 1)))
  }

  /** The value of a constraint, given the columns at x, w x, w^-4 x and w^-5 x. */
  function ValueOf(c: Constraint, t0: Row, t1: Row, t2: Row, t3: Row): Elem
    requires c.ModC? || c.col < 64
  {
    match c
    case BitC(_, j) => Sub(Mul(t0[j], t0[j]), t0[j])
    case StepC(_, kind, j) =>
      Sub(t1[j], Xor2(t0[j], if SourceCol(kind, j) >= 0 then t0[SourceCol(kind, j)] else ZERO))
    case ModC => Sub(Sub(WordSum(t3, 64), Mul(t0[0], New(1000))), WordSum(t2, 10))
    case ZeroC(_, j) => t0[j]
  }

  /** The value on row m of a trace; rows wrap around the 16-point domain. */
  function RowValue(c: Constraint, t: Trace, m: nat): Elem
    requires m < 16 && (c.ModC? || c.col < 64)
  {
    ValueOf(c, t[m], t[(m + 1) % 16], t[(m + 12) % 16], t[(m + 11) % 16])
  }

  ghost predicate Satisfied(c: Constraint, t: Trace)
    requires WellFormed(c)
  {
    forall i :: 0 <= i < |RowsOf(c)| ==> RowValue(c, t, RowsOf(c)[i]) == ZERO
  }

  // ----- bits in the field -----

  /** b^2 = b has only the solutions 0 and 1. */
  lemma BitConstraintExact(b: Elem)
    ensures Sub(Mul(b, b), b) == ZERO <==> b == 0 || b == 1
  {
    hide Mul;
    MulNeutral(b);
    MulSub(b, b, ONE);
    if Sub(Mul(b, b), b) == ZERO && b != ZERO {
      MulCommutes(b, Sub(b, ONE));
      NoZeroDivisors(b, Sub(b, ONE));
    }
    MulNeutral(ONE);
  }

  /** On bits, a + b - 2ab is the parity of a + b. */
  lemma Xor2OfBits(a: Elem, b: Elem)
    requires a <= 1 && b <= 1
    ensures Xor2(a, b) == (a + b) % 2
  {
    hide Mul;
    MulNeutral(a);
    MulNeutral(b);
    MulNeutral(New(2));
  }

  // ----- exactness of the bit and step constraints -----

  /** The first ten rows hold the bits of the successive words. */
  ghost predicate HoldsWords(t: Trace, seed: U64) {
    forall r, j :: 0 <= r <= 9 && 0 <= j < 64 ==> t[r][j] == BitAt(WordAt(seed, r), j)
  }

  /** The bit constraints of rows 0..9 and the nine step constraints, for every column. */
  ghost predicate BitAndStepConstraints(t: Trace) {
    && (forall r, j :: 0 <= r <= 9 && 0 <= j < 64 ==> RowValue(BitC([r], j), t, r) == ZERO)
    && (forall r, j :: 0 <= r <= 8 && 0 <= j < 64 ==> RowValue(StepC(r, STEPS[r].1, j), t, r) == ZERO)
  }

  /** On a row of bits, a step constraint says that the next cell is the bit of the next word. */
  lemma StepConstraintExact(t: Trace, r: nat, j: nat, x: U64)
    requires r <= 8 && j < 64
    requires forall i :: 0 <= i < 64 ==> t[r][i] == BitAt(x, i)
    ensures RowValue(StepC(r, STEPS[r].1, j), t, r) == ZERO <==>
            t[r + 1][j] == BitAt(XorshiftSub(x, STEPS[r].1), j)
  {
    hide BitAt, XorshiftSub, Xor2, Mul, Add, Sub;
    var kind := STEPS[r].1;
    BitOfSub(x, kind, j);
    var a, b: Elem := t[r][j], SourceBit(x, kind, j);
    Xor2OfBits(a, b);
    assert (r + 1) % 16 == r + 1;
    SubZero(t[r + 1][j], Xor2(a, b));
  }

  lemma WordsSatisfy(t: Trace, seed: U64)
    requires HoldsWords(t, seed)
    ensures BitAndStepConstraints(t)
  {
    hide BitAt, XorshiftSub, Xor2, Mul, Add, Sub;
    forall r, j | 0 <= r <= 9 && 0 <= j < 64
      ensures RowValue(BitC([r], j), t, r) == ZERO
    {
      assert t[r][j] == BitAt(WordAt(seed, r), j);
      BitConstraintExact(t[r][j]);
    }
    forall r, j | 0 <= r <= 8 && 0 <= j < 64
      ensures RowValue(StepC(r, STEPS[r].1, j), t, r) == ZERO
    {
      StepConstraintExact(t, r, j, WordAt(seed, r));
      assert t[r + 1][j] == BitAt(WordAt(seed, r + 1), j);
    }
  }

  lemma {:induction false} RowsFollow(t: Trace, seed: U64, r: nat)
    requires r <= 9 && BitAndStepConstraints(t)
    requires forall j :: 0 <= j < 64 ==> t[0][j] == BitAt(seed, j)
    ensures forall j :: 0 <= j < 64 ==> t[r][j] == BitAt(WordAt(seed, r), j)
  {
    hide BitAt, XorshiftSub, RowValue;
    if r > 0 {
      RowsFollow(t, seed, r - 1);
      forall j | 0 <= j < 64
        ensures t[r][j] == BitAt(WordAt(seed, r), j)
      {
        StepConstraintExact(t, r - 1, j, WordAt(seed, r - 1));
      }
    }
  }

  /** The seed written in the first row. */
  function SeedOf(row: Row): nat {
    FromBits(row)
  }

  lemma FirstRowIsSeed(row: Row)
    requires forall j :: 0 <= j < 64 ==> row[j] <= 1
    ensures SeedOf(row) < TWO64
    ensures forall j :: 0 <= j < 64 ==> row[j] == BitAt(SeedOf(row), j)
  {
    hide BitAt, FromBits;
    Pow2Of64();
    var bits: seq<nat> := row;
    assert AreBits(bits);
    FromBitsBound(bits);
    forall j | 0 <= j < 64
      ensures row[j] == BitAt(SeedOf(row), j)
    {
      BitOfFromBits(bits, j);
    }
  }

  /** AIR exactness: the bit and step constraints hold iff rows 0..9 are the bits of the
      nine successive xorshift sub-steps of one seed, the one written in row 0. */
  lemma AirExact(t: Trace)
    ensures BitAndStepConstraints(t) <==> exists seed: U64 :: HoldsWords(t, seed)
  {
    hide BitAt, WordAt, RowValue, SeedOf;
    if BitAndStepConstraints(t) {
      forall j | 0 <= j < 64
        ensures t[0][j] <= 1
      {
        BitCellIsBit(t, 0, j);
      }
      FirstRowIsSeed(t[0]);
      var seed: U64 := SeedOf(t[0]);
      forall r, j | 0 <= r <= 9 && 0 <= j < 64
        ensures t[r][j] == BitAt(WordAt(seed, r), j)
      {
        RowsFollow(t, seed, r);
      }
      assert HoldsWords(t, seed);
    }
    forall seed: U64 | HoldsWords(t, seed)
      ensures BitAndStepConstraints(t)
    {
      WordsSatisfy(t, seed);
    }
  }

  lemma BitCellIsBit(t: Trace, r: nat, j: nat)
    requires r <= 9 && j < 64 && RowValue(BitC([r], j), t, r) == ZERO
    ensures t[r][j] <= 1
  {
    hide Mul, Sub;
    BitConstraintExact(t[r][j]);
  }

  // ----- the modulus row -----

  /** A field sum of bits is the number they write, reduced. */
  lemma {:induction false} WordSumOfBits(t: Row, x: nat, n: nat)
    requires n <= 64
    requires forall j :: 0 <= j < n ==> t[j] == BitAt(x, j)
    ensures WordSum(t, n) == FromBits(BitsOf(x, n)) % MODULUS
    decreases n
  {
    hide BitAt, Mul, Add, New, FromBits, Pow2;
    if n == 0 {
      FromNoBits(x);
    } else {
      WordSumOfBits(t, x, n - 1);
      var b, f := BitAt(x, n - 1), FromBits(BitsOf(x, n - 1));
      assert BitsOf(x, n) == BitsOf(x, n - 1) + [b];
      FromBitsAppend(BitsOf(x, n - 1), b);
      PowOfTwo(n - 1);
      AddScaledBit(f, b, Pow2(n - 1));
    }
  }

  lemma FromNoBits(x: nat)
    ensures FromBits(BitsOf(x, 0)) == 0
  {
  }

  lemma AddScaledBit(f: nat, b: Elem, h: nat)
    requires b <= 1
    ensures Add(f % MODULUS, Mul(b, h % MODULUS)) == (f + if b == 1 then h else 0) % MODULUS
  {
    hide Mul, Add;
    MulNeutral(h % MODULUS);
    if b == 0 {
      AddNeutral(f % MODULUS);
    } else {
      AddIsModular(f % MODULUS, h % MODULUS);
      ModAdd(f, h);
    }
  }

  lemma {:induction false} PowOfTwo(n: nat)
    ensures Pow(New(2), n) == Pow2(n) % MODULUS
  {
    hide Mul;
    if n > 0 {
      PowOfTwo(n - 1);
      MulIsModular(New(2), Pow(New(2), n - 1));
      ModMul(Pow2(n - 1), 2);
    }
  }

  /** x = 1000 q + r, read in the field. */
  lemma DivisionInField(x: U64, roll: U64)
    requires roll == x % 1000
    ensures Sub(Sub(x % MODULUS, Mul(New(QuotientCell(x, roll)), New(1000))), roll) == ZERO
  {
    hide Mul, Sub, Add, New, QuotientCell;
    QuotientCellIs(x, roll);
    FieldProduct(x / 1000);
    FieldSum(x / 1000 * 1000, roll);
    SubBack((x / 1000 * 1000) % MODULUS, roll);
  }

  lemma FieldProduct(q: nat)
    requires q < MODULUS
    ensures Mul(q, 1000) == (q * 1000) % MODULUS
  {
    hide Mul;
    MulIsModular(q, 1000);
  }

  lemma FieldSum(m: nat, r: nat)
    requires r < MODULUS
    ensures Add(m % MODULUS, r) == (m + r) % MODULUS
  {
    hide Add;
    AddIsModular(m % MODULUS, r);
    ModAdd(m, r);
  }

  lemma QuotientCellIs(x: U64, roll: U64)
    requires roll == x % 1000
    ensures New(QuotientCell(x, roll)) == x / 1000 && New(1000) == 1000
    ensures x == (x / 1000) * 1000 + roll
  {
  }

  /** The mod-1000 row holds for a seed and its roll. */
  lemma ModRowHolds(seed: U64, roll: U64)
    requires roll == EnhanceRoll(seed).1
    ensures RowValue(ModC, TraceOf(seed, roll), 14) == ZERO
  {
    hide BitAt, Mul, Sub, WordSum, New, EnhanceRoll, WordAt, QuotientCell, BitsOf, FromBits;
    var t, x := TraceOf(seed, roll), WordAt(seed, 9);
    RollFacts(seed, roll);
    forall j | 0 <= j < 64
      ensures t[9][j] == BitAt(x, j)
    {
      NewOfElem(BitAt(x, j));
      assert t[9] == RowOf(seed, roll, 9);
    }
    forall j | 0 <= j < 10
      ensures t[10][j] == BitAt(roll, j)
    {
      NewOfElem(BitAt(roll, j));
      assert t[10] == RowOf(seed, roll, 10);
    }
    WordSumOfBits(t[9], x, 64);
    WordSumOfBits(t[10], roll, 10);
    DivisionInField(x, roll);
    assert t[14] == RowOf(seed, roll, 14);
  }

  lemma RollFacts(seed: U64, roll: U64)
    requires roll == EnhanceRoll(seed).1
    ensures roll == WordAt(seed, 9) % 1000
    ensures FromBits(BitsOf(roll, 10)) % MODULUS == roll
    ensures FromBits(BitsOf(WordAt(seed, 9), 64)) == WordAt(seed, 9)
  {
    hide WordAt, Pow2, Xorshift, BitsOf, FromBits;
    LastWordIsRollWord(seed);
    Pow2Of64();
    Pow2Of10();
    FromBitsOf(roll, 10);
    FromBitsOf(WordAt(seed, 9), 64);
  }

  lemma Pow2Of10()
    ensures Pow2(10) == 1024
  {
  }

  // ----- all constraints -----

  /** A cell outside the trace's data. */
  predicate BlankCell(r: nat, j: nat) {
    10 <= r <= 15 && j < 64 && (r == 10 ==> j >= 10) && (r == 14 ==> j >= 1)
  }

  /** The shapes of constraint that the source lists: bits on word rows and on the ten
      roll columns, steps, the modulus, and zero cells outside the trace's data. */
  ghost predicate Listed(c: Constraint) {
    && WellFormed(c)
    && (c.BitC? ==> forall i :: 0 <= i < |c.rows| ==> c.rows[i] <= 9 || (c.rows[i] == 10 && c.col < 10))
    && (c.ZeroC? ==> BlankCell(c.row, c.col))
  }

  /** What the constraints outside the word rows ask: bits of the roll, blanks, the modulus row. */
  ghost predicate RollPartHolds(t: Trace) {
    && (forall j :: 0 <= j < 10 ==> t[10][j] <= 1)
    && (forall r: nat, j: nat :: BlankCell(r, j) ==> t[r][j] == ZERO)
    && RowValue(ModC, t, 14) == ZERO
  }

  /** The two parts together imply every listed constraint. */
  lemma ListedSatisfied(t: Trace, c: Constraint)
    requires BitAndStepConstraints(t) && RollPartHolds(t) && Listed(c)
    ensures Satisfied(c, t)
  {
    hide Mul, Sub, Xor2, WordSum;
    match c
    case BitC(rows, j) =>
      forall i | 0 <= i < |rows|
        ensures RowValue(c, t, rows[i]) == ZERO
      {
        if rows[i] <= 9 {
          assert RowValue(BitC([rows[i]], j), t, rows[i]) == ZERO;
        } else {
          BitConstraintExact(t[10][j]);
        }
      }
    case StepC(r, kind, j) =>
      assert RowValue(StepC(r, STEPS[r].1, j), t, r) == ZERO;
    case ModC =>
    case ZeroC(r, j) =>
  }

  /** Every listed constraint holds on the trace of a seed and its roll. */
  lemma TraceSatisfies(seed: U64, roll: U64, c: Constraint)
    requires roll == EnhanceRoll(seed).1 && Listed(c)
    ensures Satisfied(c, TraceOf(seed, roll))
  {
    hide BitAndStepConstraints, RollPartHolds, TraceOf, EnhanceRoll, Satisfied, Listed, HoldsWords;
    TraceHoldsWords(seed, roll);
    WordsSatisfy(TraceOf(seed, roll), seed);
    TraceHoldsRoll(seed, roll);
    ListedSatisfied(TraceOf(seed, roll), c);
  }

  lemma TraceHoldsRoll(seed: U64, roll: U64)
    requires roll == EnhanceRoll(seed).1
    ensures RollPartHolds(TraceOf(seed, roll))
  {
    hide BitAt, WordAt, EnhanceRoll, RowValue, New;
    var t := TraceOf(seed, roll);
    ModRowHolds(seed, roll);
    forall r: nat, j: nat | 10 <= r <= 15 && j < 64
      ensures t[r][j] == CellAt(seed, roll, r, j)
    {
      assert t[r] == RowOf(seed, roll, r);
    }
    forall j | 0 <= j < 10
      ensures t[10][j] <= 1
    {
      NewOfElem(BitAt(roll, j));
    }
  }

  lemma TraceHoldsWords(seed: U64, roll: U64)
    ensures HoldsWords(TraceOf(seed, roll), seed)
  {
    hide BitAt, WordAt;
    var t := TraceOf(seed, roll);
    forall r, j | 0 <= r <= 9 && 0 <= j < 64
      ensures t[r][j] == BitAt(WordAt(seed, r), j)
    {
      assert t[r] == RowOf(seed, roll, r);
      NewOfElem(BitAt(WordAt(seed, r), j));
    }
  }
}
