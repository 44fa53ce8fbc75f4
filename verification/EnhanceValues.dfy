/** What the enhance circuit computes, over the integers: the values of its constraints, the
    public value on the roll row, and where its combination coefficients come from. */
module EnhanceValues {
  import opened Goldilocks
  import opened Residues
  import opened Powers
  import opened Primality
  import opened Bytes
  import opened FriProtocol
  import opened FriTranscript
  import opened Words
  import opened EnhanceConstraints
  import X = XorshiftAir
  import E = EnhanceProtocol

  // ----- the constraints over the integers -----

  /** The sum of t[j] 2^j over the first n columns. */
  function Assembled(t: X.Row, n: nat): nat
    requires n <= 64
  {
    if n == 0 then 0 else Assembled(t, n - 1) + t[n - 1] * Pow2(n - 1)
  }

  lemma {:induction false} WordSumIs(t: X.Row, n: nat)
    requires n <= 64
    ensures X.WordSum(t, n) == Assembled(t, n) % MODULUS
    decreases n
  {
    hide Add, Mul, New, Pow, Pow2;
    if n > 0 {
      WordSumIs(t, n - 1);
      X.PowOfTwo(n - 1);
      ElemIsResidue(t[n - 1]);
      MulResidue(t[n - 1], Pow(New(2), n - 1), t[n - 1], Pow2(n - 1));
      AddResidue(X.WordSum(t, n - 1), Mul(t[n - 1], Pow(New(2), n - 1)), Assembled(t, n - 1), t[n - 1] * Pow2(n - 1));
    }
  }

  /** The source column of a step: 13 below, 7 above or 17 below, or nothing. */
  function SourceCell(t: X.Row, kind: nat, j: nat): Elem
    requires j < 64
  {
    if kind == 0 then (if j >= 13 then t[j - 13] else 0)
    else if kind == 1 then (if j <= 56 then t[j + 7] else 0)
    else (if j >= 17 then t[j - 17] else 0)
  }

  lemma BitInteger(b: Elem)
    ensures Sub(Mul(b, b), b) == (b * b - b) % MODULUS
  {
    hide Mul, Sub;
    var n: int := b;
    ElemIsResidue(b);
    MulResidue(b, b, n, n);
    SubResidue(Mul(b, b), b, n * n, n);
  }

  lemma StepInteger(next: Elem, a: Elem, s: Elem)
    ensures Sub(next, X.Xor2(a, s)) == (next - (a + s - 2 * (a * s))) % MODULUS
  {
    hide Sub, X.Xor2;
    var v: int := a + s - 2 * (a * s);
    Xor2Integer(a, s);
    ElemIsResidue(next);
    SubResidue(next, X.Xor2(a, s), next, v);
  }

  lemma ModulusInteger(x: Elem, q: Elem, r: Elem, m: int, n: int)
    requires x == m % MODULUS && r == n % MODULUS
    ensures Sub(Sub(x, Mul(q, New(1000))), r) == (m - 1000 * q - n) % MODULUS
  {
    hide Mul, Sub, New;
    var v: int := q;
    ElemIsResidue(q);
    NewIsResidue(1000);
    MulResidue(q, New(1000), v, 1000);
    SubResidue(x, Mul(q, New(1000)), m, v * 1000);
    SubResidue(Sub(x, Mul(q, New(1000))), r, m - v * 1000, n);
  }

  /** The value of each kind of constraint, as an integer modulo p. */
  lemma ConstraintIntegers(c: X.Constraint, t0: X.Row, t1: X.Row, t2: X.Row, t3: X.Row)
    requires c.ModC? || c.col < 64
    ensures hide X.ValueOf, Assembled;
            var q: int := t0[0];
            X.ValueOf(c, t0, t1, t2, t3) == match c
              case BitC(_, j) => (t0[j] * t0[j] - t0[j]) % MODULUS
              case StepC(_, kind, j) =>
                var s := SourceCell(t0, kind, j);
                (t1[j] - (t0[j] + s - 2 * (t0[j] * s))) % MODULUS
              case ModC => (Assembled(t3, 64) - 1000 * q - Assembled(t2, 10)) % MODULUS
              case ZeroC(_, j) => t0[j]
  {
    hide Add, Mul, Sub, New, X.WordSum, Assembled, X.Xor2;
    match c
    case BitC(_, j) => BitInteger(t0[j]);
    case StepC(_, kind, j) => StepInteger(t1[j], t0[j], SourceCell(t0, kind, j));
    case ModC =>
      WordSumIs(t3, 64);
      WordSumIs(t2, 10);
      ModulusInteger(X.WordSum(t3, 64), t0[0], X.WordSum(t2, 10), Assembled(t3, 64), Assembled(t2, 10));
    case ZeroC(_, j) =>
  }

  lemma Xor2Integer(a: Elem, b: Elem)
    ensures X.Xor2(a, b) == (a + b - 2 * (a * b)) % MODULUS
  {
    hide Add, Mul, Sub, New;
    ElemIsResidue(a);
    ElemIsResidue(b);
    NewIsResidue(2);
    AddResidue(a, b, a, b);
    MulResidue(a, b, a, b);
    MulResidue(Mul(a, b), New(2), a * b, 2);
    SubResidue(Add(a, b), Mul(Mul(a, b), New(2)), a + b, (a * b) * 2);
  }

  // ----- the verifier's terms, on any words -----

  /** A term of the hand-evaluated sum: the coefficient times the constraint, computed with the
      word operators, times the inverse of the product over the constraint's rows. */
  lemma TermOnWords(
    c: X.Constraint, alpha: Elem, t0: E.WordRow, t1: E.WordRow, t2: E.WordRow, t3: E.WordRow, chi: U64)
    requires c.ModC? || c.col < 64
    ensures hide E.RawTerm, E.RawProduct, E.RawSum, AddWords, SubWords, MulWords, Mul, Inv;
            E.RawTerm(c, alpha, t0, t1, t2, t3, chi) == Mul(
              MulWords(alpha, match c
                case BitC(_, j) => SubWords(MulWords(t0[j], t0[j]), t0[j])
                case StepC(_, kind, j) =>
                  var a, s := t0[j], SourceWord(t0, kind, j);
                  SubWords(t1[j], SubWords(AddWords(a, s), MulWords(MulWords(a, s), 2)))
                case ModC => Sub(Sub(E.RawSum(t3, 64), MulWords(t0[0], 1000)), E.RawSum(t2, 10))
                case ZeroC(_, j) => t0[j]),
              Inv(E.RawProduct(RowPoints(X.RowsOf(c)), chi)))
  {
    hide E.RawProduct, E.RawSum, AddWords, SubWords, MulWords, Inv;
    SmallConstants();
    match c
    case BitC(_, _) =>
    case StepC(_, kind, j) => MulIsWords(MulWords(t0[j], SourceWord(t0, kind, j)), 2);
    case ModC =>
    case ZeroC(_, _) =>
  }

  lemma SmallConstants()
    ensures New(2) == 2 && New(1000) == 1000
  {
  }

  lemma MulIsWords(a: Elem, b: Elem)
    ensures Mul(a, b) == MulWords(a, b)
  {
    hide MulWords;
  }

  function SourceWord(t: E.WordRow, kind: nat, j: nat): U64
    requires j < 64
  {
    if kind == 0 then (if j >= 13 then t[j - 13] else 0)
    else if kind == 1 then (if j <= 56 then t[j + 7] else 0)
    else (if j >= 17 then t[j - 17] else 0)
  }

  /** The factors of the product and the addends of the sum. */
  lemma ProductOnWords(xs: seq<Elem>, y: Elem, chi: U64)
    ensures E.RawProduct([], chi) == 1
    ensures E.RawProduct(xs + [y], chi) == MulWords(E.RawProduct(xs, chi), SubWords(chi, y))
  {
    hide MulWords, SubWords;
    assert (xs + [y])[..|xs|] == xs;
  }

  lemma SumOnWords(t: E.WordRow, n: nat)
    requires n < 64
    ensures E.RawSum(t, 0) == 0
    ensures E.RawSum(t, n + 1) == Add(E.RawSum(t, n), MulWords(t[n], Pow2(n) % MODULUS))
  {
    hide Add, MulWords, Pow, New;
    X.PowOfTwo(n);
  }

  // ----- the combination coefficients -----

  /** Digest i hashes the one before it (at first the state) and 32 zero bytes. */
  ghost predicate AreSqueezes(hash: Hash, state: Bytes, digests: seq<Digest>, zeros: Bytes) {
    && |zeros| == 32 && AllZero(zeros)
    && forall i {:trigger digests[i]} :: 0 <= i < |digests| ==>
         digests[i] == hash((if i == 0 then state else digests[i - 1]) + zeros)
  }

  lemma SqueezesPrepend(hash: Hash, state: Bytes, rest: seq<Digest>, zeros: Bytes)
    requires |zeros| == 32 && AllZero(zeros) && AreSqueezes(hash, hash(state + zeros), rest, zeros)
    ensures AreSqueezes(hash, state, [hash(state + zeros)] + rest, zeros)
  {
    var all := [hash(state + zeros)] + rest;
    forall i | 0 <= i < |all|
      ensures var before: Bytes := if i == 0 then state else all[i - 1];
              all[i] == hash(before + zeros)
    {
      if i > 0 {
        var before: Bytes := if i == 1 then all[0] else rest[i - 2];
        assert rest[i - 1] == hash(before + zeros);
      }
    }
  }

  lemma {:induction false} SqueezesFlat(hash: Hash, state: Bytes, n: nat)
    returns (digests: seq<Digest>, zeros: Bytes)
    ensures |digests| == n && AreSqueezes(hash, state, digests, zeros) && zeros == Zero32()
    ensures forall i :: 0 <= i < n ==> E.SqueezeMany(hash, state, n)[i] == FirstWord(digests[i]) % MODULUS
    ensures E.SqueezeState(hash, state, n) == if n == 0 then state else digests[n - 1]
    decreases n
  {
    hide FromBigEndian;
    zeros := Zero32();
    ZerosAreZero();
    if n == 0 {
      digests := [];
    } else {
      var rest, _ := SqueezesFlat(hash, SqueezeHash(hash, state), n - 1);
      digests := [SqueezeHash(hash, state)] + rest;
      SqueezesPrepend(hash, state, rest, zeros);
    }
  }

  lemma SqueezesJoin(hash: Hash, a: seq<Digest>, b: seq<Digest>, zeros: Bytes)
    requires a != [] && AreSqueezes(hash, [], a, zeros) && AreSqueezes(hash, a[|a| - 1], b, zeros)
    ensures AreSqueezes(hash, [], a + b, zeros)
  {
    var all := a + b;
    forall i | 0 <= i < |all|
      ensures var before: Bytes := if i == 0 then [] else all[i - 1];
              all[i] == hash(before + zeros)
    {
      if i < |a| {
        assert all[i] == a[i];
      } else {
        var before: Bytes := if i == |a| then a[|a| - 1] else b[i - |a| - 1];
        assert b[i - |a|] == hash(before + zeros);
      }
    }
  }

  lemma CoefficientsAre(hash: Hash)
    ensures E.Betas(hash) == E.SqueezeMany(hash, [], 64)
    ensures E.Alphas(hash) == E.SqueezeMany(hash, E.SqueezeState(hash, [], 64), 1024)
  {
    hide E.SqueezeMany, E.SqueezeState;
  }

  lemma JoinedWords(a: seq<Digest>, b: seq<Digest>, vs: seq<Elem>, ws: seq<Elem>)
    requires |vs| == |a| && forall i :: 0 <= i < |a| ==> vs[i] == FirstWord(a[i]) % MODULUS
    requires |ws| == |b| && forall i :: 0 <= i < |b| ==> ws[i] == FirstWord(b[i]) % MODULUS
    ensures forall i :: 0 <= i < |a| ==> vs[i] == FirstWord((a + b)[i]) % MODULUS
    ensures forall i :: 0 <= i < |b| ==> ws[i] == FirstWord((a + b)[|a| + i]) % MODULUS
  {
    hide FirstWord;
  }

  /** From an empty transcript 1088 digests are drawn in one chain: the first 64 give the
      coefficients of the columns, the others those of the constraints. */
  lemma CoefficientsFlat(hash: Hash) returns (digests: seq<Digest>, zeros: Bytes)
    ensures |digests| == 1088 && AreSqueezes(hash, [], digests, zeros)
    ensures forall i :: 0 <= i < 64 ==> E.Betas(hash)[i] == FirstWord(digests[i]) % MODULUS
    ensures forall i :: 0 <= i < 1024 ==> E.Alphas(hash)[i] == FirstWord(digests[64 + i]) % MODULUS
  {
    hide E.SqueezeMany, E.SqueezeState, AreSqueezes, FirstWord, E.Betas, E.Alphas, Zero32;
    var first, second;
    CoefficientsAre(hash);
    first, zeros := SqueezesFlat(hash, [], 64);
    second, zeros := SqueezesFlat(hash, first[63], 1024);
    SqueezesJoin(hash, first, second, zeros);
    JoinedWords(first, second, E.Betas(hash), E.Alphas(hash));
    digests := first + second;
  }

  // ----- the public value -----

  /** The public value on the roll row: the first ten coefficients weigh the bits of the roll. */
  function WeighedBits(betas: seq<Elem>, roll: nat, n: nat): nat
    requires n <= |betas|
  {
    if n == 0 then 0 else WeighedBits(betas, roll, n - 1) + betas[n - 1] * (roll / Pow2(n - 1) % 2)
  }

  lemma {:induction false} ExpectedTauIs(betas: seq<Elem>, roll: U64, n: nat)
    requires n <= |betas|
    ensures E.ExpectedTau(betas, roll, n) == WeighedBits(betas, roll, n) % MODULUS
  {
    hide Add, Mul, New, BitAt, Pow2;
    if n > 0 {
      var b := BitAt(roll, n - 1);
      ExpectedTauIs(betas, roll, n - 1);
      BitIsDigit(roll, n - 1);
      NewIsResidue(b);
      ElemIsResidue(betas[n - 1]);
      MulResidue(betas[n - 1], New(b), betas[n - 1], b);
      AddResidue(E.ExpectedTau(betas, roll, n - 1), Mul(betas[n - 1], New(b)), WeighedBits(betas, roll, n - 1),
                 betas[n - 1] * b);
    }
  }
}
