/** The in-place iterative number-theoretic transform.

    Specification: output j of the forward transform is the value of the input polynomial
    at w^j; the inverse transform evaluates at the powers of w^-1 and divides by the
    length.  The butterfly network is proved against it layer by layer, and the inverse
    is proved to undo the forward transform. */
module NumberTheoreticTransform {
  import opened Goldilocks
  import opened Powers
  import opened Primality
  import opened RootsOfUnity
  import opened Polynomials
  import opened BitReversal

  // ----- specification -----

  /** The values of f at the first n powers of w. */
  function Dft(f: Poly, w: Elem, n: nat): (v: seq<Elem>)
    ensures |v| == n
    ensures forall j :: 0 <= j < n ==> v[j] == Eval(f, Pow(w, j))
  {
    seq(n, j requires 0 <= j => Eval(f, Pow(w, j)))
  }

  function ForwardTransform(f: Poly, k: nat): (v: seq<Elem>)
    requires |f| == Pow2(k)
    ensures |v| == |f|
  {
    Dft(f, RootOfUnity(k), |f|)
  }

  /** The length of a transform as a field element (`Fp::new(n as u64)`). */
  function LengthElem(k: nat): Elem {
    Pow2(k) % MODULUS
  }

  function InverseTransform(v: seq<Elem>, k: nat): (f: Poly)
    requires |v| == Pow2(k)
    ensures |f| == |v|
  {
    Scaled(Dft(v, Inv(RootOfUnity(k)), |v|), Inv(LengthElem(k)))
  }

  // ----- twiddle roots -----

  /** The root used by the layer with blocks of length 2^s. */
  function LayerRoot(s: nat, inv: bool): Elem {
    if inv then Inv(RootOfUnity(s)) else RootOfUnity(s)
  }

  lemma LayerRootLaws(s: nat, inv: bool)
    requires s <= 32
    ensures PrimitiveRoot(LayerRoot(s, inv), s)
    ensures s >= 1 ==> Mul(LayerRoot(s, inv), LayerRoot(s, inv)) == LayerRoot(s - 1, inv)
  {
    hide Mul, Pow, RootOfUnity;
    var w, e := RootOfUnity(s), MODULUS - 2;
    RootIsPrimitive(s);
    if s == 0 {
      OnePow(e);
    } else {
      RootSquared(s);
      PowOfProduct(w, w, e);
      PowMul(w, e, Pow2(s - 1));
      PowMul(w, Pow2(s - 1), e);
      assert Pow2(s - 1) * e == e * Pow2(s - 1);
      MinusOneOddPow(e);
    }
  }

  lemma RootTimesInverse(s: nat)
    requires s <= 32
    ensures Mul(RootOfUnity(s), Inv(RootOfUnity(s))) == ONE
  {
    hide Mul, Pow, RootOfUnity, PrimitiveRoot;
    var w := RootOfUnity(s);
    RootIsPrimitive(s);
    RootToFullOrder(w, s);
    if w == ZERO {
      ZeroPow(Pow2(s));
    }
    InverseIsExact(w);
  }

  lemma ZeroPow(n: nat)
    requires n >= 1
    ensures Pow(ZERO, n) == ZERO
  {
    hide Mul;
    MulNeutral(Pow(ZERO, n - 1));
  }

  // ----- one butterfly -----

  /** Two half-length transforms combined with the twiddle root w. */
  function Combine(e: seq<Elem>, o: seq<Elem>, w: Elem): (c: seq<Elem>)
    requires |e| == |o|
    ensures |c| == 2 * |e|
    ensures forall k :: 0 <= k < |e| ==> c[k] == Add(e[k], Mul(o[k], Pow(w, k)))
    ensures forall k :: 0 <= k < |e| ==> c[|e| + k] == Sub(e[k], Mul(o[k], Pow(w, k)))
  {
    seq(|e|, k requires 0 <= k < |e| => Add(e[k], Mul(o[k], Pow(w, k))))
    + seq(|e|, k requires 0 <= k < |e| => Sub(e[k], Mul(o[k], Pow(w, k))))
  }

  /** Combining the transforms of the even and odd parts transforms the whole. */
  lemma CombineIsDft(f: Poly, w: Elem, s: nat)
    requires PrimitiveRoot(w, s + 1) && |f| == Pow2(s + 1)
    ensures Combine(Dft(Evens(f), Mul(w, w), Pow2(s)), Dft(Odds(f), Mul(w, w), Pow2(s)), w)
            == Dft(f, w, Pow2(s + 1))
  {
    hide Add, Mul, Sub, Eval, Pow;
    var h := Pow2(s);
    var v := Mul(w, w);
    var e, o := Dft(Evens(f), v, h), Dft(Odds(f), v, h);
    var c, d := Combine(e, o, w), Dft(f, w, 2 * h);
    assert Pow(w, h) == MINUS_ONE;
    forall j | 0 <= j < 2 * h
      ensures c[j] == d[j]
    {
      var k := if j < h then j else j - h;
      ButterflyPoint(f, w, h, k);
      assert c[k] == d[k] && c[h + k] == d[h + k];
    }
  }

  lemma ButterflyPoint(f: Poly, w: Elem, h: nat, k: nat)
    requires Pow(w, h) == MINUS_ONE
    ensures var y, v := Pow(Mul(w, w), k), Pow(w, k);
            && Eval(f, v) == Add(Eval(Evens(f), y), Mul(Eval(Odds(f), y), v))
            && Eval(f, Pow(w, h + k)) == Sub(Eval(Evens(f), y), Mul(Eval(Odds(f), y), v))
  {
    hide Add, Mul, Sub, Neg, Eval, Pow;
    var y, v := Pow(Mul(w, w), k), Pow(w, k);
    var e, o := Eval(Evens(f), y), Eval(Odds(f), y);
    PowOfProduct(w, w, k);
    EvalEvenOdd(f, v);
    MulCommutes(o, v);
    PowAdd(w, h, k);
    MinusOneTimes(v);
    var u := Pow(w, h + k);
    EvalEvenOdd(f, u);
    NegSquared(v);
    MulCommutes(Neg(v), o);
    MulNeg(o, v);
    SubIsAddNeg(e, Mul(o, v));
  }

  lemma NegSquared(v: Elem)
    ensures Mul(Neg(v), Neg(v)) == Mul(v, v)
  {
    hide Mul;
    MulNeg(Neg(v), v);
    MulNeg(v, v);
    MulCommutes(Neg(v), v);
  }

  // ----- layers -----

  /** a splits into 2^m blocks of length 2^s; following the even part into the first half
      and the odd part into the second, each block holds the transform of its part of f. */
  ghost predicate Blocks(a: seq<Elem>, f: Poly, s: nat, m: nat, inv: bool)
    requires |a| == |f| == Pow2(s + m)
    decreases m
  {
    if m == 0 then a == Dft(f, LayerRoot(s, inv), Pow2(s))
    else
      var h := Pow2(s + m - 1);
      && Blocks(a[..h], Evens(f), s, m - 1, inv)
      && Blocks(a[h..], Odds(f), s, m - 1, inv)
  }

  /** One layer: the butterfly applied to each block of 2 * half elements in turn. */
  function Layer(a: seq<Elem>, half: nat, w: Elem): (r: seq<Elem>)
    requires half >= 1
    ensures |r| == |a|
    decreases |a|
  {
    if |a| < 2 * half then a
    else Combine(a[..half], a[half..2 * half], w) + Layer(a[2 * half..], half, w)
  }

  lemma {:induction false} LayerSplits(a: seq<Elem>, b: seq<Elem>, s: nat, w: Elem, t: nat)
    requires |a| == Pow2(s + 1 + t)
    ensures Layer(a + b, Pow2(s), w) == Layer(a, Pow2(s), w) + Layer(b, Pow2(s), w)
    decreases t
  {
    hide Layer;
    if t == 0 {
      LayerFirstBlock(a, b, Pow2(s), w);
    } else {
      var m := Pow2(s + t);
      var a1, a2 := a[..m], a[m..];
      assert a == a1 + a2;
      assert a + b == a1 + (a2 + b);
      LayerSplits(a1, a2 + b, s, w, t - 1);
      LayerSplits(a2, b, s, w, t - 1);
      LayerSplits(a1, a2, s, w, t - 1);
      ConcatAssociates(Layer(a1, Pow2(s), w), Layer(a2, Pow2(s), w), Layer(b, Pow2(s), w));
    }
  }

  lemma ConcatAssociates<T>(a: seq<T>, b: seq<T>, c: seq<T>)
    ensures (a + b) + c == a + (b + c)
  {
  }

  lemma LayerFirstBlock(a: seq<Elem>, b: seq<Elem>, half: nat, w: Elem)
    requires half >= 1 && |a| == 2 * half
    ensures Layer(a + b, half, w) == Layer(a, half, w) + Layer(b, half, w)
  {
    hide Combine;
    assert (a + b)[..half] == a[..half];
    assert (a + b)[half..2 * half] == a[half..2 * half];
    assert (a + b)[2 * half..] == b;
    assert a[2 * half..] == [];
  }

  lemma LayerHalves(a: seq<Elem>, s: nat, w: Elem, t: nat)
    requires |a| == Pow2(s + t + 2)
    ensures var h := Pow2(s + t + 1);
            && Layer(a, Pow2(s), w)[..h] == Layer(a[..h], Pow2(s), w)
            && Layer(a, Pow2(s), w)[h..] == Layer(a[h..], Pow2(s), w)
  {
    hide Layer;
    var h := Pow2(s + t + 1);
    assert a == a[..h] + a[h..];
    LayerSplits(a[..h], a[h..], s, w, t);
  }

  /** The last layer: two half-length transforms become the whole transform. */
  lemma LayerCloses(a: seq<Elem>, f: Poly, s: nat, inv: bool)
    requires |a| == |f| == Pow2(s + 1) && s + 1 <= 32
    requires a[..Pow2(s)] == Dft(Evens(f), LayerRoot(s, inv), Pow2(s))
    requires a[Pow2(s)..] == Dft(Odds(f), LayerRoot(s, inv), Pow2(s))
    ensures Layer(a, Pow2(s), LayerRoot(s + 1, inv)) == Dft(f, LayerRoot(s + 1, inv), Pow2(s + 1))
  {
    hide Combine, LayerRoot, Mul, Eval, Pow, PrimitiveRoot;
    var half := Pow2(s);
    LayerRootLaws(s + 1, inv);
    CombineIsDft(f, LayerRoot(s + 1, inv), s);
    assert a[half..2 * half] == a[half..];
    assert a[2 * half..] == [];
  }

  lemma LastLayer(a: seq<Elem>, f: Poly, s: nat, inv: bool)
    requires |a| == |f| == Pow2(s + 1) && s + 1 <= 32
    requires Blocks(a, f, s, 1, inv)
    ensures Blocks(Layer(a, Pow2(s), LayerRoot(s + 1, inv)), f, s + 1, 0, inv)
  {
    hide Layer, LayerRoot, Dft, Pow2, Evens, Odds;
    BlocksSplit(a, f, s, 1, inv);
    BlocksAre(a[..Pow2(s)], Evens(f), s, inv);
    BlocksAre(a[Pow2(s)..], Odds(f), s, inv);
    LayerCloses(a, f, s, inv);
  }

  lemma BlocksSplit(a: seq<Elem>, f: Poly, s: nat, m: nat, inv: bool)
    requires |a| == |f| == Pow2(s + m) && m >= 1
    ensures Pow2(s + m) == 2 * Pow2(s + m - 1)
    ensures hide Pow2, Evens, Odds, Blocks;
            var h := Pow2(s + m - 1);
            Blocks(a, f, s, m, inv) <==>
            Blocks(a[..h], Evens(f), s, m - 1, inv) && Blocks(a[h..], Odds(f), s, m - 1, inv)
  {
    hide LayerRoot, Dft, Evens, Odds, Pow2;
    Pow2Double(s + m);
  }

  lemma Pow2Double(n: nat)
    requires n >= 1
    ensures Pow2(n) == 2 * Pow2(n - 1)
  {
  }

  lemma BlocksAre(a: seq<Elem>, f: Poly, s: nat, inv: bool)
    requires |a| == |f| == Pow2(s)
    ensures Blocks(a, f, s, 0, inv) <==> a == Dft(f, LayerRoot(s, inv), Pow2(s))
  {
    hide LayerRoot, Dft, Pow2, Evens, Odds;
  }

  /** A layer turns blocks of length 2^s into blocks of length 2^(s+1). */
  lemma {:induction false} LayerAdvances(a: seq<Elem>, f: Poly, s: nat, m: nat, inv: bool)
    requires |a| == |f| == Pow2(s + m) && m >= 1 && s + m <= 32
    requires Blocks(a, f, s, m, inv)
    ensures hide Pow2, Layer, LayerRoot, Blocks;
            Blocks(Layer(a, Pow2(s), LayerRoot(s + 1, inv)), f, s + 1, m - 1, inv)
    decreases m
  {
    hide Layer, LayerRoot, Dft, Pow2, Blocks, Evens, Odds;
    if m == 1 {
      LastLayer(a, f, s, inv);
    } else {
      var h := Pow2(s + m - 1);
      BlocksSplit(a, f, s, m, inv);
      LayerAdvances(a[..h], Evens(f), s, m - 1, inv);
      LayerAdvances(a[h..], Odds(f), s, m - 1, inv);
      LayerHalves(a, s, LayerRoot(s + 1, inv), m - 2);
      BlocksSplit(Layer(a, Pow2(s), LayerRoot(s + 1, inv)), f, s + 1, m - 1, inv);
    }
  }

  /** The first k butterflies of the block at `start` have been applied to `before`. */
  ghost predicate BlockPrefix(before: seq<Elem>, now: seq<Elem>, start: nat, half: nat, k: nat, w: Elem)
    requires |before| == |now| && start + 2 * half <= |before| && k <= half
  {
    forall i {:trigger now[i]} :: 0 <= i < |now| ==>
      now[i] == if start <= i < start + k then Add(before[i], Mul(before[i + half], Pow(w, i - start)))
                else if start + half <= i < start + half + k
                then Sub(before[i - half], Mul(before[i], Pow(w, i - half - start)))
                else before[i]
  }

  lemma BlockPair(before: seq<Elem>, now: seq<Elem>, start: nat, half: nat, w: Elem, k: nat)
    requires |before| == |now| && start + 2 * half <= |before| && k < half
    requires BlockPrefix(before, now, start, half, half, w)
    ensures var c := Combine(before[start..start + half], before[start + half..start + 2 * half], w);
            now[start + k] == c[k] && now[start + half + k] == c[half + k]
  {
    hide Add, Sub, Mul, Pow;
    assert now[start + k] == Add(before[start + k], Mul(before[start + k + half], Pow(w, k)));
    assert now[start + half + k] == Sub(before[start + half + k - half], Mul(before[start + half + k], Pow(w, k)));
  }

  lemma BlockComplete(before: seq<Elem>, now: seq<Elem>, start: nat, half: nat, w: Elem)
    requires |before| == |now| && start + 2 * half <= |before|
    requires BlockPrefix(before, now, start, half, half, w)
    ensures now == before[..start] +
                   Combine(before[start..start + half], before[start + half..start + 2 * half], w) +
                   before[start + 2 * half..]
  {
    hide Combine, BlockPrefix, Add, Sub, Mul, Pow;
    BlockOutside(before, now, start, half, w);
    BlockMiddle(before, now, start, half, w);
    ThreeParts(now, start, start + 2 * half);
  }

  lemma ThreeParts(s: seq<Elem>, i: nat, j: nat)
    requires i <= j <= |s|
    ensures s == s[..i] + s[i..j] + s[j..]
  {
  }

  lemma BlockMiddle(before: seq<Elem>, now: seq<Elem>, start: nat, half: nat, w: Elem)
    requires |before| == |now| && start + 2 * half <= |before|
    requires BlockPrefix(before, now, start, half, half, w)
    ensures now[start..start + 2 * half] ==
            Combine(before[start..start + half], before[start + half..start + 2 * half], w)
  {
    hide Combine, BlockPrefix, Add, Sub, Mul, Pow;
    var c := Combine(before[start..start + half], before[start + half..start + 2 * half], w);
    forall i | 0 <= i < 2 * half
      ensures now[start + i] == c[i]
    {
      BlockPair(before, now, start, half, w, if i < half then i else i - half);
    }
  }

  lemma BlockOutside(before: seq<Elem>, now: seq<Elem>, start: nat, half: nat, w: Elem)
    requires |before| == |now| && start + 2 * half <= |before|
    requires BlockPrefix(before, now, start, half, half, w)
    ensures now[..start] == before[..start] && now[start + 2 * half..] == before[start + 2 * half..]
  {
    hide Add, Sub, Mul, Pow;
  }

  /** The inner loop of `ntt`: one block. */
  method Butterfly(a: array<Elem>, start: nat, half: nat, wLen: Elem)
    requires start + 2 * half <= a.Length
    modifies a
    ensures a[..] == old(a[..start]) +
                     Combine(old(a[start..start + half]), old(a[start + half..start + 2 * half]), wLen) +
                     old(a[start + 2 * half..])
  {
    hide Add, Sub, Mul, Pow, Combine;
    var w := ONE;
    PowUnfold(wLen, 0);
    ghost var before := a[..];
    for k := 0 to half
      invariant w == Pow(wLen, k)
      invariant BlockPrefix(before, a[..], start, half, k, wLen)
    {
      var even := a[start + k];
      var odd := Mul(a[start + k + half], w);
      a[start + k] := Add(even, odd);
      a[start + k + half] := Sub(even, odd);
      PowUnfold(wLen, k);
      MulCommutes(w, wLen);
      w := Mul(w, wLen);
      assert forall i {:trigger a[i]} :: 0 <= i < a.Length ==> a[..][i] == a[i];
    }
    BlockComplete(before, a[..], start, half, wLen);
  }

  /** What remains to be done after the block at `start`. */
  lemma LayerStep(pre: seq<Elem>, post: seq<Elem>, start: nat, half: nat, w: Elem)
    requires half >= 1 && start + 2 * half <= |pre|
    requires post == pre[..start] +
                     Combine(pre[start..start + half], pre[start + half..start + 2 * half], w) +
                     pre[start + 2 * half..]
    ensures post[..start + 2 * half] + Layer(post[start + 2 * half..], half, w) ==
            pre[..start] + Layer(pre[start..], half, w)
  {
    hide Combine, Layer;
    var rest := pre[start..];
    LayerUnfold(rest, half, w);
    assert rest[..half] == pre[start..start + half];
    assert rest[half..2 * half] == pre[start + half..start + 2 * half];
    assert rest[2 * half..] == pre[start + 2 * half..];
    assert post[start + 2 * half..] == rest[2 * half..];
    assert post[..start + 2 * half] == pre[..start] + Combine(rest[..half], rest[half..2 * half], w);
  }

  lemma LayerUnfold(a: seq<Elem>, half: nat, w: Elem)
    requires half >= 1 && 2 * half <= |a|
    ensures Layer(a, half, w) == Combine(a[..half], a[half..2 * half], w) + Layer(a[2 * half..], half, w)
  {
    hide Combine;
  }

  /** The middle loop of `ntt`: every block of length 2 * half. */
  method ApplyLayer(a: array<Elem>, half: nat, wLen: Elem, ghost blocks: nat)
    requires half >= 1 && a.Length == blocks * (2 * half)
    modifies a
    ensures a[..] == Layer(old(a[..]), half, wLen)
  {
    hide Combine, Layer;
    var start := 0;
    ghost var b := 0;
    ghost var goal := Layer(a[..], half, wLen);
    assert a[..0] + Layer(a[0..], half, wLen) == goal by {
      assert a[0..] == a[..];
    }
    while start < a.Length
      invariant b <= blocks && start == b * (2 * half) <= a.Length
      invariant a[..start] + Layer(a[start..], half, wLen) == goal
    {
      BlockFits(b, blocks, 2 * half);
      ghost var pre := a[..];
      Butterfly(a, start, half, wLen);
      LayerStep(pre, a[..], start, half, wLen);
      start := start + 2 * half;
      b := b + 1;
    }
    assert Layer(a[start..], half, wLen) == [];
    assert a[..start] == a[..];
  }

  lemma BlockFits(b: nat, blocks: nat, len: nat)
    requires b * len < blocks * len
    ensures b < blocks && (b + 1) * len == b * len + len <= blocks * len
  {
    if b >= blocks {
      MulMonotonic(blocks, b, len, len);
    }
    MulMonotonic(b + 1, blocks, len, len);
  }

  // ----- the whole transform -----

  /** After bit reversal every element is its own length-one transform. */
  lemma {:induction false} BlocksInitially(f: Poly, m: nat, inv: bool)
    requires |f| == Pow2(m)
    ensures Blocks(BitReversed(f, m), f, 0, m, inv)
    decreases m
  {
    hide LayerRoot, Mul, Add;
    var a := BitReversed(f, m);
    if m == 0 {
      var w := LayerRoot(0, inv);
      PowUnfold(w, 0);
      assert f[1..] == [];
      MulNeutral(ONE);
      AddNeutral(f[0]);
      assert Eval(f, ONE) == f[0];
      assert a == Dft(f, w, 1);
    } else {
      var h := Pow2(m - 1);
      BlocksInitially(Evens(f), m - 1, inv);
      BlocksInitially(Odds(f), m - 1, inv);
      ReversalSplits(f, m);
    }
  }

  lemma ReversalSplits(f: Poly, m: nat)
    requires m >= 1 && |f| == Pow2(m)
    ensures BitReversed(f, m)[..Pow2(m - 1)] == BitReversed(Evens(f), m - 1)
    ensures BitReversed(f, m)[Pow2(m - 1)..] == BitReversed(Odds(f), m - 1)
  {
    hide BitReverse;
    var h := Pow2(m - 1);
    forall p | 0 <= p < h
      ensures BitReversed(f, m)[..h][p] == BitReversed(Evens(f), m - 1)[p]
      ensures BitReversed(f, m)[h..][p] == BitReversed(Odds(f), m - 1)[p]
    {
      BitReverseTop(p, 0, m);
      BitReverseTop(p, 1, m);
    }
  }

  /** `u32::trailing_zeros`: 32 on zero. */
  function TrailingZeros32(x: nat): nat {
    if x == 0 then 32 else if x % 2 == 1 then 0 else 1 + TrailingZeros32(x / 2)
  }

  /** The cast `len as u32` of the block length 2^32 is zero, and its 32 trailing zeros
      still select the right root. */
  lemma LayerRootIndex(s: nat)
    requires s <= 32
    ensures TrailingZeros32(Pow2(s) % TWO32) == s
  {
    hide Pow2;
    Pow2Of32();
    if s < 32 {
      Pow2Monotonic(s, 32);
      TrailingZerosOfPow2(s);
    } else {
      assert Pow2(s) % TWO32 == 0;
    }
  }

  lemma {:induction false} TrailingZerosOfPow2(s: nat)
    ensures TrailingZeros32(Pow2(s)) == s
  {
    if s > 0 {
      TrailingZerosOfPow2(s - 1);
    }
  }

  /** The final loop of the inverse transform. */
  method ScaleArray(a: array<Elem>, c: Elem)
    modifies a
    ensures a[..] == Scaled(old(a[..]), c)
  {
    hide Mul;
    ghost var before := a[..];
    for i := 0 to a.Length
      invariant forall j :: 0 <= j < a.Length ==> a[j] == if j < i then Mul(before[j], c) else before[j]
    {
      a[i] := Mul(a[i], c);
    }
  }

  lemma BlocksDone(a: seq<Elem>, f: Poly, s: nat, inv: bool)
    requires |a| == |f| == Pow2(s) && Blocks(a, f, s, 0, inv)
    ensures a == Dft(f, if inv then Inv(RootOfUnity(s)) else RootOfUnity(s), Pow2(s))
  {
  }

  /** The outer loop of `ntt`: one pass for every block length 2, 4, ..., n. */
  method ApplyLayers(a: array<Elem>, log2: nat, inv: bool, ghost f: Poly)
    requires log2 <= 32 && a.Length == Pow2(log2) == |f|
    requires Blocks(a[..], f, 0, log2, inv)
    modifies a
    ensures Blocks(a[..], f, log2, 0, inv)
  {
    hide Layer, Inv, Blocks, RootOfUnity, Pow2;
    var n := a.Length;
    var len := 2;
    ghost var s := 0;
    LayerSizes(0, log2);
    while len <= n
      invariant s <= log2 && len == 2 * Pow2(s)
      invariant Blocks(a[..], f, s, log2 - s, inv)
      decreases log2 - s
    {
      var half := len / 2;
      LayerSizes(s, log2);
      LayerRootIndex(s + 1);
      var wLen := RootOfUnity(TrailingZeros32(len % TWO32));
      if inv {
        wLen := Inv(wLen);
      }
      ghost var pre := a[..];
      ApplyLayer(a, half, wLen, Pow2(log2 - s - 1));
      LayerAdvances(pre, f, s, log2 - s, inv);
      len := len * 2;
      s := s + 1;
    }
    LayerSizes(s, log2);
  }

  /** Block lengths and block counts over the passes. */
  lemma LayerSizes(s: nat, log2: nat)
    requires s <= log2
    ensures Pow2(0) == 1
    ensures 2 * Pow2(s) <= Pow2(log2) <==> s < log2
    ensures s < log2 ==> 2 * Pow2(s) == Pow2(s + 1) && Pow2(log2) == Pow2(log2 - s - 1) * (2 * Pow2(s))
  {
    if s < log2 {
      Pow2Add(log2 - s - 1, s + 1);
      if s + 1 < log2 {
        Pow2Monotonic(s + 1, log2);
      }
    }
  }

  /** `ntt`: for every length 2^log2 up to 2^32 the array is replaced by its transform. */
  method Ntt(a: array<Elem>, log2: nat, inv: bool)
    requires log2 <= 32 && a.Length == Pow2(log2)
    modifies a
    ensures a[..] == if inv then InverseTransform(old(a[..]), log2) else ForwardTransform(old(a[..]), log2)
  {
    hide Dft, Inv, RootOfUnity, Blocks;
    ghost var f := a[..];
    Pow2Of32();
    if log2 < 32 {
      Pow2Monotonic(log2, 32);
    }
    PermuteByBitReversal(a, log2);
    BlocksInitially(f, log2, inv);
    ApplyLayers(a, log2, inv, f);
    BlocksDone(a[..], f, log2, inv);
    if inv {
      ScaleArray(a, Inv(a.Length % MODULUS));
    }
  }
}
