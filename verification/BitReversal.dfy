/** The bit-reversal permutation of `ntt`. */
module BitReversal {
  import opened Powers

  const TWO32: nat := 0x1_0000_0000

  /** The contribution of bit b in position j. */
  function AtBit(b: nat, j: nat): nat {
    if b == 1 then Pow2(j) else 0
  }

  /** x with its low m bits reversed. */
  function BitReverse(x: nat, m: nat): (r: nat)
    ensures r < Pow2(m)
  {
    if m == 0 then 0 else AtBit(x % 2, m - 1) + BitReverse(x / 2, m - 1)
  }

  lemma TopBitHalves(x: nat, b: nat, j: nat)
    requires j >= 1
    ensures (x + AtBit(b, j)) % 2 == x % 2 && (x + AtBit(b, j)) / 2 == x / 2 + AtBit(b, j - 1)
  {
  }

  /** Moving the top bit: reversing b.x puts b at the bottom. */
  lemma {:induction false} BitReverseTop(x: nat, b: nat, m: nat)
    requires m >= 1 && x < Pow2(m - 1) && b <= 1
    ensures BitReverse(x + AtBit(b, m - 1), m) == 2 * BitReverse(x, m - 1) + b
  {
    if m > 1 {
      BitReverseTop(x / 2, b, m - 1);
      TopBitHalves(x, b, m - 1);
    }
  }

  /** Bit reversal undoes itself. */
  lemma {:induction false} BitReverseInvolution(x: nat, m: nat)
    requires x < Pow2(m)
    ensures BitReverse(BitReverse(x, m), m) == x
  {
    if m > 0 {
      BitReverseInvolution(x / 2, m - 1);
      BitReverseTop(BitReverse(x / 2, m - 1), x % 2, m);
    }
  }

  /** The value of the accumulator after j more steps. */
  ghost function ShiftIn(r: nat, x: nat, j: nat): nat
    decreases j
  {
    if j == 0 then r else ShiftIn(2 * r + x % 2, x / 2, j - 1)
  }

  lemma {:induction false} ShiftInReverses(r: nat, x: nat, j: nat)
    ensures ShiftIn(r, x, j) == r * Pow2(j) + BitReverse(x, j)
    decreases j
  {
    if j > 0 {
      ShiftInReverses(2 * r + x % 2, x / 2, j - 1);
      ShiftInBit(r, x % 2, Pow2(j - 1));
    }
  }

  lemma ShiftInBit(r: nat, b: nat, h: nat)
    requires b <= 1
    ensures (2 * r + b) * h == r * (2 * h) + if b == 1 then h else 0
  {
    assert (2 * r + b) * h == r * (2 * h) + b * h;
  }

  /** `bit_reverse`, on 32-bit words. */
  method BitReverseWord(x0: nat, log2: nat) returns (r: nat)
    requires x0 < TWO32 && log2 <= 32
    ensures r == BitReverse(x0, log2)
  {
    hide Pow2, BitReverse;
    r := 0;
    var x: nat := x0;
    assert Pow2(0) == 1 by { Pow2Zero(); }
    ShiftInReverses(0, x0, log2);
    for i := 0 to log2
      invariant r < Pow2(i)
      invariant ShiftIn(r, x, log2 - i) == BitReverse(x0, log2)
    {
      // The shift drops no bit: r has at most i < 32 bits.
      NoShiftOverflow(r, i);
      r := (2 * r) % TWO32 + x % 2;
      x := x / 2;
    }
  }

  lemma Pow2Zero()
    ensures Pow2(0) == 1
  {
  }

  lemma NoShiftOverflow(r: nat, i: nat)
    requires r < Pow2(i) && i < 32
    ensures (2 * r) % TWO32 == 2 * r && 2 * r + 1 < Pow2(i + 1)
  {
    Pow2Monotonic(i, 32);
    Pow2Of32();
  }

  /** The array after bit reversal. */
  function BitReversed<T>(f: seq<T>, m: nat): (g: seq<T>)
    requires |f| == Pow2(m)
    ensures |g| == |f|
    ensures forall i :: 0 <= i < |g| ==> BitReverse(i, m) < |f| && g[i] == f[BitReverse(i, m)]
  {
    seq(|f|, i requires 0 <= i < |f| => f[BitReverse(i, m)])
  }

  /** The swap loop of `ntt`: each pair is exchanged once, when its smaller index comes up. */
  method PermuteByBitReversal<T>(a: array<T>, log2: nat)
    requires a.Length == Pow2(log2) <= TWO32 && log2 <= 32
    modifies a
    ensures a[..] == BitReversed(old(a[..]), log2)
  {
    hide BitReverse;
    var n := a.Length;
    ghost var before := a[..];
    for i := 0 to n
      invariant forall p :: 0 <= p < n ==> BitReverse(p, log2) < n
      invariant forall p :: 0 <= p < n ==>
        a[p] == if p < i || BitReverse(p, log2) < i then before[BitReverse(p, log2)] else before[p]
    {
      var j := BitReverseWord(i, log2);
      BitReverseInvolution(i, log2);
      forall p | 0 <= p < n && BitReverse(p, log2) == i
        ensures p == j
      {
        BitReverseInvolution(p, log2);
      }
      if i < j {
        a[i], a[j] := a[j], a[i];
      }
    }
  }
}
