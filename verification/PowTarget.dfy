/** The proof-of-work target: the byte-wise long division in 128-bit arithmetic, and the
    exact set of difficulties for which a hash is accepted iff hash * difficulty < 2^256. */
module PowTarget {
  import opened Bytes

  /** 32 bytes, most significant first, ordered as the derived `Ord` orders them. */
  type U256 = b: Bytes | |b| == 32 witness seq(32, _ => 0)

  const U120: nat := 0x100_0000_0000_0000_0000_0000_0000_0000
  const U128: nat := 0x1_0000_0000_0000_0000_0000_0000_0000_0000
  const MAX_TARGET: nat := U128 * U128 - 1

  // ----- 256-bit words -----

  /** `U256::from_big_endian`: longer slices panic. */
  function Padded(b: Bytes): (r: U256)
    requires |b| <= 32
    ensures FromBigEndian(r) == FromBigEndian(b)
  {
    LeadingZeros(32 - |b|, b);
    seq(32 - |b|, _ => 0) + b
  }

  function AsU128(x: U256): (v: nat)
    ensures v == FromBigEndian(x) % U128
  {
    hide Pow256;
    SplitValue(x[..16], x[16..]);
    assert x[..16] + x[16..] == x;
    BigEndianBound(x[16..]);
    Pow256Of16();
    LowPart(FromBigEndian(x[..16]), FromBigEndian(x[16..]));
    FromBigEndian(x[16..])
  }

  predicate IsZero(x: U256)
    ensures IsZero(x) <==> FromBigEndian(x) == 0
  {
    ZeroValue(x);
    forall i :: 0 <= i < 32 ==> x[i] == 0
  }

  /** Lexicographic comparison of equally long byte strings. */
  predicate LexAtMost(a: Bytes, b: Bytes)
    requires |a| == |b|
  {
    a == [] || a[0] < b[0] || (a[0] == b[0] && LexAtMost(a[1..], b[1..]))
  }

  lemma {:induction false} SplitValue(a: Bytes, b: Bytes)
    ensures FromBigEndian(a + b) == FromBigEndian(a) * Pow256(|b|) + FromBigEndian(b)
    decreases |b|
  {
    if b == [] {
      assert a + b == a;
    } else {
      var n := |b| - 1;
      SplitValue(a, b[..n]);
      assert (a + b)[..|a + b| - 1] == a + b[..n];
      Regroup(FromBigEndian(a), Pow256(n), FromBigEndian(b[..n]), b[n]);
    }
  }

  lemma Regroup(a: nat, p: nat, b: nat, last: nat)
    ensures (a * p + b) * 256 + last == a * (256 * p) + (b * 256 + last)
  {
    assert (a * p) * 256 == a * (256 * p);
  }

  lemma {:induction false} LeadingZeros(n: nat, b: Bytes)
    ensures FromBigEndian(seq(n, _ => 0) + b) == FromBigEndian(b)
  {
    hide Pow256;
    var z: Bytes := seq(n, _ => 0);
    SplitValue(z, b);
    ZeroValue(z);
  }

  lemma {:induction false} ZeroValue(x: Bytes)
    ensures FromBigEndian(x) == 0 <==> forall i :: 0 <= i < |x| ==> x[i] == 0
  {
    if x != [] {
      var n := |x| - 1;
      ZeroValue(x[..n]);
      assert forall i :: 0 <= i < n ==> x[i] == x[..n][i];
    }
  }

  lemma Pow256Of16()
    ensures Pow256(16) == U128
  {
    Pow256Of8();
    assert Pow256(10) == 256 * 256 * WORD;
    assert Pow256(12) == 256 * 256 * 256 * 256 * WORD;
    assert Pow256(14) == 256 * 256 * Pow256(12);
  }

  lemma Pow256Of32()
    ensures Pow256(32) == U128 * U128
  {
    hide Pow256;
    Pow256Of16();
    Pow256Add(16, 16);
  }

  lemma {:induction false} Pow256Add(m: nat, n: nat)
    ensures Pow256(m + n) == Pow256(m) * Pow256(n)
  {
    if m > 0 {
      Pow256Add(m - 1, n);
      assert (256 * Pow256(m - 1)) * Pow256(n) == 256 * (Pow256(m - 1) * Pow256(n));
    }
  }

  lemma LowPart(high: nat, low: nat)
    requires low < U128
    ensures (high * U128 + low) % U128 == low
  {
  }

  /** The derived byte order is the order of values. */
  lemma {:induction false} LexIsValueOrder(a: Bytes, b: Bytes)
    requires |a| == |b|
    ensures LexAtMost(a, b) <==> FromBigEndian(a) <= FromBigEndian(b)
  {
    if a != [] {
      var p := Pow256(|a| - 1);
      LexIsValueOrder(a[1..], b[1..]);
      SplitValue(a[..1], a[1..]);
      SplitValue(b[..1], b[1..]);
      assert a[..1] + a[1..] == a && b[..1] + b[1..] == b;
      SingleByte(a[..1]);
      SingleByte(b[..1]);
      BigEndianBound(a[1..]);
      BigEndianBound(b[1..]);
      hide FromBigEndian, Pow256;
      HighByteDecides(a[0], b[0], FromBigEndian(a[1..]), FromBigEndian(b[1..]), p);
    }
  }

  lemma SingleByte(b: Bytes)
    requires |b| == 1
    ensures FromBigEndian(b) == b[0]
  {
    assert b[..0] == [];
  }

  lemma HighByteDecides(x: nat, y: nat, low: nat, low': nat, p: nat)
    requires low < p && low' < p
    ensures x * p + low <= y * p + low' <==> x < y || (x == y && low <= low')
  {
    if x < y {
      assert (x + 1) * p <= y * p;
    } else if y < x {
      assert (y + 1) * p <= x * p;
    }
  }

  // ----- the target -----

  /** The value of `pow_target_from_difficulty`, for a difficulty of value d. */
  function TargetValue(d: nat): (t: nat)
    ensures t <= MAX_TARGET
  {
    var low := d % U128;
    if d == 0 then MAX_TARGET
    else if low == 0 || low >= U120 then 0
    else
      QuotientBound(MAX_TARGET, low);
      MAX_TARGET / low
  }

  lemma QuotientBound(m: nat, d: nat)
    requires d >= 1
    ensures m / d <= m
  {
    DivisionMeans(m, d, m / d);
    AtLeastItself(m / d, d);
  }

  lemma AtLeastItself(q: nat, d: nat)
    requires d >= 1
    ensures q * d >= q
  {
  }

  /** Integer division, as an order fact. */
  lemma DivisionMeans(m: nat, d: nat, v: nat)
    requires d >= 1
    ensures v <= m / d <==> v * d <= m
  {
    var q := m / d;
    assert m == q * d + m % d;
    if v <= q {
      assert v * d <= q * d;
    } else {
      assert (q + 1) * d <= v * d;
      assert (q + 1) * d == q * d + d;
    }
  }

  /** The operators `/` and `%` of unsigned numbers. */
  function Quotient(x: nat, d: nat): nat
    requires d >= 1
  {
    x / d
  }

  function Remainder(x: nat, d: nat): nat
    requires d >= 1
  {
    x % d
  }

  /** p - 1 divided by d has quotient q and remainder r. */
  ghost predicate Divided(q: nat, r: nat, d: nat, p: nat) {
    r < d && q * d + r == p - 1
  }

  /** One step of the byte division. */
  lemma DivisionStep(q: nat, r: nat, d: nat, p: nat)
    requires 1 <= d < U120 && Divided(q, r, d, p)
    ensures var value := r * 256 + 0xFF;
            && value < U128
            && Quotient(value, d) <= 0xFF
            && Divided(q * 256 + Quotient(value, d), Remainder(value, d), d, 256 * p)
  {
    var value := r * 256 + 0xFF;
    assert value < 256 * d;
    DivisionMeans(value, d, 256);
    var (digit, rest) := (value / d, value % d);
    assert value == digit * d + rest;
    assert (q * 256 + digit) * d == 256 * (q * d) + digit * d;
  }

  /** `pow_target_from_difficulty`.  No intermediate value leaves 128 bits and the clamp to
      a byte never applies. */
  method PowTargetFromDifficulty(difficulty: U256) returns (target: U256)
    ensures FromBigEndian(target) == TargetValue(FromBigEndian(difficulty))
  {
    hide FromBigEndian, Pow256;
    Pow256Of32();
    if IsZero(difficulty) {
      AllOnes(32);
      return seq(32, _ => 0xFF);
    }
    var divisor := AsU128(difficulty);
    if divisor == 0 {
      ZeroValue(seq(32, _ => 0));
      return seq(32, _ => 0);
    }
    if divisor > U120 - 1 {
      ZeroValue(seq(32, _ => 0));
      return seq(32, _ => 0);
    }
    target := LongDivision(divisor);
    QuotientIs(FromBigEndian(target), divisor);
  }

  lemma QuotientIs(q: nat, d: nat)
    requires d >= 1 && q * d <= MAX_TARGET < q * d + d
    ensures q == MAX_TARGET / d
  {
    DivisionMeans(MAX_TARGET, d, q);
    DivisionMeans(MAX_TARGET, d, q + 1);
    assert (q + 1) * d == q * d + d;
  }

  lemma {:induction false} AllOnes(n: nat)
    ensures FromBigEndian(seq(n, _ => 0xFF)) == Pow256(n) - 1
  {
    if n == 0 {
      assert seq(0, _ => 0xFF) == [];
    } else {
      var s: Bytes := seq(n, _ => 0xFF);
      assert s[..n - 1] == seq(n - 1, _ => 0xFF);
      AllOnes(n - 1);
    }
  }

  /** The body of the division loop: all values stay within 128 bits, and the clamp with
      `min(0xFF)` changes nothing. */
  method DivideByte(remainder: nat, divisor: nat, ghost q: nat, ghost p: nat) returns (slot: Byte, rest: nat)
    requires 1 <= divisor < U120 && Divided(q, remainder, divisor, p)
    ensures Divided(q * 256 + slot, rest, divisor, 256 * p)
  {
    hide Divided, Quotient, Remainder;
    DivisionStep(q, remainder, divisor, p);
    var value := remainder * 256 + 0xFF;
    assert value < U128;
    var digit := Quotient(value, divisor);
    assert digit <= 0xFF;
    slot := if digit < 0xFF then digit else 0xFF;
    rest := Remainder(value, divisor);
  }

  /** The loop over the quotient bytes. */
  method LongDivision(divisor: nat) returns (target: U256)
    requires 1 <= divisor < U120
    ensures FromBigEndian(target) * divisor <= MAX_TARGET < FromBigEndian(target) * divisor + divisor
  {
    hide FromBigEndian, Pow256, Divided;
    var quotient := new Byte[32];
    var remainder: nat := 0;
    assert quotient[..0] == [];
    StartOfDivision(divisor);
    for i := 0 to 32
      invariant Divided(FromBigEndian(quotient[..i]), remainder, divisor, Pow256(i))
    {
      ghost var done := quotient[..i];
      var slot, rest := DivideByte(remainder, divisor, FromBigEndian(done), Pow256(i));
      quotient[i] := slot;
      assert quotient[..i + 1] == done + [slot];
      AppendByte(done, slot, i);
      remainder := rest;
    }
    EndOfDivision(FromBigEndian(quotient[..32]), remainder, divisor);
    assert quotient[..32] == quotient[..];
    target := quotient[..];
  }

  lemma EndOfDivision(q: nat, r: nat, d: nat)
    requires Divided(q, r, d, Pow256(32))
    ensures q * d <= MAX_TARGET < q * d + d
  {
    hide Pow256;
    Pow256Of32();
  }

  lemma StartOfDivision(d: nat)
    requires d >= 1
    ensures Divided(FromBigEndian([]), 0, d, Pow256(0))
  {
  }

  lemma AppendByte(b: Bytes, x: Byte, i: nat)
    ensures FromBigEndian(b + [x]) == FromBigEndian(b) * 256 + x
    ensures Pow256(i + 1) == 256 * Pow256(i)
  {
    assert (b + [x])[..|b|] == b;
  }

  // ----- acceptance -----

  /** `pow_hash_meets_target`. */
  predicate HashMeetsTarget(hash: Bytes, target: U256)
    requires |hash| <= 32
    ensures HashMeetsTarget(hash, target) <==> FromBigEndian(hash) <= FromBigEndian(target)
  {
    LexIsValueOrder(Padded(hash), target);
    LexAtMost(Padded(hash), target)
  }

  /** Below 2^120 the target accepts exactly the hashes with hash * difficulty < 2^256. */
  lemma AcceptanceBelow120Bits(d: nat, v: nat)
    requires d < U120 && v <= MAX_TARGET
    ensures v <= TargetValue(d) <==> v * d <= MAX_TARGET
  {
    if d > 0 {
      assert d % U128 == d;
      hide TargetValue;
      TargetIsQuotient(d);
      DivisionMeans(MAX_TARGET, d, v);
    }
  }

  lemma TargetIsQuotient(d: nat)
    requires 1 <= d < U120
    ensures TargetValue(d) == MAX_TARGET / d
  {
    assert d % U128 == d;
  }

  /** From 2^120 on it does not: the target is zero, or it is the target of the low half. */
  lemma AcceptanceFailsAbove(d: nat) returns (v: nat)
    requires U120 <= d <= MAX_TARGET
    ensures v <= MAX_TARGET
    ensures !(v <= TargetValue(d) <==> v * d <= MAX_TARGET)
  {
    var low := d % U128;
    if low == 0 || low >= U120 {
      v := 1;
    } else {
      v := U128;
      assert d == (d / U128) * U128 + low;
      assert d >= U128;
      assert U128 * low <= MAX_TARGET;
      DivisionMeans(MAX_TARGET, low, U128);
      assert U128 * d >= U128 * U128;
    }
  }

  /** Exactness: the difficulties whose target means what it should are those below 2^120. */
  lemma AcceptanceExact(d: nat)
    requires d <= MAX_TARGET
    ensures (forall v :: 0 <= v <= MAX_TARGET ==> (v <= TargetValue(d) <==> v * d <= MAX_TARGET)) <==> d < U120
  {
    hide TargetValue;
    if d < U120 {
      forall v | 0 <= v <= MAX_TARGET
        ensures v <= TargetValue(d) <==> v * d <= MAX_TARGET
      {
        AcceptanceBelow120Bits(d, v);
      }
    } else {
      var v := AcceptanceFailsAbove(d);
    }
  }

  /** The target of a difficulty whose low half is usable never lies below a smaller one's. */
  lemma MonotoneBelow(d: nat, d': nat)
    requires d <= d' < U120
    ensures TargetValue(d') <= TargetValue(d)
  {
    if d > 0 {
      var t := TargetValue(d');
      hide TargetValue;
      TargetIsQuotient(d);
      TargetIsQuotient(d');
      LargerDivisor(MAX_TARGET, d, d', t);
    }
  }

  lemma LargerDivisor(m: nat, d: nat, d': nat, t: nat)
    requires 1 <= d <= d' && t <= m / d'
    ensures t <= m / d
  {
    DivisionMeans(m, d', t);
    SmallerProduct(t, d, d');
    DivisionMeans(m, d, t);
  }

  lemma SmallerProduct(t: nat, d: nat, d': nat)
    requires d <= d'
    ensures t * d <= t * d'
  {
  }

  /** Raising the difficulty to d' never admits a new hash iff d' is below 2^120 or its
      target is zero; a larger d' with a small low half admits hashes that 2^120 rejects. */
  lemma MonotoneExact(d': nat)
    requires d' <= MAX_TARGET
    ensures (forall d :: 0 <= d <= d' ==> TargetValue(d') <= TargetValue(d)) <==>
            (d' < U120 || d' % U128 == 0 || d' % U128 >= U120)
  {
    if d' < U120 {
      hide TargetValue;
      forall d | 0 <= d <= d'
        ensures TargetValue(d') <= TargetValue(d)
      {
        MonotoneBelow(d, d');
      }
    } else if !(d' % U128 == 0 || d' % U128 >= U120) {
      assert TargetValue(U120) == 0;
      DivisionMeans(MAX_TARGET, d' % U128, 1);
      assert TargetValue(d') >= 1;
    }
  }

  /** The target of every difficulty, exactly: everything for 0; otherwise, with the low 128
      bits as divisor, the values v with v * low < 2^256 if 0 < low < 2^120, and only 0 if not. */
  lemma TargetExact(d: nat, v: nat)
    requires d < 0x1_0000_0000_0000_0000_0000_0000_0000_0000 * 0x1_0000_0000_0000_0000_0000_0000_0000_0000
    requires v < 0x1_0000_0000_0000_0000_0000_0000_0000_0000 * 0x1_0000_0000_0000_0000_0000_0000_0000_0000
    ensures var low := d % 0x1_0000_0000_0000_0000_0000_0000_0000_0000;
            v <= TargetValue(d) <==>
            d == 0 || v == 0 ||
            (0 < low < 0x100_0000_0000_0000_0000_0000_0000_0000 &&
             v * low < 0x1_0000_0000_0000_0000_0000_0000_0000_0000 * 0x1_0000_0000_0000_0000_0000_0000_0000_0000)
  {
    var low := d % U128;
    if d != 0 && 0 < low < U120 {
      DivisionMeans(MAX_TARGET, low, v);
    }
  }

  /** A difficulty of 2^128 + 1 has the easiest target of all. */
  lemma LargeDifficultyCanBeEasy()
    ensures TargetValue(U128 + 1) == MAX_TARGET && TargetValue(U120) == 0
  {
  }

  /** End to end: mining against a difficulty below 2^120. */
  lemma PowCheckExact(hash: Bytes, difficulty: U256, target: U256)
    requires |hash| <= 32 && FromBigEndian(target) == TargetValue(FromBigEndian(difficulty))
    requires FromBigEndian(difficulty) < U120
    ensures HashMeetsTarget(hash, target) <==> FromBigEndian(hash) * FromBigEndian(difficulty) <= MAX_TARGET
  {
    hide FromBigEndian, TargetValue, LexAtMost, Pow256;
    BigEndianBound(Padded(hash));
    Pow256Of32();
    AcceptanceBelow120Bits(FromBigEndian(difficulty), FromBigEndian(hash));
  }
}
