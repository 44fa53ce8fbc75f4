/** 64-bit words and their bits. */
module Words {
  import opened Goldilocks
  import opened Powers
  import opened Primality
  import opened RootsOfUnity

  /** Bit j of x: `(x >> j) & 1`. */
  function BitAt(x: nat, j: nat): (b: nat)
    ensures b <= 1
  {
    Shr(x, j) % 2
  }

  /** Bitwise exclusive or. */
  function Xor(a: nat, b: nat): nat
    decreases a + b
  {
    if a == 0 && b == 0 then 0 else 2 * Xor(a / 2, b / 2) + (a + b) % 2
  }

  /** The wrapping shift `x << s` of a word. */
  function Shl(x: U64, s: nat): U64 {
    (x * Pow2(s)) % TWO64
  }

  /** The number with the given bits, least significant first. */
  function FromBits(bits: seq<nat>): nat {
    if bits == [] then 0 else bits[0] + 2 * FromBits(bits[1..])
  }

  lemma {:induction false} ShrCompose(x: nat, a: nat, b: nat)
    ensures Shr(Shr(x, a), b) == Shr(x, a + b)
  {
    if b > 0 {
      ShrCompose(x, a, b - 1);
    }
  }

  /** Bit j is the j-th binary digit. */
  lemma BitIsDigit(x: nat, j: nat)
    ensures BitAt(x, j) == x / Pow2(j) % 2
  {
    hide Shr, Pow2;
    ShrIsQuotient(x, j);
  }

  lemma {:induction false} ShrIsQuotient(x: nat, j: nat)
    ensures Shr(x, j) == x / Pow2(j)
  {
    if j > 0 {
      ShrIsQuotient(x, j - 1);
      HalfOfQuotient(x, Pow2(j - 1));
    }
  }

  lemma HalfOfQuotient(x: nat, h: nat)
    requires h >= 1
    ensures x / h / 2 == x / (2 * h)
  {
    var q, r := x / h / 2, x / h % 2 * h + x % h;
    assert x == h * (x / h) + x % h;
    assert h * (2 * q + x / h % 2) == (2 * h) * q + x / h % 2 * h;
    assert x / h % 2 == 0 || x / h % 2 == 1;
    ModUnique(x, q, r, 2 * h);
  }

  lemma BitOfHalf(x: nat, j: nat)
    ensures BitAt(x / 2, j) == BitAt(x, j + 1)
    ensures BitAt(x, 0) == x % 2
  {
    ShrCompose(x, 1, j);
    assert Shr(x, 1) == Shr(x, 0) / 2;
  }

  lemma {:induction false} ShrZero(j: nat)
    ensures Shr(0, j) == 0
  {
    if j > 0 {
      ShrZero(j - 1);
    }
  }

  lemma {:induction false} BitOfXor(a: nat, b: nat, j: nat)
    ensures BitAt(Xor(a, b), j) == (BitAt(a, j) + BitAt(b, j)) % 2
    decreases j
  {
    hide Shr, BitAt, Xor;
    XorHalf(a, b);
    BitOfHalf(a, 0);
    BitOfHalf(b, 0);
    BitOfHalf(Xor(a, b), 0);
    if j == 0 {
      ParityOfParities(a, b);
    } else {
      BitOfHalf(a, j - 1);
      BitOfHalf(b, j - 1);
      BitOfHalf(Xor(a, b), j - 1);
      BitOfXor(a / 2, b / 2, j - 1);
    }
  }

  lemma ParityOfParities(a: nat, b: nat)
    ensures (a + b) % 2 == (a % 2 + b % 2) % 2
  {
  }

  lemma XorHalf(a: nat, b: nat)
    ensures Xor(a, b) / 2 == Xor(a / 2, b / 2)
    ensures Xor(a, b) % 2 == (a + b) % 2
  {
  }

  lemma {:induction false} XorBound(a: nat, b: nat, n: nat)
    requires a < Pow2(n) && b < Pow2(n)
    ensures Xor(a, b) < Pow2(n)
    decreases n
  {
    if n > 0 {
      XorBound(a / 2, b / 2, n - 1);
    }
  }

  lemma {:induction false} ShrAddMultiple(y: nat, m: nat, n: nat, j: nat)
    requires j <= n
    ensures Shr(y + m * Pow2(n), j) == Shr(y, j) + m * Pow2(n - j)
  {
    hide Pow2;
    if j > 0 {
      ShrAddMultiple(y, m, n, j - 1);
      DoubledMultiple(m, n - j);
      HalfOfSum(Shr(y, j - 1), m * Pow2(n - j));
    }
  }

  lemma DoubledMultiple(m: nat, k: nat)
    ensures m * Pow2(k + 1) == 2 * (m * Pow2(k))
  {
    var h := Pow2(k);
    assert m * (2 * h) == 2 * (m * h);
  }

  lemma HalfOfSum(x: nat, y: nat)
    ensures (x + 2 * y) / 2 == x / 2 + y
  {
  }

  lemma EvenMultiple(m: nat, k: nat)
    requires k >= 1
    ensures (m * Pow2(k)) % 2 == 0
  {
    hide Pow2;
    DoubledMultiple(m, k - 1);
  }

  lemma ParityOfSum(x: nat, e: nat)
    requires e % 2 == 0
    ensures (x + e) % 2 == x % 2
  {
  }

  lemma BitAddMultiple(y: nat, m: nat, n: nat, j: nat)
    requires j < n
    ensures BitAt(y + m * Pow2(n), j) == BitAt(y, j)
  {
    hide Shr, Pow2;
    ShrAddMultiple(y, m, n, j);
    EvenMultiple(m, n - j);
    ParityOfSum(Shr(y, j), m * Pow2(n - j));
  }

  lemma DivModSplit(y: nat, d: nat)
    requires d >= 1
    ensures y == y % d + (y / d) * d
  {
  }

  /** Reducing modulo 2^n keeps the low n bits. */
  lemma BitOfMod(y: nat, n: nat, j: nat)
    requires j < n
    ensures BitAt(y % Pow2(n), j) == BitAt(y, j)
  {
    hide BitAt, Pow2;
    DivModSplit(y, Pow2(n));
    BitAddMultiple(y % Pow2(n), y / Pow2(n), n, j);
  }

  /** Multiplying by 2^s moves bits up. */
  lemma BitOfProduct(x: nat, s: nat, j: nat)
    ensures BitAt(x * Pow2(s), j) == if j >= s then BitAt(x, j - s) else 0
  {
    hide Shr, Pow2;
    if j >= s {
      ShrOfMultiple(x, 0, s);
      ShrCompose(x * Pow2(s), s, j - s);
    } else {
      BitAddMultiple(0, x, s, j);
      ShrZero(j);
    }
  }

  lemma Pow2Of64()
    ensures Pow2(64) == TWO64
  {
    Pow2Of32();
    Pow2Add(32, 32);
  }

  lemma BitOfShl(x: U64, s: nat, j: nat)
    requires j < 64
    ensures BitAt(Shl(x, s), j) == if j >= s then BitAt(x, j - s) else 0
  {
    hide BitAt;
    Pow2Of64();
    BitOfMod(x * Pow2(s), 64, j);
    BitOfProduct(x, s, j);
  }

  lemma BitOfShr(x: U64, s: nat, j: nat)
    requires j < 64
    ensures BitAt(Shr(x, s), j) == if j + s < 64 then BitAt(x, j + s) else 0
  {
    hide Shr;
    ShrCompose(x, s, j);
    if j + s >= 64 {
      ShrOfWord(x);
      ShrCompose(x, 64, j + s - 64);
      ShrZero(j + s - 64);
    }
  }

  lemma {:induction false} ShrShrinks(x: nat, s: nat)
    ensures Shr(x, s) <= x
  {
    if s > 0 {
      ShrShrinks(x, s - 1);
    }
  }

  ghost predicate AreBits(bits: seq<nat>) {
    forall j :: 0 <= j < |bits| ==> bits[j] <= 1
  }

  lemma {:induction false} FromBitsBound(bits: seq<nat>)
    requires AreBits(bits)
    ensures FromBits(bits) < Pow2(|bits|)
  {
    if bits != [] {
      FromBitsBound(bits[1..]);
    }
  }

  lemma FromBitsHalf(bits: seq<nat>)
    requires AreBits(bits) && bits != []
    ensures FromBits(bits) / 2 == FromBits(bits[1..]) && FromBits(bits) % 2 == bits[0]
  {
  }

  /** Reading back the bits of an assembled number. */
  lemma {:induction false} BitOfFromBits(bits: seq<nat>, j: nat)
    requires AreBits(bits) && j < |bits|
    ensures BitAt(FromBits(bits), j) == bits[j]
    decreases j
  {
    hide BitAt, FromBits;
    FromBitsHalf(bits);
    if j == 0 {
      BitOfHalf(FromBits(bits), 0);
    } else {
      BitOfHalf(FromBits(bits), j - 1);
      BitOfFromBits(bits[1..], j - 1);
    }
  }

  /** The low n bits of x. */
  function BitsOf(x: nat, n: nat): (b: seq<nat>)
    ensures |b| == n && AreBits(b)
    ensures forall j :: 0 <= j < n ==> b[j] == BitAt(x, j)
  {
    seq(n, j requires 0 <= j => BitAt(x, j))
  }

  /** A number below 2^n is assembled from its n bits. */
  lemma {:induction false} FromBitsOf(x: nat, n: nat)
    requires x < Pow2(n)
    ensures FromBits(BitsOf(x, n)) == x
    decreases n
  {
    hide Shr;
    if n > 0 {
      FromBitsOf(x / 2, n - 1);
      BitOfHalf(x, 0);
      assert BitsOf(x, n)[1..] == BitsOf(x / 2, n - 1) by {
        forall j | 0 <= j < n - 1
          ensures BitsOf(x, n)[1..][j] == BitsOf(x / 2, n - 1)[j]
        {
          BitOfHalf(x, j);
        }
      }
    }
  }

  lemma {:induction false} FromBitsAppend(bits: seq<nat>, b: nat)
    requires b <= 1
    ensures FromBits(bits + [b]) == FromBits(bits) + if b == 1 then Pow2(|bits|) else 0
  {
    if bits == [] {
      assert [] + [b] == [b];
      assert [b][1..] == [];
    } else {
      FromBitsAppend(bits[1..], b);
      assert (bits + [b])[1..] == bits[1..] + [b];
    }
  }
}
