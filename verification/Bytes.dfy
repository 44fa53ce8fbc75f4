/** Bytes, big-endian words, and the hash as a parameter. */
module Bytes {
  type Byte = x: nat | x < 256
  type Bytes = seq<Byte>

  /** A 32-byte hash value. */
  type Digest = d: Bytes | |d| == 32 witness seq(32, _ => 0)

  /** Keccak-256 is a parameter: any function from byte strings to digests. */
  type Hash = Bytes -> Digest

  const WORD: nat := 0x1_0000_0000_0000_0000

  /** The n-byte big-endian form of x modulo 256^n. */
  function BigEndian(x: nat, n: nat): (b: Bytes)
    ensures |b| == n
  {
    if n == 0 then [] else BigEndian(x / 256, n - 1) + [x % 256]
  }

  function FromBigEndian(b: Bytes): nat {
    if b == [] then 0 else FromBigEndian(b[..|b| - 1]) * 256 + b[|b| - 1]
  }

  /** `to_be_bytes` of a 64-bit word. */
  function WordBytes(x: nat): (b: Bytes)
    ensures |b| == 8
  {
    BigEndian(x, 8)
  }

  /** The first eight bytes of a digest as a word. */
  function WordOf(d: Digest): (x: nat)
    ensures x < WORD
  {
    BigEndianBound(d[..8]);
    Pow256Of8();
    FromBigEndian(d[..8])
  }

  function Pow256(n: nat): (p: nat)
    ensures p >= 1
  {
    if n == 0 then 1 else 256 * Pow256(n - 1)
  }

  lemma Pow256Of8()
    ensures Pow256(8) == WORD
  {
    assert Pow256(4) == 0x1_0000_0000;
    assert Pow256(5) == 256 * 0x1_0000_0000;
    assert Pow256(6) == 256 * 256 * 0x1_0000_0000;
    assert Pow256(7) == 256 * 256 * 256 * 0x1_0000_0000;
  }

  lemma {:induction false} BigEndianBound(b: Bytes)
    ensures FromBigEndian(b) < Pow256(|b|)
  {
    if b != [] {
      BigEndianBound(b[..|b| - 1]);
    }
  }

  lemma {:induction false} BigEndianRoundTrip(x: nat, n: nat)
    requires x < Pow256(n)
    ensures FromBigEndian(BigEndian(x, n)) == x
  {
    if n > 0 {
      BigEndianRoundTrip(x / 256, n - 1);
      var b := BigEndian(x, n);
      assert b[..n - 1] == BigEndian(x / 256, n - 1);
    }
  }

  /** Byte j of the big-endian form, most significant first. */
  lemma {:induction false} BigEndianByte(x: nat, n: nat, j: nat)
    requires j < n
    ensures BigEndian(x, n)[j] == x / Pow256(n - 1 - j) % 256
  {
    if j < n - 1 {
      BigEndianByte(x / 256, n - 1, j);
      DivideTwice(x, Pow256(n - 2 - j));
    }
  }

  lemma DivideTwice(x: nat, p: nat)
    requires p >= 1
    ensures x / 256 / p == x / (256 * p)
  {
    var q, r := x / 256 / p, x / 256 % p;
    assert x / 256 == q * p + r;
    assert x == (q * p + r) * 256 + x % 256;
    assert x == q * (256 * p) + (r * 256 + x % 256);
    FloorIs(x, q, r * 256 + x % 256, 256 * p);
  }

  lemma FloorIs(x: nat, q: nat, r: nat, d: nat)
    requires r < d && x == q * d + r
    ensures x / d == q
  {
    var q', r' := x / d, x % d;
    assert x == q' * d + r';
    assert q < q' ==> (q + 1) * d <= q' * d;
    assert q' < q ==> (q' + 1) * d <= q * d;
  }

  lemma WordBytesInjective(x: nat, y: nat)
    requires x < WORD && y < WORD && WordBytes(x) == WordBytes(y)
    ensures x == y
  {
    Pow256Of8();
    BigEndianRoundTrip(x, 8);
    BigEndianRoundTrip(y, 8);
  }

  /** Two different inputs with the same hash. */
  ghost predicate Collision(hash: Hash, x: Bytes, y: Bytes) {
    x != y && hash(x) == hash(y)
  }
}
