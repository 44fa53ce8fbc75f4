/** The field operators on residues of integers. */
module Residues {
  import opened Goldilocks

  lemma ElemIsResidue(x: Elem)
    ensures x == x % MODULUS
  {
  }

  lemma NewIsResidue(x: U64)
    ensures New(x) == x % MODULUS
  {
  }

  lemma MulResidue(u: Elem, v: Elem, m: int, n: int)
    requires u == m % MODULUS && v == n % MODULUS
    ensures Mul(u, v) == (m * n) % MODULUS
  {
    hide Mul;
    MulIsModular(u, v);
    ProductResidue(m, n);
  }

  lemma ProductResidue(m: int, n: int)
    ensures ((m % MODULUS) * (n % MODULUS)) % MODULUS == (m * n) % MODULUS
  {
    var q, r, q', r' := m / MODULUS, m % MODULUS, n / MODULUS, n % MODULUS;
    assert m == q * MODULUS + r && n == q' * MODULUS + r';
    assert m * n == (q * n + r * q') * MODULUS + r * r' by {
      assert m * n == (q * MODULUS) * n + r * n;
      assert r * n == r * (q' * MODULUS) + r * r';
      assert (q * MODULUS) * n == (q * n) * MODULUS;
      assert r * (q' * MODULUS) == (r * q') * MODULUS;
      assert (q * n + r * q') * MODULUS == (q * n) * MODULUS + (r * q') * MODULUS;
    }
    MultipleDrops(q * n + r * q', r * r');
  }

  lemma MultipleDrops(k: int, n: int)
    ensures (k * MODULUS + n) % MODULUS == n % MODULUS
  {
  }

  lemma AddResidue(u: Elem, v: Elem, m: int, n: int)
    requires u == m % MODULUS && v == n % MODULUS
    ensures Add(u, v) == (m + n) % MODULUS
  {
    hide Add;
    AddIsModular(u, v);
  }

  lemma SubResidue(u: Elem, v: Elem, m: int, n: int)
    requires u == m % MODULUS && v == n % MODULUS
    ensures Sub(u, v) == (m - n) % MODULUS
  {
    hide Add;
    SubAdds(u, v);
    AddIsModular(v, Sub(u, v));
  }
}
