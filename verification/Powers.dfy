/** Exponentiation: the mathematical power and its laws, and the two literal
    computations 7^(2^32 - 1) and 7^((p-1)/2) = -1. */
module Powers {
  import opened Goldilocks

  /** b^e in the field. */
  function Pow(b: Elem, e: nat): Elem {
    if e == 0 then ONE else Mul(b, Pow(b, e - 1))
  }

  /** 2^k as an integer (the shift `1 << k`). */
  function Pow2(k: nat): (n: nat)
    ensures n >= 1
  {
    if k == 0 then 1 else 2 * Pow2(k - 1)
  }

  lemma {:induction false} PowAdd(b: Elem, m: nat, n: nat)
    ensures Pow(b, m + n) == Mul(Pow(b, m), Pow(b, n))
  {
    hide Mul;
    if m == 0 {
      MulNeutral(Pow(b, n));
    } else {
      PowAdd(b, m - 1, n);
      MulAssociates(b, Pow(b, m - 1), Pow(b, n));
    }
  }

  lemma {:induction false} PowMul(b: Elem, m: nat, n: nat)
    ensures Pow(Pow(b, m), n) == Pow(b, m * n)
  {
    hide Mul;
    if n == 0 {
      assert m * n == 0;
    } else {
      PowMul(b, m, n - 1);
      assert m * n == m + m * (n - 1);
      PowAdd(b, m, m * (n - 1));
    }
  }

  lemma {:induction false} PowOfProduct(a: Elem, b: Elem, n: nat)
    ensures Pow(Mul(a, b), n) == Mul(Pow(a, n), Pow(b, n))
  {
    hide Mul;
    MulLaws();
    if n > 0 {
      PowOfProduct(a, b, n - 1);
      var x, y := Pow(a, n - 1), Pow(b, n - 1);
      assert Mul(Mul(a, b), Mul(x, y)) == Mul(Mul(a, x), Mul(b, y));
    }
  }

  lemma {:induction false} PowOne(b: Elem)
    ensures Pow(b, 1) == b
    ensures Pow(b, 2) == Mul(b, b)
  {
    hide Mul;
    MulNeutral(b);
    assert Pow(b, 1) == Mul(b, Pow(b, 0));
    assert Pow(b, 2) == Mul(b, Pow(b, 1));
  }

  lemma PowUnfold(b: Elem, n: nat)
    ensures Pow(b, 0) == ONE
    ensures Pow(b, n + 1) == Mul(b, Pow(b, n))
  {
  }

  lemma {:induction false} OnePow(n: nat)
    ensures Pow(ONE, n) == ONE
  {
    hide Mul;
    if n > 0 {
      OnePow(n - 1);
      MulNeutral(ONE);
    }
  }

  lemma {:induction false} Pow2Add(j: nat, k: nat)
    ensures Pow2(j + k) == Pow2(j) * Pow2(k)
  {
    if j > 0 {
      Pow2Add(j - 1, k);
      assert 2 * (Pow2(j - 1) * Pow2(k)) == (2 * Pow2(j - 1)) * Pow2(k);
    }
  }

  lemma {:induction false} Pow2Monotonic(j: nat, k: nat)
    requires j < k
    ensures 2 * Pow2(j) <= Pow2(k)
    decreases k
  {
    if j + 1 < k {
      Pow2Monotonic(j, k - 1);
    }
  }

  lemma Pow2Of32()
    ensures Pow2(31) == 0x8000_0000 && Pow2(32) == 0x1_0000_0000
  {
    assert Pow2(8) == 256;
    Pow2Add(8, 8);
    Pow2Add(16, 8);
    assert Pow2(24) == 0x100_0000;
    assert Pow2(7) == 128;
    Pow2Add(24, 7);
  }

  // ----- 7^((p-1)/2) = -1, as a chain of squarings of literals -----

  lemma SquareStep(e: nat, x: Elem, y: Elem)
    requires Pow(GENERATOR, e) == x
    requires (x * x) % MODULUS == y
    ensures Pow(GENERATOR, 2 * e) == y
  {
    hide Mul, Pow;
    PowAdd(GENERATOR, e, e);
    MulIsModular(x, x);
  }

  lemma ProductStep(e: nat, x: Elem, e': nat, x': Elem, y: Elem)
    requires Pow(GENERATOR, e) == x && Pow(GENERATOR, e') == x'
    requires (x * x') % MODULUS == y
    ensures Pow(GENERATOR, e + e') == y
  {
    hide Mul, Pow;
    PowAdd(GENERATOR, e, e');
    MulIsModular(x, x');
  }

  /** The generator raised to the odd part of p - 1: a primitive 2^32-th root of unity. */
  const ROOT32: Elem := 1753635133440165772

  lemma GeneratorToRoot32()
    ensures Pow(GENERATOR, 0xFFFF_FFFF) == ROOT32
  {
    hide Mul, Pow;
    PowOne(GENERATOR);
    SquareStep(1, 7, 49);
    ProductStep(2, 49, 1, 7, 343);
    SquareStep(3, 343, 117649);
    SquareStep(6, 117649, 13841287201);
    ProductStep(12, 13841287201, 3, 343, 4747561509943);
    SquareStep(15, 4747561509943, 1582037354089406189);
    SquareStep(30, 1582037354089406189, 6704211459967285318);
    SquareStep(60, 6704211459967285318, 12536486945555764682);
    SquareStep(120, 12536486945555764682, 8329639379454877396);
    ProductStep(240, 8329639379454877396, 15, 4747561509943, 8125271997680889877);
    SquareStep(255, 8125271997680889877, 10915923311382173605);
    SquareStep(510, 10915923311382173605, 8682737361258234340);
    SquareStep(1020, 8682737361258234340, 13168992710278412212);
    SquareStep(2040, 13168992710278412212, 3615243740316660512);
    SquareStep(4080, 3615243740316660512, 9701552052102210316);
    SquareStep(8160, 9701552052102210316, 12082995573853045936);
    SquareStep(16320, 12082995573853045936, 2592469405483382171);
    SquareStep(32640, 2592469405483382171, 8929377406043347353);
    ProductStep(65280, 8929377406043347353, 255, 8125271997680889877, 12134830135347446949);
    SquareStep(65535, 12134830135347446949, 618113109518621269);
    SquareStep(131070, 618113109518621269, 10057574059836717585);
    SquareStep(262140, 10057574059836717585, 11436575600859740313);
    SquareStep(524280, 11436575600859740313, 2460531272136303351);
    SquareStep(1048560, 2460531272136303351, 5287351674330089703);
    SquareStep(2097120, 5287351674330089703, 2729558173611838869);
    SquareStep(4194240, 2729558173611838869, 5809869834850305452);
    SquareStep(8388480, 5809869834850305452, 4380238239217790048);
    SquareStep(16776960, 4380238239217790048, 10313688370767105378);
    SquareStep(33553920, 10313688370767105378, 1116132233887293652);
    SquareStep(67107840, 1116132233887293652, 8201916556687100419);
    SquareStep(134215680, 8201916556687100419, 9569002298025400893);
    SquareStep(268431360, 9569002298025400893, 3860342023949954178);
    SquareStep(536862720, 3860342023949954178, 2518827640559301834);
    SquareStep(1073725440, 2518827640559301834, 4408381949760333744);
    SquareStep(2147450880, 4408381949760333744, 5214785644524920463);
    ProductStep(4294901760, 5214785644524920463, 65535, 12134830135347446949, 1753635133440165772);
  }

  lemma GeneratorHalfOrder()
    ensures Pow(GENERATOR, (MODULUS - 1) / 2) == MODULUS - 1
  {
    hide Mul, Pow;
    GeneratorToRoot32();
    SquareStep(4294967295, 1753635133440165772, 4614640910117430873);
    SquareStep(8589934590, 4614640910117430873, 9123114210336311365);
    SquareStep(17179869180, 9123114210336311365, 16116352524544190054);
    SquareStep(34359738360, 16116352524544190054, 6414415596519834757);
    SquareStep(68719476720, 6414415596519834757, 1213594585890690845);
    SquareStep(137438953440, 1213594585890690845, 17096174751763063430);
    SquareStep(274877906880, 17096174751763063430, 5456943929260765144);
    SquareStep(549755813760, 5456943929260765144, 9713644485405565297);
    SquareStep(1099511627520, 9713644485405565297, 16905767614792059275);
    SquareStep(2199023255040, 16905767614792059275, 5416168637041100469);
    SquareStep(4398046510080, 5416168637041100469, 17654865857378133588);
    SquareStep(8796093020160, 17654865857378133588, 3511170319078647661);
    SquareStep(17592186040320, 3511170319078647661, 18146160046829613826);
    SquareStep(35184372080640, 18146160046829613826, 9306717745644682924);
    SquareStep(70368744161280, 9306717745644682924, 12380578893860276750);
    SquareStep(140737488322560, 12380578893860276750, 6115771955107415310);
    SquareStep(281474976645120, 6115771955107415310, 17776499369601055404);
    SquareStep(562949953290240, 17776499369601055404, 16207902636198568418);
    SquareStep(1125899906580480, 16207902636198568418, 1532612707718625687);
    SquareStep(2251799813160960, 1532612707718625687, 17492915097719143606);
    SquareStep(4503599626321920, 17492915097719143606, 455906449640507599);
    SquareStep(9007199252643840, 455906449640507599, 11353340290879379826);
    SquareStep(18014398505287680, 11353340290879379826, 1803076106186727246);
    SquareStep(36028797010575360, 1803076106186727246, 13797081185216407910);
    SquareStep(72057594021150720, 13797081185216407910, 17870292113338400769);
    SquareStep(144115188042301440, 17870292113338400769, 549755813888);
    SquareStep(288230376084602880, 549755813888, 70368744161280);
    SquareStep(576460752169205760, 70368744161280, 17293822564807737345);
    SquareStep(1152921504338411520, 17293822564807737345, 18446744069397807105);
    SquareStep(2305843008676823040, 18446744069397807105, 281474976710656);
    SquareStep(4611686017353646080, 281474976710656, 18446744069414584320);
  }
}
