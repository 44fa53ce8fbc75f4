/** Coefficient lists as they arrive in a proof: words that need not be canonical. */
module RawPolynomials {
  import opened Goldilocks
  import opened Polynomials

  /** Canonical elements as words. */
  function AsWords(f: Poly): (cs: seq<U64>)
    ensures cs == f
  {
    f
  }

  /** `from_coeffs` on words: only the word zero is dropped. */
  function TrimWords(cs: seq<U64>): (r: seq<U64>)
    ensures r != []
  {
    if cs == [] then [0]
    else if |cs| > 1 && cs[|cs| - 1] == 0 then TrimWords(cs[..|cs| - 1])
    else cs
  }

  /** Exactly the zeros at the top go, but for one word. */
  lemma {:induction false} TrimWordsExact(cs: seq<U64>)
    ensures var r := TrimWords(cs);
            && (|r| > 1 ==> r[|r| - 1] != 0)
            && (cs != [] ==> |r| <= |cs| && r == cs[..|r|] && forall i :: |r| <= i < |cs| ==> cs[i] == 0)
            && (cs == [] ==> r == [0])
  {
    if |cs| > 1 && cs[|cs| - 1] == 0 {
      TrimWordsExact(cs[..|cs| - 1]);
    }
  }

  /** `eval` on words: Horner's rule with the operators on words. */
  function EvalWords(cs: seq<U64>, x: Elem): U64 {
    if cs == [] then 0 else AddWords(MulWords(EvalWords(cs[1..], x), x), cs[0])
  }

  lemma {:induction false} EvalWordsAppendZero(cs: seq<U64>, x: Elem)
    ensures EvalWords(cs + [0], x) == EvalWords(cs, x)
  {
    hide AddWords, MulWords;
    if cs == [] {
      assert (cs + [0])[1..] == [];
      WordsAreElems(ZERO, x);
      MulNeutral(x);
      assert AddWords(ZERO, ZERO) == ZERO by { ZeroPlusZero(); }
    } else {
      assert (cs + [0])[1..] == cs[1..] + [0];
      EvalWordsAppendZero(cs[1..], x);
    }
  }

  lemma ZeroPlusZero()
    ensures AddWords(0, 0) == 0
  {
  }

  /** Normalising a list of words does not change its value. */
  lemma {:induction false} EvalTrimWords(cs: seq<U64>, x: Elem)
    ensures EvalWords(TrimWords(cs), x) == EvalWords(cs, x)
  {
    hide EvalWords;
    if cs == [] {
      EvalWordsAppendZero(cs, x);
      assert cs + [0] == [0];
    } else if |cs| > 1 && cs[|cs| - 1] == 0 {
      EvalTrimWords(cs[..|cs| - 1], x);
      EvalWordsAppendZero(cs[..|cs| - 1], x);
      assert cs[..|cs| - 1] + [0] == cs;
    }
  }

  /** On canonical coefficients it is evaluation in the field. */
  lemma {:induction false} EvalCanonical(f: Poly, x: Elem)
    ensures EvalWords(f, x) == Eval(f, x)
  {
    hide Add, Mul, AddWords, MulWords;
    if f != [] {
      var u := Eval(f[1..], x);
      EvalCanonical(f[1..], x);
      WordsAreElems(u, x);
      WordsAreElems(Mul(u, x), f[0]);
      MulCommutes(u, x);
      AddCommutes(f[0], Mul(x, u));
    }
  }

  /** The residues of words. */
  function Reduced(cs: seq<U64>): (f: Poly)
    ensures |f| == |cs|
    ensures forall i :: 0 <= i < |cs| ==> f[i] == New(cs[i])
  {
    seq(|cs|, i requires 0 <= i < |cs| => New(cs[i]))
  }

  lemma AddToElem(m: Elem, c: U64)
    ensures AddWords(m, c) == if m + c >= MODULUS then m + c - MODULUS else m + c
  {
  }

  lemma ResidueOfSum(m: Elem, c: U64)
    ensures New(AddWords(m, c)) == Add(New(c), m)
  {
    AddToElem(m, c);
    AddIsModular(New(c), m);
  }

  /** On any words: the coefficients above the first count by their residues, and the first is
      added as it is, with at most one subtraction of p. */
  lemma {:induction false} EvalWordsExact(cs: seq<U64>, x: Elem)
    ensures New(EvalWords(cs, x)) == Eval(Reduced(cs), x)
    ensures cs != [] ==>
              var m: int := Mul(x, Eval(Reduced(cs[1..]), x));
              EvalWords(cs, x) == if m + cs[0] >= MODULUS then m + cs[0] - MODULUS else m + cs[0]
  {
    hide Add, Mul, AddWords, MulWords, New;
    if cs == [] {
      NewOfElem(0);
    } else {
      var rest := EvalWords(cs[1..], x);
      EvalWordsExact(cs[1..], x);
      assert Reduced(cs)[1..] == Reduced(cs[1..]);
      MulOfResidues(rest, x);
      NewOfElem(x);
      NewOfElem(MulWords(rest, x));
      MulCommutes(x, New(rest));
      AddToElem(MulWords(rest, x), cs[0]);
      ResidueOfSum(MulWords(rest, x), cs[0]);
    }
  }

  method FromWords(coeffs: seq<U64>) returns (c: seq<U64>)
    ensures c == TrimWords(coeffs)
  {
    c := coeffs;
    while |c| > 1 && c[|c| - 1] == 0
      invariant TrimWords(c) == TrimWords(coeffs)
    {
      c := c[..|c| - 1];
    }
    if c == [] {
      c := c + [0];
    }
  }

  method EvalWordsAt(cs: seq<U64>, x: Elem) returns (acc: U64)
    ensures acc == EvalWords(cs, x)
  {
    hide AddWords, MulWords;
    acc := 0;
    for i := |cs| downto 0
      invariant acc == EvalWords(cs[i..], x)
    {
      assert cs[i..][1..] == cs[i + 1..];
      acc := AddWords(MulWords(acc, x), cs[i]);
    }
    assert cs[0..] == cs;
  }
}
