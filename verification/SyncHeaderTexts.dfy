/** Exactly which texts the header parser accepts, what they mean, and which error it reports.

    Every field is described by the texts that stand for a value; the parser returns a header
    iff every field's text stands for its value, and otherwise names the first field that
    does not. */
module SyncHeaderTexts {
  import opened Bytes
  import opened SyncHeaders
  import opened Wrappers

  // ----- letters -----

  function LowerChar(c: char): char {
    if 'A' <= c <= 'Z' then 'a' + (c - 'A') else c
  }

  function Lower(s: string): (t: string)
    ensures |t| == |s|
    ensures forall i :: 0 <= i < |s| ==> t[i] == LowerChar(s[i])
  {
    seq(|s|, i requires 0 <= i < |s| => LowerChar(s[i]))
  }

  function Zeros(n: nat): (s: string)
    ensures |s| == n && forall i :: 0 <= i < n ==> s[i] == '0'
  {
    seq(n, _ => '0')
  }

  lemma DigitExact(c: char, d: nat)
    requires d < 16
    ensures DigitOf(c) == d <==> LowerChar(c) == DigitChar(d)
  {
  }

  // ----- numbers -----

  /** A numeral of n: its digits in either case, after any number of zeros. */
  ghost predicate NumeralOf(s: string, radix: nat, n: nat)
    requires 2 <= radix <= 16
  {
    exists z: nat :: Lower(s) == Zeros(z) + Print(n, radix)
  }

  lemma ZeroNumeral(z: nat, radix: nat)
    requires 2 <= radix <= 16
    ensures Zeros(z) + Print(0, radix) == Zeros(z + 1)
  {
    assert Print(0, radix) == "0";
  }

  lemma LowerSplit(s: string)
    requires s != []
    ensures Lower(s) == Lower(s[..|s| - 1]) + [LowerChar(s[|s| - 1])]
    ensures Lower(s)[..|s| - 1] == Lower(s[..|s| - 1])
  {
  }

  lemma PrintNext(v: nat, d: nat, radix: nat)
    requires 2 <= radix <= 16 && d < radix
    ensures v > 0 ==> Print(Shifted(v, radix, d), radix) == Print(v, radix) + [DigitChar(d)]
    ensures v == 0 ==> Print(Shifted(v, radix, d), radix) == [DigitChar(d)]
  {
    if v > 0 {
      ShiftedParts(v, d, radix);
    }
  }

  lemma ShiftedParts(v: nat, d: nat, radix: nat)
    requires 2 <= radix && d < radix
    ensures Quot(Shifted(v, radix, d), radix) == v && Rem(Shifted(v, radix, d), radix) == d
    ensures v > 0 ==> Shifted(v, radix, d) >= radix
  {
    hide Quot, Rem;
    var n := Shifted(v, radix, d);
    FloorIs(n, v, d, radix);
    QuotRem(n, radix);
    QuotIs(n, radix);
    AtLeastOneRadix(v, radix);
  }

  lemma QuotIs(n: nat, radix: nat)
    requires 2 <= radix
    ensures Quot(n, radix) == n / radix
  {
  }

  lemma AtLeastOneRadix(v: nat, radix: nat)
    ensures v > 0 ==> v * radix >= radix
  {
  }

  /** Reading digits: a value comes out exactly for its numerals. */
  lemma {:induction false} DigitsExact(s: string, radix: nat, n: nat)
    requires 2 <= radix <= 16 && s != []
    ensures DigitsValue(s, radix) == Some(n) <==> NumeralOf(s, radix, n)
    decreases |s|
  {
    if DigitsValue(s, radix) == Some(n) {
      ValueHasNumeral(s, radix);
    }
    if NumeralOf(s, radix, n) {
      NumeralHasValue(s, radix, n);
    }
  }

  lemma {:induction false} ValueHasNumeral(s: string, radix: nat)
    requires 2 <= radix <= 16 && s != [] && DigitsValue(s, radix).Some?
    ensures NumeralOf(s, radix, DigitsValue(s, radix).value)
    decreases |s|
  {
    hide Print, DigitOf, Shifted, DigitChar, LowerChar;
    var front, d := s[..|s| - 1], DigitOf(s[|s| - 1]);
    var v := DigitsValue(front, radix).value;
    LowerSplit(s);
    DigitExact(s[|s| - 1], d);
    PrintNext(v, d, radix);
    if front == [] {
      assert Lower(s) == Zeros(0) + Print(Shifted(v, radix, d), radix);
    } else {
      ValueHasNumeral(front, radix);
      var z: nat :| Lower(front) == Zeros(z) + Print(v, radix);
      if v == 0 {
        ZeroNumeral(z, radix);
        assert Lower(s) == Zeros(z + 1) + Print(Shifted(v, radix, d), radix);
      } else {
        assert Lower(s) == Zeros(z) + Print(Shifted(v, radix, d), radix);
      }
    }
  }

  lemma {:induction false} NumeralHasValue(s: string, radix: nat, n: nat)
    requires 2 <= radix <= 16 && NumeralOf(s, radix, n)
    ensures DigitsValue(s, radix) == Some(n)
  {
    hide Print, NumeralOf, DigitsValue;
    var z: nat := NumeralZeros(s, radix, n);
    SameCaseSameValue(s, Zeros(z) + Print(n, radix), radix);
    ZerosInFront(z, Print(n, radix), radix);
    DigitsRoundTrip(n, radix);
  }

  lemma NumeralZeros(s: string, radix: nat, n: nat) returns (z: nat)
    requires 2 <= radix <= 16 && NumeralOf(s, radix, n)
    ensures Lower(s) == Zeros(z) + Print(n, radix)
  {
    z :| Lower(s) == Zeros(z) + Print(n, radix);
  }

  lemma {:induction false} SameCaseSameValue(s: string, t: string, radix: nat)
    requires 2 <= radix <= 16 && Lower(s) == t
    ensures DigitsValue(s, radix) == DigitsValue(t, radix)
    decreases |s|
  {
    hide Shifted, LowerChar, DigitOf;
    if s != [] {
      LowerSplit(s);
      SameCaseSameValue(s[..|s| - 1], t[..|t| - 1], radix);
      SameDigit(s[|s| - 1]);
    }
  }

  lemma SameDigit(c: char)
    ensures DigitOf(LowerChar(c)) == DigitOf(c)
  {
  }

  lemma {:induction false} ZerosInFront(z: nat, s: string, radix: nat)
    requires 2 <= radix <= 16
    ensures DigitsValue(Zeros(z) + s, radix) == DigitsValue(s, radix)
    decreases z + |s|
  {
    var all := Zeros(z) + s;
    if s != [] {
      assert all[..|all| - 1] == Zeros(z) + s[..|s| - 1];
      ZerosInFront(z, s[..|s| - 1], radix);
    } else if z > 0 {
      assert all[..|all| - 1] == Zeros(z - 1) + [];
      ZerosInFront(z - 1, [], radix);
      assert DigitOf('0') == 0;
    } else {
      assert all == [];
    }
  }

  /** A text for n: a numeral, possibly after a plus sign. */
  ghost predicate UnsignedText(s: string, radix: nat, n: nat)
    requires 2 <= radix <= 16
  {
    NumeralOf(s, radix, n) || (s != [] && s[0] == '+' && NumeralOf(s[1..], radix, n))
  }

  lemma NumeralShape(s: string, radix: nat, n: nat)
    requires 2 <= radix <= 16 && NumeralOf(s, radix, n)
    ensures s != [] && forall i :: 0 <= i < |s| ==> DigitOf(s[i]) < 16
  {
    hide Print, DigitOf, LowerChar;
    var z := NumeralZeros(s, radix, n);
    var t := Zeros(z) + Print(n, radix);
    PrintIsDigits(n, radix);
    forall i | 0 <= i < |s|
      ensures DigitOf(s[i]) < 16
    {
      assert t[i] == LowerChar(s[i]);
      DigitOfDigit(t[i]);
      SameDigit(s[i]);
    }
  }

  lemma DigitOfDigit(c: char)
    requires IsDigit(c)
    ensures DigitOf(c) < 16
  {
  }

  lemma PlusIsNoDigit()
    ensures DigitOf('+') == 255
  {
  }

  /** `from_str_radix`, exactly. */
  lemma UnsignedExact(s: string, radix: nat, limit: nat, n: nat)
    requires 2 <= radix <= 16
    ensures ParseUnsigned(s, radix, limit) == Some(n) <==> n < limit && UnsignedText(s, radix, n)
  {
    hide DigitsValue, NumeralOf, DigitOf;
    PlusIsNoDigit();
    if NumeralOf(s, radix, n) {
      NumeralShape(s, radix, n);
    }
    if s != [] && s[0] == '+' && NumeralOf(s[1..], radix, n) {
      NumeralShape(s[1..], radix, n);
    }
    if s != [] {
      if s[0] == '+' && |s| > 1 {
        DigitsExact(s[1..], radix, n);
      } else {
        DigitsExact(s, radix, n);
      }
    }
  }

  // ----- bytes -----

  /** `hex::decode`, exactly: the digits of the bytes, in either case. */
  lemma {:induction false} HexExact(s: string, b: Bytes)
    ensures HexDecode(s) == Some(b) <==> Lower(s) == HexEncode(b)
    decreases |s|
  {
    hide DigitOf, DigitChar, LowerChar;
    if |s| >= 2 && b != [] {
      HexExact(s[2..], b[1..]);
      DigitExact(s[0], b[0] / 16);
      DigitExact(s[1], b[0] % 16);
      PairOfDigits(s, b);
      PairOfChars(s, b);
    } else if |s| == 1 {
      assert |HexEncode(b)| % 2 == 0;
    }
  }

  lemma PairOfChars(s: string, b: Bytes)
    requires |s| >= 2 && b != []
    ensures Lower(s) == HexEncode(b) <==>
            LowerChar(s[0]) == DigitChar(b[0] / 16) && LowerChar(s[1]) == DigitChar(b[0] % 16) &&
            Lower(s[2..]) == HexEncode(b[1..])
  {
    hide DigitChar, LowerChar;
    var pair := [DigitChar(b[0] / 16), DigitChar(b[0] % 16)];
    assert HexEncode(b) == pair + HexEncode(b[1..]);
    assert Lower(s) == [LowerChar(s[0]), LowerChar(s[1])] + Lower(s[2..]);
    assert (pair + HexEncode(b[1..]))[2..] == HexEncode(b[1..]);
    assert Lower(s)[2..] == Lower(s[2..]);
    assert HexEncode(b)[0] == pair[0] && HexEncode(b)[1] == pair[1];
  }

  lemma PairOfDigits(s: string, b: Bytes)
    requires |s| >= 2 && b != []
    ensures HexDecode(s) == Some(b) <==>
            DigitOf(s[0]) == b[0] / 16 && DigitOf(s[1]) == b[0] % 16 && HexDecode(s[2..]) == Some(b[1..])
  {
    hide DigitOf;
    assert b == [b[0]] + b[1..];
    if HexDecode(s) == Some(b) {
      var hi, lo := DigitOf(s[0]), DigitOf(s[1]);
      assert b[0] == hi * 16 + lo;
      assert b[1..] == HexDecode(s[2..]).value;
    }
  }

  /** A text for fixed-length bytes: their digits, possibly after 0x. */
  ghost predicate FixedText(s: string, b: Bytes) {
    Lower(s) == HexEncode(b) || (|s| >= 2 && s[..2] == "0x" && Lower(s[2..]) == HexEncode(b))
  }

  /** `parse_hash` and `Address::from_hex`, exactly. */
  lemma FixedExact(s: string, length: nat, b: Bytes)
    ensures ParseFixed(s, length) == Some(b) <==> |b| == length && FixedText(s, b)
  {
    hide HexDecode, HexEncode;
    HexExact(s, b);
    if |s| >= 2 && s[0] == '0' && s[1] == 'x' {
      HexExact(s[2..], b);
      HexIsDigits(b);
      assert Lower(s)[1] == 'x';
    }
  }

  // ----- trimming -----

  ghost predicate Blank(s: string) {
    forall i :: 0 <= i < |s| ==> IsWhitespace(s[i])
  }

  lemma {:induction false} TrimStartExact(s: string) returns (a: string)
    ensures Blank(a) && s == a + TrimStart(s)
    ensures TrimStart(s) != [] ==> !IsWhitespace(TrimStart(s)[0])
  {
    hide IsWhitespace;
    if s != [] && IsWhitespace(s[0]) {
      var rest := TrimStartExact(s[1..]);
      a := [s[0]] + rest;
      assert s == [s[0]] + s[1..];
    } else {
      a := [];
    }
  }

  lemma {:induction false} TrimEndExact(s: string) returns (b: string)
    ensures Blank(b) && s == TrimEnd(s) + b
    ensures TrimEnd(s) != [] ==> !IsWhitespace(TrimEnd(s)[|TrimEnd(s)| - 1])
  {
    hide IsWhitespace;
    if s != [] && IsWhitespace(s[|s| - 1]) {
      var rest := TrimEndExact(s[..|s| - 1]);
      b := rest + [s[|s| - 1]];
      assert s == s[..|s| - 1] + [s[|s| - 1]];
      assert s == TrimEnd(s) + b;
    } else {
      b := [];
    }
  }

  /** The characters with the Unicode property White_Space. */
  lemma WhitespaceExact(c: char)
    ensures IsWhitespace(c) <==>
            c as int in {9, 10, 11, 12, 13, 32, 0x85, 0xA0, 0x1680, 0x2000, 0x2001, 0x2002, 0x2003, 0x2004, 0x2005,
                         0x2006, 0x2007, 0x2008, 0x2009, 0x200A, 0x2028, 0x2029, 0x202F, 0x205F, 0x3000}
  {
  }

  /** Trimming takes whitespace off both ends and leaves none there. */
  lemma TrimExact(s: string) returns (a: string, b: string)
    ensures Blank(a) && Blank(b) && s == a + Trim(s) + b
    ensures Trim(s) != [] ==> !IsWhitespace(Trim(s)[0]) && !IsWhitespace(Trim(s)[|Trim(s)| - 1])
  {
    hide IsWhitespace, TrimStart, TrimEnd;
    a := TrimStartExact(s);
    b := TrimEndExact(TrimStart(s));
    if Trim(s) != [] {
      assert Trim(s)[0] == TrimStart(s)[0];
    }
  }

  /** A text without whitespace at its ends stays. */
  lemma TrimKeeps(s: string)
    requires s != [] ==> !IsWhitespace(s[0]) && !IsWhitespace(s[|s| - 1])
    ensures Trim(s) == s
  {
    hide IsWhitespace;
  }

  // ----- difficulties -----

  /** A text for a difficulty: decimal, or 0x or 0X and hexadecimal, where the prefix alone
      means 0. */
  ghost predicate DifficultyText(t: string, n: nat) {
    || UnsignedText(t, 10, n)
    || (|t| >= 2 && (t[..2] == "0x" || t[..2] == "0X") &&
        ((t[2..] == [] && n == 0) || UnsignedText(t[2..], 16, n)))
  }

  lemma XIsNoDigit()
    ensures DigitOf('x') >= 16 && DigitOf('X') >= 16 && DigitOf('+') >= 16
  {
  }

  lemma PrefixedIsNotDecimal(t: string, n: nat)
    requires |t| >= 2 && (t[1] == 'x' || t[1] == 'X')
    ensures !UnsignedText(t, 10, n)
  {
    hide NumeralOf, DigitOf;
    XIsNoDigit();
    if NumeralOf(t, 10, n) {
      NumeralShape(t, 10, n);
    }
    assert t[1..][0] == t[1];
    if t[0] == '+' && NumeralOf(t[1..], 10, n) {
      NumeralShape(t[1..], 10, n);
    }
  }

  /** `parse_u64_decimal_or_hex`, exactly. */
  lemma DifficultyExact(raw: string, n: nat)
    ensures ParseDecimalOrHex(raw) == Some(n) <==> n < 0x1_0000_0000_0000_0000 && DifficultyText(Trim(raw), n)
  {
    hide Trim, ParseUnsigned, UnsignedText;
    var t := Trim(raw);
    EmptyIsNoNumber(n);
    UnsignedExact(t, 10, WORD, n);
    if t == [] {
      assert !DifficultyText(t, n);
    } else if |t| >= 2 && t[0] == '0' && (t[1] == 'x' || t[1] == 'X') {
      PrefixedIsNotDecimal(t, n);
      UnsignedExact(t[2..], 16, WORD, n);
      assert t[..2] == [t[0], t[1]];
      if |t| == 2 {
        assert t[2..] == [];
      }
    } else {
      assert DifficultyText(t, n) <==> UnsignedText(t, 10, n);
    }
  }

  lemma EmptyIsNoNumber(n: nat)
    ensures !UnsignedText([], 10, n) && !UnsignedText([], 16, n)
  {
    hide NumeralOf;
    if NumeralOf([], 10, n) {
      NumeralShape([], 10, n);
    }
    if NumeralOf([], 16, n) {
      NumeralShape([], 16, n);
    }
  }

  /** Decimal difficulties parse back. */
  lemma DecimalRoundTrip(n: U64)
    ensures ParseDecimalOrHex(Print(n, 10)) == Some(n)
  {
    hide Print, Trim, ParseUnsigned, UnsignedText;
    var s := Print(n, 10);
    PrintIsDigits(n, 10);
    assert IsDigit(s[0]) && IsDigit(s[|s| - 1]);
    TrimKeeps(s);
    NumberRoundTrip(n, 10, WORD);
    UnsignedExact(s, 10, WORD, n);
    DifficultyExact(s, n);
  }

  // ----- splitting -----

  /** Splitting is undone by joining, and no part holds a separator. */
  lemma {:induction false} JoinSplit(s: string, sep: char)
    ensures Join(Split(s, sep), sep) == s
    ensures forall i :: 0 <= i < |Split(s, sep)| ==> sep !in Split(s, sep)[i]
  {
    if s != [] {
      var rest := Split(s[1..], sep);
      JoinSplit(s[1..], sep);
      assert s == [s[0]] + s[1..];
      if s[0] == sep {
        assert ([[]] + rest)[1..] == rest;
      } else {
        assert ([[s[0]] + rest[0]] + rest[1..])[1..] == rest[1..];
      }
    }
  }

  // ----- the fields of an item -----

  /** The number of the field (0 to 12: version, number, hash, parent, three roots, timestamp,
      difficulty, nonce, coinbase, mix hash, extra data) that part p of an item holds: items of
      12 parts have no version, of 10 no roots, of 9 neither. */
  function FieldOf(count: nat, p: nat): (f: nat)
    requires count in {9, 10, 12, 13} && p < count
    ensures f < 13
  {
    if count == 13 then p
    else if count == 12 then p + 1
    else if count == 10 then if p < 4 then p else p + 3
    else if p < 3 then p + 1 else p + 4
  }

  /** The text of a field stands for its value in the header. */
  ghost predicate FieldMeans(f: nat, text: string, h: SyncHeader)
    requires f < 13
  {
    if f == 0 then UnsignedText(text, 10, h.version)
    else if f == 1 then UnsignedText(text, 10, h.number)
    else if f == 2 then FixedText(text, h.hash)
    else if f == 3 then FixedText(text, h.parentHash)
    else if f == 4 then FixedText(text, h.stateRoot)
    else if f == 5 then FixedText(text, h.transactionsRoot)
    else if f == 6 then FixedText(text, h.receiptsRoot)
    else if f == 7 then UnsignedText(text, 10, h.timestamp)
    else if f == 8 then DifficultyText(Trim(text), h.difficulty)
    else if f == 9 then UnsignedText(text, 10, h.nonce)
    else if f == 10 then FixedText(text, h.coinbase)
    else if f == 11 then FixedText(text, h.mixHash)
    else Lower(text) == HexEncode(h.extraData)
  }

  /** Where the form has no version it is 1, and where it has no roots they are zero. */
  ghost predicate DefaultsHold(count: nat, h: SyncHeader) {
    && (count == 9 || count == 12 ==> h.version == 1)
    && (count == 9 || count == 10 ==>
          forall i :: 0 <= i < 32 ==> h.stateRoot[i] == h.transactionsRoot[i] == h.receiptsRoot[i] == 0)
  }

  /** The field has some value. */
  predicate FieldReads(f: nat, text: string)
    requires f < 13
  {
    if f == 0 then ParseUnsigned(text, 10, 0x1_0000_0000).Some?
    else if f in {1, 7, 9} then ParseUnsigned(text, 10, WORD).Some?
    else if f == 8 then ParseDecimalOrHex(text).Some?
    else if f == 10 then ParseFixed(text, 20).Some?
    else if f == 12 then HexDecode(text).Some?
    else ParseFixed(text, 32).Some?
  }

  const FIELD_ERRORS: seq<ParseError> := [
    BadVersion, BadNumber, BadHash, BadParentHash, BadStateRoot, BadTransactionsRoot, BadReceiptsRoot,
    BadTimestamp, BadDifficulty, BadNonce, BadCoinbase, BadMixHash, BadExtraData
  ]

  predicate ParsesTo(text: string, length: nat, b: Bytes) {
    ParseFixed(text, length) == Some(b)
  }

  /** The parser of the field returns its value in the header. */
  predicate FieldParses(f: nat, text: string, h: SyncHeader)
    requires f < 13
  {
    if f == 0 then ParseUnsigned(text, 10, 0x1_0000_0000) == Some(h.version)
    else if f == 1 then ParseUnsigned(text, 10, WORD) == Some(h.number)
    else if f == 2 then ParsesTo(text, 32, h.hash)
    else if f == 3 then ParsesTo(text, 32, h.parentHash)
    else if f == 4 then ParsesTo(text, 32, h.stateRoot)
    else if f == 5 then ParsesTo(text, 32, h.transactionsRoot)
    else if f == 6 then ParsesTo(text, 32, h.receiptsRoot)
    else if f == 7 then ParseUnsigned(text, 10, WORD) == Some(h.timestamp)
    else if f == 8 then ParseDecimalOrHex(text) == Some(h.difficulty)
    else if f == 9 then ParseUnsigned(text, 10, WORD) == Some(h.nonce)
    else if f == 10 then ParsesTo(text, 20, h.coinbase)
    else if f == 11 then ParsesTo(text, 32, h.mixHash)
    else HexDecode(text) == Some(h.extraData)
  }

  /** Every field is parsed to exactly the value that its text stands for. */
  lemma FieldExact(f: nat, text: string, h: SyncHeader)
    requires f < 13
    ensures FieldParses(f, text, h) <==> FieldMeans(f, text, h)
  {
    hide ParseUnsigned, ParseFixed, HexDecode, ParseDecimalOrHex, FixedText, UnsignedText, DifficultyText, Trim,
         HexEncode;
    if f in {0, 1, 7, 9} {
      UnsignedExact(text, 10, if f == 0 then 0x1_0000_0000 else WORD,
                    if f == 0 then h.version else if f == 1 then h.number else if f == 7 then h.timestamp else h.nonce);
    } else if f == 8 {
      DifficultyExact(text, h.difficulty);
    } else if f == 12 {
      HexExact(text, h.extraData);
    } else {
      FixedExact(text, if f == 10 then 20 else 32,
                 if f == 2 then h.hash else if f == 3 then h.parentHash else if f == 4 then h.stateRoot
                 else if f == 5 then h.transactionsRoot else if f == 6 then h.receiptsRoot
                 else if f == 10 then h.coinbase else h.mixHash);
    }
  }

  /** The header with a field read from its text. */
  lemma ReadInto(f: nat, text: string, start: SyncHeader) returns (h: SyncHeader)
    requires f < 13 && FieldReads(f, text)
    ensures FieldParses(f, text, h)
  {
    hide ParseUnsigned, ParseFixed, HexDecode, ParseDecimalOrHex;
    FieldSizes(text);
    h := start;
    if f in {0, 1, 7, 9} {
      var n := ParseUnsigned(text, 10, if f == 0 then 0x1_0000_0000 else WORD).value;
      h := if f == 0 then h.(version := n) else if f == 1 then h.(number := n)
           else if f == 7 then h.(timestamp := n) else h.(nonce := n);
    } else if f == 8 {
      h := h.(difficulty := ParseDecimalOrHex(text).value);
    } else if f == 12 {
      h := h.(extraData := HexDecode(text).value);
    } else {
      var b := ParseFixed(text, if f == 10 then 20 else 32).value;
      h := if f == 2 then h.(hash := b) else if f == 3 then h.(parentHash := b) else if f == 4 then h.(stateRoot := b)
           else if f == 5 then h.(transactionsRoot := b) else if f == 6 then h.(receiptsRoot := b)
           else if f == 10 then h.(coinbase := b) else h.(mixHash := b);
    }
  }

  lemma FieldSizes(text: string)
    ensures forall limit: nat :: ParseUnsigned(text, 10, limit).Some? ==> ParseUnsigned(text, 10, limit).value < limit
    ensures forall n: nat :: ParseFixed(text, n).Some? ==> |ParseFixed(text, n).value| == n
    ensures ParseDecimalOrHex(text).Some? ==> ParseDecimalOrHex(text).value < WORD
  {
    hide DigitsValue, HexDecode, Trim;
  }

  /** A field reads iff its text stands for some value. */
  lemma FieldReadsExact(f: nat, text: string)
    requires f < 13
    ensures FieldReads(f, text) <==> exists h: SyncHeader :: FieldMeans(f, text, h)
  {
    hide FieldMeans, ParseUnsigned, ParseFixed, HexDecode, ParseDecimalOrHex;
    if FieldReads(f, text) {
      var z: Digest := seq(32, _ => 0);
      var h := ReadInto(f, text, SyncHeader(1, 0, z, z, z, z, z, 0, 0, 0, seq(20, _ => 0), z, []));
      FieldExact(f, text, h);
    }
    forall h: SyncHeader | FieldMeans(f, text, h)
      ensures FieldReads(f, text)
    {
      FieldExact(f, text, h);
    }
  }

  // ----- one item -----

  lemma WrongCount(parts: seq<string>)
    requires |parts| !in {9, 10, 12, 13}
    ensures ParseParts(parts) == Err(FieldCount(|parts|))
  {
  }

  /** The first part that does not read decides the error. */
  lemma FirstBadField(parts: seq<string>, p: nat)
    requires |parts| in {9, 10, 12, 13} && p < |parts|
    requires forall q :: 0 <= q < p ==> FieldReads(FieldOf(|parts|, q), parts[q])
    requires !FieldReads(FieldOf(|parts|, p), parts[p])
    ensures ParseParts(parts) == Err(FIELD_ERRORS[FieldOf(|parts|, p)])
  {
    hide ParseUnsigned, ParseFixed, HexDecode, ParseDecimalOrHex, ZeroHash;
  }

  lemma PartsParse(parts: seq<string>, p: nat)
    requires |parts| in {9, 10, 12, 13} && p < |parts| && ParseParts(parts).Ok?
    ensures FieldParses(FieldOf(|parts|, p), parts[p], ParseParts(parts).value)
  {
    hide ParseUnsigned, ParseFixed, HexDecode, ParseDecimalOrHex, ZeroHash;
  }

  lemma PartsDefaults(parts: seq<string>)
    requires |parts| in {9, 10, 12, 13} && ParseParts(parts).Ok?
    ensures DefaultsHold(|parts|, ParseParts(parts).value)
  {
    hide ParseUnsigned, ParseFixed, HexDecode, ParseDecimalOrHex;
  }

  lemma PartsAccepted(parts: seq<string>)
    requires |parts| in {9, 10, 12, 13}
    requires forall q :: 0 <= q < |parts| ==> FieldReads(FieldOf(|parts|, q), parts[q])
    ensures ParseParts(parts).Ok?
  {
    hide ParseUnsigned, ParseFixed, HexDecode, ParseDecimalOrHex, ZeroHash;
  }

  /** If every part reads, the item is the header whose fields they mean, with the defaults. */
  lemma AllFieldsRead(parts: seq<string>) returns (h: SyncHeader)
    requires |parts| in {9, 10, 12, 13}
    requires forall q :: 0 <= q < |parts| ==> FieldReads(FieldOf(|parts|, q), parts[q])
    ensures ParseParts(parts) == Ok(h) && DefaultsHold(|parts|, h)
    ensures forall q :: 0 <= q < |parts| ==> FieldMeans(FieldOf(|parts|, q), parts[q], h)
  {
    hide ParseParts, FieldReads, FieldMeans, FieldParses, FieldOf, DefaultsHold;
    PartsAccepted(parts);
    PartsDefaults(parts);
    h := ParseParts(parts).value;
    forall q | 0 <= q < |parts|
      ensures FieldMeans(FieldOf(|parts|, q), parts[q], h)
    {
      PartsParse(parts, q);
      FieldExact(FieldOf(|parts|, q), parts[q], h);
    }
  }

  // ----- the list -----

  /** The first item that is no header decides the error. */
  lemma {:induction false} FirstBadItem(items: seq<string>, i: nat)
    requires i < |items|
    requires forall h :: 0 <= h < i ==> ParseParts(Split(items[h], '@')).Ok?
    requires ParseParts(Split(items[i], '@')).Err?
    ensures ParseItems(items) == Err(ParseParts(Split(items[i], '@')).error)
    decreases i
  {
    hide ParseParts, Split;
    if i > 0 {
      assert items[1..][i - 1] == items[i];
      FirstBadItem(items[1..], i - 1);
    }
  }

  /** If all items are headers, the list of these headers is the result. */
  lemma {:induction false} AllItemsRead(items: seq<string>)
    requires forall h :: 0 <= h < |items| ==> ParseParts(Split(items[h], '@')).Ok?
    ensures ParseItems(items).Ok? && |ParseItems(items).value| == |items|
    ensures forall h :: 0 <= h < |items| ==> ParseItems(items).value[h] == ParseParts(Split(items[h], '@')).value
  {
    hide ParseParts, Split;
    if items != [] {
      AllItemsRead(items[1..]);
      assert forall h :: 1 <= h < |items| ==> items[h] == items[1..][h - 1];
    }
  }

  /** A text of whitespace is the empty list; any other is cut at its commas. */
  lemma ParseExact(raw: string)
    ensures Parse(raw) == if Blank(raw) then Ok([]) else ParseItems(Split(Trim(raw), ','))
  {
    hide IsWhitespace, Trim, ParseItems, Split;
    var a, b := TrimExact(raw);
    if Trim(raw) == [] {
      assert raw == a + b;
    } else {
      assert raw[|a|] == Trim(raw)[0];
    }
  }

  // ----- printing -----

  /** Printed numbers have no leading zero. */
  lemma {:induction false} PrintCanonical(n: nat, radix: nat)
    requires 2 <= radix <= 16
    ensures Print(n, radix)[0] == '0' ==> Print(n, radix) == "0"
    ensures Print(n, radix)[0] == '0' ==> n == 0
  {
    hide Rem;
    if n >= radix {
      QuotPositive(n, radix);
      PrintCanonical(Quot(n, radix), radix);
    }
  }

  lemma QuotPositive(n: nat, radix: nat)
    requires 2 <= radix <= n
    ensures Quot(n, radix) >= 1
  {
  }

  /** The thirteen texts of a printed header: decimal numbers, the difficulty in hexadecimal,
      prefixed digits for hashes and the coinbase, bare digits for the extra data. */
  lemma PrintedFields(h: SyncHeader)
    ensures FormatHeader(h) == Join([
              Print(h.version, 10), Print(h.number, 10), "0x" + HexEncode(h.hash), "0x" + HexEncode(h.parentHash),
              "0x" + HexEncode(h.stateRoot), "0x" + HexEncode(h.transactionsRoot), "0x" + HexEncode(h.receiptsRoot),
              Print(h.timestamp, 10), "0x" + Print(h.difficulty, 16), Print(h.nonce, 10), "0x" + HexEncode(h.coinbase),
              "0x" + HexEncode(h.mixHash), HexEncode(h.extraData)], '@')
  {
    hide Print, HexEncode, Join;
  }
}
