/** The text form of synchronisation headers: printing, the total parser, and the round
    trip for every list of headers. */
module SyncHeaders {
  import opened Bytes
  import opened Wrappers

  type U32 = x: nat | x < 0x1_0000_0000
  type U64 = x: nat | x < WORD
  type Address = b: Bytes | |b| == 20 witness seq(20, _ => 0)

  datatype SyncHeader = SyncHeader(
    version: U32, number: U64, hash: Digest, parentHash: Digest, stateRoot: Digest, transactionsRoot: Digest,
    receiptsRoot: Digest, timestamp: U64, difficulty: U64, nonce: U64, coinbase: Address, mixHash: Digest,
    extraData: Bytes)

  datatype ParseError =
    | FieldCount(count: nat)
    | BadVersion
    | BadNumber
    | BadHash
    | BadParentHash
    | BadStateRoot
    | BadTransactionsRoot
    | BadReceiptsRoot
    | BadTimestamp
    | BadDifficulty
    | BadNonce
    | BadCoinbase
    | BadMixHash
    | BadExtraData

  // ----- digits -----

  function DigitChar(d: nat): char
    requires d < 16
  {
    if d < 10 then '0' + d as char else 'a' + (d - 10) as char
  }

  /** `char::to_digit`: the value of a digit in either case, or 255. */
  function DigitOf(c: char): nat {
    if '0' <= c <= '9' then (c - '0') as nat
    else if 'a' <= c <= 'z' then (c - 'a') as nat + 10
    else if 'A' <= c <= 'Z' then (c - 'A') as nat + 10
    else 255
  }

  lemma DigitRoundTrip(d: nat)
    requires d < 16
    ensures DigitOf(DigitChar(d)) == d
  {
  }

  // ----- numbers -----

  function Quot(n: nat, radix: nat): (q: nat)
    requires 2 <= radix
    ensures n >= radix ==> q < n
  {
    n / radix
  }

  function Rem(n: nat, radix: nat): (r: nat)
    requires 2 <= radix
    ensures r < radix
  {
    n % radix
  }

  lemma QuotRem(n: nat, radix: nat)
    requires 2 <= radix
    ensures Quot(n, radix) * radix + Rem(n, radix) == n
  {
  }

  /** `{}` and `{:x}` of an unsigned number. */
  function Print(n: nat, radix: nat): (s: string)
    requires 2 <= radix <= 16
    ensures |s| >= 1
  {
    if n < radix then [DigitChar(n)] else Print(Quot(n, radix), radix) + [DigitChar(Rem(n, radix))]
  }

  function Shifted(value: nat, radix: nat, digit: nat): nat {
    value * radix + digit
  }

  function DigitsValue(s: string, radix: nat): Option<nat> {
    if s == [] then Some(0)
    else
      var front, d := DigitsValue(s[..|s| - 1], radix), DigitOf(s[|s| - 1]);
      if front.None? || d >= radix then None else Some(Shifted(front.value, radix, d))
  }

  /** `from_str_radix` of an unsigned type: an optional plus sign, then digits. */
  function ParseUnsigned(s: string, radix: nat, limit: nat): Option<nat> {
    if s == [] then None
    else
      var v := DigitsValue(if s[0] == '+' && |s| > 1 then s[1..] else s, radix);
      if v.Some? && v.value < limit then v else None
  }

  lemma {:induction false} DigitsRoundTrip(n: nat, radix: nat)
    requires 2 <= radix <= 16
    ensures DigitsValue(Print(n, radix), radix) == Some(n)
    decreases n
  {
    hide Quot, Rem, DigitChar, DigitOf;
    if n < radix {
      DigitRoundTrip(n);
      assert [DigitChar(n)][..0] == [];
    } else {
      DigitRoundTrip(Rem(n, radix));
      DigitsRoundTrip(Quot(n, radix), radix);
      QuotRem(n, radix);
      var s := Print(n, radix);
      assert s[..|s| - 1] == Print(Quot(n, radix), radix);
    }
  }

  /** A character that printing numbers and bytes can produce. */
  predicate IsDigit(c: char) {
    '0' <= c <= '9' || 'a' <= c <= 'f'
  }

  ghost predicate AllDigits(s: string) {
    forall i :: 0 <= i < |s| ==> IsDigit(s[i])
  }

  lemma {:induction false} PrintIsDigits(n: nat, radix: nat)
    requires 2 <= radix <= 16
    ensures AllDigits(Print(n, radix))
  {
    hide Quot, Rem;
    if n >= radix {
      PrintIsDigits(Quot(n, radix), radix);
    }
  }

  lemma NumberRoundTrip(n: nat, radix: nat, limit: nat)
    requires 2 <= radix <= 16 && n < limit
    ensures ParseUnsigned(Print(n, radix), radix, limit) == Some(n)
  {
    PrintIsDigits(n, radix);
    DigitsRoundTrip(n, radix);
    assert IsDigit(Print(n, radix)[0]);
  }

  // ----- bytes in hexadecimal -----

  /** `hex::encode`. */
  function HexEncode(b: Bytes): (s: string)
    ensures |s| == 2 * |b|
  {
    if b == [] then [] else [DigitChar(b[0] / 16), DigitChar(b[0] % 16)] + HexEncode(b[1..])
  }

  /** `hex::decode`. */
  function HexDecode(s: string): Option<Bytes> {
    if |s| % 2 != 0 then None
    else if s == [] then Some([])
    else
      var hi, lo, rest := DigitOf(s[0]), DigitOf(s[1]), HexDecode(s[2..]);
      if hi >= 16 || lo >= 16 || rest.None? then None else Some([hi * 16 + lo] + rest.value)
  }

  lemma {:induction false} HexRoundTrip(b: Bytes)
    ensures HexDecode(HexEncode(b)) == Some(b)
  {
    if b != [] {
      HexRoundTrip(b[1..]);
      DigitRoundTrip(b[0] / 16);
      DigitRoundTrip(b[0] % 16);
      var s := HexEncode(b);
      assert s[2..] == HexEncode(b[1..]);
      assert [b[0]] + b[1..] == b;
    }
  }

  lemma {:induction false} HexIsDigits(b: Bytes)
    ensures AllDigits(HexEncode(b))
  {
    if b != [] {
      HexIsDigits(b[1..]);
    }
  }

  function StripHexPrefix(s: string): string {
    if |s| >= 2 && s[0] == '0' && s[1] == 'x' then s[2..] else s
  }

  /** `parse_hash` and `Address::from_hex`. */
  function ParseFixed(raw: string, length: nat): Option<Bytes> {
    var b := HexDecode(StripHexPrefix(raw));
    if b.Some? && |b.value| == length then b else None
  }

  /** `hash_to_hex`. */
  function PrefixedHex(b: Bytes): string {
    "0x" + HexEncode(b)
  }

  lemma FixedRoundTrip(b: Bytes)
    ensures ParseFixed(PrefixedHex(b), |b|) == Some(b)
  {
    HexRoundTrip(b);
    assert PrefixedHex(b)[2..] == HexEncode(b);
  }

  // ----- trimming -----

  predicate IsWhitespace(c: char) {
    || '\t' <= c <= '\r'
    || c == ' '
    || c == '\U{85}'
    || c == '\U{A0}'
    || c == '\U{1680}'
    || '\U{2000}' <= c <= '\U{200A}'
    || c == '\U{2028}'
    || c == '\U{2029}'
    || c == '\U{202F}'
    || c == '\U{205F}'
    || c == '\U{3000}'
  }

  function TrimStart(s: string): string {
    if s != [] && IsWhitespace(s[0]) then TrimStart(s[1..]) else s
  }

  function TrimEnd(s: string): string {
    if s != [] && IsWhitespace(s[|s| - 1]) then TrimEnd(s[..|s| - 1]) else s
  }

  function Trim(s: string): string {
    TrimEnd(TrimStart(s))
  }

  /** `parse_u64_decimal_or_hex`: a bare prefix means zero. */
  function ParseDecimalOrHex(raw: string): Option<nat> {
    var t := Trim(raw);
    if t == [] then None
    else if |t| >= 2 && t[0] == '0' && (t[1] == 'x' || t[1] == 'X') then
      if |t| == 2 then Some(0) else ParseUnsigned(t[2..], 16, WORD)
    else ParseUnsigned(t, 10, WORD)
  }

  lemma DifficultyRoundTrip(n: U64)
    ensures ParseDecimalOrHex("0x" + Print(n, 16)) == Some(n)
  {
    hide Print;
    var digits := Print(n, 16);
    PrintIsDigits(n, 16);
    NumberRoundTrip(n, 16, WORD);
    assert IsDigit(digits[|digits| - 1]);
    assert ("0x" + digits)[2..] == digits;
  }

  // ----- splitting and joining -----

  /** `split` by one character. */
  function Split(s: string, sep: char): (parts: seq<string>)
    ensures |parts| >= 1
  {
    if s == [] then [[]]
    else
      var rest := Split(s[1..], sep);
      if s[0] == sep then [[]] + rest else [[s[0]] + rest[0]] + rest[1..]
  }

  function Join(parts: seq<string>, sep: char): string {
    if parts == [] then []
    else if |parts| == 1 then parts[0]
    else parts[0] + [sep] + Join(parts[1..], sep)
  }

  lemma {:induction false} SplitNone(s: string, sep: char)
    requires sep !in s
    ensures Split(s, sep) == [s]
  {
    if s != [] {
      assert s == [s[0]] + s[1..];
      SplitNone(s[1..], sep);
    }
  }

  lemma {:induction false} SplitFirst(s: string, sep: char, rest: string)
    requires sep !in s
    ensures Split(s + [sep] + rest, sep) == [s] + Split(rest, sep)
  {
    var all := s + [sep] + rest;
    if s == [] {
      assert all == [sep] + rest;
      assert all[1..] == rest;
    } else {
      assert s == [s[0]] + s[1..];
      assert all[1..] == s[1..] + [sep] + rest;
      SplitFirst(s[1..], sep, rest);
    }
  }

  lemma {:induction false} SplitJoin(parts: seq<string>, sep: char)
    requires parts != [] && forall i :: 0 <= i < |parts| ==> sep !in parts[i]
    ensures Split(Join(parts, sep), sep) == parts
  {
    if |parts| == 1 {
      SplitNone(parts[0], sep);
    } else {
      SplitJoin(parts[1..], sep);
      SplitFirst(parts[0], sep, Join(parts[1..], sep));
      assert parts == [parts[0]] + parts[1..];
    }
  }

  // ----- one header -----

  /** The thirteen printed fields. */
  function Fields(h: SyncHeader): (fs: seq<string>)
    ensures |fs| == 13
  {
    [Print(h.version, 10), Print(h.number, 10), PrefixedHex(h.hash), PrefixedHex(h.parentHash), PrefixedHex(h.stateRoot),
     PrefixedHex(h.transactionsRoot), PrefixedHex(h.receiptsRoot), Print(h.timestamp, 10), "0x" + Print(h.difficulty, 16),
     Print(h.nonce, 10), PrefixedHex(h.coinbase), PrefixedHex(h.mixHash), HexEncode(h.extraData)]
  }

  function FormatHeader(h: SyncHeader): string {
    Join(Fields(h), '@')
  }

  function ZeroHash(): Digest {
    seq(32, _ => 0)
  }

  datatype Roots = Roots(state: Digest, transactions: Digest, receipts: Digest)

  function ParseRoots(parts: seq<string>, from: nat): Result<Roots, ParseError>
    requires from + 3 <= |parts|
  {
    var s, t, r := ParseFixed(parts[from], 32), ParseFixed(parts[from + 1], 32), ParseFixed(parts[from + 2], 32);
    if s.None? then Err(BadStateRoot)
    else if t.None? then Err(BadTransactionsRoot)
    else if r.None? then Err(BadReceiptsRoot)
    else Ok(Roots(s.value, t.value, r.value))
  }

  /** The six fields from the timestamp on. */
  function ParseTail(parts: seq<string>, ts: nat, start: SyncHeader): Result<SyncHeader, ParseError>
    requires ts + 6 <= |parts|
  {
    var timestamp, difficulty := ParseUnsigned(parts[ts], 10, WORD), ParseDecimalOrHex(parts[ts + 1]);
    var nonce, coinbase := ParseUnsigned(parts[ts + 2], 10, WORD), ParseFixed(parts[ts + 3], 20);
    var mixHash, extraData := ParseFixed(parts[ts + 4], 32), HexDecode(parts[ts + 5]);
    if timestamp.None? then Err(BadTimestamp)
    else if difficulty.None? then Err(BadDifficulty)
    else if nonce.None? then Err(BadNonce)
    else if coinbase.None? then Err(BadCoinbase)
    else if mixHash.None? then Err(BadMixHash)
    else if extraData.None? then Err(BadExtraData)
    else
      Ok(start.(timestamp := timestamp.value, difficulty := difficulty.value, nonce := nonce.value,
                coinbase := coinbase.value, mixHash := mixHash.value, extraData := extraData.value))
  }

  /** The fields of one item: 13, or the older forms without version, without the three
      roots, or without both. */
  function ParseParts(parts: seq<string>): Result<SyncHeader, ParseError> {
    if |parts| !in {9, 10, 12, 13} then Err(FieldCount(|parts|))
    else
      var offset := if |parts| == 10 || |parts| == 13 then 1 else 0;
      var version := if offset == 1 then ParseUnsigned(parts[0], 10, 0x1_0000_0000) else Some(1);
      if version.None? then Err(BadVersion)
      else
        var number := ParseUnsigned(parts[offset], 10, WORD);
        var hash, parent := ParseFixed(parts[offset + 1], 32), ParseFixed(parts[offset + 2], 32);
        if number.None? then Err(BadNumber)
        else if hash.None? then Err(BadHash)
        else if parent.None? then Err(BadParentHash)
        else
          var zero := ZeroHash();
          var roots := if |parts| >= 12 then ParseRoots(parts, offset + 3) else Ok(Roots(zero, zero, zero));
          if roots.Err? then Err(roots.error)
          else
            var ts := if |parts| >= 12 then offset + 6 else offset + 3;
            ParseTail(parts, ts,
                      SyncHeader(version.value, number.value, hash.value, parent.value, roots.value.state,
                                 roots.value.transactions, roots.value.receipts, 0, 0, 0, seq(20, _ => 0), zero, []))
  }

  lemma TailRoundTrip(parts: seq<string>, ts: nat, start: SyncHeader, h: SyncHeader)
    requires ts + 6 == |parts| && parts[ts..] == Fields(h)[7..]
    requires start.(timestamp := h.timestamp, difficulty := h.difficulty, nonce := h.nonce, coinbase := h.coinbase,
                    mixHash := h.mixHash, extraData := h.extraData) == h
    ensures ParseTail(parts, ts, start) == Ok(h)
  {
    hide Print, HexEncode, ParseUnsigned, ParseFixed, HexDecode, PrefixedHex, ParseDecimalOrHex;
    var f := Fields(h);
    assert forall i :: 0 <= i < 6 ==> parts[ts + i] == parts[ts..][i] == f[7..][i] == f[7 + i];
    NumberRoundTrip(h.timestamp, 10, WORD);
    DifficultyRoundTrip(h.difficulty);
    NumberRoundTrip(h.nonce, 10, WORD);
    FixedRoundTrip(h.coinbase);
    FixedRoundTrip(h.mixHash);
    HexRoundTrip(h.extraData);
  }

  /** The fields without the version, or without the roots. */
  function Kept(h: SyncHeader, withVersion: bool, withRoots: bool): (parts: seq<string>) {
    var f := Fields(h);
    (if withVersion then f[..1] else []) + f[1..4] + (if withRoots then f[4..7] else []) + f[7..]
  }

  lemma KeptFields(h: SyncHeader, withVersion: bool, withRoots: bool)
    ensures var parts, f, o := Kept(h, withVersion, withRoots), Fields(h), if withVersion then 1 else 0;
            var ts := if withRoots then o + 6 else o + 3;
            && |parts| == ts + 6 && parts[ts..] == f[7..]
            && (withVersion ==> parts[0] == f[0])
            && parts[o] == f[1] && parts[o + 1] == f[2] && parts[o + 2] == f[3]
            && (withRoots ==> parts[o + 3] == f[4] && parts[o + 4] == f[5] && parts[o + 5] == f[6])
  {
    hide Fields;
  }

  /** The three roots are 32 zero bytes each. */
  ghost predicate NoRoots(h: SyncHeader) {
    forall i :: 0 <= i < 32 ==> h.stateRoot[i] == h.transactionsRoot[i] == h.receiptsRoot[i] == 0
  }

  lemma NoRootsAreZero(h: SyncHeader)
    requires NoRoots(h)
    ensures h.stateRoot == h.transactionsRoot == h.receiptsRoot == ZeroHash()
  {
  }

  /** Every form parses back to the header, with version 1 and zero roots where left out. */
  lemma PartsRoundTrip(h: SyncHeader, withVersion: bool, withRoots: bool)
    requires withVersion || h.version == 1
    requires withRoots || NoRoots(h)
    ensures ParseParts(Kept(h, withVersion, withRoots)) == Ok(h)
  {
    hide Print, HexEncode, ParseUnsigned, ParseFixed, HexDecode, PrefixedHex, ParseDecimalOrHex, ParseTail, ZeroHash, Kept,
         NoRoots;
    if !withRoots {
      NoRootsAreZero(h);
    }
    var parts, f := Kept(h, withVersion, withRoots), Fields(h);
    var offset := if withVersion then 1 else 0;
    var ts := if withRoots then offset + 6 else offset + 3;
    NumberRoundTrip(h.version, 10, 0x1_0000_0000);
    NumberRoundTrip(h.number, 10, WORD);
    FixedRoundTrip(h.hash);
    FixedRoundTrip(h.parentHash);
    FixedRoundTrip(h.stateRoot);
    FixedRoundTrip(h.transactionsRoot);
    FixedRoundTrip(h.receiptsRoot);
    KeptFields(h, withVersion, withRoots);
    var start := SyncHeader(h.version, h.number, h.hash, h.parentHash, h.stateRoot, h.transactionsRoot, h.receiptsRoot,
                            0, 0, 0, seq(20, _ => 0), ZeroHash(), []);
    TailRoundTrip(parts, ts, start, h);
  }

  // ----- lists of headers -----

  function FormatItems(headers: seq<SyncHeader>): (items: seq<string>)
    ensures |items| == |headers|
    ensures forall i :: 0 <= i < |headers| ==> items[i] == FormatHeader(headers[i])
  {
    seq(|headers|, i requires 0 <= i < |headers| => FormatHeader(headers[i]))
  }

  /** `format_sync_headers`. */
  function Format(headers: seq<SyncHeader>): string {
    Join(FormatItems(headers), ',')
  }

  /** Collecting the results: the first error wins. */
  function ParseItems(items: seq<string>): Result<seq<SyncHeader>, ParseError> {
    if items == [] then Ok([])
    else
      var first := ParseParts(Split(items[0], '@'));
      if first.Err? then Err(first.error)
      else
        var rest := ParseItems(items[1..]);
        if rest.Err? then rest else Ok([first.value] + rest.value)
  }

  /** `parse_sync_headers`. */
  function Parse(raw: string): Result<seq<SyncHeader>, ParseError> {
    var t := Trim(raw);
    if t == [] then Ok([]) else ParseItems(Split(t, ','))
  }

  /** Printed fields hold digits and the x of a prefix only. */
  ghost predicate Plain(s: string) {
    forall i :: 0 <= i < |s| ==> IsDigit(s[i]) || s[i] == 'x'
  }

  lemma FieldsArePlain(h: SyncHeader)
    ensures forall i :: 0 <= i < 13 ==> Plain(Fields(h)[i])
  {
    hide Print, HexEncode;
    PrintIsDigits(h.version, 10);
    PrintIsDigits(h.number, 10);
    HexIsDigits(h.hash);
    HexIsDigits(h.parentHash);
    HexIsDigits(h.stateRoot);
    HexIsDigits(h.transactionsRoot);
    HexIsDigits(h.receiptsRoot);
    PrintIsDigits(h.timestamp, 10);
    PrintIsDigits(h.difficulty, 16);
    PrintIsDigits(h.nonce, 10);
    HexIsDigits(h.coinbase);
    HexIsDigits(h.mixHash);
    HexIsDigits(h.extraData);
  }

  /** A text of plain characters and separators. */
  ghost predicate PlainOr(s: string, seps: set<char>) {
    forall i :: 0 <= i < |s| ==> IsDigit(s[i]) || s[i] == 'x' || s[i] in seps
  }

  lemma {:induction false} JoinIsPlain(parts: seq<string>, sep: char, seps: set<char>)
    requires forall i :: 0 <= i < |parts| ==> PlainOr(parts[i], seps)
    ensures PlainOr(Join(parts, sep), seps + {sep})
    ensures parts != [] ==> |Join(parts, sep)| >= |parts[0]|
  {
    if |parts| > 1 {
      JoinIsPlain(parts[1..], sep, seps);
    }
  }

  lemma HeaderIsPlain(h: SyncHeader)
    ensures PlainOr(FormatHeader(h), {'@'}) && |FormatHeader(h)| >= 1
  {
    hide Print, HexEncode, Join, Fields;
    FieldsArePlain(h);
    JoinIsPlain(Fields(h), '@', {});
    assert {} + {'@'} == {'@'};
    assert |Fields(h)[0]| >= 1 by { FirstFieldNonempty(h); }
  }

  lemma FirstFieldNonempty(h: SyncHeader)
    ensures |Fields(h)[0]| >= 1
  {
  }

  lemma ItemRoundTrip(h: SyncHeader)
    ensures ParseParts(Split(FormatHeader(h), '@')) == Ok(h)
  {
    hide Print, HexEncode, ParseParts, Join, Split, Fields;
    FieldsArePlain(h);
    SplitJoin(Fields(h), '@');
    PartsRoundTrip(h, true, true);
    var f := Fields(h);
    assert f[..1] + f[1..4] + f[4..7] + f[7..] == f;
  }

  lemma {:induction false} ItemsRoundTrip(headers: seq<SyncHeader>)
    ensures ParseItems(FormatItems(headers)) == Ok(headers)
  {
    hide FormatHeader, ParseParts, Split;
    if headers != [] {
      ItemRoundTrip(headers[0]);
      ItemsRoundTrip(headers[1..]);
      assert FormatItems(headers)[1..] == FormatItems(headers[1..]);
      assert [headers[0]] + headers[1..] == headers;
    }
  }

  /** Nothing to trim on a nonempty text of digits, prefixes and separators. */
  lemma TrimPlain(s: string)
    requires PlainOr(s, {'@', ','})
    ensures Trim(s) == s
  {
    if s != [] {
      assert !IsWhitespace(s[0]) && !IsWhitespace(s[|s| - 1]);
    }
  }

  /** Parsing undoes printing, for every list of headers, the empty one included. */
  lemma ParseUndoesFormat(headers: seq<SyncHeader>)
    ensures Parse(Format(headers)) == Ok(headers)
  {
    hide FormatHeader, ParseItems, Split, Join, Trim;
    var items := FormatItems(headers);
    var text := Format(headers);
    forall i | 0 <= i < |items|
      ensures PlainOr(items[i], {'@'}) && ',' !in items[i] && |items[i]| >= 1
    {
      HeaderIsPlain(headers[i]);
    }
    JoinIsPlain(items, ',', {'@'});
    assert {'@'} + {','} == {'@', ','};
    TrimPlain(text);
    if headers == [] {
      JoinNothing();
    } else {
      SplitJoin(items, ',');
      ItemsRoundTrip(headers);
    }
  }

  lemma JoinNothing()
    ensures Join([], ',') == []
  {
  }

  /** Different lists print differently. */
  lemma FormatIsInjective(a: seq<SyncHeader>, b: seq<SyncHeader>)
    requires Format(a) == Format(b)
    ensures a == b
  {
    hide Format, Parse;
    ParseUndoesFormat(a);
    ParseUndoesFormat(b);
  }

  /** A single item in an older form parses to the header it abbreviates. */
  lemma OlderFormsParse(h: SyncHeader, withVersion: bool, withRoots: bool)
    requires withVersion || h.version == 1
    requires withRoots || NoRoots(h)
    ensures Parse(Join(Kept(h, withVersion, withRoots), '@')) == Ok([h])
  {
    hide Print, HexEncode, ParseParts, Join, Split, Fields, Trim, NoRoots;
    var parts := Kept(h, withVersion, withRoots);
    FieldsArePlain(h);
    forall i | 0 <= i < |parts|
      ensures Plain(parts[i])
    {
      assert parts[i] in Fields(h);
    }
    JoinIsPlain(parts, '@', {});
    var text := Join(parts, '@');
    assert {} + {'@'} == {'@'};
    TrimPlain(text);
    SplitJoin(parts, '@');
    PartsRoundTrip(h, withVersion, withRoots);
    assert |parts[0]| >= 1 by { FieldNonempty(h, if withVersion then 0 else 1); }
    SplitNone(text, ',');
    assert [text][1..] == [];
    assert ParseItems([text][1..]) == Ok([]);
    assert [h] + [] == [h];
  }

  lemma FieldNonempty(h: SyncHeader, i: nat)
    requires i < 2
    ensures |Fields(h)[i]| >= 1
  {
  }
}
