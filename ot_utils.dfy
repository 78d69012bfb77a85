/**
 * Byte utilities and the client half of the oblivious-transfer primitives (src/lib/otUtils.js).
 * P-256, SHA-256 and AES-GCM are foreign library calls: they are fields of CryptoProvider,
 * and those that can reject their input return an Option.
 */
module OtUtils {
  import opened Results
  import JsText
  import opened Powers

  /** A Uint8Array element. */
  type byte = x: int | 0 <= x < 256
  type Bytes = seq<byte>

  // ---------------------------------------------------------------- hex text

  /** toString(16) padded to two characters is the high nibble's digit, then the low one's. */
  lemma {:induction false} PaddedHexDigits(v: nat)
    requires v < 256
    ensures JsText.PadStart(JsText.ToRadixString(v, 16), 2, '0') == [JsText.DigitChar(v / 16), JsText.DigitChar(v % 16)]
  {
    if v >= 16 {
      JsText.DivByRadix(v, 16);
      assert JsText.ToRadixString(v, 16) == JsText.ToRadixString(v / 16, 16) + [JsText.DigitChar(v % 16)];
    }
  }

  /** The hex text of one byte: its high nibble's digit, then its low nibble's. */
  function HexByte(b: byte): (r: string)
    ensures |r| == 2 && JsText.IsLowerDigit(r[0], 16) && JsText.IsLowerDigit(r[1], 16)
  {
    [JsText.DigitChar(b / 16), JsText.DigitChar(b % 16)]
  }

  /** HexByte is what `byte.toString(16).padStart(2, '0')` writes. */
  lemma {:induction false} HexByteIsPaddedToString(b: byte)
    ensures HexByte(b) == JsText.PadStart(JsText.ToRadixString(b, 16), 2, '0')
  {
    PaddedHexDigits(b);
  }

  /** uint8ArrayToHex: `bytes.reduce((str, byte) => str + hex(byte), '')`. */
  function BytesToHex(bytes: Bytes): (r: string)
    ensures |r| == 2 * |bytes|
  {
    if bytes == [] then "" else BytesToHex(bytes[..|bytes| - 1]) + HexByte(bytes[|bytes| - 1])
  }

  /** The matches of the global regular expression /.{1,2}/g: `.` never matches a line terminator. */
  function RegexPairs(s: string): (r: seq<string>)
    ensures forall k :: 0 <= k < |r| ==> 1 <= |r[k]| <= 2
    decreases |s|
  {
    if s == [] then []
    else if JsText.IsLineTerminator(s[0]) then RegexPairs(s[1..])
    else if |s| >= 2 && !JsText.IsLineTerminator(s[1]) then [s[..2]] + RegexPairs(s[2..])
    else [s[..1]] + RegexPairs(s[1..])
  }

  /** The Uint8Array element conversion ToUint8: NaN becomes 0, other integers wrap modulo 256. */
  function ToUint8(v: Option<int>): byte {
    match v
    case None => 0
    case Some(x) => x % 256
  }

  /**
   * hexToUint8Array: an odd length throws; otherwise every regex match is read with
   * parseInt(_, 16). When nothing matches (the empty string) `match` yields null and the
   * `.map` call throws.
   */
  function HexToBytes(hex: string): (r: Result<Bytes>)
    ensures |hex| % 2 != 0 ==> r == Err(OddLengthHex)
    ensures hex == "" ==> r == Err(HexNoMatch)
  {
    if |hex| % 2 != 0 then Err(OddLengthHex)
    else
      var pairs := RegexPairs(hex);
      if pairs == [] then Err(HexNoMatch)
      else Ok(DecodePairs(pairs))
  }

  /** `new Uint8Array(pairs.map(byte => parseInt(byte, 16)))`. */
  function DecodePairs(pairs: seq<string>): (r: Bytes)
    ensures |r| == |pairs|
    ensures forall i :: 0 <= i < |pairs| ==> r[i] == ToUint8(JsText.ParseInt(pairs[i], 16))
  {
    seq(|pairs|, i requires 0 <= i < |pairs| => ToUint8(JsText.ParseInt(pairs[i], 16)))
  }

  /** Byte i of the input is written at characters 2i and 2i+1 of uint8ArrayToHex. */
  lemma {:induction false} BytesToHexPairs(bytes: Bytes)
    ensures forall i :: 0 <= i < |bytes| ==> BytesToHex(bytes)[2 * i..2 * i + 2] == HexByte(bytes[i])
  {
    if bytes != [] {
      var init := bytes[..|bytes| - 1];
      BytesToHexPairs(init);
      var r := BytesToHex(bytes);
      assert r == BytesToHex(init) + HexByte(bytes[|bytes| - 1]);
      forall i | 0 <= i < |bytes| ensures r[2 * i..2 * i + 2] == HexByte(bytes[i]) {
        if i < |init| {
          assert r[2 * i..2 * i + 2] == BytesToHex(init)[2 * i..2 * i + 2];
        }
      }
    }
  }

  predicate NoLineTerminator(s: string) {
    forall k :: 0 <= k < |s| ==> !JsText.IsLineTerminator(s[k])
  }

  /** On even-length text without line terminators the matches are the consecutive pairs. */
  lemma {:induction false} RegexPairsOfPlainText(s: string)
    requires |s| % 2 == 0 && NoLineTerminator(s)
    ensures |RegexPairs(s)| == |s| / 2
    ensures forall i :: 0 <= i < |s| / 2 ==> RegexPairs(s)[i] == s[2 * i..2 * i + 2]
    decreases |s|
  {
    if s != [] {
      var rest := s[2..];
      assert NoLineTerminator(rest) by {
        forall k | 0 <= k < |rest| ensures !JsText.IsLineTerminator(rest[k]) { assert rest[k] == s[k + 2]; }
      }
      RegexPairsOfPlainText(rest);
      assert RegexPairs(s) == [s[..2]] + RegexPairs(rest);
      forall i | 1 <= i < |s| / 2 ensures RegexPairs(s)[i] == s[2 * i..2 * i + 2] {
        assert RegexPairs(s)[i] == RegexPairs(rest)[i - 1];
        assert rest[2 * (i - 1)..2 * (i - 1) + 2] == s[2 * i..2 * i + 2];
      }
    }
  }

  /** A two-digit hex text is worth sixteen times its first digit plus its second. */
  lemma {:induction false} PairValue(p: string)
    requires |p| == 2 && JsText.IsDigit(p[0], 16) && JsText.IsDigit(p[1], 16)
    ensures JsText.DigitsValue(p, 16) == JsText.DigitValue(p[0]).value * 16 + JsText.DigitValue(p[1]).value < 256
  {
    var init := p[..1];
    assert init[..0] == [] && init[0] == p[0];
    assert JsText.DigitsValue(init, 16) == JsText.DigitValue(p[0]).value;
    assert JsText.DigitsValue(p, 16) == JsText.DigitsValue(init, 16) * 16 + JsText.DigitValue(p[1]).value;
  }

  /** parseInt(_, 16) of one two-digit hex text is a byte value, read back exactly. */
  lemma {:induction false} ParsePair(p: string)
    requires |p| == 2 && JsText.IsDigit(p[0], 16) && JsText.IsDigit(p[1], 16)
    ensures ToUint8(JsText.ParseInt(p, 16)) == JsText.DigitValue(p[0]).value * 16 + JsText.DigitValue(p[1]).value
  {
    JsText.ParseIntOfDigits(p, 16, 16);
    PairValue(p);
  }

  /** uint8ArrayToHex writes lower-case hex digits only. */
  lemma {:induction false} BytesToHexIsLowerHex(bytes: Bytes)
    ensures forall k :: 0 <= k < |BytesToHex(bytes)| ==> JsText.IsLowerDigit(BytesToHex(bytes)[k], 16)
  {
    var hex := BytesToHex(bytes);
    BytesToHexPairs(bytes);
    forall k | 0 <= k < |hex| ensures JsText.IsLowerDigit(hex[k], 16) {
      var i := k / 2;
      assert hex[k] == hex[2 * i..2 * i + 2][k - 2 * i];
      assert hex[k] == JsText.DigitChar(bytes[i] as int / 16) || hex[k] == JsText.DigitChar(bytes[i] as int % 16);
    }
  }

  /** parseInt(_, 16) reads the hex text of a byte back as that byte. */
  lemma {:induction false} ParseHexByte(b: byte)
    ensures ToUint8(JsText.ParseInt(HexByte(b), 16)) == b
  {
    var h := HexByte(b);
    ParsePair(h);
    assert JsText.DigitValue(h[0]).value == b / 16;
    assert JsText.DigitValue(h[1]).value == b % 16;
  }

  /** Round trip: decoding the hex text of a non-empty byte string gives the bytes back. */
  lemma {:induction false} HexRoundTrip(bytes: Bytes)
    requires bytes != []
    ensures HexToBytes(BytesToHex(bytes)) == Ok(bytes)
  {
    var hex := BytesToHex(bytes);
    BytesToHexPairs(bytes);
    BytesToHexIsLowerHex(bytes);
    assert NoLineTerminator(hex) by {
      forall k | 0 <= k < |hex| ensures !JsText.IsLineTerminator(hex[k]) { assert JsText.IsLowerDigit(hex[k], 16); }
    }
    RegexPairsOfPlainText(hex);
    var pairs := RegexPairs(hex);
    var decoded := DecodePairs(pairs);
    forall i | 0 <= i < |pairs| ensures decoded[i] == bytes[i] {
      assert pairs[i] == HexByte(bytes[i]);
      ParseHexByte(bytes[i]);
    }
    assert decoded == bytes;
  }

  /** The empty byte string is the one the round trip misses: "" has no regex match. */
  lemma {:induction false} HexOfEmptyDoesNotDecode()
    ensures HexToBytes(BytesToHex([])) == Err(HexNoMatch)
  {
  }

  predicate IsHexText(s: string) {
    forall k :: 0 <= k < |s| ==> JsText.IsDigit(s[k], 16)
  }

  /** The digit toString writes for the value of a hex digit is that digit in lower case. */
  lemma {:induction false} DigitCharOfValue(c: char)
    requires JsText.IsDigit(c, 16)
    ensures JsText.DigitChar(JsText.DigitValue(c).value) == JsText.ToLowerChar(c)
  {
  }

  lemma {:induction false} HexByteOfNibbles(hi: nat, lo: nat)
    requires hi < 16 && lo < 16
    ensures HexByte(hi * 16 + lo) == [JsText.DigitChar(hi), JsText.DigitChar(lo)]
  {
    var v := hi * 16 + lo;
    assert v / 16 == hi && v % 16 == lo;
  }

  /** The byte a two-digit hex text stands for is written back as that text in lower case. */
  lemma {:induction false} HexByteOfPairValue(p: string, b: byte)
    requires |p| == 2 && JsText.IsDigit(p[0], 16) && JsText.IsDigit(p[1], 16)
    requires b == JsText.DigitValue(p[0]).value * 16 + JsText.DigitValue(p[1]).value
    ensures HexByte(b) == JsText.ToLowerCase(p)
  {
    HexByteOfNibbles(JsText.DigitValue(p[0]).value, JsText.DigitValue(p[1]).value);
    DigitCharOfValue(p[0]);
    DigitCharOfValue(p[1]);
  }

  /** Re-encoding one decoded pair gives the pair in lower case. */
  lemma {:induction false} HexBytePair(p: string)
    requires |p| == 2 && JsText.IsDigit(p[0], 16) && JsText.IsDigit(p[1], 16)
    ensures HexByte(ToUint8(JsText.ParseInt(p, 16))) == JsText.ToLowerCase(p)
  {
    var b := ToUint8(JsText.ParseInt(p, 16));
    ParsePair(p);
    HexByteOfPairValue(p, b);
  }

  /** Two texts of the same even length that agree pair by pair are equal. */
  lemma {:induction false} PairwiseEqual(r: string, l: string)
    requires |r| == |l| && |r| % 2 == 0
    requires forall i :: 0 <= i < |r| / 2 ==> r[2 * i..2 * i + 2] == l[2 * i..2 * i + 2]
    ensures r == l
  {
    forall k | 0 <= k < |r| ensures r[k] == l[k] {
      var i := k / 2;
      assert r[k] == r[2 * i..2 * i + 2][k - 2 * i];
      assert l[k] == l[2 * i..2 * i + 2][k - 2 * i];
    }
  }

  /** The pair at 2i re-encodes as the same pair of the lower-cased text. */
  lemma {:induction false} LowerCasePair(s: string, i: nat)
    requires 2 * i + 2 <= |s| && IsHexText(s)
    ensures HexByte(ToUint8(JsText.ParseInt(s[2 * i..2 * i + 2], 16))) == JsText.ToLowerCase(s)[2 * i..2 * i + 2]
  {
    var p := s[2 * i..2 * i + 2];
    assert JsText.IsDigit(s[2 * i], 16) && JsText.IsDigit(s[2 * i + 1], 16);
    HexBytePair(p);
  }

  /** Decoding then re-encoding hex text of even, non-zero length lower-cases it. */
  lemma {:induction false} HexTextRoundTrip(s: string)
    requires s != [] && |s| % 2 == 0 && IsHexText(s)
    ensures HexToBytes(s).Ok?
    ensures |HexToBytes(s).value| == |s| / 2
    ensures BytesToHex(HexToBytes(s).value) == JsText.ToLowerCase(s)
  {
    assert NoLineTerminator(s) by {
      forall k | 0 <= k < |s| ensures !JsText.IsLineTerminator(s[k]) { assert JsText.IsDigit(s[k], 16); }
    }
    RegexPairsOfPlainText(s);
    var pairs := RegexPairs(s);
    var decoded := DecodePairs(pairs);
    assert HexToBytes(s) == Ok(decoded);
    var r := BytesToHex(decoded);
    var l := JsText.ToLowerCase(s);
    BytesToHexPairs(decoded);
    forall i | 0 <= i < |r| / 2 ensures r[2 * i..2 * i + 2] == l[2 * i..2 * i + 2] {
      assert pairs[i] == s[2 * i..2 * i + 2];
      LowerCasePair(s, i);
    }
    PairwiseEqual(r, l);
  }

  // ---------------------------------------------------------------- XOR of seeds

  /** The low k bits of the bitwise exclusive or of a and b. */
  function XorBits(a: nat, b: nat, k: nat): (r: nat)
    ensures r < Pow2(k)
  {
    if k == 0 then 0 else (if a % 2 == b % 2 then 0 else 1) + 2 * XorBits(a / 2, b / 2, k - 1)
  }

  /** The bitwise exclusive or `^` of two bytes. */
  function Xor(a: byte, b: byte): byte {
    XorBits(a, b, 8)
  }

  lemma {:induction false} XorBitsComm(a: nat, b: nat, k: nat)
    ensures XorBits(a, b, k) == XorBits(b, a, k)
  {
    if k > 0 { XorBitsComm(a / 2, b / 2, k - 1); }
  }

  lemma {:induction false} XorBitsSelf(a: nat, k: nat)
    ensures XorBits(a, a, k) == 0
  {
    if k > 0 { XorBitsSelf(a / 2, k - 1); }
  }

  lemma {:induction false} XorBitsZero(a: nat, k: nat)
    requires a < Pow2(k)
    ensures XorBits(a, 0, k) == a
  {
    if k > 0 { XorBitsZero(a / 2, k - 1); }
  }

  /** The low bit of XorBits and the bits above it. */
  lemma {:induction false} XorBitsStep(a: nat, b: nat, k: nat)
    requires k > 0
    ensures XorBits(a, b, k) % 2 == if a % 2 == b % 2 then 0 else 1
    ensures XorBits(a, b, k) / 2 == XorBits(a / 2, b / 2, k - 1)
  {
    var p, q := if a % 2 == b % 2 then 0 else 1, XorBits(a / 2, b / 2, k - 1);
    assert XorBits(a, b, k) == p + 2 * q;
  }

  lemma {:induction false} XorBitsAssoc(a: nat, b: nat, c: nat, k: nat)
    ensures XorBits(XorBits(a, b, k), c, k) == XorBits(a, XorBits(b, c, k), k)
  {
    if k > 0 {
      var x, y := XorBits(a, b, k), XorBits(b, c, k);
      XorBitsStep(a, b, k);
      XorBitsStep(b, c, k);
      XorBitsAssoc(a / 2, b / 2, c / 2, k - 1);
    }
  }

  lemma {:induction false} XorFacts(a: byte, b: byte, c: byte)
    ensures Xor(a, b) == Xor(b, a)
    ensures Xor(Xor(a, b), c) == Xor(a, Xor(b, c))
    ensures Xor(a, a) == 0 && Xor(a, 0) == a && Xor(0, a) == a
  {
    XorBitsComm(a, b, 8);
    XorBitsComm(a, 0, 8);
    XorBitsAssoc(a, b, c, 8);
    XorBitsSelf(a, 8);
    XorBitsZero(a, 8);
  }
  /** `current[i] || 0`: a byte past the end of a buffer reads as 0. */
  function ByteAt(b: Bytes, j: int): byte {
    if 0 <= j < |b| then b[j] else 0
  }

  /** `bufferViews.reduce((acc, current) => acc ^ (current[j] || 0), 0)`. */
  function XorColumn(buffers: seq<Bytes>, j: int): byte {
    if buffers == [] then 0
    else Xor(XorColumn(buffers[..|buffers| - 1], j), ByteAt(buffers[|buffers| - 1], j))
  }

  /** The first buffer whose length differs from the expected one, if any. */
  function FirstBadLength(buffers: seq<Bytes>, expected: int): (r: Option<nat>)
    ensures r.Some? ==> r.value < |buffers| && |buffers[r.value]| != expected
    ensures r.Some? ==> forall k :: 0 <= k < r.value ==> |buffers[k]| == expected
    ensures r.None? ==> forall k :: 0 <= k < |buffers| ==> |buffers[k]| == expected
  {
    if buffers == [] then None
    else if |buffers[0]| != expected then Some(0)
    else
      match FirstBadLength(buffers[1..], expected)
      case None => None
      case Some(i) => Some(i + 1)
  }

  /**
   * What xorBuffers returns: an empty list throws, then the first buffer of the wrong length
   * throws (naming its index), and only then are the buffers combined byte by byte.
   */
  function XorCombine(buffers: seq<Bytes>, expectedLength: int): (r: Result<Bytes>)
    ensures r.Ok? <==> |buffers| > 0 && forall k :: 0 <= k < |buffers| ==> |buffers[k]| == expectedLength
    ensures r.Ok? ==> |r.value| == expectedLength
    ensures r.Ok? ==> forall j :: 0 <= j < |r.value| ==> r.value[j] == XorColumn(buffers, j)
    ensures |buffers| == 0 ==> r == Err(EmptySeedList)
    ensures r.Err? && |buffers| > 0 ==>
      r.error.SeedLengthMismatch? && r.error.seed < |buffers| &&
      r.error == SeedLengthMismatch(r.error.seed, |buffers[r.error.seed]|, expectedLength) &&
      |buffers[r.error.seed]| != expectedLength &&
      forall k :: 0 <= k < r.error.seed ==> |buffers[k]| == expectedLength
  {
    if |buffers| == 0 then Err(EmptySeedList)
    else
      match FirstBadLength(buffers, expectedLength)
      case Some(i) => Err(SeedLengthMismatch(i, |buffers[i]|, expectedLength))
      case None =>
        assert |buffers[0]| == expectedLength;
        Ok(seq(expectedLength, j => XorColumn(buffers, j)))
  }

  /**
   * xorBuffers, as the source runs it: a validation loop over the buffers, then a loop that
   * fills a freshly allocated array one byte at a time.
   */
  method XorBuffers(buffers: seq<Bytes>, expectedLength: int) returns (r: Result<Bytes>)
    ensures r == XorCombine(buffers, expectedLength)
  {
    if |buffers| == 0 {
      return Err(EmptySeedList);
    }
    var i := 0;
    while i < |buffers|
      invariant 0 <= i <= |buffers|
      invariant forall k :: 0 <= k < i ==> |buffers[k]| == expectedLength
    {
      if |buffers[i]| != expectedLength {
        return Err(SeedLengthMismatch(i, |buffers[i]|, expectedLength));
      }
      i := i + 1;
    }
    assert |buffers[0]| == expectedLength;
    var result := new byte[expectedLength];
    var j := 0;
    while j < expectedLength
      invariant 0 <= j <= expectedLength
      invariant forall k :: 0 <= k < j ==> result[k] == XorColumn(buffers, k)
    {
      result[j] := XorColumn(buffers, j);
      j := j + 1;
    }
    assert FirstBadLength(buffers, expectedLength).None?;
    assert result[..] == seq(expectedLength, k => XorColumn(buffers, k));
    return Ok(result[..]);
  }

  /** XOR over a concatenation of buffer lists is the XOR of the two parts. */
  lemma {:induction false} XorColumnConcat(a: seq<Bytes>, b: seq<Bytes>, j: int)
    ensures XorColumn(a + b, j) == Xor(XorColumn(a, j), XorColumn(b, j))
  {
    if b == [] {
      assert a + b == a;
      XorFacts(XorColumn(a, j), 0, 0);
    } else {
      var init := b[..|b| - 1];
      var last := b[|b| - 1];
      assert (a + b)[..|a + b| - 1] == a + init;
      XorColumnConcat(a, init, j);
      XorFacts(XorColumn(a, j), XorColumn(init, j), ByteAt(last, j));
    }
  }

  lemma {:induction false} MultisetCancel(m: multiset<Bytes>, m': multiset<Bytes>, x: Bytes)
    requires m + multiset{x} == m' + multiset{x}
    ensures m == m'
  {
    forall y ensures m[y] == m'[y] {
      assert (m + multiset{x})[y] == (m' + multiset{x})[y];
    }
  }

  /** The combined byte does not depend on the order of the buffers. */
  lemma {:induction false} XorColumnPermutation(a: seq<Bytes>, b: seq<Bytes>, j: int)
    requires multiset(a) == multiset(b)
    ensures XorColumn(a, j) == XorColumn(b, j)
    decreases |a|
  {
    if a != [] {
      var init := a[..|a| - 1];
      var x := a[|a| - 1];
      assert a == init + [x];
      assert x in multiset(b);
      var k :| 0 <= k < |b| && b[k] == x;
      var rest := b[..k] + b[k + 1..];
      assert b == b[..k] + [x] + b[k + 1..];
      assert multiset(a) == multiset(init) + multiset{x};
      assert multiset(b) == multiset(b[..k]) + multiset{x} + multiset(b[k + 1..]);
      assert multiset(rest) == multiset(b[..k]) + multiset(b[k + 1..]);
      MultisetCancel(multiset(init), multiset(rest), x);
      XorColumnPermutation(init, rest, j);
      XorColumnConcat(b[..k] + [x], b[k + 1..], j);
      XorColumnConcat(b[..k], [x], j);
      XorColumnConcat(b[..k], b[k + 1..], j);
      var single: seq<Bytes> := [x];
      assert XorColumn(single, j) == ByteAt(x, j) by {
        assert |single[..0]| == 0;
        XorFacts(ByteAt(x, j), 0, 0);
      }
      XorFacts(XorColumn(b[..k], j), ByteAt(x, j), XorColumn(b[k + 1..], j));
      XorFacts(ByteAt(x, j), XorColumn(b[k + 1..], j), XorColumn(b[..k], j));
      XorFacts(XorColumn(b[..k], j), XorColumn(b[k + 1..], j), ByteAt(x, j));
    }
  }

  /** A column of a single buffer is that buffer's byte. */
  lemma {:induction false} XorColumnSingle(x: Bytes, j: int)
    ensures XorColumn([x], j) == ByteAt(x, j)
  {
    var single: seq<Bytes> := [x];
    assert |single[..0]| == 0;
    XorFacts(ByteAt(x, j), 0, 0);
  }

  /** Combining a single buffer copies it. */
  lemma {:induction false} XorCombineSingle(b: Bytes)
    ensures XorCombine([b], |b|) == Ok(b)
  {
    var r := XorCombine([b], |b|);
    assert r.Ok?;
    forall j | 0 <= j < |b| ensures r.value[j] == b[j] {
      XorColumnSingle(b, j);
    }
    assert r.value == b;
  }

  /** Two copies of one buffer cancel: adding them to valid seeds changes nothing. */
  lemma {:induction false} XorCombineCancel(buffers: seq<Bytes>, x: Bytes)
    requires buffers != [] && forall k :: 0 <= k < |buffers| ==> |buffers[k]| == |x|
    ensures XorCombine(buffers + [x, x], |x|) == XorCombine(buffers, |x|)
  {
    var ext := buffers + [x, x];
    assert forall k :: 0 <= k < |ext| ==> |ext[k]| == |x| by {
      forall k | 0 <= k < |ext| ensures |ext[k]| == |x| {
        if k < |buffers| { assert ext[k] == buffers[k]; }
      }
    }
    var r, r' := XorCombine(ext, |x|), XorCombine(buffers, |x|);
    assert r.Ok? && r'.Ok?;
    forall j | 0 <= j < |x| ensures r.value[j] == r'.value[j] {
      XorColumnConcat(buffers, [x, x], j);
      var pair: seq<Bytes> := [x, x];
      assert pair[..1] == [x];
      XorColumnSingle(x, j);
      XorFacts(ByteAt(x, j), 0, 0);
      XorFacts(XorColumn(buffers, j), 0, 0);
    }
    assert r.value == r'.value;
  }

  /** Reordering the buffers changes neither whether they combine nor the combined result. */
  lemma {:induction false} XorCombinePermutation(a: seq<Bytes>, b: seq<Bytes>, n: int)
    requires multiset(a) == multiset(b)
    ensures XorCombine(a, n).Ok? <==> XorCombine(b, n).Ok?
    ensures XorCombine(a, n).Ok? ==> XorCombine(a, n).value == XorCombine(b, n).value
  {
    assert |a| == |multiset(a)| == |b|;
    forall k | 0 <= k < |a| ensures a[k] in b {
      assert a[k] in multiset(a);
    }
    forall k | 0 <= k < |b| ensures b[k] in a {
      assert b[k] in multiset(b);
    }
    if XorCombine(a, n).Ok? {
      var ra, rb := XorCombine(a, n), XorCombine(b, n);
      assert rb.Ok?;
      forall j | 0 <= j < n ensures ra.value[j] == rb.value[j] {
        XorColumnPermutation(a, b, j);
      }
      assert ra.value == rb.value;
    }
  }

  // ---------------------------------------------------------------- cryptography

  datatype KeyPair = KeyPair(privateKey: Bytes, publicKey: Bytes)

  /** An imported AES-GCM CryptoKey, carrying its raw bytes. */
  datatype AesKey = AesKey(raw: Bytes)

  /**
   * The foreign primitives: P-256 public-key derivation and ECDH (which rejects an invalid
   * point), SHA-256, and AES-GCM decryption of (key, iv, data), which fails on a bad tag.
   */
  datatype CryptoProvider = CryptoProvider(
    publicKeyOf: Bytes -> Bytes,
    sharedSecret: (Bytes, Bytes) -> Option<Bytes>,
    sha256: Bytes -> Bytes,
    aesGcmDecrypt: (Bytes, Bytes, Bytes) -> Option<Bytes>)

  /** A provider behaves as SHA-256 does in the one respect the client relies on: 32-byte digests. */
  ghost predicate ValidProvider(crypto: CryptoProvider) {
    forall m :: |crypto.sha256(m)| == 32
  }

  /** generateClientOtKeyPair: the private key is the random secret drawn by the caller. */
  function GenerateClientOtKeyPair(crypto: CryptoProvider, randomSecret: Bytes): (kp: KeyPair)
    ensures kp.privateKey == randomSecret && kp.publicKey == crypto.publicKeyOf(randomSecret)
  {
    KeyPair(randomSecret, crypto.publicKeyOf(randomSecret))
  }

  /** importKey('raw', _, 'AES-GCM'): WebCrypto accepts only 128, 192 or 256-bit keys. */
  function ImportAesKey(raw: Bytes): (r: Result<AesKey>)
    ensures r.Ok? <==> |raw| == 16 || |raw| == 24 || |raw| == 32
    ensures r.Ok? ==> r.value.raw == raw
    ensures r.Err? ==> r.error == InvalidAesKeyLength(|raw|)
  {
    if |raw| == 16 || |raw| == 24 || |raw| == 32 then Ok(AesKey(raw)) else Err(InvalidAesKeyLength(|raw|))
  }

  /** deriveClientSharedSecret: ECDH, then SHA-256 of the shared point, imported as an AES key. */
  function DeriveClientSharedSecret(crypto: CryptoProvider, clientPrivateKey: Bytes, serverPublicKey: Bytes): (r: Result<AesKey>)
    ensures crypto.sharedSecret(clientPrivateKey, serverPublicKey).None? ==> r == Err(InvalidPublicKey)
    ensures r.Ok? ==> (crypto.sharedSecret(clientPrivateKey, serverPublicKey).Some? &&
                       r.value.raw == crypto.sha256(crypto.sharedSecret(clientPrivateKey, serverPublicKey).value))
  {
    match crypto.sharedSecret(clientPrivateKey, serverPublicKey)
    case None => Err(InvalidPublicKey)
    case Some(shared) => ImportAesKey(crypto.sha256(shared))
  }

  const IV_LENGTH: nat := 12

  /** `buf.slice(0, 12)` and `buf.slice(12)`: slices clamp to the buffer. */
  function SplitIv(buf: Bytes): (r: (Bytes, Bytes))
    ensures r.0 + r.1 == buf
    ensures |r.0| == if |buf| < IV_LENGTH then |buf| else IV_LENGTH
  {
    var n := if |buf| < IV_LENGTH then |buf| else IV_LENGTH;
    (buf[..n], buf[n..])
  }

  /** aesGcmDecrypt: decode the hex text, then decrypt with the first 12 bytes as IV. */
  function AesGcmDecrypt(crypto: CryptoProvider, ciphertextHex: string, key: AesKey): (r: Result<Bytes>)
    ensures HexToBytes(ciphertextHex).Err? ==> r == Err(HexToBytes(ciphertextHex).error)
    ensures r.Ok? ==> HexToBytes(ciphertextHex).Ok?
    ensures r.Ok? ==>
      var ct := HexToBytes(ciphertextHex).value;
      var n := if |ct| < IV_LENGTH then |ct| else IV_LENGTH;
      crypto.aesGcmDecrypt(key.raw, ct[..n], ct[n..]) == Some(r.value)
    ensures HexToBytes(ciphertextHex).Ok? ==>
      var ct := HexToBytes(ciphertextHex).value;
      var n := if |ct| < IV_LENGTH then |ct| else IV_LENGTH;
      var plain := crypto.aesGcmDecrypt(key.raw, ct[..n], ct[n..]);
      r == if plain.Some? then Ok(plain.value) else Err(DecryptFailed)
  {
    match HexToBytes(ciphertextHex)
    case Err(e) => Err(e)
    case Ok(ct) =>
      var (iv, data) := SplitIv(ct);
      match crypto.aesGcmDecrypt(key.raw, iv, data)
      case None => Err(DecryptFailed)
      case Some(plain) => Ok(plain)
  }

  /** A 12-byte IV framed in front of the data is split off again. */
  lemma {:induction false} SplitIvOfFramed(iv: Bytes, data: Bytes)
    requires |iv| == IV_LENGTH
    ensures SplitIv(iv + data) == (iv, data)
  {
    assert (iv + data)[..IV_LENGTH] == iv;
    assert (iv + data)[IV_LENGTH..] == data;
  }

  /**
   * A ciphertext the server frames as IV then data and sends as hex decrypts to what
   * AES-GCM yields for that IV and data.
   */
  lemma {:induction false} AesGcmDecryptOfFramed(crypto: CryptoProvider, key: AesKey, iv: Bytes, data: Bytes)
    requires |iv| == IV_LENGTH
    ensures var plain := crypto.aesGcmDecrypt(key.raw, iv, data);
      AesGcmDecrypt(crypto, BytesToHex(iv + data), key) == if plain.Some? then Ok(plain.value) else Err(DecryptFailed)
  {
    HexRoundTrip(iv + data);
    SplitIvOfFramed(iv, data);
  }

  /** ECDH that accepts the point and a 32-byte digest always yield a usable AES-256 key. */
  lemma {:induction false} DeriveOfValidPoint(crypto: CryptoProvider, clientPrivateKey: Bytes, serverPublicKey: Bytes)
    requires crypto.sharedSecret(clientPrivateKey, serverPublicKey).Some?
    requires ValidProvider(crypto)
    ensures DeriveClientSharedSecret(crypto, clientPrivateKey, serverPublicKey)
         == Ok(AesKey(crypto.sha256(crypto.sharedSecret(clientPrivateKey, serverPublicKey).value)))
  {
  }
}
