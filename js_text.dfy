/**
 * The ECMAScript string and number built-ins the client relies on, with the edge cases the
 * language defines: String.prototype.trim, toLowerCase (ASCII letters only), includes,
 * padStart, Number.prototype.toString(radix) on non-negative integers, and parseInt.
 */
module JsText {
  import opened Results

  predicate IsLineTerminator(c: char) {
    c == '\n' || c == '\r' || c == '\U{2028}' || c == '\U{2029}'
  }

  /** ECMAScript WhiteSpace: TAB, VT, FF, ZWNBSP and the Unicode space separators (Zs). */
  predicate IsWhiteSpace(c: char) {
    c == '\t' || c == '\U{B}' || c == '\U{C}' || c == ' ' || c == '\U{A0}' || c == '\U{FEFF}'
    || c == '\U{1680}' || ('\U{2000}' <= c <= '\U{200A}') || c == '\U{202F}' || c == '\U{205F}'
    || c == '\U{3000}'
  }

  /** What trim and parseInt strip: WhiteSpace or LineTerminator. */
  predicate IsStrWhiteSpace(c: char) {
    IsWhiteSpace(c) || IsLineTerminator(c)
  }

  function TrimStart(s: string): (r: string)
    ensures |r| <= |s| && r == s[|s| - |r|..]
    ensures r == [] || !IsStrWhiteSpace(r[0])
    ensures forall i :: 0 <= i < |s| - |r| ==> IsStrWhiteSpace(s[i])
  {
    if s != [] && IsStrWhiteSpace(s[0]) then TrimStart(s[1..]) else s
  }

  function TrimEnd(s: string): (r: string)
    ensures |r| <= |s| && r == s[..|r|]
    ensures r == [] || !IsStrWhiteSpace(r[|r| - 1])
    ensures forall i :: |r| <= i < |s| ==> IsStrWhiteSpace(s[i])
  {
    if s != [] && IsStrWhiteSpace(s[|s| - 1]) then TrimEnd(s[..|s| - 1]) else s
  }

  /**
   * String.prototype.trim: the text between a run of leading and a run of trailing white
   * space; it is empty exactly when every character is white space.
   */
  function Trim(s: string): (r: string)
    ensures exists a, b :: 0 <= a <= b <= |s| && r == s[a..b] && StrippedRuns(s, a, b)
    ensures r == [] <==> forall i :: 0 <= i < |s| ==> IsStrWhiteSpace(s[i])
    ensures r != [] ==> !IsStrWhiteSpace(r[0]) && !IsStrWhiteSpace(r[|r| - 1])
  {
    var r := TrimEnd(TrimStart(s));
    assert exists a, b :: 0 <= a <= b <= |s| && r == s[a..b] && StrippedRuns(s, a, b) by {
      var t := TrimStart(s);
      DropThenTake(s, t, r);
      assert r == s[|s| - |t|..|s| - |t| + |r|];
    }
    r
  }

  /** Every character of s[..a] and of s[b..] is white space. */
  predicate StrippedRuns(s: string, a: nat, b: nat) {
    (forall i :: 0 <= i < a && i < |s| ==> IsStrWhiteSpace(s[i])) && (forall i :: b <= i < |s| ==> IsStrWhiteSpace(s[i]))
  }

  /**
   * Dropping a white-space run from the front and then one from the back leaves a slice of
   * the text between two white-space runs.
   */
  lemma {:induction false} DropThenTake(s: string, t: string, r: string)
    requires |t| <= |s| && t == s[|s| - |t|..]
    requires forall i :: 0 <= i < |s| - |t| ==> IsStrWhiteSpace(s[i])
    requires |r| <= |t| && r == t[..|r|]
    requires forall i :: |r| <= i < |t| ==> IsStrWhiteSpace(t[i])
    ensures var a := |s| - |t|;
      r == s[a..a + |r|] && StrippedRuns(s, a, a + |r|)
  {
    var a := |s| - |t|;
    forall i | a + |r| <= i < |s| ensures IsStrWhiteSpace(s[i]) {
      assert s[i] == t[i - a];
    }
  }

  function ToLowerChar(c: char): char {
    if 'A' <= c <= 'Z' then (c as int + 32) as char else c
  }

  /** toLowerCase restricted to ASCII letters. */
  function ToLowerCase(s: string): (r: string)
    ensures |r| == |s|
    ensures forall i :: 0 <= i < |s| ==> r[i] == ToLowerChar(s[i])
  {
    seq(|s|, i requires 0 <= i < |s| => ToLowerChar(s[i]))
  }

  predicate OccursAt(s: string, needle: string, i: int) {
    0 <= i && i + |needle| <= |s| && s[i..i + |needle|] == needle
  }

  /** String.prototype.includes: the needle occurs at some position of s. */
  function Includes(s: string, needle: string): (r: bool)
    ensures r <==> exists i :: OccursAt(s, needle, i)
    decreases |s|
  {
    if |needle| <= |s| && s[..|needle|] == needle then
      assert OccursAt(s, needle, 0);
      true
    else if s == [] then
      false
    else
      var r := Includes(s[1..], needle);
      assert forall i :: OccursAt(s[1..], needle, i) ==> OccursAt(s, needle, i + 1) by {
        forall i | OccursAt(s[1..], needle, i) ensures OccursAt(s, needle, i + 1) {
          assert s[i + 1..i + 1 + |needle|] == s[1..][i..i + |needle|];
        }
      }
      assert forall i :: OccursAt(s, needle, i) ==> i >= 1 && OccursAt(s[1..], needle, i - 1) by {
        forall i | OccursAt(s, needle, i) ensures i >= 1 && OccursAt(s[1..], needle, i - 1) {
          assert s[1..][i - 1..i - 1 + |needle|] == s[i..i + |needle|];
        }
      }
      r
  }

  /** String.prototype.padStart with a one-character filler: never truncates. */
  function PadStart(s: string, targetLength: int, fill: char): (r: string)
    ensures |r| == if targetLength > |s| then targetLength else |s|
    ensures forall i :: 0 <= i < |r| ==> r[i] == if i < |r| - |s| then fill else s[i - (|r| - |s|)]
  {
    if targetLength > |s| then seq(targetLength - |s|, _ => fill) + s else s
  }

  /** Value of c read as a digit of radix up to 36 (letters in either case); None if none. */
  function DigitValue(c: char): Option<nat> {
    if '0' <= c <= '9' then Some(c as int - '0' as int)
    else if 'a' <= c <= 'z' then Some(c as int - 'a' as int + 10)
    else if 'A' <= c <= 'Z' then Some(c as int - 'A' as int + 10)
    else None
  }

  predicate IsDigit(c: char, radix: nat) {
    DigitValue(c).Some? && DigitValue(c).value < radix
  }

  /** A digit as Number.prototype.toString writes it: lower-case letters only. */
  predicate IsLowerDigit(c: char, radix: nat) {
    IsDigit(c, radix) && !('A' <= c <= 'Z')
  }

  function DigitChar(d: nat): (c: char)
    requires d < 36
    ensures IsLowerDigit(c, d + 1) && DigitValue(c) == Some(d)
  {
    if d < 10 then ('0' as int + d) as char else ('a' as int + d - 10) as char
  }

  /** Value of a digit string, most significant digit first. */
  function DigitsValue(ds: string, radix: nat): nat
    requires forall i :: 0 <= i < |ds| ==> IsDigit(ds[i], radix)
  {
    if ds == [] then 0
    else
      var last := ds[|ds| - 1];
      var init := ds[..|ds| - 1];
      assert IsDigit(last, radix);
      assert forall i :: 0 <= i < |init| ==> init[i] == ds[i];
      Scale(DigitsValue(init, radix), radix) + DigitValue(last).value
  }

  /** v * radix, kept apart so that its sign is settled once. */
  function Scale(v: nat, radix: nat): nat {
    v * radix
  }

  /** Number.prototype.toString(radix) of a non-negative integer. */
  function ToRadixString(n: nat, radix: nat): (r: string)
    requires 2 <= radix <= 36
    ensures |r| >= 1
    ensures forall i :: 0 <= i < |r| ==> IsLowerDigit(r[i], radix)
    ensures n < radix ==> |r| == 1
    decreases n
  {
    if n < radix then [DigitChar(n)]
    else
      DivByRadix(n, radix);
      ToRadixString(n / radix, radix) + [DigitChar(n % radix)]
  }

  lemma {:induction false} DivByRadix(n: nat, radix: nat)
    requires radix >= 2 && n >= radix
    ensures 1 <= n / radix < n
    ensures n == (n / radix) * radix + n % radix
  {
  }

  /** The digits toString writes read back as the number. */
  lemma {:induction false} ToRadixStringValue(n: nat, radix: nat)
    requires 2 <= radix <= 36
    ensures DigitsValue(ToRadixString(n, radix), radix) == n
    decreases n
  {
    var r := ToRadixString(n, radix);
    if n < radix {
      assert r[..0] == [];
    } else {
      var q := n / radix;
      DivByRadix(n, radix);
      var prefix := ToRadixString(q, radix);
      assert r[..|r| - 1] == prefix;
      ToRadixStringValue(q, radix);
      assert DigitsValue(r, radix) == q * radix + n % radix;
    }
  }

  /** toString writes no leading zero. */
  lemma {:induction false} ToRadixStringNoLeadingZero(n: nat, radix: nat)
    requires 2 <= radix <= 36
    ensures |ToRadixString(n, radix)| > 1 ==> ToRadixString(n, radix)[0] != '0'
  {
    if n >= radix {
      var q := n / radix;
      DivByRadix(n, radix);
      var prefix := ToRadixString(q, radix);
      assert ToRadixString(n, radix)[0] == prefix[0];
      if |prefix| == 1 {
        assert DigitValue(prefix[0]) == Some(q);
      } else {
        ToRadixStringNoLeadingZero(q, radix);
      }
    }
  }

  /** Number.prototype.toString() of an integer (decimal, with a minus sign when negative). */
  function IntToString(n: int): (r: string)
    ensures |r| >= 1
  {
    if n < 0 then "-" + ToRadixString(-n, 10) else ToRadixString(n, 10)
  }

  /** Length of the longest prefix of t made of digits of the radix. */
  function DigitPrefixLength(t: string, radix: nat): (k: nat)
    ensures k <= |t|
    ensures forall i :: 0 <= i < k ==> IsDigit(t[i], radix)
    ensures k < |t| ==> !IsDigit(t[k], radix)
  {
    if t == [] || !IsDigit(t[0], radix) then 0 else 1 + DigitPrefixLength(t[1..], radix)
  }

  /**
   * The part of parseInt after the sign: a 0x/0X prefix switches an absent radix (0) or
   * radix 16 to 16, then the longest run of digits is read and anything after it ignored.
   */
  function ParseUnsigned(u: string, radix: int): Option<nat>
    requires radix == 0 || 2 <= radix <= 36
  {
    var hexPrefix := (radix == 0 || radix == 16) && |u| >= 2 && u[0] == '0' && (u[1] == 'x' || u[1] == 'X');
    var r: nat := if hexPrefix then 16 else if radix == 0 then 10 else radix;
    var v := if hexPrefix then u[2..] else u;
    var k := DigitPrefixLength(v, r);
    if k == 0 then None else Some(DigitsValue(v[..k], r))
  }

  /** The part of parseInt after leading white space: an optional sign, then the digits. */
  function ParseSigned(t: string, radix: int): Option<int>
    requires radix == 0 || 2 <= radix <= 36
  {
    var negative := t != [] && t[0] == '-';
    var u := if t != [] && (t[0] == '-' || t[0] == '+') then t[1..] else t;
    match ParseUnsigned(u, radix)
    case None => None
    case Some(m) => Some(if negative then -(m as int) else m as int)
  }

  /** parseInt(s, radix), radix 0 standing for an absent radix; None stands for NaN. */
  function ParseInt(s: string, radix: int): Option<int> {
    if radix != 0 && !(2 <= radix <= 36) then None else ParseSigned(TrimStart(s), radix)
  }

  /** The unsigned part reads back a digit string that has no 0x prefix. */
  lemma {:induction false} ParseUnsignedOfDigits(s: string, radix: int, r: nat)
    requires 2 <= r <= 36 && (radix == r || (radix == 0 && r == 10))
    requires s != [] && forall i :: 0 <= i < |s| ==> IsDigit(s[i], r)
    requires !(|s| >= 2 && s[0] == '0' && (s[1] == 'x' || s[1] == 'X'))
    ensures ParseUnsigned(s, radix) == Some(DigitsValue(s, r))
  {
    var k := DigitPrefixLength(s, r);
    assert k == |s|;
    assert s[..k] == s;
  }

  /** parseInt reads back a digit string that has no 0x prefix. */
  lemma {:induction false} ParseIntOfDigits(s: string, radix: int, r: nat)
    requires 2 <= r <= 36 && (radix == r || (radix == 0 && r == 10))
    requires s != [] && forall i :: 0 <= i < |s| ==> IsDigit(s[i], r)
    requires !(|s| >= 2 && s[0] == '0' && (s[1] == 'x' || s[1] == 'X'))
    ensures ParseInt(s, radix) == Some(DigitsValue(s, r))
  {
    assert !IsStrWhiteSpace(s[0]);
    assert TrimStart(s) == s;
    ParseUnsignedOfDigits(s, radix, r);
  }

  /** parseInt reads a minus sign followed by digits as the negated value. */
  lemma {:induction false} ParseIntOfNegatedDigits(s: string, radix: int, r: nat)
    requires 2 <= r <= 36 && (radix == r || (radix == 0 && r == 10))
    requires s != [] && forall i :: 0 <= i < |s| ==> IsDigit(s[i], r)
    requires !(|s| >= 2 && s[0] == '0' && (s[1] == 'x' || s[1] == 'X'))
    ensures ParseInt("-" + s, radix) == Some(-(DigitsValue(s, r) as int))
  {
    var t := "-" + s;
    TrimStartOfNonSpace(t);
    ParseSignedOfNegatedDigits(s, radix, r);
  }

  lemma {:induction false} TrimStartOfNonSpace(t: string)
    requires t != [] && !IsStrWhiteSpace(t[0])
    ensures TrimStart(t) == t
  {
  }

  lemma {:induction false} ParseSignedOfNegatedDigits(s: string, radix: int, r: nat)
    requires 2 <= r <= 36 && (radix == r || (radix == 0 && r == 10))
    requires s != [] && forall i :: 0 <= i < |s| ==> IsDigit(s[i], r)
    requires !(|s| >= 2 && s[0] == '0' && (s[1] == 'x' || s[1] == 'X'))
    ensures ParseSigned("-" + s, radix) == Some(-(DigitsValue(s, r) as int))
  {
    ParseUnsignedOfDigits(s, radix, r);
    ParseSignedOfMinus(s, radix, DigitsValue(s, r));
  }

  /** A leading minus sign negates what the text after it reads as. */
  lemma {:induction false} ParseSignedOfMinus(u: string, radix: int, v: nat)
    requires radix == 0 || 2 <= radix <= 36
    requires ParseUnsigned(u, radix) == Some(v)
    ensures ParseSigned("-" + u, radix) == Some(-(v as int))
  {
    assert ("-" + u)[1..] == u;
  }

  /** Round trip: parseInt(n.toString()) == n for every integer n, with or without radix 10. */
  lemma {:induction false} ParseIntOfIntToString(n: int)
    ensures ParseInt(IntToString(n), 0) == Some(n)
    ensures ParseInt(IntToString(n), 10) == Some(n)
  {
    if n >= 0 {
      ParseIntOfNatToString(n, 0);
      ParseIntOfNatToString(n, 10);
    } else {
      ParseIntOfNegToString(n, 0);
      ParseIntOfNegToString(n, 10);
    }
  }

  lemma {:induction false} ParseIntOfNatToString(n: nat, radix: int)
    requires radix == 0 || radix == 10
    ensures ParseInt(IntToString(n), radix) == Some(n)
  {
    var d := ToRadixString(n, 10);
    ToRadixStringValue(n, 10);
    ToRadixStringNoLeadingZero(n, 10);
    ParseIntOfDigits(d, radix, 10);
  }

  lemma {:induction false} ParseIntOfNegToString(n: int, radix: int)
    requires n < 0 && (radix == 0 || radix == 10)
    ensures ParseInt(IntToString(n), radix) == Some(n)
  {
    var m: nat := -n;
    var d := ToRadixString(m, 10);
    ToRadixStringValue(m, 10);
    ToRadixStringNoLeadingZero(m, 10);
    ParseIntOfNegatedDigits(d, radix, 10);
    assert IntToString(n) == "-" + d;
  }

  /** Leading zeros do not change the value of a digit string. */
  lemma {:induction false} DigitsValueLeadingZeros(z: string, s: string, radix: nat)
    requires radix >= 2
    requires forall i :: 0 <= i < |z| ==> z[i] == '0'
    requires forall i :: 0 <= i < |s| ==> IsDigit(s[i], radix)
    ensures forall i :: 0 <= i < |z + s| ==> IsDigit((z + s)[i], radix)
    ensures DigitsValue(z + s, radix) == DigitsValue(s, radix)
    decreases |s|, |z|
  {
    var zs := z + s;
    assert forall i :: 0 <= i < |zs| ==> IsDigit(zs[i], radix) by {
      forall i | 0 <= i < |zs| ensures IsDigit(zs[i], radix) {
        if i < |z| { assert zs[i] == '0'; } else { assert zs[i] == s[i - |z|]; }
      }
    }
    if s == [] {
      if z != [] {
        assert zs[..|zs| - 1] == z[..|z| - 1];
        DigitsValueLeadingZeros(z[..|z| - 1], [], radix);
        assert z[..|z| - 1] + [] == z[..|z| - 1];
      }
    } else {
      assert zs[..|zs| - 1] == z + s[..|s| - 1];
      DigitsValueLeadingZeros(z, s[..|s| - 1], radix);
    }
  }
}
