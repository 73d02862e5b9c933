/**
 * The byte-string primitives of PHP that the WSIF codec relies on: `strpos`,
 * `trim`, the `(int)` cast, decimal and hexadecimal rendering (`sprintf("%d")`,
 * `dechex`) and `hexdec` on a run of hexadecimal digits.
 *
 * A PHP string is a string of bytes; here each `char` of a `string` stands for
 * one byte.
 */
module Text {
  import opened Wrappers

  /** `needle` occurs in `hay` starting at offset `i`. */
  predicate OccursAt(hay: string, needle: string, i: nat) {
    i + |needle| <= |hay| && hay[i..i + |needle|] == needle
  }

  predicate Contains(hay: string, needle: string) {
    exists i: nat | i <= |hay| :: OccursAt(hay, needle, i)
  }

  /** PHP `strpos($hay, $needle, $from)`: the first occurrence at or after `from`. */
  function IndexOf(hay: string, needle: string, from: nat): (r: Option<nat>)
    decreases |hay| - from
    ensures r.Some? ==> from <= r.value && OccursAt(hay, needle, r.value)
    ensures r.Some? ==> forall i: nat :: from <= i < r.value ==> !OccursAt(hay, needle, i)
    ensures r.None? ==> forall i: nat :: from <= i ==> !OccursAt(hay, needle, i)
  {
    if from > |hay| then None
    else if OccursAt(hay, needle, from) then Some(from)
    else IndexOf(hay, needle, from + 1)
  }

  lemma IndexOfFromStart(hay: string, needle: string)
    ensures IndexOf(hay, needle, 0).Some? <==> Contains(hay, needle)
  {
    if Contains(hay, needle) {
      var i: nat :| i <= |hay| && OccursAt(hay, needle, i);
    }
  }

  // ---------------------------------------------------------------------------
  // trim()

  /** The characters PHP's `trim` strips by default: space, tab, LF, CR, NUL, VT. */
  predicate IsTrimChar(c: char) {
    c == ' ' || c == '\t' || c == '\n' || c == '\r' || c == '\0' || c == '\U{0B}'
  }

  function TrimLeft(s: string): (r: string)
    ensures |r| <= |s| && r == s[|s| - |r|..]
    ensures forall i :: 0 <= i < |s| - |r| ==> IsTrimChar(s[i])
    ensures r != [] ==> !IsTrimChar(r[0])
  {
    if s != [] && IsTrimChar(s[0]) then TrimLeft(s[1..]) else s
  }

  function TrimRight(s: string): (r: string)
    ensures |r| <= |s| && r == s[..|r|]
    ensures forall i :: |r| <= i < |s| ==> IsTrimChar(s[i])
    ensures r != [] ==> !IsTrimChar(r[|r| - 1])
  {
    if s != [] && IsTrimChar(s[|s| - 1]) then TrimRight(s[..|s| - 1]) else s
  }

  /** PHP `trim($s)`. */
  function Trim(s: string): string {
    TrimRight(TrimLeft(s))
  }

  /** Text that neither starts nor ends with a character `trim` strips. */
  predicate IsTrimmed(s: string) {
    s == [] || (!IsTrimChar(s[0]) && !IsTrimChar(s[|s| - 1]))
  }

  lemma TrimOfTrimmed(s: string)
    requires IsTrimmed(s)
    ensures Trim(s) == s
  {
  }

  /** The value read back from a header line `name: value`: the space after
      the colon is stripped with the rest of the surrounding blanks. */
  lemma TrimAfterSpace(v: string)
    requires IsTrimmed(v)
    ensures Trim(" " + v) == v
  {
    assert (" " + v)[1..] == v;
  }

  // ---------------------------------------------------------------------------
  // Decimal numbers: sprintf("%d") and the (int) cast

  predicate IsDigit(c: char) {
    '0' <= c <= '9'
  }

  function DigitChar(d: nat): (c: char)
    requires d < 10
    ensures IsDigit(c) && c as int - '0' as int == d
  {
    (('0' as int) + d) as char
  }

  /** The decimal rendering of a natural number, without leading zeros. */
  function NatToString(n: nat): (r: string)
    ensures |r| > 0 && forall i :: 0 <= i < |r| ==> IsDigit(r[i])
    ensures |r| > 1 ==> r[0] != '0'
  {
    if n < 10 then [DigitChar(n)] else NatToString(n / 10) + [DigitChar(n % 10)]
  }

  /** PHP's rendering of an integer in a string context. */
  function IntToString(n: int): string {
    if n < 0 then "-" + NatToString(-n) else NatToString(n)
  }

  /** The value of a string of decimal digits. */
  function DigitsValue(s: string): nat
    requires forall i :: 0 <= i < |s| ==> IsDigit(s[i])
  {
    if s == [] then 0 else DigitsValue(s[..|s| - 1]) * 10 + DigitValue(s[|s| - 1])
  }

  function DigitValue(c: char): (d: nat)
    requires IsDigit(c)
    ensures d < 10
  {
    c as int - '0' as int
  }

  /** The longest prefix of `s` made of decimal digits. */
  function LeadingDigits(s: string): (r: string)
    ensures |r| <= |s| && r == s[..|r|]
    ensures forall i :: 0 <= i < |r| ==> IsDigit(r[i])
    ensures |r| < |s| ==> !IsDigit(s[|r|])
  {
    if s != [] && IsDigit(s[0]) then [s[0]] + LeadingDigits(s[1..]) else []
  }

  /** The blanks the (int) cast skips before the number. */
  predicate IsCastSpace(c: char) {
    c == ' ' || c == '\t' || c == '\n' || c == '\r' || c == '\U{0B}' || c == '\U{0C}'
  }

  function SkipCastSpace(s: string): string {
    if s != [] && IsCastSpace(s[0]) then SkipCastSpace(s[1..]) else s
  }

  /** The range of PHP's 64-bit integers. */
  const IntMax: int := 0x7FFF_FFFF_FFFF_FFFF
  const IntMin: int := -0x8000_0000_0000_0000

  /** A value pushed into the 64-bit range, as `strtol` does on overflow. */
  function Saturate(n: int): (r: int)
    ensures IntMin <= r <= IntMax
    ensures IntMin <= n <= IntMax ==> r == n
    ensures n > IntMax ==> r == IntMax
    ensures n < IntMin ==> r == IntMin
  {
    if n > IntMax then IntMax else if n < IntMin then IntMin else n
  }

  /** The number `(int)$s` reads before it is brought into the 64-bit range. */
  function CastValue(s: string): int {
    var t := SkipCastSpace(s);
    if t != [] && t[0] == '-' then -(DigitsValue(LeadingDigits(t[1..])) as int)
    else if t != [] && t[0] == '+' then DigitsValue(LeadingDigits(t[1..]))
    else DigitsValue(LeadingDigits(t))
  }

  /** PHP 7.0's `(int)$s` on a 64-bit build: optional blanks, an optional sign
      and the leading digits, 0 when there are none, saturated at the bounds
      of the integer range. */
  function IntVal(s: string): int {
    Saturate(CastValue(s))
  }

  lemma {:induction false} DigitsValueOfNatToString(n: nat)
    ensures DigitsValue(NatToString(n)) == n
  {
    if n >= 10 {
      var s := NatToString(n);
      assert s[..|s| - 1] == NatToString(n / 10);
      DigitsValueOfNatToString(n / 10);
    }
  }

  lemma {:induction false} LeadingDigitsOfDigits(s: string)
    requires forall i :: 0 <= i < |s| ==> IsDigit(s[i])
    ensures LeadingDigits(s) == s
  {
    if s != [] {
      LeadingDigitsOfDigits(s[1..]);
    }
  }

  /**
   * Reading back a number written by the serializer gives the number, brought
   * into the 64-bit range; every PHP integer thus reads back as itself.
   */
  lemma IntValOfIntToString(n: int)
    ensures IntVal(IntToString(n)) == Saturate(n)
    ensures IntMin <= n <= IntMax ==> IntVal(IntToString(n)) == n
  {
    CastValueOfIntToString(n);
  }

  /** The cast reads a decimal rendering back as its number, before saturation. */
  lemma CastValueOfIntToString(n: int)
    ensures CastValue(IntToString(n)) == n
  {
    var m: nat := if n < 0 then -n else n;
    var s := NatToString(m);
    LeadingDigitsOfDigits(s);
    DigitsValueOfNatToString(m);
    if n < 0 {
      assert ("-" + s)[1..] == s;
    }
  }

  /** A run of digits whose value exceeds the 64-bit range reads as the largest integer. */
  lemma IntValSaturates(s: string)
    requires s != [] && forall i :: 0 <= i < |s| ==> IsDigit(s[i])
    requires DigitsValue(s) > IntMax
    ensures IntVal(s) == IntMax
  {
    LeadingDigitsOfDigits(s);
    assert SkipCastSpace(s) == s;
  }

  lemma IntToStringIsTrimmed(n: int)
    ensures IsTrimmed(IntToString(n))
  {
  }

  // ---------------------------------------------------------------------------
  // Hexadecimal: dechex() and hexdec()

  predicate IsLowerHexDigit(c: char) {
    ('0' <= c <= '9') || ('a' <= c <= 'f')
  }

  predicate IsLowerHex(s: string) {
    forall i :: 0 <= i < |s| ==> IsLowerHexDigit(s[i])
  }

  function HexDigitValue(c: char): (d: nat)
    requires IsLowerHexDigit(c)
    ensures d < 16
  {
    if '0' <= c <= '9' then c as int - '0' as int else c as int - 'a' as int + 10
  }

  function HexDigitChar(d: nat): (c: char)
    requires d < 16
    ensures IsLowerHexDigit(c) && HexDigitValue(c) == d
  {
    if d < 10 then (('0' as int) + d) as char else (('a' as int) + d - 10) as char
  }

  /** PHP `hexdec` on a string of lower-case hexadecimal digits. */
  function HexValue(s: string): nat
    requires IsLowerHex(s)
  {
    if s == [] then 0 else HexValue(s[..|s| - 1]) * 16 + HexDigitValue(s[|s| - 1])
  }

  /** PHP `dechex($n)`: lower-case hexadecimal without leading zeros. */
  function DecHex(n: nat): (r: string)
    ensures |r| > 0 && IsLowerHex(r)
  {
    if n < 16 then [HexDigitChar(n)] else DecHex(n / 16) + [HexDigitChar(n % 16)]
  }

  lemma {:induction false} HexValueOfDecHex(n: nat)
    ensures HexValue(DecHex(n)) == n
  {
    if n >= 16 {
      var s := DecHex(n);
      assert s[..|s| - 1] == DecHex(n / 16);
      HexValueOfDecHex(n / 16);
    }
  }

  lemma {:induction false} DecHexLength(n: nat, k: nat)
    requires n < Pow16(k) && k > 0
    ensures |DecHex(n)| <= k
  {
    if n >= 16 {
      assert k > 1;
      DecHexLength(n / 16, k - 1);
    }
  }

  function Pow16(k: nat): (r: nat)
    ensures r > 0
  {
    if k == 0 then 1 else 16 * Pow16(k - 1)
  }

  /** A leading '0' does not change the value `hexdec` reads. */
  lemma {:induction false} HexValueLeadingZero(t: string)
    requires IsLowerHex(t)
    ensures IsLowerHex("0" + t) && HexValue("0" + t) == HexValue(t)
  {
    var s := "0" + t;
    if t != [] {
      assert s[..|s| - 1] == "0" + t[..|t| - 1];
      HexValueLeadingZero(t[..|t| - 1]);
    }
  }

  /** `substr("0000", strlen($h)).$h`: a `dechex` result padded with zeros to
      four digits (longer results are left as they are). */
  function PadHex4(h: string): (r: string)
    ensures |h| <= 4 ==> |r| == 4
    ensures |h| > 4 ==> r == h
  {
    (if |h| <= 4 then "0000"[|h|..] else "") + h
  }

  lemma {:induction false} HexValueBound(s: string)
    requires IsLowerHex(s)
    ensures HexValue(s) < Pow16(|s|)
  {
    if s != [] {
      HexValueBound(s[..|s| - 1]);
    }
  }

  lemma {:induction false} HexValueZeroPadded(z: nat, t: string)
    requires z <= 4 && IsLowerHex(t)
    ensures IsLowerHex("0000"[..z] + t) && HexValue("0000"[..z] + t) == HexValue(t)
  {
    if z > 0 {
      var rest := "0000"[..z - 1] + t;
      assert "0000"[..z] + t == "0" + rest;
      HexValueZeroPadded(z - 1, t);
      HexValueLeadingZero(rest);
      assert HexValue("0" + rest) == HexValue(rest) == HexValue(t);
    } else {
      assert "0000"[..z] + t == t;
    }
  }

  /** The four-digit escape payload the encoder writes, read back by `hexdec`,
      is the number it was made from. */
  lemma Hex4RoundTrip(n: nat)
    requires n < 0x1_0000
    ensures |DecHex(n)| <= 4
    ensures |PadHex4(DecHex(n))| == 4 && IsLowerHex(PadHex4(DecHex(n)))
    ensures HexValue(PadHex4(DecHex(n))) == n
  {
    assert Pow16(4) == 0x1_0000;
    DecHexLength(n, 4);
    var h := DecHex(n);
    assert "0000"[|h|..] == "0000"[..4 - |h|];
    HexValueZeroPadded(4 - |h|, h);
    HexValueOfDecHex(n);
  }
}
