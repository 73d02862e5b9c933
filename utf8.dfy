/**
 * UTF-8 as the WSIF library sees it: `_code2utf` (the bit-packing of section 3
 * of RFC 3629), the multi-byte pattern `_LIBWSIF_UNICODE_REGEX` (the
 * well-formed multi-byte sequences of section 4 of RFC 3629, written as a byte
 * predicate) and `_needs_ecma_encoding`.
 */
module Utf8 {
  import opened Wrappers

  predicate InRange(c: char, lo: int, hi: int) {
    lo <= c as int <= hi
  }

  /** A continuation byte 0x80-0xBF. */
  predicate IsCont(c: char) {
    InRange(c, 0x80, 0xBF)
  }

  /**
   * The length of the alternative of the multi-byte pattern that matches at the
   * start of `s`, or 0 when none does. The first byte decides the alternative:
   *   C2-DF 80-BF                 non-overlong 2-byte
   *   E0 A0-BF 80-BF              3-byte excluding overlongs
   *   E1-EC,EE,EF 80-BF 80-BF     straight 3-byte
   *   ED 80-9F 80-BF              3-byte excluding surrogates
   *   F0 90-BF 80-BF 80-BF        planes 1-3
   *   F1-F3 80-BF 80-BF 80-BF     planes 4-15
   *   F4 80-8F 80-BF 80-BF        plane 16
   */
  function MatchLen(s: string): (m: nat)
    ensures m == 0 || m == 2 || m == 3 || m == 4
    ensures m <= |s|
    ensures forall i :: 0 <= i < m ==> s[i] as int >= 0x80
    ensures m == 4 ==> s[0] as int >= 0xF0
    ensures m == 2 ==> s[0] as int < 0xE0
    ensures m == 3 ==> 0xE0 <= s[0] as int < 0xF0
  {
    if |s| == 0 then 0
    else
      var b := s[0] as int;
      if 0xC2 <= b <= 0xDF then
        (if |s| >= 2 && IsCont(s[1]) then 2 else 0)
      else if b == 0xE0 then
        (if |s| >= 3 && InRange(s[1], 0xA0, 0xBF) && IsCont(s[2]) then 3 else 0)
      else if (0xE1 <= b <= 0xEC) || b == 0xEE || b == 0xEF then
        (if |s| >= 3 && IsCont(s[1]) && IsCont(s[2]) then 3 else 0)
      else if b == 0xED then
        (if |s| >= 3 && InRange(s[1], 0x80, 0x9F) && IsCont(s[2]) then 3 else 0)
      else if b == 0xF0 then
        (if |s| >= 4 && InRange(s[1], 0x90, 0xBF) && IsCont(s[2]) && IsCont(s[3]) then 4 else 0)
      else if 0xF1 <= b <= 0xF3 then
        (if |s| >= 4 && IsCont(s[1]) && IsCont(s[2]) && IsCont(s[3]) then 4 else 0)
      else if b == 0xF4 then
        (if |s| >= 4 && InRange(s[1], 0x80, 0x8F) && IsCont(s[2]) && IsCont(s[3]) then 4 else 0)
      else 0
  }

  /** Whether the pattern matches reads only the bytes it matched. */
  lemma MatchLenPrefix(x: string, y: string)
    requires MatchLen(x) > 0
    requires |y| >= MatchLen(x) && y[..MatchLen(x)] == x[..MatchLen(x)]
    ensures MatchLen(y) == MatchLen(x)
  {
    var m := MatchLen(x);
    assert forall i :: 0 <= i < m ==> y[i] == x[..m][i];
  }

  /** PHP `_needs_ecma_encoding`: the multi-byte pattern matches somewhere. */
  function NeedsEcmaEncoding(s: string): (r: bool)
    ensures r <==> exists i :: 0 <= i < |s| && MatchLen(s[i..]) > 0
  {
    if s == [] then false
    else if MatchLen(s) > 0 then assert s[0..] == s; true
    else
      var r := NeedsEcmaEncoding(s[1..]);
      assert forall i :: 1 <= i < |s| ==> s[i..] == s[1..][i - 1..];
      assert r ==> exists i :: 0 <= i < |s| && MatchLen(s[i..]) > 0 by {
        if r {
          var j :| 0 <= j < |s| - 1 && MatchLen(s[1..][j..]) > 0;
          assert s[1..][j..] == s[j + 1..];
        }
      }
      r
  }

  /**
   * PHP `_code2utf`: the UTF-8 bytes of a code point; values from 2^21 on are
   * the `trigger_error` branch, here `None`.
   */
  function Code2Utf(num: nat): Option<string> {
    if num < 128 then Some([num as char])
    else if num < 2048 then Some([(num / 64 + 192) as char, (num % 64 + 128) as char])
    else if num < 65536 then
      Some([(num / 4096 + 224) as char, ((num / 64) % 64 + 128) as char, (num % 64 + 128) as char])
    else if num < 2097152 then
      Some([(num / 262144 + 240) as char, ((num / 4096) % 64 + 128) as char,
            ((num / 64) % 64 + 128) as char, (num % 64 + 128) as char])
    else None
  }

  /**
   * The code point of a 2- or 3-byte sequence as `_ecma_encode_cb` computes it
   * from the collected byte values.
   */
  function CodePoint(x: string): nat
    requires |x| == 2 || |x| == 3
  {
    if |x| == 3 then (x[0] as int % 16) * 4096 + (x[1] as int % 64) * 64 + x[2] as int % 64
    else (x[0] as int % 32) * 64 + x[1] as int % 64
  }

  /** A code point below 2^16 always has a 1- to 3-byte encoding: the
      `trigger_error` branch is never taken for such values. */
  lemma Code2UtfBmp(n: nat)
    requires n < 0x1_0000
    ensures Code2Utf(n).Some? && 1 <= |Code2Utf(n).value| <= 3
    ensures n < 0x80 ==> Code2Utf(n).value == [n as char]
  {
  }

  lemma DivMod64(a: nat, b: nat)
    requires b < 64
    ensures (a * 64 + b) / 64 == a && (a * 64 + b) % 64 == b
  {
  }

  lemma DivMod4096(a: nat, b: nat, c: nat)
    requires b < 64 && c < 64
    ensures (a * 4096 + b * 64 + c) / 4096 == a
    ensures ((a * 4096 + b * 64 + c) / 64) % 64 == b
    ensures (a * 4096 + b * 64 + c) % 64 == c
  {
    var n := a * 4096 + b * 64 + c;
    assert n == (a * 64 + b) * 64 + c;
    DivMod64(a * 64 + b, c);
    DivMod64(a, b);
    assert n / 4096 == (n / 64) / 64;
  }

  /** Decoding a matched 2- or 3-byte sequence and encoding the code point
      again gives back the same bytes. */
  lemma Code2UtfOfCodePoint(x: string)
    requires MatchLen(x) == |x| && (|x| == 2 || |x| == 3)
    ensures 0x80 <= CodePoint(x) < 0x1_0000
    ensures !(0xD800 <= CodePoint(x) <= 0xDFFF)
    ensures Code2Utf(CodePoint(x)) == Some(x)
  {
    if |x| == 2 {
      TwoByteCodePoint(x);
    } else {
      ThreeByteCodePoint(x);
    }
  }

  lemma TwoByteCodePoint(x: string)
    requires MatchLen(x) == |x| == 2
    ensures 0x80 <= CodePoint(x) < 0x800
    ensures Code2Utf(CodePoint(x)) == Some(x)
  {
    var b0, b1 := x[0] as int, x[1] as int;
    assert 0xC2 <= b0 <= 0xDF && 0x80 <= b1 <= 0xBF;
    assert b0 % 32 == b0 - 192 && b1 % 64 == b1 - 128;
    DivMod64(b0 - 192, b1 - 128);
    var r := Code2Utf(CodePoint(x)).value;
    assert |r| == 2 && r[0] == x[0] && r[1] == x[1];
    assert r == x;
  }

  lemma ThreeByteCodePoint(x: string)
    requires MatchLen(x) == |x| == 3
    ensures 0x800 <= CodePoint(x) < 0x1_0000
    ensures !(0xD800 <= CodePoint(x) <= 0xDFFF)
    ensures Code2Utf(CodePoint(x)) == Some(x)
  {
    var b0, b1, b2 := x[0] as int, x[1] as int, x[2] as int;
    assert 0xE0 <= b0 <= 0xEF && 0x80 <= b1 <= 0xBF && 0x80 <= b2 <= 0xBF;
    assert b0 == 0xE0 ==> b1 >= 0xA0;
    assert b0 == 0xED ==> b1 <= 0x9F;
    assert CodePoint(x) == (b0 - 224) * 4096 + (b1 - 128) * 64 + (b2 - 128) by {
      assert b0 % 16 == b0 - 224 && b1 % 64 == b1 - 128 && b2 % 64 == b2 - 128;
    }
    Code2UtfThree(b0 - 224, b1 - 128, b2 - 128);
    assert x == [x[0], x[1], x[2]];
  }

  /** The three bytes `_code2utf` writes for the code point with 4-, 6- and 6-bit parts `a`, `b`, `c`. */
  lemma Code2UtfThree(a: nat, b: nat, c: nat)
    requires a < 16 && b < 64 && c < 64 && (a > 0 || b >= 32)
    ensures var n := a * 4096 + b * 64 + c;
      && 0x800 <= n < 0x1_0000
      && Code2Utf(n) == Some([(a + 224) as char, (b + 128) as char, (c + 128) as char])
  {
    DivMod4096(a, b, c);
  }

  /** Conversely, every non-surrogate code point from 0x80 to 0xFFFF is encoded
      as a sequence the pattern matches whole, and decodes back to itself. */
  lemma CodePointOfCode2Utf(n: nat)
    requires 0x80 <= n < 0x1_0000 && !(0xD800 <= n <= 0xDFFF)
    ensures Code2Utf(n).Some?
    ensures var x := Code2Utf(n).value;
      (|x| == 2 || |x| == 3) && MatchLen(x) == |x| && CodePoint(x) == n
  {
    if n < 2048 {
      TwoByteOfCodePoint(n);
    } else {
      ThreeByteOfCodePoint(n);
    }
  }

  lemma TwoByteOfCodePoint(n: nat)
    requires 0x80 <= n < 0x800
    ensures Code2Utf(n).Some?
    ensures var x := Code2Utf(n).value; |x| == 2 && MatchLen(x) == 2 && CodePoint(x) == n
  {
    var a, b := n / 64, n % 64;
    assert n == a * 64 + b;
    assert 2 <= a < 32;
    var x := Code2Utf(n).value;
    assert x == [(a + 192) as char, (b + 128) as char];
    assert x[0] as int % 32 == a && x[1] as int % 64 == b;
  }

  lemma ThreeByteOfCodePoint(n: nat)
    requires 0x800 <= n < 0x1_0000 && !(0xD800 <= n <= 0xDFFF)
    ensures Code2Utf(n).Some?
    ensures var x := Code2Utf(n).value; |x| == 3 && MatchLen(x) == 3 && CodePoint(x) == n
  {
    var a, b, c := n / 4096, (n / 64) % 64, n % 64;
    assert n == a * 4096 + b * 64 + c;
    var x := Code2Utf(n).value;
    assert x == [(a + 224) as char, (b + 128) as char, (c + 128) as char];
    assert a == 0 ==> b >= 32;
    assert a == 13 ==> b < 32;
    assert x[0] as int % 16 == a && x[1] as int % 64 == b && x[2] as int % 64 == c;
  }
}
