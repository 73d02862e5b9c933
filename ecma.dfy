/**
 * The ECMAScript-style escape codec of the WSIF library: `ecma_decode` with
 * its callback `_ecma_decode_cb`, and `ecma_encode` with `utf8_js` and the
 * callback `_ecma_encode_cb`.
 *
 * The regular-expression replacements are written as left-to-right scans: a
 * match found at the front is replaced and the scan resumes after it; where
 * nothing matches, one byte is copied.
 */
module Ecma {
  import opened Wrappers
  import opened Text
  import opened Utf8

  // ---------------------------------------------------------------------------
  // Decoding

  /** The pattern `\\u([0-9a-f]{4})` matches at the start of `s`: a backslash,
      `u` and four LOWER-case hexadecimal digits. */
  predicate EscapeAt(s: string) {
    |s| >= 6 && s[0] == '\\' && s[1] == 'u' && IsLowerHex(s[2..6])
  }

  /** What `_ecma_decode_cb` returns for the four digits of a match: the UTF-8
      bytes of their value, which is always 1 to 3 bytes long. */
  function DecodeEscape(hex: string): (r: string)
    requires |hex| == 4 && IsLowerHex(hex)
    ensures 1 <= |r| <= 3
    ensures Some(r) == Code2Utf(HexValue(hex))
  {
    HexValueBound(hex);
    assert Pow16(4) == 0x1_0000;
    Code2UtfBmp(HexValue(hex));
    Code2Utf(HexValue(hex)).value
  }

  /** `preg_replace_callback("/\\\\u([0-9a-f]{4})/", ...)`. */
  function DecodeEscapes(s: string): string
    decreases |s|
  {
    if s == [] then []
    else if EscapeAt(s) then DecodeEscape(s[2..6]) + DecodeEscapes(s[6..])
    else [s[0]] + DecodeEscapes(s[1..])
  }

  /** `str_replace("\\\\", "\\", $s)`: each pair of backslashes, taken from the
      left without overlap, becomes one backslash. */
  function CollapseBackslashes(s: string): string
    decreases |s|
  {
    if s == [] then []
    else if |s| >= 2 && s[0] == '\\' && s[1] == '\\' then "\\" + CollapseBackslashes(s[2..])
    else [s[0]] + CollapseBackslashes(s[1..])
  }

  /** `ecma_decode`: escapes are decoded first, backslash pairs collapsed after. */
  function EcmaDecode(s: string): string {
    CollapseBackslashes(DecodeEscapes(s))
  }

  /**
   * `_ecma_decode_cb` on the four captured digits: the loop looks for the last
   * of the leading zeros, `hexdec` reads the rest and `_code2utf` encodes the
   * value.
   */
  method DecodeEscapeCallback(n: string) returns (r: string)
    requires |n| == 4 && IsLowerHex(n)
    ensures Some(r) == Code2Utf(HexValue(n))
    ensures 1 <= |r| <= 3
  {
    var l := |n|;
    var p := 0;
    var i := 0;
    while i < l
      invariant 0 <= p <= i <= l && (i > 0 ==> p == i - 1)
      invariant forall k :: 0 <= k < i ==> n[k] == '0'
      invariant IsLowerHex(n[p..]) && HexValue(n[p..]) == HexValue(n)
    {
      if n[i] != '0' {
        break;
      }
      p := i;
      HexValueDropZeros(n, i);
      i := i + 1;
    }
    var num := HexValue(n[p..]);
    HexValueBound(n);
    assert Pow16(4) == 0x1_0000;
    Code2UtfBmp(num);
    r := Code2Utf(num).value;
  }

  /** Leading zeros do not change the value read by `hexdec`. */
  lemma {:induction false} HexValueDropZeros(n: string, k: nat)
    requires k <= |n| && IsLowerHex(n)
    requires forall j :: 0 <= j < k ==> n[j] == '0'
    ensures IsLowerHex(n[k..]) && HexValue(n[k..]) == HexValue(n)
  {
    if k > 0 {
      HexValueDropZeros(n, k - 1);
      assert n[k - 1..] == "0" + n[k..];
      HexValueLeadingZero(n[k..]);
    }
  }

  // ---------------------------------------------------------------------------
  // Encoding

  /** `str_replace('\\', '\\\\', $s)`: every backslash doubled. */
  function EscapeBackslashes(s: string): string {
    if s == [] then []
    else (if s[0] == '\\' then "\\\\" else [s[0]]) + EscapeBackslashes(s[1..])
  }

  /** The escape `_ecma_encode_cb` writes for a value: `\u` and the `dechex`
      digits padded with zeros to four. */
  function Escape(n: nat): string {
    "\\u" + PadHex4(DecHex(n))
  }

  /** The value `_ecma_encode_cb` computes from the collected byte values:
      the 3-byte or the 2-byte UTF-8 bit-unpacking. */
  function Number(values: seq<int>, lookingFor: nat): nat
    requires lookingFor == 2 || lookingFor == 3
    requires |values| == lookingFor
  {
    if lookingFor == 3 then (values[0] % 16) * 4096 + (values[1] % 64) * 64 + values[2] % 64
    else (values[0] % 32) * 64 + values[1] % 64
  }

  /** The state of the callback's loop between two bytes: either nothing is
      collected, or fewer bytes than the sequence length looked for. */
  predicate CallbackState(values: seq<int>, lookingFor: nat) {
    values == [] || ((lookingFor == 2 || lookingFor == 3) && |values| < lookingFor)
  }

  /**
   * The output `_ecma_encode_cb` produces for the bytes `s` when it starts in
   * the given state. A byte below 'A' is kept if it is a digit and otherwise
   * dropped (the `trigger_error` notice does not stop the loop); a byte from
   * 'A' to 127 is kept; a byte from 128 on is collected, the first of a group
   * choosing the length (2 below 224, otherwise 3), and a complete group is
   * written as one escape. A group still incomplete at the end is dropped.
   */
  function EncodeFrom(s: string, values: seq<int>, lookingFor: nat): string
    requires CallbackState(values, lookingFor)
    decreases |s|
  {
    if s == [] then []
    else
      var v := s[0] as int;
      if v < 'A' as int then
        (if '0' as int <= v <= '9' as int then [s[0]] else []) + EncodeFrom(s[1..], values, lookingFor)
      else if v < 128 then [s[0]] + EncodeFrom(s[1..], values, lookingFor)
      else
        var lf := if values == [] then (if v < 224 then 2 else 3) else lookingFor;
        var vs := values + [v];
        if |vs| == lf then Escape(Number(vs, lf)) + EncodeFrom(s[1..], [], 1)
        else EncodeFrom(s[1..], vs, lf)
  }

  /** `_ecma_encode_cb` on one matched run of multi-byte sequences. */
  method EncodeRunCallback(str: string) returns (r: string)
    ensures r == EncodeFrom(str, [], 1)
  {
    r := "";
    var values: seq<int> := [];
    var lookingFor: nat := 1;
    var l := |str|;
    for i := 0 to l
      invariant CallbackState(values, lookingFor)
      invariant r + EncodeFrom(str[i..], values, lookingFor) == EncodeFrom(str, [], 1)
    {
      ghost var r0, rest := r, str[i + 1..];
      assert str[i..] == [str[i]] + rest;
      var thisValue := str[i] as int;
      if thisValue < 'A' as int {
        if thisValue >= '0' as int && thisValue <= '9' as int {
          r := r + [str[i]];
          Concat3(r0, [str[i]], EncodeFrom(rest, values, lookingFor));
        } else {
          assert EncodeFrom(str[i..], values, lookingFor) == EncodeFrom(rest, values, lookingFor);
        }
      } else {
        if thisValue < 128 {
          r := r + [str[i]];
          Concat3(r0, [str[i]], EncodeFrom(rest, values, lookingFor));
        } else {
          ghost var before := EncodeFrom(str[i..], values, lookingFor);
          if |values| == 0 {
            lookingFor := if thisValue < 224 then 2 else 3;
          }
          values := values + [thisValue];
          if |values| == lookingFor {
            var number := Number(values, lookingFor);
            r := r + Escape(number);
            assert before == Escape(number) + EncodeFrom(rest, [], 1);
            values := [];
            lookingFor := 1;
            Concat3(r0, Escape(number), EncodeFrom(rest, [], 1));
          } else {
            assert before == EncodeFrom(rest, values, lookingFor);
          }
        }
      }
    }
  }

  lemma Concat3(a: string, b: string, c: string)
    ensures (a + b) + c == a + (b + c)
  {
  }

  /** The length of the maximal run of consecutive multi-byte sequences at the
      start of `s`: what `(...)+` matches greedily. */
  function RunLength(s: string): (k: nat)
    ensures k <= |s|
    ensures k > 0 <==> MatchLen(s) > 0
    decreases |s|
  {
    var m := MatchLen(s);
    if m == 0 then 0 else m + RunLength(s[m..])
  }

  /** `utf8_js`: every maximal run of multi-byte sequences replaced by what the
      callback makes of it; every other byte kept. */
  function Utf8Js(s: string): string
    decreases |s|
  {
    if s == [] then []
    else
      var k := RunLength(s);
      if k == 0 then [s[0]] + Utf8Js(s[1..])
      else EncodeFrom(s[..k], [], 1) + Utf8Js(s[k..])
  }

  /** `ecma_encode`: backslashes doubled first, multi-byte runs escaped after. */
  function EcmaEncode(s: string): string {
    Utf8Js(EscapeBackslashes(s))
  }

  /**
   * The encoding the scheme intends, as an independent reference: a backslash
   * becomes two, each well-formed 2- or 3-byte character becomes one escape of
   * its code point, and every other byte is kept.
   */
  function EscapeChars(s: string): string
    decreases |s|
  {
    if s == [] then []
    else if s[0] == '\\' then "\\\\" + EscapeChars(s[1..])
    else
      var m := MatchLen(s);
      if m == 2 || m == 3 then Escape(CodePoint(s[..m])) + EscapeChars(s[m..])
      else [s[0]] + EscapeChars(s[1..])
  }
}
