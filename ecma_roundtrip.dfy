/**
 * Properties of the escape codec: what `ecma_encode` produces, what
 * `ecma_decode` leaves alone, and when decoding undoes encoding.
 */
module EcmaRoundTrip {
  import opened Wrappers
  import opened Text
  import opened Utf8
  import opened Ecma

  /** No byte of `s` is 0xF0 or above: `s` holds no 4-byte sequence (true of
      any UTF-8 text made of 1- to 3-byte characters). */
  predicate NoFourByteLead(s: string) {
    forall i :: 0 <= i < |s| ==> s[i] as int < 0xF0
  }

  /** `s` contains nowhere a backslash, `u` and four lower-case hex digits:
      text that `ecma_decode` would take for an escape. */
  predicate NoLiteralEscape(s: string) {
    forall i :: 0 <= i < |s| ==> !EscapeAt(s[i..])
  }

  // ---------------------------------------------------------------------------
  // Backslash doubling and collapsing

  lemma {:induction false} EscapeBackslashesConcat(a: string, b: string)
    ensures EscapeBackslashes(a + b) == EscapeBackslashes(a) + EscapeBackslashes(b)
  {
    if a == [] {
      assert a + b == b;
    } else {
      assert (a + b)[0] == a[0];
      assert (a + b)[1..] == a[1..] + b;
      EscapeBackslashesConcat(a[1..], b);
    }
  }

  lemma {:induction false} EscapeBackslashesPlain(a: string)
    requires forall i :: 0 <= i < |a| ==> a[i] != '\\'
    ensures EscapeBackslashes(a) == a
  {
    if a != [] {
      EscapeBackslashesPlain(a[1..]);
    }
  }

  /** Collapsing undoes doubling, for every text. */
  lemma {:induction false} CollapseOfEscape(s: string)
    ensures CollapseBackslashes(EscapeBackslashes(s)) == s
  {
    if s != [] {
      var rest := EscapeBackslashes(s[1..]);
      CollapseOfEscape(s[1..]);
      if s[0] == '\\' {
        assert ("\\\\" + rest)[2..] == rest;
      } else {
        assert ([s[0]] + rest)[1..] == rest;
      }
    }
  }

  /** The doubled text starts with a backslash exactly when the text does;
      otherwise its first byte is copied. */
  lemma EscapeBackslashesHead(s: string)
    requires s != []
    ensures EscapeBackslashes(s) != []
    ensures EscapeBackslashes(s)[0] != '\\' ==>
      s[0] != '\\' && EscapeBackslashes(s) == [s[0]] + EscapeBackslashes(s[1..])
  {
  }

  /** A prefix of the doubled text that holds no backslash is a prefix of the
      original text, and the doubling of the rest follows it. */
  lemma {:induction false} EscapeBackslashesPrefix(s: string, m: nat)
    requires m <= |EscapeBackslashes(s)|
    requires forall i :: 0 <= i < m ==> EscapeBackslashes(s)[i] != '\\'
    ensures m <= |s| && EscapeBackslashes(s)[..m] == s[..m]
    ensures EscapeBackslashes(s) == s[..m] + EscapeBackslashes(s[m..])
  {
    if m == 0 {
      assert s[..0] + EscapeBackslashes(s[0..]) == EscapeBackslashes(s);
    } else {
      EscapeBackslashesHead(s);
      var e, t := EscapeBackslashes(s), EscapeBackslashes(s[1..]);
      assert e[0] != '\\';
      assert e == [s[0]] + t;
      forall i | 0 <= i < m - 1 ensures t[i] != '\\' {
        assert t[i] == e[i + 1];
      }
      EscapeBackslashesPrefix(s[1..], m - 1);
      var mid := s[1..][..m - 1];
      assert mid == s[1..m];
      assert s[1..][m - 1..] == s[m..];
      assert s[..m] == [s[0]] + mid;
      assert e[..m] == [s[0]] + t[..m - 1];
      Concat3([s[0]], mid, EscapeBackslashes(s[m..]));
    }
  }

  lemma {:induction false} EscapeBackslashesBytes(s: string)
    requires NoFourByteLead(s)
    ensures NoFourByteLead(EscapeBackslashes(s))
  {
    if s != [] {
      EscapeBackslashesBytes(s[1..]);
    }
  }

  /** A multi-byte match at the front of the doubled text is the same match at
      the front of the text. */
  lemma DoubledMatch(s: string)
    requires s != [] && s[0] != '\\'
    ensures MatchLen(EscapeBackslashes(s)) > 0 ==> MatchLen(s) == MatchLen(EscapeBackslashes(s))
  {
    var e := EscapeBackslashes(s);
    var me := MatchLen(e);
    if me > 0 {
      EscapeBackslashesPrefix(s, me);
      assert e[..me][..me] == s[..me];
      MatchLenPrefix(e, s);
    }
  }

  // ---------------------------------------------------------------------------
  // utf8_js on text without 4-byte sequences

  /** The encoder scan with one escape per 2- or 3-byte sequence, without the
      grouping into runs. */
  function EscapeSeqs(t: string): string
    decreases |t|
  {
    if t == [] then []
    else
      var m := MatchLen(t);
      if m == 2 || m == 3 then Escape(CodePoint(t[..m])) + EscapeSeqs(t[m..])
      else [t[0]] + EscapeSeqs(t[1..])
  }

  /** A well-formed sequence at the front is escaped as one code point,
      whatever follows it. */
  lemma EscapeSeqsOfSequence(x: string, rest: string)
    requires MatchLen(x) == |x| && (|x| == 2 || |x| == 3)
    ensures EscapeSeqs(x + rest) == Escape(CodePoint(x)) + EscapeSeqs(rest)
  {
    var e := x + rest;
    var m := |x|;
    assert e[..m] == x && e[m..] == rest;
    assert x[..m] == x;
    MatchLenPrefix(x, e);
  }

  /** The bytes of one 2- or 3-byte sequence as the callback sees them. */
  predicate SequenceBytes(x: string) {
    && (|x| == 2 || |x| == 3)
    && (forall i :: 0 <= i < |x| ==> x[i] as int >= 0x80)
    && (x[0] as int < 224 <==> |x| == 2)
  }

  lemma MatchedSequenceBytes(t: string)
    requires MatchLen(t) == 2 || MatchLen(t) == 3
    ensures SequenceBytes(t[..MatchLen(t)])
  {
  }

  /** The callback turns one 2- or 3-byte sequence into the escape of its code
      point and comes back to its initial state. */
  lemma EncodeFromSequence(x: string, rest: string)
    requires SequenceBytes(x)
    ensures EncodeFrom(x + rest, [], 1) == Escape(CodePoint(x)) + EncodeFrom(rest, [], 1)
  {
    var s := x + rest;
    var m := |x|;
    var v0, v1 := x[0] as int, x[1] as int;
    assert s[0] == x[0] && s[1..][0] == x[1];
    assert v0 >= 128 && [] + [v0] == [v0];
    assert EncodeFrom(s, [], 1) == EncodeFrom(s[1..], [v0], m);
    if m == 2 {
      assert s[1..][1..] == rest;
      assert EncodeFrom(s[1..], [v0], 2) == Escape(Number([v0, v1], 2)) + EncodeFrom(rest, [], 1);
    } else {
      var v2 := x[2] as int;
      assert s[1..][1..] == s[2..];
      assert EncodeFrom(s[1..], [v0], 3) == EncodeFrom(s[2..], [v0, v1], 3);
      assert s[2..][0] == x[2] && s[2..][1..] == rest;
      assert EncodeFrom(s[2..], [v0, v1], 3) == Escape(Number([v0, v1, v2], 3)) + EncodeFrom(rest, [], 1);
    }
  }

  lemma NoFourByteLeadSuffix(t: string, m: nat)
    requires NoFourByteLead(t) && m <= |t|
    ensures NoFourByteLead(t[m..])
  {
    assert forall i :: 0 <= i < |t| - m ==> t[m..][i] == t[m + i];
  }

  /** One step of a run: a 2- or 3-byte sequence, then the rest of the run. */
  lemma RunStep(t: string)
    requires NoFourByteLead(t) && RunLength(t) > 0
    ensures var m := MatchLen(t);
      && (m == 2 || m == 3)
      && RunLength(t) == m + RunLength(t[m..])
  {
    assert t[0] as int < 0xF0;
  }

  lemma SequenceAtFront(t: string)
    requires MatchLen(t) == 2 || MatchLen(t) == 3
    ensures var m := MatchLen(t);
      EscapeSeqs(t) == Escape(CodePoint(t[..m])) + EscapeSeqs(t[m..])
  {
    var m := MatchLen(t);
    var x := t[..m];
    assert x[..m] == t[..m];
    MatchLenPrefix(t, x);
    assert x + t[m..] == t;
    EscapeSeqsOfSequence(x, t[m..]);
  }

  lemma EncodeFromRunHead(t: string, m: nat, k: nat)
    requires m == MatchLen(t) && (m == 2 || m == 3) && m <= k <= |t|
    ensures EncodeFrom(t[..k], [], 1) == Escape(CodePoint(t[..m])) + EncodeFrom(t[m..k], [], 1)
  {
    MatchedSequenceBytes(t);
    assert t[..k] == t[..m] + t[m..k];
    EncodeFromSequence(t[..m], t[m..k]);
  }

  /** The callback, run over the maximal run at the front of `t`, gives the
      escapes of the run's sequences. */
  predicate RunEncoded(t: string) {
    var k := RunLength(t);
    EncodeFrom(t[..k], [], 1) + EscapeSeqs(t[k..]) == EscapeSeqs(t)
  }

  lemma RunEncodedStep(t: string)
    requires NoFourByteLead(t) && RunLength(t) > 0
    requires RunEncoded(t[MatchLen(t)..])
    ensures RunEncoded(t)
  {
    var k := RunLength(t);
    RunStep(t);
    var m := MatchLen(t);
    EncodeFromRunHead(t, m, k);
    RestOfRun(t, m, k);
    SequenceAtFront(t);
    Rejoin(EncodeFrom(t[..k], [], 1), Escape(CodePoint(t[..m])), EncodeFrom(t[m..k], [], 1),
           EscapeSeqs(t[k..]), EscapeSeqs(t[m..]), EscapeSeqs(t));
  }

  lemma RestOfRun(t: string, m: nat, k: nat)
    requires m <= |t| && RunEncoded(t[m..]) && k == m + RunLength(t[m..])
    ensures k <= |t|
    ensures EncodeFrom(t[m..k], [], 1) + EscapeSeqs(t[k..]) == EscapeSeqs(t[m..])
  {
    var u := t[m..];
    var k' := RunLength(u);
    assert EncodeFrom(u[..k'], [], 1) + EscapeSeqs(u[k'..]) == EscapeSeqs(u);
    SlicesOfSuffix(t, m, k);
  }

  /** The two parts of a suffix cut at `k - m` are slices of the whole text. */
  lemma SlicesOfSuffix(t: string, m: nat, k: nat)
    requires m <= k <= |t|
    ensures t[m..][..k - m] == t[m..k] && t[m..][k - m..] == t[k..]
  {
  }

  lemma Rejoin(whole: string, head: string, rest: string, after: string, tail: string, all: string)
    requires whole == head + rest && rest + after == tail && all == head + tail
    ensures whole + after == all
  {
    assert (head + rest) + after == head + (rest + after);
  }

  /** A maximal run is encoded as the escapes of its sequences in order. */
  lemma {:induction false} RunEncodes(t: string)
    requires NoFourByteLead(t)
    ensures RunEncoded(t)
    decreases |t|
  {
    if RunLength(t) == 0 {
      assert t[..0] == [] && t[0..] == t;
    } else {
      RunStep(t);
      NoFourByteLeadSuffix(t, MatchLen(t));
      RunEncodes(t[MatchLen(t)..]);
      RunEncodedStep(t);
    }
  }

  /** Without 4-byte sequences, `utf8_js` is the per-sequence escaping. */
  lemma {:induction false} Utf8JsIsEscapeSeqs(t: string)
    requires NoFourByteLead(t)
    ensures Utf8Js(t) == EscapeSeqs(t)
    decreases |t|
  {
    if t != [] {
      var k := RunLength(t);
      if k == 0 {
        NoFourByteLeadSuffix(t, 1);
        Utf8JsIsEscapeSeqs(t[1..]);
      } else {
        NoFourByteLeadSuffix(t, k);
        Utf8JsIsEscapeSeqs(t[k..]);
        RunEncodes(t);
      }
    }
  }

  /** A single-byte character is copied by the escaping. */
  lemma AsciiStep(t: string)
    requires t != [] && t[0] as int < 0x80
    ensures EscapeSeqs(t) == [t[0]] + EscapeSeqs(t[1..])
  {
    assert MatchLen(t) == 0;
  }

  lemma DoubledBackslashStep(s: string)
    requires s != [] && s[0] == '\\'
    ensures EscapeSeqs(EscapeBackslashes(s)) == "\\\\" + EscapeSeqs(EscapeBackslashes(s[1..]))
  {
    var z := EscapeBackslashes(s[1..]);
    var e1 := ['\\'] + z;
    assert EscapeBackslashes(s) == "\\\\" + z;
    ConsCons('\\', z);
    AsciiCons('\\', e1);
    AsciiCons('\\', z);
    ConsCons('\\', EscapeSeqs(z));
  }

  lemma ConsCons(c: char, z: string)
    ensures [c, c] + z == [c] + ([c] + z)
  {
  }

  /** A single-byte character in front is copied, the rest escaped after it. */
  lemma AsciiCons(c: char, x: string)
    requires c as int < 0x80
    ensures EscapeSeqs([c] + x) == [c] + EscapeSeqs(x)
  {
    AsciiStep([c] + x);
    assert ([c] + x)[1..] == x;
  }

  /** A sequence at the front of the text is copied by the doubling and is a
      sequence on its own. */
  lemma DoubledSequenceSplit(s: string)
    requires MatchLen(s) == 2 || MatchLen(s) == 3
    ensures var m := MatchLen(s);
      && EscapeBackslashes(s) == s[..m] + EscapeBackslashes(s[m..])
      && MatchLen(s[..m]) == m
  {
    var m := MatchLen(s);
    var x := s[..m];
    EscapeBackslashesConcat(x, s[m..]);
    EscapeBackslashesPlain(x);
    assert x + s[m..] == s;
    assert x[..m] == s[..m];
    MatchLenPrefix(s, x);
  }

  lemma DoubledSequenceStep(s: string)
    requires s != [] && s[0] != '\\' && (MatchLen(s) == 2 || MatchLen(s) == 3)
    ensures var m := MatchLen(s);
      EscapeSeqs(EscapeBackslashes(s)) == Escape(CodePoint(s[..m])) + EscapeSeqs(EscapeBackslashes(s[m..]))
  {
    var m := MatchLen(s);
    DoubledSequenceSplit(s);
    EscapeSeqsOfSequence(s[..m], EscapeBackslashes(s[m..]));
  }

  lemma DoubledPlainStep(s: string)
    requires s != [] && s[0] != '\\' && MatchLen(s) != 2 && MatchLen(s) != 3
    ensures EscapeSeqs(EscapeBackslashes(s)) == [s[0]] + EscapeSeqs(EscapeBackslashes(s[1..]))
  {
    var e := EscapeBackslashes(s);
    DoubledMatch(s);
    EscapeBackslashesHead(s);
    assert e[1..] == EscapeBackslashes(s[1..]);
  }

  /** Escaping the multi-byte sequences of the doubled text is the reference
      encoding of the original text. */
  lemma {:induction false} EscapeSeqsOfDoubled(s: string)
    ensures EscapeSeqs(EscapeBackslashes(s)) == EscapeChars(s)
    decreases |s|
  {
    if s != [] {
      if s[0] == '\\' {
        DoubledBackslashStep(s);
        EscapeSeqsOfDoubled(s[1..]);
      } else {
        var m := MatchLen(s);
        if m == 2 || m == 3 {
          DoubledSequenceStep(s);
          EscapeSeqsOfDoubled(s[m..]);
        } else {
          DoubledPlainStep(s);
          EscapeSeqsOfDoubled(s[1..]);
        }
      }
    }
  }

  /** `ecma_encode` agrees with the reference encoding on every text without
      4-byte sequences. */
  lemma EncodeIsReference(s: string)
    requires NoFourByteLead(s)
    ensures EcmaEncode(s) == EscapeChars(s)
  {
    EscapeBackslashesBytes(s);
    Utf8JsIsEscapeSeqs(EscapeBackslashes(s));
    EscapeSeqsOfDoubled(s);
  }

  // ---------------------------------------------------------------------------
  // Decoding the reference encoding

  /** The reference encoding starts with a backslash unless its first token is
      a byte copied as it is. */
  lemma EscapeCharsHead(s: string)
    requires s != []
    ensures EscapeChars(s) != []
    ensures EscapeChars(s)[0] != '\\' ==>
      s[0] != '\\' && MatchLen(s) != 2 && MatchLen(s) != 3 &&
      EscapeChars(s) == [s[0]] + EscapeChars(s[1..])
  {
    if s[0] != '\\' {
      var m := MatchLen(s);
      if m == 2 || m == 3 {
        assert Escape(CodePoint(s[..m]))[0] == '\\';
      }
    }
  }

  /** A prefix of the encoding without backslashes is copied from the text. */
  lemma {:induction false} EscapeCharsPrefix(s: string, j: nat)
    requires j <= |EscapeChars(s)|
    requires forall i :: 0 <= i < j ==> EscapeChars(s)[i] != '\\'
    ensures j <= |s| && s[..j] == EscapeChars(s)[..j]
  {
    if j > 0 {
      EscapeCharsCopiesHead(s, j);
      EscapeCharsPrefix(s[1..], j - 1);
      ConsTakeEq(s[0], s[1..], EscapeChars(s[1..]), j - 1);
      assert [s[0]] + s[1..] == s;
    }
  }

  /** An encoding that does not start with a backslash copies the first byte,
      and its backslash-free prefix goes on in the encoding of the rest. */
  lemma EscapeCharsCopiesHead(s: string, j: nat)
    requires 0 < j <= |EscapeChars(s)|
    requires forall i :: 0 <= i < j ==> EscapeChars(s)[i] != '\\'
    ensures s != [] && EscapeChars(s) == [s[0]] + EscapeChars(s[1..])
    ensures forall i :: 0 <= i < j - 1 ==> EscapeChars(s[1..])[i] != '\\'
  {
    EscapeCharsHead(s);
    assert EscapeChars(s)[0] != '\\';
    NoBackslashTail(s[0], EscapeChars(s[1..]), j);
  }

  /** A backslash-free prefix of `[c] + t` leaves a backslash-free prefix of `t`. */
  lemma NoBackslashTail(c: char, t: string, j: nat)
    requires 0 < j <= |t| + 1
    requires forall i :: 0 <= i < j ==> ([c] + t)[i] != '\\'
    ensures forall i :: 0 <= i < j - 1 ==> t[i] != '\\'
  {
    forall i | 0 <= i < j - 1 ensures t[i] != '\\' {
      assert t[i] == ([c] + t)[i + 1];
    }
  }

  /** Equal prefixes stay equal behind the same first character. */
  lemma ConsTakeEq(c: char, x: string, t: string, k: nat)
    requires k <= |x| && k <= |t| && x[..k] == t[..k]
    ensures ([c] + x)[..k + 1] == ([c] + t)[..k + 1]
  {
    assert ([c] + x)[..k + 1] == [c] + x[..k];
    assert ([c] + t)[..k + 1] == [c] + t[..k];
  }

  /** After a doubled backslash, the encoding can only look like an escape if
      the text itself held one. */
  lemma EscapeAfterDoubled(s: string)
    requires s != [] && s[0] == '\\'
    ensures EscapeAt("\\" + EscapeChars(s[1..])) ==> EscapeAt(s)
  {
    var x := EscapeChars(s[1..]);
    var d := "\\" + x;
    if EscapeAt(d) {
      assert d[1..6] == x[..5];
      assert forall i :: 0 <= i < 5 ==> x[i] != '\\' by {
        assert x[0] == d[1] == 'u';
        assert forall i :: 1 <= i < 5 ==> x[i] == d[2..6][i - 1];
      }
      EscapeCharsPrefix(s[1..], 5);
      assert s[1..][..5] == s[1..6];
      assert s[2..6] == x[1..5] == d[2..6];
    }
  }

  lemma NoLiteralEscapeSuffix(s: string, m: nat)
    requires NoLiteralEscape(s) && m <= |s|
    ensures NoLiteralEscape(s[m..])
  {
    forall i | 0 <= i < |s| - m ensures !EscapeAt(s[m..][i..]) {
      assert s[m..][i..] == s[i + m..];
    }
  }

  /** Decoding the escape of one 2- or 3-byte sequence gives its bytes back. */
  lemma DecodeOfSequenceEscape(x: string, y: string)
    requires MatchLen(x) == |x| && (|x| == 2 || |x| == 3)
    ensures DecodeEscapes(Escape(CodePoint(x)) + y) == x + DecodeEscapes(y)
  {
    var cp := CodePoint(x);
    Code2UtfOfCodePoint(x);
    Hex4RoundTrip(cp);
    var h := PadHex4(DecHex(cp));
    var e := "\\u" + h + y;
    assert Escape(cp) + y == e;
    assert e[2..6] == h && e[6..] == y;
    assert EscapeAt(e);
    assert DecodeEscape(h) == x;
  }

  /** Two backslashes are copied by the decoding unless the second starts an
      escape. */
  lemma DecodeDoubledBackslash(x: string)
    requires !EscapeAt(['\\'] + x)
    ensures DecodeEscapes(['\\', '\\'] + x) == ['\\', '\\'] + DecodeEscapes(x)
  {
    var d := ['\\'] + x;
    assert ['\\', '\\'] + x == ['\\'] + d;
    DecodeCopiedCons('\\', d);
    DecodeCopiedCons('\\', x);
    Concat3(['\\'], ['\\'], DecodeEscapes(x));
  }

  /** A byte that does not start an escape is copied, the rest decoded after it. */
  lemma DecodeCopiedCons(c: char, x: string)
    requires !EscapeAt([c] + x)
    ensures DecodeEscapes([c] + x) == [c] + DecodeEscapes(x)
  {
    assert ([c] + x)[1..] == x;
  }

  lemma DecodeBackslashStep(s: string)
    requires s != [] && s[0] == '\\' && !EscapeAt(s)
    ensures DecodeEscapes(EscapeChars(s)) == "\\\\" + DecodeEscapes(EscapeChars(s[1..]))
  {
    var x := EscapeChars(s[1..]);
    EscapeAfterDoubled(s);
    assert EscapeChars(s) == ['\\', '\\'] + x;
    DecodeDoubledBackslash(x);
  }

  lemma DecodeSequenceStep(s: string)
    requires s != [] && s[0] != '\\' && (MatchLen(s) == 2 || MatchLen(s) == 3)
    ensures var m := MatchLen(s);
      DecodeEscapes(EscapeChars(s)) == s[..m] + DecodeEscapes(EscapeChars(s[m..]))
  {
    var m := MatchLen(s);
    var x := s[..m];
    assert x[..m] == s[..m];
    MatchLenPrefix(s, x);
    DecodeOfSequenceEscape(x, EscapeChars(s[m..]));
  }

  lemma DecodePlainStep(s: string)
    requires s != [] && s[0] != '\\' && MatchLen(s) != 2 && MatchLen(s) != 3
    requires NoLiteralEscape(s)
    ensures DecodeEscapes(EscapeChars(s)) == [s[0]] + DecodeEscapes(EscapeChars(s[1..]))
  {
    var e := EscapeChars(s);
    assert e == [s[0]] + EscapeChars(s[1..]);
    assert e[1..] == EscapeChars(s[1..]);
  }

  /** Decoding the reference encoding gives the text with its backslashes
      doubled, provided the text holds no literal escape. */
  lemma {:induction false} DecodeOfEscapeChars(s: string)
    requires NoLiteralEscape(s)
    ensures DecodeEscapes(EscapeChars(s)) == EscapeBackslashes(s)
    decreases |s|
  {
    if s != [] {
      if s[0] == '\\' {
        assert s[0..] == s;
        DecodeBackslashStep(s);
        NoLiteralEscapeSuffix(s, 1);
        DecodeOfEscapeChars(s[1..]);
      } else {
        var m := MatchLen(s);
        if m == 2 || m == 3 {
          DecodeSequenceStep(s);
          NoLiteralEscapeSuffix(s, m);
          DecodeOfEscapeChars(s[m..]);
          DoubledSequenceSplit(s);
        } else {
          DecodePlainStep(s);
          NoLiteralEscapeSuffix(s, 1);
          DecodeOfEscapeChars(s[1..]);
        }
      }
    }
  }

  // ---------------------------------------------------------------------------
  // The round trip and its limits

  /**
   * `ecma_decode(ecma_encode(s)) == s` for every text without 4-byte sequences
   * that does not itself contain a lower-case `\uXXXX` escape.
   */
  lemma EcmaRoundTrip(s: string)
    requires NoFourByteLead(s)
    requires NoLiteralEscape(s)
    ensures EcmaDecode(EcmaEncode(s)) == s
  {
    EncodeIsReference(s);
    DecodeOfEscapeChars(s);
    CollapseOfEscape(s);
  }

  /** Text without any escape is only collapsed by `ecma_decode`; in
      particular upper-case escapes such as `\u00E9` are left as they are. */
  lemma {:induction false} DecodeWithoutEscapes(s: string)
    requires NoLiteralEscape(s)
    ensures DecodeEscapes(s) == s
    ensures EcmaDecode(s) == CollapseBackslashes(s)
  {
    if s != [] {
      assert s[0..] == s;
      assert NoLiteralEscape(s[1..]) by {
        forall i | 0 <= i < |s| - 1 ensures !EscapeAt(s[1..][i..]) {
          assert s[1..][i..] == s[i + 1..];
        }
      }
      DecodeWithoutEscapes(s[1..]);
    }
  }

  /** A hexadecimal digit of either case. */
  predicate IsHexDigit(c: char) {
    IsLowerHexDigit(c) || ('A' <= c <= 'F')
  }

  /**
   * An escape written with upper-case hexadecimal digits is not decoded:
   * `ecma_decode` keeps the six characters and decodes only what follows.
   */
  lemma UpperCaseEscapeKept(h: string, r: string)
    requires |h| == 4 && forall i :: 0 <= i < 4 ==> IsHexDigit(h[i])
    requires exists i :: 0 <= i < 4 && 'A' <= h[i] <= 'F'
    ensures DecodeEscapes("\\u" + h + r) == "\\u" + h + DecodeEscapes(r)
    ensures EcmaDecode("\\u" + h + r) == "\\u" + h + EcmaDecode(r)
  {
    var a := "u" + h;
    assert forall i :: 0 <= i < |a| ==> a[i] != '\\';
    var s := "\\u" + h + r;
    assert s == ['\\'] + (a + r);
    assert s[2..6] == h;
    DecodeCopiedCons('\\', a + r);
    DecodeKeepsPlain(a, r);
    var d := DecodeEscapes(r);
    assert "\\u" + h + d == ['\\'] + (a + d);
    CollapseKeepsPlain(a, d);
    assert CollapseBackslashes(['\\'] + (a + d)) == ['\\'] + CollapseBackslashes(a + d) by {
      assert (['\\'] + (a + d))[1] == 'u';
      assert (['\\'] + (a + d))[1..] == a + d;
    }
  }

  /** Text without backslashes in front is copied by the escape decoding. */
  lemma {:induction false} DecodeKeepsPlain(a: string, r: string)
    requires forall i :: 0 <= i < |a| ==> a[i] != '\\'
    ensures DecodeEscapes(a + r) == a + DecodeEscapes(r)
  {
    if a == [] {
      assert a + r == r;
    } else {
      DecodeKeepsPlain(a[1..], r);
      DecodeKeepsPlainStep(a[0], a[1..], r);
      assert [a[0]] + a[1..] == a;
    }
  }

  lemma DecodeKeepsPlainStep(c: char, x: string, r: string)
    requires c != '\\'
    requires DecodeEscapes(x + r) == x + DecodeEscapes(r)
    ensures DecodeEscapes([c] + x + r) == [c] + x + DecodeEscapes(r)
  {
    assert [c] + x + r == [c] + (x + r);
    DecodeCopiedCons(c, x + r);
  }

  /** Text without backslashes in front is copied by the collapsing. */
  lemma {:induction false} CollapseKeepsPlain(a: string, r: string)
    requires forall i :: 0 <= i < |a| ==> a[i] != '\\'
    ensures CollapseBackslashes(a + r) == a + CollapseBackslashes(r)
  {
    if a == [] {
      assert a + r == r;
    } else {
      CollapseKeepsPlain(a[1..], r);
      CollapseKeepsPlainStep(a[0], a[1..], r);
      assert [a[0]] + a[1..] == a;
    }
  }

  lemma CollapseKeepsPlainStep(c: char, x: string, r: string)
    requires c != '\\'
    requires CollapseBackslashes(x + r) == x + CollapseBackslashes(r)
    ensures CollapseBackslashes([c] + x + r) == [c] + x + CollapseBackslashes(r)
  {
    var s := [c] + x + r;
    assert s[0] == c && s[1..] == x + r;
  }

  /** Text with no multi-byte sequence is only backslash-doubled by `ecma_encode`. */
  lemma {:induction false} EncodeWithoutMultiByte(s: string)
    requires !NeedsEcmaEncoding(s)
    ensures EcmaEncode(s) == EscapeBackslashes(s)
  {
    EscapeBackslashesKeepsPlain(s);
    Utf8JsPlain(EscapeBackslashes(s));
  }

  lemma {:induction false} Utf8JsPlain(t: string)
    requires !NeedsEcmaEncoding(t)
    ensures Utf8Js(t) == t
  {
    if t != [] {
      assert t[0..] == t;
      forall j | 0 <= j < |t| - 1 ensures MatchLen(t[1..][j..]) == 0 {
        assert t[1..][j..] == t[j + 1..];
      }
      Utf8JsPlain(t[1..]);
    }
  }

  lemma {:induction false} EscapeBackslashesKeepsPlain(s: string)
    requires !NeedsEcmaEncoding(s)
    ensures !NeedsEcmaEncoding(EscapeBackslashes(s))
  {
    var e := EscapeBackslashes(s);
    if NeedsEcmaEncoding(e) {
      var i :| 0 <= i < |e| && MatchLen(e[i..]) > 0;
      var m := MatchLen(e[i..]);
      // the bytes of the match are all 0x80 and above, so none is a doubled backslash
      PlainPrefixOfDoubled(s, i, m);
    }
  }

  /** A match inside the doubled text is a match inside the original text. */
  lemma {:induction false} PlainPrefixOfDoubled(s: string, i: nat, m: nat)
    requires i < |EscapeBackslashes(s)| && m == MatchLen(EscapeBackslashes(s)[i..]) && m > 0
    ensures NeedsEcmaEncoding(s)
    decreases |s|
  {
    var e := EscapeBackslashes(s);
    assert s != [];
    var t := EscapeBackslashes(s[1..]);
    var head := if s[0] == '\\' then "\\\\" else [s[0]];
    assert e == head + t;
    if i < |head| {
      assert e[i..][0] == e[i];
      assert e[i] == s[0] && s[0] != '\\';
      assert i == 0;
      assert forall j :: 0 <= j < m ==> e[j] != '\\';
      EscapeBackslashesPrefix(s, m);
      assert e[..m][..m] == s[..m];
      MatchLenPrefix(e, s);
      assert s[0..] == s;
    } else {
      assert e[i..] == t[i - |head|..];
      PlainPrefixOfDoubled(s[1..], i - |head|, m);
      var j :| 0 <= j < |s| - 1 && MatchLen(s[1..][j..]) > 0;
      assert s[1..][j..] == s[j + 1..];
    }
  }

  /**
   * The encoder reads a 4-byte sequence as a 3-byte one: U+1F600 (F0 9F 98 80)
   * is written as `\u07d8` and its last byte is dropped, so decoding gives the
   * two bytes of U+07D8 instead.
   */
  lemma FourByteSequenceNotPreserved()
    ensures EcmaEncode("\U{F0}\U{9F}\U{98}\U{80}") == "\\u07d8"
    ensures EcmaDecode(EcmaEncode("\U{F0}\U{9F}\U{98}\U{80}")) == "\U{DF}\U{98}"
  {
    FourByteEncoding();
    Escape07D8Decoding();
  }

  lemma FourByteEncoding()
    ensures EcmaEncode("\U{F0}\U{9F}\U{98}\U{80}") == "\\u07d8"
  {
    var s := "\U{F0}\U{9F}\U{98}\U{80}";
    assert EscapeBackslashes(s[3..]) == s[3..];
    assert EscapeBackslashes(s) == s;
    FourByteRun();
    assert s[..4] == s && s[4..] == [];
    FourByteCallback();
  }

  lemma FourByteRun()
    ensures RunLength("\U{F0}\U{9F}\U{98}\U{80}") == 4
  {
    var s := "\U{F0}\U{9F}\U{98}\U{80}";
    assert MatchLen(s) == 4;
    assert s[4..] == [];
  }

  /** The callback collects three bytes after the lead 0xF0 and drops the fourth. */
  lemma FourByteCallback()
    ensures EncodeFrom("\U{F0}\U{9F}\U{98}\U{80}", [], 1) == "\\u07d8"
  {
    FourByteCollect();
    TrailingContinuationDropped();
    Escape07D8();
  }

  lemma FourByteCollect()
    ensures EncodeFrom("\U{F0}\U{9F}\U{98}\U{80}", [], 1)
         == Escape(Number([0xF0, 0x9F, 0x98], 3)) + EncodeFrom("\U{80}", [], 1)
  {
    CollectLead();
    CollectSecond();
    CollectThird();
  }

  /** The lead byte 0xF0 opens a group of three. */
  lemma CollectLead()
    ensures EncodeFrom("\U{F0}\U{9F}\U{98}\U{80}", [], 1) == EncodeFrom("\U{9F}\U{98}\U{80}", [0xF0], 3)
  {
    var s := "\U{F0}\U{9F}\U{98}\U{80}";
    assert s[1..] == "\U{9F}\U{98}\U{80}";
    assert s[0] as int == 0xF0;
    assert [] + [0xF0] == [0xF0];
  }

  /** The second byte joins the group. */
  lemma CollectSecond()
    ensures EncodeFrom("\U{9F}\U{98}\U{80}", [0xF0], 3) == EncodeFrom("\U{98}\U{80}", [0xF0, 0x9F], 3)
  {
    var s := "\U{9F}\U{98}\U{80}";
    assert s[1..] == "\U{98}\U{80}";
    assert s[0] as int == 0x9F;
    assert [0xF0] + [0x9F] == [0xF0, 0x9F];
  }

  /** The third byte completes the group, which is written as one escape. */
  lemma CollectThird()
    ensures EncodeFrom("\U{98}\U{80}", [0xF0, 0x9F], 3)
         == Escape(Number([0xF0, 0x9F, 0x98], 3)) + EncodeFrom("\U{80}", [], 1)
  {
    var s := "\U{98}\U{80}";
    assert s[1..] == "\U{80}";
    assert s[0] as int == 0x98;
    assert [0xF0, 0x9F] + [0x98] == [0xF0, 0x9F, 0x98];
  }

  lemma TrailingContinuationDropped()
    ensures EncodeFrom("\U{80}", [], 1) == []
  {
    assert "\U{80}"[1..] == [];
    assert EncodeFrom("\U{80}", [], 1) == EncodeFrom([], [0x80], 2);
  }

  lemma Escape07D8()
    ensures Escape(Number([0xF0, 0x9F, 0x98], 3)) == "\\u07d8"
  {
    assert Number([0xF0, 0x9F, 0x98], 3) == 0x7d8;
    assert DecHex(0x7) == "7";
    assert DecHex(0x7d) == "7d";
    assert DecHex(0x7d8) == "7d8";
  }

  lemma Escape07D8Decoding()
    ensures EcmaDecode("\\u07d8") == "\U{DF}\U{98}"
  {
    var e := "\\u07d8";
    assert EscapeAt(e);
    assert e[6..] == [];
    assert "07d8"[..3] == "07d" && "07d"[..2] == "07" && "07"[..1] == "0";
    assert HexValue("07") == 7;
    assert HexValue("07d") == 0x7d;
    assert HexValue("07d8") == 0x7d8;
    assert e[2..6] == "07d8";
    assert Code2Utf(0x7d8) == Some("\U{DF}\U{98}");
    assert DecodeEscape("07d8") == "\U{DF}\U{98}";
    assert DecodeEscapes(e) == "\U{DF}\U{98}";
  }
}
