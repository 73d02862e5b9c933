/**
 * The framing of a WSIF file: header lines, inline bodies between boundary
 * delimiters, the extension of a blob file name, and the drawing of a boundary
 * that does not occur in the text it frames.
 */
module Framing {
  import opened Wrappers
  import opened Text

  /** `_header`: one `name: value` line. */
  function Header(name: string, value: string): string {
    name + ": " + value + "\n"
  }

  /** The line that opens and closes an inline body. */
  function Delimiter(b: string): string {
    "\n--" + b + "\n"
  }

  /** `_inline`: the content between two copies of the delimiter. */
  function Inline(b: string, content: string): string {
    Delimiter(b) + content + Delimiter(b)
  }

  // ---------------------------------------------------------------------------
  // Reading an inline body back

  datatype InlineFailure = StartBoundaryMissing | EndBoundaryMissing

  /**
   * How `_page_def` finds an inline body: the first delimiter at or after
   * `from`, then the next one after it; the body is what lies between.
   */
  function ExtractInline(ct: string, from: nat, b: string): (r: Result<string, InlineFailure>)
    ensures r == Err(StartBoundaryMissing) <==>
      forall i: nat :: from <= i ==> !OccursAt(ct, Delimiter(b), i)
    ensures r.Ok? ==> !Contains(r.value, Delimiter(b))
  {
    var d := Delimiter(b);
    match IndexOf(ct, d, from)
    case None => Err(StartBoundaryMissing)
    case Some(s) => ExtractBody(ct, d, s + |d|)
  }

  /** The body that starts at `a`: everything up to the next delimiter `d`. */
  function ExtractBody(ct: string, d: string, a: nat): (r: Result<string, InlineFailure>)
    requires |d| > 0
    ensures r != Err(StartBoundaryMissing)
    ensures r.Ok? ==> !Contains(r.value, d)
  {
    match IndexOf(ct, d, a)
    case None => Err(EndBoundaryMissing)
    case Some(e) =>
      NoOccurrenceInside(ct, d, a, e);
      Ok(ct[a..e])
  }

  /** No occurrence of `d` starting in `[a, e)` means none inside `ct[a..e]`. */
  lemma NoOccurrenceInside(ct: string, d: string, a: nat, e: nat)
    requires a <= e <= |ct| && |d| > 0
    requires forall i: nat :: a <= i < e ==> !OccursAt(ct, d, i)
    ensures !Contains(ct[a..e], d)
  {
    var body := ct[a..e];
    forall j: nat | j <= |body| ensures !OccursAt(body, d, j) {
      if j + |d| <= |body| {
        var x, y := body[j..j + |d|], ct[a + j..a + j + |d|];
        forall t | 0 <= t < |d| ensures x[t] == y[t] {
          assert body[j + t] == ct[a + j + t];
        }
        assert x == y;
        assert !OccursAt(ct, d, a + j);
      }
    }
  }

  /** `IndexOf` finds `k` when `k` is an occurrence and none comes before it. */
  lemma {:induction false} IndexOfIs(hay: string, needle: string, from: nat, k: nat)
    requires from <= k && OccursAt(hay, needle, k)
    requires forall i: nat :: from <= i < k ==> !OccursAt(hay, needle, i)
    ensures IndexOf(hay, needle, from) == Some(k)
    decreases k - from
  {
    if from < k {
      IndexOfIs(hay, needle, from + 1, k);
    }
  }

  /** The delimiter holds a newline only at its two ends. */
  lemma DelimiterInterior(b: string)
    requires forall j :: 0 <= j < |b| ==> b[j] != '\n'
    ensures forall k :: 0 < k < |Delimiter(b)| - 1 ==> Delimiter(b)[k] != '\n'
  {
    var d := Delimiter(b);
    forall k | 0 < k < |d| - 1 ensures d[k] != '\n' {
      if k < 3 {
        assert d[k] == '-';
      } else {
        assert d[k] == b[k - 3];
      }
    }
  }

  /**
   * An occurrence of the delimiter that starts inside the body and before the
   * closing delimiter carries a copy of the boundary inside the body.
   */
  lemma OccurrenceInside(ct: string, b: string, c: string, a: nat, i: nat)
    requires forall j :: 0 <= j < |b| ==> b[j] != '\n'
    requires a + |c| + |Delimiter(b)| <= |ct|
    requires ct[a..a + |c|] == c
    requires OccursAt(ct, Delimiter(b), a + |c|)
    requires a <= i < a + |c|
    ensures OccursAt(ct, Delimiter(b), i) ==> Contains(c, b)
  {
    var d := Delimiter(b);
    var q := a + |c|;
    if OccursAt(ct, d, i) {
      if q < i + |d| {
        assert ct[q] == ct[i..i + |d|][q - i] == d[q - i];
        assert ct[q] == ct[q..q + |d|][0] == '\n';
        DelimiterInterior(b);
      }
      assert i + 3 + |b| <= q;
      var j := i - a + 3;
      forall t | 0 <= t < |b| ensures c[j + t] == b[t] {
        assert c[j + t] == ct[a..a + |c|][j + t] == ct[i + 3 + t];
        assert ct[i + 3 + t] == ct[i..i + |d|][3 + t] == d[3 + t];
      }
      assert c[j..j + |b|] == b;
      assert OccursAt(c, b, j);
    }
  }

  /**
   * Inline framing round trip: with a boundary free of newlines that does not
   * occur in the content, the first two delimiters found from the start of
   * the framed block enclose exactly the content, whatever surrounds it.
   */
  lemma InlineRoundTrip(pre: string, b: string, c: string, post: string)
    requires forall j :: 0 <= j < |b| ==> b[j] != '\n'
    requires !Contains(c, b)
    ensures ExtractInline(pre + Inline(b, c) + post, |pre|, b) == Ok(c)
  {
    InlineLayout(pre, b, c, post);
    InlineFound(pre + Inline(b, c) + post, b, c, |pre|);
  }

  /** The same, for any text laid out as a delimiter, the content, a delimiter. */
  lemma InlineFound(ct: string, b: string, c: string, p: nat)
    requires forall j :: 0 <= j < |b| ==> b[j] != '\n'
    requires !Contains(c, b)
    requires OccursAt(ct, Delimiter(b), p)
    requires p + |Delimiter(b)| + |c| <= |ct|
    requires ct[p + |Delimiter(b)|..p + |Delimiter(b)| + |c|] == c
    requires OccursAt(ct, Delimiter(b), p + |Delimiter(b)| + |c|)
    ensures ExtractInline(ct, p, b) == Ok(c)
  {
    IndexOfIs(ct, Delimiter(b), p, p);
    SecondDelimiter(ct, b, Delimiter(b), c, p + |Delimiter(b)|);
    ExtractFound(ct, p, b, p, p + |Delimiter(b)| + |c|, c);
  }

  /** What `ExtractInline` returns once both delimiters are located. */
  lemma ExtractFound(ct: string, from: nat, b: string, s: nat, e: nat, c: string)
    requires IndexOf(ct, Delimiter(b), from) == Some(s)
    requires IndexOf(ct, Delimiter(b), s + |Delimiter(b)|) == Some(e)
    requires s + |Delimiter(b)| <= e && ct[s + |Delimiter(b)|..e] == c
    ensures ExtractInline(ct, from, b) == Ok(c)
  {
  }

  /**
   * Searching from the start of content that does not hold the boundary finds
   * the delimiter that follows the content.
   */
  lemma SecondDelimiter(ct: string, b: string, d: string, c: string, a: nat)
    requires forall j :: 0 <= j < |b| ==> b[j] != '\n'
    requires !Contains(c, b)
    requires d == Delimiter(b)
    requires a + |c| + |d| <= |ct|
    requires ct[a..a + |c|] == c
    requires OccursAt(ct, d, a + |c|)
    ensures IndexOf(ct, d, a) == Some(a + |c|)
  {
    forall i: nat | a <= i < a + |c| ensures !OccursAt(ct, d, i) {
      OccurrenceInside(ct, b, c, a, i);
    }
    IndexOfIs(ct, d, a, a + |c|);
  }

  /** Where the two delimiters and the content lie in a framed block. */
  lemma InlineLayout(pre: string, b: string, c: string, post: string)
    ensures var d, ct := Delimiter(b), pre + Inline(b, c) + post;
      && |ct| == |pre| + |d| + |c| + |d| + |post|
      && OccursAt(ct, d, |pre|)
      && ct[|pre| + |d|..|pre| + |d| + |c|] == c
      && OccursAt(ct, d, |pre| + |d| + |c|)
  {
    var d := Delimiter(b);
    var ct := pre + Inline(b, c) + post;
    assert ct == pre + d + c + d + post;
    assert ct[|pre|..|pre| + |d|] == d;
    assert ct[|pre| + |d|..|pre| + |d| + |c|] == c;
    assert ct[|pre| + |d| + |c|..|pre| + |d| + |c| + |d|] == d;
  }

  // ---------------------------------------------------------------------------
  // File extensions

  /** `\w` in the default locale: ASCII letters, digits and the underscore. */
  predicate IsWordChar(c: char) {
    ('a' <= c <= 'z') || ('A' <= c <= 'Z') || ('0' <= c <= '9') || c == '_'
  }

  /** The number of word characters at the end of `s`. */
  function WordTail(s: string): (k: nat)
    ensures k <= |s|
    ensures forall j :: |s| - k <= j < |s| ==> IsWordChar(s[j])
    ensures k < |s| ==> !IsWordChar(s[|s| - k - 1])
    decreases |s|
  {
    if s != [] && IsWordChar(s[|s| - 1]) then 1 + WordTail(s[..|s| - 1]) else 0
  }

  /** The text `$` anchors against: one final newline does not count. */
  function Anchored(s: string): string {
    if s != [] && s[|s| - 1] == '\n' then s[..|s| - 1] else s
  }

  /**
   * `_file_ext`: a dot and the word characters that end the name (before an
   * optional final newline), or nothing when the name does not end that way.
   */
  function FileExt(fn: string): (r: string) {
    var s := Anchored(fn);
    var k := WordTail(s);
    if 0 < k < |s| && s[|s| - k - 1] == '.' then s[|s| - k - 1..] else ""
  }

  /** `s` ends with a dot and the word characters `w`. */
  predicate EndsWithExt(s: string, w: string) {
    && w != [] && |w| < |s|
    && (forall j :: 0 <= j < |w| ==> IsWordChar(w[j]))
    && s[|s| - |w| - 1] == '.' && s[|s| - |w|..] == w
  }

  /** A non-empty result of `_file_ext` is a dot and word characters that end
      the name. */
  lemma FileExtShape(fn: string)
    ensures var s, r := Anchored(fn), FileExt(fn);
      r != [] ==> r[0] == '.' && EndsWithExt(s, r[1..])
  {
    var s := Anchored(fn);
    var r := FileExt(fn);
    if r != [] {
      var k := WordTail(s);
      assert r == s[|s| - k - 1..];
      assert r[1..] == s[|s| - k..];
    }
  }

  /** Conversely, a name that ends with a dot and word characters is given
      exactly that extension, so the result is empty only for other names. */
  lemma FileExtOfEnding(fn: string, w: string)
    requires EndsWithExt(Anchored(fn), w)
    ensures FileExt(fn) == "." + w
  {
    var s := Anchored(fn);
    ExtLength(s, w);
    assert s[|s| - |w| - 1..] == [s[|s| - |w| - 1]] + s[|s| - |w|..];
  }

  /** The word characters after the final dot are exactly the word tail. */
  lemma ExtLength(s: string, w: string)
    requires EndsWithExt(s, w)
    ensures WordTail(s) == |w|
  {
    forall j | |s| - |w| <= j < |s| ensures IsWordChar(s[j]) {
      assert s[j] == s[|s| - |w|..][j - (|s| - |w|)];
    }
    WordTailAtLeast(s, |w|);
    assert !IsWordChar('.');
  }

  lemma {:induction false} WordTailAtLeast(s: string, n: nat)
    requires n <= |s| && forall j :: |s| - n <= j < |s| ==> IsWordChar(s[j])
    ensures WordTail(s) >= n
    decreases n
  {
    if n > 0 {
      var t := s[..|s| - 1];
      forall j | |t| - (n - 1) <= j < |t| ensures IsWordChar(t[j]) {
        assert t[j] == s[j];
      }
      WordTailAtLeast(t, n - 1);
    }
  }

  /** A name ending in a dot and a word is given that extension. */
  lemma FileExtOf(name: string, w: string)
    requires w != [] && forall j :: 0 <= j < |w| ==> IsWordChar(w[j])
    ensures FileExt(name + "." + w) == "." + w
  {
    var s := name + "." + w;
    assert s[|s| - 1] == w[|w| - 1];
    assert Anchored(s) == s;
    assert s[|s| - |w|..] == w;
    assert s[|s| - |w| - 1] == '.';
    FileExtOfEnding(s, w);
  }

  // ---------------------------------------------------------------------------
  // Random boundaries

  /** `_LIBWSIF_RANDOM_CHARSET` as written: 51 characters, `T` twice, no `Y`
      and no `j`. */
  const Charset: string := "ABCDEFGHIJKLMNOPQRSTUVWXTZabcdefghiklmnopqrstuvwxyz"

  /** One value of `mt_rand(0, strlen(charset) - 1)`. */
  type Draw = i: nat | i < 51

  /** The charset's quirk: `T` stands at two positions, where `T` and `Y` belong. */
  lemma CharsetRepeatsT()
    ensures |Charset| == 51
    ensures Charset[19] == 'T' && Charset[24] == 'T'
  {
  }

  /** The characters the draws select. */
  function Picked(draws: seq<Draw>): (s: string)
    ensures |s| == |draws|
    ensures forall i :: 0 <= i < |s| ==> s[i] == Charset[draws[i]]
  {
    seq(|draws|, i requires 0 <= i < |draws| => Charset[draws[i]])
  }

  /** `_random_string`: `len` characters of the charset, one per draw. */
  method RandomString(len: nat, draws: seq<Draw>) returns (s: string)
    requires len <= |draws|
    ensures s == Picked(draws[..len])
    ensures |s| == len && forall i :: 0 <= i < |s| ==> s[i] in Charset
  {
    s := "";
    for i := 0 to len
      invariant s == Picked(draws[..i])
    {
      assert draws[..i + 1] == draws[..i] + [draws[i]];
      s := s + [Charset[draws[i]]];
    }
  }

  /** The length of the strings `_generate_random_boundary` draws. */
  const BoundaryLength: nat := 10

  /** `r` with `k` more draws counted as used. */
  function Shift(r: Option<(string, nat)>, k: nat): Option<(string, nat)> {
    if r.None? then None else Some((r.value.0, r.value.1 + k))
  }

  /**
   * The redrawing loop of `_generate_random_boundary`: ten characters per
   * attempt until one attempt does not occur in `text`; the boundary and the
   * number of draws used, or `None` when the draws run out first.
   */
  function Redraw(text: string, draws: seq<Draw>): (r: Option<(string, nat)>)
    ensures r.Some? ==> !Contains(text, r.value.0) && r.value.1 <= |draws|
    decreases |draws|
  {
    if |draws| < BoundaryLength then None
    else
      var nb := Picked(draws[..BoundaryLength]);
      if !Contains(text, nb) then Some((nb, BoundaryLength))
      else Shift(Redraw(text, draws[BoundaryLength..]), BoundaryLength)
  }

  /**
   * `_generate_random_boundary` with the random source given as a finite
   * sequence of draws: the supplied boundary when it is non-empty and absent
   * from `text`, and otherwise the outcome of the redrawing loop.
   */
  function BoundaryFrom(b: string, text: string, draws: seq<Draw>): (r: Option<(string, nat)>)
    ensures r.Some? ==> !Contains(text, r.value.0) && r.value.1 <= |draws|
  {
    if |b| > 0 && !Contains(text, b) then Some((b, 0)) else Redraw(text, draws)
  }

  /**
   * A redrawn boundary is the ten charset characters of the last attempt,
   * and the draws used are whole attempts.
   */
  lemma {:induction false} RedrawShape(text: string, draws: seq<Draw>)
    ensures var r := Redraw(text, draws);
      r.Some? ==>
        && r.value.1 % BoundaryLength == 0 && r.value.1 >= BoundaryLength
        && r.value.0 == Picked(draws[r.value.1 - BoundaryLength..r.value.1])
    decreases |draws|
  {
    var r := Redraw(text, draws);
    if r.Some? {
      var nb := Picked(draws[..BoundaryLength]);
      if !Contains(text, nb) {
        assert r.value == (nb, BoundaryLength);
        assert draws[..BoundaryLength] == draws[0..BoundaryLength];
      } else {
        var rest := draws[BoundaryLength..];
        var next := Redraw(text, rest);
        assert r == Shift(next, BoundaryLength);
        RedrawShape(text, rest);
        var used := next.value.1;
        DrawsOfRest(draws, BoundaryLength, used - BoundaryLength, used, r.value.1 - BoundaryLength, r.value.1);
      }
    }
  }

  /** A slice of `d[k..]` is the slice of `d` moved by `k`, at positions given as `i2`, `j2`. */
  lemma DrawsOfRest(d: seq<Draw>, k: nat, i: nat, j: nat, i2: nat, j2: nat)
    requires k <= |d| && i <= j <= |d| - k && i2 == k + i && j2 == k + j
    ensures d[k..][i..j] == d[i2..j2]
  {
  }

  /** `_generate_random_boundary`, drawing until the boundary is absent. */
  method GenerateRandomBoundary(b: string, text: string, draws: seq<Draw>) returns (r: Option<(string, nat)>)
    ensures r == BoundaryFrom(b, text, draws)
  {
    var cur := b;
    var used := 0;
    if |cur| == 0 {
      if |draws| < BoundaryLength {
        return None;
      }
      cur := RandomString(BoundaryLength, draws);
      used := BoundaryLength;
      assert draws[..BoundaryLength] == draws[0..BoundaryLength];
    }
    while Contains(text, cur)
      invariant used <= |draws| && |cur| > 0
      invariant BoundaryFrom(b, text, draws) == Shift(BoundaryFrom(cur, text, draws[used..]), used)
      decreases |draws| - used
    {
      if |draws| - used < BoundaryLength {
        return None;
      }
      cur := RandomString(BoundaryLength, draws[used..]);
      assert draws[used..][BoundaryLength..] == draws[used + BoundaryLength..];
      used := used + BoundaryLength;
    }
    r := Some((cur, used));
  }
}
