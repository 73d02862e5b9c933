/**
 * `_load` over a buffer: the version check of the block before the first page
 * record, then the scan of `\nwoas.page.` header lines that gathers the
 * fields of each record and resolves a record when the next `title` header
 * arrives, and once more for the last record after the scan.
 *
 * The functions here specify the scan step by step; `Libwsif.Wsif.Load` is the
 * loop that is proved to follow them.
 */
module Loader {
  import opened Wrappers
  import opened Text
  import opened Ecma
  import opened Framing
  import opened Resolver

  /** The prefix every page header line starts with, newline included. */
  const Pfx := "\nwoas.page."

  /** `WSIF_VERSION`: the newest format version the codec reads. */
  const WsifVersion := "1.3.1"

  // ---------------------------------------------------------------------------
  // The version line: /^wsif\.version:\s+(.*)$/m

  /** `\s` of the regular expressions: space, tab, LF, VT, FF, CR. */
  predicate IsRegexSpace(c: char) {
    c == ' ' || c == '\t' || c == '\n' || c == '\U{0B}' || c == '\U{0C}' || c == '\r'
  }

  /** The length of the run of `\s` characters that starts `s`. */
  function SpaceRun(s: string): (k: nat)
    ensures k <= |s|
    ensures forall j :: 0 <= j < k ==> IsRegexSpace(s[j])
    ensures k < |s| ==> !IsRegexSpace(s[k])
  {
    if s != [] && IsRegexSpace(s[0]) then 1 + SpaceRun(s[1..]) else 0
  }

  /** The offset of the first newline at or after `i`, or the end of `s`. */
  function LineEnd(s: string, i: nat): (e: nat)
    requires i <= |s|
    ensures i <= e <= |s|
    ensures forall j :: i <= j < e ==> s[j] != '\n'
    ensures e < |s| ==> s[e] == '\n'
    decreases |s| - i
  {
    if i == |s| || s[i] == '\n' then i else LineEnd(s, i + 1)
  }

  const VersionKey := "wsif.version:"

  /** The version header can start at `i`: a line start followed by the key and a blank. */
  predicate VersionAt(s: string, i: nat) {
    && (i == 0 || (i <= |s| && s[i - 1] == '\n'))
    && OccursAt(s, VersionKey, i)
    && i + |VersionKey| < |s| && IsRegexSpace(s[i + |VersionKey|])
  }

  /**
   * The value of the first version line at or after `i`: everything after the
   * run of blanks that follows the key, up to the end of that line.
   */
  function VersionFrom(s: string, i: nat): (r: Option<string>)
    decreases |s| - i
  {
    if i > |s| then None
    else if VersionAt(s, i) then Some(VersionValue(s, i))
    else VersionFrom(s, i + 1)
  }

  /** The value of the version line at `i`: after the blanks, up to the end of the line. */
  function VersionValue(s: string, i: nat): string
    requires i + |VersionKey| <= |s|
  {
    ValueAt(s, i + |VersionKey|)
  }

  /** The value of a header from `a` on: after the run of blanks, up to the end of the line. */
  function ValueAt(s: string, a: nat): string
    requires a <= |s|
  {
    LineFrom(s, ValueStart(s, a))
  }

  /** Where a header value starts: after the run of blanks from `a` on. */
  function ValueStart(s: string, a: nat): (v: nat)
    requires a <= |s|
    ensures a <= v <= |s|
  {
    a + SpaceRun(s[a..])
  }

  /** The rest of the line from `v` on, without its newline. */
  function LineFrom(s: string, v: nat): string
    requires v <= |s|
  {
    s[v..LineEnd(s, v)]
  }

  function VersionLine(s: string): Option<string> {
    VersionFrom(s, 0)
  }

  /** No version line from `i` on. */
  lemma {:induction false} VersionFromNone(s: string, i: nat)
    ensures VersionFrom(s, i).None? <==> forall k: nat :: i <= k ==> !VersionAt(s, k)
    decreases |s| - i
  {
    if i <= |s| && !VersionAt(s, i) {
      VersionFromNone(s, i + 1);
    }
  }

  /**
   * The `wsif.version` header reads back as its value, whatever follows it,
   * when the value is a non-blank single line.
   */
  lemma VersionOfHeader(v: string, rest: string)
    requires v != [] && !IsRegexSpace(v[0])
    requires forall j :: 0 <= j < |v| ==> v[j] != '\n'
    ensures VersionLine(Header("wsif.version", v) + rest) == Some(v)
  {
    var s := Header("wsif.version", v) + rest;
    var k := |VersionKey|;
    assert s == VersionKey + " " + v + "\n" + rest;
    assert s[..k] == VersionKey;
    assert VersionAt(s, 0);
    var a := k;
    assert s[a..][0] == ' ' && s[a..][1] == v[0];
    assert SpaceRun(s[a..][1..]) == 0;
    assert s[a..][1..] == s[a + 1..];
    var e := a + 1 + |v|;
    assert s[e] == '\n';
    assert forall j :: a + 1 <= j < e ==> s[j] == v[j - a - 1];
    LineEndAt(s, a + 1, e);
    assert s[a + 1..e] == v;
  }

  /** The line that starts at `i` ends at `e` when `e` is its first newline. */
  lemma {:induction false} LineEndAt(s: string, i: nat, e: nat)
    requires i <= e < |s| && s[e] == '\n'
    requires forall j :: i <= j < e ==> s[j] != '\n'
    ensures LineEnd(s, i) == e
    decreases e - i
  {
    if i < e {
      LineEndAt(s, i + 1, e);
    }
  }

  // ---------------------------------------------------------------------------
  // The header scan

  /** A header other than `title` stores its value into the record, or is noted as unknown. */
  function Assign(name: string, v: string, f: Fields, st: WsifState): (Fields, WsifState) {
    if name == "attributes" then (f.(attrs := Some(IntVal(v))), st)
    else if name == "last_modified" then (f.(lastMod := Some(IntVal(v))), st)
    else if name == "length" then (f.(len := Some(IntVal(v))), st)
    else if name == "encoding" then (f.(encoding := Some(v)), st)
    else if name == "disposition" then (f.(disposition := Some(v)), st)
    else if name == "disposition.filename" then (f.(filename := Some(v)), st)
    else if name == "boundary" then (f.(boundary := Some(v)), st)
    else if name == "mime" then (f.(mime := Some(v)), st)
    else if name == "original_length" then (f, st)
    else (f, st.Note(UnknownHeader(name)))
  }

  /**
   * The pending record is resolved; its failure is reported under the name
   * of the constant `title`, not the page's title.
   */
  function Flush(env: Env, ct: string, title: string, f: Fields, previousH: Option<nat>, recursion: nat, st: WsifState): WsifState {
    var (rv, st1) := PageDef(env, ct, previousH.GetOr(0), title, f, recursion, st);
    if !rv.Truthy() then st1.Error(ImportFailure("title")) else st1
  }

  /** Where the scan stands: the buffer, the pending record and the codec's state. */
  datatype Scan = Scan(ct: string, title: Option<string>, f: Fields, previousH: Option<nat>, st: WsifState)

  /** A scan position: none, or an occurrence of the prefix. */
  predicate AtPrefix(ct: string, p: Option<nat>) {
    p.Some? ==> OccursAt(ct, Pfx, p.value)
  }

  function Remaining(ct: string, p: Option<nat>): nat {
    if p.Some? && p.value <= |ct| then |ct| - p.value + 1 else 0
  }

  /** One turn of the scan loop: it fails, or goes on from the next prefix. */
  datatype Turn = Stop(sc: Scan) | Next(sc: Scan, p: Option<nat>)

  /** A header line: its name, its trimmed value and the offset of its newline. */
  datatype Line = NoColon | NoNewline | Line(name: string, value: string, q: nat)

  /**
   * The header line at the prefix occurrence `p`: the name runs to the first
   * colon, the value from there to the next newline.
   */
  function ReadLine(ct: string, p: nat): (l: Line)
    requires OccursAt(ct, Pfx, p)
    ensures l.Line? ==> p < l.q < |ct|
  {
    match IndexOf(ct, ":", p + |Pfx|)
    case None => NoColon
    case Some(sep) =>
      match IndexOf(ct, "\n", sep + 1)
      case None => NoNewline
      case Some(q) => Line(ct[p + |Pfx|..sep], Trim(ct[sep + 1..q]), q)
  }

  /**
   * What a header line does to the scan: a `title` resolves the pending
   * record, if any, and drops the buffer up to the line's newline; any other
   * header is stored and marks the end of the record's header block.
   */
  function Apply(env: Env, sc: Scan, name: string, v: string, q: nat, recursion: nat): (t: Turn)
    requires q < |sc.ct|
    ensures t.Next? ==> AtPrefix(t.sc.ct, t.p) && Remaining(t.sc.ct, t.p) <= |sc.ct| - q + 1
  {
    var ct := sc.ct;
    var previousH := if name != "title" then Some(q) else sc.previousH;
    if name == "title" && sc.title.Some? then
      var st1 := Flush(env, ct, sc.title.value, sc.f, previousH, recursion, sc.st);
      var rest := ct[q..];
      Next(Scan(rest, Some(EcmaDecode(v)), NoFields, None, st1), IndexOf(rest, Pfx, 0))
    else if name == "title" then
      Next(sc.(title := Some(EcmaDecode(v)), previousH := previousH), IndexOf(ct, Pfx, q))
    else
      var (f1, st1) := Assign(name, v, sc.f, sc.st);
      Next(Scan(ct, sc.title, f1, previousH, st1), IndexOf(ct, Pfx, q))
  }

  /** One turn of the scan loop at the prefix occurrence `p`. */
  function Step(env: Env, sc: Scan, p: nat, recursion: nat): (t: Turn)
    requires OccursAt(sc.ct, Pfx, p)
    ensures t.Next? ==> AtPrefix(t.sc.ct, t.p) && Remaining(t.sc.ct, t.p) < Remaining(sc.ct, Some(p))
  {
    var l := ReadLine(sc.ct, p);
    if l.NoColon? then Stop(sc.(st := sc.st.Error(NoHeaderName)))
    else if l.NoNewline? then Stop(sc.(st := sc.st.Error(BadHeaderValue)))
    else
      assert p < l.q < |sc.ct|;
      var t := Apply(env, sc, l.name, l.value, l.q, recursion);
      assert t.Next? ==> Remaining(t.sc.ct, t.p) <= |sc.ct| - l.q + 1;
      t
  }

  /** The scan loop from position `p`: whether it failed, and where it stopped. */
  function Run(env: Env, sc: Scan, p: Option<nat>, recursion: nat): (r: (bool, Scan))
    requires AtPrefix(sc.ct, p)
    decreases Remaining(sc.ct, p)
  {
    if p.None? then (false, sc)
    else
      match Step(env, sc, p.value, recursion)
      case Stop(sc1) => (true, sc1)
      case Next(sc1, p1) => Run(env, sc1, p1, recursion)
  }

  /** After the scan: the last record is resolved when it has a title and a header after it. */
  function Finish(env: Env, sc: Scan, recursion: nat): WsifState {
    if sc.previousH.Some? && sc.title.Some? then
      var (rv, st1) := PageDef(env, sc.ct, sc.previousH.value, sc.title.value, sc.f, recursion, sc.st);
      if !rv.Truthy() then st1.Error(ImportFailure(sc.title.value)) else st1
    else sc.st
  }

  /** What `_load` returns: `false`, or the number of pages imported so far. */
  datatype Loaded = Failed | Pages(count: nat)

  /** The block before the first record names a version the codec reads. */
  predicate Supported(env: Env, v: string) {
    v != "1.0.0" && env.natCmp(v, WsifVersion) <= 0
  }

  /**
   * `_load` of a file whose content is `file` (`None` when it cannot be read).
   * A file without any page record is reported but still answers the count.
   */
  function Load(env: Env, file: Option<string>, recursion: nat, st: WsifState): (Loaded, WsifState) {
    if file.None? then (Failed, st)
    else
      var ct := file.value;
      match IndexOf(ct, Pfx, 0)
      case None =>
        var st1 := st.Error(InvalidFile);
        (Pages(|st1.imported|), st1)
      case Some(p) =>
        match VersionLine(ct[..p])
        case None => (Failed, st.Error(NoVersion))
        case Some(v) =>
          if !Supported(env, v) then (Failed, st.Error(UnsupportedVersion(v)))
          else
            Conclude(env, Run(env, Scan(ct, None, NoFields, None, st), Some(p), recursion), recursion)
  }

  /** The end of `_load` once the scan has stopped: `false` on a failed scan, else the count. */
  function Conclude(env: Env, run: (bool, Scan), recursion: nat): (Loaded, WsifState) {
    if run.0 then (Failed, run.1.st)
    else
      var st1 := Finish(env, run.1, recursion);
      (Pages(|st1.imported|), st1)
  }

  // ---------------------------------------------------------------------------
  // Properties of `_load`

  /** `a` is `b` followed by something. */
  predicate Extends(a: seq<int>, b: seq<int>) {
    |b| <= |a| && a[..|b|] == b
  }

  lemma ExtendsTrans(a: seq<int>, b: seq<int>, c: seq<int>)
    requires Extends(a, b) && Extends(b, c)
    ensures Extends(a, c)
  {
    assert a[..|c|] == a[..|b|][..|c|];
  }

  lemma PageDefExtends(env: Env, ct: string, from: nat, title: string, f: Fields, recursion: nat, st: WsifState)
    ensures Extends(PageDef(env, ct, from, title, f, recursion, st).1.imported, st.imported)
  {
    PageDefImported(env, ct, from, title, f, recursion, st);
  }

  /** A header line never takes back an imported page. */
  lemma ApplyExtends(env: Env, sc: Scan, name: string, v: string, q: nat, recursion: nat)
    requires q < |sc.ct|
    ensures Extends(Apply(env, sc, name, v, q, recursion).sc.st.imported, sc.st.imported)
  {
    if name == "title" && sc.title.Some? {
      PageDefExtends(env, sc.ct, sc.previousH.GetOr(0), sc.title.value, sc.f, recursion, sc.st);
    } else if name != "title" {
      assert Assign(name, v, sc.f, sc.st).1.imported == sc.st.imported;
    }
  }

  /** One turn of the scan never takes back an imported page. */
  lemma StepExtends(env: Env, sc: Scan, p: nat, recursion: nat)
    requires OccursAt(sc.ct, Pfx, p)
    ensures Extends(Step(env, sc, p, recursion).sc.st.imported, sc.st.imported)
  {
    match ReadLine(sc.ct, p)
    case NoColon =>
    case NoNewline =>
    case Line(name, v, q) => ApplyExtends(env, sc, name, v, q, recursion);
  }

  /** The scan never takes back an imported page. */
  lemma {:induction false} RunExtends(env: Env, sc: Scan, p: Option<nat>, recursion: nat)
    requires AtPrefix(sc.ct, p)
    ensures Extends(Run(env, sc, p, recursion).1.st.imported, sc.st.imported)
    decreases Remaining(sc.ct, p)
  {
    if p.Some? {
      StepExtends(env, sc, p.value, recursion);
      match Step(env, sc, p.value, recursion)
      case Stop(_) =>
      case Next(sc1, p1) =>
        RunExtends(env, sc1, p1, recursion);
        ExtendsTrans(Run(env, sc1, p1, recursion).1.st.imported, sc1.st.imported, sc.st.imported);
    }
  }

  /**
   * `_load` keeps every page imported before it, and a successful load
   * answers the size of the imported list.
   */
  lemma LoadExtends(env: Env, file: Option<string>, recursion: nat, st: WsifState)
    ensures var (r, st1) := Load(env, file, recursion, st);
      && Extends(st1.imported, st.imported)
      && (r.Pages? ==> r.count == |st1.imported|)
  {
    if file.Some? {
      var ct := file.value;
      match IndexOf(ct, Pfx, 0)
      case None =>
      case Some(p) =>
        match VersionLine(ct[..p])
        case None =>
        case Some(v) =>
          if Supported(env, v) {
            var sc0 := Scan(ct, None, NoFields, None, st);
            RunExtends(env, sc0, Some(p), recursion);
            var (fail, sc) := Run(env, sc0, Some(p), recursion);
            if !fail && sc.previousH.Some? && sc.title.Some? {
              PageDefExtends(env, sc.ct, sc.previousH.value, sc.title.value, sc.f, recursion, sc.st);
              ExtendsTrans(Finish(env, sc, recursion).imported, sc.st.imported, st.imported);
            }
          }
    }
  }

  /**
   * The version check: a buffer with page records but without a version line
   * before the first of them, or with version 1.0.0 or a newer one than the
   * codec reads, fails as a whole and imports nothing.
   */
  lemma VersionRejected(env: Env, ct: string, recursion: nat, st: WsifState)
    requires Contains(ct, Pfx)
    requires var p := IndexOf(ct, Pfx, 0).value;
      VersionLine(ct[..p]).None? || !Supported(env, VersionLine(ct[..p]).value)
    ensures var (r, st1) := Load(env, Some(ct), recursion, st);
      r == Failed && st1.imported == st.imported
      && (st1.emsg == NoVersion || st1.emsg.UnsupportedVersion?)
  {
    IndexOfFromStart(ct, Pfx);
  }

  /** The error `_load` reports for a header line it cannot read. */
  function LineError(l: Line): Message
    requires !l.Line?
  {
    if l.NoColon? then NoHeaderName else BadHeaderValue
  }

  /** The header lines the scan reads from `p` on, in order. */
  function Lines(env: Env, sc: Scan, p: Option<nat>, recursion: nat): seq<Line>
    requires AtPrefix(sc.ct, p)
    decreases Remaining(sc.ct, p)
  {
    if p.None? then []
    else
      var l := ReadLine(sc.ct, p.value);
      match Step(env, sc, p.value, recursion)
      case Stop(_) => [l]
      case Next(sc1, p1) => [l] + Lines(env, sc1, p1, recursion)
  }

  /** Every line but the last is a whole header line. */
  predicate InitWhole(ls: seq<Line>) {
    forall i :: 0 <= i < |ls| - 1 ==> ls[i].Line?
  }

  lemma InitWholeCons(l: Line, w: seq<Line>)
    requires l.Line? && InitWhole(w)
    ensures InitWhole([l] + w)
  {
    var ls := [l] + w;
    forall i | 0 <= i < |ls| - 1 ensures ls[i].Line? {
      if i > 0 {
        assert ls[i] == w[i - 1];
      }
    }
  }

  /** The last line read. */
  function LastLine(ls: seq<Line>): Line
    requires ls != []
  {
    ls[|ls| - 1]
  }

  lemma LastLineCons(l: Line, w: seq<Line>)
    requires w != []
    ensures LastLine([l] + w) == LastLine(w)
  {
    assert ([l] + w)[|w|] == w[|w| - 1];
  }

  /** Every header line the scan reads but the last is whole. */
  lemma {:induction false} LinesWhole(env: Env, sc: Scan, p: Option<nat>, recursion: nat)
    requires AtPrefix(sc.ct, p)
    ensures InitWhole(Lines(env, sc, p, recursion))
    decreases Remaining(sc.ct, p)
  {
    if p.Some? {
      match Step(env, sc, p.value, recursion)
      case Stop(_) =>
      case Next(sc1, p1) =>
        LinesWhole(env, sc1, p1, recursion);
        InitWholeCons(ReadLine(sc.ct, p.value), Lines(env, sc1, p1, recursion));
    }
  }

  /** The scan fails exactly when the last header line it reads has no colon or no newline. */
  lemma {:induction false} RunFailsAtLine(env: Env, sc: Scan, p: Option<nat>, recursion: nat)
    requires AtPrefix(sc.ct, p)
    ensures var ls := Lines(env, sc, p, recursion);
      Run(env, sc, p, recursion).0 <==> ls != [] && !LastLine(ls).Line?
    decreases Remaining(sc.ct, p)
  {
    if p.Some? {
      match Step(env, sc, p.value, recursion)
      case Stop(_) =>
      case Next(sc1, p1) =>
        RunFailsAtLine(env, sc1, p1, recursion);
        var w := Lines(env, sc1, p1, recursion);
        if w != [] {
          LastLineCons(ReadLine(sc.ct, p.value), w);
        }
    }
  }

  /** A failed scan reports the error of the last header line it read. */
  lemma {:induction false} RunLineError(env: Env, sc: Scan, p: Option<nat>, recursion: nat)
    requires AtPrefix(sc.ct, p)
    ensures var ls := Lines(env, sc, p, recursion);
      Run(env, sc, p, recursion).0 ==>
        ls != [] && !LastLine(ls).Line? && Run(env, sc, p, recursion).1.st.emsg == LineError(LastLine(ls))
    decreases Remaining(sc.ct, p)
  {
    if p.Some? {
      match Step(env, sc, p.value, recursion)
      case Stop(_) =>
      case Next(sc1, p1) =>
        RunLineError(env, sc1, p1, recursion);
        var w := Lines(env, sc1, p1, recursion);
        if w != [] {
          LastLineCons(ReadLine(sc.ct, p.value), w);
        }
    }
  }

  /**
   * `_load` and its header lines, once a supported version is read: the load
   * fails exactly when the scan reads a header without a colon or a value
   * without a newline, the last error then being `NoHeaderName` or
   * `BadHeaderValue`; a load that answers a count read every line whole.
   */
  lemma LoadHeaderErrors(env: Env, ct: string, recursion: nat, st: WsifState)
    requires Contains(ct, Pfx)
    requires var p := IndexOf(ct, Pfx, 0).value;
      VersionLine(ct[..p]).Some? && Supported(env, VersionLine(ct[..p]).value)
    ensures var p := IndexOf(ct, Pfx, 0).value;
      var ls := Lines(env, Scan(ct, None, NoFields, None, st), Some(p), recursion);
      var (r, st1) := Load(env, Some(ct), recursion, st);
      && ls != [] && InitWhole(ls)
      && (r == Failed <==> !LastLine(ls).Line?)
      && (r == Failed ==> st1.emsg == LineError(LastLine(ls)))
      && (r.Pages? ==> forall i :: 0 <= i < |ls| ==> ls[i].Line?)
  {
    IndexOfFromStart(ct, Pfx);
    var p := IndexOf(ct, Pfx, 0).value;
    var sc := Scan(ct, None, NoFields, None, st);
    LoadRuns(env, ct, recursion, st);
    ConcludeFailed(env, Run(env, sc, Some(p), recursion), recursion);
    LinesWhole(env, sc, Some(p), recursion);
    RunFailsAtLine(env, sc, Some(p), recursion);
    RunLineError(env, sc, Some(p), recursion);
    var ls := Lines(env, sc, Some(p), recursion);
    if !Run(env, sc, Some(p), recursion).0 {
      AllWhole(ls);
    }
  }

  /** Lines whole up to the last, and the last whole too, are all whole. */
  lemma AllWhole(ls: seq<Line>)
    requires ls != [] && InitWhole(ls) && LastLine(ls).Line?
    ensures forall i :: 0 <= i < |ls| ==> ls[i].Line?
  {
  }

  /** Past a supported version line, `_load` is the scan from the first record and its conclusion. */
  lemma LoadRuns(env: Env, ct: string, recursion: nat, st: WsifState)
    requires Contains(ct, Pfx)
    requires var p := IndexOf(ct, Pfx, 0).value;
      VersionLine(ct[..p]).Some? && Supported(env, VersionLine(ct[..p]).value)
    ensures IndexOf(ct, Pfx, 0).Some?
    ensures Load(env, Some(ct), recursion, st)
      == Conclude(env, Run(env, Scan(ct, None, NoFields, None, st), Some(IndexOf(ct, Pfx, 0).value), recursion), recursion)
  {
    IndexOfFromStart(ct, Pfx);
  }

  /** The conclusion fails exactly on a failed scan, keeping the scan's state. */
  lemma ConcludeFailed(env: Env, run: (bool, Scan), recursion: nat)
    ensures var (r, st1) := Conclude(env, run, recursion);
      && (r == Failed <==> run.0)
      && (r == Failed ==> st1 == run.1.st)
      && (r.Pages? <==> !run.0)
  {
  }

  /** A buffer that holds no page record at all is reported as invalid, yet not failed. */
  lemma NoRecordNotFailed(env: Env, ct: string, recursion: nat, st: WsifState)
    requires !Contains(ct, Pfx)
    ensures Load(env, Some(ct), recursion, st) == (Pages(|st.imported|), st.Error(InvalidFile))
  {
    IndexOfFromStart(ct, Pfx);
  }
}
