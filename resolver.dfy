/**
 * `_page_def`: resolving one parsed record into a page. The record's fields
 * are checked, the body is cut out of the buffer between two boundary lines
 * and decoded as its attributes and encoding say, and the page is handed to
 * the create-page hook, whose result is appended to the imported list.
 *
 * The hook, base64, the reading of external files and the nested import of
 * an external WSIF file are calls into code outside the codec; they are the
 * function values of an `Env`.
 */
module Resolver {
  import opened Wrappers
  import opened Text
  import opened Ecma
  import opened Framing
  import opened Pages

  /** The errors (`Error`) and notes (`_log`) the codec reports. */
  datatype Message =
    | NoError
    | InvalidFile
    | NoVersion
    | UnsupportedVersion(version: string)
    | NoHeaderName
    | BadHeaderValue
    | ImportFailure(title: string)
    | UnknownHeader(name: string)
    | NoAttributes(title: string)
    | NoDisposition(title: string)
    | StartBoundaryNotFound(boundary: string, title: string)
    | EndBoundaryNotFound(boundary: string, title: string)
    | EncryptedNotBase64(title: string)
    | ImageNotBase64(title: string)
    | ImageWithoutMime(title: string)
    | UnknownEncoding(title: string, encoding: string)
    | LengthMismatch(title: string, expected: int, actual: nat)
    | NoFilename(title: string)
    | RecursiveImport
    | ExternalNotPlain(title: string)
    | ExternalReadFailed(filename: string)
    | ExternalNotWsif(title: string)
    | NestedImportFailed(filename: string, inner: Message)
    | InvalidDisposition(title: string, disposition: string)

  /**
   * What the codec object holds: the results of the hook for every page
   * defined so far, the last error, and every message reported.
   */
  datatype WsifState = WsifState(imported: seq<int>, emsg: Message, log: seq<Message>)
  {
    /** `Error`: the message becomes the last error and is reported. */
    function Error(m: Message): WsifState {
      this.(emsg := m, log := log + [m])
    }

    /** `_log`: the message is only reported. */
    function Note(m: Message): WsifState {
      this.(log := log + [m])
    }
  }

  /** The outcome of a nested `_load` of an external WSIF file. */
  datatype Nested =
    | NestedFailed(added: seq<int>, reported: Option<Message>)
    | NestedLoaded(added: seq<int>)

  datatype Env = Env(
    hook: (string, string, int, int) -> int,
    b64encode: string -> string,
    b64decode: string -> string,
    readFile: string -> Option<string>,
    importNested: (string, nat) -> Nested,
    natCmp: (string, string) -> int)

  /** The header values of one record, `null` where a header was absent. */
  datatype Fields = Fields(
    attrs: Option<int>,
    lastMod: Option<int>,
    len: Option<int>,
    encoding: Option<string>,
    disposition: Option<string>,
    filename: Option<string>,
    boundary: Option<string>,
    mime: Option<string>)

  const NoFields := Fields(None, None, None, None, None, None, None, None)

  /** What `_page_def` returns: `false`, `true`, or the page count of a nested import. */
  datatype Rv = False | True | Count(n: nat)
  {
    /** PHP truthiness of the returned value. */
    predicate Truthy() {
      True? || (Count? && n != 0)
    }
  }

  const Base64Encoding := "8bit/base64"
  const EcmaEncoding := "ecma/plain"
  const PlainEncoding := "8bit/plain"
  const WsifEncoding := "text/wsif"

  /**
   * How an inline body is turned back into page content. Encrypted pages must
   * be base64 and are decoded; images must be base64 with a mime type and get
   * their data URI back; other pages are decoded by their encoding, except
   * that embedded files stay in base64.
   */
  function DecodeBody(env: Env, title: string, attrs: int, f: Fields, raw: string): Result<string, Message> {
    if HasBit(attrs, Encrypted) then
      if f.encoding != Some(Base64Encoding) then Err(EncryptedNotBase64(title))
      else Ok(env.b64decode(raw))
    else if HasBit(attrs, EmbImage) then
      // the message names the constant `title`, not the page
      if f.encoding != Some(Base64Encoding) then Err(ImageNotBase64("title"))
      else if f.mime.None? then Err(ImageWithoutMime(title))
      else Ok("data:" + f.mime.value + ";base64," + raw)
    else if f.encoding == Some(Base64Encoding) then
      Ok(if HasBit(attrs, EmbFile) then raw else env.b64decode(raw))
    else if f.encoding == Some(EcmaEncoding) then Ok(EcmaDecode(raw))
    else if f.encoding == Some(PlainEncoding) then Ok(raw)
    else Err(UnknownEncoding(title, f.encoding.GetOr("")))
  }

  /** The hook defines the page; any result but -1 is appended to the imported list. */
  function Define(env: Env, title: string, page: string, attrs: int, lastMod: int, st: WsifState): (Rv, WsifState) {
    var id := env.hook(title, page, attrs, lastMod);
    if id != -1 then (True, st.(imported := st.imported + [id])) else (False, st)
  }

  /** The length header is compared with the raw body and a mismatch only noted. */
  function CheckLength(title: string, len: Option<int>, actual: nat, st: WsifState): WsifState {
    if len.Some? && len.value != actual then st.Note(LengthMismatch(title, len.value, actual)) else st
  }

  /** The content of an external embedded file, as the page hook receives it. */
  function ExternalContent(env: Env, attrs: int, mime: Option<string>, data: string): string {
    if HasBit(attrs, EmbFile) && HasBit(attrs, EmbImage) then
      "data:" + mime.GetOr("") + ";base64," + env.b64encode(data)
    else if HasBit(attrs, EmbFile) then env.b64encode(data)
    else data
  }

  /** An external page, from the filename check on. */
  function ExternalPage(env: Env, title: string, attrs: int, lastMod: int, f: Fields, recursion: nat, st: WsifState): (Rv, WsifState) {
    if f.filename.None? then (False, st.Error(NoFilename(title)))
    else if recursion > 1 then (False, st.Error(RecursiveImport))
    else if HasBit(attrs, EmbFile) || HasBit(attrs, EmbImage) then
      if f.encoding != Some(PlainEncoding) then (False, st.Error(ExternalNotPlain(title)))
      else match env.readFile(f.filename.value)
        case None => (False, st.Error(ExternalReadFailed(f.filename.value)))
        case Some(data) =>
          Define(env, title, ExternalContent(env, attrs, f.mime, data), attrs, lastMod, st)
    else if f.encoding != Some(WsifEncoding) then (False, st.Error(ExternalNotWsif(title)))
    else match env.importNested(f.filename.value, recursion + 1)
      case NestedFailed(added, reported) =>
        var st1 := st.(imported := st.imported + added);
        (False, st1.Error(NestedImportFailed(f.filename.value, reported.GetOr(st.emsg))))
      case NestedLoaded(added) =>
        var st1 := st.(imported := st.imported + added);
        (Count(|st1.imported|), st1)
  }

  /** An inline page, from the boundary search on. */
  function InlinePage(env: Env, ct: string, from: nat, title: string, attrs: int, lastMod: int, f: Fields, st: WsifState): (Rv, WsifState) {
    var b := f.boundary.GetOr("");
    match ExtractInline(ct, from, b)
    case Err(StartBoundaryMissing) => (False, st.Error(StartBoundaryNotFound(b, title)))
    case Err(EndBoundaryMissing) => (False, st.Error(EndBoundaryNotFound(b, title)))
    case Ok(raw) => InlineBody(env, title, attrs, lastMod, f, raw, st)
  }

  /** An inline body found: decoded, its length checked, and the page defined. */
  function InlineBody(env: Env, title: string, attrs: int, lastMod: int, f: Fields, raw: string, st: WsifState): (Rv, WsifState) {
    match DecodeBody(env, title, attrs, f, raw)
    case Err(m) => (False, st.Note(m))
    case Ok(page) => Define(env, title, page, attrs, lastMod, CheckLength(title, f.len, |raw|, st))
  }

  /**
   * `_page_def`: the record is searched for its inline body from offset
   * `from`, the end of its last header line other than the title.
   */
  function PageDef(env: Env, ct: string, from: nat, title: string, f: Fields, recursion: nat, st: WsifState): (Rv, WsifState) {
    if f.attrs.None? then (False, st.Note(NoAttributes(title)))
    else if f.disposition.None? then (False, st.Note(NoDisposition(title)))
    else
      var attrs, lastMod := f.attrs.value, f.lastMod.GetOr(0);
      if f.disposition.value == "inline" then InlinePage(env, ct, from, title, attrs, lastMod, f, st)
      else if f.disposition.value == "external" then ExternalPage(env, title, attrs, lastMod, f, recursion, st)
      else (False, st.Error(InvalidDisposition(title, f.disposition.value)))
  }

  // ---------------------------------------------------------------------------
  // Properties of `_page_def`

  /** A record resolved through a nested import of an external WSIF file. */
  predicate IsNestedImport(f: Fields) {
    && f.attrs.Some? && f.disposition == Some("external") && f.filename.Some?
    && !HasBit(f.attrs.value, EmbFile) && !HasBit(f.attrs.value, EmbImage)
    && f.encoding == Some(WsifEncoding)
  }

  /**
   * The imported list only grows. A page that is defined adds exactly the
   * hook's result, which is not -1; a rejected page adds nothing unless a
   * nested import added pages first; a nested import reports the new count.
   */
  lemma PageDefImported(env: Env, ct: string, from: nat, title: string, f: Fields, recursion: nat, st: WsifState)
    ensures var (rv, st1) := PageDef(env, ct, from, title, f, recursion, st);
      && |st.imported| <= |st1.imported| && st1.imported[..|st.imported|] == st.imported
      && (rv.True? ==> |st1.imported| == |st.imported| + 1 && st1.imported[|st.imported|] != -1)
      && (rv.False? && !IsNestedImport(f) ==> st1.imported == st.imported)
      && (rv.Count? ==> rv.n == |st1.imported| && IsNestedImport(f))
  {
    var (rv, st1) := PageDef(env, ct, from, title, f, recursion, st);
    assert st1.imported[..|st.imported|] == st.imported;
  }

  /** Records without attributes or a disposition are rejected with a note only. */
  lemma MissingFieldRejected(env: Env, ct: string, from: nat, title: string, f: Fields, recursion: nat, st: WsifState)
    requires f.attrs.None? || f.disposition.None?
    ensures var (rv, st1) := PageDef(env, ct, from, title, f, recursion, st);
      rv == False && st1.imported == st.imported && st1.emsg == st.emsg && |st1.log| == |st.log| + 1
  {
  }

  /** A disposition other than `inline` and `external` is an error. */
  lemma UnknownDispositionRejected(env: Env, ct: string, from: nat, title: string, f: Fields, recursion: nat, st: WsifState)
    requires f.attrs.Some? && f.disposition.Some?
    requires f.disposition.value != "inline" && f.disposition.value != "external"
    ensures PageDef(env, ct, from, title, f, recursion, st) ==
      (False, st.Error(InvalidDisposition(title, f.disposition.value)))
  {
  }

  /**
   * The `length` header never decides anything: with or without it, the
   * result, the imported pages and the last error are the same.
   */
  lemma LengthOnlyNoted(env: Env, ct: string, from: nat, title: string, f: Fields, recursion: nat, st: WsifState, len: int)
    ensures var (rv0, st0) := PageDef(env, ct, from, title, f.(len := None), recursion, st);
      var (rv1, st1) := PageDef(env, ct, from, title, f.(len := Some(len)), recursion, st);
      rv0 == rv1 && st0.imported == st1.imported && st0.emsg == st1.emsg
  {
    var f0, f1 := f.(len := None), f.(len := Some(len));
    if f.attrs.Some? && f.disposition == Some("inline") {
      var b := f.boundary.GetOr("");
      match ExtractInline(ct, from, b)
      case Err(_) =>
      case Ok(raw) =>
        assert DecodeBody(env, title, f.attrs.value, f0, raw) == DecodeBody(env, title, f.attrs.value, f1, raw);
    }
  }

  /**
   * An inline record whose body is framed by its boundary right after `from`
   * defines the page with the decoded body, exactly when the body decodes
   * and the hook does not report failure.
   */
  lemma InlinePageDefined(env: Env, pre: string, b: string, c: string, post: string,
                          title: string, f: Fields, recursion: nat, st: WsifState)
    requires forall j :: 0 <= j < |b| ==> b[j] != '\n'
    requires !Contains(c, b)
    requires f.attrs.Some? && f.disposition == Some("inline") && f.boundary == Some(b)
    ensures var (rv, st1) := PageDef(env, pre + Inline(b, c) + post, |pre|, title, f, recursion, st);
      var body := DecodeBody(env, title, f.attrs.value, f, c);
      && (rv.True? <==> body.Ok? && env.hook(title, body.value, f.attrs.value, f.lastMod.GetOr(0)) != -1)
      && (rv.True? ==> st1.imported == st.imported + [env.hook(title, body.value, f.attrs.value, f.lastMod.GetOr(0))])
      && (body.Err? ==> st1 == st.Note(body.error))
  {
    InlineRoundTrip(pre, b, c, post);
  }
}
