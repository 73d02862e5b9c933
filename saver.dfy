/**
 * The page records `Save` writes: for each page the choice of encoding and
 * disposition, the header lines in their order, and the inline body framed
 * by a boundary absent from it, or a blob file for an external page.
 * `Libwsif.Wsif.Save` is the loop that is proved to follow these functions.
 */
module Saver {
  import opened Wrappers
  import opened Text
  import opened Utf8
  import opened Ecma
  import opened EcmaRoundTrip
  import opened Framing
  import opened Pages
  import opened Resolver
  import opened Loader

  /** `LIBWSIF_VERSION`, written as the generator version. */
  const LibwsifVersion := "1.3.3"

  /** The header prefix of the page records written (no page index). */
  const RecordPfx := "woas.page."

  // ---------------------------------------------------------------------------
  // The data URI of an image: /data:\s*([^;]*);\s*base64,\s*/A

  /** A match of the data URI prefix: the mime type and the length matched. */
  datatype DataUri = DataUri(mime: string, len: nat)

  /**
   * The data URI prefix anchored at the start of `s`: `data:`, blanks, the
   * mime type up to the first `;`, blanks, `base64,` and blanks.
   */
  function MatchDataUri(s: string): (r: Option<DataUri>)
    ensures r.Some? ==> r.value.len <= |s| && OccursAt(s, "data:", 0)
  {
    if !OccursAt(s, "data:", 0) then None
    else
      var a := 5 + SpaceRun(s[5..]);
      match IndexOf(s, ";", a)
      case None => None
      case Some(semi) => MatchBase64(s, a, semi)
  }

  /**
   * The rest of the data URI prefix once the mime type runs from `a` to the
   * `;` at `semi`: blanks, `base64,` and blanks.
   */
  function MatchBase64(s: string, a: nat, semi: nat): (r: Option<DataUri>)
    requires a <= semi < |s|
    ensures r.Some? ==> r.value.len <= |s| && r.value.mime == s[a..semi]
  {
    var b := semi + 1 + SpaceRun(s[semi + 1..]);
    if !OccursAt(s, "base64,", b) then None
    else Some(DataUri(s[a..semi], b + 7 + SpaceRun(s[b + 7..])))
  }

  /**
   * The mime type and the data after the prefix; without a match the mime
   * type reads as empty and nothing is removed.
   */
  function SplitDataUri(s: string): (string, string) {
    match MatchDataUri(s)
    case None => ("", s)
    case Some(d) => (d.mime, s[d.len..])
  }

  /** The data URI `_page_def` rebuilds for an image. */
  function DataUriOf(mime: string, data: string): string {
    "data:" + mime + ";base64," + data
  }

  /** A data URI written without blanks is split into exactly its mime type and data. */
  lemma SplitDataUriOf(mime: string, data: string)
    requires forall j :: 0 <= j < |mime| ==> mime[j] != ';'
    requires mime != [] ==> !IsRegexSpace(mime[0])
    requires data != [] ==> !IsRegexSpace(data[0])
    ensures SplitDataUri(DataUriOf(mime, data)) == (mime, data)
  {
    var s := DataUriOf(mime, data);
    var m := |mime|;
    DataUriLayout(mime, data);
    assert OccursAt(s, "data:", 0);
    var a := 5 + SpaceRun(s[5..]);
    assert a == 5 by {
      assert s[5..][0] == s[5];
    }
    SemicolonAfterMime(mime, data);
    Base64AfterMime(mime, data);
  }

  /** After the `;` of a data URI written without blanks come `base64,` and the data. */
  lemma Base64AfterMime(mime: string, data: string)
    requires data != [] ==> !IsRegexSpace(data[0])
    ensures MatchBase64(DataUriOf(mime, data), 5, 5 + |mime|) == Some(DataUri(mime, |mime| + 13))
  {
    var s := DataUriOf(mime, data);
    var m := |mime|;
    DataUriLayout(mime, data);
    var b := 5 + m + 1 + SpaceRun(s[5 + m + 1..]);
    assert b == m + 6 by {
      assert s[5 + m + 1..][0] == s[m + 6];
    }
    assert OccursAt(s, "base64,", b);
    assert b + 7 + SpaceRun(s[b + 7..]) == m + 13;
  }

  /** The first `;` of a data URI is the one after its mime type. */
  lemma SemicolonAfterMime(mime: string, data: string)
    requires forall j :: 0 <= j < |mime| ==> mime[j] != ';'
    ensures IndexOf(DataUriOf(mime, data), ";", 5) == Some(5 + |mime|)
  {
    var s := DataUriOf(mime, data);
    var m := |mime|;
    DataUriLayout(mime, data);
    forall i: nat | 5 <= i < 5 + m
      ensures !OccursAt(s, ";", i)
    {
      assert s[i..i + 1][0] == s[i];
    }
    assert s[5 + m..5 + m + 1] == [s[5 + m]];
    IndexOfIs(s, ";", 5, 5 + m);
  }

  /** Where the parts of a data URI stand. */
  lemma DataUriLayout(mime: string, data: string)
    ensures var s, m := DataUriOf(mime, data), |mime|;
      && |s| == m + 13 + |data|
      && s[..5] == "data:" && s[5..5 + m] == mime && s[5 + m] == ';'
      && s[m + 6] == 'b' && s[m + 6..m + 13] == "base64," && s[m + 13..] == data
      && (forall j :: 5 <= j < 5 + m ==> s[j] == mime[j - 5])
      && (m > 0 ==> s[5] == mime[0])
      && (m == 0 ==> s[5] == ';')
  {
    var s := DataUriOf(mime, data);
    assert s == ("data:" + mime) + (";base64," + data);
  }

  // ---------------------------------------------------------------------------
  // Encoding and disposition of a page

  /**
   * How a page is written: the encoding and disposition headers, the body
   * that is framed or exported, the `original_length` of an encrypted page
   * and the mime type of an image.
   */
  datatype Plan = Plan(encoding: string, disposition: string, body: string, origLen: Option<nat>, mime: Option<string>)

  /**
   * Encrypted pages go inline in base64; embedded files and images go out as
   * decoded blobs unless `inline` asks for them inline in base64, an image
   * without its data URI prefix and with its mime type; other pages go inline,
   * ECMA-encoded exactly when they hold multi-byte UTF-8.
   */
  function PlanPage(env: Env, page: Page, inline: bool): Plan {
    if page.IsEncrypted() then
      Plan(Base64Encoding, "inline", env.b64encode(page.content), Some(|page.content|), None)
    else if page.IsEmbedded() then
      var (mime, data) := if page.IsImage() then SplitDataUri(page.content) else ("", page.content);
      var m := if page.IsImage() then Some(mime) else None;
      if !inline then Plan(PlainEncoding, "external", env.b64decode(data), None, m)
      else Plan(Base64Encoding, "inline", data, None, m)
    else if NeedsEcmaEncoding(page.content) then
      Plan(EcmaEncoding, "inline", EcmaEncode(page.content), None, None)
    else Plan(PlainEncoding, "inline", page.content, None, None)
  }

  // ---------------------------------------------------------------------------
  // The page record

  /**
   * The header lines every record starts with: title, attributes, the
   * timestamp unless it is zero or merging is loose, the mime type of an
   * image, the length unless merging is loose, encoding and disposition.
   */
  function RecordHead(page: Page, plan: Plan, loose: bool): string {
    Header(RecordPfx + "title", EcmaEncode(page.title))
    + Header(RecordPfx + "attributes", IntToString(page.attributes))
    + LastModifiedHeader(page, loose)
    + MimeHeader(plan)
    + LengthHeader(plan, loose)
    + Header(RecordPfx + "encoding", plan.encoding)
    + Header(RecordPfx + "disposition", plan.disposition)
  }

  /** The timestamp header, left out when it is zero or merging is loose. */
  function LastModifiedHeader(page: Page, loose: bool): string {
    if !loose && page.lastModified != 0 then Header(RecordPfx + "last_modified", IntToString(page.lastModified)) else ""
  }

  /** The mime type header of an image. */
  function MimeHeader(plan: Plan): string {
    if plan.mime.Some? then Header(RecordPfx + "mime", plan.mime.value) else ""
  }

  /** The length header, left out when merging is loose. */
  function LengthHeader(plan: Plan, loose: bool): string {
    if !loose then Header(RecordPfx + "length", NatToString(|plan.body|)) else ""
  }

  /** The end of an inline record: the original length, the boundary and the framed body. */
  function InlineTail(plan: Plan, b: string): string {
    OriginalLengthHeader(plan) + Header(RecordPfx + "boundary", b) + Inline(b, plan.body)
  }

  /** The length of an encrypted page before base64 encoding. */
  function OriginalLengthHeader(plan: Plan): string {
    if plan.origLen.Some? then Header(RecordPfx + "original_length", NatToString(plan.origLen.value)) else ""
  }

  /** The end of an external record: the blob's file name and a blank line. */
  function ExternalTail(blob: string): string {
    Header(RecordPfx + "disposition.filename", blob) + "\n"
  }

  /** The `n`-th blob is named after the counter and the extension of the title. */
  function BlobName(n: nat, title: string): string {
    "blob" + NatToString(n) + FileExt(title)
  }

  /**
   * The header fields a load gathers from the record of `page`, written with
   * boundary `b` (none for an external page) and blob name `blob`.
   */
  function RecordFields(page: Page, plan: Plan, loose: bool, b: string, blob: string): Fields {
    Fields(
      Some(page.attributes),
      if !loose && page.lastModified != 0 then Some(page.lastModified) else None,
      if !loose then Some(|plan.body|) else None,
      Some(plan.encoding),
      Some(plan.disposition),
      if plan.disposition == "external" then Some(blob) else None,
      if plan.disposition == "inline" then Some(b) else None,
      plan.mime)
  }

  // ---------------------------------------------------------------------------
  // The loop over the pages

  /** An exported blob: its file name and its content. */
  datatype Blob = Blob(name: string, content: string)

  /**
   * Where `Save` stands between two pages: the records so far, the pages
   * done, the boundary of the last inline page, the blob counter, the blobs
   * exported and the random draws not used yet.
   */
  datatype Saving = Saving(full: string, done: nat, boundary: string, blobCounter: nat, blobs: seq<Blob>, draws: seq<Draw>)

  /**
   * The record of one page appended; `None` when the draws run out before a
   * boundary absent from the body is found.
   */
  function SavePage(env: Env, page: Page, inline: bool, loose: bool, s: Saving): Option<Saving> {
    var plan := PlanPage(env, page, inline);
    var head := RecordHead(page, plan, loose);
    if plan.disposition == "inline" then SaveInline(plan, head, s)
    else Some(SaveExternal(page, plan, head, s))
  }

  /** An inline record: its boundary drawn, the framed body appended after its headers. */
  function SaveInline(plan: Plan, head: string, s: Saving): Option<Saving> {
    match BoundaryFrom(s.boundary, plan.body, s.draws)
    case None => None
    case Some((b, used)) =>
      Some(s.(full := s.full + (head + InlineTail(plan, b)), done := s.done + 1,
              boundary := b, draws := s.draws[used..]))
  }

  /** An external record: the next blob named and exported, its file name appended. */
  function SaveExternal(page: Page, plan: Plan, head: string, s: Saving): Saving {
    var n := s.blobCounter + 1;
    var name := BlobName(n, page.title);
    s.(full := s.full + (head + ExternalTail(name)), done := s.done + 1,
       blobCounter := n, blobs := s.blobs + [Blob(name, plan.body)])
  }

  /** The records of `pages`, one after the other. */
  function SavePages(env: Env, pages: seq<Page>, inline: bool, loose: bool, s: Saving): Option<Saving>
    decreases |pages|
  {
    if pages == [] then Some(s)
    else
      match SavePage(env, pages[0], inline, loose, s)
      case None => None
      case Some(s1) => SavePages(env, pages[1..], inline, loose, s1)
  }

  /** The records of `pages[i..]`: the record of `pages[i]`, then those of the rest. */
  lemma SavePagesStep(env: Env, pages: seq<Page>, i: nat, inline: bool, loose: bool, s: Saving, next: Option<Saving>)
    requires i < |pages| && next == SavePage(env, pages[i], inline, loose, s)
    ensures SavePages(env, pages[i..], inline, loose, s)
      == if next.None? then None else SavePages(env, pages[i + 1..], inline, loose, next.value)
  {
    assert pages[i..][0] == pages[i] && pages[i..][1..] == pages[i + 1..];
  }

  /** The author header, written only for a non-empty author. */
  function AuthorHeader(author: string): string {
    if |author| > 0 then Header("woas.author", author) else ""
  }

  /** The page count header, written unless merging is loose. */
  function CountHeader(loose: bool, done: nat): string {
    if !loose then Header("woas.pages", NatToString(done)) else ""
  }

  /** The two generator headers. */
  function GeneratorHeaders(): string {
    Header("wsif.generator", "libwsif") + Header("wsif.generator.version", LibwsifVersion)
  }

  /** The extra headers of the index file, with the page count unless merging is loose. */
  function ExtraHeaders(author: string, loose: bool, done: nat): string {
    Header("wsif.version", WsifVersion) + GeneratorHeaders() + AuthorHeader(author) + CountHeader(loose, done)
  }

  /**
   * The extra headers as the source assembles them: the version header is
   * overwritten by the generator header, and the author header carries the
   * bare word `author`.
   */
  function ExtraHeadersAsWritten(author: string, loose: bool, done: nat): string {
    GeneratorHeaders() + AuthorHeader(if |author| > 0 then "author" else "") + CountHeader(loose, done)
  }

  /** What `Save` leaves: the count it returns, the index file and the blobs. */
  datatype Saved = Saved(done: nat, index: string, blobs: seq<Blob>)

  /**
   * `Save` into a single WSIF file: every record goes into the index file
   * after the extra headers and a blank line. The count drops to zero when
   * the index file cannot be written (`indexSaved`).
   */
  function Save(env: Env, pages: seq<Page>, inline: bool, loose: bool, author: string,
                boundary: string, draws: seq<Draw>, indexSaved: bool): Option<Saved> {
    match SavePages(env, pages, inline, loose, Saving("", 0, boundary, 0, [], draws))
    case None => None
    case Some(s) =>
      Some(Saved(if indexSaved then s.done else 0, ExtraHeaders(author, loose, s.done) + "\n" + s.full, s.blobs))
  }

  // ---------------------------------------------------------------------------
  // Properties of the plan

  /**
   * Every page gets one of the three encodings, so the loop's skip of a page
   * whose encoding is still null is never taken; only embedded pages that are
   * neither encrypted nor forced inline go out as blobs.
   */
  lemma EncodingNeverNull(env: Env, page: Page, inline: bool)
    ensures var plan := PlanPage(env, page, inline);
      && (plan.encoding == Base64Encoding || plan.encoding == PlainEncoding || plan.encoding == EcmaEncoding)
      && (plan.disposition == "external" <==> !inline && page.IsEmbedded() && !page.IsEncrypted())
      && (plan.disposition != "external" ==> plan.disposition == "inline")
  {
  }

  /**
   * A page that is neither encrypted nor embedded is written inline, ECMA
   * encoded exactly when it holds multi-byte UTF-8 and unchanged otherwise.
   */
  lemma PlainPageEncoding(env: Env, page: Page, inline: bool)
    requires !page.IsEncrypted() && !page.IsEmbedded()
    ensures var plan := PlanPage(env, page, inline);
      && plan.disposition == "inline" && plan.origLen.None? && plan.mime.None?
      && (plan.encoding == EcmaEncoding <==> NeedsEcmaEncoding(page.content))
      && (plan.encoding == PlainEncoding <==> !NeedsEcmaEncoding(page.content))
      && (plan.encoding == PlainEncoding ==> plan.body == page.content)
  {
  }

  /**
   * An encrypted page is written inline in base64 whatever its other flags,
   * with the length of the content before encoding as `original_length`.
   */
  lemma EncryptedPlan(env: Env, page: Page, inline: bool)
    requires page.IsEncrypted()
    ensures var plan := PlanPage(env, page, inline);
      && plan.encoding == Base64Encoding && plan.disposition == "inline"
      && plan.origLen == Some(|page.content|) && plan.body == env.b64encode(page.content)
  {
  }

  /** `s` is a data URI written without blanks around its parts. */
  predicate CanonicalDataUri(s: string) {
    var (mime, data) := SplitDataUri(s);
    s == DataUriOf(mime, data)
  }

  /**
   * What reading a page back needs: base64 that decodes its own encoding of
   * an encrypted page, images that are embedded files with a canonical data
   * URI, and wiki text the ECMA codec round-trips when it is encoded.
   */
  predicate ReadsBack(env: Env, page: Page) {
    && (page.IsEncrypted() ==> env.b64decode(env.b64encode(page.content)) == page.content)
    && (!page.IsEncrypted() && page.IsImage() ==> page.IsEmbedded() && CanonicalDataUri(page.content))
    && (!page.IsEncrypted() && !page.IsEmbedded() && NeedsEcmaEncoding(page.content) ==>
          NoFourByteLead(page.content) && NoLiteralEscape(page.content))
  }

  /** The fields of an inline record decode its body back into the page's content. */
  lemma InlineBodyReadsBack(env: Env, page: Page, inline: bool, loose: bool, b: string, title: string)
    requires PlanPage(env, page, inline).disposition == "inline"
    requires ReadsBack(env, page)
    ensures var plan := PlanPage(env, page, inline);
      DecodeBody(env, title, page.attributes, RecordFields(page, plan, loose, b, ""), plan.body) == Ok(page.content)
  {
    if !page.IsEncrypted() && !page.IsEmbedded() && NeedsEcmaEncoding(page.content) {
      EcmaRoundTrip.EcmaRoundTrip(page.content);
    }
  }

  /** A string that occurs nowhere at `i` is found from `i + 1` as from `i`. */
  lemma IndexOfPast(hay: string, needle: string, i: nat)
    requires !OccursAt(hay, needle, i)
    ensures IndexOf(hay, needle, i) == IndexOf(hay, needle, i + 1)
  {
    var r := IndexOf(hay, needle, i + 1);
    if r.Some? {
      IndexOfIs(hay, needle, i, r.value);
    }
  }

  /**
   * An inline record read back: with its body framed right after the newline
   * of its last header, `_page_def` hands the page's own content to the hook,
   * with its timestamp unless merging was loose, and notes nothing.
   */
  lemma InlineRecordDefinesPage(env: Env, page: Page, inline: bool, loose: bool, b: string,
                                pre: string, post: string, title: string, recursion: nat, st: WsifState)
    requires PlanPage(env, page, inline).disposition == "inline"
    requires ReadsBack(env, page)
    requires forall j :: 0 <= j < |b| ==> b[j] != '\n'
    requires !Contains(PlanPage(env, page, inline).body, b)
    requires |pre| > 0 && pre[|pre| - 1] == '\n'
    ensures var plan := PlanPage(env, page, inline);
      PageDef(env, pre + Inline(b, plan.body) + post, |pre| - 1, title, RecordFields(page, plan, loose, b, ""), recursion, st)
        == Define(env, title, page.content, page.attributes, if loose then 0 else page.lastModified, st)
  {
    var plan := PlanPage(env, page, inline);
    var f := RecordFields(page, plan, loose, b, "");
    ExtractAfterHeader(pre, b, plan.body, post);
    InlineBodyReadsBack(env, page, inline, loose, b, title);
    InlineDefined(env, pre + Inline(b, plan.body) + post, |pre| - 1, title, f, plan.body, page.content, recursion, st);
  }

  /** The body framed right after a header's newline is found from that newline. */
  lemma ExtractAfterHeader(pre: string, b: string, c: string, post: string)
    requires forall j :: 0 <= j < |b| ==> b[j] != '\n'
    requires !Contains(c, b)
    requires |pre| > 0 && pre[|pre| - 1] == '\n'
    ensures ExtractInline(pre + Inline(b, c) + post, |pre| - 1, b) == Ok(c)
  {
    var ct := pre + Inline(b, c) + post;
    assert ct == pre + (Inline(b, c) + post);
    assert ct[|pre|] == Inline(b, c)[0] == '\n';
    NotBeforeNewline(ct, Delimiter(b), |pre| - 1);
    ExtractPast(ct, |pre| - 1, b);
    InlineRoundTrip(pre, b, c, post);
  }

  /** The delimiter, whose second character is `-`, does not start just before a newline. */
  lemma NotBeforeNewline(ct: string, d: string, i: nat)
    requires i + 1 < |ct| && ct[i + 1] == '\n'
    requires |d| >= 2 && d[1] == '-'
    ensures !OccursAt(ct, d, i)
  {
  }

  /** The search for an inline body may start past an offset where no delimiter starts. */
  lemma ExtractPast(ct: string, from: nat, b: string)
    requires !OccursAt(ct, Delimiter(b), from)
    ensures ExtractInline(ct, from, b) == ExtractInline(ct, from + 1, b)
  {
    IndexOfPast(ct, Delimiter(b), from);
  }

  /** An inline record whose body is found and decodes, with a matching length, is defined. */
  lemma InlineDefined(env: Env, ct: string, from: nat, title: string, f: Fields, c: string, content: string,
                      recursion: nat, st: WsifState)
    requires f.attrs.Some? && f.disposition == Some("inline") && f.boundary.Some?
    requires ExtractInline(ct, from, f.boundary.value) == Ok(c)
    requires DecodeBody(env, title, f.attrs.value, f, c) == Ok(content)
    requires f.len.None? || f.len == Some(|c|)
    ensures PageDef(env, ct, from, title, f, recursion, st) == Define(env, title, content, f.attrs.value, f.lastMod.GetOr(0), st)
  {
  }

  /**
   * An external record read back: when the blob file holds what was exported
   * and base64 re-encodes what it decoded, `_page_def` hands the page's own
   * content to the hook.
   */
  lemma ExternalRecordDefinesPage(env: Env, page: Page, loose: bool, blob: string,
                                  ct: string, from: nat, title: string, recursion: nat, st: WsifState)
    requires PlanPage(env, page, false).disposition == "external"
    requires ReadsBack(env, page)
    requires recursion <= 1
    requires env.readFile(blob) == Some(PlanPage(env, page, false).body)
    requires var data := if page.IsImage() then SplitDataUri(page.content).1 else page.content;
      env.b64encode(env.b64decode(data)) == data
    ensures var plan := PlanPage(env, page, false);
      PageDef(env, ct, from, title, RecordFields(page, plan, loose, "", blob), recursion, st)
        == Define(env, title, page.content, page.attributes, if loose then 0 else page.lastModified, st)
  {
  }

  // ---------------------------------------------------------------------------
  // Properties of the loop

  /**
   * Each page adds one to the count and appends to the records and blobs
   * already written; an external page adds one blob and advances the counter.
   */
  lemma {:induction false} SavePagesGrow(env: Env, pages: seq<Page>, inline: bool, loose: bool, s: Saving)
    ensures var r := SavePages(env, pages, inline, loose, s);
      r.Some? ==>
        && r.value.done == s.done + |pages|
        && s.full <= r.value.full && s.blobs <= r.value.blobs
        && |r.value.blobs| - |s.blobs| == r.value.blobCounter - s.blobCounter
    decreases |pages|
  {
    if pages != [] {
      var s1 := SavePage(env, pages[0], inline, loose, s);
      SavePageGrows(env, pages[0], inline, loose, s);
      if s1.Some? {
        SavePagesGrow(env, pages[1..], inline, loose, s1.value);
      }
    }
  }

  /** One page adds one to the count and appends to the records, and to the blobs when external. */
  lemma SavePageGrows(env: Env, page: Page, inline: bool, loose: bool, s: Saving)
    ensures var r := SavePage(env, page, inline, loose, s);
      r.Some? ==>
        && r.value.done == s.done + 1
        && s.full <= r.value.full && s.blobs <= r.value.blobs
        && |r.value.blobs| - |s.blobs| == r.value.blobCounter - s.blobCounter
  {
  }

  /**
   * A single-file save counts every page: no page is skipped, and the count
   * is zero only when the index file could not be written.
   */
  lemma SaveCountsEveryPage(env: Env, pages: seq<Page>, inline: bool, loose: bool, author: string,
                            boundary: string, draws: seq<Draw>, indexSaved: bool)
    ensures var r := Save(env, pages, inline, loose, author, boundary, draws, indexSaved);
      r.Some? ==> r.value.done == (if indexSaved then |pages| else 0)
  {
    SavePagesGrow(env, pages, inline, loose, Saving("", 0, boundary, 0, [], draws));
  }

  /**
   * The boundary of an inline record does not occur in its body, and a
   * boundary carried over from the previous page is kept, with no draw
   * used, when it does not occur in the body either.
   */
  lemma SavedBoundaryAbsent(env: Env, page: Page, inline: bool, loose: bool, s: Saving)
    requires PlanPage(env, page, inline).disposition == "inline"
    requires SavePage(env, page, inline, loose, s).Some?
    ensures var body, s1 := PlanPage(env, page, inline).body, SavePage(env, page, inline, loose, s).value;
      && !Contains(body, s1.boundary)
      && (|s.boundary| > 0 && !Contains(body, s.boundary) ==> s1.boundary == s.boundary && s1.draws == s.draws)
  {
  }

  // ---------------------------------------------------------------------------
  // The version header of the index file

  /** A version line found in the first `n` characters is a version line of the whole. */
  lemma VersionLineOfPrefix(s: string, n: nat)
    requires n <= |s| && VersionLine(s).None?
    ensures VersionLine(s[..n]).None?
  {
    var t := s[..n];
    VersionFromNone(s, 0);
    forall k: nat | VersionAt(t, k)
      ensures VersionAt(s, k)
    {
      assert t[k..k + |VersionKey|] == s[k..k + |VersionKey|];
    }
    VersionFromNone(t, 0);
  }

  /** No version line starts in `[i, j)`: the search may start at `j`. */
  lemma {:induction false} VersionFromPast(s: string, i: nat, j: nat)
    requires i <= j <= |s|
    requires forall k: nat :: i <= k < j ==> !VersionAt(s, k)
    ensures VersionFrom(s, i) == VersionFrom(s, j)
    decreases j - i
  {
    if i < j {
      VersionFromPast(s, i + 1, j);
    }
  }

  /** Line ends from offset `n` on are those of `s[n..]`, moved by `n`. */
  lemma {:induction false} LineEndShift(s: string, n: nat, k: nat)
    requires n + k <= |s|
    ensures LineEnd(s, n + k) == n + LineEnd(s[n..], k)
    decreases |s| - n - k
  {
    if n + k < |s| {
      assert s[n..][k] == s[n + k];
      if s[n + k] != '\n' {
        LineEndShift(s, n, k + 1);
      }
    }
  }

  /** After a newline at `n - 1`, the version lines are those of `s[n..]`. */
  lemma {:induction false} VersionFromShift(s: string, n: nat, k: nat)
    requires 0 < n <= |s| && s[n - 1] == '\n'
    ensures VersionFrom(s, n + k) == VersionFrom(s[n..], k)
    decreases |s| - n - k
  {
    if n + k <= |s| {
      VersionAtShift(s, n, k);
      if VersionAt(s[n..], k) {
        VersionValueShift(s, n, k);
      } else {
        VersionFromShift(s, n, k + 1);
      }
    }
  }

  /** The value of a version line at `n + k` in `s` is its value at `k` in `s[n..]`. */
  lemma VersionValueShift(s: string, n: nat, k: nat)
    requires n + k + |VersionKey| <= |s|
    ensures VersionValue(s, n + k) == VersionValue(s[n..], k)
  {
    ValueAtShift(s, n, k + |VersionKey|, n + k + |VersionKey|);
  }

  /** After a newline at `n - 1`, a version line starts where it starts in `s[n..]`. */
  lemma VersionAtShift(s: string, n: nat, k: nat)
    requires 0 < n <= |s| && s[n - 1] == '\n' && n + k <= |s|
    ensures VersionAt(s, n + k) <==> VersionAt(s[n..], k)
  {
    var r := s[n..];
    if k + |VersionKey| <= |r| {
      assert s[n + k..n + k + |VersionKey|] == r[k..k + |VersionKey|];
    }
    if k > 0 {
      assert s[n + k - 1] == r[k - 1];
    }
  }

  /** The value from `i == n + a` on in `s` is the value from `a` on in `s[n..]`. */
  lemma ValueAtShift(s: string, n: nat, a: nat, i: nat)
    requires i == n + a && i <= |s|
    ensures ValueAt(s, i) == ValueAt(s[n..], a)
  {
    ValueStartShift(s, n, a, i);
    LineFromShift(s, n, ValueStart(s[n..], a), ValueStart(s, i));
  }

  /** The value start from `i == n + a` in `s` is that from `a` in `s[n..]`, moved by `n`. */
  lemma ValueStartShift(s: string, n: nat, a: nat, i: nat)
    requires i == n + a && i <= |s|
    ensures ValueStart(s, i) == n + ValueStart(s[n..], a)
  {
    SuffixOfSuffix(s, n, a);
  }

  /** The rest of the line from `w == n + v` in `s` is that from `v` in `s[n..]`. */
  lemma LineFromShift(s: string, n: nat, v: nat, w: nat)
    requires w == n + v && w <= |s|
    ensures LineFrom(s, w) == LineFrom(s[n..], v)
  {
    LineEndShift(s, n, v);
    SliceOfSuffix(s, n, v, LineEnd(s[n..], v));
  }

  /** A suffix of the suffix `s[n..]` is a suffix of `s`. */
  lemma SuffixOfSuffix(s: string, n: nat, i: nat)
    requires n + i <= |s|
    ensures s[n..][i..] == s[n + i..]
  {
  }

  /** A slice of the suffix `s[n..]` is the slice of `s` moved by `n`. */
  lemma SliceOfSuffix(s: string, n: nat, i: nat, j: nat)
    requires n <= |s| && i <= j <= |s| - n
    ensures s[n..][i..j] == s[n + i..n + j]
  {
  }

  /**
   * A header line whose name differs from `wsif.version` at position `j`
   * adds no version line.
   */
  lemma VersionSkipHeader(name: string, value: string, r: string, j: nat)
    requires forall i :: 0 <= i < |name| ==> name[i] != '\n'
    requires forall i :: 0 <= i < |value| ==> value[i] != '\n'
    requires j < |name| && j < |VersionKey| && name[j] != VersionKey[j]
    ensures VersionLine(Header(name, value) + r) == VersionLine(r)
  {
    var a := Header(name, value);
    var s := a + r;
    assert a == name + ": " + value + "\n";
    assert s[j] == name[j];
    MismatchNotOccurs(s, VersionKey, j);
    forall k: nat | 0 < k < |a|
      ensures !VersionAt(s, k)
    {
      assert s[k - 1] == a[k - 1];
    }
    VersionFromPast(s, 0, |a|);
    VersionFromShift(s, |a|, 0);
    assert s[|a|..] == r;
  }

  /** A string that differs from `key` at `j` does not start with `key`. */
  lemma MismatchNotOccurs(s: string, key: string, j: nat)
    requires j < |key| && j < |s| && s[j] != key[j]
    ensures !OccursAt(s, key, 0)
  {
    if |key| <= |s| {
      assert s[..|key|][j] == s[j];
    }
  }

  /** The extra headers as written hold no version line. */
  lemma NoVersionAsWritten(author: string, loose: bool, done: nat)
    ensures VersionLine(ExtraHeadersAsWritten(author, loose, done)).None?
  {
    var h3 := AuthorHeader(if |author| > 0 then "author" else "");
    var h4 := CountHeader(loose, done);
    assert ExtraHeadersAsWritten(author, loose, done) == GeneratorHeaders() + (h3 + h4);
    GeneratorHeadersSkipped(h3 + h4);
    AuthorHeaderSkipped(if |author| > 0 then "author" else "", h4);
    CountHeaderSkipped(loose, done);
  }

  /** The generator headers add no version line. */
  lemma GeneratorHeadersSkipped(r: string)
    ensures VersionLine(GeneratorHeaders() + r) == VersionLine(r)
  {
    var g := Header("wsif.generator", "libwsif");
    var gv := Header("wsif.generator.version", LibwsifVersion);
    assert GeneratorHeaders() + r == g + (gv + r);
    VersionSkipHeader("wsif.generator", "libwsif", gv + r, 5);
    VersionSkipHeader("wsif.generator.version", LibwsifVersion, r, 5);
  }

  /** An author header with a one-line author adds no version line. */
  lemma AuthorHeaderSkipped(author: string, r: string)
    requires forall i :: 0 <= i < |author| ==> author[i] != '\n'
    ensures VersionLine(AuthorHeader(author) + r) == VersionLine(r)
  {
    if |author| > 0 {
      VersionSkipHeader("woas.author", author, r, 1);
    } else {
      assert AuthorHeader(author) + r == r;
    }
  }

  /** The page count header, or its absence, holds no version line. */
  lemma CountHeaderSkipped(loose: bool, done: nat)
    ensures VersionLine(CountHeader(loose, done)).None?
  {
    if !loose {
      var h := Header("woas.pages", NatToString(done));
      assert h == h + "";
      VersionSkipHeader("woas.pages", NatToString(done), "", 1);
    }
    assert VersionLine("").None? by {
      assert !VersionAt("", 0);
    }
  }

  /** Behind the extra headers and a blank line, a record starts no later than the headers' end. */
  lemma FirstRecordWithin(extra: string, full: string)
    requires OccursAt(full, RecordPfx, 0)
    ensures var ct := extra + "\n" + full;
      IndexOf(ct, Pfx, 0).Some? && IndexOf(ct, Pfx, 0).value <= |extra|
  {
    var ct := extra + "\n" + full;
    assert ct[|extra|..|extra| + |Pfx|] == "\n" + full[..|RecordPfx|];
    assert OccursAt(ct, Pfx, |extra|);
  }

  /**
   * As written, the index file `Save` writes is refused by `_load` for want
   * of a version line, whenever it holds a record.
   */
  lemma SavedIndexRejectedAsWritten(env: Env, author: string, loose: bool, done: nat, full: string,
                                    recursion: nat, st: WsifState)
    requires OccursAt(full, RecordPfx, 0)
    ensures Load(env, Some(ExtraHeadersAsWritten(author, loose, done) + "\n" + full), recursion, st)
      == (Failed, st.Error(NoVersion))
  {
    var extra := ExtraHeadersAsWritten(author, loose, done);
    var ct := extra + "\n" + full;
    FirstRecordWithin(extra, full);
    var p := IndexOf(ct, Pfx, 0).value;
    assert ct[..p] == extra[..p];
    NoVersionAsWritten(author, loose, done);
    VersionLineOfPrefix(extra, p);
  }

  /** No record starts inside a leading version header followed by another `wsif` header. */
  lemma NoRecordInVersionHeader(ct: string)
    requires |ct| > 21 && ct[..20] == Header("wsif.version", WsifVersion) && ct[21] == 's'
    ensures forall k: nat :: k < 20 ==> !OccursAt(ct, Pfx, k)
  {
    forall k: nat | k < 20
      ensures !OccursAt(ct, Pfx, k)
    {
      if k < 19 {
        assert ct[k] == ct[..20][k];
      }
    }
  }

  /**
   * With the version header kept, `_load` reads the version of the index
   * file `Save` writes and goes on to scan its records.
   */
  lemma SavedIndexVersionRead(env: Env, author: string, loose: bool, done: nat, full: string,
                              recursion: nat, st: WsifState)
    requires OccursAt(full, RecordPfx, 0)
    requires env.natCmp(WsifVersion, WsifVersion) <= 0
    ensures var ct := ExtraHeaders(author, loose, done) + "\n" + full;
      var p := IndexOf(ct, Pfx, 0);
      && p.Some? && VersionLine(ct[..p.value]) == Some(WsifVersion)
      && Load(env, Some(ct), recursion, st)
        == Conclude(env, Run(env, Scan(ct, None, NoFields, None, st), p, recursion), recursion)
  {
    var ct := ExtraHeaders(author, loose, done) + "\n" + full;
    FirstRecordWithin(ExtraHeaders(author, loose, done), full);
    var p := IndexOf(ct, Pfx, 0).value;
    IndexHead(author, loose, done, full);
    VersionBeforeRecord(ct, p);
    LoadPastVersion(env, ct, p, recursion, st);
  }

  /** The index file opens with the version header, followed by the generator header. */
  lemma IndexHead(author: string, loose: bool, done: nat, full: string)
    ensures var ct := ExtraHeaders(author, loose, done) + "\n" + full;
      |ct| > 21 && ct[..20] == Header("wsif.version", WsifVersion) && ct[21] == 's'
  {
    var h := Header("wsif.version", WsifVersion);
    var g := GeneratorHeaders();
    var ct := ExtraHeaders(author, loose, done) + "\n" + full;
    assert |h| == 20 && g[1] == 's';
    assert forall i :: 0 <= i < 22 ==> ct[i] == (h + g)[i];
    assert ct[..20] == h;
  }

  /** Before the first record of such a file, the version line is `WSIF_VERSION`. */
  lemma VersionBeforeRecord(ct: string, p: nat)
    requires |ct| > 21 && ct[..20] == Header("wsif.version", WsifVersion) && ct[21] == 's'
    requires IndexOf(ct, Pfx, 0) == Some(p)
    ensures p <= |ct| && VersionLine(ct[..p]) == Some(WsifVersion)
  {
    NoRecordInVersionHeader(ct);
    assert p >= 20;
    assert ct[..p] == Header("wsif.version", WsifVersion) + ct[20..p];
    VersionOfHeader(WsifVersion, ct[20..p]);
  }

  /** A file whose version line before its first record is `WSIF_VERSION` goes on to the scan. */
  lemma LoadPastVersion(env: Env, ct: string, p: nat, recursion: nat, st: WsifState)
    requires IndexOf(ct, Pfx, 0) == Some(p) && p <= |ct|
    requires VersionLine(ct[..p]) == Some(WsifVersion)
    requires env.natCmp(WsifVersion, WsifVersion) <= 0
    ensures Load(env, Some(ct), recursion, st)
      == Conclude(env, Run(env, Scan(ct, None, NoFields, None, st), Some(p), recursion), recursion)
  {
  }
}
