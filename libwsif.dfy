/**
 * The `WSIF` codec object: the list of imported pages, the last error and the
 * messages it reported, with `_page_def` and `_load` as methods that update
 * them in place. Each method is proved to do what the functions of
 * `Resolver` and `Loader` specify.
 */
module Libwsif {
  import opened Wrappers
  import opened Text
  import opened Ecma
  import opened Framing
  import opened Pages
  import opened Resolver
  import opened Loader
  import opened Utf8
  import opened Saver

  class Wsif {
    var imported: seq<int>
    var emsg: Message
    var log: seq<Message>
    var looseMerge: bool

    /** The part of the object that loading reads and changes. */
    function State(): WsifState
      reads this
    {
      WsifState(imported, emsg, log)
    }

    constructor(looseMerge: bool)
      ensures State() == WsifState([], NoError, []) && this.looseMerge == looseMerge
    {
      imported := [];
      emsg := NoError;
      log := [];
      this.looseMerge := looseMerge;
    }

    /** `Error`: remember the message as the last error and report it. */
    method Error(m: Message)
      modifies this
      ensures State() == old(State()).Error(m) && looseMerge == old(looseMerge)
    {
      emsg := m;
      log := log + [m];
    }

    /** `_log`: report the message. */
    method Log(m: Message)
      modifies this
      ensures State() == old(State()).Note(m) && looseMerge == old(looseMerge)
    {
      log := log + [m];
    }

    /** `_page_def`: the field checks, then the branch of the disposition. */
    method DefinePage(env: Env, ct: string, from: nat, title: string, f: Fields, recursion: nat) returns (rv: Rv)
      modifies this
      ensures (rv, State()) == PageDef(env, ct, from, title, f, recursion, old(State()))
      ensures looseMerge == old(looseMerge)
    {
      if f.attrs.None? {
        Log(NoAttributes(title));
        return False;
      }
      if f.disposition.None? {
        Log(NoDisposition(title));
        return False;
      }
      var attrs := f.attrs.value;
      var lastMod := if f.lastMod.None? then 0 else f.lastMod.value;
      if f.disposition.value == "inline" {
        rv := DefineInline(env, ct, from, title, attrs, lastMod, f);
      } else if f.disposition.value == "external" {
        rv := DefineExternal(env, title, attrs, lastMod, f, recursion);
      } else {
        Error(InvalidDisposition(title, f.disposition.value));
        return False;
      }
    }

    /** The `inline` branch of `_page_def`: the body between the two boundary lines. */
    method DefineInline(env: Env, ct: string, from: nat, title: string, attrs: int, lastMod: int, f: Fields) returns (rv: Rv)
      modifies this
      ensures (rv, State()) == InlinePage(env, ct, from, title, attrs, lastMod, f, old(State()))
      ensures looseMerge == old(looseMerge)
    {
      var b := f.boundary.GetOr("");
      var d := Delimiter(b);
      var s := IndexOf(ct, d, from);
      if s.None? {
        Error(StartBoundaryNotFound(b, title));
        return False;
      }
      var e := IndexOf(ct, d, s.value + |d|);
      if e.None? {
        Error(EndBoundaryNotFound(b, title));
        return False;
      }
      var raw := ct[s.value + |d|..e.value];
      assert ExtractInline(ct, from, b) == Ok(raw);
      rv := DefineBody(env, title, attrs, lastMod, f, raw);
    }

    /** The found inline body decoded, its length checked, and the page created. */
    method DefineBody(env: Env, title: string, attrs: int, lastMod: int, f: Fields, raw: string) returns (rv: Rv)
      modifies this
      ensures (rv, State()) == InlineBody(env, title, attrs, lastMod, f, raw, old(State()))
      ensures looseMerge == old(looseMerge)
    {
      var page := DecodeInline(env, title, attrs, f, raw);
      if page.Err? {
        Log(page.error);
        return False;
      }
      if f.len.Some? && f.len.value != |raw| {
        Log(LengthMismatch(title, f.len.value, |raw|));
      }
      rv := CreatePage(env, title, page.value, attrs, lastMod);
    }

    /** The decoding of an inline body by the page's attributes and encoding. */
    method DecodeInline(env: Env, title: string, attrs: int, f: Fields, raw: string) returns (page: Result<string, Message>)
      ensures page == DecodeBody(env, title, attrs, f, raw)
    {
      if HasBit(attrs, Encrypted) {
        if f.encoding != Some(Base64Encoding) {
          return Err(EncryptedNotBase64(title));
        }
        return Ok(env.b64decode(raw));
      } else if HasBit(attrs, EmbImage) {
        if f.encoding != Some(Base64Encoding) {
          return Err(ImageNotBase64("title"));
        }
        if f.mime.None? {
          return Err(ImageWithoutMime(title));
        }
        return Ok("data:" + f.mime.value + ";base64," + raw);
      }
      if f.encoding == Some(Base64Encoding) {
        if !HasBit(attrs, EmbFile) {
          return Ok(env.b64decode(raw));
        }
        return Ok(raw);
      } else if f.encoding == Some(EcmaEncoding) {
        return Ok(EcmaDecode(raw));
      } else if f.encoding == Some(PlainEncoding) {
        return Ok(raw);
      }
      return Err(UnknownEncoding(title, f.encoding.GetOr("")));
    }

    /** The `external` branch of `_page_def`: a blob file, or a nested WSIF file. */
    method DefineExternal(env: Env, title: string, attrs: int, lastMod: int, f: Fields, recursion: nat) returns (rv: Rv)
      modifies this
      ensures (rv, State()) == ExternalPage(env, title, attrs, lastMod, f, recursion, old(State()))
      ensures looseMerge == old(looseMerge)
    {
      if f.filename.None? {
        Error(NoFilename(title));
        return False;
      }
      if recursion > 1 {
        Error(RecursiveImport);
        return False;
      }
      var fn := f.filename.value;
      if HasBit(attrs, EmbFile) || HasBit(attrs, EmbImage) {
        if f.encoding != Some(PlainEncoding) {
          Error(ExternalNotPlain(title));
          return False;
        }
        var data := env.readFile(fn);
        if data.None? {
          Error(ExternalReadFailed(fn));
          return False;
        }
        var page := data.value;
        if HasBit(attrs, EmbFile) && HasBit(attrs, EmbImage) {
          page := "data:" + f.mime.GetOr("") + ";base64," + env.b64encode(page);
        } else if HasBit(attrs, EmbFile) {
          page := env.b64encode(page);
        }
        rv := CreatePage(env, title, page, attrs, lastMod);
      } else {
        if f.encoding != Some(WsifEncoding) {
          Error(ExternalNotWsif(title));
          return False;
        }
        var before := emsg;
        var nested := env.importNested(fn, recursion + 1);
        imported := imported + nested.added;
        if nested.NestedFailed? {
          Error(NestedImportFailed(fn, nested.reported.GetOr(before)));
          return False;
        }
        return Count(|imported|);
      }
    }

    /** The create-page hook; any result but -1 is kept as imported. */
    method CreatePage(env: Env, title: string, page: string, attrs: int, lastMod: int) returns (rv: Rv)
      modifies this
      ensures (rv, State()) == Define(env, title, page, attrs, lastMod, old(State()))
      ensures looseMerge == old(looseMerge)
    {
      var id := env.hook(title, page, attrs, lastMod);
      if id != -1 {
        imported := imported + [id];
        return True;
      }
      return False;
    }

    /** One header line of `_load` other than `title`: the field it sets, or a note. */
    method AssignHeader(name: string, v: string, f: Fields) returns (f1: Fields)
      modifies this
      ensures (f1, State()) == Assign(name, v, f, old(State()))
      ensures looseMerge == old(looseMerge)
    {
      f1 := f;
      if name == "attributes" {
        f1 := f.(attrs := Some(IntVal(v)));
      } else if name == "last_modified" {
        f1 := f.(lastMod := Some(IntVal(v)));
      } else if name == "length" {
        f1 := f.(len := Some(IntVal(v)));
      } else if name == "encoding" {
        f1 := f.(encoding := Some(v));
      } else if name == "disposition" {
        f1 := f.(disposition := Some(v));
      } else if name == "disposition.filename" {
        f1 := f.(filename := Some(v));
      } else if name == "boundary" {
        f1 := f.(boundary := Some(v));
      } else if name == "mime" {
        f1 := f.(mime := Some(v));
      } else if name != "original_length" {
        Log(UnknownHeader(name));
      }
    }

    /** A `title` line after a record: the record before it is defined. */
    method FlushPage(env: Env, ct: string, title: string, f: Fields, previousH: Option<nat>, recursion: nat)
      modifies this
      ensures State() == Flush(env, ct, title, f, previousH, recursion, old(State()))
      ensures looseMerge == old(looseMerge)
    {
      var rv := DefinePage(env, ct, previousH.GetOr(0), title, f, recursion);
      if !rv.Truthy() {
        Error(ImportFailure("title"));
      }
    }

    /**
     * `_load` of a file whose content is `file`, `None` when it cannot be
     * read, at nesting depth `recursion`.
     */
    method Load(env: Env, file: Option<string>, recursion: nat) returns (r: Loaded)
      modifies this
      ensures (r, State()) == Loader.Load(env, file, recursion, old(State()))
      ensures looseMerge == old(looseMerge)
    {
      if file.None? {
        return Failed;
      }
      var ct := file.value;
      ghost var goal := Loader.Load(env, file, recursion, State());
      var p: Option<nat> := IndexOf(ct, Pfx, 0);
      var fail := false;
      if p.None? {
        Error(InvalidFile);
      } else {
        var version := VersionLine(ct[..p.value]);
        if version.None? {
          Error(NoVersion);
          p := None;
          fail := true;
        } else if version.value == "1.0.0" || env.natCmp(version.value, WsifVersion) > 0 {
          Error(UnsupportedVersion(version.value));
          p := None;
          fail := true;
        }
      }
      var title: Option<string> := None;
      var f := NoFields;
      var previousH: Option<nat> := None;
      while p.Some?
        invariant AtPrefix(ct, p)
        invariant fail ==> p.None? && goal == (Failed, State())
        invariant !fail ==> goal == Conclude(env, Run(env, Scan(ct, title, f, previousH, State()), p, recursion), recursion)
        invariant looseMerge == old(looseMerge)
        decreases Remaining(ct, p)
      {
        var stop, p1;
        stop, ct, title, f, previousH, p1 := ScanLine(env, ct, title, f, previousH, p.value, recursion);
        if stop {
          fail := true;
          p := None;
        } else {
          p := p1;
        }
      }
      if fail {
        return Failed;
      }
      FinishScan(env, ct, title, f, previousH, recursion);
      return Pages(|imported|);
    }

    /**
     * One turn of the loop of `_load`, at the prefix occurrence `at`: a header
     * line read and applied, or the error that stops the scan.
     */
    method ScanLine(env: Env, ct: string, title: Option<string>, f: Fields, previousH: Option<nat>, at: nat, recursion: nat)
      returns (stop: bool, ct1: string, title1: Option<string>, f1: Fields, previousH1: Option<nat>, p: Option<nat>)
      requires OccursAt(ct, Pfx, at)
      modifies this
      ensures var t := Step(env, Scan(ct, title, f, previousH, old(State())), at, recursion);
        var sc := Scan(ct1, title1, f1, previousH1, State());
        if stop then t == Stop(sc) else t == Next(sc, p)
      ensures looseMerge == old(looseMerge)
    {
      ct1, title1, f1, previousH1, p := ct, title, f, previousH, None;
      var line := ReadLine(ct, at);
      if line.NoColon? {
        Error(NoHeaderName);
        return true, ct1, title1, f1, previousH1, p;
      } else if line.NoNewline? {
        Error(BadHeaderValue);
        return true, ct1, title1, f1, previousH1, p;
      }
      ct1, title1, f1, previousH1, p := ApplyHeader(env, ct, title, f, previousH, line.name, line.value, line.q, recursion);
      stop := false;
    }

    /** A header line applied to the scan; a `title` first defines the pending record. */
    method ApplyHeader(env: Env, ct: string, title: Option<string>, f: Fields, previousH: Option<nat>,
                       name: string, v: string, q: nat, recursion: nat)
      returns (ct1: string, title1: Option<string>, f1: Fields, previousH1: Option<nat>, p: Option<nat>)
      requires q < |ct|
      modifies this
      ensures Apply(env, Scan(ct, title, f, previousH, old(State())), name, v, q, recursion)
        == Next(Scan(ct1, title1, f1, previousH1, State()), p)
      ensures looseMerge == old(looseMerge)
    {
      ct1, title1, f1, previousH1 := ct, title, f, previousH;
      if name != "title" {
        previousH1 := Some(q);
      }
      var from := q;
      if name == "title" {
        if title.Some? {
          FlushPage(env, ct, title.value, f, previousH1, recursion);
          f1 := NoFields;
          ct1 := ct[q..];
          from := 0;
          previousH1 := None;
        }
        title1 := Some(EcmaDecode(v));
      } else {
        f1 := AssignHeader(name, v, f);
      }
      p := IndexOf(ct1, Pfx, from);
    }

    /** The end of `_load`: the last record is defined when it has a title and a header. */
    method FinishScan(env: Env, ct: string, title: Option<string>, f: Fields, previousH: Option<nat>, recursion: nat)
      modifies this
      ensures State() == Finish(env, Scan(ct, title, f, previousH, old(State())), recursion)
      ensures looseMerge == old(looseMerge)
    {
      if previousH.Some? && title.Some? {
        var rv := DefinePage(env, ct, previousH.value, title.value, f, recursion);
        if !rv.Truthy() {
          Error(ImportFailure(title.value));
        }
      }
    }

    /**
     * `Save` into a single WSIF file: the records of `pages` one after the
     * other, then the extra headers, with the page count unless merging is
     * loose. `indexSaved` is whether the index file could be written.
     */
    method Save(env: Env, pages: seq<Page>, inline: bool, author: string, boundary: string,
                draws: seq<Draw>, indexSaved: bool) returns (r: Option<Saved>)
      ensures r == Saver.Save(env, pages, inline, looseMerge, author, boundary, draws, indexSaved)
    {
      var extra := ExtraHead(author);
      var s := Saving("", 0, boundary, 0, [], draws);
      ghost var s0 := s;
      var i := 0;
      while i < |pages|
        invariant i <= |pages|
        invariant SavePages(env, pages, inline, looseMerge, s0) == SavePages(env, pages[i..], inline, looseMerge, s)
      {
        var next := SaveRecord(env, pages[i], inline, s);
        SavePagesStep(env, pages, i, inline, looseMerge, s, next);
        if next.None? {
          return None;
        }
        s := next.value;
        i := i + 1;
      }
      assert pages[i..] == [];
      ghost var e0 := extra;
      if !looseMerge {
        extra := extra + Header("woas.pages", NatToString(s.done));
      }
      assert extra == e0 + CountHeader(looseMerge, s.done);
      var done := if indexSaved then s.done else 0;
      return Some(Saved(done, extra + "\n" + s.full, s.blobs));
    }

    /**
     * The extra headers written before the pages: the version, the generator
     * and, for a non-empty author, the author.
     */
    method ExtraHead(author: string) returns (extra: string)
      ensures extra == Header("wsif.version", WsifVersion) + GeneratorHeaders() + AuthorHeader(author)
    {
      extra := Header("wsif.version", WsifVersion);
      extra := extra + Header("wsif.generator", "libwsif");
      extra := extra + Header("wsif.generator.version", LibwsifVersion);
      Concat3(Header("wsif.version", WsifVersion), Header("wsif.generator", "libwsif"),
              Header("wsif.generator.version", LibwsifVersion));
      ghost var e0 := extra;
      if |author| > 0 {
        extra := extra + Header("woas.author", author);
      }
      assert extra == e0 + AuthorHeader(author);
    }

    /**
     * The record of one page appended to the single file, or exported as a
     * blob; `None` when the draws run out before a boundary is found.
     */
    method SaveRecord(env: Env, page: Page, inline: bool, s: Saving) returns (r: Option<Saving>)
      ensures r == SavePage(env, page, inline, looseMerge, s)
    {
      var ct, encoding, disposition, origLen, mime := PrepareContent(env, page, inline);
      var plan := Plan(encoding, disposition, ct, origLen, mime);
      var record := AppendHeads(page, plan);
      if disposition == "inline" {
        r := AppendInline(plan, record, s);
      } else {
        var n := s.blobCounter + 1;
        var name := BlobName(n, page.title);
        record := record + ExternalTail(name);
        r := Some(s.(full := s.full + record, done := s.done + 1,
                     blobCounter := n, blobs := s.blobs + [Blob(name, ct)]));
      }
    }

    /**
     * The end of an inline record appended: the original length of an
     * encrypted page, the boundary drawn for the body, and the framed body.
     */
    method AppendInline(plan: Plan, record: string, s: Saving) returns (r: Option<Saving>)
      ensures r == SaveInline(plan, record, s)
    {
      var rec := record;
      if plan.origLen.Some? {
        rec := rec + Header(RecordPfx + "original_length", NatToString(plan.origLen.value));
      }
      assert rec == record + OriginalLengthHeader(plan);
      var nb := GenerateRandomBoundary(s.boundary, plan.body, s.draws);
      if nb.None? {
        return None;
      }
      var (b, used) := nb.value;
      rec := rec + Header(RecordPfx + "boundary", b);
      rec := rec + Inline(b, plan.body);
      Concat3(record, OriginalLengthHeader(plan), Header(RecordPfx + "boundary", b));
      Concat3(record, OriginalLengthHeader(plan) + Header(RecordPfx + "boundary", b), Inline(b, plan.body));
      r := Some(s.(full := s.full + rec, done := s.done + 1, boundary := b, draws := s.draws[used..]));
    }

    /**
     * The header lines of a record, appended one after the other: the
     * timestamp, the mime type and the length only when they apply.
     */
    method AppendHeads(page: Page, plan: Plan) returns (record: string)
      ensures record == RecordHead(page, plan, looseMerge)
    {
      record := Header(RecordPfx + "title", EcmaEncode(page.title));
      record := record + Header(RecordPfx + "attributes", IntToString(page.attributes));
      ghost var h0 := record;
      if !looseMerge && page.lastModified != 0 {
        record := record + Header(RecordPfx + "last_modified", IntToString(page.lastModified));
      }
      assert record == h0 + LastModifiedHeader(page, looseMerge);
      ghost var h1 := record;
      if plan.mime.Some? {
        record := record + Header(RecordPfx + "mime", plan.mime.value);
      }
      assert record == h1 + MimeHeader(plan);
      ghost var h2 := record;
      if !looseMerge {
        record := record + Header(RecordPfx + "length", NatToString(|plan.body|));
      }
      assert record == h2 + LengthHeader(plan, looseMerge);
      record := record + Header(RecordPfx + "encoding", plan.encoding);
      record := record + Header(RecordPfx + "disposition", plan.disposition);
      assert record == h2 + LengthHeader(plan, looseMerge)
        + Header(RecordPfx + "encoding", plan.encoding) + Header(RecordPfx + "disposition", plan.disposition);
    }

    /**
     * The content of a page as it is written, with its encoding, disposition,
     * original length and, for an image, the mime type of its data URI.
     */
    method PrepareContent(env: Env, page: Page, inline: bool)
      returns (ct: string, encoding: string, disposition: string, origLen: Option<nat>, mime: Option<string>)
      ensures Plan(encoding, disposition, ct, origLen, mime) == PlanPage(env, page, inline)
    {
      origLen, mime := None, None;
      disposition := "inline";
      if page.IsEncrypted() {
        ct := env.b64encode(page.content);
        encoding := Base64Encoding;
        origLen := Some(|page.content|);
        return;
      }
      ct := page.content;
      if page.IsEmbedded() {
        if page.IsImage() {
          var (m, data) := SplitDataUri(ct);
          mime := Some(m);
          ct := data;
        }
        if !inline {
          disposition := "external";
          encoding := PlainEncoding;
          ct := env.b64decode(ct);
        } else {
          encoding := Base64Encoding;
        }
      } else if NeedsEcmaEncoding(ct) {
        ct := EcmaEncode(ct);
        encoding := EcmaEncoding;
      } else {
        encoding := PlainEncoding;
      }
    }
  }
}
