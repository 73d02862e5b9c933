# WSIF codec model

This project models the `WSIF` class of the Wiki on a Stick support library
(`public/notebook/libwsif.php`). The class reads and writes WSIF archives. A
WSIF file is a block of archive headers (`wsif.version`, `wsif.generator`,
`woas.pages`, ...) followed by one record per wiki page. Each record is a list
of `woas.page.<name>: <value>` header lines. An inline page body follows its
headers, framed by two `\n--<boundary>\n` lines.

The model is split by the parts of the codec:

- `Text` (`text.dfy`): the PHP string built-ins the codec relies on. These
  are `strpos`, `trim`, the `(int)` cast, `sprintf("%d")`, `dechex`/`hexdec`
  on lowercase hex, and the zero padding of four-digit escapes.
- `Utf8` (`utf8.dfy`) holds three pieces:
  - `_code2utf`, which is the bit packing of section 3 of RFC 3629;
  - the multi-byte pattern `_LIBWSIF_UNICODE_REGEX`, written as a byte
    predicate (it is the well-formed multi-byte grammar of section 4 of
    RFC 3629);
  - `_needs_ecma_encoding`.
- `Ecma` (`ecma.dfy`): `ecma_decode` with `_ecma_decode_cb`, and
  `ecma_encode` with `utf8_js` and `_ecma_encode_cb`. The two callbacks keep
  their loops as methods. Each method is proved equal to the function that
  specifies it.
- `EcmaRoundTrip` (`ecma_roundtrip.dfy`) relates the encoder to an
  independent per-character reference encoding. It proves that decoding
  inverts encoding, and it pins down the cases where the round trip does not
  hold:
  - 4-byte sequences;
  - literal lowercase escapes in the text;
  - uppercase escapes.
- `Framing` (`framing.dfy`) holds:
  - `_header` and `_inline`;
  - the inline-body extraction of `_page_def`;
  - `_file_ext`;
  - the random boundary, from `_random_string` and
    `_generate_random_boundary`, drawn from a sequence of character indices.
- `Pages` (`pages.dfy`): the attribute bits of `WoaS_Page` and its three bit
  tests.
- `Resolver` (`resolver.dfy`): `_page_def`. It checks the fields, extracts
  and decodes the inline body, handles the external dispositions, and calls
  the create-page hook. The imported list grows by every result other than
  -1.
- `Loader` (`loader.dfy`): `_load` over a buffer, specified one scan step at
  a time. The steps are:
  - the version check before the first record;
  - the header-line scan;
  - resolving the previous record when a `title` arrives, followed by the
    buffer truncation;
  - resolving the last record;
  - returning the count.
- `Saver` (`saver.dfy`): `Save` in single-file mode. It covers:
  - the per-page choice of content, encoding and disposition;
  - the record headers in order;
  - inline framing with a boundary absent from the body;
  - blob names for external pages;
  - the extra archive headers;
  - the final count.

  Lemmas connect what `Save` writes with what `_page_def` and `_load` read
  back.
- `Libwsif` (`libwsif.dfy`): the class `Wsif`. Its fields are
  `imported`, `emsg`, `log` and `looseMerge`. Its methods mirror `Error`,
  `_log`, `_page_def`, `_load` and `Save`, and update those fields in place.
  Each method is proved to produce exactly the result and new state that the
  functions of `Resolver`, `Loader` and `Saver` specify.

PHP byte strings are Dafny `string`s in which each character stands for one
byte. Calls into code outside the codec are the function values of an `Env`:
- the create-page hook;
- `base64_encode` and `base64_decode`;
- reading an external file;
- the nested `_load` of an external WSIF file;
- `strnatcmp`.

`mt_rand` is a finite sequence of draws. The index write of `Save` is a
boolean `indexSaved`. The messages that `Error` and `_log` report are
collected in the `log` field, and the last error is kept in `emsg`.

Where the code differs from a plain reading of the format, the model
follows the code:
- Only lowercase hex escapes are decoded.
- The `length` header is compared with the raw framed body, not with the
  decoded page, and a mismatch is only logged.
- The `recursion > 1` check comes before the split between embedded files
  and nested archives, so it applies to external blobs as well.
- A header line without a colon is a structural failure, just like one
  without a newline.
- Versions are compared with `strnatcmp`, not lexically.
- A buffer without any page record sets the error "Invalid WSIF file" but
  still returns the count of imported pages rather than `false`.
- The import-failure message for a record resolved on a new `title` names
  the literal `title` (line 158). So does the image-encoding message
  (line 269).
- The branch of `_ecma_encode_cb` for bytes below `A` (lines 582-591) is
  never reached by `utf8_js`, because matched runs only hold bytes from 0x80
  on. `Utf8JsIsEscapeSeqs` contains this fact.

## Model

| member | source | states |
|---|---|---|
| Text.IndexOf | public/notebook/libwsif.php:125-134 | `strpos`: the result is an occurrence at or after `from` with none before it, and `None` exactly when there is no occurrence from `from` on |
| Text.IndexOfFromStart | public/notebook/libwsif.php:89-94 | searching from offset 0 finds something exactly when the needle occurs in the buffer |
| Text.TrimAfterSpace | public/notebook/libwsif.php:147 | the trimmed value of a header written as `name: value` is the value written, when that value has no surrounding blanks |
| Text.IntValOfIntToString | public/notebook/libwsif.php:173-179 | an integer header written in decimal is read back by the `(int)` cast as that integer clamped to the 64-bit range, so every value within that range, negative ones included, comes back unchanged |
| Text.IntValSaturates | public/notebook/libwsif.php:172-179 | a header value of digits whose number exceeds the largest 64-bit integer is read by the `(int)` cast as that largest integer |
| Text.IntToStringIsTrimmed | public/notebook/libwsif.php:147 | a decimal integer has no blanks for `trim` to remove |
| Text.HexValueOfDecHex | public/notebook/libwsif.php:602 | `hexdec(dechex(n)) == n` for every natural `n` |
| Text.Hex4RoundTrip | public/notebook/libwsif.php:602-603 | for a value below 0x10000 the zero-padded `dechex` digits are exactly four lowercase hex digits whose value is the number |
| Utf8.MatchLen | public/notebook/libwsif.php:31-39 | the pattern matches 0, 2, 3 or 4 bytes, never more than are left, only bytes from 0x80 on, with the lead byte deciding the length |
| Utf8.MatchLenPrefix | public/notebook/libwsif.php:31-39 | whether and how far the pattern matches depends only on the bytes it matched |
| Utf8.NeedsEcmaEncoding | public/notebook/libwsif.php:555-560 | true exactly when a multi-byte sequence of the pattern starts at some offset |
| Utf8.Code2UtfBmp | public/notebook/libwsif.php:387-393 | every value below 0x10000 gets a 1- to 3-byte encoding, so the error branch is not reached from four hex digits; values below 128 are one byte |
| Utf8.Code2UtfOfCodePoint | public/notebook/libwsif.php:387-390 | the code point of a matched 2- or 3-byte sequence is a non-surrogate below 0x10000 and `_code2utf` gives back exactly those bytes |
| Utf8.TwoByteCodePoint | public/notebook/libwsif.php:389 | a matched 2-byte sequence has a code point from 0x80 to 0x7FF and re-encodes to itself |
| Utf8.ThreeByteCodePoint | public/notebook/libwsif.php:390 | a matched 3-byte sequence has a non-surrogate code point from 0x800 to 0xFFFF and re-encodes to itself |
| Utf8.CodePointOfCode2Utf | public/notebook/libwsif.php:387-390 | conversely, every non-surrogate code point from 0x80 to 0xFFFF is encoded as a sequence the pattern matches whose code point is the value |
| Utf8.TwoByteOfCodePoint | public/notebook/libwsif.php:389 | a code point from 0x80 to 0x7FF is encoded as a matched 2-byte sequence that reads back as the value |
| Utf8.ThreeByteOfCodePoint | public/notebook/libwsif.php:390 | a non-surrogate code point from 0x800 to 0xFFFF is encoded as a matched 3-byte sequence that reads back as the value |
| Ecma.DecodeEscape | public/notebook/libwsif.php:372-385 | the replacement for four hex digits is the 1- to 3-byte UTF-8 encoding of their value |
| Ecma.DecodeEscapeCallback | public/notebook/libwsif.php:372-385 | the leading-zero loop and `hexdec` produce the UTF-8 encoding of the digits' value, 1 to 3 bytes long |
| Ecma.HexValueDropZeros | public/notebook/libwsif.php:376-383 | skipping leading zeros does not change the value read |
| Ecma.EncodeRunCallback | public/notebook/libwsif.php:572-611 | the byte loop, with its buffer of collected values and the length it looks for, produces exactly the specified callback output for the run |
| Ecma.RunLength | public/notebook/libwsif.php:569 | the greedy run of sequences at the front is non-empty exactly when the pattern matches there, and never longer than the text |
| EcmaRoundTrip.CollapseOfEscape | public/notebook/libwsif.php:565 | collapsing backslash pairs undoes doubling every backslash |
| EcmaRoundTrip.EscapeBackslashesConcat | public/notebook/libwsif.php:565 | doubling backslashes distributes over concatenation |
| EcmaRoundTrip.Utf8JsIsEscapeSeqs | public/notebook/libwsif.php:568-611 | without 4-byte lead bytes, replacing each maximal run by the callback's output is the same as escaping each 2- or 3-byte sequence one by one |
| EcmaRoundTrip.EscapeSeqsOfDoubled | public/notebook/libwsif.php:563-566 | escaping the sequences of the backslash-doubled text equals the per-character reference encoding |
| EcmaRoundTrip.EncodeIsReference | public/notebook/libwsif.php:563-611 | without 4-byte lead bytes, `ecma_encode` equals the reference: each backslash doubled, each 2- or 3-byte character one `\u` escape of its code point, every other byte kept |
| EcmaRoundTrip.DecodeOfEscapeChars | public/notebook/libwsif.php:367-370 | decoding the escapes of the reference encoding gives the backslash-doubled text back, when the text has no escape of its own |
| EcmaRoundTrip.EcmaRoundTrip | public/notebook/libwsif.php:563-566 | `ecma_decode(ecma_encode(s)) == s` for text without 4-byte lead bytes and without a literal lowercase `\u` escape |
| EcmaRoundTrip.DecodeWithoutEscapes | public/notebook/libwsif.php:367-370 | text without an escape only has its backslash pairs collapsed |
| EcmaRoundTrip.UpperCaseEscapeKept | public/notebook/libwsif.php:368 | for any four hexadecimal digits with at least one upper-case letter and any text after them, the escape decoding keeps the six characters and decodes only the text after them, and so does `ecma_decode` |
| EcmaRoundTrip.EncodeWithoutMultiByte | public/notebook/libwsif.php:563-570 | text the pattern does not match is only backslash-doubled by `ecma_encode` |
| EcmaRoundTrip.FourByteSequenceNotPreserved | public/notebook/libwsif.php:596-603 | U+1F600 is encoded as `\u07d8` (its lead byte read as a 3-byte lead, its last byte dropped) and decodes to two other bytes |
| EcmaRoundTrip.TrailingContinuationDropped | public/notebook/libwsif.php:596-598 | a byte group still incomplete at the end of a run is dropped from the output |
| Framing.ExtractInline | public/notebook/libwsif.php:242-255 | the start boundary is missing exactly when the delimiter does not occur from the offset, and an extracted body never contains the delimiter |
| Framing.ExtractBody | public/notebook/libwsif.php:249-255 | once the start delimiter is found, the result is never a missing start boundary, and a body taken up to the next delimiter never contains it |
| Framing.InlineRoundTrip | public/notebook/libwsif.php:613-615 | for a boundary without a newline that does not occur in the content, extracting from the start of `_inline(b, c)` gives back exactly `c`, whatever surrounds it |
| Framing.InlineFound | public/notebook/libwsif.php:244-255 | a body framed by two delimiters right at the offset is extracted whole |
| Framing.InlineLayout | public/notebook/libwsif.php:613-615 | the framed text is the delimiter, the content and the delimiter, at the offsets that implies |
| Framing.FileExtShape | public/notebook/libwsif.php:617-622 | a non-empty extension is a dot and the word characters that end the name after a dot (a final newline aside) |
| Framing.FileExtOfEnding | public/notebook/libwsif.php:617-622 | conversely, a name that ends in a dot and word characters (a final newline aside) has exactly that dot and those characters as its extension; with `FileExtShape`, the extension is empty exactly when the name has no such ending |
| Framing.FileExtOf | public/notebook/libwsif.php:617-622 | a name ending in a dot and word characters yields exactly that suffix |
| Framing.CharsetRepeatsT | public/notebook/libwsif.php:13 | the charset has 51 characters, with `T` in two places |
| Framing.Picked | public/notebook/libwsif.php:638 | one charset character per draw, the one the draw selects |
| Framing.RandomString | public/notebook/libwsif.php:634-641 | the string has the requested length, every character is from the charset, and it is the characters of the first draws |
| Framing.Redraw | public/notebook/libwsif.php:627-629 | a boundary it returns does not occur in the text and uses no more draws than there are |
| Framing.BoundaryFrom | public/notebook/libwsif.php:624-631 | a boundary it returns does not occur in the text and uses no more draws than there are |
| Framing.RedrawShape | public/notebook/libwsif.php:627-629 | a redrawn boundary is made of the last ten draws used, and a whole number of ten-draw strings is used |
| Framing.GenerateRandomBoundary | public/notebook/libwsif.php:624-631 | the redraw loop returns what the boundary specification gives: the supplied boundary when it is non-empty and absent, otherwise the first drawn string absent from the text |
| Pages.BitTestsOfCompose | public/notebook/libwsif.php:656-666 | each bit test reads back exactly the flag composed into the attribute value, whatever the other bits |
| Pages.ComposeOfBitTests | public/notebook/libwsif.php:656-666 | every attribute value, negative ones included, is made of its three flags, its lowest bit and the bits above |
| Resolver.PageDefImported | public/notebook/libwsif.php:353-360 | the imported list only grows: a defined page adds exactly one result other than -1, a rejected record adds nothing unless it is a nested import, and a nested import returns the new count |
| Resolver.MissingFieldRejected | public/notebook/libwsif.php:228-235 | a record without attributes or a disposition is rejected with one logged note and no change of the last error |
| Resolver.UnknownDispositionRejected | public/notebook/libwsif.php:347-350 | a disposition other than `inline` and `external` is rejected with the invalid-disposition error |
| Resolver.LengthOnlyNoted | public/notebook/libwsif.php:296-300 | the `length` header changes neither the result, the imported list nor the last error |
| Resolver.InlinePageDefined | public/notebook/libwsif.php:240-302 | an inline body framed at the search offset is defined exactly when it decodes and the hook does not return -1, with the decoded body; a decoding failure is only a note |
| Loader.SpaceRun | public/notebook/libwsif.php:96 | the run of `\s` characters at the front, as long as possible |
| Loader.LineEnd | public/notebook/libwsif.php:96 | the first newline at or after the offset, or the end of the buffer |
| Loader.VersionFromNone | public/notebook/libwsif.php:96 | no version line is found from an offset exactly when no line from there on starts with `wsif.version:` followed by a `\s` character |
| Loader.VersionOfHeader | public/notebook/libwsif.php:96-102 | a block starting with the header `_header("wsif.version", v)` reads version `v` |
| Loader.ReadLine | public/notebook/libwsif.php:125-147 | a header line read at a prefix occurrence ends at a newline past the prefix |
| Loader.Apply | public/notebook/libwsif.php:143-205 | after a header line the scan continues at a prefix occurrence no earlier than the line's newline, also after a `title` truncates the buffer |
| Loader.Step | public/notebook/libwsif.php:121-206 | each turn of the loop either stops with an error or continues strictly closer to the end of the buffer, so the scan ends |
| Loader.StepExtends | public/notebook/libwsif.php:121-206 | a turn of the loop keeps every page already imported |
| Loader.RunExtends | public/notebook/libwsif.php:121-206 | the whole scan keeps every page already imported |
| Loader.LinesWhole | public/notebook/libwsif.php:121-138 | every header line the scan reads before its last one has both its colon and its newline |
| Loader.RunFailsAtLine | public/notebook/libwsif.php:121-138 | the scan fails exactly when the last header line it reads lacks its colon or its newline |
| Loader.RunLineError | public/notebook/libwsif.php:125-138 | when the scan fails, the error is the no-header-name message for a line without a colon and the bad-header-value message for a line without a newline |
| Loader.LoadHeaderErrors | public/notebook/libwsif.php:121-208 | for a buffer with a supported version, `_load` returns `false` exactly when a header line it reads lacks its colon or newline, with the matching error message, and a load that returns pages read only whole header lines |
| Loader.LoadExtends | public/notebook/libwsif.php:77-219 | `_load` keeps every page imported before it, and a non-failed load returns the size of the imported list |
| Loader.VersionRejected | public/notebook/libwsif.php:96-106 | without a version line before the first record, or with version 1.0.0 or a newer one, the load fails, imports nothing and sets the version error |
| Loader.NoRecordNotFailed | public/notebook/libwsif.php:93-94 | a buffer without any record sets "Invalid WSIF file" yet returns the count of imported pages |
| Saver.MatchDataUri | public/notebook/libwsif.php:443 | a match of the data URI prefix starts with `data:` and is no longer than the content |
| Saver.MatchBase64 | public/notebook/libwsif.php:443 | the part of the prefix after the `;` ends within the content and the mime type is the text before that `;` |
| Saver.SplitDataUriOf | public/notebook/libwsif.php:443-455 | the mime type and data of `data:<mime>;base64,<data>` are recovered from it, when the mime has no `;` and neither part starts with a blank |
| Saver.DataUriLayout | public/notebook/libwsif.php:277 | the data URI rebuilt on reading is `data:`, the mime, `;base64,` and the data, at those offsets |
| Saver.EncodingNeverNull | public/notebook/libwsif.php:426-471 | every page gets one of the three encodings, so the null-encoding branch is never taken, and the disposition is external exactly for embedded, non-encrypted pages when blobs are not inlined |
| Saver.PlainPageEncoding | public/notebook/libwsif.php:458-465 | a page that is neither encrypted nor embedded is inline and `ecma/plain` exactly when the pattern matches its content, otherwise `8bit/plain` with the content unchanged |
| Saver.EncryptedPlan | public/notebook/libwsif.php:428-432 | an encrypted page is inline, `8bit/base64`, holds the base64 of its content, and its original length is the length before encoding |
| Saver.InlineBodyReadsBack | public/notebook/libwsif.php:424-471 | the body written for an inline page decodes, by the headers written for it, to the page's content |
| Saver.InlineRecordDefinesPage | public/notebook/libwsif.php:487-495 | resolving the fields written for an inline page over the framed body, from the end of its last header, defines the page with its original content and timestamp |
| Saver.ExternalRecordDefinesPage | public/notebook/libwsif.php:496-500 | resolving the fields written for an external page, when its blob file holds what was exported, defines the page with its original content |
| Saver.SavePageGrows | public/notebook/libwsif.php:417-508 | saving one page adds one to the count and appends to the records and blobs, with one blob for each new blob number |
| Saver.SavePagesGrow | public/notebook/libwsif.php:417-522 | saving a list of pages counts every page and only appends to the records and blobs |
| Saver.SaveCountsEveryPage | public/notebook/libwsif.php:506-546 | `Save` returns the number of pages when the index is written, and 0 when it is not |
| Saver.SavedBoundaryAbsent | public/notebook/libwsif.php:492 | the boundary of an inline record never occurs in its body, and a boundary carried over from the previous page is kept without a draw when it is absent |
| Saver.NoVersionAsWritten | public/notebook/libwsif.php:404-408 | the extra headers as written hold no version line |
| Saver.SavedIndexRejectedAsWritten | public/notebook/libwsif.php:404-405 | `_load` of an index saved with the extra headers as written fails with "Could not read WSIF version" |
| Saver.GeneratorHeadersSkipped | public/notebook/libwsif.php:405-406 | the generator headers are not read as a version line |
| Saver.AuthorHeaderSkipped | public/notebook/libwsif.php:407-408 | the author header is not read as a version line |
| Saver.CountHeaderSkipped | public/notebook/libwsif.php:524-527 | the page-count header is not read as a version line |
| Saver.SavedIndexVersionRead | public/notebook/libwsif.php:404-408 | with the version header kept, the saved index has a record, reads version 1.3.1 before it, and `_load` goes on to scan its records |
| Saver.LoadPastVersion | public/notebook/libwsif.php:96-121 | a buffer whose first record is preceded by the supported version is scanned from that record |
| Libwsif.Wsif.constructor | public/notebook/libwsif.php:57-62 | a new codec has no imported pages, no error and nothing reported |
| Libwsif.Wsif.Error | public/notebook/libwsif.php:69-75 | the message becomes the last error and is reported |
| Libwsif.Wsif.Log | public/notebook/libwsif.php:363-365 | the message is reported and nothing else changes |
| Libwsif.Wsif.DefinePage | public/notebook/libwsif.php:222-361 | `_page_def` returns, and leaves the codec in, exactly what the resolver specification gives |
| Libwsif.Wsif.DefineInline | public/notebook/libwsif.php:240-302 | the inline branch follows the specification: boundary errors, then decoding, length check and definition |
| Libwsif.Wsif.DefineBody | public/notebook/libwsif.php:255-300 | a found body is decoded, its length checked and the page defined, as specified |
| Libwsif.Wsif.DecodeInline | public/notebook/libwsif.php:258-295 | the decoding by attributes and encoding is the specified one, errors included |
| Libwsif.Wsif.DefineExternal | public/notebook/libwsif.php:303-346 | the external branch follows the specification: filename, depth, encoding, blob read or nested import |
| Libwsif.Wsif.CreatePage | public/notebook/libwsif.php:353-360 | the hook's result is appended to the imported list unless it is -1 |
| Libwsif.Wsif.AssignHeader | public/notebook/libwsif.php:172-200 | a header other than `title` sets its field, is ignored for `original_length`, or is noted as unknown |
| Libwsif.Wsif.FlushPage | public/notebook/libwsif.php:149-168 | the pending record is resolved and a failure reported, as specified |
| Libwsif.Wsif.Load | public/notebook/libwsif.php:77-219 | the loop over header lines returns, and leaves the codec in, exactly what the `_load` specification gives |
| Libwsif.Wsif.ScanLine | public/notebook/libwsif.php:121-206 | one turn of the loop: the header line read and applied, or the error that stops the scan |
| Libwsif.Wsif.ApplyHeader | public/notebook/libwsif.php:143-205 | a header line applied to the scan, with a `title` defining the pending record and truncating the buffer |
| Libwsif.Wsif.FinishScan | public/notebook/libwsif.php:209-216 | the last record is resolved when it has a title and a header |
| Libwsif.Wsif.Save | public/notebook/libwsif.php:399-546 | the loop over pages builds exactly the archive, blobs and count the save specification gives |
| Libwsif.Wsif.ExtraHead | public/notebook/libwsif.php:404-408 | the extra headers are the version, the generator headers and, for a non-empty author, the author |
| Libwsif.Wsif.SaveRecord | public/notebook/libwsif.php:417-504 | one page's record is appended inline or exported as a blob, as specified |
| Libwsif.Wsif.AppendInline | public/notebook/libwsif.php:487-495 | the original length, the drawn boundary and the framed body are appended, as specified |
| Libwsif.Wsif.AppendHeads | public/notebook/libwsif.php:418-485 | the record's header lines are appended in order, the timestamp, mime type and length only when they apply |
| Libwsif.Wsif.PrepareContent | public/notebook/libwsif.php:424-471 | the content, encoding, disposition, original length and mime type are the specified plan of the page |

## Left out

- Reading files (`file_get_contents`, lines 78 and 319) is a parameter.
  `_load` receives the buffer or `None`, and external blobs come from
  `Env.readFile`. Writing files (`save_file`, lines 502, 510 and 542) is not
  modelled. Blobs are collected in the result, and the index write is the
  boolean `indexSaved`. Lines 503 and 517 call `$this->Log`, which the
  class does not define, so a failed write would end the script with a fatal
  error. A failed blob write is not modelled.
- The public `Load` wrapper (lines 64-67) and the default hook and log
  functions (lines 44-53) only do I/O. The hook is `Env.hook`, and log output
  is the `log` field.
- base64 and `strnatcmp` are uninterpreted functions of `Env`. Round trips
  through base64 are assumed only where a lemma states them as
  preconditions.
- Libwsif.Wsif.DefineExternal: the nested `_load` of an external WSIF file is
  the abstract `Env.importNested`. It is called with depth `recursion + 1`, as
  intended; line 337 passes the depth in the hook's place. The path is the
  filename; `dirname($path)` and the `$the_dir+$d_fn` of line 319 are not
  modelled. Lines 313 and 326 are modelled with `$attrs` and `$mime` as
  intended. Line 321 joins its message with `+`; the error
  `ExternalReadFailed` carries the filename as intended.
- The advisory page count `_expected_pages` (lines 108-112) is not
  modelled. It reads an undefined `$recursing` and the constant `ct`, and
  nothing uses its value.
- `Save` in multi-file mode (`$single_wsif` false, lines 473-480, 509-519
  and 528-539) is not modelled. It is all file writes and the index of
  external references.
- Framing.GenerateRandomBoundary: the unbounded redraw loop is bounded by a
  finite sequence of draws. It returns `None` when they run out. So
  Libwsif.Wsif.Save and Saver.Save return `None` in that case.
- Saver.InlineRecordDefinesPage: proves that `_page_def` recovers the page
  from the fields and framed body written for it. It does not prove that
  `_load`'s header scan gathers exactly those fields from the written text.
  That scan can also match the record prefix inside a page body (line 205),
  which the model mirrors as written.
- Saver.InlineBodyReadsBack: for an image page, the read-back holds only
  when the page is also marked embedded. An image without the embedded bit
  is written as an ECMA or plain page. On reading, its image bit then
  demands base64, so the record is rejected.
- EcmaRoundTrip.EcmaRoundTrip: proved only for text without 4-byte
  sequences. `_ecma_encode_cb` reads a 4-byte lead as a 3-byte one (line
  596); `FourByteSequenceNotPreserved` shows the result. No corrected
  encoder is modelled, because the code gives no evident intended output for
  characters beyond U+FFFF.
- Text.IntVal: follows the `(int)` cast of PHP 7.0 on a 64-bit build. It
  skips leading white space, reads an optional sign and the leading decimal
  digits, and clamps the number to the 64-bit range. PHP 7.1 and later read
  numeric strings with a fraction or exponent (`1e3` as 1000); that is not
  modelled.
- Framing.CharsetRepeatsT: the charset at line 13 has `T` in place of `Y`
  and no `j`. Only the length and the repeated `T` are stated.
- Lines 408, 419, 422 and 500 are modelled by intent:
  - the author header carries `$author` (line 408 writes the constant
    `author`);
  - the attributes header reads the page's `attributes` (line 419);
  - the timestamp header is named `woas.page.last_modified` (line 422
    joins with `+`);
  - the filename header is followed by a newline (line 500 joins with `+`).
- The debug branch for a null encoding (lines 468-471) is not modelled.
  `Saver.EncodingNeverNull` proves it is never taken.
- The extra headers are assembled in the source's order. Version,
  generator and author come before the loop. The page count comes after it,
  unless merging is loose.

## Findings

| source | as written | input that shows it | evidently intended | confidence | as-written member | corrected member |
|---|---|---|---|---|---|---|
| public/notebook/libwsif.php:404-405 | the second assignment `$extra = ...` overwrites the `wsif.version` header, so the saved index has no version line and `_load` refuses it with "Could not read WSIF version" | any `Save` with at least one page | `$extra .= ...` on line 405, keeping the version header | not executed | Saver.SavedIndexRejectedAsWritten | Saver.SavedIndexVersionRead |
