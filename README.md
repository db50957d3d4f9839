# Arduino Express responses, modelled in Dafny

This project models the response side of an Express-style web framework for
Arduino. It also models the request-side header lookup. The model covers five
parts:

- the header store shared by responses and requests, with its
  case-insensitive `set`, `append` and `get`;
- the builder state of `_Response` (`src/response.cpp`) and of the template
  `Response` (`src/response.h`): status, body, deferred content, file name,
  options and headers;
- the byte-range clamping of `sendFile` and the `Content-Length`,
  `Content-Range` and `Accept-Ranges` headers it derives;
- the chunked writer `renderFile`, which streams a NUL-terminated buffer in
  chunks of at most 2048 bytes, over the whole buffer or per range;
- the order in which `send()` writes: status line, evaluated headers in store
  order, blank line, body (and `stop()` for the template); plus the template
  scanner `find`, `renderLine_` and `render_`.

Code that changes state step by step is modelled imperatively. The response
objects are classes whose methods update their fields. The client connection
is a ghost log `wire` of `Wire.Out` entries. Loops are `while`/`for` loops
proved against specification functions: `Delivery.Emit` with `Delivery.Chunks`
and `Delivery.RangeChunks`, `Ranges.Clamp` with `Ranges.WrappedSum`,
`Headers.IndexOf`, `Headers.SetAll`, `Wire.HeaderLines` and
`TemplateScan.FindResult`. The Dafny `Express.Response.Send` leaves the header
loop of `send()` (src/response.cpp:376-380) to `Express.Response.WriteHeaders`
and is proved to write exactly `Express.Transcript`. The request and the header search are values
and functions.

`size_t` arithmetic is modelled explicitly (`Native.AddWrap`,
`Native.SubWrap`) where `sendFile` computes with it, modulo `Native.Limit`
(2^64: a 64-bit `size_t` is assumed, see "## Left out"). The template's
`uint16_t` status is modelled as `Native.U16`. C strings are
`Native.CStr`: no NUL inside, with the buffer `f + ['\0']`.

Each Dafny `char` stands for one byte of an Arduino `String` or a C string.
So `|body|` is `body_.length()`, and `Decimal(|data| + 1)` is a byte count.
Characters above U+00FF have no counterpart in the source.

Where the code departs from what its headers announce, the main model
follows the code as written. The corrected definitions sit beside it, each
with the intended property proved (see "## Findings").

Modules: `Wrappers`, `Native`, `Headers`, `Wire`, `Http`, `Ranges`,
`Delivery`, `Express`, `Template`, `TemplateScan`, `Requests`.

## Model

| member | source | states |
|---|---|---|
| Native.AddWrap | src/response.cpp:257 | `size_t` addition: the result is `(a + b) mod Limit` |
| Native.SubWrap | src/response.cpp:256 | `size_t` subtraction: the result is `(a - b) mod Limit`, and exactly `a - b` when `b <= a` |
| Native.Decimal | src/response.cpp:268 | `String(n)` renders at least one character, all decimal digits, with no leading zero |
| Native.DecimalRoundTrip | src/response.cpp:278 | reading back the rendered number gives the number, so a length header carries its value |
| Native.DecimalInjective | src/response.cpp:223 | different numbers render to different header values |
| Headers.IndexOf | src/response.cpp:295-301 | the search lands on the first entry whose key equals the field ignoring case, or past the end when none does |
| Headers.FindIndex | src/response.cpp:295-301 | the `for (auto [key, header] : headers)` loop returns exactly the position `IndexOf` specifies |
| Headers.LookupFirstMatch | src/response.cpp:152-158 | `get` returns the value of the first entry whose key equals the field ignoring case |
| Headers.LookupMiss | src/response.cpp:157 | `get` returns "" when no key matches |
| Headers.SetShape | src/response.cpp:294-307 | on a hit only the matched entry's value changes (keys and other entries untouched); on a miss exactly one entry `(field, value)` is added at the end |
| Headers.SetThenGet | src/response.cpp:294-307 | after `set(f, v)`, `get(g)` returns `v` for every `g` equal to `f` ignoring case |
| Headers.SetOther | src/response.cpp:294-307 | `set(f, v)` does not change what `get(g)` returns for any `g` that differs from `f` ignoring case |
| Headers.SetKeepsUnique | src/response.cpp:294-307 | `set` keeps a store free of case-insensitive duplicate keys |
| Headers.AppendShape | src/response.cpp:92-106 | on a hit the matched value becomes old value followed by the new one, nothing else changes; on a miss one entry is added |
| Headers.AppendThenGet | src/response.cpp:92-106 | after `append(f, v)`, `get(g)` for `g` equal to `f` ignoring case returns the old value followed by `v` |
| Headers.AppendTwice | src/response.cpp:92-106 | two appends on a name not yet present yield `v1 + v2` |
| Headers.AppendKeepsUnique | src/response.cpp:92-106 | `append` keeps a store free of case-insensitive duplicate keys |
| Headers.AppendOther | src/response.cpp:92-106 | `append(f, v)` does not change `get(g)` for `g` different from `f` ignoring case |
| Headers.SetAfterAppend | src/response.h:123-127 | as documented, a `set` after `append` resets the value |
| Headers.PutThenExactGet | src/response.cpp:322-327 | `headers[k] = v` stores `v` under exactly `k` and leaves every other exact key's value alone |
| Headers.PutShape | src/response.cpp:103 | `headers[k] = v` keeps every entry's key and position and adds at most one entry |
| Headers.PutKeepsUnique | src/response.cpp:320-328 | on a store free of case-insensitive duplicates, `headers[k] = v` keeps it so exactly when `k` is stored under its own spelling or under none; when only another spelling is stored, a duplicate name is added |
| Headers.SetAllThenGet | src/response.cpp:275-277 | after copying the option headers with `set`, `get(g)` returns the last matching option value, or the old value when no option header matches |
| Wire.HeaderLines | src/response.cpp:376-380 | one header line per store entry, in store order, with that entry's key and value |
| Wire.LayoutOrder | src/response.cpp:362-386 | in a response layout the status line is first, header lines follow in store order, then the blank line, and body output only after it |
| Ranges.ClampPrefix | src/response.cpp:253-261 | the kept ranges are the in-order prefix up to and including the first range with `end > fileSize`; that range's end becomes `fileSize - 1` (wrapped); starts are untouched |
| Ranges.ClampRanges | src/response.cpp:249-263 | the clamping loop returns exactly `Clamp` and the wrapped running sum of `end - start + 1` over the kept ranges |
| Ranges.WrappedSumExact | src/response.cpp:257 | when ranges are ordered and the total fits in `size_t`, the wrapped sum equals the true sum |
| Ranges.ClampedEnds | src/response.cpp:254-256 | for a non-empty file every kept range ends at or before `fileSize` |
| Ranges.ClampedContentLength | src/response.cpp:257-268 | for a non-empty file, ordered ranges starting inside it, and a kept total below `Limit`, the kept ranges stay ordered and `Content-Length` is the exact Σ(end − start + 1) |
| Ranges.ClampFixed | src/response.cpp:253-261 | corrected clamp: every kept range lies inside the file; each is an input range, in input order, with its end lowered to `fileSize - 1` only when it reached past the file (`Derived`), so nothing is invented; ordered ranges that already lie inside the file are kept unchanged |
| Ranges.ClampFixedSumBounded | src/response.cpp:257 | with the corrected clamp the length sum is at most the number of kept ranges × file size, so it fits in `size_t` whenever that product does |
| Ranges.ClampKeepsEndAtFileSize | src/response.cpp:254-256 | a range ending exactly at `fileSize` is kept unclamped (`0-10` on a 10-byte file gives length 11) |
| Ranges.ClampEmptyFileWraps | src/response.cpp:256-257 | for an empty file the kept end wraps to `Limit − 1` and the sum wraps to 0 |
| Delivery.RenderFile | src/response.cpp:44-86 | renderFile writes exactly the planned chunks (ranges in list order when a range is given, else the whole string), each preceded by an observation when there is a callback |
| Delivery.WriteChunks | src/response.cpp:78-85 | the `while (i < end)` loop produces exactly the entries of `Chunks(start, end)` |
| Delivery.EmitObserved | src/response.cpp:64-66 | with a callback, every write is immediately preceded by an observation of the same offset and length |
| Delivery.EmitUnobserved | src/response.cpp:66 | without a callback, entry k is the write of chunk k |
| Delivery.ChunksConsecutive | src/response.cpp:59-68 | chunks are back to back from `i`, 1 to 2048 bytes each, and end at `end` when 2048 divides `end - i`, at `end + 1` otherwise |
| Delivery.WholeFileWrites | src/response.cpp:73-85 | without a range the string is sent alone when 2048 divides its length, and followed by its NUL terminator otherwise |
| Delivery.WholeFileLength | src/response.cpp:73-85 | without a range, `n` bytes are written when 2048 divides `n` and `n + 1` otherwise |
| Delivery.RangeWrites | src/response.cpp:58-69 | a range writes `[start, end]` when `(end - start) mod 2048 != 0`, only `[start, end - 1]` when it is 0, and nothing when `start == end` |
| Delivery.RangeLength | src/response.cpp:58-69 | bytes written plus one per range with `(end - start) mod 2048 == 0` equals Σ(end − start + 1) |
| Delivery.FixedChunksConsecutive | src/response.cpp:78-85 | the corrected loop covers exactly `[i, stop)` in chunks of at most 2048 bytes |
| Delivery.FixedWholeFile | src/response.cpp:73-85 | the corrected loop sends the string without its terminator: `Content-Length` bytes |
| Delivery.FixedRangeDelivery | src/response.cpp:58-69 | corrected clamp and loop: the bytes written equal the announced Σ(end − start + 1) and stay inside the file |
| Delivery.WholeFileOffByOne | src/response.cpp:80 | a 5-byte string is written as one 6-byte chunk; the corrected loop writes 5 |
| Delivery.RangeDropsLastByte | src/response.cpp:60-62 | range `0-0` writes nothing for length 1; `0-2048` writes 2048 for length 2049 |
| Delivery.EmptyFileOverread | src/response.cpp:254-268 | for an empty file the wrapped range makes renderFile read 2048 bytes from a 1-byte buffer |
| Delivery.RangeStartsPastEnd | src/response.cpp:253-257 | on a 10-byte file `bytes=15-20` is kept as `15-9` with `Content-Length` `Limit − 5` and nothing written, `bytes=10-20` as `10-9` with `Content-Length` 0; the corrected clamp drops both |
| Express.LastIndexOf | src/response.cpp:341 | the result is -1 or a position of `c`, with no `c` after it |
| Express.ExtensionFacts | src/response.cpp:341-342 | the extension is the longest dot-free suffix of the name: the whole name without a dot, else the text after the last dot |
| Express.UpToNul | src/response.cpp:227-229 | assigning a buffer to a `String` keeps exactly the prefix before the first NUL |
| Express.Response.constructor | src/response.cpp:35-39 | sets `headersSent` to false; with the other fields at their assumed defaults (see "## Left out") a new response has sent nothing and holds no headers, body, deferred content or options |
| Express.Response.Set | src/response.cpp:294-307 | the store becomes `Headers.Set` of the old store |
| Express.Response.Append | src/response.cpp:92-106 | the store becomes `Headers.Append` of the old store |
| Express.Response.Get | src/response.cpp:152-158 | returns `Lookup` of the store and changes nothing |
| Express.Response.Download | src/response.cpp:116-120 | defers the file and stores `Content-Disposition: attachment; filename=cool.html` whatever the file's name |
| Express.Response.End | src/response.cpp:139-147 | a given buffer becomes the body; without one nothing changes |
| Express.Response.Json | src/response.cpp:165-170 | the body is the text and `Content-Type` is set to `application/json` |
| Express.Response.SendText | src/response.cpp:175-179 | only the body changes |
| Express.Response.Render | src/response.cpp:190-200 | defers the view, keeps the locals and file name, sets `Content-Type: text/html`, leaves the body alone |
| Express.Response.SendFsFile | src/response.cpp:207-235 | a missing file gives 404 with headers and body unchanged; otherwise 200, `Content-Type` the MIME type, `Content-Length` the size + 1, body the bytes before the first NUL |
| Express.Response.SendFile | src/response.cpp:238-280 | defers the file; with a `range` option sets the clamped ranges, Content-Range/Length, Accept-Ranges and 206; with other options copies them and sets `Content-Length` to the length; with no options changes nothing else |
| Express.Response.ServeRanges | src/response.cpp:244-273 | the stored range option becomes the kept ranges, the headers become `RangeHeaders`, status 206 |
| Express.Response.ServeWhole | src/response.cpp:274-279 | every option header is copied with `set` in order, then `Content-Length` is set |
| Express.Response.SendStatus | src/response.cpp:286-288 | only the status changes |
| Express.Response.Status | src/response.cpp:312-316 | only the status changes |
| Express.Response.EvaluateHeaders | src/response.cpp:320-328 | the store becomes `EvaluatedHeaders` of the old store, body and settings |
| Express.Response.SendBody | src/response.cpp:332-359 | runs only once `headersSent` is set (src/response.cpp:383-385); writes a non-empty body and skips the content source; else the engine for a matching extension, else renderFile's observed chunks |
| Express.Response.WriteHeaders | src/response.cpp:376-380 | appends one header line per entry, in store order |
| Express.Response.SendHead | src/response.cpp:365-383 | writes status line, evaluated header lines and blank line from the pre-call state, and sets `headersSent` |
| Express.Response.Send | src/response.cpp:362-386 | `headersSent` is set before the body is written (the call to `SendBody` requires it); the log grows by exactly `Transcript` of the pre-call state; the store is evaluated and `headersSent` is set |
| Express.EvaluatedHeadersFacts | src/response.cpp:320-328 | `connection: close` always; `Content-Length` = body length only for a non-empty body; `X-Powered-By` only from settings; every other key keeps its value; existing keys keep their positions; at most 3 entries added |
| Express.TranscriptOrder | src/response.cpp:362-386 | `send()` writes the status line first, then header lines in store order, then the blank line, and only body output after |
| Express.BodyOutputIsBody | src/response.cpp:332-359 | everything `sendBody` writes is body output |
| Express.RangedResponseLength | src/response.cpp:244-270 | for a non-empty file, ordered ranges that all start inside it, and a kept total below `Limit`: after a ranged `sendFile`, renderFile serves the kept ranges; `Content-Length` is their exact Σ(end − start + 1); bytes written fall short by one per range with `(end - start) mod 2048 == 0` (ranges starting past the end: `Delivery.RangeStartsPastEnd`) |
| Express.RangeHeadersFacts | src/response.cpp:267-269 | `get` finds the Content-Range text, the wrapped sum as Content-Length, and `bytes` as Accept-Ranges |
| Express.WholeResponseLength | src/response.cpp:274-279 | without a range `Content-Length` is the length `n`, and renderFile writes `n` or `n + 1` bytes (the latter unless 2048 divides `n`) |
| Express.FsFileLength | src/response.cpp:222-229 | `Content-Length` reads back as size + 1 while the body holds at most `size` characters |
| Template.Response.constructor | src/response.h:25-40 | a new template response has status 404, no body, no headers, no deferred view |
| Template.Response.Append | src/response.h:130-146 | the store becomes `Headers.Append` of the old store |
| Template.Response.Get | src/response.h:165-173 | returns `Lookup` of the store and changes nothing |
| Template.Response.Set | src/response.h:277-293 | the store becomes `Headers.Set` of the old store |
| Template.Response.Json | src/response.h:179-185 | the body is the text and `content-type` is `application/json` |
| Template.Response.Render | src/response.h:242-254 | defers the view, keeps the locals, sets `content-type: text/html`, body untouched |
| Template.Response.SendText | src/response.h:259-262 | only the body changes |
| Template.Response.SendStatus | src/response.h:268-271 | only the status changes |
| Template.Response.Status | src/response.h:299-304 | the status becomes the argument modulo 2^16, the argument itself when it fits |
| Template.Response.EvaluateHeaders | src/response.h:45-51 | the store becomes `EvaluatedHeaders` of the old store and body |
| Template.Response.SendBody | src/response.h:55-64 | writes a non-empty body; a deferred view is walked without writing anything |
| Template.Response.WriteHeaders | src/response.h:103-108 | appends one header line per entry, in store order |
| Template.Response.Send | src/response.h:89-114 | the log grows by exactly the template `Transcript`: status, header lines, blank line, body, `stop()` |
| Express.DuplicateContentLength | src/response.cpp:320-328 | after `set("content-length", "5")`, `send()` with a 3-byte body stores `Content-Length: 3` as a second entry beside `content-length: 5`; the two keys are equal ignoring case |
| Express.EvaluatedHeadersFixedFacts | src/response.cpp:320-328 | the corrected `evaluateHeaders` makes `get` of `Content-Length` (non-empty body), `X-Powered-By` (when set) and `connection`, in any case, return the assigned value; every other name keeps its value; a store without case-insensitive duplicates stays without them |
| Express.FixedSingleContentLength | src/response.cpp:320-328 | on the input that shows the duplicate, the corrected `evaluateHeaders` yields exactly `content-length: 3` and `connection: close` |
| Template.EvaluatedHeadersFacts | src/response.h:45-51 | `connection: close` always; `content-length` only for a non-empty body; every other key keeps its value; existing keys keep their positions; at most 2 entries added |
| Template.TranscriptOrder | src/response.h:89-114 | status line first, header lines in store order, blank line, at most one body line, and `stop()` last and only once |
| TemplateScan.FirstFrom | src/response.h:191-193 | the first index holding `c` in the window, with no `c` before it |
| TemplateScan.FindResult | src/response.h:187-203 | -1 when `tot <= van`; otherwise -1 or an index in `(van, tot)` holding `ss[1]` after an earlier `ss[0]`, adjacent to it when `van > 0` |
| TemplateScan.Find | src/response.h:187-203 | the `i`/`j`/`w` loop returns exactly `FindResult` |
| TemplateScan.FindPair | src/response.h:187-203 | corrected search: the second position of the first occurrence of the marker in the window, or -1 exactly when none occurs |
| TemplateScan.FindMissesPair | src/response.h:198-199 | `find` returns -1 on "a{b{{" although `{{` occurs, and 2 on "{a{" where it does not |
| TemplateScan.FindSoundAfterStart | src/response.h:187-203 | for `van > 0` a reported match is a real adjacent marker with no earlier `ss[0]` in the window |
| TemplateScan.RenderLine | src/response.h:205-233 | every key follows a `{`, ends at a `}}` before `tot`, holds no `}`, and each key starts after the `}}` closing the previous one |
| TemplateScan.Render | src/response.h:69-86 | the visited spans split the view at its line feeds: first at 0, each next one past a line feed, the last ending at the terminator or a final line feed; none for an empty view |
| TemplateScan.LineLength | src/response.h:75-76 | the inner loop stops at the first line feed or at the terminator |
| Requests.NewRequest | src/request.h:72-75 | method `UNDEFINED`, no route, empty headers and query, other fields at their defaults |
| Requests.Get | src/request.h:88-96 | returns the value of the first header whose key equals the field ignoring case, and "" when none does |
| Requests.Accepts | src/request.h:80-83 | returns false for every input |

## Left out

- Transport: `print`, `println`, `write` and `stop` are entries of the ghost log `wire`. `send()` itself prints the `"HTTP/1.1 "` prefix before the status code (src/response.cpp:365, src/response.h:93); the model folds that prefix into the `StatusLine` entry. CRLF framing and buffering belong to the Arduino client library.
- File system: `fs.open`, `file.size`, `readBytes` and `close`, and the `new[]`/`delete[]` buffer, are not part of this model. `Express.Response.SendFsFile` takes the file's bytes as `Option<seq<char>>`.
- Range parsing and rendering: `_Request::rangeParse` and the range's `toString` are not part of this model. Ranges are an input list. `Ranges.RangeText` is a stand-in rendering, and the stored range option assumes that parsing the rendered ranges gives them back.
- MIME types: `mimeType.getType` (src/mimeType/mimeType.h has only declarations) is the `mimeType` parameter of `Express.Response.SendFsFile`.
- The `dictionary` type is not part of this model. Its `operator[]` is modelled as exact-key update-or-append (`Headers.Put`), and iteration follows insertion order. Under that reading the exact-key assignments of `evaluateHeaders` can duplicate a name that `set` stored in another case (see "## Findings"). The template's `evaluateHeaders` (src/response.h:45-51) assigns `content-length` and `connection` the same way and shares this behaviour; its corrected form is not modelled separately.
- The fixed capacity of 10 entries and its overflow behaviour are not modelled.
- The `set`/`append` loops bind `auto [key, header]` by value. The model assumes the dictionary's iterator yields references, so the matched entry is updated as documented. As written with copies, a hit would change nothing.
- `app.settings` and `app.engines` are fixed inputs of `Express.Response`. Their `operator[]` inserting default entries on a read miss is not modelled.
- Express.Response.SendBody: an engine's output is one `EngineRender` entry naming the engine. The locals, options and contents passed to it, and what it writes, are not modelled.
- A content source (`contentsCallback`) is modelled by the C string it returns. It is taken to return the same string each time it is called.
- Delivery.Chunks: neither `i + maxChunkLen` nor `i += remaining` is wrapped. Both wrap only for a range end within 2048 of `Limit`, which is exactly the `Limit − 1` end the empty-file clamp produces. There the code's `i` wraps back to 0 and its loop never stops; the model's chunk list ends instead, so non-termination is not captured.
- Native.Limit: `size_t` is taken to be 64 bits. The source does not fix it, and on 32-bit targets such as the ESP32 (which the `fs::FS` and `std::vector` use points to) `Limit` is 2^32. Every wrap-around is stated in terms of `Limit`, so only the concrete wrapped numbers change with the width.
- TemplateScan.Render: the `unsigned int` counters `start` and `i` are not wrapped. This only matters for views of 2^32 characters or more.
- Express.Response.Status: `HttpStatus` is an enumeration declared outside this model; its values are plain integers here.
- The `Options` copy made by `new Options(options)` and the copies of `renderLocals` are memory ownership, not modelled. The Arduino `String` truth test (`body_ &&`) is taken to be true, i.e. allocation never fails.
- Logging (`LOG_V`, `LOG_T`, `EX_DBG_I`) is not modelled.
- Express.Response.constructor: the `_Response` class declaration is not part of this model. Its constructor (src/response.cpp:35-39) sets only `headersSent`; the empty headers, body, content source, file name and options are assumed to be the default member initializers of that declaration.
- The TODO stubs `format`, `cookie` and `clearCookie` (src/response.cpp:110-132) have empty bodies. So do the template's `end` overloads (src/response.h:153-161). None of them is modelled.
- TemplateScan.RenderLine: keys are spans of the line. The `locals` lookups and the output of literal text are commented out in the source and not modelled.
- The template `render`'s unused `app_.engines.begin()` is not modelled.
- Request fields other than those set by the constructor are only carried as data. `IPAddress` is a plain number.
- Header names: the constants `ContentType`, `ContentLength`, `XPoweredBy` and `ApplicationJson` are declared in a header that is not part of this model. `Http` gives them their conventional spelling.

## Findings

The main model follows the code as written. The corrected members are the definitions the headers and documentation call for, and each has its intended property proved.

| source | as written | input that shows it | evidently intended | confidence | as-written member | corrected member |
|---|---|---|---|---|---|---|
| src/response.cpp:78-85 | the last chunk over the exclusive `end = strlen(f)` is `end - i + 1` bytes | a 5-byte string without a range: one 6-byte write that includes the NUL, against `Content-Length: 5` | last chunk `end - i`, sending exactly `strlen(f)` bytes | high; not executed | Delivery.WholeFileOffByOne | Delivery.FixedWholeFile |
| src/response.cpp:58-68 | the loop over an inclusive range guards with `i < end` | range `0-0` writes nothing against length 1; `0-2048` writes 2048 bytes against 2049 | loop over `[start, end + 1)` | high; not executed | Delivery.RangeDropsLastByte | Delivery.FixedRangeDelivery |
| src/response.cpp:254-256 | a range is clamped only when `end > fileSize` | 10-byte file, `bytes=0-10`: range `0-10` kept, `Content-Length: 11`, byte 10 does not exist | clamp when `end >= fileSize` (section 2.1 of RFC 7233) | high; not executed | Ranges.ClampKeepsEndAtFileSize | Ranges.ClampFixed |
| src/response.cpp:256 | `fileSize - 1` in `size_t` for an empty file | empty file, `bytes=0-5`: end `Limit − 1`, `Content-Length: 0`, renderFile reads 2048 bytes of a 1-byte buffer; the code's chunk loop then wraps `i` to 0 and never stops, which the model does not capture | ranges starting at or beyond the size are unsatisfiable and dropped | high; not executed | Delivery.EmptyFileOverread | Ranges.ClampFixed |
| src/response.cpp:253-257 | a range starting at or past the end of a non-empty file is kept with `end = fileSize - 1 < start`, and `end - start + 1` wraps | 10-byte file, `bytes=15-20`: kept `15-9`, `Content-Length: Limit − 5`, status 206, nothing written; `bytes=10-20`: `Content-Length: 0` | such ranges are unsatisfiable and dropped (section 2.1 of RFC 7233) | high; not executed | Delivery.RangeStartsPastEnd | Ranges.ClampFixed |
| src/response.cpp:320-328 | `evaluateHeaders` assigns through the dictionary's exact-key `operator[]`, while `set`, `append` and `get` match names ignoring case | `set("content-length", "5")` then `send()` with body `abc`: the store holds `content-length: 5` and `Content-Length: 3`, and two Content-Length lines with different values go out | assign through `set`, so the name appears once (section 3.3.2 of RFC 7230 forbids differing Content-Length values) | medium (depends on the dictionary comparing keys exactly); not executed | Express.DuplicateContentLength | Express.EvaluatedHeadersFixedFacts |
| src/response.h:191-202 | `find` stops at the first mismatch after a partial match; `w == 0` doubles as "nothing matched" | `"a{b{{"` returns -1 although `{{` occurs at 3; from `van = 0`, `"{a{"` returns 2 although no `{{` occurs | the position of the first adjacent occurrence of the marker | high; not executed | TemplateScan.FindMissesPair | TemplateScan.FindPair |
