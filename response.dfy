/**
 * `_Response` (src/response.cpp): the response an Express route handler
 * builds. Handlers set the status, headers and an immediate body or a
 * deferred content source; `send()` then writes the status line, the header
 * block and the body to the client, in that order.
 *
 * The client connection is the ghost log `wire`. `app.settings` and the
 * set of view-engine names that have an engine (`app.engines`) are fixed
 * inputs. A deferred content source (`contentsCallback`) is modelled by the
 * C string it returns, and is taken to return the same string every time
 * it is called.
 */
module Express {

  import opened Wrappers
  import opened Native
  import opened Headers
  import opened Ranges
  import opened Delivery
  import opened Wire
  import Http

  /**
   * The options of `sendFile`: its headers, and the ranges
   * `_Request::rangeParse` yields for the `range` header. `rangeParse` and
   * the range's `toString` are not part of this model; keeping the ranges
   * beside the header assumes that parsing the rendered ranges gives them back.
   */
  datatype Options = Options(headers: Store, ranges: seq<ByteRange>)

  /** A file handed to `render`, `download` or `sendFile`: its content source and its name. */
  datatype File = File(contents: Option<CStr>, filename: string)

  /** The fields of a response that `send()` reads. */
  datatype Draft = Draft(
    status: int,
    body: string,
    headers: Store,
    contents: Option<CStr>,
    filename: string,
    options: Option<Options>)

  /** `options->headers.count("range") > 0`. */
  predicate HasRange(o: Options) {
    ExactIndex(o.headers, "range") < |o.headers|
  }

  /** The ranges renderFile serves: present only with options holding a `range` header. */
  function RangeOf(options: Option<Options>): Option<seq<ByteRange>> {
    if options.Some? && HasRange(options.value) then Some(options.value.ranges) else None
  }

  /** `s.lastIndexOf(c)`: the last position of `c`, or -1. */
  function LastIndexOf(s: string, c: char): (i: int)
    ensures -1 <= i < |s|
    ensures 0 <= i ==> s[i] == c
    ensures forall j :: i < j < |s| ==> s[j] != c
  {
    if s == [] then -1
    else if s[|s| - 1] == c then |s| - 1
    else LastIndexOf(s[..|s| - 1], c)
  }

  /**
   * `filename.substring(filename.lastIndexOf('.') + 1)`: the text after the
   * last dot, or the whole name when it has none.
   */
  function Extension(filename: string): string {
    filename[LastIndexOf(filename, '.') + 1..]
  }

  /**
   * The extension is the longest dot-free suffix of the name: the whole name
   * when it has no dot, otherwise exactly the text after its last dot.
   */
  lemma ExtensionFacts(filename: string)
    ensures var ext := Extension(filename);
      && '.' !in ext
      && |ext| <= |filename| && ext == filename[|filename| - |ext|..]
      && (|ext| < |filename| ==> filename[|filename| - |ext| - 1] == '.')
      && ('.' !in filename ==> ext == filename)
  {
  }

  /** `app.settings[key]`: the setting, or "" when it is absent. */
  function Setting(settings: map<string, string>, key: string): string {
    if key in settings then settings[key] else ""
  }

  /** The characters of `s` before its first NUL: what assigning a `char *` to a `String` keeps. */
  function UpToNul(s: seq<char>): (t: string)
    ensures '\0' !in t
    ensures |t| <= |s| && t == s[..|t|]
    ensures |t| < |s| <==> '\0' in s
    ensures |t| < |s| ==> s[|t|] == '\0'
  {
    if s == [] || s[0] == '\0' then [] else [s[0]] + UpToNul(s[1..])
  }

  // ---------------------------------------------------------------------
  // What send() does, as functions of the response's fields.

  /** The header store after `evaluateHeaders`. */
  function EvaluatedHeaders(h: Store, body: string, settings: map<string, string>): Store {
    var withLength := if body != "" then Put(h, Http.ContentLength, Decimal(|body|)) else h;
    var withPoweredBy :=
      if Http.XPoweredBy in settings then Put(withLength, Http.XPoweredBy, settings[Http.XPoweredBy])
      else withLength;
    Put(withPoweredBy, "connection", "close")
  }

  /** What `sendBody` writes. */
  function BodyOutput(d: Draft, settings: map<string, string>, engines: set<string>): seq<Out> {
    if d.body != "" then [BodyLine(d.body)]
    else if d.contents.None? then []
    else
      var engineName := Setting(settings, "view engine");
      if engineName == Extension(d.filename) then
        (if engineName in engines then [EngineRender(engineName)] else [])
      else Emit(Planned(|d.contents.value|, RangeOf(d.options)), true)
  }

  /** What `send()` writes before the body: status line, header block, blank line. */
  function Head(d: Draft, settings: map<string, string>): seq<Out> {
    [StatusLine(d.status)] + HeaderLines(EvaluatedHeaders(d.headers, d.body, settings)) + [BlankLine]
  }

  /** Everything `send()` writes. */
  function Transcript(d: Draft, settings: map<string, string>, engines: set<string>): seq<Out> {
    Head(d, settings) + BodyOutput(d, settings, engines)
  }

  /** The headers `sendFile` sets for a ranged request. */
  function RangeHeaders(h: Store, kept: seq<ByteRange>, fileSize: Size): Store {
    var h1 := Set(h, "Content-Range", ContentRange(kept, fileSize));
    var h2 := Set(h1, "Content-Length", Decimal(WrappedSum(kept)));
    Set(h2, "Accept-Ranges", "bytes")
  }

  class Response {
    var status: int
    var body: string
    var headers: Store
    var contentsCallback: Option<CStr>
    var filename: string
    var options: Option<Options>
    var renderLocals: map<string, string>
    var headersSent: bool
    ghost var wire: seq<Out>
    const settings: map<string, string>
    const engines: set<string>

    function Snapshot(): Draft
      reads this
    {
      Draft(status, body, headers, contentsCallback, filename, options)
    }

    /** `_Response(app, client)`: nothing has been sent. */
    constructor (settings: map<string, string>, engines: set<string>)
      ensures this.settings == settings && this.engines == engines
      ensures !headersSent && wire == []
      ensures headers == [] && body == "" && contentsCallback == None && options == None
    {
      this.settings := settings;
      this.engines := engines;
      headersSent := false;
      wire := [];
      headers := [];
      body := "";
      contentsCallback := None;
      options := None;
    }

    /** `set(field, value)`. */
    method Set(field: string, value: string)
      modifies this`headers
      ensures headers == Headers.Set(old(headers), field, value)
    {
      var k := FindIndex(headers, field);
      if k < |headers| {
        headers := headers[k := Header(headers[k].key, value)];
      } else {
        headers := Put(headers, field, value);
      }
    }

    /** `append(field, value)`. */
    method Append(field: string, value: string)
      modifies this`headers
      ensures headers == Headers.Append(old(headers), field, value)
    {
      var k := FindIndex(headers, field);
      if k < |headers| {
        headers := headers[k := Header(headers[k].key, headers[k].value + value)];
      } else {
        headers := Put(headers, field, value);
      }
    }

    /** `get(field)`: reads the store and changes nothing. */
    method Get(field: string) returns (value: string)
      ensures value == Lookup(headers, field)
    {
      var k := FindIndex(headers, field);
      value := if k < |headers| then headers[k].value else "";
    }

    /** `download(file)`: defers the file and marks the response as an attachment. */
    method Download(file: File)
      modifies this`contentsCallback, this`filename, this`headers
      ensures contentsCallback == file.contents && filename == file.filename
      ensures headers == Put(old(headers), "Content-Disposition", "attachment; filename=cool.html")
    {
      contentsCallback := file.contents;
      filename := file.filename;
      headers := Put(headers, "Content-Disposition", "attachment; filename=cool.html");
    }

    /** `end(buffer, encoding)`: a buffer, when given, becomes the body. */
    method End(buffer: Option<string>)
      modifies this`body
      ensures body == if buffer.Some? then buffer.value else old(body)
    {
      if buffer.Some? {
        body := buffer.value;
      }
    }

    /** `json(body)`: the body, and `Content-Type: application/json`. */
    method Json(text: string)
      modifies this`body, this`headers
      ensures body == text
      ensures headers == Headers.Set(old(headers), Http.ContentType, Http.ApplicationJson)
    {
      body := text;
      Set(Http.ContentType, Http.ApplicationJson);
    }

    /** `send(body)`: only stores the body. */
    method SendText(text: string)
      modifies this`body
      ensures body == text
    {
      body := text;
    }

    /** `render(file, locals)`: defers the view and sets `Content-Type: text/html`; the body is untouched. */
    method Render(file: File, locals: map<string, string>)
      modifies this`contentsCallback, this`renderLocals, this`filename, this`headers
      ensures contentsCallback == file.contents && renderLocals == locals && filename == file.filename
      ensures headers == Headers.Set(old(headers), Http.ContentType, "text/html")
    {
      contentsCallback := file.contents;
      renderLocals := locals;
      filename := file.filename;
      Set(Http.ContentType, "text/html");
    }

    /**
     * `sendFile(fs, filePath)`. `fsFile` is the file's bytes, `None` when it
     * fails to open; `mimeType` is what `mimeType.getType(filePath)` returns.
     * The body keeps the bytes before the first NUL.
     */
    method SendFsFile(fsFile: Option<seq<char>>, mimeType: string)
      modifies this`headers, this`status, this`body
      ensures fsFile.None? ==> status == Http.NotFound && headers == old(headers) && body == old(body)
      ensures fsFile.Some? ==>
        && status == Http.Ok
        && headers == Headers.Set(Headers.Set(old(headers), Http.ContentType, mimeType),
                                  Http.ContentLength, Decimal(|fsFile.value| + 1))
        && body == UpToNul(fsFile.value + ['\0'])
    {
      if fsFile.Some? {
        var data := fsFile.value;
        Set(Http.ContentType, mimeType);
        Set(Http.ContentLength, Decimal(|data| + 1));
        status := Http.Ok;
        body := UpToNul(data + ['\0']);
      } else {
        status := Http.NotFound;
      }
    }

    /** `sendFile(file, options)`. */
    method SendFile(file: File, opts: Option<Options>)
      modifies this`contentsCallback, this`filename, this`options, this`headers, this`status
      ensures contentsCallback == file.contents && filename == file.filename
      ensures file.contents.Some? && opts.Some? && HasRange(opts.value) ==>
        var size := |file.contents.value|;
        var kept := Clamp(opts.value.ranges, size);
        && options == Some(Options(Put(opts.value.headers, "range", RangeText(kept)), kept))
        && headers == RangeHeaders(old(headers), kept, size)
        && status == Http.PartialContent
      ensures file.contents.Some? && opts.Some? && !HasRange(opts.value) ==>
        && options == opts
        && headers == Headers.Set(SetAll(old(headers), opts.value.headers),
                                  "Content-Length", Decimal(|file.contents.value|))
        && status == old(status)
      ensures file.contents.None? || opts.None? ==>
        && options == (if opts.Some? then opts else old(options))
        && headers == old(headers) && status == old(status)
    {
      contentsCallback := file.contents;
      filename := file.filename;
      if opts.Some? {
        options := opts;
      }
      if file.contents.Some? && opts.Some? {
        if HasRange(opts.value) {
          ServeRanges(|file.contents.value|, opts.value);
        } else {
          ServeWhole(|file.contents.value|, opts.value.headers);
        }
      }
    }

    /** The ranged branch of `sendFile`: clamp, describe the ranges, answer 206. */
    method ServeRanges(fileSize: Size, o: Options)
      modifies this`options, this`headers, this`status
      ensures var kept := Clamp(o.ranges, fileSize);
        && options == Some(Options(Put(o.headers, "range", RangeText(kept)), kept))
        && headers == RangeHeaders(old(headers), kept, fileSize)
        && status == Http.PartialContent
    {
      var kept, sum := ClampRanges(o.ranges, fileSize);
      options := Some(Options(Put(o.headers, "range", RangeText(kept)), kept));
      Set("Content-Range", ContentRange(kept, fileSize));
      Set("Content-Length", Decimal(sum));
      Set("Accept-Ranges", "bytes");
      status := Http.PartialContent;
    }

    /** The whole-file branch of `sendFile`: copy the option headers, then the length. */
    method ServeWhole(fileSize: Size, o: Store)
      modifies this`headers
      ensures headers == Headers.Set(SetAll(old(headers), o), "Content-Length", Decimal(fileSize))
    {
      for k := 0 to |o|
        invariant headers == SetAll(old(headers), o[..k])
      {
        SetAllSnoc(old(headers), o[..k], o[k]);
        assert o[..k + 1] == o[..k] + [o[k]];
        Set(o[k].key, o[k].value);
      }
      assert o[..|o|] == o;
      Set("Content-Length", Decimal(fileSize));
    }

    /** `sendStatus(statusCode)`: only the status changes. */
    method SendStatus(code: int)
      modifies this`status
      ensures status == code
    {
      status := code;
    }

    /** `status(code)`: only the status changes. */
    method Status(code: int)
      modifies this`status
      ensures status == code
    {
      status := code;
    }

    /** `evaluateHeaders(client)`. */
    method EvaluateHeaders()
      modifies this`headers
      ensures headers == EvaluatedHeaders(old(headers), body, settings)
    {
      if body != "" {
        headers := Put(headers, Http.ContentLength, Decimal(|body|));
      }
      if Http.XPoweredBy in settings {
        headers := Put(headers, Http.XPoweredBy, settings[Http.XPoweredBy]);
      }
      headers := Put(headers, "connection", "close");
    }

    /**
     * `sendBody(client, locals)`: a non-empty body is printed and the content
     * source is not called; otherwise the source's text goes to the view
     * engine named in the settings when it matches the file's extension, and
     * to renderFile (with an observer) when it does not. `send()` calls it
     * only once the header block is out and `headersSent` is set.
     */
    method SendBody()
      requires headersSent
      modifies this`wire
      ensures wire == old(wire) + BodyOutput(Snapshot(), settings, engines)
    {
      ghost var d := Snapshot();
      var out: seq<Out> := [];
      if body != "" {
        out := [BodyLine(body)];
      } else if contentsCallback.Some? {
        var ext := Extension(filename);
        var engineName := Setting(settings, "view engine");
        if engineName == ext {
          if engineName in engines {
            out := [EngineRender(engineName)];
          }
        } else {
          out := RenderFile(contentsCallback.value, RangeOf(options), true);
        }
      }
      assert out == BodyOutput(d, settings, engines);
      wire := wire + out;
    }

    /** The header-block loop of `send()`: one line per entry, in store order. */
    method WriteHeaders()
      modifies this`wire
      ensures wire == old(wire) + HeaderLines(headers)
    {
      for k := 0 to |headers|
        invariant wire == old(wire) + HeaderLines(headers[..k])
      {
        HeaderLinesSnoc(headers[..k], headers[k]);
        assert headers[..k + 1] == headers[..k] + [headers[k]];
        wire := wire + [HeaderLine(headers[k].key, headers[k].value)];
      }
      assert headers[..|headers|] == headers;
    }

    /** The part of `send()` before the body. */
    method SendHead()
      modifies this`wire, this`headers, this`headersSent
      ensures headersSent
      ensures headers == EvaluatedHeaders(old(headers), body, settings)
      ensures wire == old(wire) + Head(old(Snapshot()), settings)
    {
      ghost var d := Snapshot();
      ghost var w0 := wire;
      wire := wire + [StatusLine(status)];
      EvaluateHeaders();
      ghost var e := headers;
      assert e == EvaluatedHeaders(d.headers, d.body, settings);
      WriteHeaders();
      wire := wire + [BlankLine];
      headersSent := true;
      Associative4(w0, [StatusLine(d.status)], HeaderLines(e), [BlankLine]);
    }

    /** `send()`: status line, derived headers, header block, blank line, then the body. */
    method Send()
      modifies this`wire, this`headers, this`headersSent
      ensures headersSent
      ensures headers == EvaluatedHeaders(old(headers), body, settings)
      ensures wire == old(wire) + Transcript(old(Snapshot()), settings, engines)
    {
      ghost var d := Snapshot();
      ghost var w0 := wire;
      SendHead();
      ghost var e := headers;
      SendBody();
      BodyOutputHeaders(d, e, settings, engines);
      Associative(w0, Head(d, settings), BodyOutput(d, settings, engines));
    }
  }

  // ---------------------------------------------------------------------
  // Properties of send()

  /**
   * `evaluateHeaders` stores `connection: close` always, `Content-Length`
   * (the decimal body length) only for a non-empty body, and `X-Powered-By`
   * only when the settings hold it; it leaves every other key alone, keeps
   * every existing entry's key and position, and adds at most three entries.
   */
  lemma EvaluatedHeadersFacts(h: Store, body: string, settings: map<string, string>)
    ensures var e := EvaluatedHeaders(h, body, settings);
      && ExactGet(e, "connection") == Some("close")
      && (body != "" ==> ExactGet(e, Http.ContentLength) == Some(Decimal(|body|)))
      && (body == "" ==> ExactGet(e, Http.ContentLength) == ExactGet(h, Http.ContentLength))
      && (Http.XPoweredBy in settings ==> ExactGet(e, Http.XPoweredBy) == Some(settings[Http.XPoweredBy]))
      && (Http.XPoweredBy !in settings ==> ExactGet(e, Http.XPoweredBy) == ExactGet(h, Http.XPoweredBy))
      && |h| <= |e| <= |h| + 3
      && (forall i :: 0 <= i < |h| ==> e[i].key == h[i].key)
      && (forall k :: k != "connection" && k != Http.ContentLength && k != Http.XPoweredBy ==>
            ExactGet(e, k) == ExactGet(h, k))
  {
    var h1 := if body != "" then Put(h, Http.ContentLength, Decimal(|body|)) else h;
    var h2 := if Http.XPoweredBy in settings then Put(h1, Http.XPoweredBy, settings[Http.XPoweredBy]) else h1;
    var e := Put(h2, "connection", "close");
    if body != "" {
      PutThenExactGet(h, Http.ContentLength, Http.ContentLength, Decimal(|body|));
      PutShape(h, Http.ContentLength, Decimal(|body|));
    }
    if Http.XPoweredBy in settings {
      PutThenExactGet(h1, Http.XPoweredBy, Http.ContentLength, settings[Http.XPoweredBy]);
      PutShape(h1, Http.XPoweredBy, settings[Http.XPoweredBy]);
    }
    if body != "" {
      PutThenExactGet(h, Http.ContentLength, Http.XPoweredBy, Decimal(|body|));
    }
    PutThenExactGet(h2, "connection", Http.ContentLength, "close");
    PutThenExactGet(h2, "connection", Http.XPoweredBy, "close");
    PutShape(h2, "connection", "close");
    forall k | k != "connection" && k != Http.ContentLength && k != Http.XPoweredBy
      ensures ExactGet(e, k) == ExactGet(h, k)
    {
      if body != "" {
        PutThenExactGet(h, Http.ContentLength, k, Decimal(|body|));
      }
      if Http.XPoweredBy in settings {
        PutThenExactGet(h1, Http.XPoweredBy, k, settings[Http.XPoweredBy]);
      }
      PutThenExactGet(h2, "connection", k, "close");
    }
  }

  /**
   * As written: after `set("content-length", "5")`, `send()` with a
   * three-character body assigns `headers["Content-Length"]`, which the
   * exact-key dictionary adds as a second entry beside the lower-case one,
   * so two Content-Length lines with different values go out.
   */
  lemma DuplicateContentLength()
    ensures var e := EvaluatedHeaders(Headers.Set([], "content-length", "5"), "abc", map[]);
      && |e| == 3
      && e[0] == Header("content-length", "5")
      && e[1] == Header(Http.ContentLength, "3")
      && EqualsIgnoreCase(e[0].key, e[1].key)
      && !UniqueKeys(e)
  {
    var h := Headers.Set([], "content-length", "5");
    assert h == [Header("content-length", "5")];
    assert "content-length"[0] != Http.ContentLength[0];
    assert ExactIndex(h, Http.ContentLength) == 1;
    assert Decimal(|"abc"|) == "3";
    var h1 := Put(h, Http.ContentLength, "3");
    assert h1 == [Header("content-length", "5"), Header(Http.ContentLength, "3")];
    assert ExactIndex(h1, "connection") == 2;
    var e := Put(h1, "connection", "close");
    assert e == EvaluatedHeaders(h, "abc", map[]);
    LowerContentLength();
  }

  /** The lower-case spelling names the same header as `Content-Length`. */
  lemma LowerContentLength()
    ensures EqualsIgnoreCase("content-length", Http.ContentLength)
  {
    forall i | 0 <= i < |Http.ContentLength|
      ensures Lower("content-length"[i]) == Lower(Http.ContentLength[i])
    {
    }
  }

  /**
   * `evaluateHeaders` with every assignment made through `set`, which
   * matches names ignoring case, as the header store's design intends.
   */
  function EvaluatedHeadersFixed(h: Store, body: string, settings: map<string, string>): Store {
    var withLength := if body != "" then Headers.Set(h, Http.ContentLength, Decimal(|body|)) else h;
    var withPoweredBy :=
      if Http.XPoweredBy in settings then Headers.Set(withLength, Http.XPoweredBy, settings[Http.XPoweredBy])
      else withLength;
    Headers.Set(withPoweredBy, "connection", "close")
  }

  /**
   * The corrected `evaluateHeaders`: `get` of each of the three names, in
   * any case, sees the value assigned; every other name keeps its value;
   * and a store without case-insensitive duplicates stays without them.
   */
  lemma EvaluatedHeadersFixedFacts(h: Store, body: string, settings: map<string, string>)
    ensures var e := EvaluatedHeadersFixed(h, body, settings);
      && (forall g :: EqualsIgnoreCase("connection", g) ==> Lookup(e, g) == "close")
      && (forall g :: body != "" && EqualsIgnoreCase(Http.ContentLength, g) ==> Lookup(e, g) == Decimal(|body|))
      && (forall g :: Http.XPoweredBy in settings && EqualsIgnoreCase(Http.XPoweredBy, g) ==>
            Lookup(e, g) == settings[Http.XPoweredBy])
      && (forall g ::
            (!EqualsIgnoreCase("connection", g) && !EqualsIgnoreCase(Http.ContentLength, g) &&
             !EqualsIgnoreCase(Http.XPoweredBy, g)) ==> Lookup(e, g) == Lookup(h, g))
      && (UniqueKeys(h) ==> UniqueKeys(e))
  {
    var h1 := if body != "" then Headers.Set(h, Http.ContentLength, Decimal(|body|)) else h;
    var h2 := if Http.XPoweredBy in settings then Headers.Set(h1, Http.XPoweredBy, settings[Http.XPoweredBy]) else h1;
    var e := Headers.Set(h2, "connection", "close");
    forall g | EqualsIgnoreCase("connection", g)
      ensures Lookup(e, g) == "close"
    {
      SetThenGet(h2, "connection", g, "close");
    }
    forall g | body != "" && EqualsIgnoreCase(Http.ContentLength, g)
      ensures Lookup(e, g) == Decimal(|body|)
    {
      SetThenGet(h, Http.ContentLength, g, Decimal(|body|));
      if Http.XPoweredBy in settings {
        SetOther(h1, Http.XPoweredBy, g, settings[Http.XPoweredBy]);
      }
      SetOther(h2, "connection", g, "close");
    }
    forall g | Http.XPoweredBy in settings && EqualsIgnoreCase(Http.XPoweredBy, g)
      ensures Lookup(e, g) == settings[Http.XPoweredBy]
    {
      SetThenGet(h1, Http.XPoweredBy, g, settings[Http.XPoweredBy]);
      SetOther(h2, "connection", g, "close");
    }
    forall g | !EqualsIgnoreCase("connection", g) && !EqualsIgnoreCase(Http.ContentLength, g) &&
      !EqualsIgnoreCase(Http.XPoweredBy, g)
      ensures Lookup(e, g) == Lookup(h, g)
    {
      if body != "" {
        SetOther(h, Http.ContentLength, g, Decimal(|body|));
      }
      if Http.XPoweredBy in settings {
        SetOther(h1, Http.XPoweredBy, g, settings[Http.XPoweredBy]);
      }
      SetOther(h2, "connection", g, "close");
    }
    if UniqueKeys(h) {
      if body != "" {
        SetKeepsUnique(h, Http.ContentLength, Decimal(|body|));
      }
      if Http.XPoweredBy in settings {
        SetKeepsUnique(h1, Http.XPoweredBy, settings[Http.XPoweredBy]);
      }
      SetKeepsUnique(h2, "connection", "close");
    }
  }

  /** The corrected `evaluateHeaders` sends a single Content-Length line on the input that shows the duplicate. */
  lemma FixedSingleContentLength()
    ensures var e := EvaluatedHeadersFixed(Headers.Set([], "content-length", "5"), "abc", map[]);
      && e == [Header("content-length", "3"), Header("connection", "close")]
      && UniqueKeys(e)
  {
    var h := Headers.Set([], "content-length", "5");
    assert h == [Header("content-length", "5")];
    LowerContentLength();
    var h1 := Headers.Set(h, Http.ContentLength, Decimal(3));
    assert h1 == [Header("content-length", "3")];
    assert !EqualsIgnoreCase("content-length", "connection");
    assert IndexOf(h1, "connection") == 1;
    assert "content-length" != "connection";
  }

  /**
   * The transcript of `send()`: the status line first, then one line per
   * entry of the evaluated store in store order, then the blank line, and
   * only body output after it.
   */
  lemma TranscriptOrder(d: Draft, settings: map<string, string>, engines: set<string>)
    ensures var e := EvaluatedHeaders(d.headers, d.body, settings);
      var t := Transcript(d, settings, engines);
      && |t| >= |e| + 2
      && t[0] == StatusLine(d.status)
      && (forall i :: 0 <= i < |e| ==> t[1 + i] == HeaderLine(e[i].key, e[i].value))
      && t[|e| + 1] == BlankLine
      && (forall i :: 0 <= i <= |e| + 1 ==> !IsBody(t[i]))
      && (forall i :: |e| + 2 <= i < |t| ==> IsBody(t[i]))
  {
    var e := EvaluatedHeaders(d.headers, d.body, settings);
    var body := BodyOutput(d, settings, engines);
    BodyOutputIsBody(d, settings, engines);
    LayoutOrder(d.status, e, body);
    assert Transcript(d, settings, engines) == [StatusLine(d.status)] + HeaderLines(e) + [BlankLine] + body;
  }

  /** Everything `sendBody` writes is body output. */
  lemma BodyOutputIsBody(d: Draft, settings: map<string, string>, engines: set<string>)
    ensures forall i :: 0 <= i < |BodyOutput(d, settings, engines)| ==> IsBody(BodyOutput(d, settings, engines)[i])
  {
    if d.body == "" && d.contents.Some? && Setting(settings, "view engine") != Extension(d.filename) {
      EmitIsBody(Planned(|d.contents.value|, RangeOf(d.options)), true);
    }
  }

  /**
   * A ranged `sendFile` followed by `send()` of a non-empty file whose
   * ordered ranges start inside it: the range option renderFile later reads
   * holds the kept ranges, `get("Content-Length")` is Σ(end − start + 1)
   * over them, and the bytes renderFile writes fall short of that by one
   * for each kept range with `(end - start) mod 2048 == 0`.
   */
  lemma RangedResponseLength(o: Options, fileSize: Size, h: Store)
    requires 0 < fileSize && Ordered(o.ranges)
    requires forall i :: 0 <= i < |o.ranges| ==> o.ranges[i].start < fileSize
    requires SumLengths(Clamp(o.ranges, fileSize)) < Limit
    ensures var kept := Clamp(o.ranges, fileSize);
      var served := RangeOf(Some(Options(Put(o.headers, "range", RangeText(kept)), kept)));
      && served == Some(kept)
      && Lookup(RangeHeaders(h, kept, fileSize), "Content-Length") == Decimal(WrappedSum(kept))
      && WrappedSum(kept) == SumLengths(kept)
      && Lookup(RangeHeaders(h, kept, fileSize), "Accept-Ranges") == "bytes"
      && Total(Planned(fileSize, served)) + Short(kept) == SumLengths(kept)
  {
    var kept := Clamp(o.ranges, fileSize);
    PutThenExactGet(o.headers, "range", "range", RangeText(kept));
    ClampedContentLength(o.ranges, fileSize);
    RangeLength(kept);
    RangeHeadersFacts(h, kept, fileSize);
  }

  /**
   * The headers of a ranged `sendFile`: `get` finds `Content-Range`,
   * the wrapped sum as `Content-Length`, and `Accept-Ranges: bytes`.
   */
  lemma RangeHeadersFacts(h: Store, kept: seq<ByteRange>, fileSize: Size)
    ensures Lookup(RangeHeaders(h, kept, fileSize), "Content-Range") == ContentRange(kept, fileSize)
    ensures Lookup(RangeHeaders(h, kept, fileSize), "Content-Length") == Decimal(WrappedSum(kept))
    ensures Lookup(RangeHeaders(h, kept, fileSize), "Accept-Ranges") == "bytes"
  {
    var h1 := Headers.Set(h, "Content-Range", ContentRange(kept, fileSize));
    var h2 := Headers.Set(h1, "Content-Length", Decimal(WrappedSum(kept)));
    KeyFacts();
    SetThenGet(h, "Content-Range", "Content-Range", ContentRange(kept, fileSize));
    SetOther(h1, "Content-Length", "Content-Range", Decimal(WrappedSum(kept)));
    SetOther(h2, "Accept-Ranges", "Content-Range", "bytes");
    SetThenGet(h1, "Content-Length", "Content-Length", Decimal(WrappedSum(kept)));
    SetOther(h2, "Accept-Ranges", "Content-Length", "bytes");
    SetThenGet(h2, "Accept-Ranges", "Accept-Ranges", "bytes");
  }

  /**
   * `sendFile` with options but no range, followed by `send()`:
   * `get("Content-Length")` is the file's length `n`, and renderFile writes
   * `n` bytes when 2048 divides `n` and `n + 1` otherwise.
   */
  lemma WholeResponseLength(o: Options, c: CStr, h: Store)
    requires !HasRange(o)
    ensures RangeOf(Some(o)) == None
    ensures Lookup(Headers.Set(SetAll(h, o.headers), "Content-Length", Decimal(|c|)), "Content-Length") == Decimal(|c|)
    ensures Total(Planned(|c|, RangeOf(Some(o)))) == if |c| % MaxChunkLen == 0 then |c| else |c| + 1
  {
    KeyFacts();
    SetThenGet(SetAll(h, o.headers), "Content-Length", "Content-Length", Decimal(|c|));
    WholeFileLength(|c|);
  }

  /**
   * `sendFile(fs, path)` on a file of `n` bytes: `get("Content-Length")`
   * is `n + 1`, one more than the file holds, and the body is at most `n`
   * characters long.
   */
  lemma FsFileLength(h: Store, data: seq<char>, mimeType: string)
    ensures var h' := Headers.Set(Headers.Set(h, Http.ContentType, mimeType), Http.ContentLength, Decimal(|data| + 1));
      && Lookup(h', "Content-Length") == Decimal(|data| + 1)
      && ParseDecimal(Lookup(h', "Content-Length")) == |data| + 1
      && |UpToNul(data + ['\0'])| <= |data|
  {
    KeyFacts();
    SetThenGet(Headers.Set(h, Http.ContentType, mimeType), Http.ContentLength, "Content-Length", Decimal(|data| + 1));
    DecimalRoundTrip(|data| + 1);
    assert (data + ['\0'])[|data|] == '\0';
  }

  /** Header names used above that differ ignoring case. */
  lemma KeyFacts()
    ensures !EqualsIgnoreCase("Content-Length", "Content-Range")
    ensures !EqualsIgnoreCase("Accept-Ranges", "Content-Length")
    ensures !EqualsIgnoreCase("Accept-Ranges", "Content-Range")
  {
    assert Lower("Accept-Ranges"[0]) != Lower("Content-Range"[0]);
  }

  lemma SetAllSnoc(h: Store, opts: Store, o: Header)
    ensures SetAll(h, opts + [o]) == Headers.Set(SetAll(h, opts), o.key, o.value)
    decreases |opts|
  {
    if opts != [] {
      assert (opts + [o])[1..] == opts[1..] + [o];
      SetAllSnoc(Headers.Set(h, opts[0].key, opts[0].value), opts[1..], o);
    }
  }

  /** The body does not depend on the header store. */
  lemma BodyOutputHeaders(d: Draft, h: Store, settings: map<string, string>, engines: set<string>)
    ensures BodyOutput(d.(headers := h), settings, engines) == BodyOutput(d, settings, engines)
  {
  }

}
