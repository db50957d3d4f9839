/**
 * The template `Response` (src/response.h): the same builder as
 * `_Response` with its own header names and defaults. Its status is a
 * `uint16_t` that starts at 404, `send()` never adds `X-Powered-By`, and a
 * deferred view is walked by `render_` without writing anything. The client
 * connection is the ghost log `wire`.
 */
module Template {

  import opened Wrappers
  import opened Native
  import opened Headers
  import opened Wire
  import opened TemplateScan
  import Http

  /** The header store after `evaluateHeaders`. */
  function EvaluatedHeaders(h: Store, body: string): Store {
    var withLength := if body != "" then Put(h, "content-length", Decimal(|body|)) else h;
    Put(withLength, "connection", "close")
  }

  /** What `sendBody` writes: a non-empty body, or nothing. */
  function BodyOutput(body: string): seq<Out> {
    if body != "" then [BodyLine(body)] else []
  }

  /** Everything `send()` writes, ending with the connection's `stop()`. */
  function Transcript(status: U16, h: Store, body: string): seq<Out> {
    [StatusLine(status)] + HeaderLines(EvaluatedHeaders(h, body)) + [BlankLine] + BodyOutput(body) + [Stop]
  }

  class Response {
    var body: string
    var status: U16
    var headers: Store
    var contentsCallback: Option<CStr>
    var renderLocals: map<string, string>
    ghost var wire: seq<Out>

    /** `Response(app, client)`: status 404, no body, no headers, no deferred view. */
    constructor ()
      ensures status == Http.NotFound
      ensures body == "" && headers == [] && contentsCallback == None && renderLocals == map[]
      ensures wire == []
    {
      status := Http.NotFound;
      body := "";
      headers := [];
      contentsCallback := None;
      renderLocals := map[];
      wire := [];
    }

    /** `append(field, value)`. */
    method Append(field: string, value: string)
      modifies this`headers
      ensures headers == Headers.Append(old(headers), field, value)
    {
      var k := FindIndex(headers, field);
      if k < |headers| {
        headers := headers[k := Header(headers[k].key, headers[k].value + value)];
      } else {
        headers := Put(headers, field, value);
      }
    }

    /** `get(field)`: reads the store and changes nothing. */
    method Get(field: string) returns (value: string)
      ensures value == Lookup(headers, field)
    {
      var k := FindIndex(headers, field);
      value := if k < |headers| then headers[k].value else "";
    }

    /** `set(field, value)`. */
    method Set(field: string, value: string)
      modifies this`headers
      ensures headers == Headers.Set(old(headers), field, value)
    {
      var k := FindIndex(headers, field);
      if k < |headers| {
        headers := headers[k := Header(headers[k].key, value)];
      } else {
        headers := Put(headers, field, value);
      }
    }

    /** `json(body)`: the body, and `content-type: application/json`. */
    method Json(text: string)
      modifies this`body, this`headers
      ensures body == text
      ensures headers == Headers.Set(old(headers), "content-type", Http.ApplicationJson)
    {
      body := text;
      Set("content-type", Http.ApplicationJson);
    }

    /** `render(fileCallback, locals)`: defers the view and sets `content-type: text/html`; the body is untouched. */
    method Render(fileCallback: Option<CStr>, locals: map<string, string>)
      modifies this`contentsCallback, this`renderLocals, this`headers
      ensures contentsCallback == fileCallback && renderLocals == locals
      ensures headers == Headers.Set(old(headers), "content-type", "text/html")
    {
      contentsCallback := fileCallback;
      renderLocals := locals;
      Set("content-type", "text/html");
    }

    /** `send(body)`: only stores the body. */
    method SendText(text: string)
      modifies this`body
      ensures body == text
    {
      body := text;
    }

    /** `sendStatus(statusCode)`: only the status changes. */
    method SendStatus(code: U16)
      modifies this`status
      ensures status == code
    {
      status := code;
    }

    /** `status(status)`: the `int` argument is converted to `uint16_t`, modulo 2^16. */
    method Status(code: int)
      modifies this`status
      ensures status == code % 0x1_0000
      ensures 0 <= code < 0x1_0000 ==> status == code
    {
      status := code % 0x1_0000;
    }

    /** `evaluateHeaders(client)`. */
    method EvaluateHeaders()
      modifies this`headers
      ensures headers == EvaluatedHeaders(old(headers), body)
    {
      if body != "" {
        headers := Put(headers, "content-length", Decimal(|body|));
      }
      headers := Put(headers, "connection", "close");
    }

    /**
     * `sendBody(client, locals)`: a non-empty body is printed; otherwise a
     * deferred view is walked by `render_`, which writes nothing.
     */
    method SendBody()
      modifies this`wire
      ensures wire == old(wire) + BodyOutput(body)
    {
      if body != "" {
        wire := wire + [BodyLine(body)];
      } else if contentsCallback.Some? {
        var lines := TemplateScan.Render(contentsCallback.value);
      }
    }

    /** The header-block loop of `send()`: one line per entry, in store order. */
    method WriteHeaders()
      modifies this`wire
      ensures wire == old(wire) + HeaderLines(headers)
    {
      for k := 0 to |headers|
        invariant wire == old(wire) + HeaderLines(headers[..k])
      {
        HeaderLinesSnoc(headers[..k], headers[k]);
        assert headers[..k + 1] == headers[..k] + [headers[k]];
        wire := wire + [HeaderLine(headers[k].key, headers[k].value)];
      }
      assert headers[..|headers|] == headers;
    }

    /** `send()`: status line, derived headers, header block, blank line, body, then `stop()`. */
    method Send()
      modifies this`wire, this`headers
      ensures headers == EvaluatedHeaders(old(headers), body)
      ensures wire == old(wire) + Transcript(status, old(headers), body)
    {
      ghost var w0 := wire;
      ghost var h0 := headers;
      wire := wire + [StatusLine(status)];
      EvaluateHeaders();
      WriteHeaders();
      wire := wire + [BlankLine];
      Associative4(w0, [StatusLine(status)], HeaderLines(headers), [BlankLine]);
      ghost var head := [StatusLine(status)] + HeaderLines(headers) + [BlankLine];
      SendBody();
      wire := wire + [Stop];
      Associative4(w0, head, BodyOutput(body), [Stop]);
    }
  }

  /**
   * `evaluateHeaders` stores `connection: close` always and `content-length`
   * (the decimal body length) only for a non-empty body; it leaves every
   * other key's value alone, keeps every existing entry's key and position,
   * and adds at most two entries.
   */
  lemma EvaluatedHeadersFacts(h: Store, body: string)
    ensures var e := EvaluatedHeaders(h, body);
      && ExactGet(e, "connection") == Some("close")
      && (body != "" ==> ExactGet(e, "content-length") == Some(Decimal(|body|)))
      && (body == "" ==> ExactGet(e, "content-length") == ExactGet(h, "content-length"))
      && |h| <= |e| <= |h| + 2
      && (forall i :: 0 <= i < |h| ==> e[i].key == h[i].key)
      && (forall k :: k != "connection" && k != "content-length" ==> ExactGet(e, k) == ExactGet(h, k))
  {
    var h1 := if body != "" then Put(h, "content-length", Decimal(|body|)) else h;
    if body != "" {
      PutThenExactGet(h, "content-length", "content-length", Decimal(|body|));
      PutShape(h, "content-length", Decimal(|body|));
    }
    PutThenExactGet(h1, "connection", "content-length", "close");
    PutShape(h1, "connection", "close");
    forall k | k != "connection" && k != "content-length"
      ensures ExactGet(EvaluatedHeaders(h, body), k) == ExactGet(h, k)
    {
      if body != "" {
        PutThenExactGet(h, "content-length", k, Decimal(|body|));
      }
      PutThenExactGet(h1, "connection", k, "close");
    }
  }

  /**
   * The transcript of `send()`: the status line, one line per entry of the
   * evaluated store in store order, the blank line, at most one body line,
   * and `stop()` last.
   */
  lemma TranscriptOrder(status: U16, h: Store, body: string)
    ensures var e := EvaluatedHeaders(h, body);
      var t := Transcript(status, h, body);
      && |t| == |e| + 3 + (if body != "" then 1 else 0)
      && t[0] == StatusLine(status)
      && (forall i :: 0 <= i < |e| ==> t[1 + i] == HeaderLine(e[i].key, e[i].value))
      && t[|e| + 1] == BlankLine
      && (body != "" ==> t[|e| + 2] == BodyLine(body))
      && t[|t| - 1] == Stop
      && (forall i :: 0 <= i < |t| && t[i].Stop? ==> i == |t| - 1)
  {
    var e := EvaluatedHeaders(h, body);
    var b := BodyOutput(body);
    LayoutOrder(status, e, b);
    var a := [StatusLine(status)] + HeaderLines(e) + [BlankLine] + b;
    ConcatIndex(a, [Stop]);
    assert Transcript(status, h, body) == a + [Stop];
  }
}
