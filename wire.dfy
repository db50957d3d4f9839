/**
 * What a response writes to its client connection, one entry per transport
 * call or callback. CRLF framing belongs to the transport and is left out:
 * a `println` is one line entry.
 */
module Wire {

  import opened Headers

  datatype Out =
    | StatusLine(code: int)                   // print("HTTP/1.1 "); println(status_)
    | HeaderLine(key: string, value: string)  // print(key); print(": "); println(value)
    | BlankLine                               // println()
    | BodyLine(text: string)                  // println(body_.c_str())
    | Observe(offset: nat, length: nat)       // callback(f + offset, length)
    | Write(offset: nat, length: nat)         // client.write(f + offset, length)
    | EngineRender(engine: string)            // engine(client, locals, options, contents)
    | Stop                                    // client.stop()

  /** Entries that carry or produce body bytes. */
  predicate IsBody(o: Out) {
    o.BodyLine? || o.Observe? || o.Write? || o.EngineRender?
  }

  /** One transport line per header entry, in store order. */
  function HeaderLines(h: Store): (lines: seq<Out>)
    ensures |lines| == |h|
    ensures forall i :: 0 <= i < |h| ==> lines[i] == HeaderLine(h[i].key, h[i].value)
  {
    if h == [] then [] else [HeaderLine(h[0].key, h[0].value)] + HeaderLines(h[1..])
  }

  /**
   * The layout of a response: the status line first, one line per header
   * entry in store order, the blank line, and only body output after it.
   */
  lemma LayoutOrder(status: int, e: Store, body: seq<Out>)
    requires forall i :: 0 <= i < |body| ==> IsBody(body[i])
    ensures var t := [StatusLine(status)] + HeaderLines(e) + [BlankLine] + body;
      && |t| >= |e| + 2
      && t[0] == StatusLine(status)
      && (forall i :: 0 <= i < |e| ==> t[1 + i] == HeaderLine(e[i].key, e[i].value))
      && t[|e| + 1] == BlankLine
      && (forall i :: 0 <= i <= |e| + 1 ==> !IsBody(t[i]))
      && (forall i :: |e| + 2 <= i < |t| ==> IsBody(t[i]))
  {
    var head := [StatusLine(status)] + HeaderLines(e) + [BlankLine];
    HeadLayout(status, e);
    ConcatIndex(head, body);
  }

  /** The head alone: status line, header lines in store order, blank line; none of it body output. */
  lemma HeadLayout(status: int, e: Store)
    ensures var head := [StatusLine(status)] + HeaderLines(e) + [BlankLine];
      && |head| == |e| + 2
      && head[0] == StatusLine(status)
      && (forall i :: 0 <= i < |e| ==> head[1 + i] == HeaderLine(e[i].key, e[i].value))
      && head[|e| + 1] == BlankLine
      && (forall i :: 0 <= i < |head| ==> !IsBody(head[i]))
  {
    var a := [StatusLine(status)] + HeaderLines(e);
    ConcatIndex([StatusLine(status)], HeaderLines(e));
    ConcatIndex(a, [BlankLine]);
  }

  lemma ConcatIndex(a: seq<Out>, b: seq<Out>)
    ensures |a + b| == |a| + |b|
    ensures forall i :: 0 <= i < |a| ==> (a + b)[i] == a[i]
    ensures forall i :: |a| <= i < |a| + |b| ==> (a + b)[i] == b[i - |a|]
  {
  }

  lemma Associative(a: seq<Out>, b: seq<Out>, c: seq<Out>)
    ensures a + b + c == a + (b + c)
  {
  }

  lemma Associative4(a: seq<Out>, b: seq<Out>, c: seq<Out>, d: seq<Out>)
    ensures a + b + c + d == a + (b + c + d)
  {
  }

  lemma HeaderLinesSnoc(h: Store, e: Header)
    ensures HeaderLines(h + [e]) == HeaderLines(h) + [HeaderLine(e.key, e.value)]
  {
  }
}

/** Header names, media types and status codes the response code uses. */
module Http {

  // The constants `ContentType`, `ContentLength`, `XPoweredBy` and
  // `ApplicationJson` are declared in a header outside this model; their
  // spelling here is the conventional one.
  const ContentType: string := "Content-Type"
  const ContentLength: string := "Content-Length"
  const XPoweredBy: string := "X-Powered-By"
  const ApplicationJson: string := "application/json"

  const Ok: int := 200
  const PartialContent: int := 206
  const NotFound: int := 404
}
