/**
 * `Request` (src/request.h): the parsed request a route handler reads. No
 * field changes after construction, so a request is a value and its
 * methods are functions of it.
 */
module Requests {

  import opened Wrappers
  import opened Headers

  /** The HTTP method; the named methods' enumeration is declared outside this model. */
  datatype Method = Undefined | Named(verb: string)

  /** A route the request was matched to; the `Route` class is not part of this model. */
  type RouteRef = nat

  datatype Request = Request(
    version: string,
    uri: string,
    route: Option<RouteRef>,
    httpMethod: Method,
    hostname: string,
    secure: bool,
    body: string,
    ip: nat,
    headers: Store,
    path: string,
    protocol: string,
    query: Store,
    params: map<string, string>)

  /**
   * `Request(client)`: the method is `UNDEFINED`, there is no route yet,
   * and every other field holds its empty default.
   */
  function NewRequest(): (r: Request)
    ensures r.httpMethod == Undefined && r.route == None
    ensures r.headers == [] && r.query == [] && r.params == map[]
    ensures r.version == "" && r.uri == "" && r.hostname == "" && r.body == ""
    ensures r.path == "" && r.protocol == "" && !r.secure && r.ip == 0
  {
    Request("", "", None, Undefined, "", false, "", 0, [], "", "", [], map[])
  }

  /**
   * `get(field)`: the value of the first header whose key equals `field`
   * ignoring case, and "" when no key does.
   */
  function Get(r: Request, field: string): (value: string)
    ensures (forall i :: 0 <= i < |r.headers| ==> !Matches(r.headers[i], field)) ==> value == ""
    ensures forall i ::
      (0 <= i < |r.headers| && Matches(r.headers[i], field) &&
       forall j :: 0 <= j < i ==> !Matches(r.headers[j], field)) ==> value == r.headers[i].value
  {
    Lookup(r.headers, field)
  }

  /** `accepts(types)`: no content type is ever reported acceptable. */
  function Accepts(r: Request, types: string): (acceptable: bool)
    ensures !acceptable
  {
    false
  }
}
