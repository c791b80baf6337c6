/** A prepared request (skype_web_php/Request.php): an HTTP method and a URI
    fixed at construction, and a parameter table that per-call parameters and
    headers are merged into, later keys overriding earlier ones. */
module Requests {
  import opened Wrappers
  import opened Dicts
  import opened Php

  datatype Request = Request(httpMethod: string, uri: string, params: Dict<Value>)

  /** `withParams($params)`: every supplied key is assigned in turn. A `null`
      argument (the caller passing nothing) leaves the request as it is. */
  function WithParams(r: Request, extra: Option<Dict<Value>>): (r': Request)
    ensures r'.httpMethod == r.httpMethod && r'.uri == r.uri
    ensures extra.None? ==> r' == r
    ensures r.params.Valid() ==> r'.params.Valid()
    ensures extra.Some? && extra.value.Valid() ==>
              forall k :: r'.params.Get(k) == (if k in extra.value.vals then extra.value.Get(k) else r.params.Get(k))
    ensures |r.params.keys| <= |r'.params.keys| && r'.params.keys[..|r.params.keys|] == r.params.keys
  {
    match extra
    case None => r
    case Some(p) => Request(r.httpMethod, r.uri, r.params.Merge(p))
  }

  /** `withHeader($name, $value)`: sets one header, creating the header table
      when there is none. `None` stands for the PHP error raised when the
      `headers` slot holds a value that cannot be indexed (a string, say). */
  function WithHeader(r: Request, name: string, value: Value): (r': Option<Request>)
    ensures r'.Some? <==> HeadersAssignable(r.params)
    ensures r'.Some? ==> r'.value.httpMethod == r.httpMethod && r'.value.uri == r.uri
    ensures r'.Some? ==> HeadersOf(r'.value.params).Get(name) == Some(value)
    ensures r'.Some? ==> forall j :: j != name ==> HeadersOf(r'.value.params).Get(j) == HeadersOf(r.params).Get(j)
    ensures r'.Some? ==> forall k :: k != "headers" ==> r'.value.params.Get(k) == r.params.Get(k)
    ensures r'.Some? && "headers" !in r.params.vals ==> r'.value.params.keys == r.params.keys + ["headers"]
    ensures r'.Some? && r.params.Valid() ==> r'.value.params.Valid()
  {
    var p :- SetInSlot(r.params, "headers", name, value);
    Some(Request(r.httpMethod, r.uri, p))
  }
}
