/** A request template (skype_web_php/Endpoint.php): HTTP method, URI with
    `%s` placeholders, default parameters, and two flags saying which session
    tokens the request must carry. */
module Endpoints {
  import opened Wrappers
  import opened Dicts
  import opened Php
  import opened Sprintf
  import opened Requests

  datatype Endpoint = Endpoint(httpMethod: string, uri: string, params: Dict<Value>, requirements: Dict<Value>)

  /** The initial value of the `requires` property: both flags false. */
  const DefaultRequires: Dict<Value> :=
    Dict(["skypeToken", "regToken"], map["skypeToken" := VBool(false), "regToken" := VBool(false)])

  /** What every constructed endpoint satisfies: well-formed tables, a
      `headers` parameter, and both flags present, listed first. */
  ghost predicate Valid(e: Endpoint) {
    && e.params.Valid()
    && "headers" in e.params.vals
    && e.requirements.Valid()
    && |e.requirements.keys| >= 2
    && e.requirements.keys[..2] == DefaultRequires.keys
  }

  /** `new Endpoint($method, $uri, $params, $requires)`. */
  function New(m: string, u: string, params: Dict<Value>, requirements: Dict<Value>): (e: Endpoint)
    ensures e.httpMethod == m && e.uri == u
    ensures params.Valid() && requirements.Valid() ==> Valid(e)
    ensures "headers" in params.vals ==> e.params == params
    ensures "headers" !in params.vals ==>
              && e.params.keys == params.keys + ["headers"]
              && e.params.Get("headers") == Some(VMap(Empty()))
              && forall k :: k != "headers" ==> e.params.Get(k) == params.Get(k)
    ensures requirements.Valid() ==>
              forall k :: e.requirements.Get(k) == (if k in requirements.vals then requirements.Get(k) else DefaultRequires.Get(k))
  {
    var p := if "headers" in params.vals then params else params.Set("headers", VMap(Empty()));
    DefaultsMerged(requirements);
    Endpoint(m, u, p, DefaultRequires.Merge(requirements))
  }

  /** The caller's flags merged over the defaults: both default flags stay
      listed first, and a flag the caller gives overrides its default. */
  lemma DefaultsMerged(requirements: Dict<Value>)
    ensures var r := DefaultRequires.Merge(requirements);
            && |r.keys| >= 2 && r.keys[..2] == DefaultRequires.keys
            && (requirements.Valid() ==> r.Valid())
            && (requirements.Valid() ==>
                  forall k :: r.Get(k) == (if k in requirements.vals then requirements.Get(k) else DefaultRequires.Get(k)))
  {
    assert DefaultRequires.Valid();
    assert |DefaultRequires.keys| == 2;
  }

  /** `$this->requires[$flag]`; a missing entry reads as `null`. */
  function Flag(e: Endpoint, flag: string): Value {
    e.requirements.Get(flag).GetOr(VNull)
  }

  /** The `skypeToken()` accessor. */
  function SkypeTokenFlag(e: Endpoint): Value { Flag(e, "skypeToken") }

  /** The `regToken()` accessor. */
  function RegTokenFlag(e: Endpoint): Value { Flag(e, "regToken") }

  /** Sets one flag to `true`, touching nothing else. */
  function Need(e: Endpoint, flag: string): (r: Endpoint)
    ensures r.httpMethod == e.httpMethod && r.uri == e.uri && r.params == e.params
    ensures Flag(r, flag) == VBool(true)
    ensures forall k :: k != flag ==> r.requirements.Get(k) == e.requirements.Get(k)
    ensures Valid(e) ==> Valid(r)
    ensures Flag(e, flag) == VBool(true) ==> r == e
  {
    var r := e.(requirements := e.requirements.Set(flag, VBool(true)));
    var n := |e.requirements.keys|;
    assert n >= 2 ==> r.requirements.keys[..2] == r.requirements.keys[..n][..2];
    r
  }

  /** `needSkypeToken()`. */
  function NeedSkypeToken(e: Endpoint): (r: Endpoint)
    ensures r.httpMethod == e.httpMethod && r.uri == e.uri && r.params == e.params
    ensures SkypeTokenFlag(r) == VBool(true) && RegTokenFlag(r) == RegTokenFlag(e)
    ensures forall k :: k != "skypeToken" ==> r.requirements.Get(k) == e.requirements.Get(k)
    ensures Valid(e) ==> Valid(r)
    ensures SkypeTokenFlag(e) == VBool(true) ==> r == e
  {
    Need(e, "skypeToken")
  }

  /** `needRegToken()`. */
  function NeedRegToken(e: Endpoint): (r: Endpoint)
    ensures r.httpMethod == e.httpMethod && r.uri == e.uri && r.params == e.params
    ensures RegTokenFlag(r) == VBool(true) && SkypeTokenFlag(r) == SkypeTokenFlag(e)
    ensures forall k :: k != "regToken" ==> r.requirements.Get(k) == e.requirements.Get(k)
    ensures Valid(e) ==> Valid(r)
    ensures RegTokenFlag(e) == VBool(true) ==> r == e
  {
    Need(e, "regToken")
  }

  /** `format($args)`: a new endpoint whose URI has its placeholders filled,
      with the same method, parameters and flags. `None` is the error PHP
      raises on a bad template or argument list. */
  function Format(e: Endpoint, args: Value): (r: Option<Endpoint>)
    requires args.VMap? ==> args.d.Valid()
    ensures r.Some? <==> ArgList(args).Some? && VSprintf(e.uri, ArgList(args).value).Some?
    ensures r.Some? ==> r.value.httpMethod == e.httpMethod
    ensures r.Some? ==> Some(r.value.uri) == VSprintf(e.uri, ArgList(args).value)
    ensures r.Some? && Valid(e) ==> Valid(r.value) && r.value.params == e.params && r.value.requirements == e.requirements
  {
    var a :- ArgList(args);
    var u :- VSprintf(e.uri, a);
    var r := New(e.httpMethod, u, e.params, e.requirements);
    RebuildKeepsFlags(e);
    Some(r)
  }

  /** Re-running the constructor on a valid endpoint's flags changes nothing. */
  lemma RebuildKeepsFlags(e: Endpoint)
    ensures Valid(e) ==> DefaultRequires.Merge(e.requirements) == e.requirements
  {
    if Valid(e) {
      MergeOntoExtension(DefaultRequires, e.requirements);
    }
  }

  /** `$args['params']` when it is a table. A scalar, `null` or the empty
      list makes the `foreach` of `withParams` a no-op; a non-empty list,
      whose entries PHP would copy under the keys `0`, `1`, ..., is dropped
      here as well. */
  function ExtraParams(args: Dict<Value>): Option<Dict<Value>> {
    match args.Get("params")
    case Some(VMap(p)) => Some(p)
    case _ => None
  }

  /** The parameters of the request before any token header is injected. */
  function MergedParams(e: Endpoint, args: Dict<Value>): Dict<Value> {
    WithParams(Request(e.httpMethod, e.uri, e.params), ExtraParams(args)).params
  }

  /** `getRequest($args)`: a request for this endpoint's method and URI, the
      extra `params` merged in first, then `X-SkypeToken` and
      `RegistrationToken` headers set from `$args` when the respective flag is
      truthy. `None` is the PHP error on a `headers` value that is not an array. */
  function GetRequest(e: Endpoint, args: Dict<Value>): (r: Option<Request>)
    ensures r.Some? ==> r.value.httpMethod == e.httpMethod && r.value.uri == e.uri
    ensures !Truthy(SkypeTokenFlag(e)) && !Truthy(RegTokenFlag(e)) ==> r.Some?
    ensures Truthy(SkypeTokenFlag(e)) || Truthy(RegTokenFlag(e)) ==>
              (r.Some? <==> HeadersAssignable(MergedParams(e, args)))
    ensures r.Some? && Truthy(SkypeTokenFlag(e)) ==>
              HeadersOf(r.value.params).Get("X-SkypeToken") == Some(args.Get("skypeToken").GetOr(VNull))
    ensures r.Some? && !Truthy(SkypeTokenFlag(e)) ==>
              HeadersOf(r.value.params).Get("X-SkypeToken") == HeadersOf(MergedParams(e, args)).Get("X-SkypeToken")
    ensures r.Some? && Truthy(RegTokenFlag(e)) ==>
              HeadersOf(r.value.params).Get("RegistrationToken") == Some(args.Get("regToken").GetOr(VNull))
    ensures r.Some? && !Truthy(RegTokenFlag(e)) ==>
              HeadersOf(r.value.params).Get("RegistrationToken") == HeadersOf(MergedParams(e, args)).Get("RegistrationToken")
    ensures r.Some? ==> forall h :: h != "X-SkypeToken" && h != "RegistrationToken" ==>
              HeadersOf(r.value.params).Get(h) == HeadersOf(MergedParams(e, args)).Get(h)
    ensures r.Some? ==> forall k :: k != "headers" ==> r.value.params.Get(k) == MergedParams(e, args).Get(k)
  {
    var r0 := WithParams(Request(e.httpMethod, e.uri, e.params), ExtraParams(args));
    var r1 :- if Truthy(SkypeTokenFlag(e)) then WithHeader(r0, "X-SkypeToken", args.Get("skypeToken").GetOr(VNull)) else Some(r0);
    var r2 :- if Truthy(RegTokenFlag(e)) then WithHeader(r1, "RegistrationToken", args.Get("regToken").GetOr(VNull)) else Some(r1);
    Some(r2)
  }
}
