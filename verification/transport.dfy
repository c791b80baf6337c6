/** The message transport of skype_web_php/Transport.php: the table of named
    endpoints, the redirect hook that learns the messaging cloud, the way a
    request is built from an endpoint name and call parameters, the
    registration branch of `login`, and the `send` payload. The HTTP client,
    the session file and the clock are outside the model: responses, stored
    records and times are parameters. */
module Transport {
  import opened Wrappers
  import opened Text
  import opened Dicts
  import opened Php
  import opened Sprintf
  import opened Requests
  import opened Endpoints
  import opened Cloud
  import opened Session

  const AsmUri := "https://api.asm.skype.com/v1/skypetokenauth"
  const EndpointsUri := "https://client-s.gateway.messenger.live.com/v1/users/ME/endpoints"
  const ContactsUri := "https://contacts.skype.com/contacts/v2/users/self/contacts"
  /** The send template `https://%sclient-s.gateway.messenger.live.com/v1/users/ME/conversations/%s/messages`,
      written as its literal runs around the two `%s`: the scheme, the
      gateway path and the messages suffix. */
  const GatewayPath := ".gateway.messenger" + ".live.com/v1/users" + "/ME/conversations/"
  const SendUriParts: seq<string> := ["https://", "client-s" + GatewayPath, "/messages"]
  const SendMessageUri := Join(SendUriParts, "%s")
  const LogoutUri := "https://login.skype.com/logout?client_id=578134&redirect_uri=https%3A%2F%2Fweb.skype.com&intsrc=client-_-webapp-_-production-_-go-signin"

  /** Names of the registered endpoints, in registration order. */
  const EndpointNames: seq<string> := ["asm", "endpoint", "contacts", "send_message", "logout"]

  /** An endpoint with the given method, URI and flags, no parameters other
      than an empty header table. */
  ghost predicate Registered(e: Endpoint, m: string, u: string, skype: bool, reg: bool) {
    && e.httpMethod == m && e.uri == u
    && SkypeTokenFlag(e) == VBool(skype) && RegTokenFlag(e) == VBool(reg)
    && e.params.Get("headers") == Some(VMap(Empty()))
    && Endpoints.Valid(e)
  }

  /** `new Endpoint($m, $u)` for the table. */
  function Plain(m: string, u: string): (e: Endpoint)
    ensures Registered(e, m, u, false, false)
  {
    New(m, u, Empty(), Empty())
  }

  function AsmEndpoint(): (e: Endpoint)
    ensures Registered(e, "POST", AsmUri, false, false)
  {
    Plain("POST", AsmUri)
  }

  function RegistrationEndpoint(): (e: Endpoint)
    ensures Registered(e, "POST", EndpointsUri, true, false)
  {
    NeedSkypeToken(Plain("POST", EndpointsUri))
  }

  function ContactsEndpoint(): (e: Endpoint)
    ensures Registered(e, "GET", ContactsUri, true, false)
  {
    NeedSkypeToken(Plain("GET", ContactsUri))
  }

  function SendMessageEndpoint(): (e: Endpoint)
    ensures Registered(e, "POST", SendMessageUri, false, true)
  {
    NeedRegToken(Plain("POST", SendMessageUri))
  }

  function LogoutEndpoint(): (e: Endpoint)
    ensures Registered(e, "Get", LogoutUri, false, false)
  {
    Plain("Get", LogoutUri)
  }

  /** The endpoint names are pairwise different (they differ in their first
      letter). */
  lemma EndpointNamesDistinct()
    ensures Distinct(EndpointNames)
    ensures forall i, j :: 0 <= i < j < |EndpointNames| ==> EndpointNames[i][0] != EndpointNames[j][0]
  {
    var ns := EndpointNames;
    assert ns[0][0] == 'a' && ns[1][0] == 'e' && ns[2][0] == 'c' && ns[3][0] == 's' && ns[4][0] == 'l';
    forall i, j | 0 <= i < j < |ns| ensures ns[i] != ns[j] {
      assert ns[i][0] != ns[j][0];
    }
  }

  /** The entry `init` registers under `name`, if any. */
  function Lookup(name: string): (r: Option<Endpoint>)
    ensures r.Some? <==> name in EndpointNames
  {
    if name !in EndpointNames then None
    else if name == "asm" then Some(AsmEndpoint())
    else if name == "endpoint" then Some(RegistrationEndpoint())
    else if name == "contacts" then Some(ContactsEndpoint())
    else if name == "send_message" then Some(SendMessageEndpoint())
    else Some(LogoutEndpoint())
  }

  /** What each name stands for: its method, URI and token flags. */
  lemma LookupEntries()
    ensures Lookup("asm").Some? && Registered(Lookup("asm").value, "POST", AsmUri, false, false)
    ensures Lookup("endpoint").Some? && Registered(Lookup("endpoint").value, "POST", EndpointsUri, true, false)
    ensures Lookup("contacts").Some? && Registered(Lookup("contacts").value, "GET", ContactsUri, true, false)
    ensures Lookup("send_message").Some? && Registered(Lookup("send_message").value, "POST", SendMessageUri, false, true)
    ensures Lookup("logout").Some? && Registered(Lookup("logout").value, "Get", LogoutUri, false, false)
  {
    assert Lookup("asm") == Some(AsmEndpoint());
    assert Lookup("endpoint") == Some(RegistrationEndpoint());
    assert Lookup("contacts") == Some(ContactsEndpoint());
    assert Lookup("send_message") == Some(SendMessageEndpoint());
    assert Lookup("logout") == Some(LogoutEndpoint());
  }

  /** The table `init` builds, in registration order. The logout entry's
      method is spelled `Get`. */
  function Registry(): (r: Dict<Endpoint>)
    ensures r.Valid() && r.keys == EndpointNames
    ensures forall n :: r.Get(n) == Lookup(n)
  {
    EndpointNamesDistinct();
    var m := map n | n in EndpointNames :: Lookup(n).value;
    RegistryGets(m);
    Dict(EndpointNames, m)
  }

  /** The map `init` fills answers every name as `Lookup` does. */
  lemma RegistryGets(m: map<string, Endpoint>)
    requires m == map n | n in EndpointNames :: Lookup(n).value
    ensures forall n :: n in m <==> n in EndpointNames
    ensures forall n :: Dict(EndpointNames, m).Get(n) == Lookup(n)
  {
    forall n ensures Dict(EndpointNames, m).Get(n) == Lookup(n) {
      if n in EndpointNames {
        assert Lookup(n).Some?;
      } else {
        assert Lookup(n).None?;
      }
    }
  }

  /** `init()`: the table is built only while the static slot is empty
      (`null` or an empty array). */
  function Init(current: Option<Dict<Endpoint>>): (r: Dict<Endpoint>)
    ensures current.Some? && |current.value.keys| > 0 ==> r == current.value
    ensures current.None? || |current.value.keys| == 0 ==> r == Registry()
    ensures current.None? || |current.value.keys| == 0 ==>
              r.keys == EndpointNames && forall n :: r.Get(n) == Lookup(n)
    ensures |r.keys| > 0
  {
    if current.Some? && |current.value.keys| > 0 then current.value else Registry()
  }

  /** Building the table once is enough: a second `init` keeps it. */
  lemma InitIdempotent(current: Option<Dict<Endpoint>>)
    ensures Init(Some(Init(current))) == Init(current)
  {
    var r := Init(current);
    if !(current.Some? && |current.value.keys| > 0) {
      assert r.keys == EndpointNames;
      assert |r.keys| == 5;
    }
  }

  /** Status codes the redirect hook inspects. */
  predicate IsRedirect(code: int) {
    (301 <= code <= 303) || code == 307 || code == 308
  }

  /** The redirect hook: on a redirect whose last `Location` matches the
      gateway pattern, the cloud becomes the captured prefix; otherwise it
      stays. The response itself passes through unchanged. */
  function RedirectHook(code: int, locations: seq<string>, cloud: Value): (r: Value)
    ensures IsRedirect(code) && |locations| > 0 && CloudPrefix(locations[|locations| - 1]).Some? ==>
              r == VStr(CloudPrefix(locations[|locations| - 1]).value)
    ensures !IsRedirect(code) || |locations| == 0 || CloudPrefix(locations[|locations| - 1]).None? ==> r == cloud
  {
    if IsRedirect(code) && |locations| > 0 then
      match CloudPrefix(locations[|locations| - 1])
      case Some(m) => if VStr(m) != cloud then VStr(m) else cloud
      case None => cloud
    else cloud
  }

  /** A redirect to a gateway host `<host>-client-s...` teaches the hook the
      prefix `<host>-`, and seeing the same response again changes nothing. */
  lemma RedirectLearnsCloud(code: int, before: seq<string>, secure: bool, host: string, rest: string, cloud: Value)
    requires IsRedirect(code) && '-' !in host
    ensures var loc := (if secure then "https://" else "http://") + host + "-client-s" + rest;
            var c := RedirectHook(code, before + [loc], cloud);
            && c == VStr(host + "-")
            && RedirectHook(code, before + [loc], c) == c
  {
    PrefixOfGatewayUrl(secure, host, rest);
  }

  /** What `request` is given as its first argument. */
  datatype Target = Named(name: string) | Inline(endpoint: Endpoint)

  /** The `$args` of `getRequest` inside `request`: the two session tokens. */
  function TokenArgs(skypeToken: Value, regToken: Value): (r: Dict<Value>)
    ensures r.Valid()
    ensures r.Get("skypeToken") == Some(skypeToken) && r.Get("regToken") == Some(regToken)
    ensures r.Get("params") == None
  {
    Dict(["skypeToken", "regToken"], map["skypeToken" := skypeToken, "regToken" := regToken])
  }

  /** The endpoint a target names: an unknown name is `None` (PHP then calls a
      method on `null`). */
  function Resolve(target: Target, registry: Dict<Endpoint>): (r: Option<Endpoint>)
    ensures target.Inline? ==> r == Some(target.endpoint)
    ensures target.Named? ==> r == registry.Get(target.name)
  {
    match target
    case Named(n) => registry.Get(n)
    case Inline(e) => Some(e)
  }

  /** The endpoint after the `format` parameter, if any, has been applied. */
  function Formatted(e: Endpoint, params: Dict<Value>): (r: Option<Endpoint>)
    requires WellFormed(params)
    ensures "format" !in params.vals ==> r == Some(e)
    ensures "format" in params.vals ==> r == Format(e, params.vals["format"])
  {
    if "format" in params.vals then Format(e, params.vals["format"]) else Some(e)
  }

  /** `request($endpointName, $params)` up to the point where the client sends:
      the request built from the endpoint (formatted with `$params['format']`
      when present, which is then removed), with the session tokens, and the
      remaining parameters handed to the client as options. */
  function BuildRequest(target: Target, params: Dict<Value>, registry: Dict<Endpoint>, skypeToken: Value, regToken: Value): (r: Option<(Request, Dict<Value>)>)
    requires WellFormed(params)
    ensures Resolve(target, registry).None? ==> r.None?
    ensures r.Some? ==> "format" !in r.value.1.vals && r.value.1.Valid()
    ensures r.Some? ==> forall k :: k != "format" ==> r.value.1.Get(k) == params.Get(k)
    ensures r.Some? <==>
              && Resolve(target, registry).Some?
              && Formatted(Resolve(target, registry).value, params).Some?
              && GetRequest(Formatted(Resolve(target, registry).value, params).value, TokenArgs(skypeToken, regToken)).Some?
    ensures r.Some? ==>
              r.value.0 == GetRequest(Formatted(Resolve(target, registry).value, params).value, TokenArgs(skypeToken, regToken)).value
  {
    var e :- Resolve(target, registry);
    var e' :- Formatted(e, params);
    var req :- GetRequest(e', TokenArgs(skypeToken, regToken));
    Some((req, params.Remove("format")))
  }

  /** A registered endpoint's request carries exactly the tokens its flags ask
      for: the method and URI of the endpoint, `X-SkypeToken` when the skype
      flag is set and `RegistrationToken` when the registration flag is, and
      no other header. */
  lemma RequestCarriesTokens(e: Endpoint, m: string, u: string, skype: bool, reg: bool,
                             params: Dict<Value>, skypeToken: Value, regToken: Value)
    requires Registered(e, m, u, skype, reg)
    requires WellFormed(params) && "format" !in params.vals
    ensures var r := BuildRequest(Inline(e), params, Empty(), skypeToken, regToken);
            && r.Some?
            && r.value.0.httpMethod == m && r.value.0.uri == u
            && HeadersOf(r.value.0.params).Get("X-SkypeToken") == (if skype then Some(skypeToken) else None)
            && HeadersOf(r.value.0.params).Get("RegistrationToken") == (if reg then Some(regToken) else None)
            && forall h :: h != "X-SkypeToken" && h != "RegistrationToken" ==> HeadersOf(r.value.0.params).Get(h) == None
  {
    assert Formatted(e, params) == Some(e);
    TokenHeaders(e, m, u, skype, reg, skypeToken, regToken);
    var r := BuildRequest(Inline(e), params, Empty(), skypeToken, regToken);
    assert Resolve(Inline(e), Empty()) == Some(e);
    assert r.Some? && r.value.0 == GetRequest(e, TokenArgs(skypeToken, regToken)).value;
  }

  /** The request of a registered endpoint, given the session tokens. */
  lemma TokenHeaders(e: Endpoint, m: string, u: string, skype: bool, reg: bool, skypeToken: Value, regToken: Value)
    requires Registered(e, m, u, skype, reg)
    ensures var q := GetRequest(e, TokenArgs(skypeToken, regToken));
            && q.Some?
            && q.value.httpMethod == m && q.value.uri == u
            && HeadersOf(q.value.params).Get("X-SkypeToken") == (if skype then Some(skypeToken) else None)
            && HeadersOf(q.value.params).Get("RegistrationToken") == (if reg then Some(regToken) else None)
            && forall h :: h != "X-SkypeToken" && h != "RegistrationToken" ==> HeadersOf(q.value.params).Get(h) == None
  {
    var args := TokenArgs(skypeToken, regToken);
    assert ExtraParams(args) == None;
    assert MergedParams(e, args) == e.params;
    assert HeadersOf(e.params) == Empty();
  }

  /** Requests go to the endpoint registered under their name. */
  lemma NamedRequest(name: string, params: Dict<Value>, skypeToken: Value, regToken: Value)
    requires name in EndpointNames && WellFormed(params)
    ensures BuildRequest(Named(name), params, Registry(), skypeToken, regToken)
         == BuildRequest(Inline(Lookup(name).value), params, Empty(), skypeToken, regToken)
  {
    var reg := Registry();
    assert reg.Get(name) == Lookup(name);
    SameEndpointSameRequest(Named(name), reg, Inline(Lookup(name).value), Empty(), params, skypeToken, regToken);
  }

  /** The request depends on the target only through the endpoint it
      resolves to. */
  lemma SameEndpointSameRequest(t1: Target, reg1: Dict<Endpoint>, t2: Target, reg2: Dict<Endpoint>,
                                params: Dict<Value>, skypeToken: Value, regToken: Value)
    requires WellFormed(params) && Resolve(t1, reg1) == Resolve(t2, reg2)
    ensures BuildRequest(t1, params, reg1, skypeToken, regToken) == BuildRequest(t2, params, reg2, skypeToken, regToken)
  {
  }

  /** The five registration fields `login` keeps in memory. */
  datatype Registration = Registration(url: Value, endpointId: Value, key: Value, expires: Value, cloud: Value)

  /** The fields read from a registration record (`$rec['url']`, ...). */
  function FieldsOf(rec: Value): (r: Registration)
    ensures r.url == ReadKey(rec, "url") && r.endpointId == ReadKey(rec, "endpointId")
    ensures r.key == ReadKey(rec, "key") && r.expires == ReadKey(rec, "expires")
    ensures r.cloud == ReadKey(rec, "cloudPrefix")
  {
    Registration(ReadKey(rec, "url"), ReadKey(rec, "endpointId"), ReadKey(rec, "key"),
                 ReadKey(rec, "expires"), ReadKey(rec, "cloudPrefix"))
  }

  /** When `login` asks for a new registration, in terms of the stored record:
      `loadRegistrationToken` reads the clock at `loadNow`, `login` itself at
      `now`. */
  predicate Reregisters(stored: Value, loadNow: int, now: int) {
    RegTokenStale(stored, loadNow) || IntCast(ReadKey(stored, "expires")) < now
  }

  /** The registration branch of `login`: the loaded record decides whether to
      register anew. If so, the registration response (`status`, `header`) is
      handed to `getOrSetTokenFromResponse` together with the stored record as
      it was before loading, and the fields are read from its result;
      otherwise they are read from the stored record. `None` is the PHP error
      on a stored value that is not an array, `null` or `false`. */
  function LoginRegistration(stored: Value, loadNow: int, now: int, status: int, header: string -> seq<string>): (r: Option<Registration>)
    ensures r.Some? <==> Autovivifies(stored)
    ensures r.Some? && !Reregisters(stored, loadNow, now) ==> r.value == FieldsOf(stored)
    ensures r.Some? && (status != 201 || |header("Set-RegistrationToken")| == 0) ==> r.value == FieldsOf(stored)
    ensures r.Some? && Reregisters(stored, loadNow, now) ==>
              r.value == FieldsOf(GetOrSetTokenFromResponse(stored, status, header, RegTokenThreshold).value)
  {
    if !Autovivifies(stored) then None
    else
      var tmp := LoadRegistrationToken(stored, loadNow).value;
      ReregistersOfLoaded(stored, loadNow, now);
      if !Truthy(ReadKey(VMap(tmp), "key")) || IntCast(ReadKey(VMap(tmp), "expires")) < now then
        Some(FieldsOf(GetOrSetTokenFromResponse(stored, status, header, RegTokenThreshold).value))
      else
        Some(FieldsOf(stored))
  }

  /** The test `login` applies to the loaded record agrees with `Reregisters`
      on the stored one. */
  lemma ReregistersOfLoaded(stored: Value, loadNow: int, now: int)
    requires Autovivifies(stored)
    ensures var tmp := VMap(LoadRegistrationToken(stored, loadNow).value);
            (!Truthy(ReadKey(tmp, "key")) || IntCast(ReadKey(tmp, "expires")) < now) <==> Reregisters(stored, loadNow, now)
  {
    var tmp := LoadRegistrationToken(stored, loadNow).value;
    if RegTokenStale(stored, loadNow) {
      assert ReadKey(VMap(tmp), "key") == VStr("");
    } else {
      assert ReadKey(VMap(tmp), "key") == ReadKey(stored, "key");
      assert ReadKey(VMap(tmp), "expires") == VInt(IntCast(ReadKey(stored, "expires")));
    }
  }

  /** A fresh registration: the key, expiry (less 600 seconds) and endpoint id
      come from the `Set-RegistrationToken` header, the URL and the cloud from
      the first `Location` value when there is one (the cloud only when the
      gateway pattern matches it); otherwise they stay as stored. */
  lemma NewRegistrationFields(stored: Value, loadNow: int, now: int, status: int, header: string -> seq<string>)
    requires Autovivifies(stored) && Reregisters(stored, loadNow, now)
    requires status == 201 && |header("Set-RegistrationToken")| > 0
    ensures var r := LoginRegistration(stored, loadNow, now, status, header);
            var f := RegistrationFields(header("Set-RegistrationToken")[0], RegTokenThreshold);
            var loc := header("Location");
            && r.Some?
            && r.value.key == VStr(f.0) && r.value.expires == VInt(f.1) && r.value.endpointId == VStr(f.2)
            && r.value.url == (if |loc| > 0 then VStr(loc[0]) else ReadKey(stored, "url"))
            && r.value.cloud == (if |loc| > 0 && CloudPrefix(loc[0]).Some? then VStr(CloudPrefix(loc[0]).value)
                                 else ReadKey(stored, "cloudPrefix"))
  {
    var f := RegistrationFields(header("Set-RegistrationToken")[0], RegTokenThreshold);
    StoredHeaderFields(stored, f, header("Location"));
    StoredUrl(stored, f, header("Location"));
    StoredCloud(stored, f, header("Location"));
  }

  /** The header fields of a record after `getOrSetTokenFromResponse` has
      written the fields `f` and the `Location` values `loc` into it. */
  lemma StoredHeaderFields(stored: Value, f: (string, int, string), loc: seq<string>)
    requires Autovivifies(stored)
    ensures var r := FieldsOf(VMap(StoreLocation(StoreFields(stored, f), loc)));
            r.key == VStr(f.0) && r.expires == VInt(f.1) && r.endpointId == VStr(f.2)
  {
    var reg := StoreFields(stored, f);
    var t := StoreLocation(reg, loc);
    assert t.Get("key") == reg.Get("key") == Some(VStr(f.0));
    assert t.Get("expires") == reg.Get("expires") == Some(VInt(f.1));
    assert t.Get("endpointId") == reg.Get("endpointId") == Some(VStr(f.2));
  }

  /** The URL of that record: the first `Location` value, if any. */
  lemma StoredUrl(stored: Value, f: (string, int, string), loc: seq<string>)
    requires Autovivifies(stored)
    ensures FieldsOf(VMap(StoreLocation(StoreFields(stored, f), loc))).url
            == (if |loc| > 0 then VStr(loc[0]) else ReadKey(stored, "url"))
  {
    var reg := StoreFields(stored, f);
    var t := StoreLocation(reg, loc);
    FieldNamesDiffer();
    assert reg.Get("url") == AsTable(stored).Get("url");
    assert ReadKey(VMap(t), "url") == t.Get("url").GetOr(VNull);
    assert ReadKey(stored, "url") == AsTable(stored).Get("url").GetOr(VNull);
  }

  /** The cloud of that record: the prefix of the first `Location` value when
      the gateway pattern matches it. */
  lemma StoredCloud(stored: Value, f: (string, int, string), loc: seq<string>)
    requires Autovivifies(stored)
    ensures FieldsOf(VMap(StoreLocation(StoreFields(stored, f), loc))).cloud
            == (if |loc| > 0 && CloudPrefix(loc[0]).Some? then VStr(CloudPrefix(loc[0]).value)
                else ReadKey(stored, "cloudPrefix"))
  {
    var reg := StoreFields(stored, f);
    var t := StoreLocation(reg, loc);
    FieldNamesDiffer();
    assert reg.Get("cloudPrefix") == AsTable(stored).Get("cloudPrefix");
    assert ReadKey(VMap(t), "cloudPrefix") == t.Get("cloudPrefix").GetOr(VNull);
    assert ReadKey(stored, "cloudPrefix") == AsTable(stored).Get("cloudPrefix").GetOr(VNull);
  }

  /** A registration header of the usual shape
      `<key>; expires=<n>; endpointId=<id>` gives `login` that key, `n` less
      600 seconds as expiry, and that endpoint id. */
  lemma RegistrationFromHeader(stored: Value, loadNow: int, now: int, status: int, header: string -> seq<string>,
                               h: string, key: string, expires: nat, id: string)
    requires Autovivifies(stored) && Reregisters(stored, loadNow, now)
    requires status == 201 && |header("Set-RegistrationToken")| > 0 && header("Set-RegistrationToken")[0] == h
    requires ';' !in key && ';' !in id && Trimmed(key) && Trimmed(id)
    requires h == key + ";" + (" expires=" + NatToString(expires)) + ";" + (" endpointId=" + id)
    ensures var r := LoginRegistration(stored, loadNow, now, status, header);
            && r.Some?
            && r.value.key == VStr(key) && r.value.expires == VInt(expires - RegTokenThreshold)
            && r.value.endpointId == VStr(id)
  {
    RegistrationHeaderRoundTrip(h, key, expires, id, RegTokenThreshold);
    NewRegistrationFields(stored, loadNow, now, status, header);
  }
}
