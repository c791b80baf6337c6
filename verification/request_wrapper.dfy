/** Request preparation in skype_web_php/CurlRequestWrapper.php: `send` turns
    a method, a URL and a parameter table into curl options. The model returns
    those options as a record instead of handing them to curl. JSON encoding
    and `http_build_query` are parameters. */
module CurlRequest {
  import opened Wrappers
  import opened Text
  import opened Dicts
  import opened Php
  import opened Sprintf

  /** The curl option the method switch sets: `CURLOPT_HTTPGET`,
      `CURLOPT_POST`, `CURLOPT_CUSTOMREQUEST`, or none for other methods. */
  datatype MethodOption = HttpGet | HttpPost | CustomRequest(verb: string) | NoMethodOption

  /** `CURLOPT_PUT`/`CURLOPT_UPLOAD` with the file handle and `CURLOPT_INFILESIZE`. */
  datatype Upload = Upload(file: Value, size: int)

  /** The options built for one request. `headerLines` is `None` when
      `CURLOPT_HTTPHEADER` is not set. `params` is the parameter table once
      the parameter loop is done, before the header emission loop empties
      its `headers` entry. */
  datatype Prepared = Prepared(
    url: string,
    methodOption: MethodOption,
    noBody: bool,
    params: Dict<Value>,
    headers: Dict<Value>,
    postFields: Option<Value>,
    upload: Option<Upload>,
    headerLines: Option<seq<string>>)

  /** The methods that are sent as a custom request. */
  const CustomVerbs: set<string> := {"PUT", "DELETE", "PATCH", "HEAD", "OPTIONS"}

  /** The parameters that shape the request body. */
  const BodyKeys: set<string> := {"json", "form_params", "body"}

  const ContentType := "Content-Type"
  const ContentLength := "Content-Length"
  const UrlEncoded := "application/x-www-form-urlencoded"
  const OverrideHeader := "X-HTTP-Method-Override"

  /** The curl method option chosen by the `switch`; the comparison is exact,
      so `Get` (any case other than upper case) selects no option. */
  function MethodSwitch(m: string): (r: MethodOption)
    ensures r == HttpGet <==> m == "GET"
    ensures r == HttpPost <==> m == "POST"
    ensures r.CustomRequest? <==> m in CustomVerbs
    ensures r.CustomRequest? ==> r.verb == m
  {
    if m == "GET" then HttpGet
    else if m == "POST" then HttpPost
    else if m in CustomVerbs then CustomRequest(m)
    else NoMethodOption
  }

  /** The method switch's parameter update: custom verbs record
      `X-HTTP-Method-Override` under the `Headers` key (capital H), which no
      later step reads. */
  function ApplyMethod(m: string, params: Dict<Value>): (r: Option<Dict<Value>>)
    ensures m !in CustomVerbs ==> r == Some(params)
    ensures m in CustomVerbs ==> (r.Some? <==> SlotAssignable(params, "Headers"))
    ensures m in CustomVerbs && r.Some? ==> TableAt(r.value, "Headers").Get(OverrideHeader) == Some(VStr(m))
    ensures r.Some? ==> forall k :: k != "Headers" ==> r.value.Get(k) == params.Get(k)
    ensures r.Some? && params.Valid() ==> r.value.Valid()
  {
    if m in CustomVerbs then SetInSlot(params, "Headers", OverrideHeader, VStr(m)) else Some(params)
  }

  /** `if (!isset($params['headers'])) $params['headers'] = [];` */
  function DefaultHeaders(params: Dict<Value>): (r: Dict<Value>)
    ensures params.Get("headers").Some? && params.Get("headers") != Some(VNull) ==> r == params
    ensures params.Get("headers").None? || params.Get("headers") == Some(VNull) ==>
              r.Get("headers") == Some(VMap(Empty()))
    ensures forall k :: k != "headers" ==> r.Get(k) == params.Get(k)
    ensures params.Valid() ==> r.Valid()
  {
    match params.Get("headers")
    case Some(VNull) => params.Set("headers", VMap(Empty()))
    case None => params.Set("headers", VMap(Empty()))
    case _ => params
  }

  /** What the parameter loop builds: the header table, the post fields and
      the upload options. */
  datatype Body = Body(headers: Dict<Value>, postFields: Option<Value>, upload: Option<Upload>)

  /** The text a `json` parameter is sent as. */
  function JsonText(v: Value, jsonEncode: Value -> string): string {
    if v.VStr? then v.s else jsonEncode(v)
  }

  /** The `Content-Type` a loop step leaves in the header table, given the
      one it found: `json` sets its own, `form_params` sets the urlencoded
      type unless another one is already there, other keys keep it. */
  function NextType(ct: Option<Value>, k: string): Option<Value> {
    if k == "json" then Some(VStr("application/json"))
    else if k == "form_params" && FormTypeAllowed(ct) then Some(VStr(UrlEncoded))
    else ct
  }

  /** The `Content-Type` found lets `form_params` be urlencoded: there is
      none, or it is the urlencoded one. */
  predicate FormTypeAllowed(ct: Option<Value>) {
    ct.None? || LooseEqualsLiteral(ct.value, UrlEncoded)
  }

  /** A loop step fails only on `form_params`: urlencoded, when
      `http_build_query` rejects a value that is not an array; sent as they
      are (a type other than urlencoded is set), when `strlen` rejects an
      array. */
  predicate StepSucceeds(ct: Option<Value>, k: string, v: Value) {
    k == "form_params" ==> if FormTypeAllowed(ct) then IsArray(v) else StrLen(v).Some?
  }

  /** The loop over `ks` succeeds from the `Content-Type` `ct`: the reference
      the loop's outcome is checked against, tracking the type alone. */
  predicate LoopSucceeds(ct: Option<Value>, ks: seq<string>, snap: Dict<Value>)
    decreases |ks|
  {
    |ks| == 0 ||
    (StepSucceeds(ct, ks[0], snap.Get(ks[0]).GetOr(VNull)) && LoopSucceeds(NextType(ct, ks[0]), ks[1..], snap))
  }

  /** One iteration of the parameter loop, for parameter `k` with value `v`.
      `None` is the TypeError `strlen` raises on an array, or the one
      `http_build_query` raises on anything else. */
  function ApplyParam(b: Body, k: string, v: Value, jsonEncode: Value -> string, buildQuery: Value -> string): (r: Option<Body>)
    ensures k !in BodyKeys ==> r == Some(b)
    ensures r.Some? <==> StepSucceeds(b.headers.Get(ContentType), k, v)
    ensures r.Some? ==> r.value.headers.Get(ContentType) == NextType(b.headers.Get(ContentType), k)
    ensures r.Some? ==> forall j :: j != ContentType && j != ContentLength ==> r.value.headers.Get(j) == b.headers.Get(j)
    ensures r.Some? && b.headers.Valid() ==> r.value.headers.Valid()
    ensures r.Some? && k != "body" ==> r.value.upload == b.upload
    ensures k == "json" ==>
              && r.Some?
              && r.value.headers.Get(ContentType) == Some(VStr("application/json"))
              && r.value.headers.Get(ContentLength) == Some(VInt(|JsonText(v, jsonEncode)|))
              && r.value.postFields == Some(VStr(JsonText(v, jsonEncode)))
              && r.value.upload == b.upload
    ensures k == "form_params" && (ContentType !in b.headers.vals || LooseEqualsLiteral(b.headers.vals[ContentType], UrlEncoded)) ==>
              && (r.Some? <==> IsArray(v))
              && (r.Some? ==>
                    && r.value.headers.Get(ContentType) == Some(VStr(UrlEncoded))
                    && r.value.headers.Get(ContentLength) == Some(VInt(|buildQuery(v)|))
                    && r.value.postFields == Some(VStr(buildQuery(v))))
    ensures k == "form_params" && ContentType in b.headers.vals && !LooseEqualsLiteral(b.headers.vals[ContentType], UrlEncoded) ==>
              && (r.Some? <==> StrLen(v).Some?)
              && (r.Some? ==> r.value.headers.Get(ContentType) == b.headers.Get(ContentType))
              && (r.Some? ==> r.value.headers.Get(ContentLength) == Some(VInt(StrLen(v).value)))
              && (r.Some? ==> r.value.postFields == Some(v))
    ensures k == "body" && v.VStr? ==>
              r == Some(Body(b.headers.Set(ContentLength, VInt(|v.s|)), Some(v), b.upload))
    ensures k == "body" && v.VResource? ==>
              r == Some(b.(upload := Some(Upload(v, IntCast(b.headers.Get(ContentLength).GetOr(VNull))))))
    ensures k == "body" && !v.VStr? && !v.VResource? ==> r == Some(b)
  {
    if k == "json" then
      var t := JsonText(v, jsonEncode);
      Some(Body(b.headers.Set(ContentType, VStr("application/json")).Set(ContentLength, VInt(|t|)), Some(VStr(t)), b.upload))
    else if k == "form_params" then
      if ContentType !in b.headers.vals || LooseEqualsLiteral(b.headers.vals[ContentType], UrlEncoded) then
        if !IsArray(v) then None
        else
          var q := buildQuery(v);
          Some(Body(b.headers.Set(ContentType, VStr(UrlEncoded)).Set(ContentLength, VInt(|q|)), Some(VStr(q)), b.upload))
      else
        var n :- StrLen(v);
        Some(Body(b.headers.Set(ContentLength, VInt(n)), Some(v), b.upload))
    else if k == "body" then
      if v.VStr? then Some(Body(b.headers.Set(ContentLength, VInt(|v.s|)), Some(v), b.upload))
      else if v.VResource? then Some(b.(upload := Some(Upload(v, IntCast(b.headers.Get(ContentLength).GetOr(VNull))))))
      else Some(b)
    else Some(b)
  }

  /** The parameter loop over the keys `ks` of the snapshot `snap` taken when
      the `foreach` starts; header writes go to the live table in `b`. */
  function ApplyAll(b: Body, ks: seq<string>, snap: Dict<Value>, jsonEncode: Value -> string, buildQuery: Value -> string): (r: Option<Body>)
    ensures r.Some? <==> LoopSucceeds(b.headers.Get(ContentType), ks, snap)
    ensures r.Some? ==> forall j :: j != ContentType && j != ContentLength ==> r.value.headers.Get(j) == b.headers.Get(j)
    ensures r.Some? && b.headers.Valid() ==> r.value.headers.Valid()
    ensures (forall i :: 0 <= i < |ks| ==> ks[i] !in BodyKeys) ==> r == Some(b)
    decreases |ks|
  {
    if |ks| == 0 then Some(b)
    else
      var b' :- ApplyParam(b, ks[0], snap.Get(ks[0]).GetOr(VNull), jsonEncode, buildQuery);
      ApplyAll(b', ks[1..], snap, jsonEncode, buildQuery)
  }

  /** A JSON body with no competing body parameter: the loop succeeds and the
      request carries the JSON text with its type and length. */
  lemma {:induction false} JsonOnly(b: Body, ks: seq<string>, snap: Dict<Value>, jsonEncode: Value -> string, buildQuery: Value -> string)
    requires Distinct(ks) && "json" in ks
    requires "form_params" !in ks && "body" !in ks
    ensures var r := ApplyAll(b, ks, snap, jsonEncode, buildQuery);
            var t := JsonText(snap.Get("json").GetOr(VNull), jsonEncode);
            && r.Some?
            && r.value.headers.Get(ContentType) == Some(VStr("application/json"))
            && r.value.headers.Get(ContentLength) == Some(VInt(|t|))
            && r.value.postFields == Some(VStr(t))
    decreases |ks|
  {
    var v := snap.Get(ks[0]).GetOr(VNull);
    var b' := ApplyParam(b, ks[0], v, jsonEncode, buildQuery);
    if ks[0] == "json" {
      assert "json" !in ks[1..];
      forall i | 0 <= i < |ks[1..]| ensures ks[1..][i] !in BodyKeys {
        assert ks[1..][i] == ks[i + 1];
      }
    } else {
      assert ks[0] !in BodyKeys;
      assert "json" in ks[1..];
      JsonOnly(b'.value, ks[1..], snap, jsonEncode, buildQuery);
    }
  }

  /** With a single body parameter `k` among the keys, the loop does what
      that one step does: the other keys leave the body alone. */
  lemma {:induction false} OneBodyKey(b: Body, ks: seq<string>, snap: Dict<Value>, k: string,
                                      jsonEncode: Value -> string, buildQuery: Value -> string)
    requires Distinct(ks) && k in ks && k in BodyKeys
    requires forall i :: 0 <= i < |ks| && ks[i] != k ==> ks[i] !in BodyKeys
    ensures ApplyAll(b, ks, snap, jsonEncode, buildQuery) == ApplyParam(b, k, snap.Get(k).GetOr(VNull), jsonEncode, buildQuery)
    decreases |ks|
  {
    forall i | 0 <= i < |ks[1..]| ensures ks[1..][i] == ks[i + 1] { }
    if ks[0] == k {
      assert k !in ks[1..];
    } else {
      assert k in ks[1..];
      OneBodyKey(b, ks[1..], snap, k, jsonEncode, buildQuery);
    }
  }

  /** An order-free condition for the loop to succeed: the form parameters
      are an array sent urlencoded, because no JSON body is present to change
      the type and the starting type allows it; or the starting type is
      another one, which no step changes back, and `strlen` accepts them. */
  lemma {:induction false} LoopSucceedsWhen(ct: Option<Value>, ks: seq<string>, snap: Dict<Value>)
    requires Distinct(ks)
    requires "form_params" in ks ==>
               var v := snap.Get("form_params").GetOr(VNull);
               || (IsArray(v) && "json" !in ks && FormTypeAllowed(ct))
               || (StrLen(v).Some? && !FormTypeAllowed(ct))
    ensures LoopSucceeds(ct, ks, snap)
    decreases |ks|
  {
    if |ks| > 0 {
      forall i | 0 <= i < |ks[1..]| ensures ks[1..][i] == ks[i + 1] { }
      if "form_params" in ks[1..] {
        assert ks[0] != "form_params";
      }
      LoopSucceedsWhen(NextType(ct, ks[0]), ks[1..], snap);
    }
  }

  /** One header line per entry of the table, `name: value`, in order. */
  function HeaderLines(h: Dict<Value>): (r: seq<string>)
    ensures |r| == |h.keys|
    ensures forall i :: 0 <= i < |h.keys| ==> r[i] == h.keys[i] + ": " + ToStr(h.Get(h.keys[i]).GetOr(VNull))
  {
    seq(|h.keys|, i requires 0 <= i < |h.keys| => h.keys[i] + ": " + ToStr(h.Get(h.keys[i]).GetOr(VNull)))
  }

  /** `format` handling: the URL gets the placeholders filled and the
      parameter is removed. `None` is the PHP error on a bad template or a
      non-array argument list. */
  function ConsumeFormat(url: string, p: Dict<Value>): (r: Option<(string, Dict<Value>)>)
    requires p.Get("format").Some? && p.Get("format").value.VMap? ==> p.Get("format").value.d.Valid()
    ensures p.Get("format").None? ==> r == Some((url, p))
    ensures p.Get("format").Some? ==>
              && (r.Some? <==> ArgList(p.Get("format").value).Some? && VSprintf(url, ArgList(p.Get("format").value).value).Some?)
              && (r.Some? ==> Some(r.value.0) == VSprintf(url, ArgList(p.Get("format").value).value))
    ensures r.Some? ==> r.value.1.Get("format").None?
    ensures r.Some? ==> forall k :: k != "format" ==> r.value.1.Get(k) == p.Get(k)
    ensures r.Some? && p.Valid() ==> r.value.1.Valid()
  {
    if "format" in p.vals then
      var a :- ArgList(p.vals["format"]);
      var u :- VSprintf(url, a);
      Some((u, p.Remove("format")))
    else
      Some((url, p))
  }

  /** The method switch followed by the `isset` default for `headers`. */
  function MethodAndHeaders(m: string, params: Dict<Value>): (r: Option<Dict<Value>>)
    ensures m !in CustomVerbs ==> r.Some?
    ensures r.Some? <==> (m in CustomVerbs ==> SlotAssignable(params, "Headers"))
    ensures r.Some? ==> forall k :: k != "Headers" && k != "headers" ==> r.value.Get(k) == params.Get(k)
    ensures r.Some? ==> r.value.Get("format") == params.Get("format")
    ensures r.Some? && params.Valid() ==> r.value.Valid()
    ensures r.Some? && m in CustomVerbs ==>
              TableAt(r.value, "Headers").Get(OverrideHeader) == Some(VStr(m))
    ensures r.Some? && params.Get("headers").Some? && params.Get("headers") != Some(VNull) ==>
              r.value.Get("headers") == params.Get("headers")
    ensures r.Some? && (params.Get("headers").None? || params.Get("headers") == Some(VNull)) ==>
              r.value.Get("headers") == Some(VMap(Empty()))
  {
    var p1 :- ApplyMethod(m, params);
    var p2 := DefaultHeaders(p1);
    SlotNamesDiffer();
    assert p2.Get("Headers") == p1.Get("Headers");
    assert p1.Get("headers") == params.Get("headers");
    assert p2.Get("format") == params.Get("format");
    Some(p2)
  }

  /** The parameter slots the method switch and the header default write to
      are distinct from each other and from `format`. */
  lemma SlotNamesDiffer()
    ensures "Headers" != "headers" && "Headers" != "format" && "headers" != "format"
  {
    assert "Headers"[0] != "headers"[0];
    assert "Headers"[0] != "format"[0];
    assert "headers"[0] != "format"[0];
  }

  /** The steps of `send` before the parameter loop: method switch, default
      header table and `format` substitution. Yields the target URL and the
      parameter table the loop iterates over. */
  function Preprocess(m: string, url: string, params: Dict<Value>): (r: Option<(string, Dict<Value>)>)
    requires params.Get("format").Some? && params.Get("format").value.VMap? ==> params.Get("format").value.d.Valid()
    ensures r.Some? <==>
              && (m in CustomVerbs ==> SlotAssignable(params, "Headers"))
              && (params.Get("format").Some? ==>
                    ArgList(params.Get("format").value).Some? &&
                    VSprintf(url, ArgList(params.Get("format").value).value).Some?)
    ensures r.Some? ==> forall k :: k != "Headers" && k != "headers" && k != "format" ==> r.value.1.Get(k) == params.Get(k)
    ensures r.Some? && params.Get("format").None? ==> r.value.0 == url
    ensures r.Some? && params.Get("format").Some? ==>
              ArgList(params.Get("format").value).Some? &&
              Some(r.value.0) == VSprintf(url, ArgList(params.Get("format").value).value)
    ensures r.Some? ==> r.value.1.Get("format").None?
    ensures r.Some? && params.Valid() ==> r.value.1.Valid()
    ensures r.Some? && m in CustomVerbs ==>
              TableAt(r.value.1, "Headers").Get(OverrideHeader) == Some(VStr(m))
    ensures r.Some? && params.Get("headers").Some? && params.Get("headers") != Some(VNull) ==>
              r.value.1.Get("headers") == params.Get("headers")
    ensures r.Some? && (params.Get("headers").None? || params.Get("headers") == Some(VNull)) ==>
              r.value.1.Get("headers") == Some(VMap(Empty()))
  {
    var p :- MethodAndHeaders(m, params);
    SlotNamesDiffer();
    var c := ConsumeFormat(url, p);
    assert c.Some? ==> c.value.1.Get("Headers") == p.Get("Headers") && c.value.1.Get("headers") == p.Get("headers");
    c
  }

  /** The caller's `headers` entry can serve as the header table: absent,
      `null` (both replaced by `[]`) or an array the model can index. */
  predicate HeadersUsable(params: Dict<Value>) {
    params.Get("headers").None? || params.Get("headers") == Some(VNull) || IsTable(params.Get("headers").value)
  }

  /** `form_params` cannot make the loop fail: they are an array that goes
      urlencoded, because no JSON body can set another type first and the
      caller's type, if any, is the urlencoded one; or the caller set another
      type and `strlen` accepts them. */
  predicate FormParamsSendable(params: Dict<Value>) {
    "form_params" in params.vals ==>
      var v := params.vals["form_params"];
      var ct := HeadersOf(params).Get(ContentType);
      || (IsArray(v) && "json" !in params.vals && FormTypeAllowed(ct))
      || (StrLen(v).Some? && !FormTypeAllowed(ct))
  }

  /** `send($method, $url, $params)` up to the point where curl executes:
      `Preprocess`, the parameter loop and the header lines. `None` stands for
      the PHP errors on the way: a bad template, a scalar in a slot written as
      an array, `strlen` of an array, `http_build_query` of a non-array. A `headers` value other than `null`, a
      table or `[]` is treated as an error. */
  function Prepare(m: string, url: string, params: Dict<Value>, jsonEncode: Value -> string, buildQuery: Value -> string): (r: Option<Prepared>)
    requires params.Get("format").Some? && params.Get("format").value.VMap? ==> params.Get("format").value.d.Valid()
    ensures r.Some? <==>
              && Preprocess(m, url, params).Some?
              && HeadersUsable(params)
              && LoopSucceeds(HeadersOf(params).Get(ContentType), Preprocess(m, url, params).value.1.keys, Preprocess(m, url, params).value.1)
    ensures WellFormed(params) && Preprocess(m, url, params).Some? && HeadersUsable(params) && FormParamsSendable(params) ==> r.Some?
    ensures r.Some? ==> Preprocess(m, url, params).Some? && r.value.url == Preprocess(m, url, params).value.0
    ensures r.Some? ==> r.value.methodOption == MethodSwitch(m)
    ensures r.Some? ==> (r.value.noBody <==> m == "HEAD")
    ensures r.Some? && params.Valid() ==> r.value.params.Valid() && r.value.params.Get("format").None?
    ensures r.Some? ==> r.value.params.Get("headers") == Some(VMap(r.value.headers))
    ensures r.Some? && m in CustomVerbs ==>
              TableAt(r.value.params, "Headers").Get(OverrideHeader) == Some(VStr(m))
    ensures r.Some? ==> (r.value.headerLines.Some? <==> |r.value.headers.keys| > 0)
    ensures r.Some? && r.value.headerLines.Some? ==>
              && |r.value.headerLines.value| == |r.value.headers.keys| + (if m == "POST" || m == "PUT" then 1 else 0)
              && r.value.headerLines.value[..|r.value.headers.keys|] == HeaderLines(r.value.headers)
              && (m == "POST" || m == "PUT" ==> r.value.headerLines.value[|r.value.headers.keys|] == "Expect:")
    ensures r.Some? ==> forall j :: j != ContentType && j != ContentLength ==>
              r.value.headers.Get(j) == HeadersOf(params).Get(j)
    ensures r.Some? && WellFormed(params) ==> r.value.headers.Valid()
  {
    var pre := Preprocess(m, url, params);
    if pre.None? then None
    else
      LoopOfPreprocessed(m, url, params, jsonEncode, buildQuery);
      var b := RunLoop(pre.value.1, jsonEncode, buildQuery);
      if b.None? then None
      else
        PreprocessKeepsHeaders(m, url, params);
        SlotNamesDiffer();
        var a := Assemble(m, pre.value.0, pre.value.1, b.value);
        assert a.params.Get("format") == pre.value.1.Get("format");
        Some(a)
  }

  /** Preprocessing keeps every body parameter and the header table, so the
      order-free condition carries over to the table the loop runs on. */
  lemma PrepareSucceedsWhen(m: string, url: string, params: Dict<Value>)
    requires params.Get("format").Some? && params.Get("format").value.VMap? ==> params.Get("format").value.d.Valid()
    requires Preprocess(m, url, params).Some?
    ensures var p := Preprocess(m, url, params).value.1;
            && (p.Get("headers").Some? && IsTable(p.Get("headers").value) <==> HeadersUsable(params))
            && (WellFormed(params) && FormParamsSendable(params) ==> LoopSucceeds(HeadersOf(params).Get(ContentType), p.keys, p))
  {
    var p := Preprocess(m, url, params).value.1;
    PreprocessKeepsHeaders(m, url, params);
    SlotNamesDiffer();
    assert p.Get("json") == params.Get("json") && p.Get("form_params") == params.Get("form_params");
    if WellFormed(params) && FormParamsSendable(params) {
      assert "json" in p.keys <==> "json" in params.vals;
      assert "form_params" in p.keys <==> "form_params" in params.vals;
      LoopSucceedsWhen(HeadersOf(params).Get(ContentType), p.keys, p);
    }
  }

  /** The loop over the preprocessed table succeeds exactly when the
      caller's header table is usable and the reference loop succeeds from
      its type; under the order-free condition it does. */
  lemma LoopOfPreprocessed(m: string, url: string, params: Dict<Value>, jsonEncode: Value -> string, buildQuery: Value -> string)
    requires params.Get("format").Some? && params.Get("format").value.VMap? ==> params.Get("format").value.d.Valid()
    requires Preprocess(m, url, params).Some?
    ensures var p := Preprocess(m, url, params).value.1;
            && (RunLoop(p, jsonEncode, buildQuery).Some? <==>
                  HeadersUsable(params) && LoopSucceeds(HeadersOf(params).Get(ContentType), p.keys, p))
            && (WellFormed(params) && HeadersUsable(params) && FormParamsSendable(params) ==>
                  RunLoop(p, jsonEncode, buildQuery).Some?)
            && HeadersOf(p) == HeadersOf(params)
  {
    PrepareSucceedsWhen(m, url, params);
    PreprocessKeepsHeaders(m, url, params);
  }

  /** The loop starts from the caller's header table (empty when absent). */
  lemma PreprocessKeepsHeaders(m: string, url: string, params: Dict<Value>)
    requires params.Get("format").Some? && params.Get("format").value.VMap? ==> params.Get("format").value.d.Valid()
    ensures Preprocess(m, url, params).Some? ==> HeadersOf(Preprocess(m, url, params).value.1) == HeadersOf(params)
    ensures WellFormed(params) ==> HeadersOf(params).Valid()
  {
    if WellFormed(params) && "headers" in params.vals {
      assert params.vals["headers"].VMap? ==> params.vals["headers"].d.Valid();
    }
  }

  /** The parameter loop run over the table `p`, starting from its header
      table; `None` when that slot is not a table or a step fails. */
  function RunLoop(p: Dict<Value>, jsonEncode: Value -> string, buildQuery: Value -> string): (r: Option<Body>)
    ensures r.Some? <==>
              && p.Get("headers").Some? && IsTable(p.Get("headers").value)
              && LoopSucceeds(HeadersOf(p).Get(ContentType), p.keys, p)
    ensures r.Some? ==> forall j :: j != ContentType && j != ContentLength ==>
              r.value.headers.Get(j) == HeadersOf(p).Get(j)
    ensures r.Some? && HeadersOf(p).Valid() ==> r.value.headers.Valid()
  {
    match p.Get("headers")
    case Some(v) => if IsTable(v) then ApplyAll(Body(AsTable(v), None, None), p.keys, p, jsonEncode, buildQuery) else None
    case None => None
  }

  /** The options once the loop is done: the header lines are emitted only
      when the table is non-empty, with `Expect:` appended for POST and PUT. */
  function Assemble(m: string, u: string, p: Dict<Value>, b: Body): (r: Prepared)
    ensures r.url == u && r.methodOption == MethodSwitch(m) && (r.noBody <==> m == "HEAD")
    ensures r.headers == b.headers && r.postFields == b.postFields && r.upload == b.upload
    ensures r.params.Get("headers") == Some(VMap(b.headers))
    ensures forall k :: k != "headers" ==> r.params.Get(k) == p.Get(k)
    ensures TableAt(r.params, "Headers") == TableAt(p, "Headers")
    ensures p.Get("format").None? ==> r.params.Get("format").None?
    ensures p.Valid() ==> r.params.Valid()
    ensures r.headerLines.Some? <==> |b.headers.keys| > 0
    ensures r.headerLines.Some? ==>
              && |r.headerLines.value| == |b.headers.keys| + (if m == "POST" || m == "PUT" then 1 else 0)
              && r.headerLines.value[..|b.headers.keys|] == HeaderLines(b.headers)
              && (m == "POST" || m == "PUT" ==> r.headerLines.value[|b.headers.keys|] == "Expect:")
  {
    var lines := if |b.headers.keys| > 0
                 then Some(HeaderLines(b.headers) + (if m == "POST" || m == "PUT" then ["Expect:"] else []))
                 else None;
    Prepared(u, MethodSwitch(m), m == "HEAD", p.Set("headers", VMap(b.headers)), b.headers, b.postFields, b.upload, lines)
  }

  /** The override header of a custom verb is never among the emitted header
      names unless the caller put one in its own `headers` table. */
  lemma OverrideNeverEmitted(m: string, url: string, params: Dict<Value>, jsonEncode: Value -> string, buildQuery: Value -> string)
    requires WellFormed(params)
    requires HeadersOf(params).Get(OverrideHeader).None?
    ensures var r := Prepare(m, url, params, jsonEncode, buildQuery);
            r.Some? ==> forall i :: 0 <= i < |r.value.headers.keys| ==> r.value.headers.keys[i] != OverrideHeader
  {
    var r := Prepare(m, url, params, jsonEncode, buildQuery);
    if r.Some? {
      var h := r.value.headers;
      forall i | 0 <= i < |h.keys| ensures h.keys[i] != OverrideHeader {
        assert h.keys[i] in h.vals;
      }
    }
  }

  /** The body parts of a prepared request are those the loop built. */
  lemma PrepareFromLoop(m: string, url: string, params: Dict<Value>, jsonEncode: Value -> string, buildQuery: Value -> string)
    requires params.Get("format").Some? && params.Get("format").value.VMap? ==> params.Get("format").value.d.Valid()
    ensures var r := Prepare(m, url, params, jsonEncode, buildQuery);
            r.Some? ==>
              && Preprocess(m, url, params).Some?
              && var b := RunLoop(Preprocess(m, url, params).value.1, jsonEncode, buildQuery);
              && b.Some?
              && r.value.headers == b.value.headers && r.value.postFields == b.value.postFields
              && r.value.upload == b.value.upload
  {
  }

  /** No body parameter is one of the slots preprocessing writes. */
  lemma BodyKeysAreNotSlots()
    ensures forall k :: k in BodyKeys ==> k != "Headers" && k != "headers" && k != "format"
  {
    assert |"json"| == 4 && |"form_params"| == 11 && |"body"| == 4;
    assert |"Headers"| == 7 && |"headers"| == 7 && |"format"| == 6;
  }

  /** Preprocessing keeps every body parameter with its value and adds none;
      the loop starts from the caller's header table. */
  lemma PreprocessKeepsBody(m: string, url: string, params: Dict<Value>)
    requires WellFormed(params)
    requires Preprocess(m, url, params).Some?
    ensures var p := Preprocess(m, url, params).value.1;
            && Distinct(p.keys)
            && (forall k :: k in BodyKeys ==> p.Get(k) == params.Get(k))
            && (forall i :: 0 <= i < |p.keys| && p.keys[i] in BodyKeys ==> p.keys[i] in params.vals)
            && (forall k :: k in BodyKeys && k in params.vals ==> k in p.keys)
            && (p.Get("headers").Some? ==> AsTable(p.Get("headers").value) == HeadersOf(params))
  {
    var p := Preprocess(m, url, params).value.1;
    PreprocessKeepsHeaders(m, url, params);
    BodyKeysAreNotSlots();
    assert p.Valid();
    assert forall k :: k in BodyKeys ==> p.Get(k) == params.Get(k);
    forall i | 0 <= i < |p.keys| && p.keys[i] in BodyKeys ensures p.keys[i] in params.vals {
      assert p.keys[i] in p.vals && p.Get(p.keys[i]).Some?;
    }
    forall k | k in BodyKeys && k in params.vals ensures k in p.keys {
      assert params.Get(k).Some? && p.Get(k).Some? && k in p.vals;
    }
  }

  /** The loop over the preprocessed table, from the caller's headers. */
  lemma PrepareRunsLoop(m: string, url: string, params: Dict<Value>, jsonEncode: Value -> string, buildQuery: Value -> string)
    requires WellFormed(params)
    ensures var r := Prepare(m, url, params, jsonEncode, buildQuery);
            var pre := Preprocess(m, url, params);
            pre.Some? && HeadersUsable(params) ==>
              var a := ApplyAll(Body(HeadersOf(params), None, None), pre.value.1.keys, pre.value.1, jsonEncode, buildQuery);
              && (r.Some? <==> a.Some?)
              && (r.Some? ==> r.value.headers == a.value.headers && r.value.postFields == a.value.postFields
                              && r.value.upload == a.value.upload)
  {
    assert params.Get("format").Some? && params.Get("format").value.VMap? ==> params.Get("format").value.d.Valid();
    var pre := Preprocess(m, url, params);
    if pre.Some? && HeadersUsable(params) {
      var p := pre.value.1;
      PrepareSucceedsWhen(m, url, params);
      PreprocessKeepsBody(m, url, params);
      var a := ApplyAll(Body(HeadersOf(params), None, None), p.keys, p, jsonEncode, buildQuery);
      assert RunLoop(p, jsonEncode, buildQuery) == a;
      PrepareFromLoop(m, url, params, jsonEncode, buildQuery);
    }
  }

  /** With exactly one body parameter `k`, the prepared request's header
      table, post fields and upload are what that one loop step makes of the
      caller's header table; the request is built exactly when preprocessing
      succeeds, the header table is usable and that step succeeds. */
  lemma PrepareOneBody(m: string, url: string, params: Dict<Value>, k: string,
                       jsonEncode: Value -> string, buildQuery: Value -> string)
    requires WellFormed(params)
    requires k in BodyKeys && k in params.vals
    requires forall j :: j in params.vals && j in BodyKeys ==> j == k
    ensures var r := Prepare(m, url, params, jsonEncode, buildQuery);
            var s := ApplyParam(Body(HeadersOf(params), None, None), k, params.vals[k], jsonEncode, buildQuery);
            && (r.Some? <==> Preprocess(m, url, params).Some? && HeadersUsable(params) && s.Some?)
            && (r.Some? ==> r.value.headers == s.value.headers && r.value.postFields == s.value.postFields
                            && r.value.upload == s.value.upload)
  {
    assert params.Get("format").Some? && params.Get("format").value.VMap? ==> params.Get("format").value.d.Valid();
    var pre := Preprocess(m, url, params);
    PrepareRunsLoop(m, url, params, jsonEncode, buildQuery);
    if pre.Some? && HeadersUsable(params) {
      var p := pre.value.1;
      PreprocessKeepsBody(m, url, params);
      OneBodyKey(Body(HeadersOf(params), None, None), p.keys, p, k, jsonEncode, buildQuery);
    }
  }

  /** A JSON body alone: the request carries the JSON text as its post
      fields, typed `application/json` with the text's length. */
  lemma PrepareJson(m: string, url: string, params: Dict<Value>, jsonEncode: Value -> string, buildQuery: Value -> string)
    requires WellFormed(params) && "json" in params.vals
    requires "form_params" !in params.vals && "body" !in params.vals
    ensures var r := Prepare(m, url, params, jsonEncode, buildQuery);
            var t := JsonText(params.vals["json"], jsonEncode);
            && (r.Some? <==> Preprocess(m, url, params).Some? && HeadersUsable(params))
            && (r.Some? ==>
                  && r.value.headers.Get(ContentType) == Some(VStr("application/json"))
                  && r.value.headers.Get(ContentLength) == Some(VInt(|t|))
                  && r.value.postFields == Some(VStr(t))
                  && r.value.upload.None?)
  {
    PrepareOneBody(m, url, params, "json", jsonEncode, buildQuery);
  }

  /** Form parameters alone. Without a competing type they are sent
      urlencoded with the encoded length, which fails unless they are an
      array; under another type they are sent as they are, with their
      `strlen`, which fails on an array. */
  lemma PrepareFormParams(m: string, url: string, params: Dict<Value>, jsonEncode: Value -> string, buildQuery: Value -> string)
    requires WellFormed(params) && "form_params" in params.vals
    requires "json" !in params.vals && "body" !in params.vals
    ensures var r := Prepare(m, url, params, jsonEncode, buildQuery);
            var v := params.vals["form_params"];
            var ct := HeadersOf(params).Get(ContentType);
            var ok := Preprocess(m, url, params).Some? && HeadersUsable(params);
            && (FormTypeAllowed(ct) ==>
                  && (r.Some? <==> ok && IsArray(v))
                  && (r.Some? ==>
                        && r.value.headers.Get(ContentType) == Some(VStr(UrlEncoded))
                        && r.value.headers.Get(ContentLength) == Some(VInt(|buildQuery(v)|))
                        && r.value.postFields == Some(VStr(buildQuery(v)))))
            && (!FormTypeAllowed(ct) ==>
                  && (r.Some? <==> ok && StrLen(v).Some?)
                  && (r.Some? ==> r.value.headers.Get(ContentType) == ct)
                  && (r.Some? ==> r.value.headers.Get(ContentLength) == Some(VInt(StrLen(v).value)))
                  && (r.Some? ==> r.value.postFields == Some(v)))
            && (r.Some? ==> r.value.upload.None?)
  {
    PrepareOneBody(m, url, params, "form_params", jsonEncode, buildQuery);
  }

  /** A string body alone: it is the post fields, its length is the
      `Content-Length`, and every other header is the caller's. */
  lemma PrepareStringBody(m: string, url: string, params: Dict<Value>, jsonEncode: Value -> string, buildQuery: Value -> string)
    requires WellFormed(params) && "body" in params.vals && params.vals["body"].VStr?
    requires "json" !in params.vals && "form_params" !in params.vals
    ensures var r := Prepare(m, url, params, jsonEncode, buildQuery);
            var v := params.vals["body"];
            && (r.Some? <==> Preprocess(m, url, params).Some? && HeadersUsable(params))
            && (r.Some? ==>
                  && r.value.headers.Get(ContentLength) == Some(VInt(|v.s|))
                  && (forall j :: j != ContentLength ==> r.value.headers.Get(j) == HeadersOf(params).Get(j))
                  && r.value.postFields == Some(v)
                  && r.value.upload.None?)
  {
    PrepareOneBody(m, url, params, "body", jsonEncode, buildQuery);
  }

  /** A resource body alone: it is uploaded with the caller's
      `Content-Length` as its size, there are no post fields, and the header
      table is the caller's. */
  lemma PrepareResourceBody(m: string, url: string, params: Dict<Value>, jsonEncode: Value -> string, buildQuery: Value -> string)
    requires WellFormed(params) && "body" in params.vals && params.vals["body"].VResource?
    requires "json" !in params.vals && "form_params" !in params.vals
    ensures var r := Prepare(m, url, params, jsonEncode, buildQuery);
            var v := params.vals["body"];
            && (r.Some? <==> Preprocess(m, url, params).Some? && HeadersUsable(params))
            && (r.Some? ==>
                  && r.value.headers == HeadersOf(params)
                  && r.value.postFields.None?
                  && r.value.upload == Some(Upload(v, IntCast(HeadersOf(params).Get(ContentLength).GetOr(VNull)))))
  {
    PrepareOneBody(m, url, params, "body", jsonEncode, buildQuery);
  }

  /** No body parameter: the request has neither post fields nor an upload,
      and its header table is the caller's. */
  lemma PrepareNoBody(m: string, url: string, params: Dict<Value>, jsonEncode: Value -> string, buildQuery: Value -> string)
    requires WellFormed(params)
    requires "json" !in params.vals && "form_params" !in params.vals && "body" !in params.vals
    ensures var r := Prepare(m, url, params, jsonEncode, buildQuery);
            && (r.Some? <==> Preprocess(m, url, params).Some? && HeadersUsable(params))
            && (r.Some? ==> r.value.headers == HeadersOf(params) && r.value.postFields.None? && r.value.upload.None?)
  {
    assert params.Get("format").Some? && params.Get("format").value.VMap? ==> params.Get("format").value.d.Valid();
    PrepareRunsLoop(m, url, params, jsonEncode, buildQuery);
    var pre := Preprocess(m, url, params);
    if pre.Some? && HeadersUsable(params) {
      var p := pre.value.1;
      PreprocessKeepsBody(m, url, params);
      assert forall i :: 0 <= i < |p.keys| ==> p.keys[i] !in BodyKeys;
      var b := Body(HeadersOf(params), None, None);
      assert ApplyAll(b, p.keys, p, jsonEncode, buildQuery) == Some(b);
    }
  }

  /** `registerCallback($cb)`: callbacks run in registration order. */
  function RegisterCallback<R>(cbs: seq<R -> R>, cb: R -> R): (r: seq<R -> R>)
    ensures |r| == |cbs| + 1 && r[..|cbs|] == cbs && r[|cbs|] == cb
  {
    cbs + [cb]
  }

  /** The callback chain: each callback receives the previous one's output. */
  function ApplyCallbacks<R>(cbs: seq<R -> R>, resp: R): R
    decreases |cbs|
  {
    if |cbs| == 0 then resp else ApplyCallbacks(cbs[1..], cbs[0](resp))
  }

  /** Running a chain made of two parts runs the first part, then the second. */
  lemma {:induction false} ApplyCallbacksAppend<R>(a: seq<R -> R>, b: seq<R -> R>, resp: R)
    ensures ApplyCallbacks(a + b, resp) == ApplyCallbacks(b, ApplyCallbacks(a, resp))
    decreases |a|
  {
    if |a| == 0 {
      assert a + b == b;
    } else {
      assert (a + b)[1..] == a[1..] + b;
      ApplyCallbacksAppend(a[1..], b, a[0](resp));
    }
  }

  /** A callback registered last sees the output of all earlier ones. */
  lemma RegisteredLastRunsLast<R>(cbs: seq<R -> R>, cb: R -> R, resp: R)
    ensures ApplyCallbacks(RegisterCallback(cbs, cb), resp) == cb(ApplyCallbacks(cbs, resp))
  {
    ApplyCallbacksAppend(cbs, [cb], resp);
    assert ApplyCallbacks([cb], ApplyCallbacks(cbs, resp)) == ApplyCallbacks([], cb(ApplyCallbacks(cbs, resp)));
  }

  /** The constructor's cookie options: jar and file are the same path,
      the directory with trailing separators removed, then `/cookie.txt`. */
  function CookieFiles(dir: Option<string>, sep: char): (r: Option<(string, string)>)
    ensures r.Some? <==> dir.Some?
    ensures r.Some? ==> r.value.0 == r.value.1
    ensures r.Some? ==> exists base ::
              && r.value.0 == base + "/cookie.txt"
              && |base| <= |dir.value| && base == dir.value[..|base|]
              && (|base| > 0 ==> base[|base| - 1] != sep)
              && (forall i :: |base| <= i < |dir.value| ==> dir.value[i] == sep)
  {
    match dir
    case None => None
    case Some(d) =>
      var base := RTrim(d, {sep});
      var path := base + "/cookie.txt";
      Some((path, path))
  }
}
