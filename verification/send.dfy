/** `Transport::send` (skype_web_php/Transport.php): the message payload, the
    parameters handed to `request('send_message', ...)`, and the result. The
    clock reading (`round(microtime(true) * 1000)`) is the parameter `millis`,
    and what `json_decode` made of the response body is the parameter
    `response`. */
module Messaging {
  import opened Wrappers
  import opened Text
  import opened Dicts
  import opened Php
  import opened Sprintf
  import opened Requests
  import opened Endpoints
  import opened Cloud
  import opened Transport

  /** Keys of a new message payload, in the source's order. */
  const MessageKeys: seq<string> := ["content", "messagetype", "contenttype", "clientmessageid"]

  lemma MessageKeysDistinct()
    ensures Distinct(MessageKeys)
  {
    var ks := MessageKeys;
    assert ks[0][1] == 'o' && ks[1][0] == 'm' && ks[2][1] == 'o' && ks[3][1] == 'l';
    assert |ks[0]| != |ks[2]|;
    forall i, j | 0 <= i < j < |ks| ensures ks[i] != ks[j] {
      if i == 0 && j == 2 { assert |ks[i]| != |ks[j]|; }
      else if i == 1 { assert ks[i][0] != ks[j][0]; }
      else { assert ks[i][1] != ks[j][1]; }
    }
  }

  /** The payload before any edit id is considered. */
  function NewMessage(text: Value, millis: nat): (r: Dict<Value>)
    ensures r.Valid()
    ensures r.keys == MessageKeys
    ensures r.Get("content") == Some(text)
    ensures r.Get("messagetype") == Some(VStr("RichText"))
    ensures r.Get("contenttype") == Some(VStr("text"))
    ensures r.Get("clientmessageid") == Some(VStr(NatToString(millis)))
  {
    var ks := MessageKeys;
    MessageKeysDistinct();
    Dict(ks, map[ks[0] := text, ks[1] := VStr("RichText"), ks[2] := VStr("text"), ks[3] := VStr(NatToString(millis))])
  }

  /** The message payload: rich text content with a client message id, or,
      when editing, the edited message's id instead. */
  function MessageJson(text: Value, millis: nat, editId: Value): (r: Dict<Value>)
    ensures r.Valid()
    ensures r.Get("content") == Some(text)
    ensures r.Get("messagetype") == Some(VStr("RichText"))
    ensures r.Get("contenttype") == Some(VStr("text"))
    ensures !Truthy(editId) ==> r == NewMessage(text, millis) && r.Get("skypeeditedid") == None
    ensures Truthy(editId) ==> r.Get("skypeeditedid") == Some(editId) && r.Get("clientmessageid") == None
    ensures Truthy(editId) ==> forall k :: k in r.keys <==> k in ["content", "messagetype", "contenttype", "skypeeditedid"]
    ensures Truthy(editId) ==> r.keys == EditedKeys
  {
    var m := NewMessage(text, millis);
    if Truthy(editId) then
      EditedKeysOrder();
      m.Set("skypeeditedid", editId).Remove("clientmessageid")
    else m
  }

  /** The keys of an edit, in the order the payload lists them. */
  const EditedKeys: seq<string> := ["content", "messagetype", "contenttype", "skypeeditedid"]

  /** Appending `skypeeditedid` and then unsetting `clientmessageid` keeps the
      other keys in place. */
  lemma {:induction false} EditedKeysOrder()
    ensures "skypeeditedid" !in MessageKeys
    ensures Without(MessageKeys + ["skypeeditedid"], "clientmessageid") == EditedKeys
  {
    var ks := MessageKeys + ["skypeeditedid"];
    assert ks[0][0] == 'c' && ks[0][1] == 'o' && ks[1][0] == 'm' && ks[2][1] == 'o' && ks[3][1] == 'l' && ks[4][0] == 's';
    assert |ks[0]| != |ks[3]| && |ks[2]| != |ks[3]| && |ks[4]| != |ks[3]|;
    var c := ks[3];
    assert Without(ks[4..], c) == [ks[4]] by { assert ks[4..][1..] == []; }
    assert Without(ks[3..], c) == [ks[4]] by { assert ks[3..][1..] == ks[4..]; }
    assert Without(ks[2..], c) == [ks[2], ks[4]] by { assert ks[2..][1..] == ks[3..]; }
    assert Without(ks[1..], c) == [ks[1], ks[2], ks[4]] by { assert ks[1..][1..] == ks[2..]; }
    assert Without(ks, c) == [ks[0], ks[1], ks[2], ks[4]];
  }

  /** The conversation a message to `username` goes to. */
  function Conversation(username: Value): string {
    "8:" + ToStr(username)
  }

  /** The parameters of the send request: the payload as JSON, and the cloud
      and conversation as the URI's format arguments. */
  function SendParams(msg: Dict<Value>, cloud: Value, username: Value): (r: Dict<Value>)
    requires msg.Valid()
    ensures WellFormed(r)
    ensures r.Get("json") == Some(VMap(msg))
    ensures r.Get("format") == Some(VList([cloud, VStr(Conversation(username))]))
    ensures forall k :: k in r.keys <==> k == "json" || k == "format"
  {
    Empty().Set("json", VMap(msg)).Set("format", VList([cloud, VStr(Conversation(username))]))
  }

  /** `request('send_message', ...)` with the payload and format arguments of
      a message. */
  function SendRequest(username: Value, text: Value, editId: Value, millis: nat, cloud: Value,
                       registry: Dict<Endpoint>, skypeToken: Value, regToken: Value): (r: Option<(Request, Dict<Value>)>)
    ensures r.Some? ==> r.value.1.Get("json") == Some(VMap(MessageJson(text, millis, editId)))
    ensures r.Some? ==> forall k :: k != "json" ==> r.value.1.Get(k) == None
  {
    BuildRequest(Named("send_message"), SendParams(MessageJson(text, millis, editId), cloud, username), registry, skypeToken, regToken)
  }

  /** What `send` produces: the request sent, the options handed to the HTTP
      client with it, and the value returned to the caller. */
  datatype Sent = Sent(request: Request, options: Dict<Value>, result: Value)

  /** What `json_decode($body)` returns without `assoc`: a JSON object comes
      back as a `stdClass` object with its properties, anything else as a
      PHP value (`null` when the body is not JSON). */
  datatype Decoded = Object(props: Dict<Value>) | Plain(v: Value)

  /** Without `assoc`, `json_decode` never returns a table: JSON objects
      become objects. */
  predicate FromJsonDecode(d: Decoded) {
    d.Plain? ==> !d.v.VMap?
  }

  /** The evident intent of the arrival test: the response reports an
      arrival time, read as an object's property (as PHP 7's
      `array_key_exists` does) or as a table's key. */
  predicate HasArrival(d: Decoded) {
    match d
    case Object(props) => "OriginalArrivalTime" in props.vals
    case Plain(VMap(t)) => "OriginalArrivalTime" in t.vals
    case _ => false
  }

  /** `array_key_exists("OriginalArrivalTime", $Response)` as PHP 8 runs it:
      the second argument must be an array, so an object, `null` or a scalar
      raises a TypeError (`None`); a list has integer keys only. */
  function HasArrivalAsWritten(d: Decoded): (r: Option<bool>)
    ensures r.Some? <==> d.Plain? && IsArray(d.v)
    ensures r.Some? ==> (r.value <==> HasArrival(d))
  {
    match d
    case Plain(VMap(t)) => Some("OriginalArrivalTime" in t.vals)
    case Plain(VList(_)) => Some(false)
    case _ => None
  }

  /** `send` as written, under PHP 8: the arrival test raises on every
      object, so a response that `json_decode` produced never yields the id. */
  function SendAsWritten(username: Value, text: Value, editId: Value, millis: nat, cloud: Value,
                         registry: Dict<Endpoint>, skypeToken: Value, regToken: Value, response: Decoded): (r: Option<Sent>)
    ensures var s := Send(username, text, editId, millis, cloud, registry, skypeToken, regToken, response);
            && (r.Some? <==> s.Some? && response.Plain? && IsArray(response.v))
            && (r.Some? ==> r.value == s.value)
    ensures r.Some? && FromJsonDecode(response) ==> r.value.result == VBool(false)
  {
    var s :- Send(username, text, editId, millis, cloud, registry, skypeToken, regToken, response);
    var arrived :- HasArrivalAsWritten(response);
    Some(s.(result := if arrived then VInt(millis) else VBool(false)))
  }

  /** The discrepancy: a response object that reports its arrival time is
      a TypeError as written, where the id is meant to be returned whenever
      the message is sent. */
  lemma ArrivalObjectIsAnError(username: Value, text: Value, editId: Value, millis: nat, cloud: Value,
                               registry: Dict<Endpoint>, skypeToken: Value, regToken: Value, props: Dict<Value>)
    requires "OriginalArrivalTime" in props.vals
    ensures FromJsonDecode(Object(props))
    ensures SendAsWritten(username, text, editId, millis, cloud, registry, skypeToken, regToken, Object(props)).None?
    ensures var s := Send(username, text, editId, millis, cloud, registry, skypeToken, regToken, Object(props));
            s.Some? ==> s.value.result == VInt(millis)
  {
    var response := Object(props);
    assert HasArrival(response) && !response.Plain?;
    var s := Send(username, text, editId, millis, cloud, registry, skypeToken, regToken, response);
    var w := SendAsWritten(username, text, editId, millis, cloud, registry, skypeToken, regToken, response);
    assert w.None?;
  }

  /** `send($username, $text, $edit_id)`, with the arrival test as intended.
      The result is the millisecond id when the response reports an arrival
      time, `false` otherwise; the id returned is the one the payload
      carries. `None` is the PHP error of a request that cannot be built. */
  function Send(username: Value, text: Value, editId: Value, millis: nat, cloud: Value,
                registry: Dict<Endpoint>, skypeToken: Value, regToken: Value, response: Decoded): (r: Option<Sent>)
    ensures var b := SendRequest(username, text, editId, millis, cloud, registry, skypeToken, regToken);
            && (r.Some? <==> b.Some?)
            && (r.Some? ==> r.value.request == b.value.0)
    ensures r.Some? ==> r.value.options.Get("json") == Some(VMap(MessageJson(text, millis, editId)))
    ensures r.Some? ==> forall k :: k in r.value.options.vals <==> k == "json"
    ensures r.Some? && HasArrival(response) ==> r.value.result == VInt(millis)
    ensures r.Some? && !HasArrival(response) ==> r.value.result == VBool(false)
    ensures r.Some? && HasArrival(response) && !Truthy(editId) ==>
              IntCast(ReadKey(VMap(MessageJson(text, millis, editId)), "clientmessageid")) == r.value.result.i == millis
  {
    var msg := MessageJson(text, millis, editId);
    var params := SendParams(msg, cloud, username);
    var built :- SendRequest(username, text, editId, millis, cloud, registry, skypeToken, regToken);
    assert forall k :: k in built.1.vals <==> k in built.1.keys;
    assert forall k :: k in params.vals <==> k == "json" || k == "format";
    ClientMessageIdIsMillis(millis);
    Some(Sent(built.0, built.1, if HasArrival(response) then VInt(millis) else VBool(false)))
  }

  /** The client message id reads back as the number it was written from. */
  lemma ClientMessageIdIsMillis(millis: nat)
    ensures IntCast(VStr(NatToString(millis))) == millis
  {
    ParseDigitsOnly(NatToString(millis));
    DigitsValueOfNatToString(millis);
  }

  /** A template with two `%s` between literal runs `a`, `b`, `c` formats
      to the runs with the two arguments in between. */
  lemma FillTwo(a: string, b: string, c: string, x: Value, y: Value)
    requires '%' !in a && '%' !in b && '%' !in c
    ensures VSprintf(Join([a, b, c], "%s"), [x, y]) == Some(a + ToStr(x) + b + ToStr(y) + c)
  {
    var ps := [a, b, c];
    var args := [x, y];
    FillTemplate(ps, args, 0);
    assert VSprintf(Join(ps, "%s"), args) == Fmt(Join(ps, "%s"), args, 0);
    InterleaveThree(a, b, c, x, y);
  }

  /** The three runs with the two arguments placed between them. */
  lemma InterleaveThree(a: string, b: string, c: string, x: Value, y: Value)
    ensures Interleave([a, b, c], [x, y], 0) == a + ToStr(x) + b + ToStr(y) + c
  {
    var ps, args := [a, b, c], [x, y];
    assert ps[1..] == [b, c] && [b, c][1..] == [c];
    assert Interleave([c], args, 2) == c;
    assert Interleave([b, c], args, 1) == b + ToStr(y) + c;
    Regroup(a, ToStr(x), b, ToStr(y), c);
  }

  lemma Regroup(p: string, q: string, r: string, s: string, t: string)
    ensures p + q + (r + s + t) == p + q + r + s + t
  {
  }

  /** The literal runs of the send template hold no `%`. */
  lemma SendUriPartsPlain()
    ensures '%' !in SendUriParts[0] && '%' !in SendUriParts[1] && '%' !in SendUriParts[2]
  {
    assert '%' !in GatewayPath by {
      assert '%' !in ".gateway.messenger";
      assert '%' !in ".live.com/v1/users";
      assert '%' !in "/ME/conversations/";
    }
  }

  /** The send URI with the cloud prefix and conversation filled in. */
  lemma FormatSendUri(cloud: Value, conv: string)
    ensures VSprintf(SendMessageUri, [cloud, VStr(conv)]) ==
              Some(SendUriParts[0] + ToStr(cloud) + SendUriParts[1] + conv + SendUriParts[2])
  {
    var ps := SendUriParts;
    SendUriPartsPlain();
    FillTwo(ps[0], ps[1], ps[2], cloud, VStr(conv));
    assert SendMessageUri == Join([ps[0], ps[1], ps[2]], "%s");
  }

  /** The filled send URI for the cloud `<host>-`, spelled out. */
  lemma GatewayUri(host: string, conv: string)
    ensures SendUriParts[0] + (host + "-") + SendUriParts[1] + conv + SendUriParts[2]
         == "https://" + host + "-client-s" + (GatewayPath + conv + "/messages")
  {
    assert "-" + "client-s" == "-client-s";
  }

  /** A registered endpoint whose URI is filled from the `format` parameter:
      the request goes to the filled URI with the endpoint's method and
      carries the tokens its flags ask for; `format` is not passed on. */
  lemma FormattedRequest(e: Endpoint, m: string, u: string, skype: bool, reg: bool,
                         params: Dict<Value>, args: seq<Value>, u': string, skypeToken: Value, regToken: Value)
    requires Registered(e, m, u, skype, reg)
    requires WellFormed(params) && params.Get("format") == Some(VList(args))
    requires VSprintf(u, args) == Some(u')
    ensures var r := BuildRequest(Inline(e), params, Empty(), skypeToken, regToken);
            && r.Some?
            && r.value.0.httpMethod == m && r.value.0.uri == u'
            && HeadersOf(r.value.0.params).Get("X-SkypeToken") == (if skype then Some(skypeToken) else None)
            && HeadersOf(r.value.0.params).Get("RegistrationToken") == (if reg then Some(regToken) else None)
  {
    var e' := Format(e, VList(args)).value;
    assert Registered(e', m, u', skype, reg);
    assert Formatted(e, params) == Some(e');
    TokenHeaders(e', m, u', skype, reg, skypeToken, regToken);
    var q := GetRequest(e', TokenArgs(skypeToken, regToken));
    var r := BuildRequest(Inline(e), params, Empty(), skypeToken, regToken);
    assert Resolve(Inline(e), Empty()) == Some(e);
    assert r.Some? && r.value.0 == q.value;
  }

  /** Whatever the cloud, a message is POSTed to the send template filled
      with the cloud and the conversation, with the registration token and
      without the skype token. */
  lemma SendFormatted(username: Value, text: Value, editId: Value, millis: nat, cloud: Value,
                      skypeToken: Value, regToken: Value)
    ensures var f := VSprintf(SendMessageUri, [cloud, VStr(Conversation(username))]);
            var r := SendRequest(username, text, editId, millis, cloud, Registry(), skypeToken, regToken);
            f.Some? ==>
              && r.Some?
              && r.value.0.httpMethod == "POST" && r.value.0.uri == f.value
              && HeadersOf(r.value.0.params).Get("RegistrationToken") == Some(regToken)
              && HeadersOf(r.value.0.params).Get("X-SkypeToken") == None
  {
    var args := [cloud, VStr(Conversation(username))];
    var f := VSprintf(SendMessageUri, args);
    if f.Some? {
      var params := SendParams(MessageJson(text, millis, editId), cloud, username);
      assert WellFormed(params) && params.Get("format") == Some(VList(args));
      NamedRequest("send_message", params, skypeToken, regToken);
      var e := SendMessageEndpoint();
      assert Lookup("send_message") == Some(e);
      FormattedRequest(e, "POST", SendMessageUri, false, true, params, args, f.value, skypeToken, regToken);
      assert SendRequest(username, text, editId, millis, cloud, Registry(), skypeToken, regToken)
          == BuildRequest(Inline(e), params, Empty(), skypeToken, regToken);
    }
  }

  /** A message sent once the cloud `<host>-` is known goes to that cloud's
      gateway, for the conversation `8:<username>`; the cloud can be read back
      from the URI. */
  lemma SendGoesToCloud(host: string, username: string, text: Value, editId: Value, millis: nat,
                        skypeToken: Value, regToken: Value, response: Decoded)
    requires '-' !in host
    ensures var r := Send(VStr(username), text, editId, millis, VStr(host + "-"), Registry(), skypeToken, regToken, response);
            && r.Some?
            && r.value.request.uri == "https://" + host + "-client-s" + (GatewayPath + ("8:" + username) + "/messages")
            && CloudPrefix(r.value.request.uri) == Some(host + "-")
  {
    var cloud := VStr(host + "-");
    var conv := Conversation(VStr(username));
    assert conv == "8:" + username;
    var tail := GatewayPath + conv + "/messages";
    var u' := "https://" + host + "-client-s" + tail;
    FormatSendUri(cloud, conv);
    GatewayUri(host, conv);
    assert VSprintf(SendMessageUri, [cloud, VStr(conv)]) == Some(u');
    SendFormatted(VStr(username), text, editId, millis, cloud, skypeToken, regToken);
    var r := Send(VStr(username), text, editId, millis, cloud, Registry(), skypeToken, regToken, response);
    assert r.Some? && r.value.request.uri == u';
    PrefixOfGatewayUrl(true, host, tail);
  }
}
