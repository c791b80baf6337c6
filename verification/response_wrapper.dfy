/** Response handling in skype_web_php/CurlResponseWrapper.php: the bounded
    retry loop run by the constructor, and the parser that splits curl's raw
    output into a status line, a header table and a body. Each execution of
    the request is an `Attempt` read from an outcome sequence. */
module CurlResponse {
  import opened Wrappers
  import opened Text
  import opened Dicts
  import opened Php

  /** What one `curl_exec` produces: the HTTP code and error number curl
      reports, curl's error message, the raw output (headers then body), the
      header size, and the remaining `curl_getinfo` entries. */
  datatype Attempt = Attempt(
    httpCode: int,
    errno: int,
    errorText: string,
    raw: string,
    headerSize: int,
    info: Dict<Value>)

  /** The wrapper's state once the constructor returns. `proto` and `reason`
      are `None` (PHP `null`) when the response was not parsed. */
  datatype Response = Response(
    body: string,
    proto: Option<string>,
    reason: Option<string>,
    headers: Dict<seq<string>>,
    data: Dict<Value>,
    error: Option<string>,
    executions: nat)

  /** The check the loop makes on an attempt. */
  predicate Failed(a: Attempt) {
    a.httpCode == 0 || a.errno > 0
  }

  /** `$errNo.' '.curl_error($ch)`. */
  function ErrorText(a: Attempt): string {
    IntToString(a.errno) + " " + a.errorText
  }

  /** `curl_getinfo($ch)`: the info table, `http_code` included. */
  function ResponseData(a: Attempt): (r: Dict<Value>)
    ensures r.Get("http_code") == Some(VInt(a.httpCode))
    ensures forall k :: k != "http_code" ==> r.Get(k) == a.info.Get(k)
    ensures a.info.Valid() ==> r.Valid()
  {
    a.info.Set("http_code", VInt(a.httpCode))
  }

  /** The loop's test reads the info table of the attempt: an attempt fails
      exactly when that table reports no HTTP code or curl reported an error
      number. */
  lemma FailedReadsInfo(a: Attempt)
    ensures Failed(a) <==> ResponseData(a).Get("http_code") == Some(VInt(0)) || a.errno > 0
  {
  }

  /** The parts `parseResponse` extracts from a raw response. */
  datatype Parsed = Parsed(proto: string, reason: string, headers: Dict<seq<string>>, body: string)

  /** Name and value of one header line: the trailing CRs are dropped, the
      name is what precedes the first `:`, and the value starts two characters
      after it. A line without `:` gets the name "" (the `false` position
      reads as 0) and the value from its third character on. */
  function ParseHeaderLine(line: string): (r: (string, string))
    ensures var l := RTrim(line, {'\r'});
            ':' in l ==> ':' !in r.0 && |r.0| < |l| && l[..|r.0|] == r.0 && l[|r.0|] == ':'
    ensures ':' !in RTrim(line, {'\r'}) ==> r.0 == ""
    ensures var l := RTrim(line, {'\r'});
            var v := if ':' in l then |r.0| + 2 else 2;
            r.1 == if v <= |l| then l[v..] else ""
  {
    var l := RTrim(line, {'\r'});
    var p := StrPos(l, ":");
    if p.Some? then
      assert ':' !in l[..p.value] by {
        forall j | 0 <= j < p.value ensures l[j] != ':' {
          assert !OccursAt(l, ":", j);
          assert l[j..j + 1] == [l[j]];
        }
      }
      (Substr(l, 0, Some(p.value)), Substr(l, p.value + 2, None))
    else
      assert ':' !in l by {
        forall j | 0 <= j < |l| ensures l[j] != ':' {
          assert !OccursAt(l, ":", j);
          assert l[j..j + 1] == [l[j]];
        }
      }
      (Substr(l, 0, Some(0)), Substr(l, 2, None))
  }

  /** `$headers[$k][] = $v`: the value is appended to the key's list, which
      starts empty. */
  function AddValue(h: Dict<seq<string>>, k: string, v: string): (r: Dict<seq<string>>)
    ensures r.Get(k) == Some(h.Get(k).GetOr([]) + [v])
    ensures forall j :: j != k ==> r.Get(j) == h.Get(j)
    ensures h.Valid() ==> r.Valid()
  {
    h.Set(k, h.Get(k).GetOr([]) + [v])
  }

  /** Every line parsed into its name and value. */
  function ParseHeaderLines(lines: seq<string>): (r: seq<(string, string)>)
    ensures |r| == |lines|
    ensures forall i :: 0 <= i < |lines| ==> r[i] == ParseHeaderLine(lines[i])
  {
    seq(|lines|, i requires 0 <= i < |lines| => ParseHeaderLine(lines[i]))
  }

  /** The header loop over the parsed lines, in order. */
  function AddHeaderLines(h: Dict<seq<string>>, fields: seq<(string, string)>): (r: Dict<seq<string>>)
    ensures h.Valid() ==> r.Valid()
    decreases |fields|
  {
    if |fields| == 0 then h
    else AddHeaderLines(AddValue(h, fields[0].0, fields[0].1), fields[1..])
  }

  /** The values of the fields named `k`, in arrival order: the reference the
      header table is checked against. */
  function ValuesFor(fields: seq<(string, string)>, k: string): seq<string>
    decreases |fields|
  {
    if |fields| == 0 then []
    else (if fields[0].0 == k then [fields[0].1] else []) + ValuesFor(fields[1..], k)
  }

  /** Repeated names accumulate their values in arrival order. */
  lemma {:induction false} AddHeaderLinesCollects(h: Dict<seq<string>>, fields: seq<(string, string)>, k: string)
    ensures AddHeaderLines(h, fields).Get(k).GetOr([]) == h.Get(k).GetOr([]) + ValuesFor(fields, k)
    decreases |fields|
  {
    if |fields| == 0 {
      assert h.Get(k).GetOr([]) + [] == h.Get(k).GetOr([]);
    } else {
      var h' := AddValue(h, fields[0].0, fields[0].1);
      var own := if fields[0].0 == k then [fields[0].1] else [];
      var rest := ValuesFor(fields[1..], k);
      assert AddHeaderLines(h, fields) == AddHeaderLines(h', fields[1..]);
      assert ValuesFor(fields, k) == own + rest;
      AddHeaderLinesCollects(h', fields[1..], k);
      AddValueValues(h, fields[0].0, fields[0].1, k);
      assert h.Get(k).GetOr([]) + own + rest == h.Get(k).GetOr([]) + (own + rest);
    }
  }

  /** Adding one value touches the list of its own name only. */
  lemma AddValueValues(h: Dict<seq<string>>, name: string, v: string, k: string)
    ensures AddValue(h, name, v).Get(k).GetOr([]) == h.Get(k).GetOr([]) + (if name == k then [v] else [])
  {
    if name != k {
      assert h.Get(k).GetOr([]) + [] == h.Get(k).GetOr([]);
    }
  }

  /** A line `name: value`, with or without the CR of a CRLF ending, parses
      back into that name and value when the name has no `:` and the value
      does not end in a CR. */
  lemma HeaderLineRoundTrip(name: string, value: string, cr: bool)
    requires ':' !in name
    requires |value| > 0 ==> value[|value| - 1] != '\r'
    ensures ParseHeaderLine(name + ": " + value + (if cr then "\r" else "")) == (name, value)
  {
    var line0 := name + ": " + value;
    StripCr(name, value, cr);
    ColonAfterName(name, value);
    assert line0[..|name|] == name;
    assert line0[|name| + 2..] == value;
  }

  /** The optional CR is all `rtrim` removes from such a line. */
  lemma StripCr(name: string, value: string, cr: bool)
    requires |value| > 0 ==> value[|value| - 1] != '\r'
    ensures RTrim(name + ": " + value + (if cr then "\r" else ""), {'\r'}) == name + ": " + value
  {
    var line0 := name + ": " + value;
    if |value| > 0 {
      assert line0[|line0| - 1] == value[|value| - 1];
    } else {
      assert line0[|line0| - 1] == ' ';
    }
    KeepsUntrimmed(line0);
    if cr {
      DropsOneCr(line0);
    } else {
      assert line0 + "" == line0;
    }
  }

  /** `rtrim` leaves a line that does not end in a CR as it is. */
  lemma KeepsUntrimmed(s: string)
    requires |s| > 0 && s[|s| - 1] != '\r'
    ensures RTrim(s, {'\r'}) == s
  {
  }

  /** One trailing CR goes. */
  lemma DropsOneCr(s: string)
    requires RTrim(s, {'\r'}) == s
    ensures RTrim(s + "\r", {'\r'}) == s
  {
    var line := s + "\r";
    assert line[|line| - 1] == '\r';
    assert line[..|line| - 1] == s;
  }

  /** The first `:` of `name: value` is the one after the name. */
  lemma ColonAfterName(name: string, value: string)
    requires ':' !in name
    ensures StrPos(name + ": " + value, ":") == Some(|name|)
  {
    var line0 := name + ": " + value;
    assert OccursAt(line0, ":", |name|) by { assert line0[|name|..|name| + 1] == ":"; }
    forall j | 0 <= j < |name| ensures !OccursAt(line0, ":", j) {
      assert line0[j..j + 1] == [name[j]];
    }
  }

  /** Protocol and reason phrase of the status line: the first space-separated
      token, then every token after the second joined by single spaces. */
  function ParseStatusLine(line: string): (r: (string, string))
  {
    var tokens := Split(RTrim(line, Whitespace), ' ');
    (tokens[0], Join(if |tokens| >= 2 then tokens[2..] else [], " "))
  }

  /** A status line `proto code reason...` yields the protocol and the reason
      phrase; the status code is skipped. */
  lemma StatusLineParts(proto: string, code: string, words: seq<string>)
    requires ' ' !in proto && ' ' !in code
    requires forall i :: 0 <= i < |words| ==> ' ' !in words[i]
    requires var line := Join([proto, code] + words, " "); |line| > 0 && line[|line| - 1] !in Whitespace
    ensures ParseStatusLine(Join([proto, code] + words, " ")) == (proto, Join(words, " "))
  {
    var parts := [proto, code] + words;
    var line := Join(parts, " ");
    assert RTrim(line, Whitespace) == line;
    forall i | 0 <= i < |parts| ensures ' ' !in parts[i] {
      if i >= 2 { assert parts[i] == words[i - 2]; }
    }
    SplitJoin(parts, ' ');
    assert parts[2..] == words;
  }

  /** `parseResponse()`: the first `headerLen` characters, right-trimmed and
      split on newlines, give the status line and then one header per line;
      the body is what follows them. */
  function ParseResponse(raw: string, headerLen: int): (r: Parsed)
    ensures var first := Split(RTrim(Substr(raw, 0, Some(headerLen)), Whitespace), '\n')[0];
            (r.proto, r.reason) == ParseStatusLine(first)
    ensures r.headers.Valid()
    ensures forall k :: r.headers.Get(k).GetOr([]) ==
              ValuesFor(ParseHeaderLines(Split(RTrim(Substr(raw, 0, Some(headerLen)), Whitespace), '\n')[1..]), k)
    ensures 0 <= headerLen <= |raw| ==> r.body == raw[headerLen..]
    ensures headerLen > |raw| ==> r.body == ""
  {
    var lines := Split(RTrim(Substr(raw, 0, Some(headerLen)), Whitespace), '\n');
    var st := ParseStatusLine(lines[0]);
    var fields := ParseHeaderLines(lines[1..]);
    var h := AddHeaderLines(Empty(), fields);
    assert forall k :: h.Get(k).GetOr([]) == ValuesFor(fields, k) by {
      forall k ensures h.Get(k).GetOr([]) == ValuesFor(fields, k) {
        AddHeaderLinesCollects(Empty(), fields, k);
      }
    }
    Parsed(st.0, st.1, h, Substr(raw, headerLen, None))
  }

  /** A header block made of a status line and header lines, one per line,
      then trailing whitespace and the body: the status line gives protocol
      and reason, the other lines give the header table, and the body is
      what follows the block. */
  lemma ParseResponseOfBlock(status: string, lines: seq<string>, gap: string, body: string)
    requires '\n' !in status && forall i :: 0 <= i < |lines| ==> '\n' !in lines[i]
    requires var block := Join([status] + lines, "\n"); |block| > 0 && block[|block| - 1] !in Whitespace
    requires forall i :: 0 <= i < |gap| ==> gap[i] in Whitespace
    ensures var block := Join([status] + lines, "\n");
            var p := ParseResponse(block + gap + body, |block| + |gap|);
            && (p.proto, p.reason) == ParseStatusLine(status)
            && p.body == body
            && forall k :: p.headers.Get(k).GetOr([]) == ValuesFor(ParseHeaderLines(lines), k)
  {
    var parts := [status] + lines;
    var block := Join(parts, "\n");
    var raw := block + gap + body;
    var n := |block| + |gap|;
    assert Substr(raw, 0, Some(n)) == block + gap by { assert raw[..n] == block + gap; }
    var t := RTrim(block + gap, Whitespace);
    assert forall j :: |block| <= j < n ==> (block + gap)[j] == gap[j - |block|];
    assert (block + gap)[|block| - 1] !in Whitespace;
    assert t == block;
    forall i | 0 <= i < |parts| ensures '\n' !in parts[i] {
      if i > 0 { assert parts[i] == lines[i - 1]; }
    }
    SplitJoin(parts, '\n');
    assert parts[1..] == lines;
    assert raw[n..] == body;
  }

  /** The header block and the body together are the raw output. */
  lemma HeadAndBody(raw: string, headerLen: int)
    requires 0 <= headerLen <= |raw|
    ensures Substr(raw, 0, Some(headerLen)) + ParseResponse(raw, headerLen).body == raw
  {
    assert raw[..headerLen] + raw[headerLen..] == raw;
  }

  /** The state the constructor leaves when the attempt `a` is the last one
      executed and `err` the recorded error: parsed only without an error. */
  function Finish(a: Attempt, err: Option<string>, executions: nat): (r: Response)
    ensures r.data == ResponseData(a) && r.error == err && r.executions == executions
    ensures err.Some? ==> r.body == a.raw && r.headers == Empty() && r.proto.None? && r.reason.None?
    ensures err.None? ==>
              var p := ParseResponse(a.raw, a.headerSize);
              r.body == p.body && r.headers == p.headers && r.proto == Some(p.proto) && r.reason == Some(p.reason)
  {
    if err.None? then
      var p := ParseResponse(a.raw, a.headerSize);
      Response(p.body, Some(p.proto), Some(p.reason), p.headers, ResponseData(a), None, executions)
    else
      Response(a.raw, None, None, Empty(), ResponseData(a), err, executions)
  }

  /** The constructor: execute, then up to `retryOnError` times check the
      latest attempt and, when it failed, record its error and execute again.
      `outcome(i)` is what the `i`-th execution (from 0) yields. */
  method Construct(outcome: nat -> Attempt, retryOnError: int) returns (r: Response)
    ensures r.executions >= 1
    ensures r.data == ResponseData(outcome(r.executions - 1))
    ensures retryOnError <= 0 ==> r.executions == 1 && r.error.None?
    ensures r.error.None? <==>
              retryOnError <= 0 || exists k :: 0 <= k < retryOnError && !Failed(outcome(k))
    ensures r.error.None? && retryOnError > 0 ==>
              !Failed(outcome(r.executions - 1)) &&
              forall j :: 0 <= j < r.executions - 1 ==> Failed(outcome(j))
    ensures r.error.Some? ==>
              && r.executions == retryOnError + 1
              && (forall j :: 0 <= j < retryOnError ==> Failed(outcome(j)))
              && r.error.value == ErrorText(outcome(retryOnError - 1))
    ensures r == Finish(outcome(r.executions - 1), r.error, r.executions)
  {
    var i: nat := 0;
    var cur := outcome(0);
    var err: Option<string> := None;
    var done := false;
    while i < retryOnError && !done
      invariant retryOnError > 0 ==> i <= retryOnError
      invariant retryOnError <= 0 ==> i == 0
      invariant cur == outcome(i)
      invariant forall j :: 0 <= j < i ==> Failed(outcome(j))
      invariant i == 0 ==> err.None?
      invariant i > 0 && !done ==> err == Some(ErrorText(outcome(i - 1)))
      invariant done ==> err.None? && !Failed(outcome(i)) && i < retryOnError
      decreases retryOnError - i, if done then 0 else 1
    {
      if Failed(cur) {
        err := Some(ErrorText(cur));
        i := i + 1;
        cur := outcome(i);
      } else {
        err := None;
        done := true;
      }
    }
    r := Finish(cur, err, i + 1);
  }

  /** `getHeader($name)`: the values received under exactly that name, or an
      empty list. */
  function GetHeader(r: Response, name: string): (v: seq<string>)
    ensures name !in r.headers.vals ==> v == []
    ensures name in r.headers.vals ==> v == r.headers.vals[name]
  {
    r.headers.Get(name).GetOr([])
  }

  /** `getStatusCode()`: the HTTP code of the last execution. */
  function GetStatusCode(r: Response): (c: Option<Value>)
    ensures c == GetInfo(r, "http_code")
    ensures "http_code" in r.data.vals ==> c == Some(r.data.vals["http_code"])
  {
    r.data.Get("http_code")
  }

  /** `getInfo($key)`: `None` plays PHP's `null` for an absent key. */
  function GetInfo(r: Response, key: string): (v: Option<Value>)
    ensures key !in r.data.vals ==> v.None?
    ensures key in r.data.vals ==> v == Some(r.data.vals[key])
  {
    r.data.Get(key)
  }

  /** The status code reported is the last execution's. */
  lemma StatusCodeOfLastExecution(outcome: nat -> Attempt, r: Response)
    requires r.executions >= 1 && r.data == ResponseData(outcome(r.executions - 1))
    ensures GetStatusCode(r) == Some(VInt(outcome(r.executions - 1).httpCode))
  {
  }
}
