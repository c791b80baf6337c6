/** Session-token rules of skype_web_php/SkypeSession.php: when the skype
    token is refreshed and what expiry it then gets, when the stored
    registration token is discarded, how a `Set-RegistrationToken` response
    header is read, and where the login page's `ServerData` object is cut out.
    Clocks and the token fetch are parameters; the session file is the
    in-memory record. */
module Session {
  import opened Wrappers
  import opened Text
  import opened Dicts
  import opened Php
  import opened Cloud

  /** Default `$expiresTreshold` of `getOrSetSkypeToken`, in seconds. */
  const SkypeTokenThreshold: int := 3600

  /** Default `$expiresTreshold` of `getOrSetTokenFromResponse`, in seconds. */
  const RegTokenThreshold: int := 600

  /** The stored skype token is due for a refresh: its integer expiry is
      strictly before `now`. */
  predicate SkypeTokenExpired(stored: Value, now: int) {
    IntCast(ReadKey(stored, "expires_in")) < now
  }

  /** `getOrSetSkypeToken` on the stored `skypeToken` record. The expiry is
      cast to int first; if it is before `now`, the token is fetched again
      (`fetched`, read at time `later`) and stored with expiry
      `(int)fetched.expires_in + later - threshold`. `None` is the PHP error
      when the record is a scalar that cannot be written to. */
  function GetOrSetSkypeToken(stored: Value, now: int, fetched: Value, later: int, threshold: int): (r: Option<Dict<Value>>)
    ensures r.Some? <==> Autovivifies(stored)
    ensures r.Some? && AsTable(stored).Valid() ==> r.value.Valid()
    ensures r.Some? && !SkypeTokenExpired(stored, now) ==>
              && r.value.Get("expires_in") == Some(VInt(IntCast(ReadKey(stored, "expires_in"))))
              && forall k :: k != "expires_in" ==> r.value.Get(k) == AsTable(stored).Get(k)
    ensures r.Some? && SkypeTokenExpired(stored, now) ==>
              && r.value.Get("skypetoken") == Some(ReadKey(fetched, "skypetoken"))
              && r.value.Get("expires_in") == Some(VInt(IntCast(ReadKey(fetched, "expires_in")) + later - threshold))
              && forall k :: k != "expires_in" && k != "skypetoken" ==> r.value.Get(k) == AsTable(stored).Get(k)
  {
    if !Autovivifies(stored) then None
    else
      var tok := AsTable(stored);
      var exp := IntCast(ReadKey(stored, "expires_in"));
      var tok1 := tok.Set("expires_in", VInt(exp));
      if exp < now then
        var tok2 := tok1.Set("skypetoken", ReadKey(fetched, "skypetoken"));
        Some(tok2.Set("expires_in", VInt(IntCast(ReadKey(fetched, "expires_in")) + later - threshold)))
      else Some(tok1)
  }

  /** A freshly fetched token whose lifetime exceeds the threshold is not due
      again at the time of the check, and a second call then leaves it as it
      is. */
  lemma RefreshedTokenIsFresh(stored: Value, now: int, fetched: Value, later: int, threshold: int, fetched2: Value, later2: int)
    requires Autovivifies(stored) && AsTable(stored).Valid()
    requires later >= now
    requires IntCast(ReadKey(fetched, "expires_in")) >= threshold
    ensures var t := GetOrSetSkypeToken(stored, now, fetched, later, threshold).value;
            && !SkypeTokenExpired(VMap(t), now)
            && GetOrSetSkypeToken(VMap(t), now, fetched2, later2, threshold) == Some(t)
  {
    var t := GetOrSetSkypeToken(stored, now, fetched, later, threshold).value;
    assert "expires_in" in t.vals;
    var e := t.vals["expires_in"];
    if SkypeTokenExpired(stored, now) {
      assert e == VInt(IntCast(ReadKey(fetched, "expires_in")) + later - threshold);
    } else {
      assert e == VInt(IntCast(ReadKey(stored, "expires_in")));
    }
    assert ReadKey(VMap(t), "expires_in") == e;
    assert Autovivifies(VMap(t)) && AsTable(VMap(t)) == t;
    SetSame(t, "expires_in");
    assert AsTable(VMap(t)).Set("expires_in", VInt(IntCast(e))) == t;
  }


  /** The stored registration token must be discarded: its key is empty
      (`""`, `"0"`, missing, ...) or its integer expiry is before `now`. */
  predicate RegTokenStale(stored: Value, now: int) {
    !Truthy(ReadKey(stored, "key")) || IntCast(ReadKey(stored, "expires")) < now
  }

  /** `loadRegistrationToken`: the expiry is cast to int, and a stale record
      has all five fields blanked. (Its `$expiresTreshold` argument is unused.) */
  function LoadRegistrationToken(stored: Value, now: int): (r: Option<Dict<Value>>)
    ensures r.Some? <==> Autovivifies(stored)
    ensures r.Some? && AsTable(stored).Valid() ==> r.value.Valid()
    ensures r.Some? && RegTokenStale(stored, now) ==>
              && r.value.Get("url") == Some(VStr(""))
              && r.value.Get("key") == Some(VStr(""))
              && r.value.Get("expires") == Some(VInt(0))
              && r.value.Get("endpointId") == Some(VStr(""))
              && r.value.Get("cloudPrefix") == Some(VStr(""))
    ensures r.Some? && !RegTokenStale(stored, now) ==>
              r.value.Get("expires") == Some(VInt(IntCast(ReadKey(stored, "expires"))))
    ensures r.Some? ==> forall k :: k !in {"url", "key", "expires", "endpointId", "cloudPrefix"} ==>
              r.value.Get(k) == AsTable(stored).Get(k)
    ensures r.Some? && !RegTokenStale(stored, now) ==> forall k :: k != "expires" ==>
              r.value.Get(k) == AsTable(stored).Get(k)
  {
    if !Autovivifies(stored) then None
    else
      var reg := AsTable(stored).Set("expires", VInt(IntCast(ReadKey(stored, "expires"))));
      if RegTokenStale(stored, now) then Some(Blanked(reg)) else Some(reg)
  }

  /** The five registration fields blanked, in the source's order. */
  function Blanked(reg: Dict<Value>): (r: Dict<Value>)
    ensures reg.Valid() ==> r.Valid()
    ensures r.Get("url") == Some(VStr("")) && r.Get("key") == Some(VStr(""))
    ensures r.Get("expires") == Some(VInt(0))
    ensures r.Get("endpointId") == Some(VStr("")) && r.Get("cloudPrefix") == Some(VStr(""))
    ensures forall k :: k !in {"url", "key", "expires", "endpointId", "cloudPrefix"} ==> r.Get(k) == reg.Get(k)
  {
    FieldNamesDiffer();
    var r1 := reg.Set("url", VStr(""));
    var r2 := r1.Set("key", VStr(""));
    var r3 := r2.Set("expires", VInt(0));
    var r4 := r3.Set("endpointId", VStr(""));
    var r5 := r4.Set("cloudPrefix", VStr(""));
    assert r5.Get("url") == r4.Get("url") == r3.Get("url") == r2.Get("url") == r1.Get("url");
    assert r5.Get("key") == r4.Get("key") == r3.Get("key") == r2.Get("key");
    assert r5.Get("expires") == r4.Get("expires") == r3.Get("expires");
    assert r5.Get("endpointId") == r4.Get("endpointId");
    r5
  }

  /** The five field names are pairwise different. */
  lemma FieldNamesDiffer()
    ensures "url" != "key" && "url" != "expires" && "url" != "endpointId" && "url" != "cloudPrefix"
    ensures "key" != "expires" && "key" != "endpointId" && "key" != "cloudPrefix"
    ensures "expires" != "endpointId" && "expires" != "cloudPrefix"
    ensures "endpointId" != "cloudPrefix"
  {
    assert "url"[0] == 'u' && "key"[0] == 'k' && "expires"[0] == 'e' && "endpointId"[0] == 'e' && "cloudPrefix"[0] == 'c';
    assert "expires"[1] == 'x' && "endpointId"[1] == 'n';
  }

  /** A blanked record is stale again at any later time: the next login
      registers anew. */
  lemma StaleRecordStaysStale(stored: Value, now: int, later: int)
    requires Autovivifies(stored) && RegTokenStale(stored, now)
    ensures RegTokenStale(VMap(LoadRegistrationToken(stored, now).value), later)
  {
    var r := LoadRegistrationToken(stored, now).value;
    assert ReadKey(VMap(r), "key") == VStr("");
  }

  /** A record that is not stale loads to itself once its expiry has been
      cast to an integer. */
  lemma FreshRecordIsStable(stored: Value, now: int)
    requires Autovivifies(stored) && AsTable(stored).Valid() && !RegTokenStale(stored, now)
    ensures var r := LoadRegistrationToken(stored, now).value;
            LoadRegistrationToken(VMap(r), now) == Some(r)
  {
    var r := LoadRegistrationToken(stored, now).value;
    assert ReadKey(VMap(r), "key") == ReadKey(stored, "key");
    var e := r.vals["expires"];
    assert e == VInt(IntCast(ReadKey(stored, "expires")));
    assert ReadKey(VMap(r), "expires") == e;
    assert !RegTokenStale(VMap(r), now);
    SetSame(r, "expires");
    assert AsTable(VMap(r)).Set("expires", VInt(IntCast(e))) == r;
  }

  /** Part `i` of an exploded header; a missing part reads as "". */
  function Part(parts: seq<string>, i: nat): string {
    if i < |parts| then parts[i] else ""
  }

  /** The text after the first `=`; without one, `strpos` yields `false` and
      the text after the first character is taken. */
  function AfterEquals(s: string): (r: string)
    ensures '=' !in s ==> r == (if |s| >= 1 then s[1..] else "")
    ensures forall i :: 0 <= i < |s| && s[i] == '=' && (forall j :: 0 <= j < i ==> s[j] != '=') ==> r == s[i + 1..]
  {
    var p := StrPos(s, "=");
    forall i | 0 <= i < |s| && s[i] == '=' && (forall j :: 0 <= j < i ==> s[j] != '=')
      ensures p == Some(i)
    {
      IndexOfChar(s, '=', 0, i);
    }
    if p.None? then
      assert '=' !in s by {
        forall j | 0 <= j < |s| ensures s[j] != '=' {
          assert !OccursAt(s, "=", j);
          assert s[j..j + 1] == [s[j]];
        }
      }
      Substr(s, 1, None)
    else
      Substr(s, p.value + 1, None)
  }

  /** Key, expiry and endpoint id read from a `Set-RegistrationToken` value
      `key; expires=<n>; endpointId=<id>`. */
  function RegistrationFields(header: string, threshold: int): (string, int, string) {
    FieldsFromParts(Split(header, ';'), threshold)
  }

  /** The fields read from the exploded header: the first part trimmed, the
      integer after the `=` of the second less the threshold, and the text
      after the `=` of the third. */
  function FieldsFromParts(parts: seq<string>, threshold: int): (string, int, string) {
    (Trim(Part(parts, 0)), ParseLeadingInt(AfterEquals(Trim(Part(parts, 1)))) - threshold, AfterEquals(Trim(Part(parts, 2))))
  }

  /** The three fields of a registration header written into the stored
      record, in the source's order. */
  function StoreFields(stored: Value, f: (string, int, string)): (r: Dict<Value>)
    requires Autovivifies(stored)
    ensures r.Get("key") == Some(VStr(f.0))
    ensures r.Get("expires") == Some(VInt(f.1))
    ensures r.Get("endpointId") == Some(VStr(f.2))
    ensures forall k :: k != "key" && k != "expires" && k != "endpointId" ==> r.Get(k) == AsTable(stored).Get(k)
    ensures AsTable(stored).Valid() ==> r.Valid()
  {
    FieldNamesDiffer();
    var t0 := AsTable(stored);
    var t1 := t0.Set("key", VStr(f.0));
    var t2 := t1.Set("expires", VInt(f.1));
    var t3 := t2.Set("endpointId", VStr(f.2));
    assert t3.Get("key") == t2.Get("key") == t1.Get("key");
    assert t3.Get("expires") == t2.Get("expires");
    t3
  }

  /** The first `Location` value stored as URL, and its cloud prefix when the
      gateway pattern matches it. */
  function StoreLocation(reg: Dict<Value>, loc: seq<string>): (r: Dict<Value>)
    ensures r.Get("url") == (if |loc| > 0 then Some(VStr(loc[0])) else reg.Get("url"))
    ensures r.Get("cloudPrefix") ==
              (if |loc| > 0 && CloudPrefix(loc[0]).Some? then Some(VStr(CloudPrefix(loc[0]).value))
               else reg.Get("cloudPrefix"))
    ensures forall k :: k != "url" && k != "cloudPrefix" ==> r.Get(k) == reg.Get(k)
    ensures reg.Valid() ==> r.Valid()
  {
    if |loc| == 0 then reg
    else
      var reg' := reg.Set("url", VStr(loc[0]));
      match CloudPrefix(loc[0])
      case Some(c) => reg'.Set("cloudPrefix", VStr(c))
      case None => reg'
  }

  /** `name=value` with no `=` in the name gives back the value. */
  lemma AfterEqualsField(name: string, v: string)
    requires '=' !in name
    ensures AfterEquals(name + "=" + v) == v
  {
    var s := name + "=" + v;
    assert s[|name|] == '=';
    assert forall j :: 0 <= j < |name| ==> s[j] == name[j];
    assert s[|name| + 1..] == v;
  }

  lemma TrimmedField(name: string, v: string)
    requires |name| > 0 && name[0] !in Whitespace && Trimmed(v)
    ensures Trimmed(name + "=" + v)
  {
    var s := name + "=" + v;
    assert s[0] == name[0];
    if |v| == 0 { assert s[|s| - 1] == '='; } else { assert s[|s| - 1] == v[|v| - 1]; }
  }

  /** Three parts without `;` joined by `;` explode back into themselves. */
  lemma SplitThree(p0: string, p1: string, p2: string)
    requires ';' !in p0 && ';' !in p1 && ';' !in p2
    ensures Split(p0 + ";" + p1 + ";" + p2, ';') == [p0, p1, p2]
  {
    var parts := [p0, p1, p2];
    assert Join(parts[2..], ";") == p2;
    assert Join(parts[1..], ";") == p1 + ";" + p2;
    assert p0 + ";" + p1 + ";" + p2 == Join(parts, ";");
    SplitJoin(parts, ';');
  }

  /** The fields read from three parts. */
  lemma FieldsOfThree(p0: string, p1: string, p2: string, threshold: int)
    ensures var f := FieldsFromParts([p0, p1, p2], threshold);
            f.0 == Trim(p0) && f.1 == ParseLeadingInt(AfterEquals(Trim(p1))) - threshold && f.2 == AfterEquals(Trim(p2))
  {
    var parts := [p0, p1, p2];
    assert Part(parts, 0) == p0;
    assert Part(parts, 1) == p1;
    assert Part(parts, 2) == p2;
  }

  /** The fields read from three `;`-separated parts. */
  lemma FieldsOfJoin(p0: string, p1: string, p2: string, threshold: int)
    requires ';' !in p0 && ';' !in p1 && ';' !in p2
    ensures var f := RegistrationFields(p0 + ";" + p1 + ";" + p2, threshold);
            f.0 == Trim(p0) && f.1 == ParseLeadingInt(AfterEquals(Trim(p1))) - threshold && f.2 == AfterEquals(Trim(p2))
  {
    SplitThree(p0, p1, p2);
    FieldsOfThree(p0, p1, p2, threshold);
  }

  /** A header written as `key; expires=<n>; endpointId=<id>` reads back as
      the key, `n` less the threshold, and the id. */
  lemma RegistrationHeaderRoundTrip(header: string, key: string, expires: nat, id: string, threshold: int)
    requires ';' !in key && ';' !in id && Trimmed(key) && Trimmed(id)
    requires header == key + ";" + (" expires=" + NatToString(expires)) + ";" + (" endpointId=" + id)
    ensures var f := RegistrationFields(header, threshold);
            f.0 == key && f.1 == expires - threshold && f.2 == id
  {
    var n := NatToString(expires);
    var p1 := " expires=" + n;
    var p2 := " endpointId=" + id;
    assert ';' !in p1 by { assert forall j :: 0 <= j < |n| ==> IsDigit(n[j]); }
    assert ';' !in p2;
    TrimSpaced(key);
    ExpiresField(p1, expires);
    EndpointIdField(p2, id);
    FieldsOfJoin(key, p1, p2, threshold);
  }


  /** The value of a ` name=value` part once trimmed. */
  lemma FieldValue(prefix: string, name: string, v: string)
    requires prefix == " " + name + "="
    requires |name| > 0 && name[0] !in Whitespace && '=' !in name && Trimmed(v)
    ensures AfterEquals(Trim(prefix + v)) == v
  {
    var f := name + "=" + v;
    TrimmedField(name, v);
    assert prefix + v == " " + f;
    TrimSpaced(f);
    AfterEqualsField(name, v);
  }

  lemma EndpointIdField(part: string, id: string)
    requires Trimmed(id) && part == " endpointId=" + id
    ensures AfterEquals(Trim(part)) == id
  {
    FieldValue(" endpointId=", "endpointId", id);
  }

  lemma ExpiresField(part: string, expires: nat)
    requires part == " expires=" + NatToString(expires)
    ensures ParseLeadingInt(AfterEquals(Trim(part))) == expires
  {
    var n := NatToString(expires);
    assert Trimmed(n) by { assert IsDigit(n[0]) && IsDigit(n[|n| - 1]); }
    FieldValue(" expires=", "expires", n);
    ParseDigitsOnly(n);
    DigitsValueOfNatToString(expires);
  }

  /** `getOrSetTokenFromResponse`: on a 201 response carrying
      `Set-RegistrationToken`, the stored record gets the key, the expiry
      less the threshold and the endpoint id, then the first `Location` as URL
      and its cloud prefix when the pattern matches. Otherwise the stored
      value comes back untouched. `header(n)` is the response's list of
      values for `n`. */
  function GetOrSetTokenFromResponse(stored: Value, status: int, header: string -> seq<string>, threshold: int): (r: Option<Value>)
    ensures status != 201 || |header("Set-RegistrationToken")| == 0 ==> r == Some(stored)
    ensures status == 201 && |header("Set-RegistrationToken")| > 0 ==> (r.Some? <==> Autovivifies(stored))
    ensures status == 201 && |header("Set-RegistrationToken")| > 0 && r.Some? ==>
              var f := RegistrationFields(header("Set-RegistrationToken")[0], threshold);
              r == Some(VMap(StoreLocation(StoreFields(stored, f), header("Location"))))
  {
    if status != 201 || |header("Set-RegistrationToken")| == 0 then Some(stored)
    else if !Autovivifies(stored) then None
    else
      var f := RegistrationFields(header("Set-RegistrationToken")[0], threshold);
      Some(VMap(StoreLocation(StoreFields(stored, f), header("Location"))))
  }

  /** `parseServerData` cutting (the JSON decoding is not modelled): from the
      first `{` after the marker up to the first `;</script>` after it. A
      missing marker starts the search at the beginning; a missing `{` keeps
      the text from the marker on; a missing end gives "". */
  function ServerDataSlice(s: string, marker: string): (r: string)
    ensures var i := PosOrZero(StrPos(s, marker));
            var j := IndexOf(s, "{", i);
            var from := if j.Some? then j.value else i;
            var k := IndexOf(s, ";</script>", from);
            && (k.Some? ==> r == s[from..k.value])
            && (k.None? ==> r == "")
  {
    var i := PosOrZero(StrPos(s, marker));
    var a := Substr(s, i, None);
    var b := Substr(a, PosOrZero(StrPos(a, "{")), None);
    var e := StrPos(b, ";</script>");
    ServerDataSliceSpec(s, marker);
    Substr(b, 0, Some(PosOrZero(e)))
  }

  lemma ServerDataSliceSpec(s: string, marker: string)
    ensures var i := PosOrZero(StrPos(s, marker));
            var a := Substr(s, i, None);
            var b := Substr(a, PosOrZero(StrPos(a, "{")), None);
            var r := Substr(b, 0, Some(PosOrZero(StrPos(b, ";</script>"))));
            var j := IndexOf(s, "{", i);
            var from := if j.Some? then j.value else i;
            var k := IndexOf(s, ";</script>", from);
            && (k.Some? ==> r == s[from..k.value])
            && (k.None? ==> r == "")
  {
    var i := PosOrZero(StrPos(s, marker));
    assert i <= |s|;
    SkipTo(s, i, "{");
    var j := IndexOf(s, "{", i);
    var from := if j.Some? then j.value else i;
    CutAt(s, from, ";</script>");
  }

  /** `substr($t, strpos($t, $pat))` on `$t` the suffix of `s` from `i`:
      the suffix from the first occurrence, or from `i` when there is none. */
  lemma SkipTo(s: string, i: nat, pat: string)
    requires i <= |s|
    ensures var a := Substr(s, i, None);
            var j := IndexOf(s, pat, i);
            Substr(a, PosOrZero(StrPos(a, pat)), None) == s[(if j.Some? then j.value else i)..]
  {
    var a := Substr(s, i, None);
    assert a == s[i..];
    IndexOfSuffix(s, pat, i);
    var j := IndexOf(s, pat, i);
    if j.Some? {
      SuffixOfSuffix(s, i, j.value - i);
    } else {
      SuffixOfSuffix(s, i, 0);
    }
  }

  lemma SuffixOfSuffix(s: string, i: nat, p: nat)
    requires i + p <= |s|
    ensures Substr(s[i..], p, None) == s[i + p..]
  {
  }

  /** `substr($t, 0, strpos($t, $pat))` on the suffix of `s` from `from`:
      the text up to the first occurrence, or "" when there is none. */
  lemma CutAt(s: string, from: nat, pat: string)
    requires from <= |s|
    ensures var b := s[from..];
            var k := IndexOf(s, pat, from);
            Substr(b, 0, Some(PosOrZero(StrPos(b, pat)))) == (if k.Some? then s[from..k.value] else "")
  {
    IndexOfSuffix(s, pat, from);
  }

  /** On a page where the marker is first found at `m`, the first `{` after
      it is at `o` and the first `;</script>` after that is at `e`, the slice
      is exactly the text from `o` to `e`. */
  lemma ServerDataOfPage(page: string, marker: string, m: nat, o: nat, e: nat)
    requires StrPos(page, marker) == Some(m)
    requires m <= o < |page| && page[o] == '{' && forall j :: m <= j < o ==> page[j] != '{'
    requires o <= e && OccursAt(page, ";</script>", e)
    requires forall j :: o <= j < e ==> !OccursAt(page, ";</script>", j)
    ensures ServerDataSlice(page, marker) == page[o..e]
  {
    IndexOfChar(page, '{', m, o);
    IndexOfFirst(page, ";</script>", o, e);
  }

  /** Marker of the `ServerData` object in `SkypeSession::parseServerData`. */
  const ServerDataMarker := "ServerData"
}
