/** The cloud prefix the client reads from redirect targets and from the
    registration `Location` header: the first capture group of the unanchored
    pattern `https?://([^-]*-)client\-s`, leftmost match. */
module Cloud {
  import opened Wrappers
  import opened Text

  /** Where the scheme at `s` ends, if `http://` or `https://` starts there.
      The two cannot both start at the same place. */
  function SchemeEnd(str: string, s: nat): (r: Option<nat>)
    ensures r.Some? ==> r.value <= |str|
    ensures r.Some? <==> OccursAt(str, "https://", s) || OccursAt(str, "http://", s)
    ensures OccursAt(str, "https://", s) ==> r == Some(s + 8)
    ensures OccursAt(str, "http://", s) ==> r == Some(s + 7)
  {
    if OccursAt(str, "https://", s) then
      assert !OccursAt(str, "http://", s) by {
        assert str[s + 4] == str[s..s + 8][4] == 's';
        if s + 7 <= |str| { assert str[s..s + 7][4] == str[s + 4]; }
      }
      Some(s + 8)
    else if OccursAt(str, "http://", s) then Some(s + 7)
    else None
  }

  /** The capture when the pattern matches starting at `s`: the run after the
      scheme up to and including its first `-`, which must be followed by
      `client-s`. `[^-]*` cannot cross a `-`, so no other split exists. */
  function MatchAt(str: string, s: nat): (r: Option<string>)
    ensures r.Some? ==> |r.value| >= 1 && r.value[|r.value| - 1] == '-'
    ensures r.Some? ==> '-' !in r.value[..|r.value| - 1]
    ensures r.Some? ==> SchemeEnd(str, s).Some?
    ensures r.Some? ==> var c := SchemeEnd(str, s).value;
              c + |r.value| <= |str| && str[c..c + |r.value|] == r.value && OccursAt(str, "client-s", c + |r.value|)
  {
    match SchemeEnd(str, s)
    case None => None
    case Some(c) =>
      match IndexOf(str, "-", c)
      case None => None
      case Some(d) =>
        if OccursAt(str, "client-s", d + 1) then
          var cap := str[c..d + 1];
          assert '-' !in cap[..|cap| - 1] by {
            forall j | 0 <= j < |cap| - 1 ensures cap[j] != '-' {
              assert !OccursAt(str, "-", c + j);
              assert str[c + j..c + j + 1] == [str[c + j]];
            }
          }
          Some(cap)
        else None
  }

  /** Leftmost match at or after position `s`. */
  function FirstMatch(str: string, s: nat): (r: Option<string>)
    ensures r.Some? ==> exists p :: s <= p <= |str| && MatchAt(str, p) == r
                                && forall q :: s <= q < p ==> MatchAt(str, q).None?
    ensures r.None? ==> forall p :: s <= p <= |str| ==> MatchAt(str, p).None?
    decreases |str| - s
  {
    if s > |str| then None
    else if MatchAt(str, s).Some? then MatchAt(str, s)
    else FirstMatch(str, s + 1)
  }

  /** `preg_match` with the pattern above; `None` when there is no match. */
  function CloudPrefix(str: string): (r: Option<string>)
    ensures r.None? <==> forall p :: 0 <= p <= |str| ==> MatchAt(str, p).None?
    ensures r.Some? ==> exists p :: 0 <= p <= |str| && MatchAt(str, p) == r
                                && forall q :: 0 <= q < p ==> MatchAt(str, q).None?
    ensures r.Some? ==> |r.value| >= 1 && r.value[|r.value| - 1] == '-' && '-' !in r.value[..|r.value| - 1]
  {
    FirstMatch(str, 0)
  }

  /** A URL `scheme` + `host-client-s...` yields `host-` as its cloud prefix
      whenever the host part has no `-`. */
  lemma PrefixOfGatewayUrl(secure: bool, host: string, rest: string)
    requires '-' !in host
    ensures CloudPrefix((if secure then "https://" else "http://") + host + "-client-s" + rest) == Some(host + "-")
  {
    var scheme := if secure then "https://" else "http://";
    var str := scheme + host + "-client-s" + rest;
    var c := |scheme|;
    var d := c + |host|;
    SchemeAtStart(secure, host + "-client-s" + rest);
    assert str == scheme + (host + "-client-s" + rest);
    GatewayParts(scheme, host, rest);
    MatchAfterScheme(str, c, d);
  }

  /** Where the parts of `scheme + host + "-client-s" + rest` sit. */
  lemma GatewayParts(scheme: string, host: string, rest: string)
    requires '-' !in host
    ensures var str := scheme + host + "-client-s" + rest;
            var c, d := |scheme|, |scheme| + |host|;
            && d < |str|
            && (forall j :: c <= j < d ==> str[j] != '-')
            && str[d] == '-' && OccursAt(str, "client-s", d + 1)
            && str[c..d + 1] == host + "-"
  {
    var h := host + "-";
    var t := "client-s" + rest;
    var str := scheme + host + "-client-s" + rest;
    assert "-client-s" == "-" + "client-s";
    ConcatAssoc4(scheme, host, "-", "client-s", rest);
    assert str == scheme + h + t;
    MidSlice(scheme, h, t);
    MidSlice(scheme + h, "client-s", rest);
    forall j | |scheme| <= j < |scheme| + |host| ensures str[j] != '-' {
      assert str[j] == h[j - |scheme|] == host[j - |scheme|];
    }
  }

  lemma ConcatAssoc4(a: string, b: string, c: string, d: string, e: string)
    ensures a + b + (c + d) + e == a + (b + c) + (d + e)
  {
  }

  lemma MidSlice(a: string, b: string, c: string)
    ensures (a + b + c)[|a|..|a| + |b|] == b
  {
  }

  /** Once the scheme at the start ends at `c`, the first `-` after it is at
      `d` and `client-s` follows, the capture is the text between. */
  lemma MatchAfterScheme(str: string, c: nat, d: nat)
    requires SchemeEnd(str, 0) == Some(c) && c <= d < |str|
    requires forall j :: c <= j < d ==> str[j] != '-'
    requires str[d] == '-' && OccursAt(str, "client-s", d + 1)
    ensures CloudPrefix(str) == Some(str[c..d + 1])
  {
    IndexOfChar(str, '-', c, d);
    assert IndexOf(str, "-", c) == Some(d);
    assert MatchAt(str, 0) == Some(str[c..d + 1]);
  }

  lemma SchemeAtStart(secure: bool, tail: string)
    ensures SchemeEnd((if secure then "https://" else "http://") + tail, 0) == Some(if secure then 8 else 7)
  {
    var scheme := if secure then "https://" else "http://";
    var str := scheme + tail;
    assert str[..|scheme|] == scheme;
    if !secure {
      assert str[4] == ':';
      if 8 <= |str| { assert str[0..8][4] == ':'; }
    }
  }
}
