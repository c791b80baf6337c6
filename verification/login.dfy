/** The token helpers of skype_web_php/SkypeLogin.php, which repeat the
    session rules on the login page and on the session record: the
    `ServerData` object is located behind a longer marker, and the skype token
    is refreshed exactly as in `SkypeSession::getOrSetSkypeToken`. The OAuth
    form exchange itself is not part of this model. */
module Login {
  import opened Wrappers
  import opened Text
  import opened Dicts
  import opened Php
  import opened Session

  /** Marker of the `ServerData` object in `SkypeLogin::parseServerData`. */
  const LoginServerDataMarker := "<script type=\"text/javascript\">var ServerData"

  /** `SkypeLogin::parseServerData` cutting: from the first `{` after the
      script marker up to the first `;</script>` after it. */
  function LoginServerData(page: string): (r: string)
    ensures var i := PosOrZero(StrPos(page, LoginServerDataMarker));
            var j := IndexOf(page, "{", i);
            var from := if j.Some? then j.value else i;
            var k := IndexOf(page, ";</script>", from);
            && (k.Some? ==> r == page[from..k.value])
            && (k.None? ==> r == "")
  {
    ServerDataSlice(page, LoginServerDataMarker)
  }

  /** `getSkypeToken` on the session record read from disk: the stored
      `skypeToken` entry is refreshed under the same rule as the session's. */
  function GetSkypeToken(session: Dict<Value>, now: int, fetched: Value, later: int, threshold: int): (r: Option<Dict<Value>>)
    ensures var stored := session.Get("skypeToken").GetOr(VNull);
            && (r.Some? <==> Autovivifies(stored))
            && (r.Some? && !SkypeTokenExpired(stored, now) ==>
                  && r.value.Get("expires_in") == Some(VInt(IntCast(ReadKey(stored, "expires_in"))))
                  && r.value.Get("skypetoken") == AsTable(stored).Get("skypetoken"))
            && (r.Some? && SkypeTokenExpired(stored, now) ==>
                  && r.value.Get("skypetoken") == Some(ReadKey(fetched, "skypetoken"))
                  && r.value.Get("expires_in") == Some(VInt(IntCast(ReadKey(fetched, "expires_in")) + later - threshold)))
            && (r.Some? ==> forall k :: k != "expires_in" && k != "skypetoken" ==> r.value.Get(k) == AsTable(stored).Get(k))
  {
    GetOrSetSkypeToken(session.Get("skypeToken").GetOr(VNull), now, fetched, later, threshold)
  }
}
