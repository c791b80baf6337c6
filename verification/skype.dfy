/** The checks the facade skype_web_php/Skype.php makes before it calls the
    transport: status and property whitelists, the profile filter, the
    invitation answer, thread creation and the guards that keep a thread
    from losing its last admin. The transport calls themselves are outside
    the model; each operation returns what it would hand to the transport,
    or `None` where the facade returns `false` without calling it. */
module Skype {
  import opened Wrappers
  import opened Text
  import opened Dicts
  import opened Php
  import opened Resolution

  /** `setStatus($status)`: only `Online`, `Busy` and `Hidden` are forwarded.
      `in_array` compares loosely, so `true` is forwarded as well. */
  function SetStatus(status: Value): (r: Option<Value>)
    ensures r.Some? <==> status in {VStr("Online"), VStr("Busy"), VStr("Hidden"), VBool(true)}
    ensures r.Some? ==> r.value == status
  {
    if LooseEqualsLiteral(status, "Online") || LooseEqualsLiteral(status, "Busy") || LooseEqualsLiteral(status, "Hidden")
    then Some(status) else None
  }

  /** The profile properties `updateProfile` accepts. */
  const ProfileKeys: set<string> := {
    "about", "birthday", "city", "country",
    "firstname", "gender", "homepage", "jobtitle",
    "language", "lastname", "mood", "phonehome",
    "phonemobile", "phoneoffice", "province", "richmood"
  }

  /** `r` is `ks` with some entries left out, the rest in their order:
      each entry of `r` is matched with the first entry of `ks` left that
      equals it. */
  predicate SubsequenceOf<T(==)>(r: seq<T>, ks: seq<T>)
    decreases |ks|
  {
    |r| == 0 || (|ks| > 0 && if r[0] == ks[0] then SubsequenceOf(r[1..], ks[1..]) else SubsequenceOf(r, ks[1..]))
  }

  /** Any two entries of `r` occur in `ks` in the same order. */
  ghost predicate InOrder<T>(r: seq<T>, ks: seq<T>) {
    forall i, j :: 0 <= i < j < |r| ==>
      exists p, q :: 0 <= p < q < |ks| && ks[p] == r[i] && ks[q] == r[j]
  }

  /** Every position moved one further along. */
  function Shifted(ps: seq<nat>): (r: seq<nat>)
    ensures |r| == |ps|
    ensures forall i :: 0 <= i < |ps| ==> r[i] == ps[i] + 1
  {
    seq(|ps|, i requires 0 <= i < |ps| => ps[i] + 1)
  }

  /** Where the entries of a subsequence sit in `ks`: strictly increasing
      positions holding those entries. */
  lemma {:induction false} SubsequencePositions<T>(r: seq<T>, ks: seq<T>) returns (ps: seq<nat>)
    requires SubsequenceOf(r, ks)
    ensures |ps| == |r|
    ensures forall i :: 0 <= i < |ps| ==> ps[i] < |ks| && ks[ps[i]] == r[i]
    ensures forall i, j :: 0 <= i < j < |ps| ==> ps[i] < ps[j]
    decreases |ks|
  {
    if |r| == 0 {
      return [];
    }
    if r[0] == ks[0] {
      var inner := SubsequencePositions(r[1..], ks[1..]);
      ps := [0] + Shifted(inner);
      forall i | 0 < i < |ps|
        ensures ps[i] == inner[i - 1] + 1 && ps[i] < |ks| && ks[ps[i]] == r[i]
      {
        assert ks[1..][inner[i - 1]] == r[1..][i - 1];
      }
    } else {
      var inner := SubsequencePositions(r, ks[1..]);
      ps := Shifted(inner);
      forall i | 0 <= i < |ps|
        ensures ps[i] < |ks| && ks[ps[i]] == r[i]
      {
        assert ks[1..][inner[i]] == r[i];
      }
    }
  }

  /** A subsequence lists its entries in the order `ks` does. */
  lemma SubsequenceInOrder<T>(r: seq<T>, ks: seq<T>)
    requires SubsequenceOf(r, ks)
    ensures InOrder(r, ks)
  {
    var ps := SubsequencePositions(r, ks);
    forall i, j | 0 <= i < j < |r|
      ensures exists p, q :: 0 <= p < q < |ks| && ks[p] == r[i] && ks[q] == r[j]
    {
      assert ps[i] < ps[j] < |ks| && ks[ps[i]] == r[i] && ks[ps[j]] == r[j];
    }
  }

  /** The keys of `ks` that belong to `allowed`, in order. */
  function KeepKeys(ks: seq<string>, allowed: set<string>): (r: seq<string>)
    ensures forall k :: k in r <==> k in ks && k in allowed
    ensures |r| <= |ks|
    ensures Distinct(ks) ==> Distinct(r)
    ensures SubsequenceOf(r, ks)
  {
    if |ks| == 0 then []
    else
      var rest := KeepKeys(ks[1..], allowed);
      assert forall k :: k in ks <==> k == ks[0] || k in ks[1..];
      if ks[0] in allowed then
        assert Distinct(ks) ==> ks[0] !in ks[1..];
        assert ([ks[0]] + rest)[1..] == rest;
        [ks[0]] + rest
      else
        assert |rest| > 0 ==> rest[0] in allowed && rest[0] != ks[0];
        rest
  }

  /** Dropping the keys outside `allowed` from a table, keeping the order of
      the rest (`unset` inside `foreach`). */
  function Restricted(d: Dict<Value>, allowed: set<string>): (r: Dict<Value>)
    requires d.Valid()
    ensures r.Valid()
    ensures forall k :: r.Get(k) == (if k in allowed then d.Get(k) else None)
    ensures r.keys == KeepKeys(d.keys, allowed)
  {
    Dict(KeepKeys(d.keys, allowed), map k | k in d.vals && k in allowed :: d.vals[k])
  }

  /** `updateProfile($data)`: the properties outside the whitelist are
      dropped; with nothing left the facade returns `false` without a call. */
  function UpdateProfile(data: Dict<Value>): (r: Option<Dict<Value>>)
    requires data.Valid()
    ensures r.Some? <==> exists k :: k in data.keys && k in ProfileKeys
    ensures r.Some? ==> r.value.Valid() && r.value.keys == KeepKeys(data.keys, ProfileKeys)
    ensures r.Some? ==> forall k :: r.value.Get(k) == (if k in ProfileKeys then data.Get(k) else None)
  {
    var kept := Restricted(data, ProfileKeys);
    if |kept.keys| == 0 then
      None
    else
      assert kept.keys[0] in kept.keys;
      Some(kept)
  }

  /** Filtering keys twice is filtering once. */
  lemma {:induction false} KeepKeysIdempotent(ks: seq<string>, allowed: set<string>)
    ensures KeepKeys(KeepKeys(ks, allowed), allowed) == KeepKeys(ks, allowed)
  {
    if |ks| > 0 {
      KeepKeysIdempotent(ks[1..], allowed);
      var rest := KeepKeys(ks[1..], allowed);
      if ks[0] in allowed {
        assert ([ks[0]] + rest)[1..] == rest;
      }
    }
  }

  /** Restricting twice is restricting once. */
  lemma RestrictedIdempotent(d: Dict<Value>, allowed: set<string>)
    requires d.Valid()
    ensures Restricted(Restricted(d, allowed), allowed) == Restricted(d, allowed)
  {
    var p := Restricted(d, allowed);
    var q := Restricted(p, allowed);
    KeepKeysIdempotent(d.keys, allowed);
    assert q.vals == p.vals;
  }

  /** What `updateProfile` sends is already a valid profile: sending it again
      sends the same properties. */
  lemma UpdateProfileIdempotent(data: Dict<Value>)
    requires data.Valid()
    ensures UpdateProfile(data).Some? ==> UpdateProfile(UpdateProfile(data).value) == UpdateProfile(data)
  {
    if UpdateProfile(data).Some? {
      RestrictedIdempotent(data, ProfileKeys);
    }
  }

  /** The answer `acceptOrDeclineInvite($mri, $action)` forwards, as written:
      the action is checked against `accept` and `decline` (loosely, so
      `true` passes), but the call passes `$action='decline'`, an assignment,
      so `decline` is forwarded whatever was asked. */
  function AcceptOrDeclineInvite(action: Value): (r: Option<string>)
    ensures r.Some? <==> action in {VStr("accept"), VStr("decline"), VBool(true)}
    ensures r.Some? ==> r.value == "decline"
  {
    if LooseEqualsLiteral(action, "accept") || LooseEqualsLiteral(action, "decline") then Some("decline") else None
  }

  /** Accepting an invitation declines it. */
  lemma AcceptIsDeclined()
    ensures AcceptOrDeclineInvite(VStr("accept")) == Some("decline")
  {
  }

  /** The evidently intended answer: the checked action is forwarded. */
  function AcceptOrDeclineInviteIntended(action: Value): (r: Option<Value>)
    ensures r.Some? <==> action in {VStr("accept"), VStr("decline"), VBool(true)}
    ensures r.Some? ==> r.value == action
  {
    if LooseEqualsLiteral(action, "accept") || LooseEqualsLiteral(action, "decline") then Some(action) else None
  }

  /** With the intended answer, the two actions are forwarded as asked and
      differ. */
  lemma IntendedAnswerKeepsAction()
    ensures AcceptOrDeclineInviteIntended(VStr("accept")) == Some(VStr("accept"))
    ensures AcceptOrDeclineInviteIntended(VStr("decline")) == Some(VStr("decline"))
  {
  }

  /** `setThreadProperty`'s whitelist (loose `in_array`). */
  predicate ThreadPropertyAllowed(key: Value)
    ensures ThreadPropertyAllowed(key) <==>
              key in {VStr("joiningenabled"), VStr("historydisclosed"), VStr("topic"), VBool(true)}
  {
    LooseEqualsLiteral(key, "joiningenabled") || LooseEqualsLiteral(key, "historydisclosed") || LooseEqualsLiteral(key, "topic")
  }
}
