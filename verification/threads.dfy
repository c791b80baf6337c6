/** Group threads in skype_web_php/Skype.php: the member list `createThread`
    hands to the transport, and the guards of `addOrEditThreadMember` and
    `removeThreadMember` that refuse to leave a thread without an admin. */
module Threads {
  import opened Wrappers
  import opened Text
  import opened Php
  import opened Resolution

  /** An entry of the `$members` argument of `createThread`: an id and, when
      given, a role. */
  datatype Member = Member(id: string, role: Option<string>)

  /** What `createThread` does with one entry once its id is resolved to
      `resolved`: a falsy id drops it, the current user's entry becomes an
      admin, any other entry is kept. The id kept is the one given, not the
      resolved one. */
  function Adjusted(m: Member, resolved: string, self: string): Option<Member> {
    if !Truthy(VStr(resolved)) then None
    else if resolved == self then Some(m.(role := Some("Admin")))
    else Some(m)
  }

  /** The entries that survive the loop, in order; `resolve` is the id
      resolution (`usernameToMri`). */
  function Kept(members: seq<Member>, self: string, resolve: string -> string): (r: seq<Member>)
    ensures |r| <= |members|
    ensures forall m :: m in r ==> exists m0 :: m0 in members && Adjusted(m0, resolve(m0.id), self) == Some(m)
    ensures forall m0 :: m0 in members && Truthy(VStr(resolve(m0.id))) ==> Adjusted(m0, resolve(m0.id), self).value in r
  {
    if |members| == 0 then []
    else
      var m0 := members[0];
      var rest := Kept(members[1..], self, resolve);
      assert forall m :: m in members <==> m == m0 || m in members[1..];
      match Adjusted(m0, resolve(m0.id), self)
      case None => rest
      case Some(m) => [m] + rest
  }

  /** Some entry resolves to the current user (a falsy resolution is dropped
      before the comparison). */
  predicate SelfFound(members: seq<Member>, self: string, resolve: string -> string) {
    exists m0 :: m0 in members && Truthy(VStr(self)) && resolve(m0.id) == self
  }

  /** The member list after the loop and the self check, before the
      "only the current user" test. */
  function Listed(members: seq<Member>, self: string, resolve: string -> string): seq<Member> {
    var k := Kept(members, self, resolve);
    if SelfFound(members, self, resolve) then k else k + [Member(self, Some("Admin"))]
  }

  /** The listed members name the current user as an admin, directly or by a
      name resolving to it. */
  lemma ListedHasSelf(members: seq<Member>, self: string, resolve: string -> string)
    ensures var l := Listed(members, self, resolve);
            exists i :: 0 <= i < |l| && l[i].role == Some("Admin") && (l[i].id == self || resolve(l[i].id) == self)
  {
    var k := Kept(members, self, resolve);
    var l := Listed(members, self, resolve);
    if SelfFound(members, self, resolve) {
      var m0 :| m0 in members && Truthy(VStr(self)) && resolve(m0.id) == self;
      var m := Adjusted(m0, self, self).value;
      assert m in k;
      var i :| 0 <= i < |k| && k[i] == m;
      assert l[i] == m;
    } else {
      assert l[|k|] == Member(self, Some("Admin"));
    }
  }

  /** `createThread` with ids resolved by `resolve`: the member list sent to
      the transport, with the current user added as admin when no entry
      resolves to it; `None` (the facade returns `false`) when the list is
      just the current user. */
  function CreateThreadWith(members: seq<Member>, self: string, resolve: string -> string): (r: Option<seq<Member>>)
    ensures var k := Kept(members, self, resolve);
            r.None? <==>
              || (|k| == 0 && !SelfFound(members, self, resolve))
              || (|k| == 1 && k[0].id == self && SelfFound(members, self, resolve))
    ensures r.Some? ==>
              (exists i :: 0 <= i < |r.value| && r.value[i].role == Some("Admin") &&
                (r.value[i].id == self || resolve(r.value[i].id) == self))
    ensures r.Some? ==> forall m0 :: m0 in members && Truthy(VStr(resolve(m0.id))) ==>
              Adjusted(m0, resolve(m0.id), self).value in r.value
    ensures r.Some? ==> forall m :: m in r.value ==>
              (m == Member(self, Some("Admin")) || exists m0 :: m0 in members && Adjusted(m0, resolve(m0.id), self) == Some(m))
    ensures r.Some? ==> |r.value| <= |members| + 1
    ensures var k := Kept(members, self, resolve);
            r.Some? ==> |k| <= |r.value| <= |k| + 1 && r.value[..|k|] == k &&
                        (|r.value| == |k| + 1 ==> r.value[|k|] == Member(self, Some("Admin")))
  {
    var list := Listed(members, self, resolve);
    ListedHasSelf(members, self, resolve);
    if |list| == 1 && list[0].id == self then None else Some(list)
  }

  /** `createThread($topic, $members)` against the client's contact and
      conversation lists. */
  function CreateThread(members: seq<Member>, self: string, contacts: seq<string>, conversations: seq<string>): (r: Option<seq<Member>>)
    ensures |members| == 0 ==> r.None?
    ensures r.Some? ==>
              exists i :: 0 <= i < |r.value| && r.value[i].role == Some("Admin") &&
                (r.value[i].id == self || UsernameToMri(r.value[i].id, contacts, conversations) == self)
    ensures r.Some? ==> forall m0 :: m0 in members && Truthy(VStr(UsernameToMri(m0.id, contacts, conversations))) ==>
              Adjusted(m0, UsernameToMri(m0.id, contacts, conversations), self).value in r.value
  {
    CreateThreadWith(members, self, id => UsernameToMri(id, contacts, conversations))
  }

  /** An entry naming the current user by another name that resolves to it
      is kept under that name, so the "only the current user" test, which
      compares ids as given, lets the thread through. */
  lemma SelfByNameNotRefused(name: string, self: string, resolve: string -> string)
    requires resolve(name) == self && Truthy(VStr(self)) && name != self
    ensures CreateThreadWith([Member(name, None)], self, resolve) == Some([Member(name, Some("Admin"))])
  {
    var ms := [Member(name, None)];
    assert ms[0] in ms;
    assert SelfFound(ms, self, resolve);
    assert ms[1..] == [];
    assert Kept(ms[1..], self, resolve) == [];
    assert Kept(ms, self, resolve) == [Member(name, Some("Admin"))];
  }

  /** A member of an existing thread, as the thread record lists it. */
  datatype ThreadMember = ThreadMember(id: string, role: string)

  /** Roles are compared case-insensitively. */
  predicate IsAdmin(m: ThreadMember) {
    Lower(m.role) == "admin"
  }

  /** The number of admins. */
  function AdminCount(ms: seq<ThreadMember>): nat {
    if |ms| == 0 then 0
    else AdminCount(ms[..|ms| - 1]) + (if IsAdmin(ms[|ms| - 1]) then 1 else 0)
  }

  /** The last position holding `id`, or -1. */
  function TargetIndex(ms: seq<ThreadMember>, id: string): (t: int)
    ensures -1 <= t < |ms|
    ensures t >= 0 ==> ms[t].id == id && forall j :: t < j < |ms| ==> ms[j].id != id
    ensures t == -1 ==> forall j :: 0 <= j < |ms| ==> ms[j].id != id
  {
    if |ms| == 0 then -1
    else if ms[|ms| - 1].id == id then |ms| - 1
    else TargetIndex(ms[..|ms| - 1], id)
  }

  /** Some entry holding `id` is an admin. */
  predicate TargetIsAdmin(ms: seq<ThreadMember>, id: string) {
    exists i :: 0 <= i < |ms| && ms[i].id == id && IsAdmin(ms[i])
  }

  /** The `foreach` both guards run over the member list: the target's
      position, the admin count and whether the target is an admin. */
  method ScanMembers(ms: seq<ThreadMember>, id: string) returns (targetIndex: int, countAdmins: nat, targetIsAdmin: bool)
    ensures targetIndex == TargetIndex(ms, id)
    ensures countAdmins == AdminCount(ms)
    ensures targetIsAdmin == TargetIsAdmin(ms, id)
  {
    targetIndex, countAdmins, targetIsAdmin := -1, 0, false;
    var i := 0;
    while i < |ms|
      invariant 0 <= i <= |ms|
      invariant targetIndex == TargetIndex(ms[..i], id)
      invariant countAdmins == AdminCount(ms[..i])
      invariant targetIsAdmin == TargetIsAdmin(ms[..i], id)
    {
      ScanStep(ms, i, id);
      if ms[i].id == id {
        targetIndex := i;
      }
      if IsAdmin(ms[i]) {
        countAdmins := countAdmins + 1;
        if ms[i].id == id {
          targetIsAdmin := true;
        }
      }
      i := i + 1;
    }
    assert ms[..|ms|] == ms;
  }

  /** What one more member contributes to the three results of the scan. */
  lemma ScanStep(ms: seq<ThreadMember>, i: nat, id: string)
    requires i < |ms|
    ensures TargetIndex(ms[..i + 1], id) == (if ms[i].id == id then i else TargetIndex(ms[..i], id))
    ensures AdminCount(ms[..i + 1]) == AdminCount(ms[..i]) + (if IsAdmin(ms[i]) then 1 else 0)
    ensures TargetIsAdmin(ms[..i + 1], id) <==> TargetIsAdmin(ms[..i], id) || (ms[i].id == id && IsAdmin(ms[i]))
  {
    var p := ms[..i + 1];
    assert p[..i] == ms[..i] && p[i] == ms[i] && |p| == i + 1;
    assert forall j :: 0 <= j < i ==> p[j] == ms[..i][j];
  }

  /** `removeThreadMember` refuses to remove the only admin. */
  predicate RemoveRefused(ms: seq<ThreadMember>, id: string) {
    TargetIsAdmin(ms, id) && AdminCount(ms) == 1
  }

  /** `addOrEditThreadMember` refuses to make the only admin a `user`. */
  predicate EditRefused(ms: seq<ThreadMember>, id: string, role: string) {
    Lower(role) == "user" && TargetIsAdmin(ms, id) && AdminCount(ms) == 1
  }

  /** The member list after a removal the transport accepted: the entry at
      the target position goes, the rest close up; with no target nothing
      changes. */
  function Removed(ms: seq<ThreadMember>, id: string): (r: seq<ThreadMember>)
    ensures TargetIndex(ms, id) == -1 ==> r == ms
    ensures TargetIndex(ms, id) >= 0 ==> |r| == |ms| - 1
    ensures var t := TargetIndex(ms, id);
            t >= 0 ==> multiset(r) + multiset{ms[t]} == multiset(ms)
    ensures var t := TargetIndex(ms, id);
            t >= 0 ==> (forall j :: 0 <= j < t ==> r[j] == ms[j]) && (forall j :: t <= j < |r| ==> r[j] == ms[j + 1])
  {
    var t := TargetIndex(ms, id);
    if t == -1 then ms
    else
      DropOne(ms, t);
      ms[..t] + ms[t + 1..]
  }

  /** Dropping the entry at `t` removes exactly that entry and keeps the
      others in order. */
  lemma DropOne(ms: seq<ThreadMember>, t: int)
    requires 0 <= t < |ms|
    ensures var r := ms[..t] + ms[t + 1..];
            && |r| == |ms| - 1
            && multiset(r) + multiset{ms[t]} == multiset(ms)
            && (forall j :: 0 <= j < t ==> r[j] == ms[j])
            && (forall j :: t <= j < |r| ==> r[j] == ms[j + 1])
  {
    assert ms == ms[..t] + [ms[t]] + ms[t + 1..];
  }

  /** The member list after an edit the transport accepted, when the member
      was already in it: the target takes the new role. (A new member makes
      the facade reload the thread, which is outside the model.) */
  function Edited(ms: seq<ThreadMember>, id: string, role: string): (r: seq<ThreadMember>)
    requires TargetIndex(ms, id) >= 0
    ensures |r| == |ms|
    ensures var t := TargetIndex(ms, id);
            r[t] == ms[t].(role := role) && r[t].id == id
    ensures var t := TargetIndex(ms, id);
            forall j :: 0 <= j < |ms| && j != t ==> r[j] == ms[j]
  {
    var t := TargetIndex(ms, id);
    ms[t := ms[t].(role := role)]
  }

  /** Admins of a concatenation add up. */
  lemma {:induction false} AdminCountAppend(a: seq<ThreadMember>, b: seq<ThreadMember>)
    ensures AdminCount(a + b) == AdminCount(a) + AdminCount(b)
    decreases |b|
  {
    if |b| > 0 {
      var b' := b[..|b| - 1];
      AdminCountAppend(a, b');
      assert (a + b)[..|a + b| - 1] == a + b';
    } else {
      assert a + b == a;
    }
  }

  lemma AdminCountSingle(m: ThreadMember)
    ensures AdminCount([m]) == (if IsAdmin(m) then 1 else 0)
  {
    assert [m][..0] == [];
  }

  /** Admins before, at and after position `t`. */
  lemma AdminCountAt(ms: seq<ThreadMember>, t: nat)
    requires t < |ms|
    ensures AdminCount(ms) == AdminCount(ms[..t]) + (if IsAdmin(ms[t]) then 1 else 0) + AdminCount(ms[t + 1..])
  {
    var pre, single, post := ms[..t], [ms[t]], ms[t + 1..];
    SplitAround(ms, t);
    AdminCountSingle(ms[t]);
    AdminCountAppend(single, post);
    AdminCountAppend(pre, single + post);
  }

  lemma SplitAround<T>(s: seq<T>, t: nat)
    requires t < |s|
    ensures s == s[..t] + ([s[t]] + s[t + 1..])
  {
  }

  /** A removal the guard lets through leaves a thread that had an admin
      with an admin. */
  lemma RemoveKeepsAnAdmin(ms: seq<ThreadMember>, id: string)
    requires !RemoveRefused(ms, id)
    ensures AdminCount(ms) >= 1 ==> AdminCount(Removed(ms, id)) >= 1
  {
    var t := TargetIndex(ms, id);
    if t >= 0 {
      AdminCountAt(ms, t);
      AdminCountAppend(ms[..t], ms[t + 1..]);
      if IsAdmin(ms[t]) {
        assert TargetIsAdmin(ms, id);
      }
    }
  }

  /** An edit to `user` or `admin` the guard lets through leaves a thread
      that had an admin with an admin. */
  lemma EditKeepsAnAdmin(ms: seq<ThreadMember>, id: string, role: string)
    requires !EditRefused(ms, id, role) && TargetIndex(ms, id) >= 0
    ensures AdminCount(ms) >= 1 && (Lower(role) == "user" || Lower(role) == "admin") ==>
              AdminCount(Edited(ms, id, role)) >= 1
  {
    var t := TargetIndex(ms, id);
    var r := Edited(ms, id, role);
    AdminCountAt(ms, t);
    AdminCountAt(r, t);
    assert r[..t] == ms[..t] && r[t + 1..] == ms[t + 1..];
    if IsAdmin(ms[t]) {
      assert TargetIsAdmin(ms, id);
    }
  }

  /** The edit guard only looks for `user`: demoting the only admin to any
      other role goes through and leaves no admin. */
  lemma OtherRoleLeavesNoAdmin()
    ensures var ms := [ThreadMember("8:live:a", "Admin")];
            && !EditRefused(ms, "8:live:a", "Guest")
            && AdminCount(Edited(ms, "8:live:a", "Guest")) == 0
  {
    var ms := [ThreadMember("8:live:a", "Admin")];
    assert Lower("Admin") == "admin";
    assert Lower("Guest") != "user" by { assert Lower("Guest")[0] == 'g'; }
    var r := Edited(ms, "8:live:a", "Guest");
    assert r == [ThreadMember("8:live:a", "Guest")];
    assert Lower("Guest") != "admin" by { assert Lower("Guest")[0] == 'g'; }
    assert r[..0] == [];
  }

  /** `removeThreadMember($id, $rmId)` on a thread whose member list is
      `thread` (`None` when the thread is unknown): the member list once the
      transport has accepted the removal, or `None` where the facade returns
      `false` before calling it. A thread with an admin keeps one. */
  function RemoveThreadMember(thread: Option<seq<ThreadMember>>, rmId: string): (r: Option<seq<ThreadMember>>)
    ensures r.Some? <==> thread.Some? && !RemoveRefused(thread.value, rmId)
    ensures r.Some? && AdminCount(thread.value) >= 1 ==> AdminCount(r.value) >= 1
    ensures r.Some? ==> |r.value| >= |thread.value| - 1
    ensures r.Some? && TargetIndex(thread.value, rmId) == -1 ==> r.value == thread.value
    ensures r.Some? ==>
              var t := TargetIndex(thread.value, rmId);
              t >= 0 ==>
                && thread.value[t].id == rmId
                && |r.value| == |thread.value| - 1
                && multiset(r.value) + multiset{thread.value[t]} == multiset(thread.value)
                && (forall j :: 0 <= j < t ==> r.value[j] == thread.value[j])
                && (forall j :: t <= j < |r.value| ==> r.value[j] == thread.value[j + 1])
  {
    match thread
    case None => None
    case Some(ms) =>
      if RemoveRefused(ms, rmId) then None
      else
        RemoveKeepsAnAdmin(ms, rmId);
        Some(Removed(ms, rmId))
  }

  /** What `addOrEditThreadMember` does once the transport accepts: a member
      already listed takes the new role in place; a new one makes the facade
      reload the thread. */
  datatype EditOutcome = Updated(members: seq<ThreadMember>) | Reload

  /** `addOrEditThreadMember($id, $addId, $role)`: the id is resolved first
      (a falsy result, or an unknown thread, ends with `false`), then the
      guard runs. The result is the resolved id forwarded to the transport
      and what follows its acceptance. A thread with an admin keeps one when
      the new role is `user` or `admin`. */
  function AddOrEditThreadMember(thread: Option<seq<ThreadMember>>, addId: string, role: string,
                                 contacts: seq<string>, conversations: seq<string>): (r: Option<(string, EditOutcome)>)
    ensures var id := UsernameToMri(addId, contacts, conversations);
            r.Some? <==> Truthy(VStr(id)) && thread.Some? && !EditRefused(thread.value, id, role)
    ensures r.Some? ==> r.value.0 == UsernameToMri(addId, contacts, conversations)
    ensures r.Some? && r.value.1.Updated? && AdminCount(thread.value) >= 1 && (Lower(role) == "user" || Lower(role) == "admin") ==>
              AdminCount(r.value.1.members) >= 1
    ensures r.Some? ==> (r.value.1.Reload? <==> TargetIndex(thread.value, r.value.0) == -1)
    ensures r.Some? && r.value.1.Updated? ==>
              var t := TargetIndex(thread.value, r.value.0);
              && |r.value.1.members| == |thread.value|
              && r.value.1.members[t] == thread.value[t].(role := role)
              && (forall j :: 0 <= j < |thread.value| && j != t ==> r.value.1.members[j] == thread.value[j])
  {
    var id := UsernameToMri(addId, contacts, conversations);
    if !Truthy(VStr(id)) || thread.None? then None
    else
      var ms := thread.value;
      if EditRefused(ms, id, role) then None
      else if TargetIndex(ms, id) == -1 then Some((id, Reload))
      else
        EditKeepsAnAdmin(ms, id, role);
        Some((id, Updated(Edited(ms, id, role))))
  }
}
