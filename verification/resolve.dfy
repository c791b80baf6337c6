/** `Skype::usernameToMri` (skype_web_php/Skype.php): turning a user name
    into the MRI of a known contact or conversation by suffix matching. The
    contact MRIs and conversation ids are the client's lists, in order. */
module Resolution {
  import opened Wrappers
  import opened Text

  /** The string the ids must end with: the name with a `:` in front when it
      has none (the `@` branch computes a domain that is then overwritten),
      the name itself otherwise. */
  function LookUpKey(username: string): (r: string)
    ensures ':' in r
    ensures IsSuffix(username, r)
    ensures ':' in username ==> r == username
    ensures |r| <= |username| + 1
  {
    if ':' !in username then
      assert (":" + username)[0] == ':';
      ":" + username
    else username
  }

  /** `$lookUp == substr($id, -strlen($lookUp))`. Both sides contain `:`, so
      PHP's loose comparison is an exact one here. */
  predicate SuffixMatch(look: string, id: string) {
    Substr(id, -|look|, None) == look
  }

  /** For a non-empty key, the `substr` test is exactly "ends with". */
  lemma SuffixMatchIsSuffix(look: string, id: string)
    requires |look| > 0
    ensures SuffixMatch(look, id) <==> IsSuffix(look, id)
  {
    if |look| > |id| {
      assert Substr(id, -|look|, None) == id;
    }
  }

  /** The ids ending with `look`, in list order. */
  function Matching(ids: seq<string>, look: string): (r: seq<string>)
    requires |look| > 0
    ensures |r| <= |ids|
    ensures forall x :: x in r <==> x in ids && IsSuffix(look, x)
  {
    if |ids| == 0 then []
    else
      SuffixMatchIsSuffix(look, ids[0]);
      var rest := Matching(ids[1..], look);
      assert forall x :: x in ids <==> x == ids[0] || x in ids[1..];
      if SuffixMatch(look, ids[0]) then [ids[0]] + rest else rest
  }

  /** The only id ending with `look` is what `Matching` returns, possibly
      several times. */
  lemma UniqueMatching(ids: seq<string>, look: string, x: string)
    requires |look| > 0 && UniqueIn(ids, look, x)
    ensures OneDistinct(Matching(ids, look)) && Matching(ids, look)[0] == x
  {
    var m := Matching(ids, look);
    assert x in m;
    assert forall i :: 0 <= i < |m| ==> m[i] in m;
  }

  /** A non-empty match list holds an id ending with `look`. */
  lemma SomeMatching(ids: seq<string>, look: string)
    requires |look| > 0
    ensures |Matching(ids, look)| > 0 ==> !NoneIn(ids, look)
  {
    var m := Matching(ids, look);
    if |m| > 0 {
      assert m[0] in m;
    }
  }

  /** `array_unique` leaves exactly one entry. */
  predicate OneDistinct(m: seq<string>) {
    |m| > 0 && forall i :: 0 <= i < |m| ==> m[i] == m[0]
  }

  /** `x` is the only id in `ids` that ends with `look`. */
  predicate UniqueIn(ids: seq<string>, look: string, x: string) {
    x in ids && IsSuffix(look, x) && forall c :: c in ids && IsSuffix(look, c) ==> c == x
  }

  /** No id in `ids` ends with `look`. */
  predicate NoneIn(ids: seq<string>, look: string) {
    forall c :: c in ids ==> !IsSuffix(look, c)
  }

  /** `usernameToMri($username)`: the contacts ending with the key are
      collected, the conversations only when no contact does; a single
      distinct match is the answer, anything else gives the name back. */
  function UsernameToMri(username: string, contacts: seq<string>, conversations: seq<string>): (r: string)
    ensures var look := LookUpKey(username);
            || r == username
            || UniqueIn(contacts, look, r)
            || (NoneIn(contacts, look) && UniqueIn(conversations, look, r))
    ensures forall x :: UniqueIn(contacts, LookUpKey(username), x) ==> r == x
    ensures forall x :: NoneIn(contacts, LookUpKey(username)) && UniqueIn(conversations, LookUpKey(username), x) ==> r == x
  {
    var look := LookUpKey(username);
    var fromContacts := Matching(contacts, look);
    var m := if |fromContacts| == 0 then Matching(conversations, look) else fromContacts;
    SomeMatching(contacts, look);
    forall x | UniqueIn(contacts, look, x) ensures OneDistinct(m) && m[0] == x {
      UniqueMatching(contacts, look, x);
    }
    forall x | NoneIn(contacts, look) && UniqueIn(conversations, look, x) ensures OneDistinct(m) && m[0] == x {
      UniqueMatching(conversations, look, x);
    }
    if OneDistinct(m) then
      assert m[0] in m;
      m[0]
    else
      username
  }

  /** Ending with a string that ends with `a` means ending with `a`. */
  lemma SuffixTrans(a: string, b: string, c: string)
    requires IsSuffix(a, b) && IsSuffix(b, c)
    ensures IsSuffix(a, c)
  {
    assert c[|c| - |a|..] == c[|c| - |b|..][|b| - |a|..];
  }

  /** Resolving twice is resolving once: a resolved MRI contains `:`, so it is
      looked up as itself, and the only ids ending with it are itself. */
  lemma ResolveIdempotent(username: string, contacts: seq<string>, conversations: seq<string>)
    ensures var r := UsernameToMri(username, contacts, conversations);
            UsernameToMri(r, contacts, conversations) == r
  {
    var r := UsernameToMri(username, contacts, conversations);
    if r != username {
      var look := LookUpKey(username);
      NarrowerKey(look, r);
      if UniqueIn(contacts, look, r) {
        UniqueNarrower(contacts, look, r);
      } else {
        NoneNarrower(contacts, look, r);
        UniqueNarrower(conversations, look, r);
      }
    }
  }

  /** An id that ends with a key holding `:` is its own key, and is a
      narrower one. */
  lemma NarrowerKey(look: string, r: string)
    requires ':' in look && IsSuffix(look, r)
    ensures LookUpKey(r) == r
    ensures forall c :: IsSuffix(r, c) ==> IsSuffix(look, c)
  {
    assert ':' in r by {
      var k :| 0 <= k < |look| && look[k] == ':';
      assert r[|r| - |look| + k] == ':';
    }
    forall c | IsSuffix(r, c) ensures IsSuffix(look, c) {
      SuffixTrans(look, r, c);
    }
  }

  /** The only id ending with `look` is also the only one ending with itself. */
  lemma UniqueNarrower(ids: seq<string>, look: string, r: string)
    requires UniqueIn(ids, look, r)
    requires forall c :: IsSuffix(r, c) ==> IsSuffix(look, c)
    ensures UniqueIn(ids, r, r)
  {
    assert r[|r| - |r|..] == r;
  }

  /** No id ends with a narrower key when none ends with the wider one. */
  lemma NoneNarrower(ids: seq<string>, look: string, r: string)
    requires NoneIn(ids, look)
    requires forall c :: IsSuffix(r, c) ==> IsSuffix(look, c)
    ensures NoneIn(ids, r)
  {
  }
}
