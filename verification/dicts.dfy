/** PHP arrays with string keys: an insertion-ordered table. Assigning to an
    existing key keeps its position; assigning to a new key appends it; `unset`
    removes the key and closes the gap. */
module Dicts {
  import opened Wrappers

  datatype Dict<V> = Dict(keys: seq<string>, vals: map<string, V>) {

    /** Keys are distinct and are exactly the domain of the value map. */
    ghost predicate Valid() {
      && Distinct(keys)
      && (forall k :: k in vals <==> k in keys)
    }

    /** `array_key_exists($k, $a) ? $a[$k] : null`. */
    function Get(k: string): Option<V> {
      if k in vals then Some(vals[k]) else None
    }

    /** `$a[$k] = $v`. */
    function Set(k: string, v: V): (r: Dict<V>)
      ensures Valid() ==> r.Valid()
      ensures r.Get(k) == Some(v)
      ensures forall j :: j != k ==> r.Get(j) == Get(j)
      ensures |keys| <= |r.keys| && r.keys[..|keys|] == keys
      ensures Valid() && k in vals ==> r.keys == keys
      ensures k !in vals ==> r.keys == keys + [k]
    {
      if k in vals then Dict(keys, vals[k := v]) else Dict(keys + [k], vals[k := v])
    }

    /** `unset($a[$k])`. */
    function Remove(k: string): (r: Dict<V>)
      ensures Valid() ==> r.Valid()
      ensures r.Get(k) == None
      ensures forall j :: j != k ==> r.Get(j) == Get(j)
      ensures forall j :: j in r.keys <==> j in keys && j != k
    {
      Dict(Without(keys, k), vals - {k})
    }

    /** Entries in insertion order. */
    function Entries(): (r: seq<(string, V)>)
      requires Valid()
      ensures |r| == |keys|
      ensures forall i :: 0 <= i < |r| ==> r[i].0 == keys[i] && Get(keys[i]) == Some(r[i].1)
    {
      seq(|keys|, i requires 0 <= i < |keys| => (keys[i], vals[keys[i]]))
    }

    /** Values in insertion order (`array_values`). */
    function Values(): (r: seq<V>)
      requires Valid()
      ensures |r| == |keys|
      ensures forall i :: 0 <= i < |keys| ==> Get(keys[i]) == Some(r[i])
    {
      seq(|keys|, i requires 0 <= i < |keys| => vals[keys[i]])
    }

    /** Assign every entry of `other` in its order: `foreach ($other as $k => $v) $a[$k] = $v;`,
        which for string keys is also what `array_merge($a, $other)` computes. */
    function Merge(other: Dict<V>): (r: Dict<V>)
      ensures Valid() ==> r.Valid()
      ensures other.Valid() ==> r.vals == vals + other.vals
      ensures |keys| <= |r.keys| && r.keys[..|keys|] == keys
    {
      var r := SetAll(this, other.keys, other.vals);
      SetAllVals(this, other.keys, other.vals);
      assert other.Valid() ==> Restrict(other.keys, other.vals) == other.vals;
      r
    }
  }

  function Empty<V>(): (r: Dict<V>)
    ensures r.Valid() && r.keys == []
    ensures forall k :: r.Get(k) == None
  {
    Dict([], map[])
  }

  predicate Distinct(ks: seq<string>) {
    forall i, j :: 0 <= i < j < |ks| ==> ks[i] != ks[j]
  }

  /** The entries of `src` whose key is listed in `ks`. */
  function Restrict<V>(ks: seq<string>, src: map<string, V>): map<string, V> {
    map k | k in ks && k in src :: src[k]
  }

  lemma RestrictCons<V>(ks: seq<string>, src: map<string, V>)
    requires |ks| > 0
    ensures Restrict(ks, src) ==
            (if ks[0] in src then map[ks[0] := src[ks[0]]] else map[]) + Restrict(ks[1..], src)
  {
    var l := Restrict(ks, src);
    var r := (if ks[0] in src then map[ks[0] := src[ks[0]]] else map[]) + Restrict(ks[1..], src);
    forall k | k in l ensures k in r && l[k] == r[k] {
      if k != ks[0] { assert k in ks[1..]; }
    }
    forall k | k in r ensures k in l {
      if k != ks[0] { assert k in ks; }
    }
  }

  /** The keys of `ks` an in-order assignment from `src` appends to a table
      whose keys are `present`: first occurrences of keys not yet there. */
  function NewKeys<V>(present: set<string>, ks: seq<string>, src: map<string, V>): seq<string>
    decreases |ks|
  {
    if |ks| == 0 then []
    else if ks[0] in src && ks[0] !in present then [ks[0]] + NewKeys(present + {ks[0]}, ks[1..], src)
    else NewKeys(present, ks[1..], src)
  }

  /** Distinct keys, all assignable and none present yet, are appended as given. */
  lemma {:induction false} NewKeysFresh<V>(present: set<string>, ks: seq<string>, src: map<string, V>)
    requires Distinct(ks)
    requires forall k :: k in ks ==> k in src && k !in present
    ensures NewKeys(present, ks, src) == ks
    decreases |ks|
  {
    if |ks| > 0 {
      assert ks[0] !in ks[1..];
      NewKeysFresh(present + {ks[0]}, ks[1..], src);
    }
  }

  /** `ks` without any occurrence of `k`, order kept. */
  function Without(ks: seq<string>, k: string): (r: seq<string>)
    ensures forall j :: j in r <==> j in ks && j != k
    ensures Distinct(ks) ==> Distinct(r)
  {
    if |ks| == 0 then []
    else if ks[0] == k then Without(ks[1..], k)
    else
      var t := Without(ks[1..], k);
      assert Distinct(ks) ==> ks[0] !in ks[1..];
      assert Distinct(ks) ==> Distinct(ks[1..]);
      [ks[0]] + t
  }

  /** Assign `src[k]` for each `k` of `ks` (that `src` maps), left to right. */
  function SetAll<V>(d: Dict<V>, ks: seq<string>, src: map<string, V>): (r: Dict<V>)
    ensures d.Valid() ==> r.Valid()
    ensures |d.keys| <= |r.keys| && r.keys[..|d.keys|] == d.keys
    decreases |ks|
  {
    if |ks| == 0 then d
    else
      var d' := if ks[0] in src then d.Set(ks[0], src[ks[0]]) else d;
      var r := SetAll(d', ks[1..], src);
      assert r.keys[..|d.keys|] == r.keys[..|d'.keys|][..|d.keys|];
      r
  }

  /** In-order assignment overrides exactly the listed keys that `src` maps. */
  lemma {:induction false} SetAllVals<V>(d: Dict<V>, ks: seq<string>, src: map<string, V>)
    ensures SetAll(d, ks, src).vals == d.vals + Restrict(ks, src)
    decreases |ks|
  {
    if |ks| == 0 {
      assert Restrict(ks, src) == map[];
    } else {
      var d' := if ks[0] in src then d.Set(ks[0], src[ks[0]]) else d;
      SetAllVals(d', ks[1..], src);
      RestrictCons(ks, src);
    }
  }

  /** In-order assignment appends exactly the new keys, in their order. */
  lemma {:induction false} SetAllKeys<V>(d: Dict<V>, ks: seq<string>, src: map<string, V>)
    requires d.Valid()
    ensures SetAll(d, ks, src).keys == d.keys + NewKeys(d.vals.Keys, ks, src)
    decreases |ks|
  {
    if |ks| > 0 {
      var k := ks[0];
      if k in src && k !in d.vals {
        SetAllKeysAppend(d, ks, src);
      } else if k in src {
        var d' := d.Set(k, src[k]);
        assert SetAll(d, ks, src) == SetAll(d', ks[1..], src);
        assert d'.vals.Keys == d.vals.Keys;
        SetAllKeys(d', ks[1..], src);
      } else {
        assert SetAll(d, ks, src) == SetAll(d, ks[1..], src);
        SetAllKeys(d, ks[1..], src);
      }
    }
  }

  lemma {:induction false} SetAllKeysAppend<V>(d: Dict<V>, ks: seq<string>, src: map<string, V>)
    requires d.Valid()
    requires |ks| > 0 && ks[0] in src && ks[0] !in d.vals
    ensures SetAll(d, ks, src).keys == d.keys + NewKeys(d.vals.Keys, ks, src)
    decreases |ks|, 0
  {
    var k := ks[0];
    var present := d.vals.Keys;
    var d' := d.Set(k, src[k]);
    assert d'.keys == d.keys + [k];
    assert d'.vals.Keys == present + {k} by { assert d'.vals == d.vals[k := src[k]]; }
    assert SetAll(d, ks, src) == SetAll(d', ks[1..], src);
    var rest := NewKeys(present + {k}, ks[1..], src);
    assert NewKeys(present, ks, src) == [k] + rest;
    SetAllKeys(d', ks[1..], src);
    assert SetAll(d', ks[1..], src).keys == d'.keys + rest;
    ConcatAssoc(d.keys, [k], rest);
  }

  lemma ConcatAssoc<T>(a: seq<T>, b: seq<T>, c: seq<T>)
    ensures a + b + c == a + (b + c)
  {
  }

  /** A leading run of keys that are already present adds nothing. */
  lemma {:induction false} NewKeysSkip<V>(present: set<string>, ks: seq<string>, src: map<string, V>, n: nat)
    requires n <= |ks|
    requires forall i :: 0 <= i < n ==> ks[i] in present
    ensures NewKeys(present, ks, src) == NewKeys(present, ks[n..], src)
    decreases n
  {
    if n > 0 {
      NewKeysSkip(present, ks[1..], src, n - 1);
      assert ks[1..][n - 1..] == ks[n..];
    }
  }

  /** The keys after a shared prefix are distinct, mapped, and new to `d`. */
  lemma SuffixKeysFresh<V>(d: Dict<V>, o: Dict<V>)
    requires d.Valid() && o.Valid()
    requires |d.keys| <= |o.keys| && o.keys[..|d.keys|] == d.keys
    ensures Distinct(o.keys[|d.keys|..])
    ensures forall k :: k in o.keys[|d.keys|..] ==> k in o.vals && k !in d.vals.Keys
  {
    var n := |d.keys|;
    var rest := o.keys[n..];
    forall i, j | 0 <= i < j < |rest| ensures rest[i] != rest[j] {
      assert rest[i] == o.keys[n + i] && rest[j] == o.keys[n + j];
    }
    forall k | k in rest ensures k in o.vals && k !in d.vals.Keys {
      var i :| 0 <= i < |rest| && rest[i] == k;
      assert k == o.keys[n + i];
      forall j | 0 <= j < n ensures d.keys[j] != k {
        assert d.keys[j] == o.keys[j];
      }
    }
  }

  /** Appending to a table the keys of a longer list that starts with the
      table's own keys rebuilds exactly that list. */
  lemma KeysAfterPrefix<V>(dk: seq<string>, ok: seq<string>, present: set<string>, src: map<string, V>)
    requires |dk| <= |ok| && ok[..|dk|] == dk
    requires forall i :: 0 <= i < |dk| ==> ok[i] in present
    requires Distinct(ok[|dk|..])
    requires forall k :: k in ok[|dk|..] ==> k in src && k !in present
    ensures dk + NewKeys(present, ok, src) == ok
  {
    var rest := ok[|dk|..];
    NewKeysSkip(present, ok, src, |dk|);
    NewKeysFresh(present, rest, src);
    assert ok == ok[..|dk|] + rest;
  }

  lemma MergeKeysOntoExtension<V>(d: Dict<V>, o: Dict<V>)
    requires d.Valid() && o.Valid()
    requires |d.keys| <= |o.keys| && o.keys[..|d.keys|] == d.keys
    ensures SetAll(d, o.keys, o.vals).keys == o.keys
  {
    var n := |d.keys|;
    SetAllKeys(d, o.keys, o.vals);
    forall i | 0 <= i < n ensures o.keys[i] in d.vals.Keys {
      assert o.keys[i] == d.keys[i];
    }
    SuffixKeysFresh(d, o);
    KeysAfterPrefix(d.keys, o.keys, d.vals.Keys, o.vals);
  }

  lemma MergeValsOntoExtension<V>(d: Dict<V>, o: Dict<V>)
    requires d.Valid() && o.Valid()
    requires |d.keys| <= |o.keys| && o.keys[..|d.keys|] == d.keys
    ensures SetAll(d, o.keys, o.vals).vals == o.vals
  {
    PrefixKeysKept(d.keys, o.keys);
    assert d.vals.Keys <= o.vals.Keys;
    OverrideCovers(d.vals, o.vals);
    SetAllVals(d, o.keys, o.vals);
    RestrictAll(o);
  }

  /** Keys of a prefix are keys of the whole list. */
  lemma PrefixKeysKept(dk: seq<string>, ok: seq<string>)
    requires |dk| <= |ok| && ok[..|dk|] == dk
    ensures forall k :: k in dk ==> k in ok
  {
    forall k | k in dk ensures k in ok {
      var j :| 0 <= j < |dk| && dk[j] == k;
      assert ok[j] == k;
    }
  }

  /** Merging a table into one that lists the same keys first (and possibly
      more after them) yields that second table unchanged. */
  lemma MergeOntoExtension<V>(d: Dict<V>, o: Dict<V>)
    requires d.Valid() && o.Valid()
    requires |d.keys| <= |o.keys| && o.keys[..|d.keys|] == d.keys
    ensures d.Merge(o) == o
  {
    MergeKeysOntoExtension(d, o);
    MergeValsOntoExtension(d, o);
  }

  /** Assigning a key the value it already has changes nothing. */
  lemma SetSame<V>(d: Dict<V>, k: string)
    requires k in d.vals
    ensures d.Set(k, d.vals[k]) == d
  {
    assert d.vals[k := d.vals[k]] == d.vals;
  }

  lemma RestrictAll<V>(o: Dict<V>)
    requires o.Valid()
    ensures Restrict(o.keys, o.vals) == o.vals
  {
  }

  lemma OverrideCovers<V>(a: map<string, V>, b: map<string, V>)
    requires a.Keys <= b.Keys
    ensures a + b == b
  {
  }
}
