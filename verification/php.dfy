/** The dynamically typed values the client passes around in its parameter
    arrays and session records, with the PHP conversions the code depends on:
    truthiness, `(int)` casts, string conversion and `strlen`. Floats are not
    part of this model. */
module Php {
  import opened Wrappers
  import opened Text
  import opened Dicts

  datatype Value =
    | VNull
    | VBool(b: bool)
    | VInt(i: int)
    | VStr(s: string)
    | VList(items: seq<Value>)
    | VMap(d: Dict<Value>)
    | VResource(id: nat)

  /** Conversion to string, as in `$k.': '.$v` or `"$x"`. Arrays convert to
      "Array" (with a notice). */
  function ToStr(v: Value): (r: string)
    ensures v.VStr? ==> r == v.s
    ensures v.VInt? ==> ParseLeadingInt(r) == v.i
    ensures v.VNull? ==> r == ""
  {
    match v
    case VNull => ""
    case VBool(b) => if b then "1" else ""
    case VInt(i) => ParseIntToString(i); IntToString(i)
    case VStr(s) => s
    case VList(_) => "Array"
    case VMap(_) => "Array"
    case VResource(id) => "Resource id #" + IntToString(id)
  }

  /** PHP truthiness (`if ($v)`); `empty($v)` is its negation. */
  predicate Truthy(v: Value) {
    match v
    case VNull => false
    case VBool(b) => b
    case VInt(i) => i != 0
    case VStr(s) => s != "" && s != "0"
    case VList(xs) => |xs| > 0
    case VMap(d) => |d.keys| > 0
    case VResource(_) => true
  }

  /** PHP `empty()` on a string: only "" and "0" are empty. */
  predicate EmptyString(s: string)
    ensures EmptyString(s) <==> !Truthy(VStr(s))
  {
    s == "" || s == "0"
  }

  /** PHP `(int)` cast. Strings keep their leading decimal integer only. */
  function IntCast(v: Value): (r: int)
    ensures v.VInt? ==> r == v.i
    ensures v.VNull? ==> r == 0
  {
    match v
    case VNull => 0
    case VBool(b) => if b then 1 else 0
    case VInt(i) => i
    case VStr(s) => ParseLeadingInt(s)
    case VList(xs) => if |xs| == 0 then 0 else 1
    case VMap(d) => if |d.keys| == 0 then 0 else 1
    case VResource(id) => id
  }

  /** PHP 8 `strlen` without strict types: scalars are converted to string
      first; arrays and resources raise a TypeError (`None`). */
  function StrLen(v: Value): (r: Option<nat>)
    ensures v.VStr? ==> r == Some(|v.s|)
    ensures v.VList? || v.VMap? || v.VResource? ==> r.None?
  {
    match v
    case VList(_) => None
    case VMap(_) => None
    case VResource(_) => None
    case _ => Some(|ToStr(v)|)
  }

  /** PHP 8 loose comparison `$v == lit` against a non-empty string literal
      that is not numeric. */
  predicate LooseEqualsLiteral(v: Value, lit: string)
    requires lit != "" && !IsDigit(lit[0])
  {
    match v
    case VStr(s) => s == lit
    case VBool(b) => b
    case _ => false
  }

  /** A PHP array of either shape: a list or a table. */
  predicate IsArray(v: Value) {
    v.VList? || v.VMap?
  }

  /** The arrays the model can index by name: a table, or the empty list
      `[]`, which is the same empty PHP array. */
  predicate IsTable(v: Value) {
    v.VMap? || (v.VList? && |v.items| == 0)
  }

  /** Values PHP turns into an array on `$x[$k] = $v`: `null` silently and
      `false` with a deprecation notice; an array is written in place. Any
      other value (a string, an integer, ...) makes the assignment fail. */
  predicate Autovivifies(v: Value) {
    v.VNull? || v == VBool(false) || IsTable(v)
  }

  /** `$params[$slot][$k] = $v` can be executed on these parameters. */
  predicate SlotAssignable(params: Dict<Value>, slot: string) {
    slot in params.vals ==> Autovivifies(params.vals[slot])
  }

  /** `$params[$slot]` as a table; absent, `[]` or not an array reads as
      empty. */
  function TableAt(params: Dict<Value>, slot: string): (r: Dict<Value>)
    ensures params.Get(slot).Some? && params.Get(slot).value.VMap? ==> r == params.Get(slot).value.d
    ensures (params.Get(slot).None? || !params.Get(slot).value.VMap?) ==> r == Empty()
  {
    match params.Get(slot)
    case Some(VMap(h)) => h
    case _ => Empty()
  }

  /** `$params[$slot][$k] = $v`: the nested table gets the entry, created if
      need be; `None` is the PHP error for a slot holding a scalar. */
  function SetInSlot(params: Dict<Value>, slot: string, k: string, v: Value): (r: Option<Dict<Value>>)
    ensures r.Some? <==> SlotAssignable(params, slot)
    ensures r.Some? ==> TableAt(r.value, slot).Get(k) == Some(v)
    ensures r.Some? ==> forall j :: j != k ==> TableAt(r.value, slot).Get(j) == TableAt(params, slot).Get(j)
    ensures r.Some? ==> forall j :: j != slot ==> r.value.Get(j) == params.Get(j)
    ensures r.Some? && slot !in params.vals ==> r.value.keys == params.keys + [slot]
    ensures r.Some? && params.Valid() ==> r.value.Valid()
  {
    if !SlotAssignable(params, slot) then None
    else Some(params.Set(slot, VMap(TableAt(params, slot).Set(k, v))))
  }

  /** `$params['headers'][$k] = $v` can be executed on these parameters. */
  predicate HeadersAssignable(params: Dict<Value>) {
    SlotAssignable(params, "headers")
  }

  /** `$params['headers']` as a table; absent or `null` reads as empty. */
  function HeadersOf(params: Dict<Value>): Dict<Value> {
    TableAt(params, "headers")
  }

  /** The table `$v` stands for when it is indexed or written through:
      a table's entries, and nothing for `[]`, `null` or `false`. */
  function AsTable(v: Value): (r: Dict<Value>)
    ensures v.VMap? ==> r == v.d
    ensures !v.VMap? ==> r == Empty()
  {
    if v.VMap? then v.d else Empty()
  }

  /** `$v[$k]` read from an array; anything else, or a missing key, reads as
      `null`. */
  function ReadKey(v: Value, k: string): (r: Value)
    ensures v.VMap? && k in v.d.vals ==> r == v.d.vals[k]
    ensures !v.VMap? || k !in v.d.vals ==> r == VNull
  {
    AsTable(v).Get(k).GetOr(VNull)
  }

  /** Every table nested in `params` (one level down) is itself well formed. */
  ghost predicate WellFormed(params: Dict<Value>) {
    && params.Valid()
    && forall k :: k in params.vals && params.vals[k].VMap? ==> params.vals[k].d.Valid()
  }
}
