/** `vsprintf` restricted to the conversions the client's URI templates use:
    `%s` (next argument, converted to string) and `%%` (a literal percent).
    Any other conversion, a trailing lone `%`, or running out of arguments
    yields `None`, standing for the ValueError / ArgumentCountError PHP 8 throws
    (other conversions are outside this model). */
module Sprintf {
  import opened Wrappers
  import opened Text
  import opened Dicts
  import opened Php

  /** The argument list `vsprintf` reads from a PHP value: an array's values
      in order. Anything that is not an array is a TypeError in PHP 8. */
  function ArgList(v: Value): (r: Option<seq<Value>>)
    requires v.VMap? ==> v.d.Valid()
    ensures r.Some? <==> v.VList? || v.VMap?
    ensures v.VList? ==> r == Some(v.items)
    ensures v.VMap? ==> |r.value| == |v.d.keys|
    ensures v.VMap? ==> forall i :: 0 <= i < |v.d.keys| ==> v.d.Get(v.d.keys[i]) == Some(r.value[i])
  {
    match v
    case VList(xs) => Some(xs)
    case VMap(d) => Some(d.Values())
    case _ => None
  }

  /** Prepend `p` to a successful result; failures stay failures. */
  function Prepend(p: string, o: Option<string>): (r: Option<string>)
    ensures r.Some? <==> o.Some?
    ensures r.Some? ==> r.value == p + o.value
  {
    if o.Some? then Some(p + o.value) else None
  }

  /** Formats `t`, the next argument to consume being `args[n]`. */
  function Fmt(t: string, args: seq<Value>, n: nat): Option<string>
    decreases |t|
  {
    if |t| == 0 then Some("")
    else if t[0] != '%' then Prepend([t[0]], Fmt(t[1..], args, n))
    else if |t| == 1 then None
    else if t[1] == '%' then Prepend("%", Fmt(t[2..], args, n))
    else if t[1] == 's' then
      if n < |args| then Prepend(ToStr(args[n]), Fmt(t[2..], args, n + 1)) else None
    else None
  }

  /** `vsprintf($t, $args)`. */
  function VSprintf(t: string, args: seq<Value>): (r: Option<string>)
    ensures '%' !in t ==> r == Some(t)
  {
    if '%' !in t then
      NoPlaceholder(t, args, 0);
      Fmt(t, args, 0)
    else
      Fmt(t, args, 0)
  }

  /** A template without `%` formats to itself whatever the arguments. */
  lemma {:induction false} NoPlaceholder(t: string, args: seq<Value>, n: nat)
    requires '%' !in t
    ensures Fmt(t, args, n) == Some(t)
    decreases |t|
  {
    if |t| > 0 {
      assert t[0] in t;
      assert forall c :: c in t[1..] ==> c in t;
      NoPlaceholder(t[1..], args, n);
      assert [t[0]] + t[1..] == t;
    }
  }

  /** A literal run without `%` is copied through unchanged. */
  lemma {:induction false} LiteralPrefix(lit: string, rest: string, args: seq<Value>, n: nat)
    requires '%' !in lit
    ensures Fmt(lit + rest, args, n) == Prepend(lit, Fmt(rest, args, n))
    decreases |lit|
  {
    if |lit| > 0 {
      var t := lit + rest;
      assert lit[0] in lit;
      assert t[0] == lit[0];
      assert t[1..] == lit[1..] + rest;
      assert forall c :: c in lit[1..] ==> c in lit;
      LiteralPrefix(lit[1..], rest, args, n);
      var inner := Fmt(rest, args, n);
      if inner.Some? {
        assert [lit[0]] + (lit[1..] + inner.value) == lit + inner.value;
      }
    } else {
      assert lit + rest == rest;
      var o := Fmt(rest, args, n);
      if o.Some? {
        assert lit + o.value == o.value;
      }
    }
  }

  /** The expected output of a template made of literal runs `lits` separated
      by `%s`, starting at argument `n`: each placeholder takes the next
      argument in turn. */
  function Interleave(lits: seq<string>, args: seq<Value>, n: nat): string
    requires |lits| >= 1
    requires n + |lits| - 1 <= |args|
    decreases |lits|
  {
    if |lits| == 1 then lits[0]
    else lits[0] + ToStr(args[n]) + Interleave(lits[1..], args, n + 1)
  }

  /** A `%s` at the head of a template consumes the next argument, if any. */
  lemma PlaceholderStep(tail: string, args: seq<Value>, n: nat)
    ensures Fmt("%s" + tail, args, n) ==
              (if n < |args| then Prepend(ToStr(args[n]), Fmt(tail, args, n + 1)) else None)
  {
    var t := "%s" + tail;
    assert t[0] == '%' && t[1] == 's' && t[2..] == tail;
  }

  /** Filling a `%s` template: it succeeds exactly when there are enough
      arguments, and then places the arguments in order between the literals. */
  lemma {:induction false} FillTemplate(lits: seq<string>, args: seq<Value>, n: nat)
    requires |lits| >= 1
    requires forall i :: 0 <= i < |lits| ==> '%' !in lits[i]
    requires n <= |args|
    ensures Fmt(Join(lits, "%s"), args, n).Some? <==> n + |lits| - 1 <= |args|
    ensures n + |lits| - 1 <= |args| ==>
              Fmt(Join(lits, "%s"), args, n) == Some(Interleave(lits, args, n))
    decreases |lits|
  {
    if |lits| == 1 {
      assert Join(lits, "%s") == lits[0];
      NoPlaceholder(lits[0], args, n);
    } else {
      var tail := Join(lits[1..], "%s");
      assert Join(lits, "%s") == lits[0] + ("%s" + tail);
      assert '%' !in lits[0];
      LiteralPrefix(lits[0], "%s" + tail, args, n);
      PlaceholderStep(tail, args, n);
      if n < |args| {
        var rest := lits[1..];
        assert forall i :: 0 <= i < |rest| ==> '%' !in rest[i] by {
          forall i | 0 <= i < |rest| ensures '%' !in rest[i] {
            assert rest[i] == lits[i + 1];
          }
        }
        FillTemplate(rest, args, n + 1);
        var o := Fmt(tail, args, n + 1);
        if o.Some? {
          assert lits[0] + (ToStr(args[n]) + o.value) == lits[0] + ToStr(args[n]) + o.value;
        }
      }
    }
  }
}
