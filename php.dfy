/**
 * The parts of PHP's value semantics that the command and the runtime helper
 * depend on: truthiness in `if`, string conversion by `.`, `== ''`, `empty()`,
 * the two ways of turning a value into an array, and `explode`/`implode` on a
 * one-character delimiter.
 */
module Php {

  /** A scalar as it reaches the code from the configuration or the command line. */
  datatype Scalar = Null | Bool(b: bool) | Str(s: string)

  /** A configuration or option value: a scalar or a list of scalars. */
  datatype Value = Scalar(v: Scalar) | Array(items: seq<Scalar>)

  /** `if ($x)`: null, false, "" and "0" are false, everything else is true. */
  predicate Truthy(x: Scalar)
  {
    match x
    case Null => false
    case Bool(b) => b
    case Str(s) => s != "" && s != "0"
  }

  /** `empty($x)` on a scalar. */
  predicate Empty(x: Scalar)
  {
    !Truthy(x)
  }

  /** `$x == ''`, the loose comparison with the empty string. */
  predicate LooseEqualsEmpty(x: Scalar)
  {
    x == Null || x == Bool(false) || x == Str("")
  }

  /** String conversion performed by the `.` operator. */
  function ToStr(x: Scalar): string
  {
    match x
    case Null => ""
    case Bool(b) => if b then "1" else ""
    case Str(s) => s
  }

  /** `!is_array($v) ? array($v) : $v`: a scalar, null included, becomes a one-element list. */
  function Wrap(v: Value): (r: seq<Scalar>)
    ensures v.Scalar? ==> r == [v.v]
    ensures v.Array? ==> r == v.items
  {
    match v
    case Scalar(x) => [x]
    case Array(items) => items
  }

  /** `(array)$v`: like Wrap, except that null becomes the empty list. */
  function CastToArray(v: Value): (r: seq<Scalar>)
    ensures v == Scalar(Null) ==> r == []
    ensures v.Scalar? && v.v != Null ==> r == [v.v]
    ensures v.Array? ==> r == v.items
  {
    match v
    case Scalar(Null) => []
    case Scalar(x) => [x]
    case Array(items) => items
  }

  /** The loose comparison with '' is true of every value it holds for, but `empty()` also holds of "0". */
  lemma LooseEmptyIsEmpty(x: Scalar)
    ensures LooseEqualsEmpty(x) ==> Empty(x)
    ensures Empty(Str("0")) && !LooseEqualsEmpty(Str("0"))
  {
  }

  /** Wrap and CastToArray differ exactly on null. */
  lemma WrapVersusCast(v: Value)
    ensures Wrap(v) != CastToArray(v) <==> v == Scalar(Null)
  {
  }

  /** Number of occurrences of `d` in `s`. */
  function Occurrences(d: char, s: string): nat
  {
    if |s| == 0 then 0 else (if s[0] == d then 1 else 0) + Occurrences(d, s[1..])
  }

  /** `explode(d, s)`: the pieces of `s` between occurrences of `d`. */
  function Explode(d: char, s: string): (r: seq<string>)
    ensures |r| == Occurrences(d, s) + 1
    ensures forall i :: 0 <= i < |r| ==> d !in r[i]
    decreases |s|
  {
    if |s| == 0 then [""]
    else if s[0] == d then [""] + Explode(d, s[1..])
    else
      var rest := Explode(d, s[1..]);
      [[s[0]] + rest[0]] + rest[1..]
  }

  /** `implode(d, xs)`: the pieces joined by `d`. */
  function Implode(d: char, xs: seq<string>): string
  {
    if |xs| == 0 then ""
    else if |xs| == 1 then xs[0]
    else xs[0] + [d] + Implode(d, xs[1..])
  }

  /** Joining the pieces of an explode gives back the string. */
  lemma {:induction false} ImplodeExplode(d: char, s: string)
    ensures Implode(d, Explode(d, s)) == s
    decreases |s|
  {
    if |s| == 0 {
    } else if s[0] == d {
      var rest := Explode(d, s[1..]);
      ImplodeExplode(d, s[1..]);
      assert Explode(d, s) == [""] + rest;
      assert s == [d] + s[1..];
    } else {
      var rest := Explode(d, s[1..]);
      ImplodeExplode(d, s[1..]);
      var r := Explode(d, s);
      assert r == [[s[0]] + rest[0]] + rest[1..];
      if |rest| == 1 {
        assert s == [s[0]] + s[1..];
      } else {
        assert r[1..] == rest[1..];
        assert Implode(d, rest) == rest[0] + [d] + Implode(d, rest[1..]);
        assert s == [s[0]] + s[1..];
      }
    }
  }

  /** A piece free of `d` followed by `d` and a tail explodes into that piece and the tail's pieces. */
  lemma {:induction false} ExplodePieceThen(d: char, x: string, t: string)
    requires d !in x
    ensures Explode(d, x + [d] + t) == [x] + Explode(d, t)
    ensures Explode(d, x) == [x]
    decreases |x|
  {
    if |x| == 0 {
      assert x + [d] + t == [d] + t;
      assert ([d] + t)[1..] == t;
    } else {
      ExplodePieceThen(d, x[1..], t);
      assert (x + [d] + t)[1..] == x[1..] + [d] + t;
      assert [x[0]] + x[1..] == x;
    }
  }

  /** Exploding a join of pieces that do not contain the delimiter gives back the pieces. */
  lemma {:induction false} ExplodeImplode(d: char, xs: seq<string>)
    requires |xs| >= 1
    requires forall i :: 0 <= i < |xs| ==> d !in xs[i]
    ensures Explode(d, Implode(d, xs)) == xs
    decreases |xs|
  {
    if |xs| == 1 {
      ExplodePieceThen(d, xs[0], "");
    } else {
      ExplodeImplode(d, xs[1..]);
      ExplodePieceThen(d, xs[0], Implode(d, xs[1..]));
      assert [xs[0]] + xs[1..] == xs;
    }
  }
}
