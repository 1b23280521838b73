/**
 * The few JavaScript value rules the site's logic depends on: `undefined`
 * as an optional value, truthiness of strings, `Array.prototype.indexOf`,
 * reading an array out of range, template interpolation and the decimal
 * rendering of numbers.
 */
module JsValues {

  /** A value that may be `undefined`. */
  datatype Option<+T> = None | Some(value: T)

  /** `!id` is false exactly for a defined, non-empty string. */
  predicate Truthy(v: Option<string>)
  {
    v.Some? && v.value != ""
  }

  /** `d.indexOf(x)`: the first index holding `x`, or -1. */
  function IndexOf(d: seq<string>, x: string): (i: int)
    ensures -1 <= i < |d|
    ensures i == -1 <==> x !in d
    ensures 0 <= i ==> d[i] == x && forall k :: 0 <= k < i ==> d[k] != x
  {
    if d == [] then -1
    else if d[0] == x then 0
    else
      var i := IndexOf(d[1..], x);
      if i == -1 then -1 else i + 1
  }

  /** `d[k]`: out-of-range reads (including negative ones) give `undefined`. */
  function At(d: seq<string>, k: int): (v: Option<string>)
    ensures v.Some? <==> 0 <= k < |d|
    ensures v.Some? ==> v.value == d[k]
  {
    if 0 <= k < |d| then Some(d[k]) else None
  }

  /** `${v}` for a string or `undefined`. */
  function Interpolate(v: Option<string>): string
  {
    match v
    case Some(s) => s
    case None => "undefined"
  }

  /** The decimal digit character for `d`. */
  function DigitChar(d: nat): char
    requires d < 10
  {
    ['0', '1', '2', '3', '4', '5', '6', '7', '8', '9'][d]
  }

  /** `String(n)` for a non-negative integer: its decimal digits, no leading zero. */
  function Decimal(n: nat): (s: string)
    ensures 1 <= |s|
    ensures 10 <= n ==> 2 <= |s|
    ensures s[0] == '0' ==> n == 0
  {
    if n < 10 then [DigitChar(n)] else Decimal(n / 10) + [DigitChar(n % 10)]
  }

  /** The JavaScript numbers this model meets: finite integers, NaN and +Infinity. */
  datatype JsNumber = Finite(v: int) | NaN | Infinity

  /** `String(x)` for a JsNumber. */
  function NumberToString(x: JsNumber): (s: string)
    ensures s == "0" <==> x == Finite(0)
  {
    match x
    case Finite(v) => if v < 0 then "-" + Decimal(-v) else Decimal(v)
    case NaN => "NaN"
    case Infinity => "Infinity"
  }

  /** A number is falsy when it is 0 or NaN. */
  predicate NumberTruthy(x: JsNumber)
  {
    x != Finite(0) && x != NaN
  }
}
