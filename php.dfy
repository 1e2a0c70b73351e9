/** The part of PHP's value semantics that the authentication core relies on:
    what `json_decode($content, true)` yields, truthiness (`if ($x)`, `?:`,
    `empty()`), the null-coalescing `??` applied to an array offset, and the
    coercion of a scalar passed to a `string` parameter (the core's files do
    not declare `strict_types`). */
module Php {

  datatype Option<+T> = None | Some(value: T)

  /** A value stored under one key of a decoded JSON body. A nested array is
      kept only as its number of elements, which is all truthiness needs. */
  datatype Value = Null | Bool(b: bool) | Int(n: int) | Str(s: string) | Arr(size: nat)

  /** The result of `json_decode($content, true)`: a PHP array (from a JSON
      object or list; list keys are the strings "0", "1", ...) or a scalar.
      Content that is not JSON decodes to `ScalarBody(Null)`. */
  datatype Body = ArrayBody(entries: map<string, Value>) | ScalarBody(scalar: Value)

  /** PHP's conversion to bool: null, false, 0, "", "0" and [] are false. */
  predicate Truthy(v: Value) {
    match v
    case Null => false
    case Bool(b) => b
    case Int(n) => n != 0
    case Str(s) => s != "" && s != "0"
    case Arr(size) => size > 0
  }

  /** `$body[$key] ?? null`: the stored value when the body is an array that
      holds the key with a non-null value, null otherwise (`??` never raises
      on a missing key or on a body that is not an array). */
  function Lookup(body: Body, key: string): (v: Value)
    ensures v != Null ==> body.ArrayBody? && key in body.entries && body.entries[key] == v
    ensures body.ScalarBody? || key !in body.entries ==> v == Null
    ensures body.ArrayBody? && key in body.entries ==> v == body.entries[key]
  {
    if body.ArrayBody? && key in body.entries then body.entries[key] else Null
  }

  /** `empty($body[$key])`: true when the key is missing or its value is falsy. */
  predicate EmptyAt(body: Body, key: string) {
    !Truthy(Lookup(body, key))
  }

  /** `$x ?? $fallback` */
  function Coalesce(x: Value, fallback: Value): (r: Value)
    ensures r == Null <==> x == Null && fallback == Null
    ensures x != Null ==> r == x
    ensures x == Null ==> r == fallback
  {
    if x != Null then x else fallback
  }

  /** `$x ?: $fallback` */
  function Elvis(x: Value, fallback: Value): (r: Value)
    ensures Truthy(x) ==> r == x
    ensures !Truthy(x) ==> r == fallback
    ensures Truthy(r) <==> Truthy(x) || Truthy(fallback)
  {
    if Truthy(x) then x else fallback
  }

  /** A `?string` result (such as `Request::getClientIp()`) as a PHP value. */
  function NullableString(s: Option<string>): Value {
    if s.Some? then Str(s.value) else Null
  }

  function DigitChar(d: nat): (c: char)
    requires d < 10
    ensures '0' <= c <= '9'
  {
    ('0' as int + d) as char
  }

  /** The decimal digits of `n`, without leading zeros. */
  function NatDigits(n: nat): (r: string)
    ensures |r| > 0
    ensures forall i :: 0 <= i < |r| ==> '0' <= r[i] <= '9'
    ensures n > 0 ==> r[0] != '0'
    decreases n
  {
    if n < 10 then [DigitChar(n)] else NatDigits(n / 10) + [DigitChar(n % 10)]
  }

  /** PHP's rendering of an int as a string: `(string)-42 === "-42"`. */
  function DecimalString(n: int): (r: string)
    ensures |r| > 0
    ensures n != 0 ==> r != "0"
  {
    if n < 0 then "-" + NatDigits(-n) else NatDigits(n)
  }

  /** The value a scalar becomes when passed to a `string` parameter under
      coercive typing. `None` stands for the TypeError PHP raises for an
      array or for null. */
  function StringArgument(v: Value): (r: Option<string>)
    ensures r.None? <==> v.Null? || v.Arr?
    ensures v.Str? ==> r == Some(v.s)
    ensures v.Bool? ==> r == Some(if v.b then "1" else "")
    ensures v.Int? ==> r == Some(DecimalString(v.n))
  {
    match v
    case Null => None
    case Bool(b) => Some(if b then "1" else "")
    case Int(n) => Some(DecimalString(n))
    case Str(s) => Some(s)
    case Arr(_) => None
  }

  /** A truthy value never coerces to a falsy string: it is never "" and
      never "0" (and only an array fails to coerce at all). */
  lemma TruthyStringArgument(v: Value)
    requires Truthy(v)
    ensures StringArgument(v).None? <==> v.Arr?
    ensures StringArgument(v).Some? ==> StringArgument(v).value != "" && StringArgument(v).value != "0"
  {
  }

  /** `str_starts_with($s, $prefix)` */
  predicate StartsWith(s: string, prefix: string) {
    |prefix| <= |s| && s[..|prefix|] == prefix
  }
}
