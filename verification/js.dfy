/**
 * JavaScript values as the route handlers and the admin form see them:
 * `undefined` as a missing `Option`, parsed JSON bodies, and the
 * truthiness rules that `||` and `!x` apply to them.
 */
module Js {

  /** `None` stands for `undefined` (a missing property or argument). */
  datatype Option<+T> = None | Some(value: T)

  /**
   * A parsed JSON value. Numbers are modelled as exact reals, not as
   * IEEE doubles: the model has no rounding, and no value for the
   * `Infinity` that `JSON.parse` returns for a literal too large for a
   * double.
   */
  datatype Json =
    | JNull
    | JBool(b: bool)
    | JNumber(n: real)
    | JString(s: string)
    | JArray(items: seq<Json>)
    | JObject(fields: map<string, Json>)

  /**
   * Reading property `key` of a parsed body: only an object has own
   * properties of these names; on any other value the read gives
   * `undefined`. (Reading a property of `null` throws instead; callers
   * that can meet `null` handle it before calling this.)
   */
  function Member(j: Json, key: string): (r: Option<Json>)
    ensures r.Some? <==> j.JObject? && key in j.fields
    ensures r.Some? ==> r.value == j.fields[key]
  {
    if j.JObject? && key in j.fields then Some(j.fields[key]) else None
  }

  /**
   * `s.length`: the number of UTF-16 code units, so a character outside
   * the Basic Multilingual Plane counts twice.
   */
  function Utf16Length(s: string): (n: nat)
    ensures |s| <= n <= 2 * |s|
    ensures n == 0 <==> s == []
    decreases |s|
  {
    if s == [] then 0
    else (if s[0] as int >= 0x1_0000 then 2 else 1) + Utf16Length(s[1..])
  }

  /** JavaScript truthiness of a possibly missing JSON value. */
  predicate Truthy(v: Option<Json>) {
    match v
    case None => false
    case Some(JNull) => false
    case Some(JBool(b)) => b
    case Some(JNumber(n)) => n != 0.0
    case Some(JString(s)) => s != ""
    case Some(_) => true
  }

  /** JavaScript truthiness of an optional string: `undefined` and `""` are falsy. */
  predicate TruthyText(v: Option<string>) {
    v.Some? && v.value != ""
  }

  /** JavaScript truthiness of an optional number: `undefined` and `0` are falsy. */
  predicate TruthyNumber(v: Option<int>) {
    v.Some? && v.value != 0
  }

  /** `a || b` where `a` is an optional string and `b` a string. */
  function OrText(a: Option<string>, b: string): (r: string)
    ensures TruthyText(a) ==> r == a.value
    ensures !TruthyText(a) ==> r == b
  {
    if TruthyText(a) then a.value else b
  }

  /** `a || b` where `a` is an optional number and `b` a number. */
  function OrNumber(a: Option<int>, b: int): (r: int)
    ensures TruthyNumber(a) ==> r == a.value
    ensures !TruthyNumber(a) ==> r == b
  {
    if TruthyNumber(a) then a.value else b
  }

  /**
   * `a || b`: the result is one of the two operands; a truthy fallback
   * makes the result truthy; and once `a` is truthy the fallback no
   * longer matters.
   */
  lemma OrDefaults(a: Option<string>, b: string, c: string, x: Option<int>, y: int, z: int)
    ensures OrText(a, b) == b || (a.Some? && OrText(a, b) == a.value)
    ensures b != "" ==> TruthyText(Some(OrText(a, b)))
    ensures TruthyText(a) ==> OrText(a, b) == OrText(a, c)
    ensures OrNumber(x, y) == y || (x.Some? && OrNumber(x, y) == x.value)
    ensures y != 0 ==> TruthyNumber(Some(OrNumber(x, y)))
    ensures TruthyNumber(x) ==> OrNumber(x, y) == OrNumber(x, z)
  {
  }

  /** The JavaScript length of a string of characters from the Basic Multilingual Plane is its number of characters. */
  lemma {:induction false} Utf16LengthBmp(s: string)
    requires forall k | 0 <= k < |s| :: s[k] as int < 0x1_0000
    ensures Utf16Length(s) == |s|
    decreases |s|
  {
    if s != [] {
      assert forall k | 0 <= k < |s[1..]| :: s[1..][k] == s[k + 1];
      Utf16LengthBmp(s[1..]);
    }
  }
}
