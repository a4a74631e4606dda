/**
 * The pieces of a zod object schema that the product and category
 * schemas use: per-value checks, the `optional` / `nullable` / `default`
 * wrappers, arrays, and the outcome of a whole object.
 *
 * A zod object reads each declared key of its input (a missing key reads
 * as `undefined`), runs that key's schema, drops undeclared keys, and
 * either returns the typed data with defaults filled in or reports every
 * failing key. Errors inside a nested array are reported under the
 * array's own key, as `flatten().fieldErrors` groups them; an input that
 * is not an object at all fails with no field named.
 */
module Schema {
  import opened Js

  /**
   * The format checks `.url()` and `.uuid()`. Their exact grammars are
   * internal to the validation library, so they are inputs of the model.
   */
  datatype Formats = Formats(isUrl: string -> bool, isUuid: string -> bool)

  /** The value of an `.optional().nullable()` field. */
  datatype Nullish<+T> = Absent | Null | Present(value: T)

  /** The outcome of one field's schema. */
  datatype Parsed<+T> = Accept(value: T) | Reject

  /**
   * The outcome of an object schema. A failure names the keys whose schema
   * failed; `K` enumerates the keys the object schema declares.
   */
  datatype Validated<K, +T> = Valid(data: T) | Invalid(fields: set<K>)

  /** The object schema failed, naming `key`. */
  predicate InvalidAt<K, T>(r: Validated<K, T>, key: K) {
    r.Invalid? && key in r.fields
  }

  /** `Number.isInteger` on a finite number. */
  predicate IsInteger(x: real) {
    x.Floor as real == x
  }

  // ---------------------------------------------------------------------
  // Checks on a present value
  // ---------------------------------------------------------------------

  /** `z.string()` with `.min(min)` and, when given, `.max(max)`, both counted in UTF-16 code units. */
  function Text(j: Json, min: nat, max: Option<nat>): (r: Parsed<string>)
    ensures r.Accept? <==> j.JString? && min <= Utf16Length(j.s) && (max.None? || Utf16Length(j.s) <= max.value)
    ensures r.Accept? ==> r.value == j.s
  {
    match j
    case JString(s) =>
      if min <= Utf16Length(s) && (max.None? || Utf16Length(s) <= max.value) then Accept(s) else Reject
    case _ => Reject
  }

  /** Loosening either bound of a string check keeps every string it accepted, unchanged. */
  lemma TextMonotone(j: Json, min: nat, max: Option<nat>, min': nat, max': Option<nat>)
    requires min' <= min
    requires max'.None? || (max.Some? && max.value <= max'.value)
    ensures Text(j, min, max).Accept? ==> Text(j, min', max') == Text(j, min, max)
    ensures Text(j, min, max).Accept? ==> AnyText(j) == Text(j, min, max)
  {
  }

  /** `z.string()` with no length bound. */
  function AnyText(j: Json): (r: Parsed<string>)
    ensures r.Accept? <==> j.JString?
    ensures r.Accept? ==> r.value == j.s
  {
    Text(j, 0, None)
  }

  /** `z.string().url()`. */
  function Url(f: Formats, j: Json): (r: Parsed<string>)
    ensures r.Accept? <==> j.JString? && f.isUrl(j.s)
    ensures r.Accept? ==> r.value == j.s
  {
    if j.JString? && f.isUrl(j.s) then Accept(j.s) else Reject
  }

  /** `z.string().uuid()`. */
  function Uuid(f: Formats, j: Json): (r: Parsed<string>)
    ensures r.Accept? <==> j.JString? && f.isUuid(j.s)
    ensures r.Accept? ==> r.value == j.s
  {
    if j.JString? && f.isUuid(j.s) then Accept(j.s) else Reject
  }

  /** `z.number().positive()`. */
  function Positive(j: Json): (r: Parsed<real>)
    ensures r.Accept? <==> j.JNumber? && j.n > 0.0
    ensures r.Accept? ==> r.value == j.n
  {
    if j.JNumber? && j.n > 0.0 then Accept(j.n) else Reject
  }

  /** `z.number().int().nonnegative()`. */
  function Count(j: Json): (r: Parsed<int>)
    ensures r.Accept? <==> j.JNumber? && IsInteger(j.n) && j.n >= 0.0
    ensures r.Accept? ==> r.value >= 0 && r.value as real == j.n
  {
    if j.JNumber? && IsInteger(j.n) && j.n >= 0.0 then Accept(j.n.Floor) else Reject
  }

  /** `z.number().int().positive()`. */
  function PositiveInt(j: Json): (r: Parsed<int>)
    ensures r.Accept? <==> j.JNumber? && IsInteger(j.n) && j.n > 0.0
    ensures r.Accept? ==> r.value >= 1 && r.value as real == j.n
  {
    if j.JNumber? && IsInteger(j.n) && j.n > 0.0 then Accept(j.n.Floor) else Reject
  }

  /** The number checks nest: a positive whole number is both positive and a count, with the same value. */
  lemma NumberChecks(j: Json)
    ensures PositiveInt(j).Accept? ==> Positive(j) == Accept(PositiveInt(j).value as real)
    ensures PositiveInt(j).Accept? ==> Count(j) == PositiveInt(j)
    ensures Count(j).Accept? && Count(j).value != 0 ==> PositiveInt(j) == Count(j)
    ensures Count(j).Accept? && Positive(j).Accept? ==> PositiveInt(j).Accept?
  {
  }

  /** `z.boolean()`. */
  function Bool(j: Json): (r: Parsed<bool>)
    ensures r.Accept? <==> j.JBool?
    ensures r.Accept? ==> r.value == j.b
  {
    if j.JBool? then Accept(j.b) else Reject
  }

  // ---------------------------------------------------------------------
  // Presence wrappers
  // ---------------------------------------------------------------------

  /** A field without `.optional()`: `undefined` fails. */
  function Required<T>(v: Option<Json>, check: Json -> Parsed<T>): (r: Parsed<T>)
    ensures v.None? ==> r.Reject?
    ensures v.Some? ==> r == check(v.value)
  {
    match v
    case None => Reject
    case Some(j) => check(j)
  }

  /** `.optional()`: `undefined` passes as itself; `null` still fails. */
  function Optional<T>(v: Option<Json>, check: Json -> Parsed<T>): (r: Parsed<Option<T>>)
    ensures v.None? ==> r == Accept(None)
    ensures v.Some? ==> (r.Accept? <==> check(v.value).Accept?)
    ensures v.Some? && r.Accept? ==> r.value == Some(check(v.value).value)
  {
    match v
    case None => Accept(None)
    case Some(j) =>
      match check(j)
      case Accept(x) => Accept(Some(x))
      case Reject => Reject
  }

  /** `.optional().nullable()`: both `undefined` and `null` pass. */
  function OptionalNullable<T>(v: Option<Json>, check: Json -> Parsed<T>): (r: Parsed<Nullish<T>>)
    ensures v.None? ==> r == Accept(Absent)
    ensures v == Some(JNull) ==> r == Accept(Null)
    ensures v.Some? && v.value != JNull ==> (r.Accept? <==> check(v.value).Accept?)
    ensures v.Some? && v.value != JNull && r.Accept? ==> r.value == Present(check(v.value).value)
  {
    match v
    case None => Accept(Absent)
    case Some(JNull) => Accept(Null)
    case Some(j) =>
      match check(j)
      case Accept(x) => Accept(Present(x))
      case Reject => Reject
  }

  /** `.optional().default(d)`: `undefined` becomes `d`. */
  function WithDefault<T>(p: Parsed<Option<T>>, d: T): (r: Parsed<T>)
    ensures r.Accept? <==> p.Accept?
    ensures p == Accept(None) ==> r == Accept(d)
    ensures p.Accept? && p.value.Some? ==> r == Accept(p.value.value)
  {
    match p
    case Accept(None) => Accept(d)
    case Accept(Some(x)) => Accept(x)
    case Reject => Reject
  }

  /**
   * A required field is an optional one that must be present: both agree
   * on every present value, and a missing value fails only the required one.
   */
  lemma RequiredRefinesOptional<T>(v: Option<Json>, check: Json -> Parsed<T>)
    ensures Required(v, check).Accept? ==> Optional(v, check) == Accept(Some(Required(v, check).value))
    ensures v.Some? ==> (Required(v, check).Accept? <==> Optional(v, check).Accept?)
    ensures v.None? ==> Required(v, check).Reject? && Optional(v, check).Accept?
  {
  }

  /**
   * `.nullable()` only adds `null`: every value `.optional()` accepts is
   * still accepted, and on every value other than `null` the two agree.
   */
  lemma NullableExtendsOptional<T>(v: Option<Json>, check: Json -> Parsed<T>)
    ensures Optional(v, check).Accept? ==> OptionalNullable(v, check).Accept?
    ensures v != Some(JNull) ==> (OptionalNullable(v, check).Accept? <==> Optional(v, check).Accept?)
    ensures v != Some(JNull) && Optional(v, check) == Accept(None) ==> OptionalNullable(v, check) == Accept(Absent)
    ensures v != Some(JNull) && Optional(v, check).Accept? && Optional(v, check).value.Some?
        ==> OptionalNullable(v, check) == Accept(Present(Optional(v, check).value.value))
    ensures v == Some(JNull) ==> OptionalNullable(v, check) == Accept(Null)
  {
  }

  /**
   * `.optional().default(d)` fails exactly where the check fails on a
   * present value, fills in `d` for a missing one, and otherwise returns
   * what the check returned.
   */
  lemma DefaultFillsMissing<T>(v: Option<Json>, check: Json -> Parsed<T>, d: T)
    ensures WithDefault(Optional(v, check), d).Reject? <==> v.Some? && check(v.value).Reject?
    ensures v.None? ==> WithDefault(Optional(v, check), d) == Accept(d)
    ensures v.Some? && check(v.value).Accept? ==> WithDefault(Optional(v, check), d) == check(v.value)
  {
  }

  /** `z.array(check)`: every element must pass; the output keeps the order. */
  function ArrayOf<T>(j: Json, check: Json -> Parsed<T>): (r: Parsed<seq<T>>)
    ensures r.Accept? <==> j.JArray? && forall i | 0 <= i < |j.items| :: check(j.items[i]).Accept?
    ensures r.Accept? ==> |r.value| == |j.items|
    ensures r.Accept? ==> forall i | 0 <= i < |j.items| :: r.value[i] == check(j.items[i]).value
  {
    if j.JArray? then Elements(j.items, check) else Reject
  }

  function Elements<T>(items: seq<Json>, check: Json -> Parsed<T>): (r: Parsed<seq<T>>)
    ensures r.Accept? <==> forall i | 0 <= i < |items| :: check(items[i]).Accept?
    ensures r.Accept? ==> |r.value| == |items|
    ensures r.Accept? ==> forall i | 0 <= i < |items| :: r.value[i] == check(items[i]).value
    decreases |items|
  {
    if items == [] then Accept([])
    else
      match (check(items[0]), Elements(items[1..], check))
      case (Accept(x), Accept(xs)) => Accept([x] + xs)
      case _ => Reject
  }

  // ---------------------------------------------------------------------
  // Validated values against the raw body
  // ---------------------------------------------------------------------

  /** The optional string `o` is what the body holds at `v`: missing when `o` is, that string otherwise. */
  predicate TextAt(v: Option<Json>, o: Option<string>) {
    if o.None? then v.None? else v == Some(JString(o.value))
  }

  /** The optional number `o` is what the body holds at `v`. */
  predicate NumberAt(v: Option<Json>, o: Option<real>) {
    if o.None? then v.None? else v == Some(JNumber(o.value))
  }

  /** The optional whole number `o` is what the body holds at `v`. */
  predicate IntAt(v: Option<Json>, o: Option<int>) {
    if o.None? then v.None? else v == Some(JNumber(o.value as real))
  }

  /** The optional boolean `o` is what the body holds at `v`. */
  predicate BoolAt(v: Option<Json>, o: Option<bool>) {
    if o.None? then v.None? else v == Some(JBool(o.value))
  }

  /** The nullable string `n` is what the body holds at `v`: missing, `null`, or that string. */
  predicate NullishTextAt(v: Option<Json>, n: Nullish<string>) {
    match n
    case Absent => v.None?
    case Null => v == Some(JNull)
    case Present(s) => v == Some(JString(s))
  }

  /** The nullable whole number `n` is what the body holds at `v`. */
  predicate NullishIntAt(v: Option<Json>, n: Nullish<int>) {
    match n
    case Absent => v.None?
    case Null => v == Some(JNull)
    case Present(x) => v == Some(JNumber(x as real))
  }

  /** A value `z.string().optional().nullable()` accepts: missing, `null`, or a string. */
  predicate NullishTextOk(v: Option<Json>) {
    v.None? || v.value.JNull? || v.value.JString?
  }

  /** The key reported for a field whose schema failed. */
  function Flag<K, T>(key: K, p: Parsed<T>): (r: set<K>)
    ensures key in r <==> p.Reject?
    ensures r <= {key}
  {
    if p.Reject? then {key} else {}
  }
}
