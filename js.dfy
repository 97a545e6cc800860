/**
 * The few JavaScript value semantics the backend handlers depend on: the
 * dynamic values a request body can carry, truthiness, `??` and the loose
 * boolean test `v === "true" || v === true`.
 */
module Js {

  datatype Option<T> = None | Some(value: T)

  /** A value found in a parsed request body (JSON or multipart form). */
  datatype JsValue =
    | Undefined
    | Null
    | Bool(b: bool)
    | Num(n: int)
    | Str(s: string)
    | Arr(items: seq<string>)

  /** JavaScript truthiness: `undefined`, `null`, `false`, `0` and `""` are falsy; arrays are truthy. */
  function Truthy(v: JsValue): (b: bool)
    ensures !b <==> v == Undefined || v == Null || v == Bool(false) || v == Num(0) || v == Str("")
  {
    match v
    case Undefined => false
    case Null => false
    case Bool(b) => b
    case Num(n) => n != 0
    case Str(s) => s != ""
    case Arr(_) => true
  }

  /** `v === "true" || v === true`: the coercion applied to form-encoded booleans. */
  function FlagTrue(v: JsValue): (b: bool)
    ensures b ==> Truthy(v)
    ensures v.Str? ==> (b <==> v.s == "true")
    ensures v.Bool? ==> b == v.b
    ensures !v.Str? && !v.Bool? ==> !b
  {
    v == Str("true") || v == Bool(true)
  }

  /** A body field of a known type: absent (`undefined`), `null`, or a value. */
  datatype Field<T> = Missing | NullValue | Given(value: T)

  /**
   * The value a schema field holds when given `f`. An `undefined` field leaves
   * the key out and `null` stores `null`; no server handler reads those two
   * apart, so both are None here. The admin page does tell them apart when it
   * renders a pet (AdminPanel.Show).
   */
  function Stored<T>(f: Field<T>): (r: Option<T>)
    ensures r.Some? <==> f.Given?
    ensures f.Given? ==> r.value == f.value
  {
    if f.Given? then Some(f.value) else None
  }

  /** A text body field is truthy when it is given and non-empty. */
  predicate TruthyText(f: Field<string>) {
    f.Given? && f.value != ""
  }

  /** `s || fallback` for strings, where only the empty string is falsy. */
  function OrElse(s: string, fallback: string): (r: string)
    ensures s != "" ==> r == s
    ensures s == "" ==> r == fallback
  {
    if s != "" then s else fallback
  }

  /** `field = f ?? field` on an optional stored field: only a given value replaces it. */
  function KeepUnlessGiven<T>(f: Field<T>, current: Option<T>): (r: Option<T>)
    ensures f.Given? ==> r == Some(f.value)
    ensures !f.Given? ==> r == current
  {
    if f.Given? then Some(f.value) else current
  }

  /** A key of an update document: `undefined` leaves the field, `null` clears it, a value sets it. */
  function ApplyField<T>(f: Field<T>, current: Option<T>): (r: Option<T>)
    ensures f.Missing? ==> r == current
    ensures f.NullValue? ==> r == None
    ensures f.Given? ==> r == Some(f.value)
  {
    match f
    case Missing => current
    case NullValue => None
    case Given(v) => Some(v)
  }
}
