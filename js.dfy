/**
 * The few JavaScript value rules the components depend on: the difference
 * between `null` and `undefined`, strict and loose comparison with `null`,
 * and truthiness.
 */
module Js {

  /** A property of a REST resource that may hold a value, `null`, or be missing (`undefined`). */
  datatype Nullable<+T> = Null | Undefined | Val(value: T)

  /** `x === null` */
  predicate IsStrictNull<T>(x: Nullable<T>) {
    x.Null?
  }

  /** `x == null`: loose equality also matches `undefined`. */
  predicate IsLooseNull<T>(x: Nullable<T>) {
    x.Null? || x.Undefined?
  }

  /** Truthiness of a possibly missing string: only a non-empty string is truthy. */
  predicate TruthyString(x: Nullable<string>) {
    x.Val? && x.value != ""
  }

  /** `String(x)` as used by `Array.prototype.join`: `null` and `undefined` become the empty string. */
  function JoinText(x: Nullable<string>): string {
    match x
    case Val(s) => s
    case _ => ""
  }

  /** A scalar JSON value as returned by the REST API. */
  datatype JsValue = JsUndefined | JsNull | JsNumber(n: real) | JsString(s: string)

  /** `!!v`: `undefined`, `null`, `0` and `""` are falsy (NaN and booleans do not occur here). */
  predicate Truthy(v: JsValue) {
    match v
    case JsUndefined => false
    case JsNull => false
    case JsNumber(n) => n != 0.0
    case JsString(s) => s != ""
  }

  lemma LooseNullIncludesStrictNull<T>(x: Nullable<T>)
    ensures IsStrictNull(x) ==> IsLooseNull(x)
    ensures IsLooseNull(x) && !IsStrictNull(x) <==> x.Undefined?
  {
  }
}
