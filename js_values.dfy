/**
 * The JavaScript values that coordinate data is made of, as far as the core
 * inspects them: `Array.isArray` and `typeof … === "number"` are the only
 * tests it applies.
 */
module JsValues {

  datatype Value =
    | Num(n: real)               // a number (floating point is not modelled)
    | Arr(items: seq<Value>)     // an array
    | Nullish                    // `null` or `undefined`: reading an index of it throws
    | Other                      // any other value (string, object, …), never read as an array

  /** `[x, y]`: an array of exactly two numbers, the leaf of a coordinate tree. */
  predicate IsPair(v: Value) {
    v.Arr? && |v.items| == 2 && v.items[0].Num? && v.items[1].Num?
  }

  /** `typeof v[0] === "number"`, read on an array. */
  predicate StartsWithNumber(items: seq<Value>) {
    |items| > 0 && items[0].Num?
  }
}
