/**
 The Go values that reach the canonicalizer, the field stripper and the masking code: what sits inside
 an `any`. `MapArr` is `[]map[string]any`, a type Go keeps apart from `[]any`; `Unsupported` is any other
 Go type (such as `[]string`).
 */
module Values {

  /** The integers a float64 represents exactly. */
  type SafeInt = n: int | -0x20_0000_0000_0000 <= n <= 0x20_0000_0000_0000

  /** A float64: an integer, the negative zero, NaN or an infinity. */
  datatype Number = Integer(n: SafeInt) | NegativeZero | NaN | Infinite(negative: bool) {
    predicate Finite() {
      Integer? || NegativeZero?
    }

    /** `x > 0`, which NaN is not. */
    predicate Positive() {
      (Integer? && n > 0) || (Infinite? && !negative)
    }
  }

  datatype Value =
    | Null
    | Bool(b: bool)
    | Num(num: Number)
    | Str(s: string)
    | Arr(elems: seq<Value>)
    | MapArr(objs: seq<Object>)
    | Obj(obj: Object)
    | Unsupported(goType: string)

  datatype Object = Object(fields: map<string, Value>)
}
