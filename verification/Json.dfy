/** JSON values as serde_json represents them. */
module Json {

  /** An integer and a float are different values even when they denote the same number. A JSON
      float is always finite, so a real stands for it and equality of floats is equality of reals. */
  datatype Number = Integer(i: int) | Float(r: real)

  datatype Value =
    | Null
    | Bool(b: bool)
    | Num(n: Number)
    | Str(s: string)
    | Arr(items: seq<Value>)
    | Obj(fields: map<string, Value>)
}
