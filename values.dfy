/** Dynamic values: what a Go `interface{}` holds in this package, both as
    decoded JSON (a configuration) and as the values an expression produces
    or reads from the parameter map. */
module Values {

  /** A dynamically typed value. JSON decoding yields `Null`, `Bool`,
      `Float`, `Str`, `Arr` and `Obj`; Go callers may also put integers
      (`Int`) into parameter maps and literal results. `Int(2)` and
      `Float(2.0)` are different values, as `int` and `float64` are in Go. */
  datatype Value =
    | Null
    | Bool(b: bool)
    | Int(i: int)
    | Float(f: real)
    | Str(s: string)
    | Arr(items: seq<Value>)
    | Obj(fields: map<string, Value>)

  /** The named parameters an evaluation runs against. */
  type Env = map<string, Value>

  datatype Result<+T, +E> = Ok(value: T) | Err(error: E)
}
