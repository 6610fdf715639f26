/** Small shared datatypes: an optional value, as used for the nullable
    results (`null`, `undefined`, `None`) of the modelled code; a result that
    is a value or a raised `ValueError`/`PermissionError` message; and the
    outcome of an HTTP handler, a value or an `HTTPException` status. */
module Common {

  datatype Option<+T> = None | Some(value: T) {
    /** The value, or a default when absent. */
    function GetOr(default: T): T {
      match this
      case Some(v) => v
      case None => default
    }
  }

  /** A value, or the message of the exception raised instead. */
  datatype Result<+T> = Ok(value: T) | Err(error: string)

  /** A handler's value, or the status code and detail of the `HTTPException` it raises. */
  datatype Outcome<+T> = Pass(value: T) | Fail(code: int, detail: string)

  /** A column or dictionary value of the Python side: `None`, a boolean,
      an integer or a text. */
  datatype Value = Null | Bool(b: bool) | Int(i: int) | Text(s: string)

  /** Python truthiness: `None`, `False`, `0` and `""` are false. */
  predicate Truthy(v: Value) {
    match v
    case Null => false
    case Bool(b) => b
    case Int(i) => i != 0
    case Text(s) => s != []
  }

  /** `d.get(key)`: the value under `key`, or `None`. */
  function Get(d: map<string, Value>, key: string): Value {
    if key in d then d[key] else Null
  }

  /** The smaller of two integers (`min`, `Math.min`). */
  function Min(a: int, b: int): int {
    if a <= b then a else b
  }
}
