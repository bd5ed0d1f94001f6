/** Decoded JSON values as Python's `json` module and the browser hand them
    to the code: `null`, booleans, numbers, strings, arrays and objects. */
module Json {

  datatype Value =
    | JNull
    | JBool(b: bool)
    | JNum(n: real)
    | JStr(s: string)
    | JArr(items: seq<Value>)
    | JObj(fields: map<string, Value>)

  /** Python truthiness (`bool(v)`): `None`, `False`, zero and empty
      containers are false. */
  predicate PyTruthy(v: Value)
  {
    match v
    case JNull => false
    case JBool(b) => b
    case JNum(n) => n != 0.0
    case JStr(s) => s != ""
    case JArr(items) => items != []
    case JObj(fields) => fields != map[]
  }

  /** JavaScript truthiness (`Boolean(v)`): unlike Python, every array and
      every object is true. */
  predicate JsTruthy(v: Value)
  {
    match v
    case JNull => false
    case JBool(b) => b
    case JNum(n) => n != 0.0
    case JStr(s) => s != ""
    case JArr(_) => true
    case JObj(_) => true
  }

  /** `d.get(key)` on a Python dict: a missing key reads as `None`. */
  function Get(fields: map<string, Value>, key: string): Value
  {
    if key in fields then fields[key] else JNull
  }
}
