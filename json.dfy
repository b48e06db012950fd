/** JSON values as the wire layer sees them, and JavaScript truthiness.

    `JSON.parse` and `JSON.stringify` are not modelled inside: the protocol
    functions take them as parameters (`Parser`, `Serializer`), so every
    property proved here holds for whatever JSON codec the host supplies.
    Numbers keep only whether they are zero, which is all that the
    `.filter((p) => p)` step of the decoder can observe. */
module Json {

  datatype Option<+T> = None | Some(value: T)

  datatype Value =
    | JNull
    | JBool(b: bool)
    | JNum(nonZero: bool)
    | JStr(s: string)
    | JArr(items: seq<Value>)
    | JObj(members: seq<(string, Value)>)

  /** `JSON.parse`: the parsed value, or None where it throws. */
  type Parser = string -> Option<Value>

  /** `JSON.stringify` on an object, an array or null. */
  type Serializer = Value -> string

  /** JavaScript truthiness: `null`, `false`, `0` and `""` are falsy,
      every other JSON value (arrays and objects included, even empty) is truthy. */
  predicate Truthy(v: Value): (t: bool)
    ensures !t <==> v == JNull || v == JBool(false) || v == JNum(false) || v == JStr("")
  {
    match v
    case JNull => false
    case JBool(b) => b
    case JNum(nonZero) => nonZero
    case JStr(s) => s != []
    case JArr(_) => true
    case JObj(_) => true
  }

  /** `typeof v === 'object'`: objects, arrays and null. */
  predicate IsObject(v: Value) {
    v.JNull? || v.JArr? || v.JObj?
  }
}
