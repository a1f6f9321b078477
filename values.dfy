/**
 * Python values as the extension system stores them in settings, persisted
 * records and hook payloads: a small tagged union.
 */
module Values {

  /** A Python value. Floats keep only their printed form; any other object
      keeps only the name of its class. */
  datatype Value =
    | VNone
    | VBool(b: bool)
    | VInt(i: int)
    | VFloat(repr: string)
    | VStr(s: string)
    | VList(items: seq<Value>)
    | VDict(entries: map<string, Value>)
    | VObject(className: string)

  /** `type(v).__name__`. */
  function TypeName(v: Value): string {
    match v
    case VNone => "NoneType"
    case VBool(_) => "bool"
    case VInt(_) => "int"
    case VFloat(_) => "float"
    case VStr(_) => "str"
    case VList(_) => "list"
    case VDict(_) => "dict"
    case VObject(c) => c
  }

  /** The type string the extension system records for a setting value:
      the type name, or "str" for `None` (registry.py and base.py share it). */
  function InferredType(v: Value): string {
    if v.VNone? then "str" else TypeName(v)
  }

  /** Python truthiness of a value. */
  predicate Truthy(v: Value) {
    match v
    case VNone => false
    case VBool(b) => b
    case VInt(i) => i != 0
    case VFloat(r) => r != "0.0" && r != "-0.0"
    case VStr(s) => s != ""
    case VList(xs) => xs != []
    case VDict(m) => m != map[]
    case VObject(_) => true
  }
}
