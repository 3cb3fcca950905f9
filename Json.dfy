/** The values the crawler hands to `json.dumps`: strings, lists, string-keyed
    dicts (in insertion order) and `None`. Serialisation itself is not modelled. */
module Json {

  datatype Value = Null | Str(s: string) | Arr(items: seq<Value>) | Obj(members: seq<(string, Value)>)

  /** Python truthiness: `None`, `""`, `[]` and `{}` are falsy. */
  predicate Truthy(v: Value) {
    match v
    case Null => false
    case Str(s) => s != ""
    case Arr(items) => items != []
    case Obj(members) => members != []
  }
}
