/**
 * The values `JSON.parse` can return, with the two JavaScript operations the
 * webview applies to them: truthiness and property access.
 * Numbers are integers here; fractional numbers are not modelled.
 */
module Json {
  import opened Wrappers

  datatype Value =
    | JNull
    | JBool(b: bool)
    | JNum(n: int)
    | JStr(s: string)
    | JArr(items: seq<Value>)
    | JObj(fields: map<string, Value>)

  /** JavaScript truthiness: `null`, `false`, `0` and `""` are falsy, arrays and objects are truthy. */
  predicate Truthy(v: Value)
  {
    match v
    case JNull => false
    case JBool(b) => b
    case JNum(n) => n != 0
    case JStr(s) => s != ""
    case JArr(_) => true
    case JObj(_) => true
  }

  /**
   * `v.key`. Only an object can carry a member; on every other value the
   * member is `undefined` (None). Reading a member of `null` throws, which
   * every caller in the webview treats exactly like `undefined`.
   */
  function Member(v: Value, key: string): Option<Value>
  {
    if v.JObj? && key in v.fields then Some(v.fields[key]) else None
  }
}
