/** An already-parsed JSON value, the shape of `serde_json::Value`. */
module JsonValue {

  /** Numbers are kept as integers: no JSON number is inspected by the client. */
  datatype Value =
    | Null
    | Bool(b: bool)
    | Number(n: int)
    | String(s: string)
    | Array(items: seq<Value>)
    | Object(fields: map<string, Value>)
}
