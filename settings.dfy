/** The settings document as `json.loads` returns it, and the assertion
    failures raised when a required key is absent or has the wrong type. */
module Settings {

  /** A decoded JSON value. Objects are dictionaries keyed by string. */
  datatype Json =
    | JNull
    | JBool(b: bool)
    | JInt(i: int)
    | JFloat(r: real)
    | JStr(s: string)
    | JList(items: seq<Json>)
    | JObject(fields: map<string, Json>)

  /** The `assert` failures of the settings readers. */
  datatype ConfigError =
    | MissingKey(key: string)
    | WrongType(key: string)
}
