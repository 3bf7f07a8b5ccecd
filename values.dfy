/** Values shared by both back-ends: an optional value and the JSON values the model's reply may decode to. */
module Values {

  datatype Option<T> = None | Some(value: T)

  /** A decoded JSON document. Numbers and booleans are not distinguished: only their kind matters here. */
  datatype Json =
    | Null
    | Str(s: string)
    | Scalar
    | Array(items: seq<Json>)
    | Object(fields: map<string, Json>)
}
