// Go's `any` as decoded YAML or JSON produces it.
module Values {
  // A scalar carries its dynamic Go type and its text.
  datatype Value =
    | Null
    | Scalar(kind: string, text: string)
    | List(items: seq<Value>)
    | Map(fields: map<string, Value>)
}
