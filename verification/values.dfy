/** Opaque payloads. The model never looks inside them; it only moves them around. */
module Values {

  /** A formatter-typed wire value (the source's `TMessage`). */
  datatype Message = Message(raw: seq<int>)

  /** An application-level .NET object (a method's return value, an out-parameter value, a default value). */
  datatype Value = Null | Value(raw: seq<int>)
}
