/** The request body as the schemas see it once `request.json()` has run:
    an object whose fields hold JSON values, or any other JSON value. */
module Json {

  datatype Option<+T> = None | Some(value: T)

  /** A field's value, reduced to the shapes the schemas tell apart. */
  datatype Value =
    | JString(s: string)  // a JSON string
    | JInt(n: int)        // a JSON number whose value is integral (5 and 5.0 alike)
    | JFraction           // any other JSON number
    | JOther              // null, a boolean, an array or a nested object

  /** A parsed body: an object (field name to value), or a non-object
      (array, string, number, boolean, null). */
  datatype Json = Object(fields: map<string, Value>) | NonObject

  /** The value stored under `key`, or None when the body is not an object
      or has no such field. */
  function Get(body: Json, key: string): Option<Value>
  {
    if body.Object? && key in body.fields then Some(body.fields[key]) else None
  }
}
