/** What the two POST handlers receive and answer, reduced to what they
    decide on: the session's user id, the body, and the status code. */
module Http {
  import opened Json

  /** The identity provider's stable user identifier. */
  type UserId = string

  /** The handlers' answers. ServerError is both the handler's own 500 for a
      failed store call and the framework's 500 for an exception that
      escapes the handler. */
  datatype Reply = Created | BadRequest | Unauthorized | ServerError
  {
    function Status(): int
    {
      match this
      case Created => 201
      case BadRequest => 400
      case Unauthorized => 401
      case ServerError => 500
    }
  }

  /** The request body: JSON text that parses, or text that does not. */
  datatype RequestBody = JsonText(value: Json) | InvalidJson

  /** What `request.json().catch(...)` yields when the text does not parse:
      the `Response` object built in the catch handler. To a schema it is an
      object whose `type` property reads "default" and whose `status` reads 400. */
  const CaughtResponse: Json := Object(map["type" := JString("default"), "status" := JInt(400)])

  /** The value the handler passes on to `safeParse`: the parsed JSON itself,
      or, for text that does not parse, an object whose `type` reads "default"
      and so names no schema variant. */
  function Received(body: RequestBody): (r: Json)
    ensures body.JsonText? ==> r == body.value
    ensures body.InvalidJson? ==> r.Object? && "type" in r.fields && r.fields["type"] == JString("default")
  {
    match body
    case JsonText(v) => v
    case InvalidJson => CaughtResponse
  }
}
