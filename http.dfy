/**
  The slice of the HTTP surface the service touches: request methods, the
  status codes it answers with (section 15 of RFC 9110) and responses.
  Wire format, sessions and sockets belong to the transport library and are
  not part of this model.
*/
module Http {
  import opened Wrappers
  import opened Utf8

  const OK: int := 200
  const CREATED: int := 201
  const ACCEPTED: int := 202
  const BAD_REQUEST: int := 400
  const NOT_FOUND: int := 404
  const SERVICE_UNAVAILABLE: int := 503

  /** The request methods the transport can deliver. */
  datatype Method = GET | POST | HEAD | OPTIONS | PUT | DELETE | TRACE | CONNECT | PATCH

  /** A request as the handlers see it: the `id` query parameter and the
      body may each be missing (null in the transport). */
  datatype Request = Request(
    verb: Method,
    path: string,
    id: Option<string>,
    body: Option<seq<byte>>)

  datatype Response = Response(status: int, body: seq<byte>)

  /** What a handler produces: a response written back to the session, or an
      exception that escapes the handler so that no response is written. */
  datatype Outcome = Sent(response: Response) | Fault

  /** A response with an empty body, as built with `Response.EMPTY`. */
  function Empty(status: int): (r: Outcome)
    ensures r.Sent? && r.response.status == status && r.response.body == []
  {
    Sent(Response(status, []))
  }
}
