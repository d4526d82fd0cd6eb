/**
 * The slice of `net/http` the client touches: a response's status code and
 * headers, and a request whose header map is changed in place.
 * Headers hold one value per name and names are compared as written.
 */
module Http {

  datatype Response = Response(StatusCode: int, Header: map<string, string>)

  /** `Header.Get`: the value stored under `name`, or "" when there is none. */
  function HeaderGet(header: map<string, string>, name: string): string
  {
    if name in header then header[name] else ""
  }

  /** An outgoing request: its method, its request-URI (path and query as
      sent on the wire) and its header map. */
  class Request {
    const Method: string
    const Uri: string
    var Header: map<string, string>

    constructor (verb: string, uri: string, header: map<string, string>)
      ensures Method == verb && Uri == uri && Header == header
    {
      Method := verb;
      Uri := uri;
      Header := header;
    }
  }
}
