/**
 * The retrying client (client.go): a request is sent once, and when the
 * server answers 401 and an authentication handler is installed, the handler
 * rewrites the request and the request is sent a second and last time.
 *
 * The network is a scripted transport: its n-th send returns the n-th
 * outcome of a fixed script and is logged. The handler is any function from
 * the challenge response and the request to the request's new header.
 */
module Client {
  import opened Wrappers
  import opened Http

  /** What `http.Client.Do` hands back: a response, or an error together
      with the response Go may still return beside it. */
  datatype Outcome = Received(resp: Response) | Failed(partial: Option<Response>, err: string)

  /** A request as it left the client. */
  datatype Sent = Sent(Method: string, Uri: string, Header: map<string, string>)

  function Snapshot(req: Request): Sent
    reads req
  {
    Sent(req.Method, req.Uri, req.Header)
  }

  /** The wrapped `http.Client`: answers the n-th request with `script(n)`
      and keeps every request it was given. */
  class Transport {
    const script: nat -> Outcome
    var sent: seq<Sent>

    constructor (answers: nat -> Outcome)
      ensures script == answers && sent == []
    {
      script := answers;
      sent := [];
    }

    method Do(req: Request) returns (o: Outcome)
      modifies this`sent
      ensures sent == old(sent) + [Snapshot(req)]
      ensures o == script(|old(sent)|)
    {
      o := script(|sent|);
      sent := sent + [Snapshot(req)];
    }
  }

  /** The `AuthHandler` interface: given the 401 response and the request,
      it rewrites the request's header; `handled` keeps the responses it was
      shown. */
  class AuthHandler {
    const rewrite: (Response, Sent) -> map<string, string>
    var handled: seq<Response>

    constructor (f: (Response, Sent) -> map<string, string>)
      ensures rewrite == f && handled == []
    {
      rewrite := f;
      handled := [];
    }

    method HandleAuth(resp: Response, req: Request)
      modifies this`handled, req`Header
      ensures req.Header == rewrite(resp, old(Snapshot(req)))
      ensures handled == old(handled) + [resp]
    {
      req.Header := rewrite(resp, Snapshot(req));
      handled := handled + [resp];
    }
  }

  /** True when the first outcome makes the client try again: a response
      (no error) with status 401, and a handler to answer the challenge. */
  predicate Retries(first: Outcome, hasHandler: bool)
  {
    first.Received? && first.resp.StatusCode == 401 && hasHandler
  }

  /** The outcome the client returns, given the transport's first and second
      answers: the second when it retried, the first otherwise. */
  function Result(first: Outcome, second: Outcome, hasHandler: bool): Outcome
  {
    if Retries(first, hasHandler) then second else first
  }

  /** `Client`: the wrapped transport and the optional handler. */
  class Client {
    var HttpClient: Transport
    var Handler: AuthHandler?

    constructor (transport: Transport, handler: AuthHandler?)
      ensures HttpClient == transport && Handler == handler
    {
      HttpClient := transport;
      Handler := handler;
    }

    /** Sends `req`; on a 401 with a handler installed, lets the handler
        rewrite the request and sends it once more. */
    method Do(req: Request) returns (o: Outcome)
      modifies HttpClient`sent, req`Header
      modifies if Handler != null then {Handler} else {}
      ensures var first := HttpClient.script(|old(HttpClient.sent)|);
        var second := HttpClient.script(|old(HttpClient.sent)| + 1);
        o == Result(first, second, Handler != null)
      ensures var first := HttpClient.script(|old(HttpClient.sent)|);
        !Retries(first, Handler != null) ==>
          && HttpClient.sent == old(HttpClient.sent) + [old(Snapshot(req))]
          && req.Header == old(req.Header)
          && (Handler != null ==> Handler.handled == old(Handler.handled))
      ensures var first := HttpClient.script(|old(HttpClient.sent)|);
        Retries(first, Handler != null) ==>
          && Handler != null
          && req.Header == Handler.rewrite(first.resp, old(Snapshot(req)))
          && HttpClient.sent == old(HttpClient.sent) + [old(Snapshot(req)), Snapshot(req)]
          && Handler.handled == old(Handler.handled) + [first.resp]
    {
      o := HttpClient.Do(req);

      if o.Failed? {
        return o;
      }

      if o.resp.StatusCode == 401 && Handler != null {
        Handler.HandleAuth(o.resp, req);

        o := HttpClient.Do(req);
      }

      return o;
    }

    /** Without a handler the client is the plain transport: one send, the
        request untouched, and the first answer returned whatever its
        status. */
    method DoWithoutHandler(req: Request) returns (o: Outcome)
      requires Handler == null
      modifies HttpClient`sent, req`Header
      ensures HttpClient.sent == old(HttpClient.sent) + [old(Snapshot(req))]
      ensures o == HttpClient.script(|old(HttpClient.sent)|)
      ensures req.Header == old(req.Header)
    {
      o := Do(req);
    }

    /** A 401 that survives the retry is handed back verbatim: the client
        sends exactly twice and shows the handler only the first challenge. */
    method DoRepeatedChallenge(req: Request) returns (o: Outcome)
      requires Handler != null
      requires HttpClient.script(|HttpClient.sent|).Received?
      requires HttpClient.script(|HttpClient.sent|).resp.StatusCode == 401
      requires HttpClient.script(|HttpClient.sent| + 1).Received?
      requires HttpClient.script(|HttpClient.sent| + 1).resp.StatusCode == 401
      modifies HttpClient`sent, req`Header, Handler
      ensures |HttpClient.sent| == |old(HttpClient.sent)| + 2
      ensures o == HttpClient.script(|old(HttpClient.sent)| + 1)
      ensures o.Received? && o.resp.StatusCode == 401
      ensures Handler.handled == old(Handler.handled) + [HttpClient.script(|old(HttpClient.sent)|).resp]
      ensures HttpClient.sent[|old(HttpClient.sent)| + 1].Header == req.Header
    {
      o := Do(req);
    }
  }
}
