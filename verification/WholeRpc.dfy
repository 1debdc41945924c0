/**
 A whole call: client wrapper, network, receive limit, server wrapper, service, and the
 response on its way back.
 */
module WholeRpc {
  import opened Wrappers
  import opened Framing
  import opened Codec
  import opened Body
  import opened CompressionAdapter
  import opened CompressionRuns
  import opened RoundTrip
  import opened CompressionService
  import opened ServedStack
  import RecvLimit

  const STATUS := "grpc-status"

  function Digits(n: nat): string {
    (if n < 10 then "" else Digits(n / 10)) + ["0123456789"[n % 10]]
  }

  function StatusNumber(c: Code): nat {
    match c
    case DeadlineExceeded => 4
    case ResourceExhausted => 8
    case Internal => 13
    case Unavailable => 14
    case Other(n) => n
  }

  /** A response that is nothing but a status. */
  function StatusResponse(c: Code): Http {
    Http(map[STATUS := [Digits(StatusNumber(c))]], [])
  }

  /** The statuses on the wire, as numbered by gRPC. */
  lemma StatusOnWire()
    ensures StatusResponse(ResourceExhausted) == Http(map["grpc-status" := ["8"]], [])
    ensures StatusResponse(Internal) == Http(map["grpc-status" := ["13"]], [])
    ensures StatusResponse(Unavailable) == Http(map["grpc-status" := ["14"]], [])
    ensures StatusResponse(DeadlineExceeded) == Http(map["grpc-status" := ["4"]], [])
  {
    assert Digits(1) == "1" && Digits(4) == "4" && Digits(8) == "8";
    assert Digits(13) == "13";
    assert Digits(14) == "14";
  }

  /** The receive limit around a service. */
  function LimitedCall<E>(limit: nat, inner: Http -> Result<Http, E>, req: Http): Result<Http, E> {
    if RecvLimit.Prefetch(req.body, 0).Broken? then Ok(StatusResponse(Internal))
    else if !Admits(req.body, limit) then Ok(StatusResponse(ResourceExhausted))
    else inner(Http(req.headers, Rebuilt(req.body, limit)))
  }

  /** Both ends of a deployment, and a network each way. */
  datatype Deployment = Deployment(encoding: Encoding, clientMax: usize, serverMax: usize, limit: nat,
                                   up: Http -> Http, down: Http -> Http)

  ghost predicate Network(net: Http -> Http) {
    forall sent :: Delivers(sent, net(sent))
  }

  ghost predicate Sound(d: Deployment) {
    Lawful(d.encoding) && Network(d.up) && Network(d.down)
  }

  /** The server: the limit is always outside the compression wrapper. */
  function Serve<E>(d: Deployment, service: Http -> Result<Http, E>, req: Http): Result<Http, E> {
    LimitedCall(d.limit, (r: Http) => ServerCall(d.encoding, d.serverMax, service, r), req)
  }

  function Channel<E>(d: Deployment, service: Http -> Result<Http, E>, req: Http): Result<Http, E> {
    match Serve(d, service, d.up(req))
    case Ok(resp) => Ok(d.down(resp))
    case Err(error) => Err(error)
  }

  function Rpc<E>(d: Deployment, service: Http -> Result<Http, E>, req: Http): Result<Http, E> {
    ClientCall(d.encoding, d.clientMax, (r: Http) => Channel(d, service, r), req)
  }

  /** The request as it reaches the server. */
  function OnWire(d: Deployment, req: Http): Http {
    d.up(ClientRequest(d.encoding, d.clientMax, req))
  }

  /** The request a matched server's service should be given for these messages. */
  function Intended(e: Encoding, headers: Headers, ms: seq<Message>, trailers: Option<Metadata>): Http
    requires WireName(e).Some?
  {
    Http(headers[ACCEPT := [WireName(e).value]] - {ENCODING}, Delivered(ms, trailers))
  }

  /** The request the service is given, when the limit lets it be called. */
  function Given(d: Deployment, req: Http): Http
    requires Admits(OnWire(d, req).body, d.limit)
  {
    var wire := OnWire(d, req);
    ServerRequest(d.encoding, d.serverMax, Http(wire.headers, Rebuilt(wire.body, d.limit)))
  }

  lemma GivenRequest(d: Deployment, req: Http)
    requires Sound(d) && Admits(OnWire(d, req).body, d.limit)
    ensures WireName(d.encoding).Some?
    ensures var wire := OnWire(d, req);
      && AcceptEncodingContains(wire.headers, WireName(d.encoding).value)
      && Given(d, req).headers == req.headers[ACCEPT := [WireName(d.encoding).value]] - {ENCODING}
      && StackCall(d.encoding, d.serverMax, d.limit, wire.body) == Reads(Given(d, req).body)
  {
    var name, wire := WireName(d.encoding).value, OnWire(d, req);
    assert Delivers(ClientRequest(d.encoding, d.clientMax, req), wire);
    assert ENCODING != ACCEPT by { assert ENCODING[5] != ACCEPT[5]; }
    WireNameIsToken(d.encoding);
    WireNameReadable(d.encoding, req.headers);
    AcceptsOnly(Insert(req.headers, ENCODING, name), name, name);
    assert wire.headers - {ENCODING} == req.headers[ACCEPT := [name]] - {ENCODING};
  }

  /**
   The service is called with exactly the original messages and trailers if and only if every message
   survives and fits the limit in its compressed form.
   */
  lemma ServiceGivenOriginals(d: Deployment, req: Http, ms: seq<Message>, trailers: Option<Metadata>)
    requires Sound(d) && Meaning(req.body) == Whole(ms, trailers)
    ensures WireName(d.encoding).Some?
    ensures Admits(OnWire(d, req).body, d.limit) && Given(d, req) == Intended(d.encoding, req.headers, ms, trailers)
       <==> AllSurvive(d.encoding, d.serverMax, ms) && FitOnWire(d.encoding, d.limit, ms)
  {
    var wire := OnWire(d, req);
    assert Delivers(ClientRequest(d.encoding, d.clientMax, req), wire);
    ServedRoundTripExact(d.encoding, d.clientMax, d.serverMax, d.limit, ms, trailers, req.body, wire.body);
    if Admits(wire.body, d.limit) {
      GivenRequest(d, req);
    }
  }

  /** What the caller gets back for the service's answer. */
  lemma AnswerComesBack(d: Deployment, req: Http, resp: Http, ms: seq<Message>, trailers: Option<Metadata>)
    requires Sound(d) && Admits(OnWire(d, req).body, d.limit)
    requires Meaning(resp.body) == Whole(ms, trailers)
    ensures var back := ClientResponse(d.encoding, d.clientMax, d.down(ServerResponse(d.encoding, d.serverMax,
        Http(OnWire(d, req).headers, Rebuilt(OnWire(d, req).body, d.limit)), resp)));
      && back.headers == resp.headers - {ENCODING}
      && (back.body == Delivered(ms, trailers) <==> AllSurvive(d.encoding, d.clientMax, ms))
  {
    GivenRequest(d, req);
    var sent := ServerResponse(d.encoding, d.serverMax, Http(OnWire(d, req).headers, Rebuilt(OnWire(d, req).body, d.limit)), resp);
    var got := d.down(sent);
    assert Delivers(sent, got);
    WireNameReadable(d.encoding, resp.headers);
    assert got.headers - {ENCODING} == resp.headers - {ENCODING};
    RoundTripExact(d.encoding, d.serverMax, d.clientMax, ms, trailers, resp.body, got.body);
  }

  lemma RpcUnfolds<E>(d: Deployment, service: Http -> Result<Http, E>, req: Http)
    requires Admits(OnWire(d, req).body, d.limit)
    ensures var r := service(Given(d, req));
      Rpc(d, service, req) ==
      if r.Err? then r
      else Ok(ClientResponse(d.encoding, d.clientMax, d.down(ServerResponse(d.encoding, d.serverMax,
                Http(OnWire(d, req).headers, Rebuilt(OnWire(d, req).body, d.limit)), r.value))))
  {
  }

  /**
   Transparency of a whole call: for a request whose messages get through, the caller receives exactly what
   the service, called directly on the original messages, answers, if and only if the answer's messages
   survive the way back; and the service's error, if it returns one.
   */
  lemma RpcTransparent<E>(d: Deployment, service: Http -> Result<Http, E>, req: Http,
                          ms: seq<Message>, trailers: Option<Metadata>, answer: seq<Message>, ending: Option<Metadata>)
    requires Sound(d) && WireName(d.encoding).Some?
    requires Meaning(req.body) == Whole(ms, trailers)
    requires AllSurvive(d.encoding, d.serverMax, ms) && FitOnWire(d.encoding, d.limit, ms)
    ensures var direct := service(Intended(d.encoding, req.headers, ms, trailers));
      && (direct.Err? ==> Rpc(d, service, req) == direct)
      && (direct.Ok? && Meaning(direct.value.body) == Whole(answer, ending) ==>
            (Rpc(d, service, req) == Ok(Http(direct.value.headers - {ENCODING}, Delivered(answer, ending)))
             <==> AllSurvive(d.encoding, d.clientMax, answer)))
  {
    var direct := service(Intended(d.encoding, req.headers, ms, trailers));
    ServiceGivenOriginals(d, req, ms, trailers);
    RpcUnfolds(d, service, req);
    if direct.Ok? && Meaning(direct.value.body) == Whole(answer, ending) {
      AnswerComesBack(d, req, direct.value, answer, ending);
    }
  }

  /** A refused call reaches the caller as its bare status, untouched by the wrappers, and no service is involved. */
  lemma RefusalComesBack<E>(d: Deployment, service: Http -> Result<Http, E>, req: Http, code: Code)
    requires Sound(d)
    requires StackCall(d.encoding, d.serverMax, d.limit, OnWire(d, req).body) == Refused(code)
    ensures var r := Rpc(d, service, req);
      && r.Ok? && r.value.headers == StatusResponse(code).headers
      && Meaning(r.value.body) == Stream([], Ends)
  {
    assert Delivers(StatusResponse(code), d.down(StatusResponse(code)));
    assert STATUS != ENCODING by { assert STATUS[5] != ENCODING[5]; }
  }

  // ----- Wrappers that do not match -----

  function Returned<E>(down: Http -> Http, r: Result<Http, E>): Result<Http, E> {
    if r.Ok? then Ok(down(r.value)) else r
  }

  /**
   Wrappers with different encodings, or with one or both switched off: the caller gets what the bare service
   answers to the request as the client sent it, unless that answer itself names the client's encoding.
   */
  lemma MismatchedWrappersInvisible<E>(client: Encoding, server: Encoding, cap: usize, max: usize,
                                       up: Http -> Http, down: Http -> Http, service: Http -> Result<Http, E>, req: Http)
    requires Network(up) && Network(down)
    requires client.NoEncoding? || WireName(client) != WireName(server)
    requires client.NoEncoding? ==> ENCODING !in req.headers && ACCEPT !in req.headers
    requires var direct := service(up(ClientRequest(client, cap, req)));
      direct.Ok? && !client.NoEncoding? ==> Get(direct.value.headers, ENCODING) != WireName(client)
    ensures ClientCall(client, cap, (r: Http) => Returned(down, ServerCall(server, max, service, up(r))), req)
         == Returned(down, service(up(ClientRequest(client, cap, req))))
  {
    var sent := ClientRequest(client, cap, req);
    assert Delivers(sent, up(sent));
    MismatchedServerInvisible(client, server, cap, max, req, up(sent), service);
    var direct := service(up(sent));
    if direct.Ok? {
      assert Delivers(direct.value, down(direct.value));
    }
  }
}
