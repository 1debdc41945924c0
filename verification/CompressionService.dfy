/** The compression wrappers around a service and around a client channel. */
module CompressionService {
  import opened Wrappers
  import opened Framing
  import opened Codec
  import opened Body
  import opened CompressionAdapter
  import opened CompressionRuns
  import opened RoundTrip

  // ----- Headers -----

  /** A header map: the values of each name in the order they arrived. */
  type Headers = map<string, seq<string>>

  /** A request or a response; its body is the events reading it yields, up to the end or the first error. */
  datatype Http = Http(headers: Headers, body: seq<Event>)

  const ENCODING := "grpc-encoding"
  const ACCEPT := "grpc-accept-encoding"

  function WireName(e: Encoding): Option<string> {
    match e
    case Gzip(_, _) => Some("gzip")
    case Zstd(_, _, _) => Some("zstd")
    case NoEncoding => None
  }

  predicate Readable(v: string) {
    forall i :: 0 <= i < |v| ==> ' ' <= v[i] <= '~' || v[i] == '\t'
  }

  /** The first value under `name`, if it is readable text. */
  function Get(h: Headers, name: string): Option<string> {
    if name in h && h[name] != [] && Readable(h[name][0]) then Some(h[name][0]) else None
  }

  function Insert(h: Headers, name: string, value: string): Headers {
    h[name := [value]]
  }

  function Remove(h: Headers, name: string): Headers {
    h - {name}
  }

  /** Only the first value counts, and only if it is visible ASCII, blanks included. */
  lemma GetExact(h: Headers, name: string, v: string)
    ensures Get(h, name) == Some(v) <==>
      name in h && |h[name]| > 0 && h[name][0] == v
      && forall i :: 0 <= i < |v| ==> ' ' <= v[i] <= '~' || v[i] == '\t'
  {
  }

  /** The pieces of `v` between commas. */
  function Split(v: string): (parts: seq<string>)
    ensures parts != []
  {
    if v == "" then [""]
    else
      var parts := Split(v[1..]);
      if v[0] == ',' then [""] + parts else [[v[0]] + parts[0]] + parts[1..]
  }

  predicate Blank(c: char) {
    c == ' ' || c == '\t'
  }

  function Trim(v: string): string {
    if v != "" && Blank(v[0]) then Trim(v[1..])
    else if v != "" && Blank(v[|v| - 1]) then Trim(v[..|v| - 1])
    else v
  }

  predicate Lists(parts: seq<string>, name: string) {
    exists i :: 0 <= i < |parts| && Trim(parts[i]) == name
  }

  predicate AcceptEncodingContains(h: Headers, name: string) {
    var v := Get(h, ACCEPT);
    v.Some? && Lists(Split(v.value), name)
  }

  predicate CommaFree(v: string) {
    forall i :: 0 <= i < |v| ==> v[i] != ','
  }

  function Join(parts: seq<string>): string
    requires parts != []
  {
    if |parts| == 1 then parts[0] else parts[0] + "," + Join(parts[1..])
  }

  /** Split undoes Join: the pieces are exactly what was listed. */
  lemma {:induction false} SplitJoin(parts: seq<string>)
    requires parts != [] && forall i :: 0 <= i < |parts| ==> CommaFree(parts[i])
    ensures Split(Join(parts)) == parts
    decreases |parts|, |parts[0]|
  {
    var v := Join(parts);
    if parts[0] != "" {
      var shorter := [parts[0][1..]] + parts[1..];
      assert CommaFree(parts[0]);
      SplitJoin(shorter);
      assert shorter[1..] == parts[1..];
      assert v[0] == parts[0][0] && v[1..] == Join(shorter);
      assert [parts[0][0]] + parts[0][1..] == parts[0];
      assert [parts[0]] + parts[1..] == parts;
    } else if |parts| > 1 {
      SplitJoin(parts[1..]);
      assert v == "," + Join(parts[1..]);
      assert v[1..] == Join(parts[1..]);
      assert parts == [""] + parts[1..];
    }
  }

  predicate Token(name: string) {
    forall i :: 0 <= i < |name| ==> '!' <= name[i] <= '~' && name[i] != ','
  }

  /** Blanks around a token are dropped and nothing else. */
  lemma {:induction false} TrimPadded(before: string, name: string, after: string)
    requires Token(name)
    requires forall i :: 0 <= i < |before| ==> Blank(before[i])
    requires forall i :: 0 <= i < |after| ==> Blank(after[i])
    ensures Trim(before + name + after) == name
    decreases |before| + |after|
  {
    var v := before + name + after;
    if before != "" {
      assert v[1..] == before[1..] + name + after;
      TrimPadded(before[1..], name, after);
    } else if after != "" {
      assert v[..|v| - 1] == before + name + after[..|after| - 1];
      if Blank(v[0]) {
        assert name == "";
        assert v[1..] == before + name + after[1..];
        TrimPadded(before, name, after[1..]);
      } else {
        TrimPadded(before, name, after[..|after| - 1]);
      }
    } else {
      assert v == name;
    }
  }

  /** A comma-separated list accepts exactly the names it lists, however they are padded. */
  lemma AcceptsListed(h: Headers, parts: seq<string>, name: string)
    requires parts != [] && forall i :: 0 <= i < |parts| ==> CommaFree(parts[i])
    requires Readable(Join(parts))
    ensures AcceptEncodingContains(Insert(h, ACCEPT, Join(parts)), name) <==> Lists(parts, name)
  {
    SplitJoin(parts);
  }

  lemma {:induction false} JoinReadable(parts: seq<string>)
    requires parts != [] && forall i :: 0 <= i < |parts| ==> Readable(parts[i])
    ensures Readable(Join(parts))
  {
    if |parts| > 1 {
      JoinReadable(parts[1..]);
      assert Readable(parts[0]);
    }
  }

  /** The accept header, in the wire's own terms: a padded list of names accepts exactly those names. */
  lemma AcceptsExactlyNames(h: Headers, names: seq<string>, before: seq<string>, after: seq<string>, name: string)
    requires names != [] && |before| == |after| == |names|
    requires forall i :: 0 <= i < |names| ==>
      && (forall j :: 0 <= j < |names[i]| ==> '!' <= names[i][j] <= '~' && names[i][j] != ',')
      && (forall j :: 0 <= j < |before[i]| ==> before[i][j] == ' ' || before[i][j] == '\t')
      && (forall j :: 0 <= j < |after[i]| ==> after[i][j] == ' ' || after[i][j] == '\t')
    ensures var parts := seq(|names|, i requires 0 <= i < |names| => before[i] + names[i] + after[i]);
      AcceptEncodingContains(h["grpc-accept-encoding" := [Join(parts)]], name) <==> name in names
  {
    var parts := seq(|names|, i requires 0 <= i < |names| => before[i] + names[i] + after[i]);
    forall i | 0 <= i < |names|
      ensures CommaFree(parts[i]) && Readable(parts[i]) && Trim(parts[i]) == names[i]
    {
      assert Token(names[i]);
      TrimPadded(before[i], names[i], after[i]);
    }
    JoinReadable(parts);
    AcceptsListed(h, parts, name);
    if name in names {
      var i :| 0 <= i < |names| && names[i] == name;
      assert Trim(parts[i]) == name;
    }
  }

  lemma AcceptsOnly(h: Headers, name: string, other: string)
    requires Token(name)
    ensures AcceptEncodingContains(Insert(h, ACCEPT, name), other) <==> other == name
  {
    AcceptsListed(h, [name], other);
    TrimPadded("", name, "");
    assert "" + name + "" == name;
    assert Lists([name], other) <==> Trim([name][0]) == other;
  }

  lemma WireNameIsToken(e: Encoding)
    ensures WireName(e).Some? ==> Token(WireName(e).value)
  {
  }

  // ----- The server side -----

  /** The request the inner service is given. */
  function ServerRequest(e: Encoding, max: usize, req: Http): Http {
    if WireName(e).Some? && Get(req.headers, ENCODING) == WireName(e)
    then Http(Remove(req.headers, ENCODING), Drain(Receiver(e, max), Init(req.body)))
    else req
  }

  /** The response sent for what the inner service returned. */
  function ServerResponse(e: Encoding, max: usize, req: Http, resp: Http): Http {
    if WireName(e).Some? && AcceptEncodingContains(req.headers, WireName(e).value)
    then Http(Insert(resp.headers, ENCODING, WireName(e).value), Drain(Sender(e, max), Init(resp.body)))
    else resp
  }

  /** A call through the wrapper; an error of the inner service is returned as it is. */
  function ServerCall<E>(e: Encoding, max: usize, inner: Http -> Result<Http, E>, req: Http): Result<Http, E> {
    match inner(ServerRequest(e, max, req))
    case Ok(resp) => Ok(ServerResponse(e, max, req, resp))
    case Err(error) => Err(error)
  }

  class CompressionService {
    const encoding: Encoding
    const max: usize

    constructor (encoding: Encoding, max: usize)
      ensures this.encoding == encoding && this.max == max
    {
      this.encoding, this.max := encoding, max;
    }

    method Call<E>(req: Http, inner: Http -> Result<Http, E>) returns (r: Result<Http, E>)
      ensures r == ServerCall(encoding, max, inner, req)
    {
      var name := WireName(encoding);
      if name.None? {
        return inner(req);
      }
      var headers, body := req.headers, req.body;
      var incoming := Get(headers, ENCODING);
      var accepts := AcceptEncodingContains(headers, name.value);
      if incoming == name {
        headers := Remove(headers, ENCODING);
        body := Drain(Receiver(encoding, max), Init(body));
      }
      r := inner(Http(headers, body));
      if r.Err? || !accepts {
        return;
      }
      headers := Insert(r.value.headers, ENCODING, name.value);
      r := Ok(Http(headers, Drain(Sender(encoding, max), Init(r.value.body))));
    }
  }

  // ----- The client side -----

  /** The request put on the channel. */
  function ClientRequest(e: Encoding, max: usize, req: Http): Http {
    if WireName(e).None? then req
    else Http(Insert(Insert(req.headers, ENCODING, WireName(e).value), ACCEPT, WireName(e).value),
              Drain(Sender(e, max), Init(req.body)))
  }

  /** The response handed to the caller. */
  function ClientResponse(e: Encoding, max: usize, resp: Http): Http {
    if WireName(e).Some? && Get(resp.headers, ENCODING) == WireName(e)
    then Http(Remove(resp.headers, ENCODING), Drain(Receiver(e, max), Init(resp.body)))
    else resp
  }

  function ClientCall<E>(e: Encoding, max: usize, channel: Http -> Result<Http, E>, req: Http): Result<Http, E> {
    match channel(ClientRequest(e, max, req))
    case Ok(resp) => Ok(ClientResponse(e, max, resp))
    case Err(error) => Err(error)
  }

  class CompressionClientService {
    const encoding: Encoding
    const max: usize

    constructor (encoding: Encoding, max: usize)
      ensures this.encoding == encoding && this.max == max
    {
      this.encoding, this.max := encoding, max;
    }

    method Call<E>(req: Http, channel: Http -> Result<Http, E>) returns (r: Result<Http, E>)
      ensures r == ClientCall(encoding, max, channel, req)
    {
      var name := WireName(encoding);
      if name.None? {
        return channel(req);
      }
      var headers := req.headers;
      headers := Insert(headers, ENCODING, name.value);
      headers := Insert(headers, ACCEPT, name.value);
      r := channel(Http(headers, Drain(Sender(encoding, max), Init(req.body))));
      if r.Err? || Get(r.value.headers, ENCODING) != name {
        return;
      }
      headers := Remove(r.value.headers, ENCODING);
      r := Ok(Http(headers, Drain(Receiver(encoding, max), Init(r.value.body))));
    }
  }

  // ----- Matched wrappers -----

  /** A network hands on headers and trailers and re-fragments bodies as it likes. */
  ghost predicate Delivers(sent: Http, received: Http) {
    received.headers == sent.headers && Meaning(received.body) == Meaning(sent.body)
  }

  lemma WireNameReadable(e: Encoding, h: Headers)
    requires WireName(e).Some?
    ensures Get(Insert(h, ENCODING, WireName(e).value), ENCODING) == WireName(e)
  {
    WireNameIsToken(e);
    var v := WireName(e).value;
    assert Readable(v);
  }

  /**
   A request through matched wrappers: on the wire it carries the encoding's name, the service's copy
   carries none, and the service reads exactly the original messages and trailers if and only if every
   message survives.
   */
  lemma RequestTransparent(e: Encoding, cap: usize, max: usize, ms: seq<Message>, trailers: Option<Metadata>,
                           req: Http, wire: Http)
    requires Lawful(e)
    requires Meaning(req.body) == Whole(ms, trailers)
    requires Delivers(ClientRequest(e, cap, req), wire)
    ensures WireName(e).Some? && Get(wire.headers, ENCODING) == WireName(e)
    ensures var served := ServerRequest(e, max, wire);
      && ENCODING !in served.headers
      && served.headers == req.headers[ACCEPT := [WireName(e).value]] - {ENCODING}
      && (served.body == Delivered(ms, trailers) <==> AllSurvive(e, max, ms))
  {
    var name := WireName(e).value;
    assert ENCODING != ACCEPT by { assert ENCODING[5] != ACCEPT[5]; }
    WireNameReadable(e, req.headers);
    assert Get(wire.headers, ENCODING) == WireName(e);
    assert wire.headers - {ENCODING} == req.headers[ACCEPT := [name]] - {ENCODING};
    RoundTripExact(e, cap, max, ms, trailers, req.body, wire.body);
  }

  /** A response through matched wrappers, the mirror image: to a matched client it is always compressed. */
  lemma ResponseTransparent(e: Encoding, cap: usize, max: usize, ms: seq<Message>, trailers: Option<Metadata>,
                            req: Http, wireReq: Http, resp: Http, wireResp: Http)
    requires Lawful(e)
    requires Delivers(ClientRequest(e, max, req), wireReq)
    requires Meaning(resp.body) == Whole(ms, trailers)
    requires Delivers(ServerResponse(e, cap, wireReq, resp), wireResp)
    ensures WireName(e).Some? && Get(wireResp.headers, ENCODING) == WireName(e)
    ensures var received := ClientResponse(e, max, wireResp);
      && ENCODING !in received.headers
      && received.headers == resp.headers - {ENCODING}
      && (received.body == Delivered(ms, trailers) <==> AllSurvive(e, max, ms))
  {
    var name := WireName(e).value;
    WireNameIsToken(e);
    AcceptsOnly(Insert(req.headers, ENCODING, name), name, name);
    assert AcceptEncodingContains(wireReq.headers, name);
    WireNameReadable(e, resp.headers);
    assert wireResp.headers - {ENCODING} == resp.headers - {ENCODING};
    RoundTripExact(e, cap, max, ms, trailers, resp.body, wireResp.body);
  }

  // ----- Any peer -----

  function Name(e: Encoding): string {
    if e.Gzip? then "gzip" else "zstd"
  }

  /**
   What the service is given, for a request with any headers: if and only if its encoding header is ours, the
   header is taken off and the body is decompressed, whatever it accepts; otherwise nothing is touched.
   */
  lemma RequestFromAnyClient(e: Encoding, max: usize, req: Http)
    requires !e.NoEncoding?
    ensures ServerRequest(e, max, req) ==
      if Get(req.headers, "grpc-encoding") == Some(Name(e))
      then Http(req.headers - {"grpc-encoding"}, Drain(Config(e, Decompress, max), Init(req.body)))
      else req
  {
  }

  /**
   What any client gets back for the service's answer, whatever encoding its own request had: if and only if it
   accepts ours, the answer is labelled and compressed, and a matching receiver gets the original messages exactly
   when all of them survive; otherwise it gets the service's answer unchanged.
   */
  lemma ResponseToAnyClient<E>(e: Encoding, cap: usize, req: Http, service: Http -> Result<Http, E>,
                               ms: seq<Message>, trailers: Option<Metadata>, wire: seq<Event>, max: usize)
    requires Lawful(e)
    requires var answer := service(ServerRequest(e, cap, req)); answer.Ok? ==> Meaning(answer.value.body) == Whole(ms, trailers)
    requires var r := ServerCall(e, cap, service, req); r.Ok? ==> Meaning(wire) == Meaning(r.value.body)
    ensures var answer, r := service(ServerRequest(e, cap, req)), ServerCall(e, cap, service, req);
      if answer.Err? || !AcceptEncodingContains(req.headers, Name(e)) then r == answer
      else
        && r.Ok?
        && r.value.headers == answer.value.headers["grpc-encoding" := [Name(e)]]
        && (Drain(Config(e, Decompress, max), Init(wire)) == Delivered(ms, trailers) <==> AllSurvive(e, max, ms))
  {
    var answer := service(ServerRequest(e, cap, req));
    if answer.Ok? && AcceptEncodingContains(req.headers, Name(e)) {
      RoundTripExact(e, cap, max, ms, trailers, answer.value.body, wire);
    }
  }

  /**
   What the caller gets, whatever the server: the request always goes out compressed, labelled and accepting ours
   alone, and the answer is decompressed and its label taken off if and only if it carries our name.
   */
  lemma ClientWithAnyServer<E>(e: Encoding, max: usize, req: Http, channel: Http -> Result<Http, E>)
    requires !e.NoEncoding?
    ensures var sent := Http(req.headers["grpc-encoding" := [Name(e)]]["grpc-accept-encoding" := [Name(e)]],
                             Drain(Config(e, Compress, max), Init(req.body)));
      var r := channel(sent);
      ClientCall(e, max, channel, req) ==
      if r.Ok? && Get(r.value.headers, "grpc-encoding") == Some(Name(e))
      then Ok(Http(r.value.headers - {"grpc-encoding"}, Drain(Config(e, Decompress, max), Init(r.value.body))))
      else r
  {
  }

  /** Switched off, both wrappers pass every request, response and error through as it is, whatever its headers. */
  lemma SwitchedOffIsInvisible<E>(max: usize, req: Http, inner: Http -> Result<Http, E>)
    ensures ServerCall(NoEncoding, max, inner, req) == inner(req)
    ensures ClientCall(NoEncoding, max, inner, req) == inner(req)
  {
  }

  // ----- Wrappers that do not match -----

  /**
   A server wrapper is invisible to a client whose wrapper has another encoding, or none: the service's own
   answer, or error, to the request as it was sent is what the call returns.
   */
  lemma MismatchedServerInvisible<E>(client: Encoding, server: Encoding, cap: usize, max: usize,
                                     req: Http, wire: Http, service: Http -> Result<Http, E>)
    requires client.NoEncoding? || WireName(client) != WireName(server)
    requires client.NoEncoding? ==> ENCODING !in req.headers && ACCEPT !in req.headers
    requires Delivers(ClientRequest(client, cap, req), wire)
    ensures ServerCall(server, max, service, wire) == service(wire)
  {
    if !client.NoEncoding? && !server.NoEncoding? {
      var name := WireName(client).value;
      assert ENCODING != ACCEPT by { assert ENCODING[5] != ACCEPT[5]; }
      WireNameIsToken(client);
      WireNameReadable(client, req.headers);
      AcceptsOnly(Insert(req.headers, ENCODING, name), name, WireName(server).value);
    }
  }
}
