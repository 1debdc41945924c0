/**
 The gRPC Length-Prefixed-Message format: one Compressed-Flag byte, a 4-byte
 big-endian Message-Length, and the message itself.  `Parse` is the reference
 parser that both incremental parsers of the crate are measured against.
 */
module Framing {
  import opened Wrappers

  type byte = b: int | 0 <= b < 256
  type Bytes = seq<byte>

  const GRPC_FRAME_HEADER_LEN: nat := 5
  const U32_LIMIT: nat := 0x1_0000_0000

  /** A status code; the message text is not modelled. */
  datatype Code = ResourceExhausted | Internal | Unavailable | DeadlineExceeded | Other(n: nat)

  datatype Header = Header(flag: byte, len: nat)

  datatype RawMessage = Msg(flag: byte, payload: Bytes)

  /** A message whose length fits the 4-byte length field. */
  type Message = m: RawMessage | |m.payload| < U32_LIMIT witness Msg(0, [])

  function FromBe(b: Bytes): (n: nat)
    requires |b| == 4
    ensures n < U32_LIMIT
  {
    ((b[0] as int * 256 + b[1] as int) * 256 + b[2] as int) * 256 + b[3] as int
  }

  function ToBe(n: nat): (b: Bytes)
    requires n < U32_LIMIT
    ensures |b| == 4
    ensures FromBe(b) == n
  {
    var n1 := n / 256;
    var n2 := n1 / 256;
    [n2 / 256, n2 % 256, n1 % 256, n % 256]
  }

  lemma LastDigit(p: nat, q: nat, x: byte, y: byte)
    requires p * 256 + x as int == q * 256 + y as int
    ensures p == q && x == y
  {
  }

  lemma FromBeInjective(a: Bytes, b: Bytes)
    requires |a| == |b| == 4
    requires FromBe(a) == FromBe(b)
    ensures a == b
  {
    var a1, b1 := a[0] as int * 256 + a[1] as int, b[0] as int * 256 + b[1] as int;
    LastDigit(a1 * 256 + a[2] as int, b1 * 256 + b[2] as int, a[3], b[3]);
    LastDigit(a1, b1, a[2], b[2]);
    LastDigit(a[0] as int, b[0] as int, a[1], b[1]);
  }

  function ReadFrameHeader(bytes: Bytes): (r: Option<Header>)
    ensures r.Some? <==> GRPC_FRAME_HEADER_LEN <= |bytes|
    ensures r.Some? ==> r.value.len < U32_LIMIT
  {
    if |bytes| < GRPC_FRAME_HEADER_LEN then None
    else Some(Header(bytes[0], FromBe(bytes[1..GRPC_FRAME_HEADER_LEN])))
  }

  function Frame(m: Message): (f: Bytes)
    ensures |f| == GRPC_FRAME_HEADER_LEN + |m.payload|
  {
    [m.flag] + ToBe(|m.payload|) + m.payload
  }

  /** The layout of a header, byte by byte: the flag, then the length with its most significant byte first. */
  lemma HeaderBytes(f: byte, a: byte, b: byte, c: byte, d: byte, rest: Bytes)
    ensures ReadFrameHeader([f, a, b, c, d] + rest)
         == Some(Header(f, a as int * 0x100_0000 + b as int * 0x1_0000 + c as int * 0x100 + d as int))
  {
    assert ([f, a, b, c, d] + rest)[1..5] == [a, b, c, d];
  }

  /** The layout of a frame: five bytes of header, with the same weights, and then the payload. */
  lemma FrameBytes(m: Message)
    ensures |Frame(m)| == 5 + |m.payload|
    ensures Frame(m)[0] == m.flag && Frame(m)[5..] == m.payload
    ensures |m.payload| == Frame(m)[1] as int * 0x100_0000 + Frame(m)[2] as int * 0x1_0000
                           + Frame(m)[3] as int * 0x100 + Frame(m)[4] as int
  {
    var n := ToBe(|m.payload|);
    assert n == [n[0], n[1], n[2], n[3]];
  }

  /** Builds one frame in a growing buffer; too long a payload is an error, never a truncated length. */
  method Reframe(flag: byte, payload: Bytes) returns (r: Result<Bytes, Code>)
    ensures r == if |payload| < U32_LIMIT then Ok(Frame(Msg(flag, payload))) else Err(Internal)
  {
    if |payload| >= U32_LIMIT {
      return Err(Internal);
    }
    var out: Bytes := [];
    out := out + [flag];
    out := out + ToBe(|payload|);
    out := out + payload;
    var m: Message := Msg(flag, payload);
    assert out == Frame(m);
    return Ok(out);
  }

  /** Reading the header of a frame gives back its flag and length, whatever follows it. */
  lemma HeaderOfFrame(m: Message, rest: Bytes)
    ensures ReadFrameHeader(Frame(m) + rest) == Some(Header(m.flag, |m.payload|))
    ensures (Frame(m) + rest)[GRPC_FRAME_HEADER_LEN..GRPC_FRAME_HEADER_LEN + |m.payload|] == m.payload
    ensures (Frame(m) + rest)[GRPC_FRAME_HEADER_LEN + |m.payload|..] == rest
  {
    var f := Frame(m) + rest;
    assert f[1..GRPC_FRAME_HEADER_LEN] == ToBe(|m.payload|);
  }

  /** A frame is determined by the header bytes it starts with: the converse of HeaderOfFrame. */
  lemma FrameOfHeader(bytes: Bytes, h: Header)
    requires ReadFrameHeader(bytes) == Some(h)
    requires GRPC_FRAME_HEADER_LEN + h.len <= |bytes|
    ensures bytes == Frame(Msg(h.flag, bytes[GRPC_FRAME_HEADER_LEN..GRPC_FRAME_HEADER_LEN + h.len]))
                     + bytes[GRPC_FRAME_HEADER_LEN + h.len..]
  {
    var m: Message := Msg(h.flag, bytes[GRPC_FRAME_HEADER_LEN..GRPC_FRAME_HEADER_LEN + h.len]);
    FromBeInjective(ToBe(h.len), bytes[1..GRPC_FRAME_HEADER_LEN]);
    var f := Frame(m);
    assert f[..1] == bytes[..1];
    assert f[1..GRPC_FRAME_HEADER_LEN] == bytes[1..GRPC_FRAME_HEADER_LEN];
    assert f[GRPC_FRAME_HEADER_LEN..] == bytes[GRPC_FRAME_HEADER_LEN..GRPC_FRAME_HEADER_LEN + h.len];
    assert f == f[..1] + f[1..GRPC_FRAME_HEADER_LEN] + f[GRPC_FRAME_HEADER_LEN..];
  }

  // ----- The reference parser -----

  /** No complete message starts `bytes`. */
  predicate Incomplete(bytes: Bytes) {
    var h := ReadFrameHeader(bytes);
    h.Some? ==> |bytes| < GRPC_FRAME_HEADER_LEN + h.value.len
  }

  datatype Parsed = Parsed(messages: seq<Message>, tail: Bytes)

  function Serialize(ms: seq<Message>): Bytes {
    if ms == [] then [] else Frame(ms[0]) + Serialize(ms[1..])
  }

  function Parse(bytes: Bytes): Parsed
    decreases |bytes|
  {
    if Incomplete(bytes) then Parsed([], bytes)
    else
      var h := ReadFrameHeader(bytes).value;
      var end := GRPC_FRAME_HEADER_LEN + h.len;
      var m: Message := Msg(h.flag, bytes[GRPC_FRAME_HEADER_LEN..end]);
      var p := Parse(bytes[end..]);
      Parsed([m] + p.messages, p.tail)
  }

  /** Peeling one frame off the front. */
  lemma ParseFrame(m: Message, rest: Bytes)
    ensures !Incomplete(Frame(m) + rest)
    ensures Parse(Frame(m) + rest) == Parsed([m] + Parse(rest).messages, Parse(rest).tail)
  {
    HeaderOfFrame(m, rest);
  }

  lemma {:induction false} SerializeAppend(a: seq<Message>, b: seq<Message>)
    ensures Serialize(a + b) == Serialize(a) + Serialize(b)
  {
    if a == [] {
      assert a + b == b;
    } else {
      SerializeAppend(a[1..], b);
      assert (a + b)[1..] == a[1..] + b;
      Associative(Frame(a[0]), Serialize(a[1..]), Serialize(b));
    }
  }

  lemma SerializeCons(m: Message, ms: seq<Message>, tail: Bytes)
    ensures Serialize([m] + ms) + tail == Frame(m) + (Serialize(ms) + tail)
  {
    assert ([m] + ms)[1..] == ms;
    assert Frame(m) + Serialize(ms) + tail == Frame(m) + (Serialize(ms) + tail);
  }

  /** Parsing loses nothing: messages and tail spell the input, and the tail holds no message. */
  lemma {:induction false} ParseSound(bytes: Bytes)
    ensures Serialize(Parse(bytes).messages) + Parse(bytes).tail == bytes
    ensures Incomplete(Parse(bytes).tail)
    decreases |bytes|
  {
    if Incomplete(bytes) {
      assert Serialize([]) + bytes == bytes;
    } else {
      var h := ReadFrameHeader(bytes).value;
      var end := GRPC_FRAME_HEADER_LEN + h.len;
      var m: Message := Msg(h.flag, bytes[GRPC_FRAME_HEADER_LEN..end]);
      var q := Parse(bytes[end..]);
      FrameOfHeader(bytes, h);
      ParseSound(bytes[end..]);
      SerializeCons(m, q.messages, q.tail);
    }
  }

  /** Parsing is the only way to split a byte string into messages and an incomplete tail. */
  lemma {:induction false} ParseUnique(ms: seq<Message>, tail: Bytes)
    requires Incomplete(tail)
    ensures Parse(Serialize(ms) + tail) == Parsed(ms, tail)
  {
    if ms == [] {
      assert Serialize(ms) + tail == tail;
    } else {
      ParseUnique(ms[1..], tail);
      assert Serialize(ms) + tail == Frame(ms[0]) + (Serialize(ms[1..]) + tail);
      ParseFrame(ms[0], Serialize(ms[1..]) + tail);
    }
  }

  lemma ParseAfter(ms: seq<Message>, bytes: Bytes)
    ensures Parse(Serialize(ms) + bytes) == Parsed(ms + Parse(bytes).messages, Parse(bytes).tail)
  {
    var p := Parse(bytes);
    ParseSound(bytes);
    SerializeAppend(ms, p.messages);
    Associative(Serialize(ms), Serialize(p.messages), p.tail);
    ParseUnique(ms + p.messages, p.tail);
  }

  /** Chunk homomorphism: parsing `a + b` is parsing `a`, then its tail followed by `b`. */
  lemma ParseAppend(a: Bytes, b: Bytes)
    ensures Parse(a + b) == Parsed(Parse(a).messages + Parse(Parse(a).tail + b).messages, Parse(Parse(a).tail + b).tail)
  {
    ParseSound(a);
    Associative(Serialize(Parse(a).messages), Parse(a).tail, b);
    ParseAfter(Parse(a).messages, Parse(a).tail + b);
  }

  // ----- Declared lengths -----

  predicate TailDeclares(tail: Bytes, limit: nat) {
    var h := ReadFrameHeader(tail);
    h.Some? && h.value.len > limit
  }

  /** Some header completed within `bytes` declares more than `limit`. */
  ghost predicate Oversized(bytes: Bytes, limit: nat) {
    var p := Parse(bytes);
    || (exists i :: 0 <= i < |p.messages| && |p.messages[i].payload| > limit)
    || TailDeclares(p.tail, limit)
  }

  /** Appending bytes never hides an oversized header. */
  lemma OversizedMonotone(a: Bytes, b: Bytes, limit: nat)
    requires Oversized(a, limit)
    ensures Oversized(a + b, limit)
  {
    var p := Parse(a);
    ParseAppend(a, b);
    var w := Parse(a + b);
    if i :| 0 <= i < |p.messages| && |p.messages[i].payload| > limit {
      assert w.messages[i] == p.messages[i];
    } else {
      var t := p.tail + b;
      assert t[1..GRPC_FRAME_HEADER_LEN] == p.tail[1..GRPC_FRAME_HEADER_LEN];
      assert ReadFrameHeader(t) == ReadFrameHeader(p.tail);
      if !Incomplete(t) {
        assert w.messages[|p.messages|] == Parse(t).messages[0];
      }
    }
  }
}
