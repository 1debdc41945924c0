/** A compressing adapter, a network that may re-fragment at will, and a decompressing adapter. */
module RoundTrip {
  import opened Wrappers
  import opened Framing
  import opened Codec
  import opened Body
  import opened CompressionAdapter
  import opened CompressionRuns

  // ----- Two adapters in a row -----

  /** One message through both adapters. */
  function Hop(send: Config, recv: Config, m: Message): Result<Message, Code> {
    match Outcome(send, m)
    case Err(c) => Err(c)
    case Ok(w) => Outcome(recv, w)
  }

  function Hops(send: Config, recv: Config, ms: seq<Message>, rest: seq<Event>): seq<Event> {
    if ms == [] then rest
    else match Hop(send, recv, ms[0])
      case Err(c) => [Error(c)]
      case Ok(m) => [Data(Frame(m))] + Hops(send, recv, ms[1..], rest)
  }

  /** What comes out of the second adapter, message by message, in terms of what went into the first. */
  function Passed(send: Config, recv: Config, s: Stream): seq<Event> {
    var p := Parse(s.bytes);
    Hops(send, recv, p.messages,
         if TailGuarded(send, p.tail) then [Error(ResourceExhausted)]
         else match s.after
           case Fails(c) => [Error(c)]
           case Ends => if p.tail == [] then [] else [Error(Internal)]
           case Continues(t, more) =>
             if p.tail == [] then [Trailers(t)] + Passed(send, recv, more) else [Error(Internal)])
  }

  lemma ErrorFront(cfg: Config, c: Code)
    ensures Reference(cfg, Meaning([Error(c)])) == [Error(c)]
  {
    assert Parse([]) == Parsed([], []);
  }

  lemma {:induction false} EmittedHops(send: Config, recv: Config, ms: seq<Message>, rest: seq<Event>)
    ensures Reference(recv, Meaning(Emitted(send, ms, rest))) == Hops(send, recv, ms, Reference(recv, Meaning(rest)))
  {
    if ms != [] {
      match Outcome(send, ms[0])
      case Err(c) =>
        ErrorFront(recv, c);
      case Ok(w) =>
        EmittedHops(send, recv, ms[1..], rest);
        var more := Emitted(send, ms[1..], rest);
        assert ([Data(Frame(w))] + more)[1..] == more;
        FrameFront(recv, w, Meaning(more));
    }
  }

  lemma {:induction false} ReferenceOfReference(send: Config, recv: Config, s: Stream)
    ensures Reference(recv, Meaning(Reference(send, s))) == Passed(send, recv, s)
    decreases s
  {
    var p := Parse(s.bytes);
    assert Parse([]) == Parsed([], []);
    if TailGuarded(send, p.tail) {
      EmittedHops(send, recv, p.messages, [Error(ResourceExhausted)]);
      ErrorFront(recv, ResourceExhausted);
    } else if s.after.Fails? {
      EmittedHops(send, recv, p.messages, [Error(s.after.code)]);
      ErrorFront(recv, s.after.code);
    } else if p.tail != [] {
      EmittedHops(send, recv, p.messages, [Error(Internal)]);
      ErrorFront(recv, Internal);
    } else if s.after.Ends? {
      EmittedHops(send, recv, p.messages, []);
    } else {
      var out := Reference(send, s.after.more);
      ReferenceOfReference(send, recv, s.after.more);
      EmittedHops(send, recv, p.messages, [Trailers(s.after.fields)] + out);
      assert ([Trailers(s.after.fields)] + out)[1..] == out;
    }
  }

  /**
   Two adapters in a row, each fed in any fragmentation, act message by message: for
   every input whatever, well formed or not, including its errors and their codes.
   */
  lemma AdaptersCompose(send: Config, recv: Config, script: seq<Event>, wire: seq<Event>)
    requires Meaning(wire) == Meaning(Drain(send, Init(script)))
    ensures Drain(recv, Init(wire)) == Passed(send, recv, Meaning(script))
  {
    DrainOfScript(send, script);
    DrainOfScript(recv, wire);
    ReferenceOfReference(send, recv, Meaning(script));
  }

  // ----- Compress, then decompress -----

  function Sender(e: Encoding, cap: usize): Config {
    Config(e, Compress, cap)
  }

  function Receiver(e: Encoding, max: usize): Config {
    Config(e, Decompress, max)
  }

  /** The messages a compressed hop delivers unchanged; everything here is known before the call. */
  predicate Survives(e: Encoding, max: usize, m: Message) {
    if m.flag == 0 then
      && |m.payload| <= max
      && CompressBytes(e, m.payload).Some?
      && |CompressBytes(e, m.payload).value| < U32_LIMIT
    else
      m.flag != 1 && |m.payload| <= max + Headroom(max)
  }

  /** The early guard never rejects a message the codec keeps within its band: `x/64 + 64` grows with `x`. */
  lemma HeadroomAdmits(e: Encoding, max: usize, len: nat, size: nat)
    requires size <= max && len <= size + Headroom(size)
    ensures !Guarded(Receiver(e, max), len)
  {
    assert size / 64 <= max / 64;
  }

  lemma HopExact(e: Encoding, cap: usize, max: usize, m: Message)
    requires Lawful(e)
    ensures Hop(Sender(e, cap), Receiver(e, max), m) == Ok(m) <==> Survives(e, max, m)
  {
    if m.flag == 0 && CompressBytes(e, m.payload).Some? {
      CompressThenDecompress(e, m.payload, max);
      if |m.payload| <= max {
        HeadroomAdmits(e, max, |CompressBytes(e, m.payload).value|, |m.payload|);
      }
    }
  }

  lemma FrameInjective(a: Message, b: Message)
    requires Frame(a) == Frame(b)
    ensures a == b
  {
    HeaderOfFrame(a, []);
    HeaderOfFrame(b, []);
    assert Frame(a) + [] == Frame(b) + [];
  }

  /** A body made of whole messages, with trailers or without. */
  function Whole(ms: seq<Message>, trailers: Option<Metadata>): Stream {
    Stream(Serialize(ms), match trailers case None => Ends case Some(t) => Continues(t, Stream([], Ends)))
  }

  function Ending(trailers: Option<Metadata>): seq<Event> {
    match trailers case None => [] case Some(t) => [Trailers(t)]
  }

  /** Each message in a data frame of its own, in order, then the trailers. */
  function Delivered(ms: seq<Message>, trailers: Option<Metadata>): seq<Event> {
    if ms == [] then Ending(trailers) else [Data(Frame(ms[0]))] + Delivered(ms[1..], trailers)
  }

  ghost predicate AllSurvive(e: Encoding, max: usize, ms: seq<Message>) {
    forall i :: 0 <= i < |ms| ==> Survives(e, max, ms[i])
  }

  lemma AllSurviveFirst(e: Encoding, max: usize, ms: seq<Message>)
    requires ms != []
    ensures AllSurvive(e, max, ms) <==> Survives(e, max, ms[0]) && AllSurvive(e, max, ms[1..])
  {
    if Survives(e, max, ms[0]) && AllSurvive(e, max, ms[1..]) {
      forall i | 0 <= i < |ms| ensures Survives(e, max, ms[i]) {
        if i > 0 {
          assert Survives(e, max, ms[1..][i - 1]);
        }
      }
    }
  }

  lemma HeadsAndTails<T>(x: T, s: seq<T>, y: T, t: seq<T>)
    ensures [x] + s == [y] + t <==> x == y && s == t
  {
    if [x] + s == [y] + t {
      assert ([x] + s)[0] == ([y] + t)[0];
      assert ([x] + s)[1..] == s;
      assert ([y] + t)[1..] == t;
    }
  }

  lemma {:induction false} HopsExact(e: Encoding, cap: usize, max: usize, ms: seq<Message>, trailers: Option<Metadata>)
    requires Lawful(e)
    ensures Hops(Sender(e, cap), Receiver(e, max), ms, Ending(trailers)) == Delivered(ms, trailers)
       <==> AllSurvive(e, max, ms)
  {
    if ms != [] {
      var hop := Hop(Sender(e, cap), Receiver(e, max), ms[0]);
      var hops, rest := Hops(Sender(e, cap), Receiver(e, max), ms[1..], Ending(trailers)), Delivered(ms[1..], trailers);
      HopExact(e, cap, max, ms[0]);
      HopsExact(e, cap, max, ms[1..], trailers);
      AllSurviveFirst(e, max, ms);
      if hop.Ok? {
        HeadsAndTails(Data(Frame(hop.value)), hops, Data(Frame(ms[0])), rest);
        if Frame(hop.value) == Frame(ms[0]) {
          FrameInjective(hop.value, ms[0]);
        }
      } else {
        assert Delivered(ms, trailers)[0] == Data(Frame(ms[0]));
      }
    }
  }

  lemma ReferenceWhole(cfg: Config, ms: seq<Message>, trailers: Option<Metadata>)
    ensures Reference(cfg, Whole(ms, trailers)) == Emitted(cfg, ms, Ending(trailers))
  {
    assert Serialize(ms) + [] == Serialize(ms);
    ParseUnique(ms, []);
    assert Parse([]) == Parsed([], []);
    assert Reference(cfg, Stream([], Ends)) == [];
  }

  lemma PassedWhole(send: Config, recv: Config, ms: seq<Message>, trailers: Option<Metadata>)
    ensures Passed(send, recv, Whole(ms, trailers)) == Hops(send, recv, ms, Ending(trailers))
  {
    assert Serialize(ms) + [] == Serialize(ms);
    ParseUnique(ms, []);
    assert Parse([]) == Parsed([], []);
  }

  /**
   End to end: for any messages, any fragmentation into the compressing adapter and any
   re-fragmentation of its output, what the decompressing adapter delivers is exactly the
   original messages and trailers if and only if every message is one that survives.
   */
  lemma RoundTripExact(e: Encoding, cap: usize, max: usize, ms: seq<Message>, trailers: Option<Metadata>,
                       script: seq<Event>, wire: seq<Event>)
    requires Lawful(e)
    requires Meaning(script) == Whole(ms, trailers)
    requires Meaning(wire) == Meaning(Drain(Sender(e, cap), Init(script)))
    ensures Drain(Receiver(e, max), Init(wire)) == Delivered(ms, trailers)
       <==> AllSurvive(e, max, ms)
  {
    AdaptersCompose(Sender(e, cap), Receiver(e, max), script, wire);
    PassedWhole(Sender(e, cap), Receiver(e, max), ms, trailers);
    HopsExact(e, cap, max, ms, trailers);
  }

  /** A message already flagged as compressed does not survive: a concrete one that fails. */
  lemma FlaggedMessageIsLost(e: Encoding, cap: usize, max: usize, payload: Bytes)
    requires |payload| < U32_LIMIT
    ensures Hop(Sender(e, cap), Receiver(e, max), Msg(1, payload)) != Ok(Msg(1, payload))
  {
  }
}
