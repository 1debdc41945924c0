/**
 The streaming (de)compression adapter: accumulates the inner body's bytes, cuts
 out complete messages, and re-frames each one (de)compressed.
 */
module CompressionAdapter {
  import opened Wrappers
  import opened Framing
  import opened Codec
  import opened Body

  datatype Direction = Compress | Decompress

  function MatchingFlag(d: Direction): byte {
    match d
    case Compress => 0
    case Decompress => 1
  }

  datatype Config = Config(encoding: Encoding, direction: Direction, max: usize)

  function DecodeErrorCode(e: DecodeError): Code {
    match e
    case SizeExceeded => ResourceExhausted
    case Corrupt => Internal
  }

  /** The declared length exceeds the cap by more than the headroom band. */
  predicate Guarded(cfg: Config, len: nat) {
    cfg.direction.Decompress? && SaturatingSub(len, cfg.max) > Headroom(cfg.max)
  }

  /** What becomes of one complete message. */
  function Transformed(cfg: Config, m: Message): Result<Message, Code> {
    if m.flag != MatchingFlag(cfg.direction) then Ok(m)
    else
      var payload :=
        match cfg.direction
        case Compress =>
          (match CompressBytes(cfg.encoding, m.payload)
           case Some(b) => Ok(b)
           case None => Err(Internal))
        case Decompress =>
          (match DecompressedBytes(cfg.encoding, m.payload, cfg.max)
           case Ok(b) => Ok(b)
           case Err(e) => Err(DecodeErrorCode(e)));
      match payload
      case Err(c) => Err(c)
      case Ok(b) =>
        if |b| < U32_LIMIT then Ok(Msg(1 - MatchingFlag(cfg.direction), b)) else Err(Internal)
  }

  // ----- One poll, as a function of the adapter's state -----

  datatype State = State(buf: Bytes, done: bool, script: seq<Event>)

  /** The state after a poll, what it yielded (None is the end), and the message it cut, if any. */
  datatype Polled = Polled(next: State, out: Option<Event>, cut: seq<Message>)

  function Yield(r: Result<Message, Code>): Event {
    match r
    case Ok(m) => Data(Frame(m))
    case Err(c) => Error(c)
  }

  function Poll(cfg: Config, st: State): (p: Polled)
    ensures |p.next.script| <= |st.script|
    decreases |st.script|, !st.done
  {
    var h := ReadFrameHeader(st.buf);
    if h.Some? && Guarded(cfg, h.value.len) then Polled(st, Some(Error(ResourceExhausted)), [])
    else if !Incomplete(st.buf) then
      var end := GRPC_FRAME_HEADER_LEN + h.value.len;
      var m: Message := Msg(h.value.flag, st.buf[GRPC_FRAME_HEADER_LEN..end]);
      Polled(st.(buf := st.buf[end..]), Some(Yield(Transformed(cfg, m))), [m])
    else if st.done then
      Polled(st, if st.buf == [] then None else Some(Error(Internal)), [])
    else if st.script == [] then Poll(cfg, st.(done := true))
    else
      var rest := st.(script := st.script[1..]);
      match st.script[0]
      case Data(d) => Poll(cfg, rest.(buf := st.buf + d))
      case Trailers(_) => Polled(rest, Some(if st.buf == [] then st.script[0] else Error(Internal)), [])
      case Error(_) => Polled(rest, Some(st.script[0]), [])
      case Pending => Polled(rest, Some(Pending), [])
  }

  /** Nothing is left to yield and the inner body has ended. */
  predicate AtEnd(st: State) {
    st.done && st.buf == []
  }

  class CompressionBody {
    const cfg: Config
    const inner: ScriptedBody
    var buf: Bytes
    var innerDone: bool

    /** The inner body has been seen to end exactly when it was asked past its end, and that is once. */
    ghost predicate Valid()
      reads this, inner
    {
      && (innerDone ==> inner.script == [])
      && inner.endPolls == if innerDone then 1 else 0
    }

    ghost function View(): State
      reads this, inner
    {
      State(buf, innerDone, inner.script)
    }

    constructor (inner: ScriptedBody, encoding: Encoding, direction: Direction, max: usize)
      requires inner.endPolls == 0
      ensures Valid() && this.inner == inner
      ensures cfg == Config(encoding, direction, max)
      ensures View() == State([], false, inner.script)
    {
      this.inner := inner;
      cfg := Config(encoding, direction, max);
      buf, innerDone := [], false;
    }

    method TransformOne(flag: byte, payload: Bytes) returns (r: Result<Bytes, Code>)
      requires |payload| < U32_LIMIT
      ensures var t := Transformed(cfg, Msg(flag, payload));
        r == if t.Ok? then Ok(Frame(t.value)) else Err(t.error)
    {
      var matching := MatchingFlag(cfg.direction);
      if flag != matching {
        r := Reframe(flag, payload);
        return;
      }
      var transformed: Bytes;
      match cfg.direction {
        case Compress =>
          var b := CompressBytes(cfg.encoding, payload);
          if b.None? {
            return Err(Internal);
          }
          transformed := b.value;
        case Decompress =>
          var b := DecompressBytes(cfg.encoding, payload, cfg.max);
          if b.Err? {
            return Err(DecodeErrorCode(b.error));
          }
          transformed := b.value;
      }
      r := Reframe(1 - matching, transformed);
    }

    method PollFrame() returns (r: Option<Event>)
      requires Valid()
      modifies this, inner
      ensures Valid()
      ensures View() == Poll(cfg, old(View())).next
      ensures r == Poll(cfg, old(View())).out
    {
      while true
        invariant Valid()
        invariant Poll(cfg, View()) == Poll(cfg, old(View()))
        decreases |inner.script|, !innerDone
      {
        var h := ReadFrameHeader(buf);
        if h.Some? {
          if Guarded(cfg, h.value.len) {
            return Some(Error(ResourceExhausted));
          }
          var total := GRPC_FRAME_HEADER_LEN + h.value.len;
          if |buf| >= total {
            var payload := buf[GRPC_FRAME_HEADER_LEN..total];
            buf := buf[total..];
            var out := TransformOne(h.value.flag, payload);
            return Some(match out case Ok(f) => Data(f) case Err(c) => Error(c));
          }
        }
        if innerDone {
          return if buf == [] then None else Some(Error(Internal));
        }
        var frame := inner.Poll();
        match frame {
          case None =>
            innerDone := true;
          case Some(Data(d)) =>
            buf := buf + d;
          case Some(Trailers(t)) =>
            return if buf == [] then frame else Some(Error(Internal));
          case Some(Error(_)) =>
            return frame;
          case Some(Pending) =>
            return frame;
        }
      }
    }

    predicate IsEndStream()
      reads this, inner
      ensures IsEndStream() <==> innerDone && Poll(cfg, View()) == Polled(View(), None, [])
    {
      innerDone && buf == []
    }
  }
}
