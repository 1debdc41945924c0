/** Whole runs of the adapter: any number of polls over any inner body. */
module CompressionRuns {
  import opened Wrappers
  import opened Framing
  import opened Codec
  import opened Body
  import opened CompressionAdapter

  // ----- The reference: what a body's meaning is turned into -----

  function Outcome(cfg: Config, m: Message): Result<Message, Code> {
    if Guarded(cfg, |m.payload|) then Err(ResourceExhausted) else Transformed(cfg, m)
  }

  /** One frame per message up to the first that fails, then `rest`. */
  function Emitted(cfg: Config, ms: seq<Message>, rest: seq<Event>): seq<Event> {
    if ms == [] then rest
    else match Outcome(cfg, ms[0])
      case Err(c) => [Error(c)]
      case Ok(m) => [Data(Frame(m))] + Emitted(cfg, ms[1..], rest)
  }

  predicate TailGuarded(cfg: Config, tail: Bytes) {
    var h := ReadFrameHeader(tail);
    h.Some? && Guarded(cfg, h.value.len)
  }

  function Reference(cfg: Config, s: Stream): seq<Event>
    decreases s
  {
    var p := Parse(s.bytes);
    Emitted(cfg, p.messages, Closing(cfg, p.tail, s.after))
  }

  /** What follows the last complete message. */
  function Closing(cfg: Config, tail: Bytes, after: After): seq<Event>
    decreases after
  {
    if TailGuarded(cfg, tail) then [Error(ResourceExhausted)]
    else match after
      case Fails(c) => [Error(c)]
      case Ends => if tail == [] then [] else [Error(Internal)]
      case Continues(t, more) =>
        if tail == [] then [Trailers(t)] + Reference(cfg, more) else [Error(Internal)]
  }

  lemma EmittedFirst(cfg: Config, m: Message, ms: seq<Message>, rest: seq<Event>)
    ensures var o := Outcome(cfg, m);
      Emitted(cfg, [m] + ms, rest)
      == if o.Err? then [Error(o.error)] else [Data(Frame(o.value))] + Emitted(cfg, ms, rest)
  {
    assert ([m] + ms)[1..] == ms;
  }

  /** A whole message in front is dealt with first. */
  lemma FrameFront(cfg: Config, m: Message, s: Stream)
    ensures var o := Outcome(cfg, m);
      Reference(cfg, Stream(Frame(m) + s.bytes, s.after))
      == if o.Err? then [Error(o.error)] else [Data(Frame(o.value))] + Reference(cfg, s)
  {
    var p := Parse(s.bytes);
    ParseFrame(m, s.bytes);
    EmittedFirst(cfg, m, p.messages, Closing(cfg, p.tail, s.after));
  }

  // ----- What becomes of one message -----

  /** The guard's band in numbers; it is silent when compressing. */
  lemma GuardExact(cfg: Config, len: nat)
    ensures Guarded(cfg, len) <==> cfg.direction.Decompress? && len > cfg.max + cfg.max / 64 + 64
  {
  }

  /** Compressing: flag 0 becomes flag 1 with the library's output, or internal; any other flag passes as it is. */
  lemma CompressVerdict(cfg: Config, m: Message, w: nat)
    requires cfg.direction.Compress?
    requires 10 <= w <= 27 && (w < 27 ==> |m.payload| < Pow2(w)) && (w > 10 ==> Pow2(w - 1) <= |m.payload|)
    ensures var b := if cfg.encoding.Gzip? then cfg.encoding.gzEncode(m.payload)
                     else if cfg.encoding.Zstd? then cfg.encoding.zstdEncode(m.payload, w)
                     else Some(m.payload);
      Outcome(cfg, m) ==
      if m.flag != 0 then Ok(m)
      else if b.Some? && |b.value| < 0x1_0000_0000 then Ok(Msg(1, b.value))
      else Err(Internal)
  {
    CompressesUnder(cfg.encoding, m.payload, w);
  }

  /** Decompressing a message that is not flagged compressed: it passes as it is, or is too long. */
  lemma ForwardVerdict(cfg: Config, m: Message)
    requires cfg.direction.Decompress? && m.flag != 1
    ensures Outcome(cfg, m) == if |m.payload| > cfg.max + cfg.max / 64 + 64 then Err(ResourceExhausted) else Ok(m)
  {
  }

  predicate WindowAdmitted(e: Encoding, data: Bytes, max: nat) {
    e.Zstd? ==> e.zstdWindow(data) <= 13 || (e.zstdWindow(data) <= 27 && Pow2(e.zstdWindow(data) - 4) <= max)
  }

  /** What the library delivers for `data`, for zstd under the ceiling `c`. */
  function LibraryOutput(e: Encoding, data: Bytes, c: nat): Decoded {
    match e
    case Gzip(_, decode) => decode(data)
    case Zstd(_, decode, _) => decode(data, c)
    case NoEncoding => Decoded(data, true)
  }

  /**
   The verdict on a compressed message, for zstd under the ceiling `c`: resource_exhausted for too long a
   frame or too much output, internal for a window over the ceiling or a corrupt stream, and otherwise its
   output as a plain message.
   */
  lemma DecompressVerdict(cfg: Config, m: Message, c: nat)
    requires cfg.direction.Decompress? && Lawful(cfg.encoding) && m.flag == 1
    requires 13 <= c <= 27 && (c < 27 ==> cfg.max < Pow2(c - 3)) && (c > 13 ==> Pow2(c - 4) <= cfg.max)
    requires cfg.max < 0xFFFF_FFFF_FFFF_FFFF || |LibraryOutput(cfg.encoding, m.payload, c).output| < 0xFFFF_FFFF_FFFF_FFFF
    ensures var d := LibraryOutput(cfg.encoding, m.payload, c);
      var short := |m.payload| <= cfg.max + cfg.max / 64 + 64;
      && Outcome(cfg, m) ==
         (if !short || |d.output| > cfg.max then Err(ResourceExhausted)
          else if !d.clean || |d.output| >= 0x1_0000_0000 then Err(Internal)
          else Ok(Msg(0, d.output)))
      && (short && !WindowAdmitted(cfg.encoding, m.payload, cfg.max) ==> Outcome(cfg, m) == Err(Internal))
  {
    DecompressesUnder(cfg.encoding, m.payload, cfg.max, c);
    var d := LibraryOutput(cfg.encoding, m.payload, c);
    BoundedExact(d, cfg.max);
    if cfg.encoding.Zstd? {
      CeilingAdmits(cfg.encoding.zstdWindow(m.payload), cfg.max);
      CeilingAdmits(c, cfg.max);
      CeilingAdmits(c + 1, cfg.max);
    }
  }

  // ----- Polling to the end or the first error -----

  function Init(script: seq<Event>): State {
    State([], false, script)
  }

  function Weight(st: State): nat {
    |st.buf| + |DataBytes(st.script)| + |st.script|
  }

  lemma {:induction false} PollShrinks(cfg: Config, st: State)
    ensures var p := Poll(cfg, st);
      p.out.Some? && !p.out.value.Error? ==> Weight(p.next) < Weight(st)
    decreases |st.script|, !st.done
  {
    if Incomplete(st.buf) && !TailGuarded(cfg, st.buf) && !st.done {
      if st.script == [] {
        PollShrinks(cfg, st.(done := true));
      } else if st.script[0].Data? {
        PollShrinks(cfg, State(st.buf + st.script[0].bytes, st.done, st.script[1..]));
      }
    }
  }

  /** Every frame the adapter yields, up to its end or its first error. */
  function Drain(cfg: Config, st: State): seq<Event>
    decreases Weight(st)
  {
    var p := Poll(cfg, st);
    PollShrinks(cfg, st);
    match p.out
    case None => []
    case Some(Error(c)) => [Error(c)]
    case Some(Pending) => Drain(cfg, p.next)
    case Some(e) => [e] + Drain(cfg, p.next)
  }

  /** What a state still stands for: its buffer in front of what the inner body means. */
  function StreamOf(st: State): Stream {
    var m := Meaning(st.script);
    Stream(st.buf + m.bytes, m.after)
  }

  predicate WellFormed(st: State) {
    st.done ==> st.script == []
  }

  lemma GuardedFront(cfg: Config, buf: Bytes, more: Stream)
    requires TailGuarded(cfg, buf)
    ensures Reference(cfg, Stream(buf + more.bytes, more.after)) == [Error(ResourceExhausted)]
  {
    var all := buf + more.bytes;
    assert all[1..GRPC_FRAME_HEADER_LEN] == buf[1..GRPC_FRAME_HEADER_LEN];
    assert ReadFrameHeader(all) == ReadFrameHeader(buf);
  }

  lemma MessageFront(cfg: Config, buf: Bytes, more: Stream)
    requires !Incomplete(buf) && !TailGuarded(cfg, buf)
    ensures var p := Poll(cfg, State(buf, false, []));
      Reference(cfg, Stream(buf + more.bytes, more.after))
      == if p.out.value.Error? then [p.out.value]
         else [p.out.value] + Reference(cfg, Stream(p.next.buf + more.bytes, more.after))
  {
    var h := ReadFrameHeader(buf).value;
    var end := GRPC_FRAME_HEADER_LEN + h.len;
    var m: Message := Msg(h.flag, buf[GRPC_FRAME_HEADER_LEN..end]);
    FrameOfHeader(buf, h);
    Associative(Frame(m), buf[end..], more.bytes);
    FrameFront(cfg, m, Stream(buf[end..] + more.bytes, more.after));
  }

  /** One poll yields the head of what the state stands for, and leaves a state standing for the rest. */
  lemma {:induction false} PollFollowsReference(cfg: Config, st: State)
    requires WellFormed(st)
    ensures var p := Poll(cfg, st);
      && WellFormed(p.next)
      && Reference(cfg, StreamOf(st)) ==
         if p.out == None then []
         else if p.out.value.Error? then [p.out.value]
         else if p.out.value.Pending? then Reference(cfg, StreamOf(p.next))
         else [p.out.value] + Reference(cfg, StreamOf(p.next))
    decreases |st.script|, !st.done
  {
    if TailGuarded(cfg, st.buf) {
      GuardedFront(cfg, st.buf, Meaning(st.script));
    } else if !Incomplete(st.buf) {
      MessageFront(cfg, st.buf, Meaning(st.script));
    } else if st.done {
      assert StreamOf(st).bytes == st.buf;
    } else if st.script == [] {
      PollFollowsReference(cfg, st.(done := true));
    } else {
      var rest := st.(script := st.script[1..]);
      match st.script[0]
      case Data(d) =>
        Associative(st.buf, d, Meaning(rest.script).bytes);
        PollFollowsReference(cfg, rest.(buf := st.buf + d));
      case Pending =>
      case Error(_) =>
        assert StreamOf(st).bytes == st.buf;
      case Trailers(_) =>
        assert StreamOf(st).bytes == st.buf;
        assert [] + Meaning(rest.script).bytes == Meaning(rest.script).bytes;
    }
  }

  /** The adapter refines the reference: fragmentation and Pending never show. */
  lemma {:induction false} DrainIsReference(cfg: Config, st: State)
    requires WellFormed(st)
    ensures Drain(cfg, st) == Reference(cfg, StreamOf(st))
    decreases Weight(st)
  {
    PollFollowsReference(cfg, st);
    PollShrinks(cfg, st);
    var p := Poll(cfg, st);
    if p.out.Some? && !p.out.value.Error? {
      DrainIsReference(cfg, p.next);
    }
  }

  lemma DrainOfScript(cfg: Config, script: seq<Event>)
    ensures Drain(cfg, Init(script)) == Reference(cfg, Meaning(script))
  {
    DrainIsReference(cfg, Init(script));
    assert [] + Meaning(script).bytes == Meaning(script).bytes;
  }

  /** Two bodies that differ only in fragmentation and delay give the same frames and the same error. */
  lemma FragmentationInvisible(cfg: Config, a: seq<Event>, b: seq<Event>)
    requires Meaning(a) == Meaning(b)
    ensures Drain(cfg, Init(a)) == Drain(cfg, Init(b))
  {
    DrainOfScript(cfg, a);
    DrainOfScript(cfg, b);
  }

  // ----- Any number of polls, errors included -----

  /** The state after `n` polls, the events they took from the inner body, what they yielded, and the messages they cut. */
  datatype History = History(state: State, taken: seq<Event>, outs: seq<Option<Event>>, cut: seq<Message>)

  function Run(cfg: Config, st: State, n: nat): (h: History)
    ensures |h.outs| == n
  {
    if n == 0 then History(st, [], [], [])
    else
      var h := Run(cfg, st, n - 1);
      var p := Poll(cfg, h.state);
      History(p.next, h.taken + h.state.script[..Pulled(cfg, h.state)], h.outs + [p.out], h.cut + p.cut)
  }

  /** The buffer gives no reason to answer a poll without asking the inner body. */
  predicate Idle(cfg: Config, buf: Bytes) {
    Incomplete(buf) && !TailGuarded(cfg, buf)
  }

  /** How many events of the inner body one poll takes. */
  function Pulled(cfg: Config, st: State): (k: nat)
    ensures k <= |st.script|
  {
    |st.script| - |Poll(cfg, st).next.script|
  }

  /** The buffer after taking the first `j` events. */
  function Held(st: State, j: nat): Bytes
    requires j <= |st.script|
  {
    st.buf + DataBytes(st.script[..j])
  }

  lemma HeldAfterPull(st: State, j: nat)
    requires st.script != [] && j < |st.script|
    ensures Held(st, j + 1) == Held(State(st.buf + Carried(st.script[0]), st.done, st.script[1..]), j)
  {
    assert st.script[..j + 1][1..] == st.script[1..][..j];
    Associative(st.buf, Carried(st.script[0]), DataBytes(st.script[1..][..j]));
  }

  /**
   One poll conserves bytes: what was buffered and what it takes from the inner body is
   the frame it cuts and what it keeps; and it takes an event only while it is idle.
   */
  ghost predicate Conserves(cfg: Config, st: State) {
    var p, k := Poll(cfg, st), Pulled(cfg, st);
    && p.next.script == st.script[k..]
    && Held(st, k) == Serialize(p.cut) + p.next.buf
    && (forall j :: 0 <= j < k ==> Idle(cfg, Held(st, j)))
  }

  /** What a poll answers for a message it cuts is that message's outcome, and no other answer is data. */
  ghost predicate Answers(cfg: Config, st: State) {
    var p := Poll(cfg, st);
    if p.cut == [] then p.out.Some? ==> !p.out.value.Data?
    else |p.cut| == 1 && !Guarded(cfg, |p.cut[0].payload|) && p.out == Some(Yield(Outcome(cfg, p.cut[0])))
  }

  lemma PullConserves(cfg: Config, st: State)
    requires Idle(cfg, st.buf) && !st.done && st.script != [] && st.script[0].Data?
    requires Conserves(cfg, State(st.buf + st.script[0].bytes, st.done, st.script[1..]))
    ensures Conserves(cfg, st)
  {
    var next := State(st.buf + st.script[0].bytes, st.done, st.script[1..]);
    var k := Pulled(cfg, st);
    assert Poll(cfg, st) == Poll(cfg, next);
    HeldAfterPull(st, k - 1);
    forall j | 0 <= j < k ensures Idle(cfg, Held(st, j)) {
      if j == 0 {
        assert Held(st, 0) == st.buf;
      } else {
        HeldAfterPull(st, j - 1);
      }
    }
  }

  lemma CutConserves(cfg: Config, st: State)
    requires !Incomplete(st.buf) && !TailGuarded(cfg, st.buf)
    ensures Conserves(cfg, st)
  {
    var p := Poll(cfg, st);
    FrameOfHeader(st.buf, ReadFrameHeader(st.buf).value);
    assert Serialize(p.cut) == Frame(p.cut[0]);
    assert Held(st, 0) == st.buf;
  }

  /** Every poll, from every state, conserves bytes and answers truly. */
  lemma {:induction false} PollConserves(cfg: Config, st: State)
    ensures Conserves(cfg, st)
    ensures Answers(cfg, st)
    decreases |st.script|, !st.done
  {
    assert Held(st, 0) == st.buf;
    if Idle(cfg, st.buf) && !st.done {
      if st.script == [] {
        PollConserves(cfg, st.(done := true));
      } else if st.script[0].Data? {
        PollConserves(cfg, State(st.buf + st.script[0].bytes, st.done, st.script[1..]));
        PullConserves(cfg, st);
      } else {
        HeldAfterPull(st, 0);
      }
    } else if !Incomplete(st.buf) && !TailGuarded(cfg, st.buf) {
      CutConserves(cfg, st);
    }
  }

  /** The events taken carry exactly the frames already cut followed by the buffer. */
  ghost predicate Accounted(script: seq<Event>, h: History) {
    && script == h.taken + h.state.script
    && DataBytes(h.taken) == Serialize(h.cut) + h.state.buf
  }

  lemma PollAccounts(cfg: Config, script: seq<Event>, h: History)
    requires Accounted(script, h)
    ensures var p, more := Poll(cfg, h.state), h.state.script[..Pulled(cfg, h.state)];
      Accounted(script, History(p.next, h.taken + more, h.outs + [p.out], h.cut + p.cut))
  {
    var p, k := Poll(cfg, h.state), Pulled(cfg, h.state);
    var more := h.state.script[..k];
    PollConserves(cfg, h.state);
    assert script == (h.taken + more) + p.next.script;
    DataBytesAppend(h.taken, more);
    Regroup(Serialize(h.cut), h.state.buf, DataBytes(more), Serialize(p.cut), p.next.buf);
    SerializeAppend(h.cut, p.cut);
  }

  /** At every moment of every run, errors included, every byte is accounted for. */
  lemma {:induction false} RunConserves(cfg: Config, script: seq<Event>, n: nat)
    ensures Accounted(script, Run(cfg, Init(script), n))
  {
    if n > 0 {
      RunConserves(cfg, script, n - 1);
      PollAccounts(cfg, script, Run(cfg, Init(script), n - 1));
    }
  }

  /** The messages cut are the first ones of the parse of everything received so far; the rest are still buffered. */
  lemma CutIsParsed(cfg: Config, script: seq<Event>, n: nat)
    ensures var h := Run(cfg, Init(script), n);
      Parse(DataBytes(h.taken)) == Parsed(h.cut + Parse(h.state.buf).messages, Parse(h.state.buf).tail)
  {
    RunConserves(cfg, script, n);
    var h := Run(cfg, Init(script), n);
    ParseAfter(h.cut, h.state.buf);
  }

  /** The data frames among the outputs. */
  function DataOuts(outs: seq<Option<Event>>): seq<Event> {
    if outs == [] then []
    else
      var last := outs[|outs| - 1];
      DataOuts(outs[..|outs| - 1]) + if last.Some? && last.value.Data? then [last.value] else []
  }

  /** The frames the messages that succeed are turned into. */
  function Frames(cfg: Config, ms: seq<Message>): seq<Event> {
    if ms == [] then []
    else
      var last := Outcome(cfg, ms[|ms| - 1]);
      Frames(cfg, ms[..|ms| - 1]) + if last.Ok? then [Data(Frame(last.value))] else []
  }

  /** The data yielded, over any run, is one frame for each message cut that did not fail, in order. */
  lemma {:induction false} OutputsAreOutcomes(cfg: Config, st: State, n: nat)
    ensures var h := Run(cfg, st, n); DataOuts(h.outs) == Frames(cfg, h.cut)
  {
    if n > 0 {
      OutputsAreOutcomes(cfg, st, n - 1);
      var h := Run(cfg, st, n - 1);
      var p := Poll(cfg, h.state);
      PollConserves(cfg, h.state);
      assert (h.outs + [p.out])[..|h.outs|] == h.outs;
      if p.cut == [] {
        assert h.cut + p.cut == h.cut;
      } else {
        assert (h.cut + p.cut)[..|h.cut|] == h.cut;
      }
    }
  }

  // ----- One poll, without recursion -----

  /** While what has come in is idle, one poll takes data frame after data frame. */
  lemma {:induction false} PollTakes(cfg: Config, st: State, k: nat)
    requires !st.done && k <= |st.script|
    requires forall i :: 0 <= i < k ==> st.script[i].Data? && Idle(cfg, Held(st, i))
    ensures Poll(cfg, st) == Poll(cfg, State(Held(st, k), false, st.script[k..]))
    decreases k
  {
    assert Held(st, 0) == st.buf;
    if k > 0 {
      var next := State(st.buf + st.script[0].bytes, false, st.script[1..]);
      forall i | 0 <= i < k - 1 ensures next.script[i].Data? && Idle(cfg, Held(next, i)) {
        HeldAfterPull(st, i);
      }
      PollTakes(cfg, next, k - 1);
      HeldAfterPull(st, k - 1);
      assert next.script[k - 1..] == st.script[k..];
    }
  }

  /**
   Every answer of a poll, once it has taken the `k` data frames that left it idle: the guard before anything
   else, then a complete message, then what the inner body yields next.  An error of the inner body and a pending
   poll are passed on as they are; trailers are too unless part of a message is buffered.
   */
  lemma PollExact(cfg: Config, st: State, k: nat)
    requires !st.done && k <= |st.script|
    requires forall i :: 0 <= i < k ==> st.script[i].Data? && Idle(cfg, Held(st, i))
    ensures var p, buf, left := Poll(cfg, st), Held(st, k), st.script[k..];
      if TailGuarded(cfg, buf) then
        p == Polled(State(buf, false, left), Some(Error(ResourceExhausted)), [])
      else if !Incomplete(buf) then
        var h := ReadFrameHeader(buf).value;
        var m: Message := Msg(h.flag, buf[5..5 + h.len]);
        var o := Outcome(cfg, m);
        p == Polled(State(buf[5 + h.len..], false, left), Some(if o.Ok? then Data(Frame(o.value)) else Error(o.error)), [m])
      else if left == [] then
        p == Polled(State(buf, true, []), if buf == [] then None else Some(Error(Internal)), [])
      else if left[0].Pending? || left[0].Error? || (left[0].Trailers? && buf == []) then
        p == Polled(State(buf, false, left[1..]), Some(left[0]), [])
      else left[0].Trailers? ==>
        p == Polled(State(buf, false, left[1..]), Some(Error(Internal)), [])
  {
    PollTakes(cfg, st, k);
  }

  // ----- How large the buffer can grow -----

  ghost predicate ChunksWithin(script: seq<Event>, c: nat) {
    forall i :: 0 <= i < |script| ==> |Carried(script[i])| <= c
  }

  function PeakBuffer(max: nat, c: nat): nat {
    GRPC_FRAME_HEADER_LEN + max + Headroom(max) - 1 + c
  }

  lemma DataBytesOfOneMore(script: seq<Event>, j: nat)
    requires j < |script|
    ensures DataBytes(script[..j + 1]) == DataBytes(script[..j]) + Carried(script[j])
  {
    assert script[..j + 1] == script[..j] + [script[j]];
    DataBytesAppend(script[..j], [script[j]]);
    assert DataBytes([script[j]]) == Carried(script[j]);
  }

  lemma PollWithinPeak(cfg: Config, st: State, c: nat)
    requires cfg.direction.Decompress? && ChunksWithin(st.script, c)
    requires |st.buf| <= PeakBuffer(cfg.max, c)
    ensures forall j :: 0 <= j <= Pulled(cfg, st) ==> |Held(st, j)| <= PeakBuffer(cfg.max, c)
    ensures |Poll(cfg, st).next.buf| <= PeakBuffer(cfg.max, c)
  {
    PollConserves(cfg, st);
    forall j | 0 <= j <= Pulled(cfg, st) ensures |Held(st, j)| <= PeakBuffer(cfg.max, c) {
      if j > 0 {
        DataBytesOfOneMore(st.script, j - 1);
        assert Idle(cfg, Held(st, j - 1));
        assert |Held(st, j)| == |Held(st, j - 1)| + |Carried(st.script[j - 1])|;
      }
    }
  }

  /** In every state of every run, and at every moment of the next poll, the buffer is within the peak. */
  lemma {:induction false} BufferWithinPeak(cfg: Config, script: seq<Event>, c: nat, n: nat)
    requires cfg.direction.Decompress? && ChunksWithin(script, c)
    ensures var st := Run(cfg, Init(script), n).state;
      && |st.buf| <= PeakBuffer(cfg.max, c)
      && ChunksWithin(st.script, c)
      && forall j :: 0 <= j <= Pulled(cfg, st) ==> |Held(st, j)| <= PeakBuffer(cfg.max, c)
  {
    if n > 0 {
      BufferWithinPeak(cfg, script, c, n - 1);
      var before := Run(cfg, Init(script), n - 1).state;
      PollWithinPeak(cfg, before, c);
      PollConserves(cfg, before);
    }
    PollWithinPeak(cfg, Run(cfg, Init(script), n).state, c);
  }

  /** Each byte in a chunk of its own. */
  function Singles(bytes: Bytes): seq<Event> {
    if bytes == [] then [] else [Data(bytes[..1])] + Singles(bytes[1..])
  }

  lemma {:induction false} SinglesCarry(bytes: Bytes)
    ensures DataBytes(Singles(bytes)) == bytes
    ensures |Singles(bytes)| == |bytes|
    ensures ChunksWithin(Singles(bytes), 1)
  {
    if bytes != [] {
      var rest := Singles(bytes[1..]);
      SinglesCarry(bytes[1..]);
      assert ([Data(bytes[..1])] + rest)[1..] == rest;
      forall i | 0 <= i < |bytes| ensures |Carried(Singles(bytes)[i])| <= 1 {
        if i > 0 {
          assert Singles(bytes)[i] == rest[i - 1];
        }
      }
    }
  }

  lemma IdlePrefix(cfg: Config, a: Bytes, b: Bytes)
    requires Idle(cfg, a + b)
    ensures Idle(cfg, a)
  {
    if |a| >= GRPC_FRAME_HEADER_LEN {
      assert (a + b)[1..GRPC_FRAME_HEADER_LEN] == a[1..GRPC_FRAME_HEADER_LEN];
    }
  }

  /** While what has come in is idle, one poll takes chunk after chunk. */
  lemma {:induction false} PollTakesSingles(cfg: Config, buf: Bytes, bytes: Bytes, after: seq<Event>)
    requires Idle(cfg, buf + bytes)
    ensures Poll(cfg, State(buf, false, Singles(bytes) + after)) == Poll(cfg, State(buf + bytes, false, after))
    decreases |bytes|
  {
    if bytes == [] {
      assert Singles(bytes) + after == after && buf + bytes == buf;
    } else {
      var first, rest := bytes[..1], bytes[1..];
      var script := Singles(bytes) + after;
      assert bytes == first + rest;
      Associative(buf, first, rest);
      IdlePrefix(cfg, buf, bytes);
      assert script[0] == Data(first) && script[1..] == Singles(rest) + after;
      PollTakesSingles(cfg, buf + first, rest, after);
    }
  }

  function ShortFrame(max: nat): Bytes
    requires max + Headroom(max) < U32_LIMIT
  {
    var f := Frame(Msg(1, seq(max + Headroom(max), _ => 0)));
    f[..|f| - 1]
  }

  /** All of a longest admitted frame but its last byte, byte by byte, and then one chunk of `c` bytes. */
  function PeakScript(max: nat, c: nat): seq<Event>
    requires max + Headroom(max) < U32_LIMIT
  {
    Singles(ShortFrame(max)) + [Data(seq(c, _ => 0))]
  }

  lemma ShortFrameIdle(cfg: Config, c: Bytes)
    requires cfg.direction.Decompress? && cfg.max + Headroom(cfg.max) < U32_LIMIT && c != []
    ensures Idle(cfg, ShortFrame(cfg.max))
    ensures !Incomplete(ShortFrame(cfg.max) + c) && !TailGuarded(cfg, ShortFrame(cfg.max) + c)
  {
    var m: Message := Msg(1, seq(cfg.max + Headroom(cfg.max), _ => 0));
    var short := ShortFrame(cfg.max);
    HeaderOfFrame(m, []);
    assert Frame(m) + [] == Frame(m);
    assert short[1..GRPC_FRAME_HEADER_LEN] == Frame(m)[1..GRPC_FRAME_HEADER_LEN];
    assert (short + c)[1..GRPC_FRAME_HEADER_LEN] == short[1..GRPC_FRAME_HEADER_LEN];
  }

  lemma PollTakesLast(cfg: Config, buf: Bytes, last: Bytes)
    requires Idle(cfg, buf)
    ensures Poll(cfg, State(buf, false, [Data(last)])) == Poll(cfg, State(buf + last, false, []))
  {
    assert [Data(last)][1..] == [];
  }

  lemma PollCutsFront(cfg: Config, buf: Bytes)
    requires !Incomplete(buf)
    ensures Poll(cfg, State(buf, false, [])).next.script == []
  {
  }

  /** A body of single bytes and then a chunk is taken whole by one poll if only the chunk completes a message. */
  lemma PollTakesAll(cfg: Config, short: Bytes, last: Bytes)
    requires Idle(cfg, short) && !Incomplete(short + last)
    ensures Pulled(cfg, Init(Singles(short) + [Data(last)])) == |short| + 1
    ensures Held(Init(Singles(short) + [Data(last)]), |short| + 1) == short + last
  {
    var script := Singles(short) + [Data(last)];
    SinglesCarry(short);
    assert [] + short == short;
    PollTakesSingles(cfg, [], short, [Data(last)]);
    PollTakesLast(cfg, short, last);
    PollCutsFront(cfg, short + last);
    assert script[..|short| + 1] == script;
    DataBytesAppend(Singles(short), [Data(last)]);
    assert DataBytes([Data(last)]) == last;
    assert [] + (short + last) == short + last;
  }

  lemma ChunksOfOneThen(bytes: Bytes, last: Bytes, c: nat)
    requires c > 0 && |last| <= c
    ensures ChunksWithin(Singles(bytes) + [Data(last)], c)
  {
    SinglesCarry(bytes);
  }

  /** The peak is reached for every chunk size: one poll of this body takes all of it before it cuts anything. */
  lemma PeakReached(cfg: Config, c: nat)
    requires cfg.direction.Decompress? && cfg.max + Headroom(cfg.max) < U32_LIMIT && c > 0
    ensures var script := PeakScript(cfg.max, c);
      && ChunksWithin(script, c)
      && Pulled(cfg, Init(script)) == |script|
      && |Held(Init(script), |script|)| == PeakBuffer(cfg.max, c)
  {
    var short, last: Bytes := ShortFrame(cfg.max), seq(c, _ => 0);
    SinglesCarry(short);
    ShortFrameIdle(cfg, last);
    PollTakesAll(cfg, short, last);
    ChunksOfOneThen(short, last, c);
  }

  /** A frame yielded when decompressing carries at most `max` bytes, or the band's worth if forwarded as it came. */
  lemma YieldedWithinCap(cfg: Config, st: State)
    requires cfg.direction.Decompress? && !cfg.encoding.NoEncoding?
    requires Poll(cfg, st).out.Some? && Poll(cfg, st).out.value.Data?
    ensures |Poll(cfg, st).cut| == 1
    ensures var m := Poll(cfg, st).cut[0]; var o := Outcome(cfg, m);
      && o.Ok? && Poll(cfg, st).out == Some(Data(Frame(o.value)))
      && o.value.flag != 1
      && if m.flag == 1 then |o.value.payload| <= cfg.max
         else o.value == m && |m.payload| <= cfg.max + Headroom(cfg.max)
  {
    PollConserves(cfg, st);
    var m := Poll(cfg, st).cut[0];
    if m.flag == 1 {
      DecompressedWithinCap(cfg.encoding, m.payload, cfg.max);
    }
  }

  // ----- The end of the stream -----

  /** Yielding the end leaves the adapter at the end, and at the end it yields nothing else. */
  lemma {:induction false} EndOnlyAtEnd(cfg: Config, st: State)
    ensures Poll(cfg, st).out == None ==> AtEnd(Poll(cfg, st).next)
    ensures AtEnd(st) ==> Poll(cfg, st) == Polled(st, None, [])
    decreases |st.script|, !st.done
  {
    if Idle(cfg, st.buf) && !st.done {
      if st.script == [] {
        EndOnlyAtEnd(cfg, st.(done := true));
      } else if st.script[0].Data? {
        EndOnlyAtEnd(cfg, State(st.buf + st.script[0].bytes, st.done, st.script[1..]));
      }
    }
  }

  /** A state whose next poll changes nothing yields the same thing forever. */
  lemma {:induction false} StuckForever(cfg: Config, st: State, n: nat)
    requires Poll(cfg, st).next == st && Poll(cfg, st).cut == []
    ensures Run(cfg, st, n) == History(st, [], seq(n, _ => Poll(cfg, st).out), [])
  {
    if n > 0 {
      StuckForever(cfg, st, n - 1);
      var out := Poll(cfg, st).out;
      assert seq(n, _ => out) == seq(n - 1, _ => out) + [out];
    }
  }

  /** Once the adapter says it is at the end, this poll and every later one yield the end. */
  lemma EndIsForever(cfg: Config, st: State, n: nat)
    requires AtEnd(st)
    ensures Run(cfg, st, n) == History(st, [], seq(n, _ => None), [])
  {
    EndOnlyAtEnd(cfg, st);
    StuckForever(cfg, st, n);
    assert seq(n, _ => Poll(cfg, st).out) == seq(n, _ => None);
  }

  /** A body that ended inside a message is an error on this poll and every later one. */
  lemma TruncationIsForever(cfg: Config, st: State, n: nat)
    requires st.done && st.buf != [] && Incomplete(st.buf)
    ensures var code := if TailGuarded(cfg, st.buf) then ResourceExhausted else Internal;
      Run(cfg, st, n) == History(st, [], seq(n, _ => Some(Error(code))), [])
  {
    var code := if TailGuarded(cfg, st.buf) then ResourceExhausted else Internal;
    StuckForever(cfg, st, n);
    assert seq(n, _ => Poll(cfg, st).out) == seq(n, _ => Some(Error(code)));
  }

  /** A declared length over the band is rejected on the header alone, forever, and nothing more is read. */
  lemma GuardIsForever(cfg: Config, st: State, n: nat)
    requires TailGuarded(cfg, st.buf)
    ensures Run(cfg, st, n) == History(st, [], seq(n, _ => Some(Error(ResourceExhausted))), [])
  {
    StuckForever(cfg, st, n);
    assert seq(n, _ => Poll(cfg, st).out) == seq(n, _ => Some(Error(ResourceExhausted)));
  }

  lemma {:induction false} DoneMeansExhausted(cfg: Config, script: seq<Event>, n: nat)
    ensures WellFormed(Run(cfg, Init(script), n).state)
  {
    if n > 0 {
      DoneMeansExhausted(cfg, script, n - 1);
      PollFollowsReference(cfg, Run(cfg, Init(script), n - 1).state);
    }
  }

  /** A run that yields the end has cut every byte of the body into messages, whatever errors came before. */
  lemma CleanEndAccountsForEveryByte(cfg: Config, script: seq<Event>, n: nat)
    requires n > 0 && Run(cfg, Init(script), n).outs[n - 1] == None
    ensures var h := Run(cfg, Init(script), n);
      h.state.script == [] && DataBytes(script) == Serialize(h.cut)
  {
    var h := Run(cfg, Init(script), n);
    EndOnlyAtEnd(cfg, Run(cfg, Init(script), n - 1).state);
    DoneMeansExhausted(cfg, script, n);
    RunConserves(cfg, script, n);
    assert h.taken == script;
  }
}
