/**
 The served stack: the receive limiter always sits outside the compression wrapper, so
 the decompressing adapter reads what the limiter lets through.
 */
module ServedStack {
  import opened Wrappers
  import opened Framing
  import opened Codec
  import opened Body
  import opened CompressionAdapter
  import opened CompressionRuns
  import opened RoundTrip
  import opened FrameScanner
  import RecvLimit

  // ----- One wire format, two parsers -----

  /**
   At any moment of any run, the scanner fed the same bytes as the adapter stands where the adapter
   does: between messages together, in the same header, with the same payload bytes to come; and it
   has failed exactly when a message the adapter cut, or the header it holds, declares too much.
   */
  lemma ParsersAgree(cfg: Config, script: seq<Event>, n: nat, max: nat)
    requires Incomplete(Run(cfg, Init(script), n).state.buf)
    ensures var h := Run(cfg, Init(script), n);
      var buf, r := h.state.buf, Scan(DataBytes(h.taken), START, max);
      && (r.ok <==> !TailDeclares(buf, max) && forall i :: 0 <= i < |h.cut| ==> |h.cut[i].payload| <= max)
      && (r.ok && buf == [] ==> r.state == START || r.state == InPayload(0))
      && (r.ok && 0 < |buf| < GRPC_FRAME_HEADER_LEN ==> r.state == PartialHeader(buf))
      && (r.ok && |buf| >= GRPC_FRAME_HEADER_LEN ==>
            r.state.InPayload? && r.state.remaining > 0
            && |buf| + r.state.remaining == GRPC_FRAME_HEADER_LEN + ReadFrameHeader(buf).value.len)
  {
    CutIsParsed(cfg, script, n);
    var h := Run(cfg, Init(script), n);
    var received := DataBytes(h.taken);
    assert Parse(h.state.buf) == Parsed([], h.state.buf);
    assert h.cut + [] == h.cut;
    ScanExact(received, max);
    assert Parse(received) == Parsed(h.cut, h.state.buf);
  }

  // ----- What the limiter lets through never trips the adapter's guard -----

  /** What polling the rebuilt body yields behind the replayed frames, errors and all. */
  function Filtered(script: seq<Event>, s: ScanState, max: nat): seq<Event> {
    if script == [] then []
    else if script[0].Data? then
      var r := Scan(script[0].bytes, s, max);
      [if r.ok then script[0] else Error(ResourceExhausted)] + Filtered(script[1..], r.state, max)
    else [script[0]] + Filtered(script[1..], s, max)
  }

  function AfterPolls(st: RecvLimit.State, max: nat, n: nat): RecvLimit.State
    decreases n
  {
    if n == 0 then st else AfterPolls(RecvLimit.PollPrefetched(st, max).0, max, n - 1)
  }

  /** All that polling the rebuilt body will yield. */
  function Upcoming(st: RecvLimit.State, max: nat): seq<Event> {
    st.buffered + Filtered(st.script, st.scan, max)
  }

  lemma PollYieldsNext(st: RecvLimit.State, max: nat)
    ensures var (next, out) := RecvLimit.PollPrefetched(st, max);
      if Upcoming(st, max) == [] then out == None && Upcoming(next, max) == []
      else out == Some(Upcoming(st, max)[0]) && Upcoming(next, max) == Upcoming(st, max)[1..]
  {
  }

  /** Poll `n` of the rebuilt body yields event `n`, and past them all the end. */
  lemma {:induction false} RebuiltBodyYields(st: RecvLimit.State, max: nat, n: nat)
    ensures RecvLimit.PollPrefetched(AfterPolls(st, max, n), max).1
         == if n < |Upcoming(st, max)| then Some(Upcoming(st, max)[n]) else None
    decreases n
  {
    PollYieldsNext(st, max);
    if n > 0 {
      RebuiltBodyYields(RecvLimit.PollPrefetched(st, max).0, max, n - 1);
    }
  }

  lemma {:induction false} NothingAfterRejection(script: seq<Event>, s: ScanState, max: nat)
    requires s.PartialHeader? && |s.buf| == GRPC_FRAME_HEADER_LEN
    ensures DataBytes(Filtered(script, s, max)) == []
  {
    if script != [] {
      NothingAfterRejection(script[1..], s, max);
      var out := Filtered(script, s, max);
      assert out[1..] == Filtered(script[1..], s, max);
      assert Carried(out[0]) == [];
    }
  }

  lemma {:induction false} FilteredLength(script: seq<Event>, s: ScanState, max: nat)
    ensures |Filtered(script, s, max)| == |script|
  {
    if script != [] {
      var r := if script[0].Data? then Scan(script[0].bytes, s, max) else Scanned(true, s);
      FilteredLength(script[1..], r.state, max);
    }
  }

  lemma {:induction false} RejectedEvent(script: seq<Event>, s: ScanState, max: nat, i: nat)
    requires s.PartialHeader? && |s.buf| == GRPC_FRAME_HEADER_LEN && i < |script|
    ensures |Filtered(script, s, max)| == |script|
    ensures Filtered(script, s, max)[i] ==
      if script[i].Data? && script[i].bytes != [] then Error(ResourceExhausted) else script[i]
  {
    FilteredLength(script, s, max);
    if i > 0 {
      RejectedEvent(script[1..], s, max, i - 1);
    }
  }

  lemma {:induction false} FilteredNeverOversized(before: Bytes, script: seq<Event>, max: nat)
    requires !Oversized(before, max)
    ensures !Oversized(before + DataBytes(Filtered(script, Position(before), max)), max)
    decreases |script|
  {
    var out := Filtered(script, Position(before), max);
    if script == [] {
      assert before + DataBytes(out) == before;
    } else {
      var d := Carried(script[0]);
      ScanExact(before, max);
      ScanExact(before + d, max);
      ScanAppend(before, d, START, max);
      var r := Scan(d, Position(before), max);
      if r.ok {
        assert out == [script[0]] + Filtered(script[1..], Position(before + d), max) by {
          assert !script[0].Data? ==> before + d == before;
        }
        FilteredNeverOversized(before + d, script[1..], max);
        assert out[1..] == Filtered(script[1..], Position(before + d), max);
        Associative(before, d, DataBytes(out[1..]));
      } else {
        RejectedState(before + d, START, max);
        NothingAfterRejection(script[1..], r.state, max);
        assert out[1..] == Filtered(script[1..], r.state, max);
        assert before + DataBytes(out) == before;
      }
    }
  }

  /**
   Event by event: what streams through a rebuilt body is unchanged but for each chunk, not empty, with which
   the bytes so far hold an oversized header; that chunk, and each such after it, becomes resource_exhausted.
   */
  lemma {:induction false} FilteredExact(before: Bytes, script: seq<Event>, max: nat, i: nat)
    requires !Oversized(before, max) && i < |script|
    ensures |Filtered(script, Position(before), max)| == |script|
    ensures var e := script[i];
      Filtered(script, Position(before), max)[i] ==
      if e.Data? && e.bytes != [] && Oversized(before + DataBytes(script[..i + 1]), max)
      then Error(ResourceExhausted) else e
    decreases i
  {
    var d := Carried(script[0]);
    var r := Scan(d, Position(before), max);
    ScanExact(before, max);
    ScanExact(before + d, max);
    ScanAppend(before, d, START, max);
    FilteredLength(script, Position(before), max);
    assert script[..i + 1][1..] == script[1..][..i];
    Associative(before, d, DataBytes(script[1..][..i]));
    assert before + [] == before;
    if i == 0 {
      assert DataBytes(script[1..][..0]) == [];
      assert before + DataBytes(script[..1]) == before + d;
    } else if r.ok {
      FilteredExact(before + d, script[1..], max, i - 1);
    } else {
      RejectedState(before + d, START, max);
      RejectedEvent(script[1..], r.state, max, i - 1);
      OversizedMonotone(before + d, DataBytes(script[1..][..i]), max);
    }
  }

  predicate Admits(script: seq<Event>, limit: nat) {
    var p := RecvLimit.Prefetch(script, 0);
    p.Fetched? && Scan(DataBytes(p.frames), START, limit).ok
  }

  /** Everything polling the rebuilt body of an admitted request yields. */
  function Rebuilt(script: seq<Event>, limit: nat): seq<Event>
    requires Admits(script, limit)
  {
    var p := RecvLimit.Prefetch(script, 0);
    p.frames + Filtered(p.rest, Scan(DataBytes(p.frames), START, limit).state, limit)
  }

  lemma RebuiltNeverOversized(script: seq<Event>, limit: nat)
    requires Admits(script, limit)
    ensures !Oversized(DataBytes(Rebuilt(script, limit)), limit)
  {
    var p := RecvLimit.Prefetch(script, 0);
    ScanExact(DataBytes(p.frames), limit);
    FilteredNeverOversized(DataBytes(p.frames), p.rest, limit);
    DataBytesAppend(p.frames, Filtered(p.rest, Position(DataBytes(p.frames)), limit));
  }

  lemma PartsWithinLimit(ms: seq<Message>, buf: Bytes, limit: nat)
    requires !Oversized(Serialize(ms) + buf, limit)
    ensures forall i :: 0 <= i < |ms| ==> |ms[i].payload| <= limit
    ensures !TailDeclares(buf, limit)
  {
    var q := Parse(buf);
    ParseAfter(ms, buf);
    forall i | 0 <= i < |ms| ensures |ms[i].payload| <= limit {
      assert (ms + q.messages)[i] == ms[i];
    }
    if !Incomplete(buf) {
      assert (ms + q.messages)[|ms|] == q.messages[0];
    }
  }

  lemma AccountedAhead(script: seq<Event>, h: History, j: nat)
    requires Accounted(script, h) && j <= |h.state.script|
    ensures DataBytes(script) == (Serialize(h.cut) + Held(h.state, j)) + DataBytes(h.state.script[j..])
  {
    var left := h.state.script;
    DataBytesAppend(h.taken, left);
    DataBytesSplit(left, j);
    Pushed(DataBytes(script), DataBytes(h.taken), DataBytes(left[..j]), DataBytes(left[j..]), Serialize(h.cut), h.state.buf);
  }

  /**
   In every state of every run over what the limiter lets through, errors included, and after any
   further events the next poll takes, the header held declares at most the limit: the early guard
   never fires, and no message cut is over the limit.
   */
  lemma GuardNeverFires(cfg: Config, script: seq<Event>, limit: nat, n: nat, j: nat)
    requires limit <= cfg.max && Admits(script, limit)
    requires j <= |Run(cfg, Init(Rebuilt(script, limit)), n).state.script|
    ensures var h := Run(cfg, Init(Rebuilt(script, limit)), n);
      && !TailGuarded(cfg, Held(h.state, j))
      && !TailDeclares(Held(h.state, j), limit)
      && forall i :: 0 <= i < |h.cut| ==> |h.cut[i].payload| <= limit
  {
    var h := Run(cfg, Init(Rebuilt(script, limit)), n);
    var seen := Serialize(h.cut) + Held(h.state, j);
    RebuiltNeverOversized(script, limit);
    RunConserves(cfg, Rebuilt(script, limit), n);
    AccountedAhead(Rebuilt(script, limit), h, j);
    if Oversized(seen, limit) {
      OversizedMonotone(seen, DataBytes(h.state.script[j..]), limit);
    }
    PartsWithinLimit(h.cut, Held(h.state, j), limit);
  }

  /** Every message the service is given is within the decompression cap. */
  lemma ServiceSeesAtMostCap(cfg: Config, script: seq<Event>, limit: nat, n: nat)
    requires limit <= cfg.max && cfg.direction.Decompress? && !cfg.encoding.NoEncoding?
    requires Admits(script, limit)
    requires var p := Poll(cfg, Run(cfg, Init(Rebuilt(script, limit)), n).state); p.out.Some? && p.out.value.Data?
    ensures var p := Poll(cfg, Run(cfg, Init(Rebuilt(script, limit)), n).state);
      && |p.cut| == 1 && Outcome(cfg, p.cut[0]).Ok?
      && p.out == Some(Data(Frame(Outcome(cfg, p.cut[0]).value)))
      && |Outcome(cfg, p.cut[0]).value.payload| <= cfg.max
  {
    var init := Init(Rebuilt(script, limit));
    var st := Run(cfg, init, n).state;
    YieldedWithinCap(cfg, st);
    GuardNeverFires(cfg, script, limit, n + 1, 0);
    var h := Run(cfg, init, n + 1);
    assert h.cut[|h.cut| - 1] == Poll(cfg, st).cut[0];
  }

  // ----- The round trip through the served stack -----

  /** All the bytes a body carries before it fails, and whether it does. */
  function AllBytes(s: Stream): Bytes {
    s.bytes + if s.after.Continues? then AllBytes(s.after.more) else []
  }

  predicate Failing(s: Stream) {
    match s.after
    case Ends => false
    case Fails(_) => true
    case Continues(_, more) => Failing(more)
  }

  lemma {:induction false} VisibleMeans(script: seq<Event>)
    ensures var vis := RecvLimit.Visible(script);
      && Meaning(vis) == Meaning(script)
      && DataBytes(vis) == AllBytes(Meaning(script))
      && (RecvLimit.EndsInError(vis) <==> Failing(Meaning(script)))
  {
    if script != [] {
      VisibleMeans(script[1..]);
      var more := RecvLimit.Visible(script[1..]);
      assert ([script[0]] + more)[1..] == more;
      match script[0]
      case Pending =>
      case Error(_) =>
        assert DataBytes([script[0]]) == [];
      case Trailers(_) =>
        assert [] + DataBytes(more) == DataBytes(more);
      case Data(d) =>
        var m := Meaning(script[1..]);
        Associative(d, m.bytes, if m.after.Continues? then AllBytes(m.after.more) else []);
    }
  }

  lemma {:induction false} ErrorStaysLast(cfg: Config, ms: seq<Message>, rest: seq<Event>)
    requires RecvLimit.EndsInError(rest)
    ensures RecvLimit.EndsInError(Emitted(cfg, ms, rest))
  {
    if ms != [] {
      ErrorStaysLast(cfg, ms[1..], rest);
    }
  }

  /** The adapter never hides that the body under it failed. */
  lemma {:induction false} FailureShows(cfg: Config, s: Stream)
    requires Failing(s)
    ensures RecvLimit.EndsInError(Reference(cfg, s))
    decreases s
  {
    var p := Parse(s.bytes);
    if s.after.Continues? {
      FailureShows(cfg, s.after.more);
    }
    ErrorStaysLast(cfg, p.messages, Closing(cfg, p.tail, s.after));
  }

  lemma {:induction false} DeliveredNeverFails(ms: seq<Message>, trailers: Option<Metadata>)
    ensures !RecvLimit.EndsInError(Delivered(ms, trailers))
  {
    if ms != [] {
      DeliveredNeverFails(ms[1..], trailers);
    }
  }

  /** A message as the compressing adapter puts it on the wire, when it can. */
  function Wired(e: Encoding, m: Message): Message {
    match Transformed(Sender(e, 0), m)
    case Ok(w) => w
    case Err(_) => m
  }

  function AllWired(e: Encoding, ms: seq<Message>): seq<Message> {
    if ms == [] then [] else [Wired(e, ms[0])] + AllWired(e, ms[1..])
  }

  ghost predicate FitOnWire(e: Encoding, limit: nat, ms: seq<Message>) {
    forall i :: 0 <= i < |ms| ==> |Wired(e, ms[i]).payload| <= limit
  }

  lemma {:induction false} SentWhole(e: Encoding, cap: usize, max: usize, ms: seq<Message>, trailers: Option<Metadata>)
    requires AllSurvive(e, max, ms)
    ensures Meaning(Emitted(Sender(e, cap), ms, Ending(trailers))) == Whole(AllWired(e, ms), trailers)
  {
    if ms != [] {
      AllSurviveFirst(e, max, ms);
      SentWhole(e, cap, max, ms[1..], trailers);
      var sent := Emitted(Sender(e, cap), ms[1..], Ending(trailers));
      var w := Wired(e, ms[0]);
      EmittedFirst(Sender(e, cap), ms[0], ms[1..], Ending(trailers));
      assert [ms[0]] + ms[1..] == ms;
      assert ([Data(Frame(w))] + sent)[1..] == sent;
      assert ([w] + AllWired(e, ms[1..]))[1..] == AllWired(e, ms[1..]);
    }
  }

  lemma WholeOnWire(e: Encoding, cap: usize, max: usize, ms: seq<Message>, trailers: Option<Metadata>, script: seq<Event>)
    requires AllSurvive(e, max, ms)
    requires Meaning(script) == Whole(ms, trailers)
    ensures Meaning(CompressionRuns.Drain(Sender(e, cap), Init(script))) == Whole(AllWired(e, ms), trailers)
  {
    DrainOfScript(Sender(e, cap), script);
    ReferenceWhole(Sender(e, cap), ms, trailers);
    SentWhole(e, cap, max, ms, trailers);
  }

  lemma {:induction false} AllWiredAt(e: Encoding, ms: seq<Message>)
    ensures |AllWired(e, ms)| == |ms|
    ensures forall i :: 0 <= i < |ms| ==> AllWired(e, ms)[i] == Wired(e, ms[i])
  {
    if ms != [] {
      AllWiredAt(e, ms[1..]);
      forall i | 0 <= i < |ms| ensures AllWired(e, ms)[i] == Wired(e, ms[i]) {
        if i > 0 {
          assert ms[i] == ms[1..][i - 1];
        }
      }
    }
  }

  lemma OversizedOnWire(e: Encoding, limit: nat, ms: seq<Message>)
    ensures Oversized(Serialize(AllWired(e, ms)), limit) <==> !FitOnWire(e, limit, ms)
  {
    var ws := AllWired(e, ms);
    ParseUnique(ws, []);
    assert Serialize(ws) + [] == Serialize(ws);
    AllWiredAt(e, ms);
    if i :| 0 <= i < |ws| && |ws[i].payload| > limit {
      assert |Wired(e, ms[i]).payload| > limit;
    }
    if i :| 0 <= i < |ms| && |Wired(e, ms[i]).payload| > limit {
      assert |ws[i].payload| > limit;
    }
  }

  /** A body with no oversized header and no failure is admitted and read unchanged. */
  lemma WithinLimitIsUntouched(script: seq<Event>, limit: nat)
    requires !Oversized(AllBytes(Meaning(script)), limit)
    requires !Failing(Meaning(script))
    ensures Admits(script, limit)
    ensures RecvLimit.Screened(script, START, limit) == RecvLimit.Visible(script)
  {
    var vis := RecvLimit.Visible(script);
    VisibleMeans(script);
    assert vis[..|vis|] == vis;
    forall i | 0 <= i <= |vis| ensures !Oversized(DataBytes(vis[..i]), limit) {
      DataBytesSplit(vis, i);
      if Oversized(DataBytes(vis[..i]), limit) {
        OversizedMonotone(DataBytes(vis[..i]), DataBytes(vis[i..]), limit);
      }
    }
    RecvLimit.CallExact(script, limit, |vis|);
    RecvLimit.ScreenedExact(script, limit, |vis|);
  }

  // ----- A call through limiter and decompressing adapter -----

  /** The limiter answers the call itself, or the service is called and can read these events. */
  datatype CallResult = Refused(code: Code) | Reads(events: seq<Event>)

  function StackCall(e: Encoding, max: usize, limit: nat, wire: seq<Event>): CallResult {
    if RecvLimit.Prefetch(wire, 0).Broken? then Refused(Internal)
    else if !Admits(wire, limit) then Refused(ResourceExhausted)
    else Reads(CompressionRuns.Drain(Receiver(e, max), Init(Rebuilt(wire, limit))))
  }

  lemma {:induction false} FilteredMeans(script: seq<Event>, s: ScanState, limit: nat)
    ensures Meaning(Filtered(script, s, limit)) == Meaning(RecvLimit.Screened(script, s, limit))
  {
    if script != [] {
      var r := if script[0].Data? then Scan(script[0].bytes, s, limit) else Scanned(true, s);
      FilteredMeans(script[1..], r.state, limit);
      var out := Filtered(script, s, limit);
      assert out[1..] == Filtered(script[1..], r.state, limit);
      var more := RecvLimit.Screened(script[1..], r.state, limit);
      assert ([script[0]] + more)[1..] == more;
    }
  }

  lemma SameFront(e: Event, a: seq<Event>, b: seq<Event>)
    requires Meaning(a) == Meaning(b)
    ensures Meaning([e] + a) == Meaning([e] + b)
  {
    assert ([e] + a)[1..] == a && ([e] + b)[1..] == b;
  }

  lemma {:induction false} ReplayedMeans(script: seq<Event>, have: nat, s: ScanState, limit: nat)
    requires var p := RecvLimit.Prefetch(script, have); p.Fetched? && Scan(DataBytes(p.frames), s, limit).ok
    ensures var p := RecvLimit.Prefetch(script, have);
      Meaning(p.frames + Filtered(p.rest, Scan(DataBytes(p.frames), s, limit).state, limit))
      == Meaning(RecvLimit.Screened(script, s, limit))
  {
    var p := RecvLimit.Prefetch(script, have);
    var rest := Filtered(p.rest, Scan(DataBytes(p.frames), s, limit).state, limit);
    if have >= GRPC_FRAME_HEADER_LEN || script == [] {
      FilteredMeans(script, s, limit);
      assert p.frames + rest == rest;
    } else if script[0].Pending? {
      ReplayedMeans(script[1..], have, s, limit);
    } else {
      var now := have + |Carried(script[0])|;
      var q := RecvLimit.Prefetch(script[1..], now);
      var r := Scan(Carried(script[0]), s, limit);
      RecvLimit.PrefetchCons(script, have, []);
      assert p.frames == [script[0]] + q.frames && p.rest == q.rest;
      assert ([script[0]] + q.frames)[1..] == q.frames;
      ScanAppend(Carried(script[0]), DataBytes(q.frames), s, limit);
      ReplayedMeans(script[1..], now, r.state, limit);
      Associative([script[0]], q.frames, rest);
      SameFront(script[0], q.frames + rest, RecvLimit.Screened(script[1..], r.state, limit));
    }
  }

  /** What the adapter polls is, up to fragmentation and delay, the whole body through one scan. */
  lemma RebuiltMeansScreened(wire: seq<Event>, limit: nat)
    requires Admits(wire, limit)
    ensures Meaning(Rebuilt(wire, limit)) == Meaning(RecvLimit.Screened(wire, START, limit))
  {
    ReplayedMeans(wire, 0, START, limit);
  }

  lemma {:induction false} ScreenedIsVisible(script: seq<Event>, s: ScanState, limit: nat)
    ensures var out := RecvLimit.Screened(script, s, limit); RecvLimit.Visible(out) == out
  {
    if script != [] {
      var r := if script[0].Data? then Scan(script[0].bytes, s, limit) else Scanned(true, s);
      var more := RecvLimit.Screened(script[1..], r.state, limit);
      ScreenedIsVisible(script[1..], r.state, limit);
      assert ([script[0]] + more)[1..] == more;
    }
  }

  lemma ScreenedErrorShows(e: Encoding, max: usize, limit: nat, wire: seq<Event>)
    requires RecvLimit.EndsInError(RecvLimit.Screened(wire, START, limit))
    ensures RecvLimit.EndsInError(Reference(Receiver(e, max), Meaning(RecvLimit.Screened(wire, START, limit))))
  {
    var seen := RecvLimit.Screened(wire, START, limit);
    ScreenedIsVisible(wire, START, limit);
    VisibleMeans(seen);
    FailureShows(Receiver(e, max), Meaning(seen));
  }

  /** An admitted body: with an oversized header anywhere the service meets an error; otherwise nothing is changed. */
  lemma AdmittedReads(e: Encoding, max: usize, limit: nat, wire: seq<Event>)
    requires Admits(wire, limit)
    ensures var events := CompressionRuns.Drain(Receiver(e, max), Init(Rebuilt(wire, limit)));
      if Oversized(DataBytes(RecvLimit.Visible(wire)), limit) then RecvLimit.EndsInError(events)
      else events == CompressionRuns.Drain(Receiver(e, max), Init(wire))
  {
    var vis := RecvLimit.Visible(wire);
    RebuiltMeansScreened(wire, limit);
    DrainOfScript(Receiver(e, max), Rebuilt(wire, limit));
    DrainOfScript(Receiver(e, max), wire);
    VisibleMeans(wire);
    assert !Oversized(DataBytes(vis[..0]), limit) by { assert Parse([]) == Parsed([], []); }
    var k := RecvLimit.FindFirstOversized(vis, limit, 0);
    RecvLimit.ScreenedExact(wire, limit, k);
    RecvLimit.PrefixOversized(vis, limit, k, |vis|);
    assert vis[..|vis|] == vis && vis + [] == vis;
    if k < |vis| {
      ScreenedErrorShows(e, max, limit, wire);
    }
  }

  /**
   Every call, whatever the body: refused with internal exactly for a read error before a header's worth of
   bytes, refused with resource_exhausted exactly for an oversized header within the prefetched frames, and
   otherwise the service is called, and meets an error if a header further on is oversized and reads the
   body as if the limiter were not there if none is.
   */
  lemma StackCallExact(e: Encoding, max: usize, limit: nat, wire: seq<Event>)
    ensures var r, p, vis := StackCall(e, max, limit, wire), RecvLimit.Prefetch(wire, 0), RecvLimit.Visible(wire);
      && (r == Refused(Internal) <==> RecvLimit.FailsEarly(vis))
      && (r == Refused(ResourceExhausted) <==> p.Fetched? && Oversized(DataBytes(p.frames), limit))
      && (r.Reads? && Oversized(DataBytes(vis), limit) ==> RecvLimit.EndsInError(r.events))
      && (r.Reads? && !Oversized(DataBytes(vis), limit) ==>
            r.events == CompressionRuns.Drain(Receiver(e, max), Init(wire)))
  {
    RecvLimit.EarlyFailureExactly(wire);
    var p := RecvLimit.Prefetch(wire, 0);
    if p.Fetched? {
      ScanExact(DataBytes(p.frames), limit);
      if Admits(wire, limit) {
        AdmittedReads(e, max, limit, wire);
      }
    }
  }

  lemma WholeBytes(ms: seq<Message>, trailers: Option<Metadata>)
    ensures AllBytes(Whole(ms, trailers)) == Serialize(ms)
    ensures !Failing(Whole(ms, trailers))
  {
    assert AllBytes(Stream([], Ends)) == [];
    assert Serialize(ms) + [] == Serialize(ms);
  }

  /**
   Through the whole served stack (compressing client, any re-fragmentation, receive limit, decompressing
   adapter), the service is called and reads exactly the original messages and trailers if and only if
   every message survives compression and fits the receive limit in its compressed form.
   */
  lemma ServedRoundTripExact(e: Encoding, cap: usize, max: usize, limit: nat, ms: seq<Message>, trailers: Option<Metadata>,
                             script: seq<Event>, wire: seq<Event>)
    requires Lawful(e)
    requires Meaning(script) == Whole(ms, trailers)
    requires Meaning(wire) == Meaning(CompressionRuns.Drain(Sender(e, cap), Init(script)))
    ensures StackCall(e, max, limit, wire) == Reads(Delivered(ms, trailers))
       <==> AllSurvive(e, max, ms) && FitOnWire(e, limit, ms)
  {
    StackCallExact(e, max, limit, wire);
    DeliveredNeverFails(ms, trailers);
    RoundTripExact(e, cap, max, ms, trailers, script, wire);
    VisibleMeans(wire);
    if AllSurvive(e, max, ms) {
      WholeOnWire(e, cap, max, ms, trailers, script);
      WholeBytes(AllWired(e, ms), trailers);
      OversizedOnWire(e, limit, ms);
      if FitOnWire(e, limit, ms) {
        WithinLimitIsUntouched(wire, limit);
      }
    }
  }

  // ----- Limit and cap equal -----

  const DEFAULT_MAX_DECOMPRESSED_SIZE: usize := 4 * 1024 * 1024
  const DEFAULT_MAX_RECV_MESSAGE_SIZE: usize := 4 * 1024 * 1024

  lemma OnlyWired(e: Encoding, m: Message, trailers: Option<Metadata>)
    ensures AllBytes(Whole(AllWired(e, [m]), trailers)) == Frame(Wired(e, m))
  {
    var w := Wired(e, m);
    assert [m][1..] == [];
    assert AllWired(e, [m]) == [w] && [w][1..] == [];
    assert Serialize([w]) == Frame(w) + Serialize([]);
    WholeBytes([w], trailers);
  }

  /**
   With the receive limit equal to the cap, a message of exactly the cap that its codec lengthens is within
   the guard's headroom, and the adapters alone deliver it; through the stack the call is refused.
   */
  lemma LimitLeavesNoHeadroom(e: Encoding, cap: usize, payload: Bytes, trailers: Option<Metadata>,
                              script: seq<Event>, wire: seq<Event>)
    requires Lawful(e) && |payload| == cap < U32_LIMIT && CompressBytes(e, payload).Some?
    requires cap < |CompressBytes(e, payload).value| < U32_LIMIT
    requires Meaning(script) == Whole([Msg(0, payload)], trailers)
    requires Meaning(wire) == Meaning(CompressionRuns.Drain(Sender(e, cap), Init(script)))
    ensures !Guarded(Receiver(e, cap), |CompressBytes(e, payload).value|)
    ensures CompressionRuns.Drain(Receiver(e, cap), Init(wire)) == Delivered([Msg(0, payload)], trailers)
    ensures StackCall(e, cap, cap, wire) == Refused(ResourceExhausted)
  {
    var m: Message := Msg(0, payload);
    var w := Wired(e, m);
    CompressThenDecompress(e, payload, cap);
    HeadroomAdmits(e, cap, |CompressBytes(e, payload).value|, cap);
    assert Survives(e, cap, m);
    RoundTripExact(e, cap, cap, [m], trailers, script, wire);
    WholeOnWire(e, cap, cap, [m], trailers, script);
    OnlyWired(e, m, trailers);
    VisibleMeans(wire);
    HeaderOfFrame(w, []);
    assert Frame(w) + [] == Frame(w);
    RecvLimit.FirstMessageNeverReachesService(wire, cap);
  }

  /** There are such messages at the default limit and cap, which are both 4 MiB. */
  lemma LengthenedMessageExists(payload: Bytes)
    requires |payload| == 4_194_304
    ensures DEFAULT_MAX_DECOMPRESSED_SIZE == DEFAULT_MAX_RECV_MESSAGE_SIZE == |payload|
    ensures Lawful(StoreZstd()) && CompressBytes(StoreZstd(), payload).Some?
    ensures DEFAULT_MAX_RECV_MESSAGE_SIZE < |CompressBytes(StoreZstd(), payload).value| < U32_LIMIT
  {
    StoredCodecsAreLawful();
    WindowLogExact(|payload|);
  }
}
