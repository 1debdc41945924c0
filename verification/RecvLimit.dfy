/**
 The receive limit: prefetch until the first header is in, scan what was prefetched,
 then replay it to the service and keep scanning whatever streams in behind it.
 */
module RecvLimit {
  import opened Wrappers
  import opened Framing
  import opened Body
  import opened FrameScanner

  // ----- The body handed to the service -----

  datatype State = State(buffered: seq<Event>, script: seq<Event>, scan: ScanState)

  function PollPrefetched(st: State, max: nat): (State, Option<Event>) {
    if st.buffered != [] then (st.(buffered := st.buffered[1..]), Some(st.buffered[0]))
    else if st.script == [] then (st, None)
    else
      var rest := st.(script := st.script[1..]);
      match st.script[0]
      case Data(d) =>
        var r := Scan(d, st.scan, max);
        (rest.(scan := r.state), Some(if r.ok then st.script[0] else Error(ResourceExhausted)))
      case e => (rest, Some(e))
  }

  class PrefetchedBody {
    var buffered: seq<Event>
    const rest: ScriptedBody
    const max: nat
    var scanState: ScanState

    ghost predicate Valid()
      reads this
    {
      FrameScanner.Valid(scanState, max)
    }

    ghost function View(): State
      reads this, rest
    {
      State(buffered, rest.script, scanState)
    }

    constructor (buffered: seq<Event>, rest: ScriptedBody, max: nat, scanState: ScanState)
      requires FrameScanner.Valid(scanState, max)
      ensures Valid() && this.rest == rest && this.max == max
      ensures View() == State(buffered, rest.script, scanState)
    {
      this.buffered, this.rest, this.max, this.scanState := buffered, rest, max, scanState;
    }

    method PollFrame() returns (r: Option<Event>)
      requires Valid()
      modifies this, rest
      ensures Valid()
      ensures (View(), r) == PollPrefetched(old(View()), max)
      ensures rest.endPolls == old(rest.endPolls) + if r == None then 1 else 0
    {
      if buffered != [] {
        r := Some(buffered[0]);
        buffered := buffered[1..];
        return;
      }
      r := rest.Poll();
      if r.Some? && r.value.Data? {
        var ok;
        ok, scanState := ScanForOversizedMessages(r.value.bytes, scanState, max);
        if !ok {
          return Some(Error(ResourceExhausted));
        }
      }
    }

    /** The inner body's own hint is taken to be exact. */
    predicate IsEndStream()
      reads this, rest
      ensures IsEndStream() <==> PollPrefetched(View(), max).1 == None
      ensures IsEndStream() ==> PollPrefetched(View(), max).0 == View()
    {
      buffered == [] && rest.script == []
    }
  }

  /** Everything the service can read, up to the end or the first error. */
  function Drain(st: State, max: nat): seq<Event>
    decreases |st.buffered| + |st.script|
  {
    var (next, out) := PollPrefetched(st, max);
    match out
    case None => []
    case Some(Error(c)) => [Error(c)]
    case Some(Pending) => Drain(next, max)
    case Some(e) => [e] + Drain(next, max)
  }

  // ----- The call -----

  /** The frames a call takes before it decides: to a read error, or to five bytes or the end. */
  datatype Prefetched = Broken | Fetched(frames: seq<Event>, rest: seq<Event>, ended: bool)

  function Prefetch(script: seq<Event>, have: nat): Prefetched {
    if have >= GRPC_FRAME_HEADER_LEN then Fetched([], script, false)
    else if script == [] then Fetched([], [], true)
    else
      match script[0]
      case Error(_) => Broken
      case Pending => Prefetch(script[1..], have)
      case e =>
        var p := Prefetch(script[1..], have + |Carried(e)|);
        if p.Broken? then Broken else p.(frames := [e] + p.frames)
  }

  /** A prefetch that had already taken `taken`. */
  function Resumed(taken: seq<Event>, p: Prefetched): Prefetched {
    if p.Broken? then Broken else p.(frames := taken + p.frames)
  }

  lemma PrefetchCons(script: seq<Event>, have: nat, taken: seq<Event>)
    requires have < GRPC_FRAME_HEADER_LEN && script != [] && !script[0].Error? && !script[0].Pending?
    ensures var p, q := Prefetch(script, have), Prefetch(script[1..], have + |Carried(script[0])|);
      Resumed(taken, p) == Resumed(taken + [script[0]], q)
  {
    var q := Prefetch(script[1..], have + |Carried(script[0])|);
    if q.Fetched? {
      Associative(taken, [script[0]], q.frames);
    }
  }

  /** Scans the prefetched frames one after the other: one scan of their bytes. */
  method ScanFrames(frames: seq<Event>, max: nat) returns (ok: bool, scanState: ScanState)
    ensures Scanned(ok, scanState) == Scan(DataBytes(frames), START, max)
    ensures FrameScanner.Valid(scanState, max)
  {
    scanState := START;
    for i := 0 to |frames|
      invariant FrameScanner.Valid(scanState, max)
      invariant Scan(DataBytes(frames), START, max) == Scan(DataBytes(frames[i..]), scanState, max)
    {
      assert frames[i..][1..] == frames[i + 1..];
      ScanAppend(Carried(frames[i]), DataBytes(frames[i + 1..]), scanState, max);
      if frames[i].Data? {
        ok, scanState := ScanForOversizedMessages(frames[i].bytes, scanState, max);
        if !ok {
          return;
        }
      }
    }
    ok := true;
  }

  datatype Admission = Rejected(code: Code) | Admitted(body: PrefetchedBody)

  class MaxRecvMessageSizeService {
    const max: nat

    constructor (max: nat)
      ensures this.max == max
    {
      this.max := max;
    }

    /** Admitted means the inner service is called with the rebuilt body. */
    method Call(body: ScriptedBody) returns (r: Admission)
      modifies body
      ensures var p := Prefetch(old(body.script), 0);
        if p.Broken? then r == Rejected(Internal)
        else
          var v := Scan(DataBytes(p.frames), START, max);
          if !v.ok then r == Rejected(ResourceExhausted)
          else
            && r.Admitted? && fresh(r.body) && r.body.Valid() && r.body.rest == body && r.body.max == max
            && r.body.View() == State(p.frames, p.rest, v.state)
            && body.endPolls == old(body.endPolls) + if p.ended then 1 else 0
    {
      var buffered: seq<Event> := [];
      var prefixLen: nat := 0;
      var ended := false;
      while prefixLen < GRPC_FRAME_HEADER_LEN
        invariant !ended && body.endPolls == old(body.endPolls)
        invariant Prefetch(old(body.script), 0) == Resumed(buffered, Prefetch(body.script, prefixLen))
        decreases |body.script|
      {
        ghost var before, had := body.script, prefixLen;
        var frame := body.Poll();
        match frame {
          case None =>
            ended := true;
            break;
          case Some(Error(_)) =>
            return Rejected(Internal);
          case Some(Pending) =>
          case Some(e) =>
            PrefetchCons(before, had, buffered);
            prefixLen := prefixLen + |Carried(e)|;
            buffered := buffered + [e];
        }
      }
      assert Prefetch(old(body.script), 0) == Fetched(buffered, body.script, ended);
      var ok, scanState := ScanFrames(buffered, max);
      if !ok {
        return Rejected(ResourceExhausted);
      }
      var rebuilt := new PrefetchedBody(buffered, body, max, scanState);
      return Admitted(rebuilt);
    }
  }

  // ----- Prefetch, replay and streaming are one scan of the whole stream -----

  /** A body passed through one scan. */
  function Screened(script: seq<Event>, s: ScanState, max: nat): seq<Event> {
    if script == [] then []
    else
      match script[0]
      case Pending => Screened(script[1..], s, max)
      case Error(c) => [Error(c)]
      case Trailers(_) => [script[0]] + Screened(script[1..], s, max)
      case Data(d) =>
        var r := Scan(d, s, max);
        if r.ok then [script[0]] + Screened(script[1..], r.state, max) else [Error(ResourceExhausted)]
  }

  lemma {:induction false} StreamingScreens(script: seq<Event>, s: ScanState, max: nat)
    ensures Drain(State([], script, s), max) == Screened(script, s, max)
  {
    if script != [] && !script[0].Error? {
      var r := if script[0].Data? then Scan(script[0].bytes, s, max) else Scanned(true, s);
      if r.ok {
        StreamingScreens(script[1..], r.state, max);
      }
    }
  }

  lemma {:induction false} ReplayScreens(script: seq<Event>, have: nat, s: ScanState, max: nat)
    ensures var p := Prefetch(script, have);
      p.Fetched? && Scan(DataBytes(p.frames), s, max).ok ==>
      Drain(State(p.frames, p.rest, Scan(DataBytes(p.frames), s, max).state), max) == Screened(script, s, max)
  {
    var p := Prefetch(script, have);
    if p.Fetched? && Scan(DataBytes(p.frames), s, max).ok {
      if have >= GRPC_FRAME_HEADER_LEN || script == [] {
        StreamingScreens(script, s, max);
      } else if script[0].Pending? {
        ReplayScreens(script[1..], have, s, max);
      } else {
        var q := Prefetch(script[1..], have + |Carried(script[0])|);
        assert ([script[0]] + q.frames)[1..] == q.frames;
        ScanAppend(Carried(script[0]), DataBytes(q.frames), s, max);
        ReplayScreens(script[1..], have + |Carried(script[0])|, Scan(Carried(script[0]), s, max).state, max);
      }
    }
  }

  /** If the service is called, what it reads is the whole body through one scan from the start. */
  lemma AdmittedSeesOneScan(script: seq<Event>, max: nat)
    ensures var p := Prefetch(script, 0);
      p.Fetched? && Scan(DataBytes(p.frames), START, max).ok ==>
      Drain(State(p.frames, p.rest, Scan(DataBytes(p.frames), START, max).state), max) == Screened(script, START, max)
  {
    ReplayScreens(script, 0, START, max);
  }

  // ----- ... and one scan is decided by the reference parse -----

  /** The frames of a body, without delays, up to its first error. */
  function Visible(script: seq<Event>): seq<Event> {
    if script == [] then []
    else if script[0].Pending? then Visible(script[1..])
    else if script[0].Error? then [script[0]]
    else [script[0]] + Visible(script[1..])
  }

  ghost predicate Settled(vis: seq<Event>) {
    forall i :: 0 <= i < |vis| ==> !vis[i].Pending? && (vis[i].Error? ==> i == |vis| - 1)
  }

  lemma {:induction false} VisibleSettles(script: seq<Event>, s: ScanState, max: nat)
    ensures Settled(Visible(script))
    ensures Screened(Visible(script), s, max) == Screened(script, s, max)
  {
    if script != [] {
      var vis := Visible(script);
      if script[0].Pending? {
        VisibleSettles(script[1..], s, max);
      } else if !script[0].Error? {
        assert vis[1..] == Visible(script[1..]);
        var r := if script[0].Data? then Scan(script[0].bytes, s, max) else Scanned(true, s);
        VisibleSettles(script[1..], r.state, max);
        forall i | 0 <= i < |vis| ensures !vis[i].Pending? && (vis[i].Error? ==> i == |vis| - 1) {
          if i > 0 {
            assert vis[i] == vis[1..][i - 1];
          }
        }
      }
    }
  }

  /** Event `k` is the first to complete an oversized header, or there is none and `k` is the end. */
  ghost predicate FirstOversized(vis: seq<Event>, max: nat, k: nat) {
    && k <= |vis|
    && (forall i :: 0 <= i <= k ==> !Oversized(DataBytes(vis[..i]), max))
    && (k < |vis| ==> Oversized(DataBytes(vis[..k + 1]), max))
  }

  /** There always is such an event, or the end. */
  lemma {:induction false} FindFirstOversized(vis: seq<Event>, max: nat, i: nat) returns (k: nat)
    requires i <= |vis| && forall j :: 0 <= j <= i ==> !Oversized(DataBytes(vis[..j]), max)
    ensures FirstOversized(vis, max, k)
    decreases |vis| - i
  {
    if i == |vis| || Oversized(DataBytes(vis[..i + 1]), max) {
      k := i;
    } else {
      k := FindFirstOversized(vis, max, i + 1);
    }
  }

  lemma ScanNext(vis: seq<Event>, i: nat, max: nat)
    requires i < |vis| && !Oversized(DataBytes(vis[..i]), max)
    ensures var r := Scan(Carried(vis[i]), Position(DataBytes(vis[..i])), max);
      && (r.ok <==> !Oversized(DataBytes(vis[..i + 1]), max))
      && (r.ok ==> r.state == Position(DataBytes(vis[..i + 1])))
  {
    var before := DataBytes(vis[..i]);
    assert vis[..i + 1] == vis[..i] + [vis[i]];
    DataBytesAppend(vis[..i], [vis[i]]);
    assert DataBytes([vis[i]]) == Carried(vis[i]);
    ScanExact(before, max);
    ScanExact(before + Carried(vis[i]), max);
    ScanAppend(before, Carried(vis[i]), START, max);
  }

  lemma ScreenedStep(vis: seq<Event>, i: nat, max: nat)
    requires i < |vis| && Settled(vis) && !Oversized(DataBytes(vis[..i]), max)
    ensures Screened(vis[i..], Position(DataBytes(vis[..i])), max) ==
      if Oversized(DataBytes(vis[..i + 1]), max) then [Error(ResourceExhausted)]
      else [vis[i]] + Screened(vis[i + 1..], Position(DataBytes(vis[..i + 1])), max)
  {
    assert vis[i..][0] == vis[i] && vis[i..][1..] == vis[i + 1..];
    ScanNext(vis, i, max);
  }

  lemma {:induction false} ScreenedFrom(vis: seq<Event>, i: nat, k: nat, max: nat)
    requires Settled(vis) && FirstOversized(vis, max, k) && i <= k
    ensures Screened(vis[i..], Position(DataBytes(vis[..i])), max)
         == vis[i..k] + if k < |vis| then [Error(ResourceExhausted)] else []
    decreases k - i
  {
    var last := if k < |vis| then [Error(ResourceExhausted)] else [];
    assert !Oversized(DataBytes(vis[..i]), max);
    if i < |vis| {
      ScreenedStep(vis, i, max);
      if i < k {
        assert !Oversized(DataBytes(vis[..i + 1]), max);
        ScreenedFrom(vis, i + 1, k, max);
        SliceThen(vis, i, k, last);
      }
    }
  }

  /**
   What the service reads is every frame before the one that completes the first oversized
   header, unchanged, and then resource_exhausted; or the whole body, unchanged, if none does.
   */
  lemma ScreenedExact(script: seq<Event>, max: nat, k: nat)
    requires FirstOversized(Visible(script), max, k)
    ensures Screened(script, START, max)
         == Visible(script)[..k] + if k < |Visible(script)| then [Error(ResourceExhausted)] else []
  {
    var vis := Visible(script);
    VisibleSettles(script, START, max);
    assert Parse([]) == Parsed([], []) && vis[..0] == [] && vis[0..] == vis;
    ScreenedFrom(vis, 0, k, max);
    assert vis[0..k] == vis[..k];
  }

  // ----- Which calls are rejected outright -----

  /** With `have` bytes in hand already, `p` is the shortest run of `vis` that makes a header's worth. */
  ghost predicate Shortest(vis: seq<Event>, have: nat, p: Prefetched) {
    match p
    case Broken =>
      vis != [] && vis[|vis| - 1].Error? && have + |DataBytes(vis)| < GRPC_FRAME_HEADER_LEN
    case Fetched(frames, rest, ended) =>
      && vis == frames + Visible(rest)
      && (forall i :: 0 <= i < |frames| ==> !frames[i].Error?)
      && (ended ==> rest == [] && have + |DataBytes(frames)| < GRPC_FRAME_HEADER_LEN)
      && (!ended ==> frames != [] && have + |DataBytes(frames[..|frames| - 1])| < GRPC_FRAME_HEADER_LEN
                     <= have + |DataBytes(frames)|)
  }

  lemma ShortestCons(e: Event, vis: seq<Event>, have: nat, p: Prefetched)
    requires !e.Error? && Shortest(vis, have + |Carried(e)|, p)
    ensures Shortest([e] + vis, have, Resumed([e], p))
  {
    assert ([e] + vis)[1..] == vis;
    if p.Fetched? {
      var frames := [e] + p.frames;
      assert frames[1..] == p.frames;
      Associative([e], p.frames, Visible(p.rest));
      if !p.ended {
        assert frames[..|frames| - 1][1..] == p.frames[..|p.frames| - 1];
      }
    }
  }

  /** The prefetch takes the shortest run of frames that holds a header's worth of bytes. */
  lemma {:induction false} PrefetchExact(script: seq<Event>, have: nat)
    requires have < GRPC_FRAME_HEADER_LEN
    ensures Shortest(Visible(script), have, Prefetch(script, have))
  {
    if script == [] {
      assert Visible(script) == [] + Visible([]);
    } else if script[0].Pending? {
      PrefetchExact(script[1..], have);
    } else if script[0].Error? {
      assert DataBytes(Visible(script)) == [];
    } else {
      var now := have + |Carried(script[0])|;
      PrefetchCons(script, have, []);
      if now < GRPC_FRAME_HEADER_LEN {
        PrefetchExact(script[1..], now);
        ShortestCons(script[0], Visible(script[1..]), have, Prefetch(script[1..], now));
      } else {
        var frames := Prefetch(script, have).frames;
        assert frames == [script[0]] && frames[..0] == [] && frames[1..] == [];
      }
    }
  }

  predicate EndsInError(vis: seq<Event>) {
    vis != [] && vis[|vis| - 1].Error?
  }

  /** A read error comes before a header's worth of bytes. */
  predicate FailsEarly(vis: seq<Event>) {
    EndsInError(vis) && |DataBytes(vis)| < GRPC_FRAME_HEADER_LEN
  }

  /** Exactly which bodies fail the prefetch, and which it reads to their end. */
  lemma EarlyFailureExactly(script: seq<Event>)
    ensures var p, vis := Prefetch(script, 0), Visible(script);
      && (p.Broken? <==> FailsEarly(vis))
      && (p.Fetched? && p.ended <==> |DataBytes(vis)| < GRPC_FRAME_HEADER_LEN && !EndsInError(vis))
  {
    PrefetchExact(script, 0);
    var p := Prefetch(script, 0);
    if p.Fetched? {
      DataBytesAppend(p.frames, Visible(p.rest));
      assert p.ended ==> Visible(script) == p.frames;
    }
  }

  /** A first message over the limit is rejected before the service is called, however it is fragmented. */
  lemma FirstMessageNeverReachesService(script: seq<Event>, max: nat)
    requires TailDeclares(DataBytes(Visible(script)), max)
    ensures var p := Prefetch(script, 0);
      p.Fetched? && !Scan(DataBytes(p.frames), START, max).ok
  {
    PrefetchExact(script, 0);
    var p := Prefetch(script, 0);
    DataBytesAppend(p.frames, Visible(p.rest));
    var front, all := DataBytes(p.frames), DataBytes(Visible(script));
    assert front[1..GRPC_FRAME_HEADER_LEN] == all[1..GRPC_FRAME_HEADER_LEN] by {
      assert Visible(p.rest) == [] ==> DataBytes(Visible(p.rest)) == [];
    }
    ScanHeader(front, max);
  }

  lemma PrefixOversized(vis: seq<Event>, max: nat, k: nat, n: nat)
    requires FirstOversized(vis, max, k) && n <= |vis|
    ensures Oversized(DataBytes(vis[..n]), max) <==> k < n
  {
    if k < n {
      assert vis[..n] == vis[..k + 1] + vis[k + 1..n];
      DataBytesAppend(vis[..k + 1], vis[k + 1..n]);
      OversizedMonotone(DataBytes(vis[..k + 1]), DataBytes(vis[k + 1..n]), max);
    }
  }

  /**
   The whole call, for every body and limit: the service is never called if a read error comes
   before a header's worth of bytes, or if an oversized header completes within the prefetched
   frames; otherwise it reads the frames before the one that completes the first oversized
   header, unchanged, and then resource_exhausted, or the whole body unchanged if there is none.
   */
  lemma CallExact(script: seq<Event>, max: nat, k: nat)
    requires FirstOversized(Visible(script), max, k)
    ensures var p, vis := Prefetch(script, 0), Visible(script);
      && (p.Broken? <==> FailsEarly(vis))
      && (p.Fetched? ==>
        var v := Scan(DataBytes(p.frames), START, max);
        && p.frames <= vis
        && (v.ok <==> |p.frames| <= k)
        && (v.ok ==> Drain(State(p.frames, p.rest, v.state), max)
                     == vis[..k] + if k < |vis| then [Error(ResourceExhausted)] else []))
  {
    EarlyFailureExactly(script);
    PrefetchExact(script, 0);
    var p, vis := Prefetch(script, 0), Visible(script);
    if p.Fetched? {
      assert p.frames == vis[..|p.frames|];
      ScanExact(DataBytes(p.frames), max);
      PrefixOversized(vis, max, k, |p.frames|);
      if |p.frames| <= k {
        AdmittedSeesOneScan(script, max);
        ScreenedExact(script, max, k);
      }
    }
  }

  // ----- How often a body is asked past its end -----

  predicate NoError(events: seq<Event>) {
    forall i :: 0 <= i < |events| ==> !events[i].Error?
  }

  lemma DrainTail(st: State, max: nat)
    requires NoError(Drain(st, max))
    ensures var (next, out) := PollPrefetched(st, max);
      out.Some? ==> !out.value.Error? && NoError(Drain(next, max))
  {
    var (next, out) := PollPrefetched(st, max);
    if out.Some? {
      assert out.value.Error? ==> Drain(st, max)[0].Error?;
      var more := Drain(next, max);
      if !out.value.Pending? && !out.value.Error? {
        assert Drain(st, max) == [out.value] + more;
        forall i | 0 <= i < |more| ensures !more[i].Error? {
          assert Drain(st, max)[i + 1] == more[i];
        }
      }
    }
  }

  /** A service reading a rebuilt body until its first end. */
  method ReadToEnd(body: PrefetchedBody)
    requires body.Valid() && NoError(Drain(body.View(), body.max))
    modifies body, body.rest
    ensures body.rest.endPolls == old(body.rest.endPolls) + 1
  {
    while true
      invariant body.Valid() && NoError(Drain(body.View(), body.max))
      invariant body.rest.endPolls == old(body.rest.endPolls)
      decreases |body.buffered| + |body.rest.script|
    {
      DrainTail(body.View(), body.max);
      var r := body.PollFrame();
      if r.None? {
        return;
      }
    }
  }

  lemma VisibleWithoutError(script: seq<Event>, max: nat)
    requires !EndsInError(Visible(script)) && !Oversized(DataBytes(Visible(script)), max)
    ensures var p := Prefetch(script, 0);
      && p.Fetched?
      && Scan(DataBytes(p.frames), START, max).ok
      && NoError(Drain(State(p.frames, p.rest, Scan(DataBytes(p.frames), START, max).state), max))
  {
    var vis := Visible(script);
    VisibleSettles(script, START, max);
    assert vis[..|vis|] == vis;
    assert Parse([]) == Parsed([], []) && vis[..0] == [];
    var k := FindFirstOversized(vis, max, 0);
    PrefixOversized(vis, max, k, |vis|);
    assert vis + [] == vis;
    CallExact(script, max, k);
  }

  /**
   A body without error or oversized header is asked past its end once if it has a header's worth of
   bytes, and twice if not: by the prefetch, and again by the service that reads it to its end.
   */
  method PollsPastEnd(script: seq<Event>, max: nat) returns (polls: nat)
    requires !EndsInError(Visible(script)) && !Oversized(DataBytes(Visible(script)), max)
    ensures polls == if |DataBytes(Visible(script))| < GRPC_FRAME_HEADER_LEN then 2 else 1
  {
    VisibleWithoutError(script, max);
    EarlyFailureExactly(script);
    var body := new ScriptedBody(script);
    var service := new MaxRecvMessageSizeService(max);
    var r := service.Call(body);
    ReadToEnd(r.body);
    polls := body.endPolls;
  }
}
