/**
 The receive limiter's own incremental parser: it keeps only the header bytes seen so
 far, or how much of a payload is still to come, from one chunk to the next.
 */
module FrameScanner {
  import opened Wrappers
  import opened Framing

  datatype ScanState = PartialHeader(buf: Bytes) | InPayload(remaining: nat)

  const START := PartialHeader([])

  datatype Scanned = Scanned(ok: bool, state: ScanState)

  /** A full header is only ever kept after it has been found to declare too much. */
  predicate Valid(s: ScanState, max: nat) {
    s.PartialHeader? ==>
      && |s.buf| <= GRPC_FRAME_HEADER_LEN
      && (|s.buf| == GRPC_FRAME_HEADER_LEN ==> ReadFrameHeader(s.buf).value.len > max)
  }

  // ----- The specification: one byte at a time -----

  function FeedHeader(buf: Bytes, b: byte, max: nat): Scanned {
    var header := buf + [b];
    if |header| < GRPC_FRAME_HEADER_LEN then Scanned(true, PartialHeader(header))
    else
      var len := ReadFrameHeader(header).value.len;
      if len > max then Scanned(false, PartialHeader(header)) else Scanned(true, InPayload(len))
  }

  function Feed(s: ScanState, b: byte, max: nat): Scanned {
    match s
    case PartialHeader(buf) =>
      if |buf| >= GRPC_FRAME_HEADER_LEN then Scanned(false, s) else FeedHeader(buf, b, max)
    case InPayload(remaining) =>
      if remaining == 0 then FeedHeader([], b, max)
      else Scanned(true, if remaining == 1 then START else InPayload(remaining - 1))
  }

  function Scan(data: Bytes, s: ScanState, max: nat): Scanned {
    if data == [] then Scanned(true, s)
    else
      var f := Feed(s, data[0], max);
      if f.ok then Scan(data[1..], f.state, max) else f
  }

  // ----- Many bytes at a time -----

  lemma {:induction false} HeaderBulk(data: Bytes, buf: Bytes, take: nat, max: nat)
    requires |buf| < GRPC_FRAME_HEADER_LEN && 0 < take <= |data| && |buf| + take <= GRPC_FRAME_HEADER_LEN
    ensures var header := buf + data[..take];
      Scan(data, PartialHeader(buf), max) ==
      if |header| < GRPC_FRAME_HEADER_LEN then Scan(data[take..], PartialHeader(header), max)
      else
        var len := ReadFrameHeader(header).value.len;
        if len > max then Scanned(false, PartialHeader(header)) else Scan(data[take..], InPayload(len), max)
    decreases take
  {
    assert data[..1] == [data[0]];
    if take > 1 {
      HeaderBulk(data[1..], buf + [data[0]], take - 1, max);
      assert buf + data[..take] == (buf + [data[0]]) + data[1..][..take - 1];
      assert data[take..] == data[1..][take - 1..];
    }
  }

  lemma {:induction false} PayloadBulk(data: Bytes, remaining: nat, take: nat, max: nat)
    requires 0 < take <= remaining && take <= |data|
    ensures Scan(data, InPayload(remaining), max)
         == Scan(data[take..], if take == remaining then START else InPayload(remaining - take), max)
    decreases take
  {
    if take > 1 {
      PayloadBulk(data[1..], remaining - 1, take - 1, max);
      assert data[take..] == data[1..][take - 1..];
    }
  }

  function Min(a: nat, b: nat): nat {
    if a < b then a else b
  }

  lemma HeaderStride(data: Bytes, pos: nat, buf: Bytes, take: nat, max: nat)
    requires pos < |data| && Valid(PartialHeader(buf), max)
    requires take == Min(GRPC_FRAME_HEADER_LEN - |buf|, |data| - pos)
    ensures var header := buf + data[pos..pos + take];
      Scan(data[pos..], PartialHeader(buf), max) ==
      if |header| < GRPC_FRAME_HEADER_LEN then Scan(data[pos + take..], PartialHeader(header), max)
      else
        var len := ReadFrameHeader(header).value.len;
        if len > max then Scanned(false, PartialHeader(header)) else Scan(data[pos + take..], InPayload(len), max)
  {
    assert data[pos..][..take] == data[pos..pos + take];
    assert data[pos..][take..] == data[pos + take..];
    if take > 0 {
      HeaderBulk(data[pos..], buf, take, max);
    } else {
      assert buf + data[pos..pos + take] == buf;
    }
  }

  lemma PayloadStride(data: Bytes, pos: nat, remaining: nat, take: nat, max: nat)
    requires pos < |data| && take == Min(remaining, |data| - pos)
    ensures Scan(data[pos..], InPayload(remaining), max)
         == Scan(data[pos + take..], if take == remaining then START else InPayload(remaining - take), max)
  {
    assert data[pos..][take..] == data[pos + take..];
    if take > 0 {
      PayloadBulk(data[pos..], remaining, take, max);
    }
  }

  /** Scans a chunk in strides: the rest of a header, the rest of a payload. */
  method ScanForOversizedMessages(data: Bytes, state: ScanState, max: nat) returns (ok: bool, next: ScanState)
    requires Valid(state, max)
    ensures Scanned(ok, next) == Scan(data, state, max)
    ensures Valid(next, max)
  {
    var pos := 0;
    next := state;
    while pos < |data|
      invariant 0 <= pos <= |data|
      invariant Valid(next, max)
      invariant Scan(data, state, max) == Scan(data[pos..], next, max)
      decreases |data| - pos, next == InPayload(0)
    {
      match next {
        case PartialHeader(buf) =>
          var need: nat := GRPC_FRAME_HEADER_LEN - |buf|;
          var take := Min(need, |data| - pos);
          var header := buf + data[pos..pos + take];
          HeaderStride(data, pos, buf, take, max);
          next := PartialHeader(header);
          pos := pos + take;
          if |header| == GRPC_FRAME_HEADER_LEN {
            var len := ReadFrameHeader(header).value.len;
            if len > max {
              return false, next;
            }
            next := InPayload(len);
          }
        case InPayload(remaining) =>
          var take := Min(remaining, |data| - pos);
          PayloadStride(data, pos, remaining, take, max);
          pos := pos + take;
          next := InPayload(remaining - take);
          if remaining == take {
            next := START;
          }
      }
    }
    ok := true;
  }

  // ----- Chunks -----

  /** Scanning `a` and then `b` is scanning `a + b`, wherever the cut falls. */
  lemma {:induction false} ScanAppend(a: Bytes, b: Bytes, s: ScanState, max: nat)
    ensures Scan(a + b, s, max) ==
            if Scan(a, s, max).ok then Scan(b, Scan(a, s, max).state, max) else Scan(a, s, max)
  {
    if a == [] {
      assert a + b == b;
    } else {
      assert (a + b)[1..] == a[1..] + b;
      var f := Feed(s, a[0], max);
      if f.ok {
        ScanAppend(a[1..], b, f.state, max);
      }
    }
  }

  lemma {:induction false} RejectedState(data: Bytes, s: ScanState, max: nat)
    requires Valid(s, max) && !Scan(data, s, max).ok
    ensures var r := Scan(data, s, max).state;
      r.PartialHeader? && |r.buf| == GRPC_FRAME_HEADER_LEN && Valid(r, max)
  {
    var f := Feed(s, data[0], max);
    if f.ok {
      RejectedState(data[1..], f.state, max);
    }
  }

  /** After a rejection every later chunk is rejected too and the state never moves; only an empty one passes. */
  lemma RejectionIsForever(data: Bytes, s: ScanState, later: Bytes, max: nat)
    requires Valid(s, max) && !Scan(data, s, max).ok
    ensures var r := Scan(data, s, max).state; Scan(later, r, max) == Scanned(later == [], r)
  {
    RejectedState(data, s, max);
  }

  // ----- Against the reference parser -----

  lemma ParseTail(bytes: Bytes)
    ensures Incomplete(Parse(bytes).tail)
  {
    ParseSound(bytes);
  }

  /** Where a scanner stands after `bytes`, read off the reference parse. */
  function Position(bytes: Bytes): ScanState {
    var p := Parse(bytes);
    if |p.tail| >= GRPC_FRAME_HEADER_LEN then
      ParseTail(bytes);
      InPayload(GRPC_FRAME_HEADER_LEN + ReadFrameHeader(p.tail).value.len - |p.tail|)
    else if p.tail == [] && p.messages != [] && p.messages[|p.messages| - 1].payload == [] then InPayload(0)
    else PartialHeader(p.tail)
  }

  lemma OversizedFrame(m: Message, rest: Bytes, max: nat)
    ensures Oversized(Frame(m) + rest, max) <==> |m.payload| > max || Oversized(rest, max)
  {
    ParseFrame(m, rest);
    var ms, all := Parse(rest).messages, Parse(Frame(m) + rest).messages;
    assert all[0] == m;
    if i :| 0 <= i < |ms| && |ms[i].payload| > max {
      assert all[i + 1] == ms[i];
    }
    if i :| 0 <= i < |all| && |all[i].payload| > max && |m.payload| <= max {
      assert all[i] == ms[i - 1];
    }
  }

  lemma ScanHeader(bytes: Bytes, max: nat)
    requires |bytes| >= GRPC_FRAME_HEADER_LEN
    ensures var len := ReadFrameHeader(bytes).value.len;
      Scan(bytes, START, max) ==
      if len > max then Scanned(false, PartialHeader(bytes[..GRPC_FRAME_HEADER_LEN]))
      else Scan(bytes[GRPC_FRAME_HEADER_LEN..], InPayload(len), max)
  {
    HeaderBulk(bytes, [], GRPC_FRAME_HEADER_LEN, max);
    var header := bytes[..GRPC_FRAME_HEADER_LEN];
    assert [] + header == header;
    assert header[1..GRPC_FRAME_HEADER_LEN] == bytes[1..GRPC_FRAME_HEADER_LEN];
  }

  lemma ScanIncomplete(bytes: Bytes, max: nat)
    requires Incomplete(bytes)
    ensures Scan(bytes, START, max) ==
      if TailDeclares(bytes, max) then Scanned(false, PartialHeader(bytes[..GRPC_FRAME_HEADER_LEN]))
      else Scanned(true, Position(bytes))
  {
    if |bytes| >= GRPC_FRAME_HEADER_LEN {
      ScanHeader(bytes, max);
      var len, payload := ReadFrameHeader(bytes).value.len, bytes[GRPC_FRAME_HEADER_LEN..];
      if payload != [] {
        PayloadBulk(payload, len, |payload|, max);
      }
    } else if bytes != [] {
      HeaderBulk(bytes, [], |bytes|, max);
      assert [] + bytes[..|bytes|] == bytes;
    }
  }

  lemma ScanFrame(m: Message, rest: Bytes, max: nat)
    requires |m.payload| <= max
    requires m.payload != [] || rest != []
    ensures Scan(Frame(m) + rest, START, max) == Scan(rest, START, max)
  {
    var bytes := Frame(m) + rest;
    HeaderOfFrame(m, rest);
    ScanHeader(bytes, max);
    assert bytes[GRPC_FRAME_HEADER_LEN..] == m.payload + rest;
    if m.payload != [] {
      PayloadBulk(m.payload + rest, |m.payload|, |m.payload|, max);
      assert (m.payload + rest)[|m.payload|..] == rest;
    } else {
      assert m.payload + rest == rest;
    }
  }

  lemma PositionFrame(m: Message, rest: Bytes)
    requires m.payload != [] || rest != []
    ensures Position(Frame(m) + rest) == Position(rest)
  {
    ParseFrame(m, rest);
    if rest == [] {
      assert Parse(rest) == Parsed([], []);
    }
  }

  /**
   The scan of everything received so far fails exactly when the reference parse holds a
   complete header over the limit; otherwise it stands where the reference parse ends.
   */
  lemma {:induction false} ScanExact(bytes: Bytes, max: nat)
    ensures var r := Scan(bytes, START, max);
      && (r.ok <==> !Oversized(bytes, max))
      && (r.ok ==> r.state == Position(bytes))
    decreases |bytes|
  {
    if Incomplete(bytes) {
      ScanIncomplete(bytes, max);
      assert Parse(bytes) == Parsed([], bytes);
    } else {
      var h := ReadFrameHeader(bytes).value;
      var end := GRPC_FRAME_HEADER_LEN + h.len;
      var m: Message := Msg(h.flag, bytes[GRPC_FRAME_HEADER_LEN..end]);
      var rest := bytes[end..];
      FrameOfHeader(bytes, h);
      OversizedFrame(m, rest, max);
      if h.len > max {
        ScanHeader(bytes, max);
      } else if m.payload != [] || rest != [] {
        ScanFrame(m, rest, max);
        PositionFrame(m, rest);
        ScanExact(rest, max);
      } else {
        ScanHeader(bytes, max);
        ParseFrame(m, []);
        assert Parse([]) == Parsed([], []);
      }
    }
  }
}
