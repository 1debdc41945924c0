# gRPC message streams: a verified model

This project models how `armature-grpc` handles the length-prefixed messages of a gRPC body, and proves
what its pieces promise, alone and composed:

* the **compression adapter** (`CompressionBody`), a poll-driven machine that accumulates arbitrary chunks,
  cuts out complete messages and re-frames each one (de)compressed, with its headroom guard, its bounded
  decompression and its zstd window ceiling;
* the **receive limiter** (`MaxRecvMessageSizeService`, `PrefetchedBody`, `scan_for_oversized_messages`), a
  second parser of the same format that keeps only partial headers and a payload counter, and works in two
  phases: prefetch with replay, then streaming;
* the **compositions** the crate builds: two adapters with a network between them, the limiter outside the
  adapter in the served stack, client and server wrappers with their headers, and a whole call through them all;
* **admission control**: the fixed-window rate limiter and the two semaphore middlewares, over all runs.

## How it is set up

`Framing.Parse` is the reference: it splits bytes into complete messages and an incomplete tail, and it is
proved to be the only such split. `Body.Meaning` is what a body means once fragmentation and delay are
forgotten: the bytes up to the first frame that is not data, then how the body goes on.

The stateful parts are classes and loops in the shape of the source (`CompressionAdapter.CompressionBody`,
`RecvLimit.PrefetchedBody`, `RecvLimit.MaxRecvMessageSizeService`, `FrameScanner.ScanForOversizedMessages`,
`Codec.ReadBounded`, `RateLimit.RateLimitService`, `Permits.PermitService`). Each method's contract ties its
result and its new state to a function of the old state; whole-run theorems are about those functions.

gzip and zstd are the function fields of `Codec.Encoding`. All the proofs ask of them is `Codec.Lawful`: the
decoder inverts the encoder, and the encoder's overhead on `x` is at most `|x|/64 + 64`; for zstd, whose decoder
is given its window ceiling, a frame declares no larger window than the encoder was given, and data whose first
frame declares a window over the ceiling is refused before any output (what later frames do is the library's).
`StoredCodecsAreLawful` shows the laws can be met. An inner body is
a finite script of data, trailers, errors and pending polls, and then its end; `usize` has 64 bits.

## Where the code and its documentation part

* `RateLimitMiddleware` is documented as rejecting requests over the per-second rate. From a given moment, `k`
  seconds stay within `k` quotas whatever calls come if and only if no part of a quota is left over from
  before: the current window has used its quota up, or is over, or has not begun (`RateKeptExactly`). In
  general they admit up to `k + 1` quotas, and that many are reached for every rate and every `k > 0`
  (`RateBound`, `RateBoundReached`), so one second can admit twice the rate.
* The early guard's headroom is documented as admitting, with the decompression cap equal to the receive
  limit, messages whose compressed form is slightly over the cap. The limiter outside it rejects them on their
  exact length, so in the served stack the guard never fires (`GuardNeverFires`) and a call with such a message
  is refused, whatever the codec (`LimitLeavesNoHeadroom`); `ServedRoundTripExact` says exactly what gets through.
* A message already flagged compressed does not survive a compressing and a decompressing adapter, because
  the first forwards it and the second decodes it (`FlaggedMessageIsLost`); `RoundTripExact` is the exact condition.
* A body that ends before five bytes is polled past its end by the prefetch, and again by the service that
  reads it to its end (`EarlyFailureExactly`, `PollsPastEnd`). The adapter never does that (`CompressionBody.Valid`).
* With a cap of `usize::MAX` the read limit saturates, and an output longer than that would be cut short and
  reported complete (`BoundedSaturates`); in every other case the cap decides exactly (`BoundedExact`). No
  Rust vector can hold that many bytes, so this case cannot be reached on a machine.

## Model

| member | source | states |
|---|---|---|
| `Framing.HeaderBytes` | src/middleware.rs:816-830 | a header is the flag byte and then a four-byte length, most significant byte first, with each byte's weight given |
| `Framing.FrameBytes` | src/middleware.rs:859-868 | a frame is five header bytes with those weights and then the payload |
| `Framing.HeaderOfFrame` | src/middleware.rs:823-830 | reading the header of a frame gives back the flag and length it was built from, and the payload and the rest lie where the header says (byte order: `HeaderBytes`, `FrameBytes`) |
| `Framing.FrameOfHeader` | src/middleware.rs:823-830 | the converse: bytes whose header declares a payload that has arrived are that frame followed by the rest |
| `Framing.Reframe` | src/middleware.rs:859-868 | the frame (laid out as `FrameBytes` says) of exactly this flag and payload, or internal if the length does not fit four bytes |
| `Framing.ParseSound` | src/middleware.rs:989-1027 | cutting messages off the front loses no byte and stops only when no complete message is left |
| `Framing.ParseUnique` | src/middleware.rs:989-1027 | there is only one way to split bytes into messages and an incomplete tail |
| `Framing.ParseAppend` | src/middleware.rs:987-1045 | parsing a chunk and then the next from its tail is parsing both at once |
| `Framing.OversizedMonotone` | src/server.rs:219-241 | more bytes never hide an oversized header |
| `Codec.BitLengthAtMost` | src/middleware.rs:655-657 | the bit length is the least number of bits that holds the size |
| `Codec.WindowLogExact` | src/middleware.rs:643-657 | the window is the smallest from 10 to 27 that holds the payload, and 27 for 2^27 bytes and more |
| `Codec.WindowLogMonotone` | src/middleware.rs:655-657 | a larger payload never gets a smaller window |
| `Codec.WindowWithinCeiling` | src/middleware.rs:648-654 | a frame from the encoder for a payload within the cap is always within the decoder's ceiling |
| `Codec.CeilingAdmits` | src/middleware.rs:731-751 | a declared windowLog is admitted if and only if it is at most 13, or at most 27 with 2^(w-4) within the cap |
| `Codec.CeilingTracksCap` | src/middleware.rs:731-751 | the window buffer is at most 16 times the cap from a floor of 8 KiB, and at most 128 MiB |
| `Codec.ReadBounded` | src/middleware.rs:788-807 | for a reader that delivers any pieces: the bounded result, having taken at most one byte more than the cap |
| `Codec.BoundedExact` | src/middleware.rs:788-807 | the full output iff it ends cleanly within the cap; the size marker iff there is more than the cap; the I/O error otherwise |
| `Codec.BoundedSaturates` | src/middleware.rs:794-800 | with a cap of usize::MAX an output of at least that is cut there and reported complete |
| `Codec.DecompressBytes` | src/middleware.rs:718-756 | the loops of both codec branches compute the bounded result of the decoder under the window ceiling |
| `Codec.CompressesUnder` | src/middleware.rs:671-702 | which library call compresses a payload, for zstd with its window given in numbers, and identity for None |
| `Codec.DecompressesUnder` | src/middleware.rs:718-756 | which library call decompresses a payload and under which cap, for zstd with its window ceiling given in numbers, and identity for None |
| `Codec.CompressThenDecompress` | src/middleware.rs:671-756 | decompressing what was compressed gives it back up to the cap and an error above it |
| `Codec.StoredCodecsAreLawful` | src/middleware.rs:671-756 | encodings that meet the assumed codec laws exist |
| `CompressionAdapter.CompressionBody.constructor` | src/middleware.rs:913-927 | starts with an empty buffer and an inner body not yet seen to end |
| `CompressionAdapter.CompressionBody.TransformOne` | src/middleware.rs:932-960 | the frame of the transformed message, or its error code |
| `CompressionAdapter.CompressionBody.PollFrame` | src/middleware.rs:982-1066 | the loop computes the poll function: result and whole new state; it ends, and never polls an inner body that has ended |
| `CompressionAdapter.CompressionBody.IsEndStream` | src/middleware.rs:1068-1070 | says so exactly when the inner body has ended and a poll yields the end and changes nothing |
| `CompressionRuns.GuardExact` | src/middleware.rs:1010-1018 | the guard fires exactly when decompressing a declared length over max + max/64 + 64 |
| `CompressionRuns.CompressVerdict` | src/middleware.rs:932-941 | compressing: exactly what each message becomes, or internal |
| `CompressionRuns.ForwardVerdict` | src/middleware.rs:934-938 | decompressing a message not flagged compressed: it passes as it is, or is resource_exhausted beyond the band |
| `CompressionRuns.DecompressVerdict` | src/middleware.rs:942-973 | decompressing a flagged message: exactly which are delivered, which are resource_exhausted and which internal, a first window over the ceiling among the last |
| `CompressionRuns.PollShrinks` | src/middleware.rs:987-1065 | every poll that yields a frame or pending leaves strictly less to do |
| `CompressionRuns.PollFollowsReference` | src/middleware.rs:982-1066 | one poll yields the head of what the state stands for and leaves a state that stands for the rest |
| `CompressionRuns.DrainIsReference` | src/middleware.rs:982-1066 | for every inner body and from every reachable state, the frames up to the first error, and its code, are those of the reference parse |
| `CompressionRuns.FragmentationInvisible` | src/middleware.rs:982-1066 | bodies that differ only in chunk boundaries and pending polls give the same frames and error |
| `CompressionRuns.PollConserves` | src/middleware.rs:987-1045 | one poll conserves bytes, asks the inner body only while no complete message is buffered and the guard is silent, and answers a cut message with its outcome |
| `CompressionRuns.PollExact` | src/middleware.rs:987-1065 | every answer of a poll and the state it leaves, without recursion: guard, message, end, truncation, trailers, inner error and pending, each with its code |
| `CompressionRuns.RunConserves` | src/middleware.rs:987-1045 | at every moment of every run, errors included, bytes received are the frames cut followed by the buffer |
| `CompressionRuns.CutIsParsed` | src/middleware.rs:987-1027 | the messages cut are the first ones of the parse of everything received, the rest are buffered |
| `CompressionRuns.OutputsAreOutcomes` | src/middleware.rs:1021-1027 | over any run the data yielded is one frame per cut message that did not fail, in order |
| `CompressionRuns.BufferWithinPeak` | src/middleware.rs:1010-1045 | decompressing, over all runs and within each poll, the buffer never exceeds 5 + max + max/64 + 64 - 1 plus the largest chunk |
| `CompressionRuns.PeakReached` | src/middleware.rs:1010-1045 | that bound is exact: for every positive chunk size some body reaches it |
| `CompressionRuns.YieldedWithinCap` | src/middleware.rs:882-890 | a frame yielded carries at most max bytes if it was compressed, and at most the headroom band if forwarded |
| `CompressionRuns.EndOnlyAtEnd` | src/middleware.rs:1032-1070 | the end is yielded only on reaching the state is_end_stream reports, and in it nothing else is |
| `CompressionRuns.EndIsForever` | src/middleware.rs:1068-1070 | once at the end, this poll and all later ones yield the end |
| `CompressionRuns.TruncationIsForever` | src/middleware.rs:1032-1039 | a body that ended inside a message is an error on this poll and every later one, never an end |
| `CompressionRuns.GuardIsForever` | src/middleware.rs:1010-1018 | a declared length over the band is rejected on the header alone, on every later poll, reading nothing more |
| `CompressionRuns.CleanEndAccountsForEveryByte` | src/middleware.rs:1032-1039 | a run that yields the end has cut every byte of the body into messages |
| `RoundTrip.AdaptersCompose` | src/middleware.rs:932-1066 | two adapters in a row, each fed in any fragmentation, act message by message, for all inputs, trailers, failures and error codes included |
| `RoundTrip.HeadroomAdmits` | src/middleware.rs:1010-1018 | no frame encoding a payload within the cap by a codec within its overhead band is rejected by the guard |
| `RoundTrip.HopExact` | src/middleware.rs:932-960 | a message comes back unchanged if and only if its flag, size and encoded length say so |
| `RoundTrip.RoundTripExact` | src/middleware.rs:932-1066 | end to end, the delivered messages and trailers are the originals in order if and only if every message survives |
| `RoundTrip.FlaggedMessageIsLost` | src/middleware.rs:932-938 | a message flagged compressed never comes back unchanged |
| `FrameScanner.ScanForOversizedMessages` | src/server.rs:219-256 | the loop over strides computes the byte-at-a-time scan: verdict and state; it ends, and no subtraction underflows, also after a rejection |
| `FrameScanner.ScanAppend` | src/server.rs:211-218 | scanning a and then b is scanning a + b, with headers split anywhere and empty messages at a chunk's end |
| `FrameScanner.RejectionIsForever` | src/server.rs:227-241 | after a rejection the state stays at the full header and every later chunk that is not empty is rejected |
| `FrameScanner.ScanExact` | src/server.rs:219-256 | the scan has failed if and only if the reference parse holds a complete header over the limit; otherwise it stands where the parse ends |
| `RecvLimit.PrefetchedBody.PollFrame` | src/server.rs:279-304 | replays the queue, then scans and forwards: result and whole new state |
| `RecvLimit.PrefetchedBody.IsEndStream` | src/server.rs:306-308 | true exactly when the next poll yields the end, which then changes nothing |
| `RecvLimit.ScanFrames` | src/server.rs:437-446 | scanning the prefetched frames one by one is one scan of their bytes |
| `RecvLimit.MaxRecvMessageSizeService.Call` | src/server.rs:382-458 | rejects or hands on a rebuilt body exactly as the prefetch and the scan of the prefetched frames say, with the scan state where those frames leave it |
| `RecvLimit.PollsPastEnd` | src/server.rs:407-425 | for every body without error or oversized header, read to its first end: polled past its end twice if it has fewer than five bytes, and once otherwise |
| `RecvLimit.AdmittedSeesOneScan` | src/server.rs:428-452 | replay and streaming together are one scan of the whole body from its start |
| `RecvLimit.ScreenedExact` | src/server.rs:258-265 | the service reads the frames before the one completing the first oversized header, unchanged, then resource_exhausted, or the whole body |
| `RecvLimit.PrefetchExact` | src/server.rs:392-425 | the prefetch takes the shortest run of frames holding a header's worth of bytes, or meets the end or a read error first |
| `RecvLimit.EarlyFailureExactly` | src/server.rs:407-425 | the prefetch fails exactly for a read error within fewer than five bytes, and reaches the end exactly for fewer than five bytes without one |
| `RecvLimit.FirstMessageNeverReachesService` | src/server.rs:392-403 | a first message over the limit is rejected before the service is called, however fragmented |
| `RecvLimit.CallExact` | src/server.rs:382-458 | the whole call, for every body and limit: when the service is not called, and otherwise exactly what it reads |
| `ServedStack.ParsersAgree` | src/server.rs:184-204 | fed the same bytes, the scanner and the adapter stand at the same place of the same message, and the scanner has failed exactly when a length the adapter has seen is over the limit |
| `ServedStack.RebuiltBodyYields` | src/server.rs:279-304 | what each poll of the rebuilt body yields, errors and what follows them included |
| `ServedStack.FilteredExact` | src/server.rs:287-302 | event by event, also after a rejection, what streams through: unchanged, but for each chunk not empty with which the bytes so far hold an oversized header |
| `ServedStack.GuardNeverFires` | src/middleware.rs:1010-1018 | with the limit within the cap, over everything the limiter lets through and in every state, the adapter's early guard is silent |
| `ServedStack.ServiceSeesAtMostCap` | src/middleware.rs:516-528 | every message the service is given is within the decompression cap |
| `ServedStack.RebuiltMeansScreened` | src/server.rs:428-452 | what the adapter polls of an admitted body is, up to fragmentation and delay, that body through one scan from its start |
| `ServedStack.StackCallExact` | src/server.rs:382-458 | every call through limiter and adapter: refused with internal, refused with resource_exhausted, or read by the service, each exactly when, and what is read |
| `ServedStack.ServedRoundTripExact` | src/server.rs:127-159 | through client, network, limiter and adapter the service reads exactly the originals if and only if every message survives and its compressed form is within the receive limit |
| `ServedStack.LimitLeavesNoHeadroom` | src/middleware.rs:998-1006 | with limit and cap equal, for every lawful codec: a message of exactly the cap that it lengthens fits the guard's band and is delivered by the adapters alone, and is refused by the stack |
| `ServedStack.LengthenedMessageExists` | src/middleware.rs:528 | the default limit and cap are both 4 MiB, and a lawful codec lengthens a message of that size |
| `CompressionService.GetExact` | src/middleware.rs:1157-1161 | a header's value is its first, if it is visible ASCII |
| `CompressionService.AcceptsExactlyNames` | src/middleware.rs:1088-1094 | a comma-separated list of names with blanks around them accepts exactly those names |
| `CompressionService.AcceptsListed` | src/middleware.rs:1088-1094 | the accept header names an encoding exactly when one of its comma-separated parts is that name once trimmed |
| `CompressionService.TrimPadded` | src/middleware.rs:1092 | trimming drops the blanks around a token and nothing else |
| `CompressionService.CompressionService.Call` | src/middleware.rs:1133-1191 | the server wrapper's edits of headers and bodies around the inner service, and its error as it is |
| `CompressionService.CompressionClientService.Call` | src/middleware.rs:1247-1302 | the client wrapper's edits of headers and bodies around the channel, and its error as it is |
| `CompressionService.RequestTransparent` | src/middleware.rs:1133-1175 | between matched wrappers the wire names the encoding, the service's copy does not, and the service reads the originals if and only if every message survives |
| `CompressionService.ResponseTransparent` | src/middleware.rs:1177-1302 | the mirror image for the response, which a matched client always gets compressed |
| `CompressionService.RequestFromAnyClient` | src/middleware.rs:1157-1175 | for any request headers: the request is decompressed and its label removed if and only if grpc-encoding is our name, whatever it accepts |
| `CompressionService.ResponseToAnyClient` | src/middleware.rs:1162-1191 | for any request headers: the answer is labelled and compressed, and received exactly when its messages survive, if and only if the client accepts our name, whatever its own encoding; otherwise it is unchanged |
| `CompressionService.ClientWithAnyServer` | src/middleware.rs:1258-1302 | for any server: the request goes out compressed, labelled and accepting our name alone, and the answer is decompressed if and only if it carries our name |
| `CompressionService.SwitchedOffIsInvisible` | src/middleware.rs:1149-1151 | with encoding None both wrappers pass everything through |
| `CompressionService.MismatchedServerInvisible` | src/middleware.rs:1149-1181 | to a client with another encoding or none, a call through the server wrapper is the service's own answer or error |
| `WholeRpc.ServiceGivenOriginals` | src/server.rs:127-159 | through client wrapper, network, limit and server wrapper the service is called with exactly the original messages if and only if all survive and fit the limit |
| `WholeRpc.RpcTransparent` | src/middleware.rs:1133-1302 | a whole call returns what the service, called directly on the originals, answers, if and only if the answer survives the way back, and the service's error if it returns one |
| `WholeRpc.RefusalComesBack` | src/server.rs:416-446 | a refused call reaches the caller as its bare status, untouched by the wrappers |
| `WholeRpc.StatusOnWire` | src/middleware.rs:27-30 | a bare status is a grpc-status header with gRPC's number for the code, and no body |
| `WholeRpc.MismatchedWrappersInvisible` | src/middleware.rs:1133-1302 | with different encodings, or either wrapper switched off, the caller gets what the bare service answers to the request as sent |
| `RateLimit.RateLimitService.Admit` | src/middleware.rs:384-399 | the shared window after a call and whether it was allowed (in numbers: `FirstCallsAdmitted`) |
| `RateLimit.FutureBound` | src/middleware.rs:389-399 | from any state, what is left of the quota and one quota for each window that can still open |
| `RateLimit.RateBound` | src/middleware.rs:389-399 | over any run with a monotone clock, any k times 10^9 nanoseconds admit at most (k + 1) * rps calls, or k + 1 at rate 0 |
| `RateLimit.RateBoundReached` | src/middleware.rs:320-322 | for every rate and every k > 0 a run admits exactly that many in exactly k seconds |
| `RateLimit.RateKeptExactly` | src/middleware.rs:320-322 | from a given moment every run keeps to k * rps calls in k seconds if and only if the window then has admitted its rps, is over, or has not begun |
| `RateLimit.RejectedExactly` | src/middleware.rs:389-406 | a call is rejected if and only if the current window is under a second old and has admitted rps calls, or one at rate 0 |
| `RateLimit.FirstCallsAdmitted` | src/middleware.rs:389-399 | in a new window the first rps calls are admitted and no other |
| `RateLimit.FirstCallsAfterResetAdmitted` | src/middleware.rs:391-397 | a call a second or more into a window opens the next, of which the first rps calls are admitted and no other |
| `Permits.PermitService.Step` | src/middleware.rs:191-309 | the permits and futures after any action on any clone |
| `Permits.PermitsConserved` | src/middleware.rs:162-167 | over every interleaving, free and held permits add up to max_concurrent, or 1 for 0 |
| `Permits.NeverOverCapacity` | src/middleware.rs:140-141 | running inner calls never exceed the capacity, unless shedding is switched off |
| `Permits.ShedsExactlyWhenFull` | src/middleware.rs:286-309 | an enabled shedder rejects a call if and only if the capacity is in flight when it is made |
| `Permits.WaiterProceedsUnlessFull` | src/middleware.rs:191-202 | a waiting call gets a permit exactly when fewer than the capacity run, and is never rejected |
| `Permits.NoPermitLeaks` | src/middleware.rs:191-309 | once every future has completed, timed out or been dropped, every permit is back |
| `Permits.EveryActionActs` | src/middleware.rs:117-309 | in every state each action does what it should to its call, gives back exactly the permit it held, and moves nothing else |
| `Permits.CompletionFrees` | src/middleware.rs:196-201 | in every reachable state completing a running call replies, lowers the number in flight by one and frees what it held |
| `Permits.EveryPermitComesBack` | src/middleware.rs:191-309 | from every reachable state, dropping or timing out every live call in any order leaves none live and every permit free |
| `Permits.RepliesExplained` | src/middleware.rs:117-309 | over every run a reply tells what happened: unavailable only from an enabled shedder, deadline_exceeded only from a deadline, the inner reply only from its completion |
| `Permits.GoneIsFinal` | src/middleware.rs:191-309 | a call that is gone stays gone: its permit is returned once and its reply never changes |

## Left out

- The internals of gzip (RFC 1952) and zstd (RFC 8878): they are the fields of `Codec.Encoding`, used through the laws in `Codec.Lawful`.
- Wakers, pinning, `poll_ready`, the clone-and-replace idiom and the fairness of the semaphore queue: only atomic steps and dropped futures are modelled.
- CompressionService.CompressionService.Call: a body in a request or response is the events reading it yields up to the end or the first error, so what a reader that goes on after an error would see is stated for the adapter and the rebuilt body, not for the wrappers.
- RateLimit.RateLimitService.Admit: the 64-bit counter is unbounded here; wrapping it would take 2^64 calls within one window.
- RecvLimit.PrefetchedBody.IsEndStream: the inner body's own hint, which may be false at its end, is taken to be exact.
- `PrefetchedBody::size_hint`: a sum of queued lengths that no proved property depends on.
- Permits.PermitService.Step: a permit reserved for a queued waiter but not yet polled counts as held by it.
- HTTP header names are compared as they are, without case folding; header values are text.
- Transport setup, TLS, health and reflection services, client connection, config builders, interceptors: wiring and field updates.
- The retry loop, and the unenforced `max_send_message_size`: easy or without behaviour.
- Error message texts: only status codes are modelled.
