/**
 Message (de)compression: the bounded reader, the zstd window arithmetic and the
 two encodings.  The gzip and zstd libraries are the function fields of an
 `Encoding`; `Lawful` lists everything the proofs assume of them.
 */
module Codec {
  import opened Wrappers
  import opened Framing

  const USIZE_LIMIT: nat := 0x1_0000_0000_0000_0000
  const USIZE_MAX: nat := USIZE_LIMIT - 1

  /** A 64-bit `usize`. */
  type usize = n: nat | n < USIZE_LIMIT

  function SaturatingSub(a: nat, b: nat): nat {
    if a < b then 0 else a - b
  }

  // ----- Window arithmetic -----

  function Pow2(k: nat): (p: nat)
    ensures p >= 1
  {
    if k == 0 then 1 else 2 * Pow2(k - 1)
  }

  function BitLength(n: nat): nat {
    if n == 0 then 0 else 1 + BitLength(n / 2)
  }

  function Clamp(n: nat, low: nat, high: nat): nat
    requires low <= high
  {
    if n < low then low else if high < n then high else n
  }

  const MIN_WINDOW_LOG: nat := 10
  const MAX_WINDOW_LOG: nat := 27

  function WindowLogFor(size: nat): nat {
    Clamp(BitLength(if size == 0 then 1 else size), MIN_WINDOW_LOG, MAX_WINDOW_LOG)
  }

  /** The largest windowLog the zstd decoder accepts under an output cap of `max`. */
  function WindowCeiling(max: nat): nat {
    var w := WindowLogFor(max) + 3;
    if w < MAX_WINDOW_LOG then w else MAX_WINDOW_LOG
  }

  lemma {:induction false} BitLengthBounds(n: nat)
    requires n > 0
    ensures BitLength(n) > 0
    ensures Pow2(BitLength(n) - 1) <= n < Pow2(BitLength(n))
  {
    if n > 1 {
      BitLengthBounds(n / 2);
    }
  }

  lemma {:induction false} Pow2Monotone(a: nat, b: nat)
    requires a <= b
    ensures Pow2(a) <= Pow2(b)
  {
    if a < b {
      Pow2Monotone(a, b - 1);
    }
  }

  /** `w` bits hold `size` exactly when the bit length is at most `w`. */
  lemma BitLengthAtMost(size: nat, w: nat)
    ensures BitLength(size) <= w <==> size < Pow2(w)
  {
    if size > 0 {
      BitLengthBounds(size);
      if BitLength(size) <= w {
        Pow2Monotone(BitLength(size), w);
      } else {
        Pow2Monotone(w, BitLength(size) - 1);
      }
    }
  }

  lemma PowersUsed()
    ensures Pow2(13) == 8192
    ensures Pow2(27) == 128 * 1024 * 1024
  {
    assert Pow2(7) == 128;
    assert Pow2(13) == 64 * Pow2(7);
    assert Pow2(20) == 128 * Pow2(13);
    assert Pow2(27) == 128 * Pow2(20);
  }

  /** The window is the smallest one in zstd's range of 10 to 27 that holds `size`, or 27 if none does. */
  lemma WindowLogExact(size: nat)
    ensures var w := WindowLogFor(size);
      && 10 <= w <= 27
      && (size < Pow2(27) ==> size < Pow2(w))
      && (size >= Pow2(27) ==> w == 27)
      && (w > 10 ==> Pow2(w - 1) <= size)
  {
    var w := WindowLogFor(size);
    var n := if size == 0 then 1 else size;
    BitLengthAtMost(n, w);
    BitLengthAtMost(n, w - 1);
    BitLengthAtMost(n, 27);
    PowersUsed();
  }

  lemma WindowLogMonotone(m: nat, n: nat)
    requires m <= n
    ensures WindowLogFor(m) <= WindowLogFor(n)
  {
    var a := if m == 0 then 1 else m;
    var b := if n == 0 then 1 else n;
    BitLengthAtMost(b, BitLength(b));
    BitLengthAtMost(a, BitLength(b));
  }

  /** A frame from our encoder is never turned away for its window. */
  lemma WindowWithinCeiling(n: nat, max: nat)
    requires n <= max
    ensures WindowLogFor(n) <= WindowCeiling(max) <= 27
  {
    WindowLogMonotone(n, max);
  }

  /** Exactly which declared windows a cap admits. */
  lemma CeilingAdmits(w: nat, max: nat)
    ensures w <= WindowCeiling(max) <==> w <= 13 || (w <= 27 && Pow2(w - 4) <= max)
  {
    if 13 < w <= 27 {
      var n := if max == 0 then 1 else max;
      BitLengthAtMost(n, w - 4);
      Pow2Monotone(1, w - 4);
    }
  }

  /** The decoder's window buffer is bounded by the cap (from a floor of 8 KiB) and by 128 MiB. */
  lemma CeilingTracksCap(max: nat)
    ensures Pow2(WindowCeiling(max)) <= (if 16 * max < 8192 then 8192 else 16 * max)
    ensures Pow2(WindowCeiling(max)) <= Pow2(27) == 128 * 1024 * 1024
  {
    var c := WindowCeiling(max);
    CeilingAdmits(c, max);
    WindowLogExact(max);
    Pow2Monotone(c, 27);
    PowersUsed();
    if c <= 13 {
      Pow2Monotone(c, 13);
    } else {
      assert Pow2(c) == 2 * Pow2(c - 1) == 4 * Pow2(c - 2) == 8 * Pow2(c - 3) == 16 * Pow2(c - 4);
    }
  }

  // ----- Reading a decompressor under a cap -----

  /** All a decoder will ever deliver: its output, then end of stream or an error. */
  datatype Decoded = Decoded(output: Bytes, clean: bool)

  datatype DecodeError = SizeExceeded | Corrupt

  /** A decoder being read; how much one `Read` delivers is up to the library. */
  class Reader {
    var rest: Bytes
    const clean: bool

    constructor (d: Decoded)
      ensures rest == d.output && clean == d.clean
    {
      rest, clean := d.output, d.clean;
    }

    method Read(want: nat) returns (r: Result<Bytes, DecodeError>)
      requires want > 0
      modifies this
      ensures old(rest) == [] ==> rest == [] && r == if clean then Ok([]) else Err(Corrupt)
      ensures old(rest) != [] ==> r.Ok? && 0 < |r.value| <= want && r.value + rest == old(rest)
    {
      if rest == [] {
        return if clean then Ok([]) else Err(Corrupt);
      }
      var k: nat :| 0 < k <= want && k <= |rest|;
      r := Ok(rest[..k]);
      rest := rest[k..];
    }
  }

  /** One past the cap, saturating at the largest 64-bit value. */
  function ReadLimit(max: usize): usize {
    if max == USIZE_MAX then USIZE_MAX else max + 1
  }

  function Bounded(d: Decoded, max: usize): Result<Bytes, DecodeError> {
    if |d.output| >= ReadLimit(max) then
      if ReadLimit(max) > max then Err(SizeExceeded) else Ok(d.output[..max])
    else if d.clean then Ok(d.output)
    else Err(Corrupt)
  }

  /** Reads to the end through a limit of one byte more than the cap. */
  method ReadBounded(reader: Reader, max: usize) returns (r: Result<Bytes, DecodeError>)
    modifies reader
    ensures r == Bounded(Decoded(old(reader.rest), reader.clean), max)
    ensures |old(reader.rest)| - |reader.rest| <= max + 1
  {
    var left := ReadLimit(max);
    var out: Bytes := [];
    while left > 0
      invariant 0 <= left <= ReadLimit(max)
      invariant out + reader.rest == old(reader.rest)
      invariant |out| + left == ReadLimit(max)
    {
      var piece := reader.Read(left);
      if piece.Err? {
        return piece;
      }
      if piece.value == [] {
        break;
      }
      assert (out + piece.value) + reader.rest == out + (piece.value + reader.rest);
      out := out + piece.value;
      left := left - |piece.value|;
    }
    assert out == old(reader.rest)[..|out|];
    assert left > 0 ==> reader.rest == [] && reader.clean;
    assert left > 0 ==> out == old(reader.rest);
    if |out| > max {
      return Err(SizeExceeded);
    }
    return Ok(out);
  }

  /** The cap decides exactly, as long as cap or output stays below the largest 64-bit value. */
  lemma BoundedExact(d: Decoded, max: usize)
    requires max < 0xFFFF_FFFF_FFFF_FFFF || |d.output| < 0xFFFF_FFFF_FFFF_FFFF
    ensures Bounded(d, max) == Err(SizeExceeded) <==> |d.output| > max
    ensures Bounded(d, max) == Err(Corrupt) <==> |d.output| <= max && !d.clean
    ensures (exists out :: Bounded(d, max) == Ok(out)) <==> |d.output| <= max && d.clean
    ensures Bounded(d, max) == Ok(d.output) <==> |d.output| <= max && d.clean
  {
    if |d.output| <= max && d.clean {
      assert Bounded(d, max) == Ok(d.output);
    }
  }

  /** Where both reach it, the saturated limit cuts the output short and calls it complete. */
  lemma BoundedSaturates(d: Decoded, max: usize)
    requires max == 0xFFFF_FFFF_FFFF_FFFF <= |d.output|
    ensures Bounded(d, max) == Ok(d.output[..max])
    ensures Bounded(d, max) == Ok(d.output) <==> |d.output| == max
  {
    assert |d.output| == max ==> d.output[..max] == d.output;
    assert |d.output[..max]| == max;
  }

  // ----- The encodings -----

  /**
   The zstd decoder is given its window ceiling, since what it delivers depends on it;
   `zstdWindow` is the windowLog the first frame of the data declares.
   */
  datatype Encoding =
    | Gzip(gzEncode: Bytes -> Option<Bytes>, gzDecode: Bytes -> Decoded)
    | Zstd(zstdEncode: (Bytes, nat) -> Option<Bytes>, zstdDecode: (Bytes, nat) -> Decoded, zstdWindow: Bytes -> nat)
    | NoEncoding

  function CompressBytes(e: Encoding, data: Bytes): Option<Bytes> {
    match e
    case Gzip(encode, _) => encode(data)
    case Zstd(encode, _, _) => encode(data, WindowLogFor(|data|))
    case NoEncoding => Some(data)
  }

  /** All the library would deliver for `data`, read without a bound. */
  function DecoderOutput(e: Encoding, data: Bytes, max: usize): Decoded {
    match e
    case Gzip(_, decode) => decode(data)
    case Zstd(_, decode, _) => decode(data, WindowCeiling(max))
    case NoEncoding => Decoded(data, true)
  }

  function DecompressedBytes(e: Encoding, data: Bytes, max: usize): Result<Bytes, DecodeError> {
    if e.NoEncoding? then Ok(data) else Bounded(DecoderOutput(e, data, max), max)
  }

  method DecompressBytes(e: Encoding, data: Bytes, max: usize) returns (r: Result<Bytes, DecodeError>)
    ensures r == DecompressedBytes(e, data, max)
  {
    match e
    case Gzip(_, decode) =>
      var decoder := new Reader(decode(data));
      r := ReadBounded(decoder, max);
    case Zstd(_, decode, _) =>
      var ceiling := WindowLogFor(max) + 3;
      if ceiling > MAX_WINDOW_LOG {
        ceiling := MAX_WINDOW_LOG;
      }
      var decoder := new Reader(decode(data, ceiling));
      r := ReadBounded(decoder, max);
    case NoEncoding =>
      r := Ok(data);
  }

  function Headroom(size: nat): nat {
    size / 64 + 64
  }

  /**
   What the proofs ask of a library: a decoder inverts its encoder, whose overhead is within the band;
   and for zstd, an encoder keeps to the window it is given, and data whose first frame declares a
   window over the ceiling is refused before any output.
   */
  ghost predicate Lawful(e: Encoding) {
    match e
    case Gzip(encode, decode) =>
      forall x: Bytes :: encode(x).Some? ==>
        |encode(x).value| <= |x| + |x| / 64 + 64 && decode(encode(x).value) == Decoded(x, true)
    case Zstd(encode, decode, window) =>
      && (forall x: Bytes, w: nat :: 10 <= w <= 27 && encode(x, w).Some? ==>
            && |encode(x, w).value| <= |x| + |x| / 64 + 64
            && window(encode(x, w).value) <= w)
      && (forall x: Bytes, w: nat, c: nat :: 10 <= w <= 27 && encode(x, w).Some? ==>
            window(encode(x, w).value) <= c ==> decode(encode(x, w).value, c) == Decoded(x, true))
      && (forall b: Bytes, c: nat :: window(b) > c ==> decode(b, c) == Decoded([], false))
    case NoEncoding => false
  }

  /** Decompressing what was compressed gives it back exactly up to the cap, and an error above it. */
  lemma CompressThenDecompress(e: Encoding, x: Bytes, max: usize)
    requires Lawful(e) && CompressBytes(e, x).Some?
    requires |x| < U32_LIMIT
    ensures |CompressBytes(e, x).value| <= |x| + Headroom(|x|)
    ensures var r := DecompressedBytes(e, CompressBytes(e, x).value, max);
      if |x| <= max then r == Ok(x) else r.Err?
  {
    BoundedExact(Decoded(x, true), max);
    WindowLogExact(|x|);
    if e.Zstd? {
      var b := CompressBytes(e, x).value;
      if |x| <= max {
        WindowWithinCeiling(|x|, max);
      }
      if e.zstdWindow(b) <= WindowCeiling(max) {
        assert e.zstdDecode(b, WindowCeiling(max)) == Decoded(x, true);
      } else {
        assert e.zstdDecode(b, WindowCeiling(max)) == Decoded([], false);
      }
    }
  }

  /** Which library call compresses a payload: for zstd, under the smallest window from 10 to 27 that holds it. */
  lemma CompressesUnder(e: Encoding, data: Bytes, w: nat)
    requires 10 <= w <= 27 && (w < 27 ==> |data| < Pow2(w)) && (w > 10 ==> Pow2(w - 1) <= |data|)
    ensures e.Gzip? ==> CompressBytes(e, data) == e.gzEncode(data)
    ensures e.Zstd? ==> CompressBytes(e, data) == e.zstdEncode(data, w)
    ensures e.NoEncoding? ==> CompressBytes(e, data) == Some(data)
  {
    WindowLogExact(|data|);
    var v := WindowLogFor(|data|);
    if v < w {
      Pow2Monotone(v, w - 1);
    } else if w < v {
      Pow2Monotone(w, v - 1);
    }
  }

  /**
   Which library call decompresses a payload: for zstd, under the ceiling three above the smallest window
   from 10 that holds the cap, and at most 27.
   */
  lemma DecompressesUnder(e: Encoding, data: Bytes, max: usize, c: nat)
    requires 13 <= c <= 27 && (c < 27 ==> max < Pow2(c - 3)) && (c > 13 ==> Pow2(c - 4) <= max)
    ensures e.Gzip? ==> DecompressedBytes(e, data, max) == Bounded(e.gzDecode(data), max)
    ensures e.Zstd? ==> DecompressedBytes(e, data, max) == Bounded(e.zstdDecode(data, c), max)
    ensures e.NoEncoding? ==> DecompressedBytes(e, data, max) == Ok(data)
  {
    var v := WindowCeiling(max);
    CeilingAdmits(c, max);
    CeilingAdmits(v, max);
    CeilingAdmits(c + 1, max);
  }

  /** Whatever a decoder lets through stays within the cap. */
  lemma DecompressedWithinCap(e: Encoding, data: Bytes, max: usize)
    requires !e.NoEncoding? && DecompressedBytes(e, data, max).Ok?
    ensures |DecompressedBytes(e, data, max).value| <= max
  {
  }

  // ----- The laws can be met -----

  function StoreGzip(): Encoding {
    Gzip((x: Bytes) => Some(x), (b: Bytes) => Decoded(b, true))
  }

  /** Stores the window log in one byte before the data. */
  function StoreZstd(): Encoding {
    Zstd((x: Bytes, w: nat) => if w < 256 then Some([w] + x) else None,
         (b: Bytes, c: nat) => if b == [] || b[0] > c then Decoded([], false) else Decoded(b[1..], true),
         (b: Bytes) => if b == [] then 0 else b[0])
  }

  lemma StoredCodecsAreLawful()
    ensures Lawful(StoreGzip()) && Lawful(StoreZstd())
  {
    var z := StoreZstd();
    forall x: Bytes, w: nat, c: nat | z.zstdEncode(x, w).Some? && z.zstdWindow(z.zstdEncode(x, w).value) <= c
      ensures z.zstdDecode(z.zstdEncode(x, w).value, c) == Decoded(x, true)
    {
      assert ([w] + x)[1..] == x;
    }
  }
}
