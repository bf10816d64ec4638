/** Self-delimiting compressed streams (`crates/lamfold/src/stream.rs`): the framing around the
    decompressors, its caps, and the gzip checksum. The decompressors are parameters. */
module Streams {
  import opened Bytes
  import opened CpioChain
  import opened CpioVolume
  import Crc32

  /** What a decompressor yields as it is driven: chunks, and then the input it used or why
      it stopped. */
  datatype Chunks = Chunks(chunks: seq<seq<byte>>, end: Result<nat>)

  /** The decompressors. An LZ4 block is decoded into a buffer of a given size. */
  datatype Inner = Inner(
    inflate: seq<byte> -> Chunks, zstdFrame: seq<byte> -> Chunks, xz: seq<byte> -> Chunks, lzma: seq<byte> -> Chunks,
    lz4Block: (seq<byte>, nat) -> Result<seq<byte>>)
  {
    /** They read from what they are given, an LZ4 block fits its buffer, and the streams that
        are not framed here begin with a header. */
    ghost predicate Honest()
    {
      && (forall x {:trigger inflate(x)} :: inflate(x).end.Ok? ==> inflate(x).end.value <= |x|)
      && (forall x {:trigger zstdFrame(x)} :: zstdFrame(x).end.Ok? ==> 1 <= zstdFrame(x).end.value <= |x|)
      && (forall x {:trigger xz(x)} :: xz(x).end.Ok? ==> 1 <= xz(x).end.value <= |x|)
      && (forall x {:trigger lzma(x)} :: lzma(x).end.Ok? ==> 1 <= lzma(x).end.value <= |x|)
      && (forall x, n {:trigger lz4Block(x, n)} :: lz4Block(x, n).Ok? ==> |lz4Block(x, n).value| <= n)
    }
  }

  // ----- capped output -----

  /** `push_capped`. */
  function PushCapped(out: seq<byte>, chunk: seq<byte>, maxOut: nat): Result<seq<byte>>
  {
    if |out| + |chunk| > maxOut then Err(FileTooLarge) else Ok(out + chunk)
  }

  function PushAll(out: seq<byte>, chunks: seq<seq<byte>>, k: nat, maxOut: nat): Result<seq<byte>>
    decreases |chunks| - k
  {
    if k >= |chunks| then Ok(out)
    else
      var more :- PushCapped(out, chunks[k], maxOut);
      PushAll(more, chunks, k + 1, maxOut)
  }

  lemma {:induction false} PushAllCapped(out: seq<byte>, chunks: seq<seq<byte>>, k: nat, maxOut: nat)
    requires |out| <= maxOut
    ensures var r := PushAll(out, chunks, k, maxOut); r.Ok? ==> |r.value| <= maxOut
    decreases |chunks| - k
  {
    if k < |chunks| && PushCapped(out, chunks[k], maxOut).Ok? { PushAllCapped(out + chunks[k], chunks, k + 1, maxOut); }
  }

  /** A whole stream read to its end: `inflate_raw_stream`, `xz`, `lzma`. The cap is met
      before anything past it fails. */
  function ReadAll(c: Chunks, maxOut: nat): Result<(seq<byte>, nat)>
  {
    var out :- PushAll([], c.chunks, 0, maxOut);
    var used :- c.end;
    Ok((out, used))
  }

  // ----- gzip -----

  /** Past a NUL-terminated field. */
  function PastNul(x: seq<byte>, pos: nat): (r: Option<nat>)
    ensures r.Some? ==> pos < r.value <= |x| && x[r.value - 1] == 0 && forall i :: pos <= i < r.value - 1 ==> x[i] != 0
    decreases |x| - pos
  {
    if pos >= |x| then None else if x[pos] == 0 then Some(pos + 1) else PastNul(x, pos + 1)
  }

  function Flag(flg: byte, bit: nat): bool
    requires bit > 0
  {
    flg / bit % 2 == 1
  }

  /** Where the compressed data starts (section 2.3 of RFC 1952). */
  function GzipBody(x: seq<byte>): (r: Result<nat>)
    ensures r.Ok? ==> 10 <= r.value <= |x|
  {
    if |x| < 10 || x[0] != 0x1f || x[1] != 0x8b || x[2] != 8 || x[3] >= 0x20 then Err(Corrupt)
    else
      var flg := x[3];
      if Flag(flg, 4) && |x| < 12 then Err(Corrupt)
      else
        var afterExtra := if Flag(flg, 4) then 12 + Le16(x, 10) else 10;
        var afterName := if Flag(flg, 8) then PastNul(x, afterExtra) else Some(afterExtra);
        if afterName.None? then Err(Corrupt)
        else
          var afterComment := if Flag(flg, 16) then PastNul(x, afterName.value) else Some(afterName.value);
          if afterComment.None? then Err(Corrupt)
          else
            var body := if Flag(flg, 2) then afterComment.value + 2 else afterComment.value;
            if body > |x| then Err(Corrupt) else Ok(body)
  }

  function CrcValue(data: seq<byte>): nat
  {
    Crc32.Value(Crc32.Crc(data))
  }

  /** `gzip`. */
  function Gzip(n: Inner, x: seq<byte>, maxOut: nat): Result<(seq<byte>, nat)>
  {
    var body :- GzipBody(x);
    var (out, used) :- ReadAll(n.inflate(x[body..]), maxOut);
    var pos := body + used;
    if pos + 8 > |x| then Err(Corrupt)
    else if Le32(x, pos) != CrcValue(out) || Le32(x, pos + 4) != |out| % U32 then Err(Corrupt)
    else Ok((out, pos + 8))
  }

  lemma {:induction false} CrcValueInjective(a: seq<byte>, b: seq<byte>)
    requires CrcValue(a) == CrcValue(b)
    ensures Crc32.Crc(a) == Crc32.Crc(b)
  {
    Crc32.BitsOfValue(Crc32.Crc(a), 32);
    Crc32.BitsOfValue(Crc32.Crc(b), 32);
    assert Crc32.Crc(a) == Crc32.Bits(CrcValue(a), 32);
    assert Crc32.Crc(b) == Crc32.Bits(CrcValue(b), 32);
  }

  /** A member that decompresses to anything that differs from what was compressed only
      within four consecutive bytes is refused: its trailer holds the other checksum. */
  lemma {:induction false} GzipRefusesBurst(n: Inner, x: seq<byte>, maxOut: nat, prefix: seq<byte>, a: seq<byte>, b: seq<byte>, suffix: seq<byte>)
    requires GzipBody(x).Ok? && |a| == |b| <= 4 && a != b
    requires var r := ReadAll(n.inflate(x[GzipBody(x).value..]), maxOut);
             r.Ok? && r.value.0 == prefix + b + suffix
             && var pos := GzipBody(x).value + r.value.1; pos + 8 <= |x| && Le32(x, pos) == CrcValue(prefix + a + suffix)
    ensures Gzip(n, x, maxOut) == Err(Corrupt)
  {
    Crc32.BurstDetected(prefix, a, b, suffix);
    if CrcValue(prefix + a + suffix) == CrcValue(prefix + b + suffix) {
      CrcValueInjective(prefix + a + suffix, prefix + b + suffix);
    }
  }

  // ----- zstd -----

  predicate IsSkippable(x: seq<byte>)
  {
    |x| >= 8 && x[0] / 16 == 5 && x[1] == 0x2a && x[2] == 0x4d && x[3] == 0x18
  }

  /** The loop of `zstd`: frames, with skippable frames between them. */
  function ZstdFrom(n: Inner, x: seq<byte>, pos: nat, out: seq<byte>, frames: nat, maxOut: nat): Result<(seq<byte>, nat)>
    requires pos <= |x| && n.Honest()
    decreases |x| - pos
  {
    var rest := x[pos..];
    if IsSkippable(rest) then
      if 8 + Le32(rest, 4) > |rest| then Err(Corrupt) else ZstdFrom(n, x, pos + 8 + Le32(rest, 4), out, frames, maxOut)
    else if [0x28, 0xb5, 0x2f, 0xfd] <= rest then
      var (frame, used) :- ReadAll(n.zstdFrame(rest), Max(0, maxOut - |out|));
      var more :- PushCapped(out, frame, maxOut);
      ZstdFrom(n, x, pos + used, more, frames + 1, maxOut)
    else if frames == 0 then Err(Corrupt)
    else Ok((out, pos))
  }

  lemma {:induction false} ZstdBounded(n: Inner, x: seq<byte>, pos: nat, out: seq<byte>, frames: nat, maxOut: nat)
    requires pos <= |x| && n.Honest() && |out| <= maxOut && (frames > 0 ==> pos > 0)
    ensures var r := ZstdFrom(n, x, pos, out, frames, maxOut); r.Ok? ==> |r.value.0| <= maxOut && 1 <= r.value.1 <= |x|
    decreases |x| - pos
  {
    var rest := x[pos..];
    if IsSkippable(rest) {
      if 8 + Le32(rest, 4) <= |rest| { ZstdBounded(n, x, pos + 8 + Le32(rest, 4), out, frames, maxOut); }
    } else if [0x28, 0xb5, 0x2f, 0xfd] <= rest {
      var frame := ReadAll(n.zstdFrame(rest), maxOut - |out|);
      if frame.Ok? && PushCapped(out, frame.value.0, maxOut).Ok? {
        ZstdBounded(n, x, pos + frame.value.1, out + frame.value.0, frames + 1, maxOut);
      }
    }
  }

  // ----- lz4 legacy -----

  const LZ4_LEGACY_MAGIC: seq<byte> := [0x02, 0x21, 0x4c, 0x18]
  const LZ4_LEGACY_BLOCK: nat := 8 * 1024 * 1024
  const LZ4_LEGACY_MAX_COMPRESSED: nat := 8 * 1024 * 1024 + 8 * 1024 * 1024 / 255 + 16

  /** The loop of `lz4_legacy`: blocks until a size that cannot be one. */
  function Lz4From(n: Inner, x: seq<byte>, pos: nat, out: seq<byte>, maxOut: nat): Result<(seq<byte>, nat)>
    decreases |x| - pos
  {
    if pos + 4 > |x| then Ok((out, pos))
    else if x[pos..pos + 4] == LZ4_LEGACY_MAGIC then Lz4From(n, x, pos + 4, out, maxOut)
    else
      var size := Le32(x, pos);
      if size == 0 || size > LZ4_LEGACY_MAX_COMPRESSED || size > |x| - pos - 4 then Ok((out, pos))
      else
        var room := Min(LZ4_LEGACY_BLOCK, Max(0, maxOut - |out|));
        match n.lz4Block(x[pos + 4..pos + 4 + size], room)
        case Ok(block) => Lz4From(n, x, pos + 4 + size, out + block, maxOut)
        case Err(_) => Err(if room < LZ4_LEGACY_BLOCK then FileTooLarge else Decompress)
  }

  lemma {:induction false} Lz4Bounded(n: Inner, x: seq<byte>, pos: nat, out: seq<byte>, maxOut: nat)
    requires n.Honest() && |out| <= maxOut && pos <= |x|
    ensures var r := Lz4From(n, x, pos, out, maxOut); r.Ok? ==> |r.value.0| <= maxOut && pos <= r.value.1 <= |x|
    decreases |x| - pos
  {
    if pos + 4 <= |x| {
      if x[pos..pos + 4] == LZ4_LEGACY_MAGIC {
        Lz4Bounded(n, x, pos + 4, out, maxOut);
      } else {
        var size := Le32(x, pos);
        if size > 0 && size <= LZ4_LEGACY_MAX_COMPRESSED && size <= |x| - pos - 4 {
          var block := n.lz4Block(x[pos + 4..pos + 4 + size], Min(LZ4_LEGACY_BLOCK, Max(0, maxOut - |out|)));
          if block.Ok? { Lz4Bounded(n, x, pos + 4 + size, out + block.value, maxOut); }
        }
      }
    }
  }

  // ----- every stream -----

  /** `decode_stream`. */
  function DecodeStream(n: Inner, codec: Codec, x: seq<byte>, maxOut: nat): Result<(seq<byte>, nat)>
    requires n.Honest()
  {
    match codec
    case Gzip => Gzip(n, x, maxOut)
    case Zstd => ZstdFrom(n, x, 0, [], 0, maxOut)
    case Xz => ReadAll(n.xz(x), maxOut)
    case Lzma => ReadAll(n.lzma(x), maxOut)
    case Lz4Legacy => if LZ4_LEGACY_MAGIC <= x then Lz4From(n, x, 4, [], maxOut) else Err(Corrupt)
    case Bzip2 => Err(Unsupported)
    case Lzo => Err(Unsupported)
  }

  /** What the initramfs chain rests on: a stream never exceeds its cap, and uses at least
      one byte of its input and no more than there is. */
  lemma {:induction false} DecodeStreamBounded(n: Inner, codec: Codec, x: seq<byte>, maxOut: nat)
    requires n.Honest()
    ensures var r := DecodeStream(n, codec, x, maxOut); r.Ok? ==> |r.value.0| <= maxOut && 1 <= r.value.1 <= |x|
  {
    match codec
    case Gzip => if GzipBody(x).Ok? { PushAllCapped([], n.inflate(x[GzipBody(x).value..]).chunks, 0, maxOut); }
    case Zstd => ZstdBounded(n, x, 0, [], 0, maxOut);
    case Xz => PushAllCapped([], n.xz(x).chunks, 0, maxOut);
    case Lzma => PushAllCapped([], n.lzma(x).chunks, 0, maxOut);
    case Lz4Legacy => if LZ4_LEGACY_MAGIC <= x { Lz4Bounded(n, x, 4, [], maxOut); }
    case Bzip2 =>
    case Lzo =>
  }

  /** So the chain's assumption about its decoder holds of `decode_stream`. */
  lemma {:induction false} StreamsAreBounded(n: Inner, t: Tools)
    requires n.Honest() && forall c, x, cap {:trigger t.decode(c, x, cap)} :: t.decode(c, x, cap) == DecodeStream(n, c, x, cap)
    ensures t.Bounded()
  {
    forall c, x, cap | t.decode(c, x, cap).Ok?
      ensures |t.decode(c, x, cap).value.0| <= cap && 1 <= t.decode(c, x, cap).value.1 <= |x|
    {
      DecodeStreamBounded(n, c, x, cap);
    }
  }
}
