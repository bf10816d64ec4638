/** SquashFS metadata (`crates/lamfold-squash/src/squash.rs`): blocks decoded one after another
    and read as one stream. */
module SquashMeta {
  import opened Bytes
  import opened Windows

  const META_MAX: nat := 8192

  /** A codec: what a block decodes to, of at most so many bytes, if it does. */
  type Decode = (seq<byte>, nat) -> Result<seq<byte>>

  /** The medium and the codec of its blocks. */
  datatype Medium = Medium(src: seq<byte>, decode: Decode)

  /** `read_meta_block`: the block at `at`, decoded, and where the next one is. */
  function MetaBlock(m: Medium, at: nat): (r: Result<(seq<byte>, nat)>)
    ensures r.Ok? ==> at < r.value.1 <= |m.src|
  {
    var hdr :- ReadSource(m.src, at, 2);
    var len := Le16(hdr, 0) % 0x8000;
    var raw :- ReadSource(m.src, at + 2, len);
    var data :- if Le16(hdr, 0) >= 0x8000 then Ok(raw) else m.decode(raw, META_MAX);
    Ok((data, at + 2 + len))
  }

  /** Byte `q` of the blocks from `at` on, laid end to end. */
  function StreamByte(m: Medium, at: nat, q: nat): Option<byte>
    decreases |m.src| - at
  {
    var b := MetaBlock(m, at);
    if b.Err? then None
    else if q < |b.value.0| then Some(b.value.0[q])
    else StreamByte(m, b.value.1, q - |b.value.0|)
  }

  function Stream(m: Medium, at: nat): Content
  {
    (q: nat) => StreamByte(m, at, q)
  }

  // ----- spans -----

  /** The loop of `read_meta_span`: `want` more bytes, from `pos` of a block on. A block that
      is empty ends the span. */
  function SpanFrom(m: Medium, block: seq<byte>, pos: nat, next: nat, want: nat): Result<seq<byte>>
    decreases |m.src| - next, want
  {
    if want == 0 then Ok([])
    else if pos < |block| then
      var take := Min(want, |block| - pos);
      var rest :- SpanFrom(m, block, pos + take, next, want - take);
      Ok(block[pos..pos + take] + rest)
    else
      var b :- MetaBlock(m, next);
      if b.0 == [] then Ok([]) else SpanFrom(m, b.0, 0, b.1, want)
  }

  /** `read_meta_span`. */
  function MetaSpan(m: Medium, at: nat, offset: nat, length: nat): Result<seq<byte>>
  {
    var _ :- CheckedFullReadLen(length);
    var b :- MetaBlock(m, at);
    SpanFrom(m, b.0, offset, b.1, length)
  }

  /** What is read and what is left to read make the whole. */
  ghost predicate Completes(out: seq<byte>, rest: Result<seq<byte>>, whole: Result<seq<byte>>)
  {
    if rest.Ok? then whole.Ok? && whole.value == out + rest.value else whole == rest
  }

  lemma {:induction false} SpanTakes(m: Medium, block: seq<byte>, pos: nat, next: nat, want: nat, take: nat, out: seq<byte>, whole: Result<seq<byte>>)
    requires want > 0 && pos < |block| && take == Min(want, |block| - pos) && Completes(out, SpanFrom(m, block, pos, next, want), whole)
    ensures Completes(out + block[pos..pos + take], SpanFrom(m, block, pos + take, next, want - take), whole)
  {
    var rest := SpanFrom(m, block, pos + take, next, want - take);
    if rest.Ok? { Associate(out, block[pos..pos + take], rest.value); }
  }

  method ReadMetaSpan(m: Medium, at: nat, offset: nat, length: nat) returns (r: Result<seq<byte>>)
    ensures r == MetaSpan(m, at, offset, length)
  {
    var cap := CheckedFullReadLen(length);
    if cap.Err? { return Err(cap.error); }
    var out: seq<byte> := [];
    var first := MetaBlock(m, at);
    if first.Err? { return Err(first.error); }
    var block: seq<byte>, next: nat, pos: nat := first.value.0, first.value.1, offset;
    ghost var whole := SpanFrom(m, block, pos, next, length);
    ghost var left: nat := length;
    while |out| < length
      invariant |out| + left == length
      invariant Completes(out, SpanFrom(m, block, pos, next, left), whole)
      decreases |m.src| - next, left
    {
      if pos >= |block| {
        var b := MetaBlock(m, next);
        if b.Err? { return Err(b.error); }
        block, next, pos := b.value.0, b.value.1, 0;
        if block == [] { break; }
      }
      var take := Min(length - |out|, |block| - pos);
      SpanTakes(m, block, pos, next, left, take, out, whole);
      out := out + block[pos..pos + take];
      pos := pos + take;
      left := left - take;
    }
    assert out + [] == out;
    r := Ok(out);
  }

  // ----- the span is a slice of the stream -----

  /** What a span of `want` bytes is of a content from `base` on: all of it, or, when it ends
      early, less; or an error, where the content is missing. */
  ghost predicate SpanIs(at: Content, base: nat, want: nat, r: Result<seq<byte>>, ended: bool)
  {
    && (r.Ok? ==> IsContent(at, base, r.value) && |r.value| <= want && (|r.value| < want <==> ended))
    && (r.Err? ==> Unreadable(at, base, want))
  }

  /** Of the blocks from `next` on, an empty one comes before they have given `missing` bytes. */
  ghost predicate EmptyBefore(m: Medium, next: nat, missing: int)
    decreases |m.src| - next
  {
    var b := MetaBlock(m, next);
    missing > 0 && b.Ok? && (b.value.0 == [] || EmptyBefore(m, b.value.1, missing - |b.value.0|))
  }

  /** A span that takes `take` bytes of its block is what is left, with those before it. */
  lemma {:induction false} TakeIs(at: Content, base: nat, part: seq<byte>, want: nat, left: nat, rest: Result<seq<byte>>, ended: bool)
    requires IsContent(at, base, part) && want == |part| + left && SpanIs(at, base + |part|, left, rest, ended)
    ensures SpanIs(at, base, want, if rest.Ok? then Ok(part + rest.value) else rest, ended)
  {
    if rest.Ok? { ContentExtends(at, base, part, rest.value); }
  }

  /** From `pos` of the block that starts at `start` of a stream, a span is that part of the
      stream; it falls short exactly when an empty block comes too early, and fails only where
      the stream does. */
  lemma {:induction false} SpanFromIs(m: Medium, at: Content, start: nat, block: seq<byte>, pos: nat, next: nat, want: nat)
    requires pos <= |block| && IsContent(at, start, block)
    requires forall q: nat {:trigger at(q)} :: q >= start + |block| ==> at(q) == StreamByte(m, next, q - (start + |block|))
    ensures SpanIs(at, start + pos, want, SpanFrom(m, block, pos, next, want), EmptyBefore(m, next, want - (|block| - pos)))
    decreases |m.src| - next, want
  {
    if want == 0 {
    } else if pos < |block| {
      var take := Min(want, |block| - pos);
      SpanFromIs(m, at, start, block, pos + take, next, want - take);
      ContentPart(at, start, block, pos, pos + take);
      TakeIs(at, start + pos, block[pos..pos + take], want, want - take, SpanFrom(m, block, pos + take, next, want - take),
             EmptyBefore(m, next, want - take - (|block| - (pos + take))));
    } else {
      var b := MetaBlock(m, next);
      if b.Err? {
        assert at(start + pos) == StreamByte(m, next, 0) == None;
      } else if b.value.0 != [] {
        BlockIsContent(m, at, start + |block|, next);
        SpanFromIs(m, at, start + |block|, b.value.0, 0, b.value.1, want);
      }
    }
  }

  lemma {:induction false} BlockIsContent(m: Medium, at: Content, start: nat, next: nat)
    requires MetaBlock(m, next).Ok?
    requires forall q: nat {:trigger at(q)} :: q >= start ==> at(q) == StreamByte(m, next, q - start)
    ensures IsContent(at, start, MetaBlock(m, next).value.0)
    ensures forall q: nat {:trigger at(q)} :: q >= start + |MetaBlock(m, next).value.0| ==>
              at(q) == StreamByte(m, MetaBlock(m, next).value.1, q - (start + |MetaBlock(m, next).value.0|))
  {
  }

  /** `read_meta_span` reads a slice of the stream, from the given offset when that lies in the
      first block; an offset beyond it counts as its end. It is short exactly when an empty
      block after the first comes before its end. */
  lemma {:induction false} MetaSpanIsSlice(m: Medium, at: nat, offset: nat, length: nat)
    requires length <= MAX_BOOT_FILE_BYTES && MetaBlock(m, at).Ok?
    ensures var (first, next) := MetaBlock(m, at).value;
            var from := Min(offset, |first|);
            SpanIs(Stream(m, at), from, length, MetaSpan(m, at, offset, length), EmptyBefore(m, next, length - (|first| - from)))
  {
    var (first, next) := MetaBlock(m, at).value;
    BlockIsContent(m, Stream(m, at), 0, at);
    SpanFromIs(m, Stream(m, at), 0, first, Min(offset, |first|), next, length);
  }
}
