/** Decoding an EROFS compressed inode (`crates/lamfold-erofs/src/erofs.rs`): pcluster by
    pcluster, forward, into one buffer. The decompressors are function parameters. */
module ErofsDecode {
  import opened Bytes
  import opened ErofsIndex
  import opened Frontend

  const ALGO_LZ4: nat := 0
  const ALGO_LZMA: nat := 1
  const ALGO_DEFLATE: nat := 2
  const ALGO_ZSTD: nat := 3
  const LZMA_PROPS_MAX: nat := 224
  const LZ4_WINDOW: nat := 65536

  const COMPACT_LOBITS: nat := 12
  const COMPRESSED_FULL: nat := 1
  const COMPRESSED_COMPACT: nat := 3

  /** The decompressors: input, (LZMA properties and window,) output length, (LZ4 dictionary). */
  datatype Codecs = Codecs(
    lz4: (seq<byte>, nat, seq<byte>) -> Result<seq<byte>>,
    deflate: (seq<byte>, nat) -> Result<seq<byte>>,
    zstd: (seq<byte>, nat) -> Result<seq<byte>>,
    lzma: (seq<byte>, byte, nat, nat) -> Result<seq<byte>>)
  {
    /** What the substrate's wrappers promise: MicroLZMA checks it filled the output, Zstd
        stops at the output length but may stop short. The other two are checked here. */
    ghost predicate Honest()
    {
      && (forall x, p, d, n :: lzma(x, p, d, n).Ok? ==> |lzma(x, p, d, n).value| == n)
      && (forall x, n :: zstd(x, n).Ok? ==> |zstd(x, n).value| <= n)
    }
  }

  datatype Inode = Inode(kind: FileKind, size: nat, mode: nat, layout: nat, rawBlkaddr: nat, inlineOff: nat)

  /** A mounted volume: the source and what `open` reads from the superblock. */
  datatype Volume = Volume(src: seq<byte>, blkszbits: nat, metaOff: nat, lz4ZeroPadding: bool, lzmaDict: Option<nat>, codecs: Codecs)
  {
    function BlockSize(): nat
    {
      Pow2(blkszbits)
    }
  }

  // ----- one pcluster -----

  function FirstNonZero(span: seq<byte>): (r: Option<nat>)
    ensures r.Some? ==> r.value < |span| && span[r.value] != 0 && forall i :: 0 <= i < r.value ==> span[i] == 0
    ensures r.None? ==> forall i :: 0 <= i < |span| ==> span[i] == 0
  {
    if span == [] then None
    else if span[0] != 0 then Some(0)
    else match FirstNonZero(span[1..]) case None => None case Some(i) => Some(i + 1)
  }

  /** `decode` of the codec registry: the output length is capped before any work. */
  function Capped(f: (seq<byte>, nat) -> Result<seq<byte>>, input: seq<byte>, outlen: nat): Result<seq<byte>>
  {
    if CheckedBlockLen(outlen).Err? then Err(FileTooLarge) else f(input, outlen)
  }

  function Exactly(r: Result<seq<byte>>, outlen: nat, error: Error): Result<seq<byte>>
  {
    if r.Ok? && |r.value| != outlen then Err(error) else r
  }

  function Lz4Pcluster(c: Codecs, span: seq<byte>, outlen: nat, win: seq<byte>, zeroPadding: bool): Result<seq<byte>>
  {
    var first := FirstNonZero(span);
    if zeroPadding && first.None? then Err(Corrupt)
    else
      var start := if zeroPadding then first.value else 0;
      if CheckedBlockLen(outlen).Err? then Err(FileTooLarge)
      else Exactly(c.lz4(span[start..], outlen, win), outlen, Corrupt)
  }

  /** Offset 0 first, then the first non-zero byte; a refusal is final, any other failure
      (a wrong length included) moves on. */
  function DeflatePcluster(c: Codecs, span: seq<byte>, outlen: nat): Result<seq<byte>>
  {
    var first := FirstNonZero(span);
    var fnz := if first.Some? then first.value else 0;
    DeflateFrom(c, span, outlen, [0, fnz], Corrupt)
  }

  function DeflateFrom(c: Codecs, span: seq<byte>, outlen: nat, starts: seq<nat>, last: Error): Result<seq<byte>>
  {
    if starts == [] then Err(last)
    else
      var tail := if starts[0] <= |span| then span[starts[0]..] else [];
      match Capped(c.deflate, tail, outlen)
      case Ok(v) => if |v| == outlen then Ok(v) else DeflateFrom(c, span, outlen, starts[1..], last)
      case Err(e) => if e == Unsupported || e == FileTooLarge then Err(e) else DeflateFrom(c, span, outlen, starts[1..], e)
  }

  function FindMagic(span: seq<byte>): (r: Option<nat>)
    ensures r.Some? ==> r.value + 4 <= |span|
  {
    if |span| < 4 then None
    else if span[..4] == [0x28, 0xb5, 0x2f, 0xfd] then Some(0)
    else match FindMagic(span[1..]) case None => None case Some(i) => Some(i + 1)
  }

  function ZstdPcluster(c: Codecs, span: seq<byte>, outlen: nat): Result<seq<byte>>
  {
    match FindMagic(span)
    case None => Err(Corrupt)
    case Some(start) => Capped(c.zstd, span[start..], outlen)
  }

  function LzmaPcluster(c: Codecs, span: seq<byte>, outlen: nat, dict: nat): Result<seq<byte>>
  {
    match FirstNonZero(span)
    case None => Err(Corrupt)
    case Some(start) =>
      var props := 255 - span[start];
      if props > LZMA_PROPS_MAX then Err(Corrupt)
      else if CheckedBlockLen(outlen).Err? then Err(FileTooLarge)
      else c.lzma(span[start..], props, dict, outlen)
  }

  /** The last bytes of what is decoded so far, as far as LZ4 can reach back. */
  function Window(prior: seq<byte>): seq<byte>
  {
    prior[Max(0, |prior| - LZ4_WINDOW)..]
  }

  function DecodeHead(v: Volume, algo: nat, span: seq<byte>, outlen: nat, prior: seq<byte>): Result<seq<byte>>
  {
    if algo == ALGO_LZ4 then Lz4Pcluster(v.codecs, span, outlen, Window(prior), v.lz4ZeroPadding)
    else if algo == ALGO_DEFLATE then DeflatePcluster(v.codecs, span, outlen)
    else if algo == ALGO_ZSTD then ZstdPcluster(v.codecs, span, outlen)
    else if algo == ALGO_LZMA then
      if v.lzmaDict.None? then Err(Unsupported) else LzmaPcluster(v.codecs, span, outlen, v.lzmaDict.value)
    else Err(Unsupported)
  }

  function DecodePcluster(v: Volume, ty: nat, algo: nat, span: seq<byte>, outlen: nat, prior: seq<byte>): Result<seq<byte>>
  {
    if ty == PLAIN then
      if CheckedBlockLen(outlen).Err? then Err(FileTooLarge)
      else if outlen <= |span| then Ok(span[..outlen]) else Err(Corrupt)
    else if ty == HEAD1 || ty == HEAD2 then DecodeHead(v, algo, span, outlen, prior)
    else Err(Corrupt)
  }

  /** `read_span`: the blocks of a pcluster, cut off at the end of the device. */
  function ReadSpan(v: Volume, blkaddr: nat, cblkcnt: nat): Result<seq<byte>>
  {
    var phys, want := blkaddr * v.BlockSize(), cblkcnt * v.BlockSize();
    var avail := Min(want, Max(0, |v.src| - phys));
    if avail == 0 then Err(Corrupt) else ReadSource(v.src, phys, avail)
  }

  // ----- all pclusters -----

  datatype Algos = Algos(head1: nat, head2: nat)

  function AlgoOf(a: Algos, ty: nat): nat
  {
    if ty == HEAD2 then a.head2 else a.head1
  }

  /** Where pcluster `k` ends: at the next one's start, or at the end of the file. */
  function EndOf(heads: seq<Head>, size: nat, k: nat): nat
  {
    if k + 1 < |heads| then heads[k + 1].start else size
  }

  /** What pcluster `k` decodes to, after `prior`. A zero-length one reads nothing. */
  function Segment(v: Volume, a: Algos, heads: seq<Head>, size: nat, k: nat, prior: seq<byte>): Result<seq<byte>>
    requires k < |heads|
  {
    var h, end := heads[k], EndOf(heads, size, k);
    if end < h.start then Err(Corrupt)
    else if end == h.start then Ok([])
    else
      var span :- ReadSpan(v, h.blkaddr, h.cblkcnt);
      DecodePcluster(v, h.ty, AlgoOf(a, h.ty), span, end - h.start, prior)
  }

  /** The output after the first `n` pclusters. */
  function DecodeFirst(v: Volume, a: Algos, heads: seq<Head>, size: nat, n: nat): Result<seq<byte>>
    requires n <= |heads|
  {
    if n == 0 then Ok([])
    else
      var prior :- DecodeFirst(v, a, heads, size, n - 1);
      var seg :- Segment(v, a, heads, size, n - 1, prior);
      Ok(prior + seg)
  }

  lemma {:induction false} DecodeErrorStays(v: Volume, a: Algos, heads: seq<Head>, size: nat, i: nat, n: nat)
    requires i <= n <= |heads| && DecodeFirst(v, a, heads, size, i).Err?
    ensures DecodeFirst(v, a, heads, size, n) == DecodeFirst(v, a, heads, size, i)
    decreases n - i
  {
    if i < n { DecodeErrorStays(v, a, heads, size, i, n - 1); }
  }

  /** The body of the decode loop: what pcluster `k` adds to `out`. */
  method ComputeSegment(v: Volume, a: Algos, heads: seq<Head>, size: nat, k: nat, out: seq<byte>)
    returns (r: Result<seq<byte>>)
    requires k < |heads|
    ensures r == Segment(v, a, heads, size, k, out)
  {
    var h := heads[k];
    var next := if k + 1 < |heads| then heads[k + 1].start else size;
    if next < h.start { return Err(Corrupt); }
    var outlen := next - h.start;
    if outlen == 0 { return Ok([]); }
    var algo := if h.ty == HEAD2 then a.head2 else a.head1;
    var span := ReadSpan(v, h.blkaddr, h.cblkcnt);
    if span.Err? { return span; }
    r := DecodePcluster(v, h.ty, algo, span.value, outlen, out);
  }

  /** The decode loop of `materialize_compressed`. */
  method DecodeAll(v: Volume, a: Algos, heads: seq<Head>, size: nat) returns (r: Result<seq<byte>>)
    ensures r == DecodeFirst(v, a, heads, size, |heads|)
  {
    var out: seq<byte> := [];
    for k := 0 to |heads|
      invariant DecodeFirst(v, a, heads, size, k) == Ok(out)
    {
      var seg := ComputeSegment(v, a, heads, size, k, out);
      if seg.Err? {
        DecodeErrorStays(v, a, heads, size, k + 1, |heads|);
        return seg;
      }
      out := out + seg.value;
    }
    r := Ok(out);
  }

  // ----- a compressed inode -----

  ghost predicate StartsAtZero(r: Result<seq<Head>>)
  {
    r.Ok? && r.value != [] ==> r.value[0].start == 0
  }

  /** Both indexes open their first pcluster at logical 0. */
  lemma {:induction false} FullStartsAtZero(src: seq<byte>, idx0: nat, lcsize: nat, n: nat)
    ensures StartsAtZero(FullHeads(src, idx0, lcsize, n))
  {
    if n > 0 { FullStartsAtZero(src, idx0, lcsize, n - 1); }
  }

  lemma {:induction false} OpenStartsAtZero(raw: seq<RawEntry>, lcsize: nat, big: bool, n: nat)
    requires n <= |raw|
    ensures StartsAtZero(OpenHeads(raw, lcsize, big, n))
  {
    if n > 0 { OpenStartsAtZero(raw, lcsize, big, n - 1); }
  }

  lemma {:induction false} CompactStartsAtZero(src: seq<byte>, ebase: nat, lcsize: nat, n: nat, big: bool)
    ensures StartsAtZero(CompactHeads(src, ebase, lcsize, n, big))
  {
    var raw := UnpackIndex(src, ebase, n);
    if raw.Ok? { OpenStartsAtZero(raw.value, lcsize, big, |raw.value|); }
  }

  /** What the 8-byte map header before an index says, once nothing in it is refused. */
  datatype MapHeader = MapHeader(mh: nat, lcbits: nat, twoByte: bool, big: bool, algos: Algos)

  function ParseMapHeader(v: Volume, ino: Inode): Result<MapHeader>
  {
    var mh := AlignUp(ino.inlineOff, 8);
    var cap :- CheckedFullReadLen(ino.size);
    var hdr :- ReadSource(v.src, mh, 8);
    var advise := Le16(hdr, 4);
    var lcbits := v.blkszbits + hdr[7] % 16;
    if hdr[7] / 0x80 == 1 || advise / 8 % 8 != 0 then Err(Unsupported)
    else if lcbits > 30 then Err(Corrupt)
    else Ok(MapHeader(mh, lcbits, advise % 2 == 1, advise / 2 % 4 != 0, Algos(hdr[6] % 16, hdr[6] / 16)))
  }

  /** The pcluster list of an index of `nLc` lclusters of `lcsize` bytes. */
  function HeadsIn(v: Volume, layout: nat, h: MapHeader, lcsize: nat, nLc: nat): Result<seq<Head>>
  {
    if layout == COMPRESSED_FULL then FullHeads(v.src, h.mh + LEGACY_HEADER_SIZE, lcsize, nLc)
    else if layout == COMPRESSED_COMPACT then
      if h.lcbits > COMPACT_LOBITS then Err(Unsupported)
      else if !h.twoByte then Err(Unsupported)
      else CompactHeads(v.src, h.mh + 8, lcsize, nLc, h.big)
    else Err(Corrupt)
  }

  function HeadsOf(v: Volume, ino: Inode, h: MapHeader): Result<seq<Head>>
  {
    HeadsIn(v, ino.layout, h, Pow2(h.lcbits), CeilDiv(ino.size, Pow2(h.lcbits)))
  }

  /** Pclusters and algorithms of a compressed inode, after all its refusals. */
  function InodeHeads(v: Volume, ino: Inode): (r: Result<(seq<Head>, Algos)>)
  {
    var h :- ParseMapHeader(v, ino);
    var heads :- HeadsOf(v, ino, h);
    Ok((heads, h.algos))
  }

  /** The decoded data of a compressed inode. */
  function Materialize(v: Volume, ino: Inode): Result<seq<byte>>
  {
    var (heads, algos) :- InodeHeads(v, ino);
    DecodeFirst(v, algos, heads, ino.size, |heads|)
  }

  lemma {:induction false} CompactDispatch(v: Volume, h: MapHeader, lcsize: nat, nLc: nat)
    requires h.lcbits <= COMPACT_LOBITS && h.twoByte
    ensures HeadsIn(v, COMPRESSED_COMPACT, h, lcsize, nLc) == CompactHeads(v.src, h.mh + 8, lcsize, nLc, h.big)
  {
  }

  /** `build_heads_*` as `materialize_compressed` dispatches to them. */
  method ComputeHeads(v: Volume, layout: nat, h: MapHeader, lcsize: nat, nLc: nat) returns (r: Result<seq<Head>>)
    ensures r == HeadsIn(v, layout, h, lcsize, nLc)
  {
    if layout == COMPRESSED_FULL {
      r := BuildHeadsFull(v.src, h.mh, lcsize, nLc);
    } else if layout == COMPRESSED_COMPACT {
      if h.lcbits > COMPACT_LOBITS { return Err(Unsupported); }
      if !h.twoByte { return Err(Unsupported); }
      CompactDispatch(v, h, lcsize, nLc);
      r := BuildHeadsCompact(v.src, h.mh + 8, lcsize, nLc, h.big);
    } else {
      r := Err(Corrupt);
    }
  }

  /** `materialize_compressed` below its cache. */
  method DecodeInode(v: Volume, ino: Inode) returns (r: Result<seq<byte>>)
    ensures r == Materialize(v, ino)
  {
    var h := ParseMapHeader(v, ino);
    if h.Err? { return Err(h.error); }
    var lcsize := Pow2(h.value.lcbits);
    var heads := ComputeHeads(v, ino.layout, h.value, lcsize, CeilDiv(ino.size, lcsize));
    if heads.Err? { return Err(heads.error); }
    r := DecodeAll(v, h.value.algos, heads.value, ino.size);
  }

  // ----- tiling -----

  /** A pcluster never decodes to more than its extent, and to less only with Zstd. */
  lemma {:induction false} SegmentLength(v: Volume, a: Algos, heads: seq<Head>, size: nat, k: nat, prior: seq<byte>)
    requires v.codecs.Honest() && k < |heads| && Segment(v, a, heads, size, k, prior).Ok?
    ensures var len, want := |Segment(v, a, heads, size, k, prior).value|, EndOf(heads, size, k) - heads[k].start;
            0 <= len <= want && (len < want ==> heads[k].ty != PLAIN && AlgoOf(a, heads[k].ty) == ALGO_ZSTD)
  {
    var h, want := heads[k], EndOf(heads, size, k) - heads[k].start;
    if want > 0 {
      var span := ReadSpan(v, h.blkaddr, h.cblkcnt).value;
      DeflateLength(v.codecs, span, want, [0, if FirstNonZero(span).Some? then FirstNonZero(span).value else 0], Corrupt);
    }
  }

  lemma {:induction false} DeflateLength(c: Codecs, span: seq<byte>, outlen: nat, starts: seq<nat>, last: Error)
    ensures var r := DeflateFrom(c, span, outlen, starts, last); r.Ok? ==> |r.value| == outlen
    decreases |starts|
  {
    if starts != [] {
      DeflateLength(c, span, outlen, starts[1..], last);
      forall e: Error { DeflateLength(c, span, outlen, starts[1..], e); }
    }
  }

  /** Pcluster `k` decoded to its whole extent. */
  ghost predicate Fills(v: Volume, a: Algos, heads: seq<Head>, size: nat, k: nat)
    requires k < |heads|
  {
    var prior := DecodeFirst(v, a, heads, size, k);
    && prior.Ok?
    && var seg := Segment(v, a, heads, size, k, prior.value);
       seg.Ok? && |seg.value| == EndOf(heads, size, k) - heads[k].start
  }

  /** A pcluster that Zstd decodes, and that is not empty. */
  predicate IsZstd(a: Algos, heads: seq<Head>, size: nat, k: nat)
    requires k < |heads|
  {
    var h := heads[k];
    (h.ty == HEAD1 || h.ty == HEAD2) && AlgoOf(a, h.ty) == ALGO_ZSTD && EndOf(heads, size, k) > h.start
  }

  /** What the medium has to hold for pcluster `k`: if it is Zstd's, the frame in its blocks
      decodes to exactly its extent. */
  predicate FrameFits(v: Volume, a: Algos, heads: seq<Head>, size: nat, k: nat)
    requires k < |heads|
  {
    IsZstd(a, heads, size, k) ==>
      var want := EndOf(heads, size, k) - heads[k].start;
      var span := ReadSpan(v, heads[k].blkaddr, heads[k].cblkcnt);
      span.Ok? && var frame := ZstdPcluster(v.codecs, span.value, want); frame.Ok? && |frame.value| == want
  }

  ghost predicate FramesFit(v: Volume, a: Algos, heads: seq<Head>, size: nat, n: nat)
    requires n <= |heads|
  {
    forall k {:trigger FrameFits(v, a, heads, size, k)} :: 0 <= k < n ==> FrameFits(v, a, heads, size, k)
  }

  /** In a decode that succeeds, a pcluster fills its extent exactly when its frame fits. */
  lemma {:induction false} FillsIffFrameFits(v: Volume, a: Algos, heads: seq<Head>, size: nat, k: nat)
    requires v.codecs.Honest() && k < |heads| && DecodeFirst(v, a, heads, size, k + 1).Ok?
    ensures Fills(v, a, heads, size, k) <==> FrameFits(v, a, heads, size, k)
  {
    SegmentLength(v, a, heads, size, k, DecodeFirst(v, a, heads, size, k).value);
  }

  /** The output stays inside the extents decoded so far, and covers them exactly when
      every Zstd frame among them fits. */
  lemma {:induction false} CoversIffFramesFit(v: Volume, a: Algos, heads: seq<Head>, size: nat, n: nat)
    requires v.codecs.Honest() && 0 < n <= |heads| && heads[0].start == 0
    requires DecodeFirst(v, a, heads, size, n).Ok?
    ensures |DecodeFirst(v, a, heads, size, n).value| <= EndOf(heads, size, n - 1)
    ensures |DecodeFirst(v, a, heads, size, n).value| == EndOf(heads, size, n - 1) <==> FramesFit(v, a, heads, size, n)
  {
    var prior := DecodeFirst(v, a, heads, size, n - 1).value;
    SegmentLength(v, a, heads, size, n - 1, prior);
    FillsIffFrameFits(v, a, heads, size, n - 1);
    if n > 1 {
      CoversIffFramesFit(v, a, heads, size, n - 1);
    }
    var last := FrameFits(v, a, heads, size, n - 1);
    assert FramesFit(v, a, heads, size, n) <==> FramesFit(v, a, heads, size, n - 1) && last;
  }

  lemma {:induction false} DecodePrefix(v: Volume, a: Algos, heads: seq<Head>, size: nat, k: nat, n: nat)
    requires k <= n <= |heads| && DecodeFirst(v, a, heads, size, n).Ok?
    ensures DecodeFirst(v, a, heads, size, k).Ok?
    ensures DecodeFirst(v, a, heads, size, k).value <= DecodeFirst(v, a, heads, size, n).value
    decreases n
  {
    if k < n { DecodePrefix(v, a, heads, size, k, n - 1); }
  }

  lemma {:induction false} FewerFramesFit(v: Volume, a: Algos, heads: seq<Head>, size: nat, n: nat)
    requires n <= |heads| && FramesFit(v, a, heads, size, |heads|)
    ensures FramesFit(v, a, heads, size, n)
  {
  }

  /** What is decoded after `n` pclusters, when all frames fit, is the content up to there. */
  lemma {:induction false} DecodedUpTo(v: Volume, a: Algos, heads: seq<Head>, size: nat, n: nat, content: seq<byte>)
    requires v.codecs.Honest() && 0 < n <= |heads| && heads[0].start == 0
    requires DecodeFirst(v, a, heads, size, |heads|) == Ok(content) && FramesFit(v, a, heads, size, |heads|)
    ensures EndOf(heads, size, n - 1) <= |content| && DecodeFirst(v, a, heads, size, n) == Ok(content[..EndOf(heads, size, n - 1)])
  {
    DecodePrefix(v, a, heads, size, n, |heads|);
    FewerFramesFit(v, a, heads, size, n);
    CoversIffFramesFit(v, a, heads, size, n);
    var out := DecodeFirst(v, a, heads, size, n).value;
    assert out == content[..|out|];
  }

  lemma {:induction false} OutputSoFar(v: Volume, a: Algos, heads: seq<Head>, size: nat, k: nat)
    requires v.codecs.Honest() && k < |heads| && heads[0].start == 0
    requires DecodeFirst(v, a, heads, size, |heads|).Ok? && FramesFit(v, a, heads, size, |heads|)
    ensures var content := DecodeFirst(v, a, heads, size, |heads|).value;
            && |content| == size && heads[k].start <= EndOf(heads, size, k) <= size
            && DecodeFirst(v, a, heads, size, k) == Ok(content[..heads[k].start])
            && DecodeFirst(v, a, heads, size, k + 1) == Ok(content[..EndOf(heads, size, k)])
  {
    var content := DecodeFirst(v, a, heads, size, |heads|).value;
    CoversIffFramesFit(v, a, heads, size, |heads|);
    DecodedUpTo(v, a, heads, size, k + 1, content);
    if k > 0 {
      DecodedUpTo(v, a, heads, size, k, content);
    } else {
      assert content[..0] == [];
    }
  }

  /** Tiling: when all frames fit, pcluster `k` is exactly `content[start_k..start_{k+1}]`,
      decoded with `content[..start_k]` before it. */
  lemma {:induction false} PclusterTile(v: Volume, a: Algos, heads: seq<Head>, size: nat, k: nat)
    requires v.codecs.Honest() && k < |heads| && heads[0].start == 0
    requires DecodeFirst(v, a, heads, size, |heads|).Ok? && FramesFit(v, a, heads, size, |heads|)
    ensures var content := DecodeFirst(v, a, heads, size, |heads|).value;
            && |content| == size
            && heads[k].start <= EndOf(heads, size, k) <= size
            && Segment(v, a, heads, size, k, content[..heads[k].start])
               == Ok(content[heads[k].start..EndOf(heads, size, k)])
  {
    OutputSoFar(v, a, heads, size, k);
    var content := DecodeFirst(v, a, heads, size, |heads|).value;
    var prior, after := content[..heads[k].start], content[..EndOf(heads, size, k)];
    var seg := Segment(v, a, heads, size, k, prior).value;
    assert prior + seg == after;
    assert after[|prior|..] == seg == content[heads[k].start..EndOf(heads, size, k)];
  }

  /** Codecs that are exact, Zstd's included, or no Zstd at all. */
  ghost predicate ExactOrNoZstd(v: Volume, a: Algos)
  {
    || (forall x, n :: v.codecs.zstd(x, n).Ok? ==> |v.codecs.zstd(x, n).value| == n)
    || (a.head1 != ALGO_ZSTD && a.head2 != ALGO_ZSTD)
  }

  lemma {:induction false} ExactFrameFits(v: Volume, a: Algos, heads: seq<Head>, size: nat, k: nat)
    requires ExactOrNoZstd(v, a) && k < |heads| && DecodeFirst(v, a, heads, size, k + 1).Ok?
    ensures FrameFits(v, a, heads, size, k)
  {
    if IsZstd(a, heads, size, k) {
      assert Segment(v, a, heads, size, k, DecodeFirst(v, a, heads, size, k).value).Ok?;
    }
  }

  lemma {:induction false} ExactFramesFit(v: Volume, a: Algos, heads: seq<Head>, size: nat)
    requires ExactOrNoZstd(v, a) && DecodeFirst(v, a, heads, size, |heads|).Ok?
    ensures FramesFit(v, a, heads, size, |heads|)
  {
    forall k {:trigger FrameFits(v, a, heads, size, k)} | 0 <= k < |heads|
      ensures FrameFits(v, a, heads, size, k)
    {
      DecodePrefix(v, a, heads, size, k + 1, |heads|);
      ExactFrameFits(v, a, heads, size, k);
    }
  }

  /** A compressed inode whose index opens a pcluster decodes to exactly `i_size` bytes if
      and only if every Zstd frame on the medium fits its pcluster. */
  lemma {:induction false} MaterializedLength(v: Volume, ino: Inode)
    requires v.codecs.Honest() && Materialize(v, ino).Ok?
    ensures var (heads, a) := InodeHeads(v, ino).value;
            && |Materialize(v, ino).value| <= ino.size
            && (heads != [] ==> (|Materialize(v, ino).value| == ino.size <==> FramesFit(v, a, heads, ino.size, |heads|)))
            && (heads == [] ==> Materialize(v, ino).value == [])
  {
    var (heads, a) := InodeHeads(v, ino).value;
    HeadsStartAtZero(v, ino);
    if heads != [] { CoversIffFramesFit(v, a, heads, ino.size, |heads|); }
  }

  lemma {:induction false} HeadsStartAtZero(v: Volume, ino: Inode)
    requires InodeHeads(v, ino).Ok?
    ensures var (heads, _) := InodeHeads(v, ino).value; heads != [] ==> heads[0].start == 0
  {
    var h := ParseMapHeader(v, ino).value;
    HeadsInStartAtZero(v, ino.layout, h, Pow2(h.lcbits), CeilDiv(ino.size, Pow2(h.lcbits)));
  }

  lemma {:induction false} CompactHeadsStartAtZero(v: Volume, h: MapHeader, lcsize: nat, nLc: nat)
    requires h.lcbits <= COMPACT_LOBITS && h.twoByte
    ensures StartsAtZero(HeadsIn(v, COMPRESSED_COMPACT, h, lcsize, nLc))
  {
    CompactDispatch(v, h, lcsize, nLc);
    CompactStartsAtZero(v.src, h.mh + 8, lcsize, nLc, h.big);
  }

  lemma {:induction false} HeadsInStartAtZero(v: Volume, layout: nat, h: MapHeader, lcsize: nat, nLc: nat)
    ensures StartsAtZero(HeadsIn(v, layout, h, lcsize, nLc))
  {
    if layout == COMPRESSED_FULL {
      FullStartsAtZero(v.src, h.mh + LEGACY_HEADER_SIZE, lcsize, nLc);
    } else if layout == COMPRESSED_COMPACT && h.lcbits <= COMPACT_LOBITS && h.twoByte {
      CompactHeadsStartAtZero(v, h, lcsize, nLc);
    }
  }

  // ----- a Zstd frame that is too short -----

  /** A block with a map header that selects Zstd, and a full index: a Zstd pcluster at block
      1 for the first 512 bytes of a file, a plain one at block 2 for the next. */
  const SHORT_INDEX: seq<byte> :=
    [0, 0, 0, 0, 0, 0, 3, 0] + [0, 0, 0, 0, 0, 0, 0, 0] + [1, 0, 0, 0, 1, 0, 0, 0] + [0, 0, 0, 0, 2, 0, 0, 0]

  const SHORT_INODE: Inode := Inode(Regular, 1024, 0, COMPRESSED_FULL, 0, 0)

  const MAGIC: seq<byte> := [0x28, 0xb5, 0x2f, 0xfd]

  /** The medium of such a file: the frame's block starts with the magic, the plain one is
      all sevens. */
  ghost predicate ShortFrameOn(src: seq<byte>)
  {
    |src| == 1536 && src[..32] == SHORT_INDEX && src[512..516] == MAGIC && src[1024..1536] == Repeat(512, 7)
  }

  lemma {:induction false} ShortHeads(v: Volume)
    requires v.blkszbits == 9 && ShortFrameOn(v.src)
    ensures InodeHeads(v, SHORT_INODE) == Ok(([Head(0, HEAD1, 1, 1), Head(512, PLAIN, 2, 1)], Algos(ALGO_ZSTD, 0)))
  {
    var x := v.src[..32];
    assert v.src[0..8] == x[0..8] == [0, 0, 0, 0, 0, 0, 3, 0];
    assert v.src[16..24] == x[16..24] == [1, 0, 0, 0, 1, 0, 0, 0];
    assert v.src[24..32] == x[24..32] == [0, 0, 0, 0, 2, 0, 0, 0];
    assert Pow2(9) == 512;
    assert ParseMapHeader(v, SHORT_INODE) == Ok(MapHeader(0, 9, false, false, Algos(ALGO_ZSTD, 0)));
    var h0, h1 := Head(0, HEAD1, 1, 1), Head(512, PLAIN, 2, 1);
    assert FullHeads(v.src, 16, 512, 0) == Ok([]);
    assert [] + [h0] == [h0] && [h0] + [h1] == [h0, h1];
    assert FullHeads(v.src, 16, 512, 1) == FullStep([], v.src[16..24], 512, 0) == Ok([h0]);
    assert FullHeads(v.src, 16, 512, 2) == FullStep([h0], v.src[24..32], 512, 1) == Ok([h0, h1]);
  }

  /** Nothing checks that a Zstd frame fills its pcluster: with a decoder that stops at once,
      the bytes meant for the second half of the file are all of it. */
  lemma {:induction false} ShortZstdShiftsTheRest(v: Volume)
    requires v.blkszbits == 9 && ShortFrameOn(v.src) && forall x, n :: v.codecs.zstd(x, n) == Ok([])
    ensures Materialize(v, SHORT_INODE) == Ok(Repeat(512, 7)) && SHORT_INODE.size == 1024
  {
    ShortHeads(v);
    var a, heads := Algos(ALGO_ZSTD, 0), [Head(0, HEAD1, 1, 1), Head(512, PLAIN, 2, 1)];
    assert Pow2(9) == 512;
    var frame, plain := v.src[512..1024], v.src[1024..1536];
    assert ReadSpan(v, 1, 1) == Ok(frame) && ReadSpan(v, 2, 1) == Ok(plain);
    assert frame[..4] == MAGIC && plain[..512] == plain == Repeat(512, 7);
    assert ZstdPcluster(v.codecs, frame, 512) == Ok([]) by { assert FindMagic(frame) == Some(0); }
    assert Segment(v, a, heads, 1024, 0, []) == Ok([]);
    assert DecodePcluster(v, PLAIN, 3, plain, 512, []) == Ok(plain);
    assert Segment(v, a, heads, 1024, 1, []) == Ok(plain);
    var none: seq<byte> := [];
    assert none + none == none && none + plain == plain;
    assert DecodeFirst(v, a, heads, 1024, 0) == Ok(none);
    assert DecodeFirst(v, a, heads, 1024, 1) == Ok(none);
  }
}
