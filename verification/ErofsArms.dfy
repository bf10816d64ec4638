/** What each pcluster of an EROFS file is decoded from (`decode_pcluster` of
    `crates/lamfold-erofs/src/erofs.rs`), in terms of the medium's bytes and the codecs alone. */
module ErofsArms {
  import opened Bytes
  import opened ErofsDecode
  import opened ErofsIndex
  import opened Frontend

  // ----- right-aligned streams -----

  /** What is behind the leading zeros. */
  function Unpadded(span: seq<byte>): seq<byte>
  {
    if span != [] && span[0] == 0 then Unpadded(span[1..]) else span
  }

  lemma {:induction false} UnpaddedIs(n: nat, stream: seq<byte>)
    requires stream == [] || stream[0] != 0
    ensures Unpadded(Zeros(n) + stream) == stream
  {
    if n == 0 {
      assert Zeros(0) + stream == stream;
    } else {
      assert (Zeros(n) + stream)[1..] == Zeros(n - 1) + stream;
      UnpaddedIs(n - 1, stream);
    }
  }

  lemma {:induction false} FirstIsUnpadded(span: seq<byte>)
    ensures match FirstNonZero(span)
            case Some(i) => span[i..] == Unpadded(span) != [] && Unpadded(span)[0] == span[i]
            case None => Unpadded(span) == []
  {
    if span != [] && span[0] == 0 {
      FirstIsUnpadded(span[1..]);
      var first := FirstNonZero(span[1..]);
      if first.Some? { assert span[1..][first.value..] == span[first.value + 1..]; }
    }
  }

  /** A Zstd frame and what follows it, from the first place its magic stands. */
  function FromFrame(span: seq<byte>): seq<byte>
  {
    if |span| < 4 then []
    else if span[0] == 0x28 && span[1] == 0xb5 && span[2] == 0x2f && span[3] == 0xfd then span
    else FromFrame(span[1..])
  }

  lemma {:induction false} FromFrameIs(n: nat, frame: seq<byte>)
    requires |frame| >= 4 && frame[0] == 0x28 && frame[1] == 0xb5 && frame[2] == 0x2f && frame[3] == 0xfd
    ensures FromFrame(Zeros(n) + frame) == frame
  {
    var x := Zeros(n) + frame;
    if n == 0 {
      assert x == frame;
    } else {
      assert x[0] == 0 && x[1..] == Zeros(n - 1) + frame;
      FromFrameIs(n - 1, frame);
    }
  }

  lemma {:induction false} MagicIsFrame(span: seq<byte>)
    ensures match FindMagic(span) case Some(i) => span[i..] == FromFrame(span) != [] case None => FromFrame(span) == []
  {
    if |span| >= 4 {
      assert span[..4] == [span[0], span[1], span[2], span[3]];
      if span[..4] != [0x28, 0xb5, 0x2f, 0xfd] {
        MagicIsFrame(span[1..]);
        var found := FindMagic(span[1..]);
        if found.Some? { assert span[1..][found.value..] == span[found.value + 1..]; }
      }
    }
  }

  // ----- the arms -----

  /** The output before, as far as LZ4 can reach back: 64 KiB. */
  function Reach(prior: seq<byte>): seq<byte>
  {
    if |prior| <= 65536 then prior else prior[|prior| - 65536..]
  }

  /** A decoder that failed or gave the wrong length, but did not refuse: another start is tried. */
  predicate GoesOn(r: Result<seq<byte>>, n: nat)
  {
    if r.Ok? then |r.value| != n else r.error != Unsupported && r.error != FileTooLarge
  }

  ghost predicate Lz4Gives(v: Volume, span: seq<byte>, n: nat, prior: seq<byte>, data: seq<byte>)
  {
    var stream := if v.lz4ZeroPadding then Unpadded(span) else span;
    (v.lz4ZeroPadding ==> stream != []) && v.codecs.lz4(stream, n, Reach(prior)) == Ok(data) && |data| == n
  }

  /** Deflate starts at offset 0, or else behind the leading zeros. */
  ghost predicate DeflateGives(c: Codecs, span: seq<byte>, n: nat, data: seq<byte>)
  {
    var stream := if Unpadded(span) == [] then span else Unpadded(span);
    |data| == n && (c.deflate(span, n) == Ok(data) || (GoesOn(c.deflate(span, n), n) && c.deflate(stream, n) == Ok(data)))
  }

  ghost predicate ZstdGives(c: Codecs, span: seq<byte>, n: nat, data: seq<byte>)
  {
    FromFrame(span) != [] && c.zstd(FromFrame(span), n) == Ok(data)
  }

  /** The first byte of a MicroLZMA stream is its properties, inverted. */
  ghost predicate LzmaGives(v: Volume, span: seq<byte>, n: nat, data: seq<byte>)
  {
    var stream := Unpadded(span);
    stream != [] && v.lzmaDict.Some? && 255 - stream[0] <= 224 && v.codecs.lzma(stream, 255 - stream[0], v.lzmaDict.value, n) == Ok(data)
  }

  /** Algorithms by their number in the map header. */
  ghost predicate AlgorithmGives(v: Volume, algo: nat, span: seq<byte>, n: nat, prior: seq<byte>, data: seq<byte>)
  {
    || (algo == 0 && Lz4Gives(v, span, n, prior, data))
    || (algo == 1 && LzmaGives(v, span, n, data))
    || (algo == 2 && DeflateGives(v.codecs, span, n, data))
    || (algo == 3 && ZstdGives(v.codecs, span, n, data))
  }

  /** `n` bytes, at most 16 MiB, of a pcluster with these type bits and blocks: as they are
      for 0, by the first algorithm for 1, by the second for 3. */
  ghost predicate Decodes(v: Volume, a: Algos, ty: nat, span: seq<byte>, n: nat, prior: seq<byte>, data: seq<byte>)
  {
    && n <= 0x100_0000
    && (|| (ty == 0 && n <= |span| && data == span[..n])
        || (ty == 1 && AlgorithmGives(v, a.head1, span, n, prior, data))
        || (ty == 3 && AlgorithmGives(v, a.head2, span, n, prior, data)))
  }

  lemma {:induction false} Lz4Arm(v: Volume, span: seq<byte>, n: nat, prior: seq<byte>, data: seq<byte>)
    ensures Lz4Pcluster(v.codecs, span, n, Window(prior), v.lz4ZeroPadding) == Ok(data) <==> n <= 0x100_0000 && Lz4Gives(v, span, n, prior, data)
  {
    FirstIsUnpadded(span);
    assert Window(prior) == Reach(prior);
    assert span[0..] == span;
  }

  lemma {:induction false} LastStart(c: Codecs, span: seq<byte>, n: nat, start: nat, last: Error, data: seq<byte>)
    requires start <= |span| && n <= 0x100_0000
    ensures DeflateFrom(c, span, n, [start], last) == Ok(data) <==> c.deflate(span[start..], n) == Ok(data) && |data| == n
  {
    assert [start][1..] == [];
  }

  lemma {:induction false} DeflateArm(c: Codecs, span: seq<byte>, n: nat, data: seq<byte>)
    ensures DeflatePcluster(c, span, n) == Ok(data) <==> n <= 0x100_0000 && DeflateGives(c, span, n, data)
  {
    FirstIsUnpadded(span);
    assert span[0..] == span;
    var first := FirstNonZero(span);
    var fnz := if first.Some? then first.value else 0;
    var r := Capped(c.deflate, span, n);
    assert [0, fnz][1..] == [fnz];
    assert DeflatePcluster(c, span, n) == DeflateFrom(c, span, n, [0, fnz], Corrupt);
    if GoesOn(r, n) {
      var last := if r.Ok? then Corrupt else r.error;
      assert DeflateFrom(c, span, n, [0, fnz], Corrupt) == DeflateFrom(c, span, n, [fnz], last);
      LastStart(c, span, n, fnz, last, data);
    }
  }

  lemma {:induction false} ZstdArm(c: Codecs, span: seq<byte>, n: nat, data: seq<byte>)
    ensures ZstdPcluster(c, span, n) == Ok(data) <==> n <= 0x100_0000 && ZstdGives(c, span, n, data)
  {
    MagicIsFrame(span);
  }

  lemma {:induction false} LzmaArm(v: Volume, span: seq<byte>, n: nat, data: seq<byte>)
    requires v.lzmaDict.Some?
    ensures LzmaPcluster(v.codecs, span, n, v.lzmaDict.value) == Ok(data) <==> n <= 0x100_0000 && LzmaGives(v, span, n, data)
  {
    FirstIsUnpadded(span);
  }

  /** The decoder of a pcluster does exactly that. */
  lemma {:induction false} DecodesIff(v: Volume, a: Algos, ty: nat, span: seq<byte>, n: nat, prior: seq<byte>, data: seq<byte>)
    ensures DecodePcluster(v, ty, AlgoOf(a, ty), span, n, prior) == Ok(data) <==> Decodes(v, a, ty, span, n, prior, data)
  {
    Lz4Arm(v, span, n, prior, data);
    DeflateArm(v.codecs, span, n, data);
    ZstdArm(v.codecs, span, n, data);
    if v.lzmaDict.Some? { LzmaArm(v, span, n, data); }
  }

  // ----- written pclusters -----

  /** On a zero-padded volume LZ4 is given the stream behind the padding, and nothing of it;
      else all of the blocks. */
  lemma {:induction false} PaddedLz4(v: Volume, ty: nat, pad: nat, stream: seq<byte>, n: nat, prior: seq<byte>, data: seq<byte>)
    requires (ty == 1 || ty == 3) && stream != [] && stream[0] != 0
    ensures var given := if v.lz4ZeroPadding then stream else Zeros(pad) + stream;
            DecodePcluster(v, ty, 0, Zeros(pad) + stream, n, prior) == Ok(data)
            <==> n <= 0x100_0000 && |data| == n && v.codecs.lz4(given, n, Reach(prior)) == Ok(data)
  {
    UnpaddedIs(pad, stream);
    DecodesIff(v, Algos(0, 0), ty, Zeros(pad) + stream, n, prior, data);
  }

  /** MicroLZMA, right-aligned: its first byte is its properties, inverted. */
  lemma {:induction false} PaddedLzma(v: Volume, ty: nat, pad: nat, stream: seq<byte>, n: nat, prior: seq<byte>, data: seq<byte>)
    requires (ty == 1 || ty == 3) && stream != [] && stream[0] != 0
    ensures DecodePcluster(v, ty, 1, Zeros(pad) + stream, n, prior) == Ok(data)
            <==> n <= 0x100_0000 && v.lzmaDict.Some? && 255 - stream[0] <= 224
                 && v.codecs.lzma(stream, 255 - stream[0], v.lzmaDict.value, n) == Ok(data)
  {
    UnpaddedIs(pad, stream);
    DecodesIff(v, Algos(1, 1), ty, Zeros(pad) + stream, n, prior, data);
  }

  /** Deflate, right-aligned, when its padding does not inflate to the right length. */
  lemma {:induction false} PaddedDeflate(v: Volume, ty: nat, pad: nat, stream: seq<byte>, n: nat, prior: seq<byte>, data: seq<byte>)
    requires (ty == 1 || ty == 3) && stream != [] && stream[0] != 0
    requires pad == 0 || GoesOn(v.codecs.deflate(Zeros(pad) + stream, n), n)
    ensures DecodePcluster(v, ty, 2, Zeros(pad) + stream, n, prior) == Ok(data)
            <==> n <= 0x100_0000 && |data| == n && v.codecs.deflate(stream, n) == Ok(data)
  {
    UnpaddedIs(pad, stream);
    if pad == 0 { assert Zeros(pad) + stream == stream; }
    DecodesIff(v, Algos(2, 2), ty, Zeros(pad) + stream, n, prior, data);
  }

  /** A Zstd frame, right-aligned. */
  lemma {:induction false} PaddedZstd(v: Volume, ty: nat, pad: nat, frame: seq<byte>, n: nat, prior: seq<byte>, data: seq<byte>)
    requires (ty == 1 || ty == 3) && |frame| >= 4 && frame[0] == 0x28 && frame[1] == 0xb5 && frame[2] == 0x2f && frame[3] == 0xfd
    ensures DecodePcluster(v, ty, 3, Zeros(pad) + frame, n, prior) == Ok(data)
            <==> n <= 0x100_0000 && v.codecs.zstd(frame, n) == Ok(data)
  {
    FromFrameIs(pad, frame);
    DecodesIff(v, Algos(3, 3), ty, Zeros(pad) + frame, n, prior, data);
  }

  // ----- pclusters of a file -----

  /** The bytes of `cnt` blocks from block `blk` on, as far as the medium goes. */
  function BlockBytes(v: Volume, blk: nat, cnt: nat): seq<byte>
  {
    var lo, hi := blk * Pow2(v.blkszbits), blk * Pow2(v.blkszbits) + cnt * Pow2(v.blkszbits);
    if lo <= |v.src| then v.src[lo..Min(hi, |v.src|)] else []
  }

  lemma {:induction false} SpanIsBlocks(v: Volume, blk: nat, cnt: nat)
    ensures ReadSpan(v, blk, cnt) == if BlockBytes(v, blk, cnt) == [] then Err(Corrupt) else Ok(BlockBytes(v, blk, cnt))
  {
  }

  /** Pcluster `h` ends at `end` of the content, and what lies in its blocks decodes to its
      part of it, after what comes before. */
  ghost predicate Tile(v: Volume, a: Algos, h: Head, end: nat, content: seq<byte>)
  {
    && h.start <= end <= |content|
    && (h.start < end ==>
          && BlockBytes(v, h.blkaddr, h.cblkcnt) != []
          && Decodes(v, a, h.ty, BlockBytes(v, h.blkaddr, h.cblkcnt), end - h.start, content[..h.start], content[h.start..end]))
  }

  /** The pclusters of a file tile its content, from first byte to last. */
  ghost predicate Tiles(v: Volume, a: Algos, heads: seq<Head>, content: seq<byte>)
  {
    && (heads != [] ==> heads[0].start == 0) && (heads == [] ==> content == [])
    && forall k {:trigger heads[k]} :: 0 <= k < |heads| ==> Tile(v, a, heads[k], if k + 1 < |heads| then heads[k + 1].start else |content|, content)
  }

  lemma {:induction false} SegmentIff(v: Volume, a: Algos, heads: seq<Head>, size: nat, k: nat, content: seq<byte>)
    requires k < |heads| && heads[k].start <= EndOf(heads, size, k) <= |content|
    ensures var start, end := heads[k].start, EndOf(heads, size, k);
            Segment(v, a, heads, size, k, content[..start]) == Ok(content[start..end]) <==> Tile(v, a, heads[k], end, content)
  {
    var h, end := heads[k], EndOf(heads, size, k);
    SpanIsBlocks(v, h.blkaddr, h.cblkcnt);
    if h.start < end {
      DecodesIff(v, a, h.ty, BlockBytes(v, h.blkaddr, h.cblkcnt), end - h.start, content[..h.start], content[h.start..end]);
    } else {
      assert content[h.start..end] == [];
    }
  }

  /** The content of every inode that decodes, with codecs that give the length they are asked
      for or with no Zstd, is tiled by its pclusters. */
  lemma {:induction false} InodeTiles(v: Volume, ino: Inode)
    requires v.codecs.Honest() && Materialize(v, ino).Ok? && ExactOrNoZstd(v, InodeHeads(v, ino).value.1)
    ensures var (heads, a) := InodeHeads(v, ino).value; var content := Materialize(v, ino).value;
            Tiles(v, a, heads, content) && (heads != [] ==> |content| == ino.size)
  {
    var (heads, a) := InodeHeads(v, ino).value;
    var content := Materialize(v, ino).value;
    HeadsStartAtZero(v, ino);
    ExactFramesFit(v, a, heads, ino.size);
    forall k {:trigger heads[k]} | 0 <= k < |heads|
      ensures Tile(v, a, heads[k], if k + 1 < |heads| then heads[k + 1].start else |content|, content)
    {
      PclusterTile(v, a, heads, ino.size, k);
      SegmentIff(v, a, heads, ino.size, k, content);
    }
    if heads != [] { PclusterTile(v, a, heads, ino.size, 0); }
  }

  /** What LZ4 can reach back into is the last 64 KiB of the content before its pcluster. */
  lemma {:induction false} Lz4Dictionary(content: seq<byte>, start: nat)
    requires start <= |content|
    ensures Reach(content[..start]) == content[Max(0, start - 65536)..start]
  {
  }

  /** Pcluster `k` decodes to its part of the content, after what comes before. */
  ghost predicate InPlace(v: Volume, a: Algos, heads: seq<Head>, content: seq<byte>, k: nat, start: nat, end: nat)
    requires k < |heads|
  {
    start <= end <= |content| && Segment(v, a, heads, |content|, k, content[..start]) == Ok(content[start..end])
  }

  /** Where the content is, once the first `n` pclusters are decoded. */
  function DoneAt(heads: seq<Head>, size: nat, n: nat): nat
    requires n <= |heads|
  {
    if n == 0 then 0 else if n < |heads| then heads[n].start else size
  }

  ghost predicate InTurn(v: Volume, a: Algos, heads: seq<Head>, content: seq<byte>, k: nat)
    requires k < |heads|
  {
    InPlace(v, a, heads, content, k, DoneAt(heads, |content|, k), DoneAt(heads, |content|, k + 1))
  }

  lemma {:induction false} DecodeOneMore(v: Volume, a: Algos, heads: seq<Head>, content: seq<byte>, k: nat, start: nat, end: nat)
    requires k < |heads| && InPlace(v, a, heads, content, k, start, end)
    requires DecodeFirst(v, a, heads, |content|, k) == Ok(content[..start])
    ensures DecodeFirst(v, a, heads, |content|, k + 1) == Ok(content[..end])
  {
    assert content[..start] + content[start..end] == content[..end];
  }

  lemma {:induction false} DecodeInTurn(v: Volume, a: Algos, heads: seq<Head>, content: seq<byte>, n: nat)
    requires n <= |heads|
    requires forall k {:trigger InTurn(v, a, heads, content, k)} :: 0 <= k < |heads| ==> InTurn(v, a, heads, content, k)
    ensures DoneAt(heads, |content|, n) <= |content| && DecodeFirst(v, a, heads, |content|, n) == Ok(content[..DoneAt(heads, |content|, n)])
  {
    if n > 0 {
      DecodeInTurn(v, a, heads, content, n - 1);
      assert InTurn(v, a, heads, content, n - 1);
      DecodeOneMore(v, a, heads, content, n - 1, DoneAt(heads, |content|, n - 1), DoneAt(heads, |content|, n));
    }
  }

  /** And a content its pclusters tile is what the inode decodes to, whatever the codecs. */
  lemma {:induction false} TilesDecode(v: Volume, ino: Inode, content: seq<byte>)
    requires InodeHeads(v, ino).Ok? && |content| == ino.size
    requires Tiles(v, InodeHeads(v, ino).value.1, InodeHeads(v, ino).value.0, content)
    ensures Materialize(v, ino) == Ok(content)
  {
    var (heads, a) := InodeHeads(v, ino).value;
    forall k {:trigger InTurn(v, a, heads, content, k)} | 0 <= k < |heads|
      ensures InTurn(v, a, heads, content, k)
    {
      SegmentIff(v, a, heads, |content|, k, content);
    }
    DecodeInTurn(v, a, heads, content, |heads|);
    assert content[..|content|] == content;
  }
}
