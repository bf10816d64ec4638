/** SquashFS as it is written (`crates/lamfold-squash/src/squash.rs`): metadata blocks, inodes,
    the blocks and fragments of files, and directories; and that a mounted volume reads them
    back. Every field is given by its place, its width and its value. */
module SquashImage {
  import opened Bytes
  import opened Frontend
  import opened Parts
  import opened SquashInodes
  import opened SquashMeta
  import opened SquashVolume
  import opened Windows
  import D = SquashDir

  // ----- metadata -----

  /** A metadata block: stored as it is, or packed. */
  datatype Piece = Piece(stored: bool, packed: seq<byte>, data: seq<byte>)

  /** It stands at `at`: its size with the mark of a stored one, and its bytes. */
  ghost predicate PieceOn(m: Medium, at: nat, p: Piece)
  {
    && |p.packed| < 0x8000 && Number(m.src, at, 2, |p.packed| + if p.stored then 0x8000 else 0) && Lies(m.src, at + 2, p.packed)
    && p.data != [] && if p.stored then p.data == p.packed else m.decode(p.packed, 8192) == Ok(p.data)
  }

  /** Pieces `k..` stand one after another. */
  ghost predicate MetaOn(m: Medium, at: nat, pieces: seq<Piece>, k: nat)
    decreases |pieces| - k
  {
    k < |pieces| ==> PieceOn(m, at, pieces[k]) && MetaOn(m, at + 2 + |pieces[k].packed|, pieces, k + 1)
  }

  /** Their data, end to end. */
  function StreamOf(pieces: seq<Piece>, k: nat): seq<byte>
    decreases |pieces| - k
  {
    if k >= |pieces| then [] else pieces[k].data + StreamOf(pieces, k + 1)
  }

  lemma {:induction false} HeaderSplits(len: nat, stored: bool, hdr: nat)
    requires len < 0x8000 && hdr == len + if stored then 0x8000 else 0
    ensures hdr % 0x8000 == len && (hdr >= 0x8000) == stored
  {
  }

  lemma {:induction false} PieceReads(m: Medium, at: nat, p: Piece)
    requires PieceOn(m, at, p)
    ensures MetaBlock(m, at) == Ok((p.data, at + 2 + |p.packed|))
  {
    var hdr := |p.packed| + if p.stored then 0x8000 else 0;
    NumberReads(m.src, at, 2, hdr);
    LeSlice(m.src, at, at + 2, 0);
    HeaderSplits(|p.packed|, p.stored, hdr);
  }

  lemma {:induction false} StreamReads(m: Medium, at: nat, pieces: seq<Piece>, k: nat, q: nat)
    requires MetaOn(m, at, pieces, k) && q < |StreamOf(pieces, k)|
    ensures StreamByte(m, at, q) == Some(StreamOf(pieces, k)[q])
    decreases |pieces| - k
  {
    var p := pieces[k];
    PieceReads(m, at, p);
    if q >= |p.data| { StreamReads(m, at + 2 + |p.packed|, pieces, k + 1, q - |p.data|); }
  }

  lemma {:induction false} NoneEmpty(m: Medium, at: nat, pieces: seq<Piece>, k: nat, missing: int)
    requires MetaOn(m, at, pieces, k) && missing <= |StreamOf(pieces, k)|
    ensures !EmptyBefore(m, at, missing)
    decreases |pieces| - k
  {
    if missing > 0 {
      var p := pieces[k];
      PieceReads(m, at, p);
      NoneEmpty(m, at + 2 + |p.packed|, pieces, k + 1, missing - |p.data|);
    }
  }

  lemma {:induction false} StreamIsContent(m: Medium, at: nat, pieces: seq<Piece>, offset: nat, length: nat)
    requires MetaOn(m, at, pieces, 0) && offset + length <= |StreamOf(pieces, 0)|
    ensures IsContent(Stream(m, at), offset, StreamOf(pieces, 0)[offset..offset + length])
  {
    var y := StreamOf(pieces, 0)[offset..offset + length];
    forall q | offset <= q < offset + |y|
      ensures Stream(m, at)(q) == Some(y[q - offset])
    {
      StreamReads(m, at, pieces, 0, q);
    }
  }

  /** A span of written metadata that begins in its first block. */
  lemma {:induction false} SpanReads(m: Medium, at: nat, pieces: seq<Piece>, offset: nat, length: nat)
    requires MetaOn(m, at, pieces, 0) && pieces != [] && offset <= |pieces[0].data| && offset + length <= |StreamOf(pieces, 0)|
    requires length <= 0x2000_0000
    ensures MetaSpan(m, at, offset, length) == Ok(StreamOf(pieces, 0)[offset..offset + length])
  {
    var whole, first, next := StreamOf(pieces, 0), pieces[0].data, at + 2 + |pieces[0].packed|;
    PieceReads(m, at, pieces[0]);
    assert whole == first + StreamOf(pieces, 1);
    NoneEmpty(m, next, pieces, 1, length - (|first| - offset));
    MetaSpanIsSlice(m, at, offset, length);
    StreamIsContent(m, at, pieces, offset, length);
    ContentIsReadable(Stream(m, at), offset, whole[offset..offset + length]);
    ContentIsOne(Stream(m, at), offset, MetaSpan(m, at, offset, length).value, whole[offset..offset + length]);
  }

  /** `x` stands in the metadata from `at` on, from a place in the first block. */
  ghost predicate MetaHolds(m: Medium, at: nat, pieces: seq<Piece>, offset: nat, x: seq<byte>)
  {
    MetaOn(m, at, pieces, 0) && pieces != [] && offset <= |pieces[0].data| && Lies(StreamOf(pieces, 0), offset, x)
  }

  lemma {:induction false} HeldReads(m: Medium, at: nat, pieces: seq<Piece>, offset: nat, x: seq<byte>, n: nat)
    requires MetaHolds(m, at, pieces, offset, x) && n <= |x| && n <= 0x2000_0000
    ensures MetaSpan(m, at, offset, n) == Ok(x[..n])
  {
    SpanReads(m, at, pieces, offset, n);
    PartOfSlice(StreamOf(pieces, 0), offset, offset + |x|, x, 0, n);
  }

  // ----- inodes -----

  /** What an inode says; each kind has a basic and an extended form. */
  datatype Written =
    | OfDir(extended: bool, block: nat, offset: nat, listed: nat)
    | OfFile(extended: bool, start: nat, size: nat, frag: nat, fragOffset: nat, sizes: seq<nat>)
    | OfLink(extended: bool, target: seq<byte>)
    | OfOther(kind: nat)

  ghost predicate Sizes(x: seq<byte>, base: nat, sizes: seq<nat>)
  {
    |x| == base + 4 * |sizes| && forall k {:trigger sizes[k]} :: 0 <= k < |sizes| ==> Number(x, base + 4 * k, 4, sizes[k])
  }

  /** The bytes `x` of an inode say `w`. */
  ghost predicate Says(x: seq<byte>, w: Written)
  {
    |x| >= 16 && match w
                 case OfDir(false, block, offset, listed) =>
                   && |x| == 32 && Number(x, 0, 2, 1) && Number(x, 16, 4, block) && Number(x, 24, 2, listed) && Number(x, 26, 2, offset)
                 case OfDir(true, block, offset, listed) =>
                   && |x| == 40 && Number(x, 0, 2, 8) && Number(x, 20, 4, listed) && Number(x, 24, 4, block) && Number(x, 34, 2, offset)
                 case OfFile(false, start, size, frag, fragOffset, sizes) =>
                   && Sizes(x, 32, sizes) && Number(x, 0, 2, 2) && Number(x, 16, 4, start) && Number(x, 20, 4, frag)
                   && Number(x, 24, 4, fragOffset) && Number(x, 28, 4, size)
                 case OfFile(true, start, size, frag, fragOffset, sizes) =>
                   && Sizes(x, 56, sizes) && Number(x, 0, 2, 9) && Number(x, 16, 8, start) && Number(x, 24, 8, size)
                   && Number(x, 44, 4, frag) && Number(x, 48, 4, fragOffset)
                 case OfLink(extended, target) =>
                   && |x| == 24 + |target| && Number(x, 0, 2, if extended then 10 else 3) && Number(x, 20, 4, |target|)
                   && x[24..] == target && |target| <= 0x2000_0000 - 24
                 case OfOther(kind) =>
                   Number(x, 0, 2, kind) && kind !in {1, 2, 3, 8, 9, 10}
  }

  /** As many block sizes as the file calls for: its tail is in a fragment or in a short block. */
  ghost predicate Counts(bs: nat, size: nat, frag: nat, n: nat)
  {
    && (if frag == 0xFFFF_FFFF then JustHold(size, bs, n) else WholeIn(size, bs, n))
    && 56 + 4 * n <= 0x2000_0000
  }

  ghost predicate Complete(bs: nat, w: Written)
  {
    w.OfFile? ==> Counts(bs, w.size, w.frag, |w.sizes|)
  }

  /** What the reader makes of it. */
  function Parsed(v: Volume, w: Written): Inode
  {
    match w
    case OfDir(_, block, offset, listed) => Inode(Directory, listed, Dir(v.dirTable + block, offset, listed))
    case OfFile(_, start, size, frag, fragOffset, sizes) => FileOf(start, size, frag, fragOffset, sizes)
    case OfLink(_, target) => Inode(Symlink, |target|, Link(target))
    case OfOther(_) => Inode(Other, 0, NoBody)
  }

  function FileOf(start: nat, size: nat, frag: nat, fragOffset: nat, sizes: seq<nat>): Inode
  {
    Inode(Regular, size, File(sizes, Offsets(start, sizes, |sizes|), frag, fragOffset))
  }

  lemma {:induction false} CountsBlocks(bs: nat, size: nat, frag: nat, n: nat)
    requires bs > 0 && Counts(bs, size, frag, n)
    ensures BlockCount(bs, size, frag) == n
  {
    if frag == 0xFFFF_FFFF { JustHeld(size, bs, n); } else { WholeOnes(size, bs, n); }
  }

  lemma {:induction false} SizesRead(x: seq<byte>, base: nat, sizes: seq<nat>, n: nat)
    requires Sizes(x, base, sizes) && n <= |sizes|
    ensures SizesAt(x, base, n) == Ok(sizes[..n])
  {
    if n > 0 {
      SizesRead(x, base, sizes, n - 1);
      assert Number(x, base + 4 * (n - 1), 4, sizes[n - 1]);
      NumberReads(x, base + 4 * (n - 1), 4, sizes[n - 1]);
      assert sizes[..n] == sizes[..n - 1] + [sizes[n - 1]];
    }
  }

  /** A number within the first `n` bytes. */
  lemma {:induction false} NumberIn(x: seq<byte>, n: nat, o: nat, width: nat, v: nat)
    requires Number(x, o, width, v) && o + width <= n <= |x|
    ensures Number(x[..n], o, width, v)
  {
    assert x[..n][o..o + width] == x[o..o + width];
  }

  lemma {:induction false} Field(x: seq<byte>, n: nat, o: nat, width: nat, v: nat)
    requires Number(x, o, width, v) && o + width <= n <= |x|
    ensures width == 2 ==> Field16(x[..n], o) == Ok(v)
    ensures width == 4 ==> Field32(x[..n], o) == Ok(v)
    ensures width == 8 ==> Field64(x[..n], o) == Ok(v)
  {
    NumberIn(x, n, o, width, v);
    NumberReads(x[..n], o, width, v);
  }

  lemma {:induction false} FileReads(v: Volume, at: nat, off: nat, pieces: seq<Piece>, x: seq<byte>, base: nat, start: nat, size: nat, frag: nat, fragOffset: nat, sizes: seq<nat>)
    requires v.bs > 0 && MetaHolds(v.m, at, pieces, off, x) && Sizes(x, base, sizes) && base <= 56 && Counts(v.bs, size, frag, |sizes|)
    ensures FileInode(v, at, off, base, start, size, frag, fragOffset) == Ok(FileOf(start, size, frag, fragOffset, sizes))
  {
    CountsBlocks(v.bs, size, frag, |sizes|);
    HeldReads(v.m, at, pieces, off, x, |x|);
    SizesRead(x, base, sizes, |sizes|);
    assert x[..|x|] == x && sizes[..|sizes|] == sizes;
  }

  lemma {:induction false} BasicFileReads(v: Volume, at: nat, off: nat, pieces: seq<Piece>, x: seq<byte>, w: Written)
    requires v.bs > 0 && MetaHolds(v.m, at, pieces, off, x) && w.OfFile? && !w.extended && Says(x, w) && Complete(v.bs, w)
    ensures BasicFile(v, at, off) == Ok(Parsed(v, w))
  {
    HeldReads(v.m, at, pieces, off, x, 32);
    Field(x, 32, 16, 4, w.start);
    Field(x, 32, 20, 4, w.frag);
    Field(x, 32, 24, 4, w.fragOffset);
    Field(x, 32, 28, 4, w.size);
    FileReads(v, at, off, pieces, x, 32, w.start, w.size, w.frag, w.fragOffset, w.sizes);
  }

  lemma {:induction false} ExtendedFileReads(v: Volume, at: nat, off: nat, pieces: seq<Piece>, x: seq<byte>, w: Written)
    requires v.bs > 0 && MetaHolds(v.m, at, pieces, off, x) && w.OfFile? && w.extended && Says(x, w) && Complete(v.bs, w)
    ensures ExtendedFile(v, at, off) == Ok(Parsed(v, w))
  {
    HeldReads(v.m, at, pieces, off, x, 56);
    Field(x, 56, 16, 8, w.start);
    Field(x, 56, 24, 8, w.size);
    Field(x, 56, 44, 4, w.frag);
    Field(x, 56, 48, 4, w.fragOffset);
    FileReads(v, at, off, pieces, x, 56, w.start, w.size, w.frag, w.fragOffset, w.sizes);
  }

  lemma {:induction false} DirReads(v: Volume, at: nat, off: nat, pieces: seq<Piece>, x: seq<byte>, w: Written)
    requires MetaHolds(v.m, at, pieces, off, x) && w.OfDir? && Says(x, w)
    ensures (if w.extended then ExtendedDir(v, at, off) else BasicDir(v, at, off)) == Ok(Parsed(v, w))
  {
    if !w.extended {
      HeldReads(v.m, at, pieces, off, x, 32);
      Field(x, 32, 16, 4, w.block);
      Field(x, 32, 24, 2, w.listed);
      Field(x, 32, 26, 2, w.offset);
    } else {
      HeldReads(v.m, at, pieces, off, x, 40);
      Field(x, 40, 20, 4, w.listed);
      Field(x, 40, 24, 4, w.block);
      Field(x, 40, 34, 2, w.offset);
    }
  }

  lemma {:induction false} SymlinkReads(v: Volume, at: nat, off: nat, pieces: seq<Piece>, x: seq<byte>, w: Written)
    requires MetaHolds(v.m, at, pieces, off, x) && w.OfLink? && Says(x, w)
    ensures SymlinkInode(v, at, off) == Ok(Parsed(v, w))
  {
    HeldReads(v.m, at, pieces, off, x, 24);
    Field(x, 24, 20, 4, |w.target|);
    HeldReads(v.m, at, pieces, off, x, |x|);
    assert x[..|x|] == x && x[24..24 + |w.target|] == x[24..];
  }

  lemma {:induction false} RefSplits(blk: nat, off: nat, ref: nat)
    requires off < 0x1_0000 && ref == blk * 0x1_0000 + off
    ensures ref / 0x1_0000 == blk && ref % 0x1_0000 == off
  {
    DivUnique(ref, 0x1_0000, blk);
  }

  /** The inode of a reference: which block of the table, and where in it. */
  ghost predicate InodeOn(v: Volume, ref: nat, blk: nat, off: nat, pieces: seq<Piece>, x: seq<byte>)
  {
    off < 0x1_0000 && ref == blk * 0x1_0000 + off && MetaHolds(v.m, v.inodeTable + blk, pieces, off, x)
  }

  lemma {:induction false} KindReads(v: Volume, ref: nat, blk: nat, off: nat, pieces: seq<Piece>, x: seq<byte>, kind: nat)
    requires v.bs > 0 && InodeOn(v, ref, blk, off, pieces, x) && |x| >= 16 && Number(x, 0, 2, kind)
    ensures InodeAt(v, ref) == var at := v.inodeTable + blk;
                               if kind == 1 then BasicDir(v, at, off)
                               else if kind == 8 then ExtendedDir(v, at, off)
                               else if kind == 2 then BasicFile(v, at, off)
                               else if kind == 9 then ExtendedFile(v, at, off)
                               else if kind == 3 || kind == 10 then SymlinkInode(v, at, off)
                               else Ok(Inode(Other, 0, NoBody))
  {
    RefSplits(blk, off, ref);
    HeldReads(v.m, v.inodeTable + blk, pieces, off, x, 16);
    Field(x, 16, 0, 2, kind);
  }

  /** An inode of any kind is read back from its reference. */
  lemma {:induction false} InodeReadsBack(v: Volume, ref: nat, blk: nat, off: nat, pieces: seq<Piece>, x: seq<byte>, w: Written)
    requires v.bs > 0 && InodeOn(v, ref, blk, off, pieces, x) && Says(x, w) && Complete(v.bs, w)
    ensures InodeAt(v, ref) == Ok(Parsed(v, w))
  {
    var at := v.inodeTable + blk;
    match w
    case OfDir(extended, _, _, _) =>
      KindReads(v, ref, blk, off, pieces, x, if extended then 8 else 1);
      DirReads(v, at, off, pieces, x, w);
    case OfFile(extended, _, _, _, _, _) =>
      KindReads(v, ref, blk, off, pieces, x, if extended then 9 else 2);
      if extended { ExtendedFileReads(v, at, off, pieces, x, w); } else { BasicFileReads(v, at, off, pieces, x, w); }
    case OfLink(extended, _) =>
      KindReads(v, ref, blk, off, pieces, x, if extended then 10 else 3);
      SymlinkReads(v, at, off, pieces, x, w);
    case OfOther(kind) =>
      KindReads(v, ref, blk, off, pieces, x, kind);
  }

  // ----- the blocks of a file -----

  /** A block of a file: a hole, or bytes, as they are or packed. */
  datatype Chunk = Hole | Raw(bytes: seq<byte>) | Packed(bytes: seq<byte>)
  {
    predicate Fits() { !Hole? ==> 0 < |bytes| < 0x100_0000 }

    function Length(): nat { if Hole? then 0 else |bytes| }

    /** Its recorded size, with the mark of one that is not packed. */
    function SizeField(): nat
    {
      match this
      case Hole => 0
      case Raw(bytes) => |bytes| + 0x100_0000
      case Packed(bytes) => |bytes|
    }
  }

  /** It stands at `pos`, and is `part` of the file. */
  ghost predicate ChunkOn(v: Volume, pos: nat, c: Chunk, part: seq<byte>)
  {
    c.Fits() && match c
                case Hole => part == Zeros(|part|)
                case Raw(bytes) => Lies(v.m.src, pos, bytes) && bytes == part
                case Packed(bytes) => Lies(v.m.src, pos, bytes) && v.m.decode(bytes, v.bs) == Ok(part)
  }

  /** Where chunk `k` starts. */
  function ChunkPlace(start: nat, chunks: seq<Chunk>, k: nat): nat
    requires k <= |chunks|
  {
    if k == 0 then start else ChunkPlace(start, chunks, k - 1) + chunks[k - 1].Length()
  }

  ghost predicate ChunkStands(v: Volume, start: nat, chunks: seq<Chunk>, k: nat, data: seq<byte>)
  {
    k < |chunks| && ChunkOn(v, ChunkPlace(start, chunks, k), chunks[k], Part(data, v.bs, k))
  }

  /** The file's whole blocks stand one after another. */
  ghost predicate ChunksOn(v: Volume, start: nat, chunks: seq<Chunk>, data: seq<byte>)
  {
    forall k {:trigger ChunkStands(v, start, chunks, k, data)} :: 0 <= k < |chunks| ==> ChunkStands(v, start, chunks, k, data)
  }

  function SizesOf(chunks: seq<Chunk>): (r: seq<nat>)
    ensures |r| == |chunks|
  {
    seq(|chunks|, k requires 0 <= k < |chunks| => chunks[k].SizeField())
  }

  lemma {:induction false} SizeFieldReads(c: Chunk)
    requires c.Fits()
    ensures Stored(c.SizeField()) == c.Length() && (c.Length() == 0 <==> c.Hole?)
    ensures c.SizeField() / 0x100_0000 % 2 == if c.Raw? then 1 else 0
  {
  }

  lemma {:induction false} PlacesAgree(start: nat, chunks: seq<Chunk>, k: nat)
    requires k <= |chunks| && forall i :: 0 <= i < |chunks| ==> chunks[i].Fits()
    ensures OffsetOf(start, SizesOf(chunks), k) == ChunkPlace(start, chunks, k)
  {
    if k > 0 {
      PlacesAgree(start, chunks, k - 1);
      SizeFieldReads(chunks[k - 1]);
    }
  }

  /** A block that is no hole is read. */
  lemma {:induction false} ChunkReads(v: Volume, pos: nat, c: Chunk, part: seq<byte>)
    requires ChunkOn(v, pos, c, part) && !c.Hole?
    ensures DataBlock(v, pos, c.SizeField()) == Ok(part)
  {
    SizeFieldReads(c);
  }

  // ----- fragments -----

  /** Where a file's tail is: the slot of the fragment's entry in its table, the metadata the
      entry stands in, and the block it names with what that holds. */
  datatype Fragment = Fragment(group: nat, slot: nat, ptr: nat, pieces: seq<Piece>, entry: seq<byte>, pos: nat, chunk: Chunk, held: seq<byte>)

  ghost predicate FragmentOn(v: Volume, frag: nat, f: Fragment)
  {
    && f.slot < 512 && frag == 512 * f.group + f.slot && Number(v.m.src, v.fragTable + 8 * f.group, 8, f.ptr)
    && |f.entry| == 16 && MetaHolds(v.m, f.ptr, f.pieces, 16 * f.slot, f.entry)
    && Number(f.entry, 0, 8, f.pos) && Number(f.entry, 8, 4, f.chunk.SizeField())
    && !f.chunk.Hole? && ChunkOn(v, f.pos, f.chunk, f.held)
  }

  lemma {:induction false} SlotSplits(group: nat, slot: nat, frag: nat)
    requires slot < 512 && frag == 512 * group + slot
    ensures frag / 512 == group && frag % 512 == slot
  {
  }

  lemma {:induction false} FragmentReads(v: Volume, frag: nat, f: Fragment)
    requires FragmentOn(v, frag, f)
    ensures SquashInodes.Fragment(v, frag) == Ok(f.held)
  {
    SlotSplits(f.group, f.slot, frag);
    var at := v.fragTable + 8 * f.group;
    NumberReads(v.m.src, at, 8, f.ptr);
    LeSlice(v.m.src, at, at + 8, 0);
    HeldReads(v.m, f.ptr, f.pieces, 16 * f.slot, f.entry, 16);
    Field(f.entry, 16, 0, 8, f.pos);
    Field(f.entry, 16, 8, 4, f.chunk.SizeField());
    ChunkReads(v, f.pos, f.chunk, f.held);
  }

  // ----- files -----

  /** The medium holds `data` in the chunks of a file, and its tail, if that is in a fragment. */
  ghost predicate DataOn(v: Volume, w: Written, chunks: seq<Chunk>, f: Fragment, data: seq<byte>)
  {
    && w.OfFile? && w.size == |data| && w.sizes == SizesOf(chunks) && ChunksOn(v, w.start, chunks, data)
    && (w.frag != 0xFFFF_FFFF ==> FragmentOn(v, w.frag, f) && Lies(f.held, w.fragOffset, Part(data, v.bs, |chunks|)))
  }

  lemma {:induction false} ChunkGives(v: Volume, x: Inode, w: Written, chunks: seq<Chunk>, data: seq<byte>, k: nat, within: nat)
    requires v.bs > 0 && w.OfFile? && w.sizes == SizesOf(chunks) && x == Parsed(v, w) && ChunksOn(v, w.start, chunks, data)
    requires k < |chunks| && within < |Part(data, v.bs, k)|
    ensures BlockByte(v, x, k, within) == Some(Part(data, v.bs, k)[within])
  {
    forall i | 0 <= i < |chunks|
      ensures chunks[i].Fits()
    {
      assert ChunkStands(v, w.start, chunks, i, data);
    }
    assert ChunkStands(v, w.start, chunks, k, data);
    PlacesAgree(w.start, chunks, k);
    SizeFieldReads(chunks[k]);
    if !chunks[k].Hole? { ChunkReads(v, ChunkPlace(w.start, chunks, k), chunks[k], Part(data, v.bs, k)); }
  }

  lemma {:induction false} TailByte(v: Volume, x: Inode, n: nat, held: seq<byte>, tail: seq<byte>, within: nat)
    requires x.body.File? && |x.body.offsets| == |x.body.sizes| == n && x.body.frag != NO_FRAGMENT
    requires SquashInodes.Fragment(v, x.body.frag) == Ok(held) && Lies(held, x.body.fragOffset, tail) && within < |tail|
    ensures BlockByte(v, x, n, within) == Some(tail[within])
  {
    var from := x.body.fragOffset;
    assert held[from..from + |tail|][within] == tail[within];
  }

  lemma {:induction false} TailGives(v: Volume, x: Inode, w: Written, chunks: seq<Chunk>, f: Fragment, data: seq<byte>, within: nat)
    requires v.bs > 0 && x == Parsed(v, w) && DataOn(v, w, chunks, f, data) && w.frag != 0xFFFF_FFFF
    requires within < |Part(data, v.bs, |chunks|)|
    ensures BlockByte(v, x, |chunks|, within) == Some(Part(data, v.bs, |chunks|)[within])
  {
    FragmentReads(v, w.frag, f);
    TailByte(v, x, |chunks|, f.held, Part(data, v.bs, |chunks|), within);
  }

  lemma {:induction false} BlockOfByte(bs: nat, w: Written, n: nat, data: seq<byte>, q: nat, k: nat)
    requires bs > 0 && w.OfFile? && w.size == |data| && Counts(bs, w.size, w.frag, n) && q < |data| && k == q / bs
    ensures k < n || (w.frag != 0xFFFF_FFFF && k == n)
  {
    if w.frag == 0xFFFF_FFFF {
      PartHolds(|data|, bs, n, q, k);
    } else {
      PartHolds(|data|, bs, n + 1, q, k);
    }
  }

  lemma {:induction false} DataReads(v: Volume, x: Inode, w: Written, chunks: seq<Chunk>, f: Fragment, data: seq<byte>)
    requires v.bs > 0 && x == Parsed(v, w) && DataOn(v, w, chunks, f, data) && Complete(v.bs, w)
    ensures |x.body.offsets| == |x.body.sizes| && IsContent(Contents(v, x), 0, data)
  {
    forall q: nat | q < |data|
      ensures FileByte(v, x, q) == Some(data[q])
    {
      DivBounds(q, v.bs);
      var k: nat, within: nat := q / v.bs, q % v.bs;
      PartAt(data, v.bs, q, k);
      BlockOfByte(v.bs, w, |chunks|, data, q, k);
      if k < |chunks| {
        ChunkGives(v, x, w, chunks, data, k, within);
      } else {
        TailGives(v, x, w, chunks, f, data, within);
      }
    }
  }

  // ----- reading -----

  /** The node is that of a written inode. */
  ghost predicate NodeOf(fs: SquashFs, node: nat, ref: nat, blk: nat, off: nat, pieces: seq<Piece>, x: seq<byte>, w: Written)
    reads fs
  {
    && fs.Valid() && node < |fs.nodes| && fs.refs[node] == ref
    && InodeOn(fs.vol, ref, blk, off, pieces, x) && Says(x, w) && Complete(fs.vol.bs, w)
  }

  lemma {:induction false} NodeIs(fs: SquashFs, node: nat, ref: nat, blk: nat, off: nat, pieces: seq<Piece>, x: seq<byte>, w: Written)
    requires NodeOf(fs, node, ref, blk, off, pieces, x, w)
    ensures fs.nodes[node] == Parsed(fs.vol, w)
  {
    InodeReadsBack(fs.vol, ref, blk, off, pieces, x, w);
    assert Parser(fs.vol)(fs.refs[node]) == Ok(fs.nodes[node]);
  }

  /** A written file reads back, any window of it. */
  method ReadBack(fs: SquashFs, node: nat, ghost ref: nat, ghost blk: nat, ghost at: nat, ghost pieces: seq<Piece>, ghost x: seq<byte>,
                  ghost w: Written, ghost chunks: seq<Chunk>, ghost f: Fragment, ghost data: seq<byte>, off: nat, buf: array<byte>)
    returns (r: Result<nat>)
    requires NodeOf(fs, node, ref, blk, at, pieces, x, w) && DataOn(fs.vol, w, chunks, f, data)
    modifies buf
    ensures Delivered(data, off, old(buf[..]), buf[..], r)
  {
    NodeIs(fs, node, ref, blk, at, pieces, x, w);
    DataReads(fs.vol, fs.nodes[node], w, chunks, f, data);
    ghost var was, content := buf[..], Contents(fs.vol, fs.nodes[node]);
    r := fs.ReadAt(node, off, buf);
    if off < |data| { WindowDelivers(content, data, off, Min(|was|, |data| - off), was, buf[..], r); }
  }

  /** A written symlink's target; nothing else has one. */
  method ReadLinkBack(fs: SquashFs, node: nat, ghost ref: nat, ghost blk: nat, ghost at: nat, ghost pieces: seq<Piece>, ghost x: seq<byte>,
                      ghost w: Written)
    returns (r: Result<Option<seq<byte>>>)
    requires NodeOf(fs, node, ref, blk, at, pieces, x, w)
    ensures r == Ok(if w.OfLink? then Some(w.target) else None)
  {
    NodeIs(fs, node, ref, blk, at, pieces, x, w);
    r := fs.ReadLink(node);
  }

  // ----- directories -----

  /** The listing of a directory stands in the metadata its inode names. */
  ghost predicate ListingOn(v: Volume, w: Written, listing: seq<Piece>, hs: seq<D.Header>)
  {
    && w.OfDir? && (forall k :: 0 <= k < |hs| ==> hs[k].Fits())
    && w.listed == |D.PrintHeaders(hs, 0)| + 3 <= 0x2000_0000
    && MetaHolds(v.m, v.dirTable + w.block, listing, w.offset, D.PrintHeaders(hs, 0))
  }

  lemma {:induction false} ListedReads(v: Volume, d: Body, pieces: seq<Piece>, x: seq<byte>)
    requires d.Dir? && d.listed == |x| + 3 <= 0x2000_0000 && MetaHolds(v.m, d.block, pieces, d.offset, x)
    ensures ChildrenOf(v, d) == D.HeadersFrom(x, 0, [])
  {
    HeldReads(v.m, d.block, pieces, d.offset, x, |x|);
    assert x[..|x|] == x;
  }

  lemma {:induction false} ListingReads(v: Volume, w: Written, listing: seq<Piece>, hs: seq<D.Header>)
    requires ListingOn(v, w, listing, hs)
    ensures ChildrenOf(v, Parsed(v, w).body) == Ok(D.AllChildren(hs, 0))
  {
    ListedReads(v, Parsed(v, w).body, listing, D.PrintHeaders(hs, 0));
    D.ParseUndoesPrint(hs);
  }

  /** A written directory is listed: an entry for every name, in order, each with the node of
      the inode it refers to. */
  method ReadDirBack(fs: SquashFs, node: nat, ghost ref: nat, ghost blk: nat, ghost at: nat, ghost pieces: seq<Piece>, ghost x: seq<byte>,
                     ghost w: Written, ghost listing: seq<Piece>, ghost hs: seq<D.Header>)
    returns (r: Result<seq<DirEntry>>)
    requires NodeOf(fs, node, ref, blk, at, pieces, x, w) && ListingOn(fs.vol, w, listing, hs)
    modifies fs
    ensures fs.Valid() && old(fs.nodes) <= fs.nodes
    ensures var cs := D.AllChildren(hs, 0);
            && (r.Ok? ==> |r.value| == |cs| && forall i :: 0 <= i < |cs| ==>
                            && r.value[i].name == cs[i].name && r.value[i].node < |fs.nodes|
                            && InodeAt(fs.vol, cs[i].ref) == Ok(fs.nodes[r.value[i].node]))
            && (r.Err? ==> exists i :: 0 <= i < |cs| && InodeAt(fs.vol, cs[i].ref) == Err(r.error))
  {
    NodeIs(fs, node, ref, blk, at, pieces, x, w);
    ListingReads(fs.vol, w, listing, hs);
    r := fs.ReadDir(node);
    ghost var cs := D.AllChildren(hs, 0);
    if r.Ok? {
      forall i | 0 <= i < |cs|
        ensures InodeAt(fs.vol, cs[i].ref) == Ok(fs.nodes[r.value[i].node])
      {
        assert fs.Answers(Parser(fs.vol), r.value[i], cs[i]);
      }
    } else {
      ghost var i :| 0 <= i < |cs| && Parser(fs.vol)(cs[i].ref) == Err(r.error);
      assert InodeAt(fs.vol, cs[i].ref) == Err(r.error);
    }
  }
}
