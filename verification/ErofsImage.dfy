/** EROFS files as they are written (`crates/lamfold-erofs/src/erofs.rs`): inodes, the map
    header and the indexes of compressed files, and the data of the uncompressed layouts, byte
    by byte; and that a mounted volume reads back what was written. */
module ErofsImage {
  import opened Bytes
  import opened ErofsArms
  import opened ErofsDecode
  import opened ErofsForms
  import opened ErofsPacking
  import opened ErofsVolume
  import opened Frontend
  import opened Parts
  import opened VerifiedReads
  import opened Windows
  import ErofsIndex
  import Verity

  // ----- inodes -----

  /** An inode's mode: its kind above 12 permission bits; `special` is the type of a file that is
      none of the three. */
  function ModeOf(kind: FileKind, permissions: nat, special: nat): nat
  {
    permissions + match kind
                  case Regular => 0x8000
                  case Directory => 0x4000
                  case Symlink => 0xA000
                  case Other => special * 0x1000
  }

  /** An inode to be written; `links`, `reserved` and `rest` are the fields not looked at. */
  datatype Written = Written(
    extended: bool, kind: FileKind, special: nat, permissions: nat, layout: nat, formatHigh: nat, xattrs: nat,
    size: nat, u: nat, links: seq<byte>, reserved: seq<byte>, rest: seq<byte>)
  {
    predicate Fits()
    {
      && permissions < 0x1000 && special < 16 && special != 4 && special != 8 && special != 10
      && layout < 8 && formatHigh < 0x1000 && xattrs < 0x1_0000 && u < 0x1_0000_0000
      && |links| == 2 && |reserved| == 4 && |rest| == (if extended then 44 else 12)
      && size < if extended then 0x1_0000_0000_0000_0000 else 0x1_0000_0000
    }

    function Mode(): nat { ModeOf(kind, permissions, special) }

    /** Its length on the medium, with its extended attributes: a header of 12 bytes and 4 more
        for each further unit. */
    function Length(): nat
    {
      (if extended then 64 else 32) + if xattrs == 0 then 0 else 8 + 4 * xattrs
    }
  }

  function PutInode(w: Written): (r: seq<byte>)
    requires w.Fits()
    ensures |r| == if w.extended then 64 else 32
  {
    Put16(FormatOf(w)) + Put16(w.xattrs) + Put16(w.Mode()) + w.links
    + (if w.extended then Put64(w.size) else Put32(w.size) + w.reserved) + Put32(w.u) + w.rest
  }

  /** What the reader makes of it, when it stands at `off`. */
  function Parsed(w: Written, off: nat): Inode
  {
    Inode(w.kind, w.size, w.Mode(), w.layout, w.u, off + w.Length())
  }

  /** The format word: a bit for the extended form, three for the layout. */
  function FormatOf(w: Written): nat
  {
    (if w.extended then 1 else 0) + 2 * w.layout + 16 * w.formatHigh
  }

  lemma {:induction false} InodeFields(w: Written, x: seq<byte>)
    requires w.Fits() && x == PutInode(w)
    ensures x[0..2] == Put16(FormatOf(w)) && x[2..4] == Put16(w.xattrs) && x[4..6] == Put16(w.Mode()) && x[16..20] == Put32(w.u)
    ensures if w.extended then x[8..16] == Put64(w.size) else x[8..12] == Put32(w.size)
  {
  }

  /** What the first 32 bytes of an inode say. */
  ghost predicate Says(hdr: seq<byte>, w: Written)
    requires |hdr| == 32
  {
    && Le16(hdr, 0) == FormatOf(w) && Le16(hdr, 2) == w.xattrs && Le16(hdr, 4) == w.Mode() && Le32(hdr, 16) == w.u
    && if w.extended then Le64(hdr, 8) == w.size else Le32(hdr, 8) == w.size
  }

  lemma {:induction false} HeaderSays(w: Written, x: seq<byte>)
    requires w.Fits() && x == PutInode(w)
    ensures Says(x[0..32], w)
  {
    InodeFields(w, x);
    LeSlice(x, 0, 2, 0);
    LeSlice(x, 2, 4, 0);
    LeSlice(x, 4, 6, 0);
    LeSlice(x, 8, 12, 0);
    LeSlice(x, 8, 16, 0);
    LeSlice(x, 16, 20, 0);
    LeSlice(x, 0, 32, 0);
    LeSlice(x, 0, 32, 2);
    LeSlice(x, 0, 32, 4);
    LeSlice(x, 0, 32, 8);
    LeSlice(x, 0, 32, 16);
  }

  lemma {:induction false} ModeReads(w: Written)
    requires w.Fits()
    ensures KindOf(w.Mode()) == w.kind
  {
  }

  lemma {:induction false} FormatReads(w: Written)
    requires w.Fits()
    ensures (FormatOf(w) % 2 == 1) == w.extended && FormatOf(w) / 2 % 8 == w.layout
  {
  }

  lemma {:induction false} SaidIsParsed(v: Volume, nid: nat, off: nat, w: Written)
    requires w.Fits() && off == v.metaOff + nid * 32 < 0x1_0000_0000_0000_0000
    requires off + (if w.extended then 64 else 32) <= |v.src| && Says(v.src[off..off + 32], w)
    ensures InodeOf(v, nid) == Ok(Parsed(w, off))
  {
    ModeReads(w);
    FormatReads(w);
  }

  /** An inode is read back, wherever the volume keeps it. */
  lemma {:induction false} InodeReadsBack(v: Volume, nid: nat, off: nat, w: Written)
    requires w.Fits() && off == v.metaOff + nid * 32 < 0x1_0000_0000_0000_0000 && Lies(v.src, off, PutInode(w))
    ensures InodeOf(v, nid) == Ok(Parsed(w, off))
  {
    var x := PutInode(w);
    HeaderSays(w, x);
    PartOfSlice(v.src, off, off + |x|, x, 0, 32);
    SaidIsParsed(v, nid, off, w);
  }

  // ----- the index of a compressed file -----

  /** The map header: two-byte packing, big pclusters of either algorithm, the algorithms, and
      how much larger than a block an lcluster is. The rest is not looked at. */
  datatype MapFields = MapFields(
    misc: seq<byte>, twoByte: bool, big: nat, adviseHigh: nat, first: nat, second: nat, shift: nat, others: nat)
  {
    predicate Fits()
    {
      |misc| == 4 && big < 4 && adviseHigh < 0x400 && first < 16 && second < 16 && shift < 16 && others < 8
    }

    function Advise(): nat { (if twoByte then 1 else 0) + 2 * big + 64 * adviseHigh }
  }

  function PutMap(m: MapFields): (r: seq<byte>)
    requires m.Fits()
    ensures |r| == 8
  {
    m.misc + Put16(m.Advise()) + [m.first + 16 * m.second] + [m.shift + 16 * m.others]
  }

  lemma {:induction false} AdviseReads(m: MapFields)
    requires m.Fits()
    ensures var a := m.Advise();
            a < 0x1_0000 && a / 8 % 8 == 0 && (a % 2 == 1) == m.twoByte && (a / 2 % 4 != 0) == (m.big > 0)
  {
  }

  /** The header stands at the first multiple of 8 behind the inode. */
  ghost predicate MapOn(v: Volume, ino: Inode, mh: nat, m: MapFields)
  {
    && m.Fits() && mh % 8 == 0 && ino.inlineOff <= mh < ino.inlineOff + 8 && Lies(v.src, mh, PutMap(m))
    && v.blkszbits + m.shift <= 30 && ino.size <= 0x2000_0000
  }

  lemma {:induction false} NextEighth(inlineOff: nat, mh: nat)
    requires mh % 8 == 0 && inlineOff <= mh < inlineOff + 8
    ensures AlignUp(inlineOff, 8) == mh
  {
  }

  /** What the eight bytes of a map header say. */
  ghost predicate MapSays(x: seq<byte>, m: MapFields)
  {
    && |x| == 8 && x[6] % 16 == m.first && x[6] / 16 == m.second && x[7] % 16 == m.shift && x[7] / 0x80 == 0
    && var a := Le16(x, 4);
       a / 8 % 8 == 0 && (a % 2 == 1) == m.twoByte && (a / 2 % 4 != 0) == (m.big > 0)
  }

  lemma {:induction false} PutMapSays(m: MapFields, x: seq<byte>)
    requires m.Fits() && x == PutMap(m)
    ensures MapSays(x, m)
  {
    AdviseReads(m);
    assert x[4..6] == Put16(m.Advise());
    LeSlice(x, 4, 6, 0);
    assert x[6] == m.first + 16 * m.second && x[7] == m.shift + 16 * m.others;
  }

  lemma {:induction false} SaidIsMap(v: Volume, ino: Inode, mh: nat, x: seq<byte>, m: MapFields)
    requires AlignUp(ino.inlineOff, 8) == mh && Lies(v.src, mh, x) && MapSays(x, m)
    requires v.blkszbits + m.shift <= 30 && ino.size <= 0x2000_0000
    ensures ParseMapHeader(v, ino) == Ok(HeaderOf(v, mh, m))
  {
  }

  lemma {:induction false} MapReads(v: Volume, ino: Inode, mh: nat, m: MapFields)
    requires MapOn(v, ino, mh, m)
    ensures ParseMapHeader(v, ino) == Ok(HeaderOf(v, mh, m))
  {
    NextEighth(ino.inlineOff, mh);
    PutMapSays(m, PutMap(m));
    SaidIsMap(v, ino, mh, PutMap(m), m);
  }

  /** The header, as it is parsed. */
  function HeaderOf(v: Volume, mh: nat, m: MapFields): MapHeader
  {
    MapHeader(mh, v.blkszbits + m.shift, m.twoByte, m.big > 0, Algos(m.first, m.second))
  }

  lemma {:induction false} HeadsFollow(v: Volume, ino: Inode, h: MapHeader, hs: seq<ErofsIndex.Head>)
    requires ParseMapHeader(v, ino) == Ok(h) && HeadsOf(v, ino, h) == Ok(hs)
    ensures InodeHeads(v, ino) == Ok((hs, h.algos))
  {
  }

  lemma {:induction false} HeadsOfCount(v: Volume, ino: Inode, h: MapHeader, lcsize: nat, n: nat)
    requires lcsize == Pow2(h.lcbits) && JustHold(ino.size, lcsize, n)
    ensures HeadsOf(v, ino, h) == HeadsIn(v, ino.layout, h, lcsize, n)
  {
    JustHeld(ino.size, lcsize, n);
  }

  /** The inode resolves to the pclusters of `n` lclusters behind the header. */
  lemma {:induction false} HeadsRead(v: Volume, ino: Inode, mh: nat, m: MapFields, n: nat, lcsize: nat, hs: seq<ErofsIndex.Head>)
    requires MapOn(v, ino, mh, m) && lcsize == Pow2(v.blkszbits + m.shift) && JustHold(ino.size, lcsize, n)
    requires HeadsIn(v, ino.layout, HeaderOf(v, mh, m), lcsize, n) == Ok(hs)
    ensures InodeHeads(v, ino) == Ok((hs, Algos(m.first, m.second)))
  {
    MapReads(v, ino, mh, m);
    HeadsOfCount(v, ino, HeaderOf(v, mh, m), lcsize, n);
    HeadsFollow(v, ino, HeaderOf(v, mh, m), hs);
  }

  lemma {:induction false} FullDispatch(v: Volume, h: MapHeader, idx0: nat, lcsize: nat, n: nat)
    requires idx0 == h.mh + 16
    ensures HeadsIn(v, 1, h, lcsize, n) == ErofsIndex.FullHeads(v.src, idx0, lcsize, n)
  {
  }

  lemma {:induction false} CompactDispatched(v: Volume, h: MapHeader, ebase: nat, lcsize: nat, n: nat, big: bool)
    requires h.lcbits <= 12 && h.twoByte && ebase == h.mh + 8 && big == h.big
    ensures HeadsIn(v, 3, h, lcsize, n) == ErofsIndex.CompactHeads(v.src, ebase, lcsize, n, big)
  {
    CompactDispatch(v, h, lcsize, n);
  }

  /** A full index on the medium, behind a legacy header of 16 bytes. */
  ghost predicate FullOn(v: Volume, ino: Inode, mh: nat, m: MapFields, lcs: seq<Lcluster>)
  {
    && MapOn(v, ino, mh, m) && ino.layout == 1 && Lies(v.src, mh + 16, PutFullIndex(lcs))
    && JustHold(ino.size, Pow2(v.blkszbits + m.shift), |lcs|)
  }

  /** A compact index of one block a pcluster, packed from the first byte behind the header on. */
  ghost predicate CompactOn(v: Volume, ino: Inode, mh: nat, m: MapFields, lcs: seq<Lcluster>)
  {
    && MapOn(v, ino, mh, m) && ino.layout == 3 && m.twoByte && m.big == 0 && 9 <= v.blkszbits && v.blkszbits + m.shift <= 12
    && JustHold(ino.size, Pow2(v.blkszbits + m.shift), |lcs|) && Consecutive(lcs, mh + 8)
    && Lies(v.src, mh + 8, LayIndex(Codes(lcs), BasesFor(lcs, mh + 8), mh + 8, 0, 0))
  }

  /** A compact index of big pclusters. */
  ghost predicate BigOn(v: Volume, ino: Inode, mh: nat, m: MapFields, ps: seq<Pcluster>, bases: seq<u32>)
  {
    && MapOn(v, ino, mh, m) && ino.layout == 3 && m.twoByte && m.big > 0 && 9 <= v.blkszbits && v.blkszbits + m.shift <= 12
    && JustHold(ino.size, Pow2(v.blkszbits + m.shift), |BigCodes(ps)|)
    && ps != [] && |bases| == Regions(mh + 8, |BigCodes(ps)|) > 0 && bases[0] + TotalBlocks(ps[..|ps| - 1]) < 0x1_0000_0000
    && Lies(v.src, mh + 8, LayIndex(BigCodes(ps), bases, mh + 8, 0, 0))
  }

  lemma {:induction false} FullHeadsAre(v: Volume, mh: nat, m: MapFields, lcs: seq<Lcluster>, lcsize: nat)
    requires Lies(v.src, mh + 16, PutFullIndex(lcs))
    ensures HeadsIn(v, 1, HeaderOf(v, mh, m), lcsize, |lcs|) == Ok(IndexHeads(lcs, lcsize, |lcs|))
  {
    WrittenIndexHolds(v.src, mh + 16, lcs);
    FullMeansIndex(v.src, mh + 16, lcs, lcsize, |lcs|);
    FullDispatch(v, HeaderOf(v, mh, m), mh + 16, lcsize, |lcs|);
  }

  /** A compressed file with a full index: what its lclusters mean is what is resolved. */
  lemma {:induction false} FullIndexReads(v: Volume, ino: Inode, mh: nat, m: MapFields, lcs: seq<Lcluster>)
    requires FullOn(v, ino, mh, m, lcs)
    ensures InodeHeads(v, ino) == Ok((IndexHeads(lcs, Pow2(v.blkszbits + m.shift), |lcs|), Algos(m.first, m.second)))
  {
    var lcsize := Pow2(v.blkszbits + m.shift);
    FullHeadsAre(v, mh, m, lcs, lcsize);
    HeadsRead(v, ino, mh, m, |lcs|, lcsize, IndexHeads(lcs, lcsize, |lcs|));
  }

  lemma {:induction false} SmallClusters(v: Volume, shift: nat)
    requires v.blkszbits >= 9
    ensures Pow2(v.blkszbits + shift) >= 512
  {
    assert Pow2(9) == 512;
    Pow2Monotone(9, v.blkszbits + shift);
  }

  lemma {:induction false} IndexFits(v: Volume, ino: Inode, m: MapFields, ebase: nat, n: nat)
    requires v.blkszbits >= 9 && ino.size <= 0x2000_0000 && JustHold(ino.size, Pow2(v.blkszbits + m.shift), n)
    ensures CheckedFullReadLen(ErofsIndex.IdxLen(ebase, n)).Ok?
  {
    SmallClusters(v, m.shift);
    JustHeld(ino.size, Pow2(v.blkszbits + m.shift), n);
    ErofsIndex.IdxLenBelowCap(ebase, ino.size, Pow2(v.blkszbits + m.shift));
  }

  lemma {:induction false} CompactHeadsAre(v: Volume, ino: Inode, mh: nat, m: MapFields, lcs: seq<Lcluster>, lcsize: nat)
    requires m.twoByte && m.big == 0 && 9 <= v.blkszbits && v.blkszbits + m.shift <= 12 && ino.size <= 0x2000_0000
    requires lcsize == Pow2(v.blkszbits + m.shift) && JustHold(ino.size, lcsize, |lcs|) && Consecutive(lcs, mh + 8)
    requires Lies(v.src, mh + 8, LayIndex(Codes(lcs), BasesFor(lcs, mh + 8), mh + 8, 0, 0)) && mh % 8 == 0
    ensures HeadsIn(v, 3, HeaderOf(v, mh, m), lcsize, |lcs|) == Ok(IndexHeads(lcs, lcsize, |lcs|))
  {
    IndexFits(v, ino, m, mh + 8, |lcs|);
    IndexIsLaid(Codes(lcs), BasesFor(lcs, mh + 8), mh + 8);
    CompactReads(v.src, mh + 8, lcs, lcsize);
    CompactDispatched(v, HeaderOf(v, mh, m), mh + 8, lcsize, |lcs|, false);
  }

  /** The same file with a compact index: the same is resolved. */
  lemma {:induction false} CompactIndexReads(v: Volume, ino: Inode, mh: nat, m: MapFields, lcs: seq<Lcluster>)
    requires CompactOn(v, ino, mh, m, lcs)
    ensures InodeHeads(v, ino) == Ok((IndexHeads(lcs, Pow2(v.blkszbits + m.shift), |lcs|), Algos(m.first, m.second)))
  {
    var lcsize := Pow2(v.blkszbits + m.shift);
    CompactHeadsAre(v, ino, mh, m, lcs, lcsize);
    HeadsRead(v, ino, mh, m, |lcs|, lcsize, IndexHeads(lcs, lcsize, |lcs|));
  }

  lemma {:induction false} BigHeadsAre(v: Volume, ino: Inode, mh: nat, m: MapFields, ps: seq<Pcluster>, bases: seq<u32>, lcsize: nat)
    requires m.twoByte && m.big > 0 && 9 <= v.blkszbits && v.blkszbits + m.shift <= 12 && ino.size <= 0x2000_0000
    requires lcsize == Pow2(v.blkszbits + m.shift) && JustHold(ino.size, lcsize, |BigCodes(ps)|)
    requires ps != [] && |bases| == Regions(mh + 8, |BigCodes(ps)|) > 0 && bases[0] + TotalBlocks(ps[..|ps| - 1]) < 0x1_0000_0000
    requires Lies(v.src, mh + 8, LayIndex(BigCodes(ps), bases, mh + 8, 0, 0)) && mh % 8 == 0
    ensures HeadsIn(v, 3, HeaderOf(v, mh, m), lcsize, |BigCodes(ps)|) == Ok(BigHeads(ps, lcsize, bases[0]))
  {
    IndexFits(v, ino, m, mh + 8, |BigCodes(ps)|);
    IndexIsLaid(BigCodes(ps), bases, mh + 8);
    BigRoundTrip(v.src, mh + 8, ps, bases, lcsize);
    CompactDispatched(v, HeaderOf(v, mh, m), mh + 8, lcsize, |BigCodes(ps)|, true);
  }

  /** A compact index of big pclusters. */
  lemma {:induction false} BigIndexReads(v: Volume, ino: Inode, mh: nat, m: MapFields, ps: seq<Pcluster>, bases: seq<u32>)
    requires BigOn(v, ino, mh, m, ps, bases)
    ensures InodeHeads(v, ino) == Ok((BigHeads(ps, Pow2(v.blkszbits + m.shift), bases[0]), Algos(m.first, m.second)))
  {
    var lcsize := Pow2(v.blkszbits + m.shift);
    BigHeadsAre(v, ino, mh, m, ps, bases, lcsize);
    HeadsRead(v, ino, mh, m, |BigCodes(ps)|, lcsize, BigHeads(ps, lcsize, bases[0]));
  }

  // ----- data -----

  /** A chunk of a chunked file: a hole, or where its bytes are. */
  datatype Chunk = Hole | At(blk: nat)

  /** How a file's data is kept: in blocks from `u` on; or whole blocks there and the rest
      behind the inode; or in chunks of `2^shift` blocks found through a table; or compressed,
      its index behind the map header at `mh`. */
  datatype Body =
    | Blocks
    | Tail(blocks: nat)
    | Chunks(shift: nat, table: nat, chunks: seq<Chunk>)
    | Full(mh: nat, header: MapFields, lcs: seq<Lcluster>)
    | Compact(mh: nat, header: MapFields, lcs: seq<Lcluster>)
    | Big(mh: nat, header: MapFields, ps: seq<Pcluster>, bases: seq<u32>)

  /** Entry `i` of a chunk table. */
  ghost predicate EntryIs(src: seq<byte>, at: nat, entry: nat)
  {
    at + 4 <= |src| && Le32(src, at) == entry
  }

  ghost predicate ChunkOn(v: Volume, table: nat, i: nat, c: Chunk, part: seq<byte>)
  {
    match c
    case Hole => EntryIs(v.src, table + 4 * i, 0xffff_ffff) && part == Zeros(|part|)
    case At(blk) => blk < 0xffff_ffff && EntryIs(v.src, table + 4 * i, blk) && Lies(v.src, blk * Pow2(v.blkszbits), part)
  }

  /** Every chunk is on the medium. */
  ghost predicate ChunksOn(v: Volume, table: nat, chunks: seq<Chunk>, chunk: nat, data: seq<byte>)
  {
    forall i {:trigger chunks[i]} :: 0 <= i < |chunks| ==> ChunkOn(v, table, i, chunks[i], Part(data, chunk, i))
  }

  ghost predicate BlocksOn(v: Volume, ino: Inode, data: seq<byte>)
  {
    ino.layout == 0 && Lies(v.src, ino.rawBlkaddr * Pow2(v.blkszbits), data)
  }

  ghost predicate TailOn(v: Volume, ino: Inode, full: nat, blocks: nat, data: seq<byte>)
  {
    && ino.layout == 2 && full == Room(blocks, Pow2(v.blkszbits)) && full <= |data| < full + Pow2(v.blkszbits)
    && Lies(v.src, ino.rawBlkaddr * Pow2(v.blkszbits), data[..full]) && Lies(v.src, ino.inlineOff, data[full..])
  }

  /** The table stands at the first multiple of 4 behind the inode. */
  ghost predicate ChunkedOn(v: Volume, ino: Inode, shift: nat, table: nat, chunk: nat, chunks: seq<Chunk>, data: seq<byte>)
  {
    && ino.layout == 4 && shift < 0x20 && ino.rawBlkaddr % 0x1_0000 == shift && v.blkszbits + shift <= 40
    && table % 4 == 0 && ino.inlineOff <= table < ino.inlineOff + 4
    && chunk == Pow2(v.blkszbits + shift) && |data| <= Room(|chunks|, chunk) && ChunksOn(v, table, chunks, chunk, data)
  }

  ghost predicate FullDataOn(v: Volume, ino: Inode, mh: nat, m: MapFields, lcs: seq<Lcluster>, data: seq<byte>)
  {
    FullOn(v, ino, mh, m, lcs) && Tiles(v, Algos(m.first, m.second), IndexHeads(lcs, Pow2(v.blkszbits + m.shift), |lcs|), data)
  }

  ghost predicate CompactDataOn(v: Volume, ino: Inode, mh: nat, m: MapFields, lcs: seq<Lcluster>, data: seq<byte>)
  {
    CompactOn(v, ino, mh, m, lcs) && Tiles(v, Algos(m.first, m.second), IndexHeads(lcs, Pow2(v.blkszbits + m.shift), |lcs|), data)
  }

  ghost predicate BigDataOn(v: Volume, ino: Inode, mh: nat, m: MapFields, ps: seq<Pcluster>, bases: seq<u32>, data: seq<byte>)
  {
    BigOn(v, ino, mh, m, ps, bases) && Tiles(v, Algos(m.first, m.second), BigHeads(ps, Pow2(v.blkszbits + m.shift), bases[0]), data)
  }

  /** The medium holds `data` for the inode. */
  ghost predicate DataOn(v: Volume, ino: Inode, body: Body, data: seq<byte>)
  {
    match body
    case Blocks => BlocksOn(v, ino, data)
    case Tail(blocks) => TailOn(v, ino, Room(blocks, Pow2(v.blkszbits)), blocks, data)
    case Chunks(shift, table, chunks) => ChunkedOn(v, ino, shift, table, Pow2(v.blkszbits + shift), chunks, data)
    case Full(mh, m, lcs) => FullDataOn(v, ino, mh, m, lcs, data)
    case Compact(mh, m, lcs) => CompactDataOn(v, ino, mh, m, lcs, data)
    case Big(mh, m, ps, bases) => BigDataOn(v, ino, mh, m, ps, bases, data)
  }

  ghost predicate HasData(v: Volume, ino: Inode, data: seq<byte>)
  {
    forall p: nat {:trigger ByteAt(v, ino, p)} :: p < |data| ==> ByteAt(v, ino, p) == Some(data[p])
  }

  lemma {:induction false} LiesAtByte(src: seq<byte>, at: nat, x: seq<byte>, p: nat)
    requires Lies(src, at, x) && p < |x|
    ensures SourceByte(src, at + p) == Some(x[p])
  {
    assert src[at..at + |x|][p] == x[p];
  }

  lemma {:induction false} BlocksGive(v: Volume, ino: Inode, data: seq<byte>)
    requires ino.size == |data| && BlocksOn(v, ino, data)
    ensures HasData(v, ino, data)
  {
    forall p: nat {:trigger ByteAt(v, ino, p)} | p < |data|
      ensures ByteAt(v, ino, p) == Some(data[p])
    {
      LiesAtByte(v.src, ino.rawBlkaddr * Pow2(v.blkszbits), data, p);
    }
  }

  lemma {:induction false} TailGives(v: Volume, ino: Inode, full: nat, blocks: nat, data: seq<byte>)
    requires ino.size == |data| && TailOn(v, ino, full, blocks, data)
    ensures HasData(v, ino, data)
  {
    RoomIs(blocks, Pow2(v.blkszbits));
    DivUnique(|data|, Pow2(v.blkszbits), blocks);
    assert FullBytes(v, ino) == full;
    forall p: nat {:trigger ByteAt(v, ino, p)} | p < |data|
      ensures ByteAt(v, ino, p) == Some(data[p])
    {
      if p < full {
        LiesAtByte(v.src, ino.rawBlkaddr * Pow2(v.blkszbits), data[..full], p);
      } else {
        LiesAtByte(v.src, ino.inlineOff, data[full..], p - full);
      }
    }
  }

  lemma {:induction false} EntryReads(v: Volume, ino: Inode, i: nat, entry: nat)
    requires EntryIs(v.src, ChunkTable(ino) + 4 * i, entry)
    ensures ChunkEntry(v, ino, i) == Ok(entry)
  {
    var at := ChunkTable(ino) + 4 * i;
    LeSlice(v.src, at, at + 4, 0);
  }

  lemma {:induction false} ChunkGives(v: Volume, ino: Inode, i: nat, c: Chunk, part: seq<byte>, within: nat)
    requires ChunkOn(v, ChunkTable(ino), i, c, part) && within < |part|
    ensures ChunkByte(v, ino, i, within) == Some(part[within])
  {
    EntryReads(v, ino, i, if c.Hole? then 0xffff_ffff else c.blk);
    if c.At? { LiesAtByte(v.src, c.blk * Pow2(v.blkszbits), part, within); }
  }

  lemma {:induction false} FormatGives(v: Volume, ino: Inode, shift: nat)
    requires shift < 0x20 && ino.rawBlkaddr % 0x1_0000 == shift && v.blkszbits + shift <= 40
    ensures ChunkBits(v, ino) == Ok(v.blkszbits + shift)
  {
  }

  lemma {:induction false} ByteOfChunk(v: Volume, ino: Inode, chunk: nat, i: nat, c: Chunk, data: seq<byte>, p: nat)
    requires ino.layout == 4 && ino.size == |data| && ChunkBits(v, ino).Ok? && chunk == Pow2(ChunkBits(v, ino).value)
    requires p < |data| && i == p / chunk && ChunkOn(v, ChunkTable(ino), i, c, Part(data, chunk, i))
    ensures ByteAt(v, ino, p) == Some(data[p])
  {
    PartAt(data, chunk, p, i);
    ChunkGives(v, ino, i, c, Part(data, chunk, i), p % chunk);
    ByteInChunk(v, ino, p, chunk, i, p % chunk);
  }

  lemma {:induction false} ByteOfSome(v: Volume, ino: Inode, chunk: nat, chunks: seq<Chunk>, data: seq<byte>, p: nat, i: nat)
    requires ino.layout == 4 && ino.size == |data| && ChunkBits(v, ino).Ok? && chunk == Pow2(ChunkBits(v, ino).value)
    requires p < |data| && i == p / chunk && i < |chunks| && ChunksOn(v, ChunkTable(ino), chunks, chunk, data)
    ensures ByteAt(v, ino, p) == Some(data[p])
  {
    ByteOfChunk(v, ino, chunk, i, chunks[i], data, p);
  }

  lemma {:induction false} AnyByte(v: Volume, ino: Inode, chunk: nat, chunks: seq<Chunk>, data: seq<byte>, p: nat)
    requires ino.layout == 4 && ino.size == |data| && ChunkBits(v, ino).Ok? && chunk == Pow2(ChunkBits(v, ino).value)
    requires p < |data| <= Room(|chunks|, chunk) && ChunksOn(v, ChunkTable(ino), chunks, chunk, data)
    ensures ByteAt(v, ino, p) == Some(data[p])
  {
    DivBounds(p, chunk);
    PartHolds(|data|, chunk, |chunks|, p, p / chunk);
    ByteOfSome(v, ino, chunk, chunks, data, p, p / chunk);
  }

  lemma {:induction false} ChunksGive(v: Volume, ino: Inode, chunk: nat, chunks: seq<Chunk>, data: seq<byte>)
    requires ino.layout == 4 && ino.size == |data| && ChunkBits(v, ino).Ok? && chunk == Pow2(ChunkBits(v, ino).value)
    requires |data| <= Room(|chunks|, chunk) && ChunksOn(v, ChunkTable(ino), chunks, chunk, data)
    ensures HasData(v, ino, data)
  {
    forall p: nat {:trigger ByteAt(v, ino, p)} | p < |data|
      ensures ByteAt(v, ino, p) == Some(data[p])
    {
      AnyByte(v, ino, chunk, chunks, data, p);
    }
  }

  lemma {:induction false} CompressedGives(v: Volume, ino: Inode, data: seq<byte>)
    requires (ino.layout == 1 || ino.layout == 3) && ino.size == |data| && Materialize(v, ino) == Ok(data)
    ensures HasData(v, ino, data)
  {
    forall p: nat {:trigger ByteAt(v, ino, p)} | p < |data|
      ensures ByteAt(v, ino, p) == Some(data[p])
    {
      DecodedByte(v, ino, p);
    }
  }

  lemma {:induction false} TableIsAligned(ino: Inode, table: nat)
    requires table % 4 == 0 && ino.inlineOff <= table < ino.inlineOff + 4
    ensures ChunkTable(ino) == table
  {
  }

  lemma {:induction false} ChunksRead(v: Volume, ino: Inode, shift: nat, table: nat, chunk: nat, chunks: seq<Chunk>, data: seq<byte>)
    requires ino.size == |data| && ChunkedOn(v, ino, shift, table, chunk, chunks, data)
    ensures HasData(v, ino, data)
  {
    TableIsAligned(ino, table);
    FormatGives(v, ino, shift);
    ChunksGive(v, ino, chunk, chunks, data);
  }

  lemma {:induction false} TiledData(v: Volume, ino: Inode, a: Algos, hs: seq<ErofsIndex.Head>, data: seq<byte>)
    requires (ino.layout == 1 || ino.layout == 3) && ino.size == |data| && InodeHeads(v, ino) == Ok((hs, a)) && Tiles(v, a, hs, data)
    ensures HasData(v, ino, data)
  {
    TilesDecode(v, ino, data);
    CompressedGives(v, ino, data);
  }

  lemma {:induction false} FullData(v: Volume, ino: Inode, mh: nat, m: MapFields, lcs: seq<Lcluster>, data: seq<byte>)
    requires ino.size == |data| && FullDataOn(v, ino, mh, m, lcs, data)
    ensures HasData(v, ino, data)
  {
    FullIndexReads(v, ino, mh, m, lcs);
    TiledData(v, ino, Algos(m.first, m.second), IndexHeads(lcs, Pow2(v.blkszbits + m.shift), |lcs|), data);
  }

  lemma {:induction false} CompactData(v: Volume, ino: Inode, mh: nat, m: MapFields, lcs: seq<Lcluster>, data: seq<byte>)
    requires ino.size == |data| && CompactDataOn(v, ino, mh, m, lcs, data)
    ensures HasData(v, ino, data)
  {
    CompactIndexReads(v, ino, mh, m, lcs);
    TiledData(v, ino, Algos(m.first, m.second), IndexHeads(lcs, Pow2(v.blkszbits + m.shift), |lcs|), data);
  }

  lemma {:induction false} BigData(v: Volume, ino: Inode, mh: nat, m: MapFields, ps: seq<Pcluster>, bases: seq<u32>, data: seq<byte>)
    requires ino.size == |data| && BigDataOn(v, ino, mh, m, ps, bases, data)
    ensures HasData(v, ino, data)
  {
    BigIndexReads(v, ino, mh, m, ps, bases);
    TiledData(v, ino, Algos(m.first, m.second), BigHeads(ps, Pow2(v.blkszbits + m.shift), bases[0]), data);
  }

  /** Whatever the layout, the content of a written inode is its data. */
  lemma {:induction false} DataReads(v: Volume, ino: Inode, body: Body, data: seq<byte>)
    requires ino.size == |data| && DataOn(v, ino, body, data)
    ensures HasData(v, ino, data)
  {
    match body
    case Blocks => BlocksGive(v, ino, data);
    case Tail(blocks) => TailGives(v, ino, Room(blocks, Pow2(v.blkszbits)), blocks, data);
    case Chunks(shift, table, chunks) => ChunksRead(v, ino, shift, table, Pow2(v.blkszbits + shift), chunks, data);
    case Full(mh, m, lcs) => FullData(v, ino, mh, m, lcs, data);
    case Compact(mh, m, lcs) => CompactData(v, ino, mh, m, lcs, data);
    case Big(mh, m, ps, bases) => BigData(v, ino, mh, m, ps, bases, data);
  }

  // ----- reading -----

  /** The verifier accepts every block of the data, the last one short. */
  ghost predicate Vouches(verify: Verify, node: nat, bs: nat, data: seq<byte>)
    requires bs > 0
  {
    forall start: nat {:trigger Aligned(start, bs)} :: Aligned(start, bs) && start < |data| ==>
      verify(node, start, data[start..Min(start + bs, |data|)]).Ok?
  }

  lemma {:induction false} DataIsContent(v: Volume, ino: Inode, data: seq<byte>, start: nat, n: nat)
    requires HasData(v, ino, data) && start + n <= |data|
    ensures IsContent(Contents(v, ino), start, data[start..start + n])
  {
    var part := data[start..start + n];
    forall i {:trigger part[i]} | 0 <= i < n
      ensures Contents(v, ino)(start + i) == Some(part[i])
    {
      assert ByteAt(v, ino, start + i) == Some(data[start + i]);
    }
  }

  lemma {:induction false} BlockAccepted(f: Guarded, start: nat, block: seq<byte>)
    requires start < f.size && |block| == Min(f.bs, f.size - start) && IsContent(f.at, start, block)
    requires f.verify(f.node, start, block).Ok?
    ensures f.Accepts(start)
  {
    ContentIsContentOf(f.at, start, block);
  }

  lemma {:induction false} AllIsAccepted(v: Volume, ino: Inode, data: seq<byte>, verify: Verify, node: nat, off: nat, end: nat)
    requires HasData(v, ino, data) && ino.size == |data| && Vouches(verify, node, Pow2(v.blkszbits), data) && end <= |data|
    ensures FileOf(v, ino, verify, node).AllAccepted(off, end)
  {
    var f := FileOf(v, ino, verify, node);
    forall start: nat | Aligned(start, f.bs) && start < end && off < start + f.bs
      ensures f.Accepts(start)
    {
      var n := Min(f.bs, f.size - start);
      DataIsContent(v, ino, data, start, n);
      BlockAccepted(f, start, data[start..Min(start + f.bs, |data|)]);
    }
  }

  lemma {:induction false} VerifiedIsData(v: Volume, ino: Inode, data: seq<byte>, verify: Verify, node: nat, off: nat, was: seq<byte>, now: seq<byte>, n: nat)
    requires HasData(v, ino, data) && ino.size == |data| && off + n <= |data| && |was| == |now| >= n
    requires FileOf(v, ino, verify, node).VerifiedSoFar(off, was, now, n)
    ensures now == data[off..off + n] + was[n..]
  {
    forall i | 0 <= i < n
      ensures now[i] == data[off + i]
    {
      assert ByteAt(v, ino, off + i) == Some(data[off + i]);
    }
  }

  lemma {:induction false} ReadIsData(v: Volume, ino: Inode, data: seq<byte>, verify: Verify, node: nat, off: nat, end: nat, was: seq<byte>, now: seq<byte>, r: Result<nat>)
    requires HasData(v, ino, data) && ino.size == |data| && Vouches(verify, node, Pow2(v.blkszbits), data)
    requires off < |data| && end == Min(off + |was|, |data|) && FileOf(v, ino, verify, node).VerifiedRead(off, end, was, now, r)
    ensures Delivered(data, off, was, now, r)
  {
    AllIsAccepted(v, ino, data, verify, node, off, end);
    VerifiedIsData(v, ino, data, verify, node, off, was, now, end - off);
  }

  /** A file on the medium: its inode where the volume looks for `node`, and its data. */
  ghost predicate FileOn(v: Volume, node: nat, w: Written, body: Body, data: seq<byte>)
  {
    var at := v.metaOff + node * 32;
    && at < 0x1_0000_0000_0000_0000 && w.Fits() && w.size == |data|
    && Lies(v.src, at, PutInode(w)) && DataOn(v, Parsed(w, at), body, data)
  }

  lemma {:induction false} FileReads(v: Volume, node: nat, w: Written, body: Body, data: seq<byte>) returns (ino: Inode)
    requires FileOn(v, node, w, body, data)
    ensures InodeOf(v, node) == Ok(ino) && ino.kind == w.kind && ino.size == |data| && HasData(v, ino, data)
  {
    var at := v.metaOff + node * 32;
    ino := Parsed(w, at);
    InodeReadsBack(v, node, at, w);
    DataReads(v, ino, body, data);
  }

  method ReadData(fs: Erofs, node: nat, ghost ino: Inode, ghost data: seq<byte>, off: nat, buf: array<byte>, verify: Verify)
    returns (r: Result<nat>)
    requires fs.Valid() && Vouches(verify, node, Pow2(fs.vol.blkszbits), data) && InodeOf(fs.vol, node) == Ok(ino) && !ino.kind.Directory?
    requires HasData(fs.vol, ino, data) && ino.size == |data|
    modifies fs, buf
    ensures fs.Valid() && Delivered(data, off, old(buf[..]), buf[..], r)
  {
    ghost var was := buf[..];
    r := fs.ReadAt(node, off, buf, verify);
    if off < |data| {
      ReadIsData(fs.vol, ino, data, verify, node, off, Min(off + buf.Length, |data|), was, buf[..], r);
    }
  }

  /** A file written into a volume, of any layout, reads back: from the bytes of its inode and
      its data on the medium to the bytes in the caller's buffer. */
  method ReadBack(fs: Erofs, node: nat, w: Written, ghost body: Body, ghost data: seq<byte>, off: nat, buf: array<byte>, verify: Verify)
    returns (r: Result<nat>)
    requires fs.Valid() && FileOn(fs.vol, node, w, body, data) && !w.kind.Directory?
    requires Vouches(verify, node, Pow2(fs.vol.blkszbits), data)
    modifies fs, buf
    ensures fs.Valid() && Delivered(data, off, old(buf[..]), buf[..], r)
  {
    ghost var ino := FileReads(fs.vol, node, w, body, data);
    r := ReadData(fs, node, ino, data, off, buf, verify);
  }

  /** A Merkle tree over the data vouches for it. */
  lemma {:induction false} MerkleVouches(sha: Verity.Sha, data: seq<byte>, log: nat, salt: seq<byte>, node: nat)
    requires |data| < U64 && 6 <= log < 64
    ensures Vouches(MerkleVerify(sha, Verity.VerifierOver(sha, data, log, salt)), node, Pow2(log), data)
  {
    var m, bs := Verity.VerifierOver(sha, data, log, salt), Verity.BlockBytes(log);
    forall start: nat {:trigger Aligned(start, bs)} | Aligned(start, bs) && start < |data|
      ensures MerkleVerify(sha, m)(node, start, data[start..Min(start + bs, |data|)]).Ok?
    {
      AlignedIsMultiple(start, bs);
      Verity.VerifyAcceptsIff(sha, data, log, salt, start, Verity.GenuineBlock(data, start, bs));
    }
  }

  /** A written file reads back through the verifier measured over its own data. */
  method ReadMeasured(sha: Verity.Sha, salt: seq<byte>, fs: Erofs, node: nat, w: Written, ghost body: Body, data: seq<byte>, off: nat, buf: array<byte>)
    returns (r: Result<nat>)
    requires fs.Valid() && FileOn(fs.vol, node, w, body, data) && !w.kind.Directory? && |data| < U64
    modifies fs, buf
    ensures fs.Valid() && Delivered(data, off, old(buf[..]), buf[..], r)
  {
    var m := Verity.Over(sha, data, fs.vol.blkszbits, salt);
    MerkleVouches(sha, data, fs.vol.blkszbits, salt, node);
    r := ReadBack(fs, node, w, body, data, off, buf, MerkleVerify(sha, m));
  }

  /** A written symlink's target. */
  method ReadLinkBack(fs: Erofs, node: nat, w: Written, ghost body: Body, ghost data: seq<byte>) returns (r: Result<Option<seq<byte>>>)
    requires fs.Valid() && |data| <= 0x2000_0000 && FileOn(fs.vol, node, w, body, data) && w.kind.Symlink?
    modifies fs
    ensures fs.Valid() && r == Ok(Some(data))
  {
    ghost var ino := FileReads(fs.vol, node, w, body, data);
    DataIsContent(fs.vol, ino, data, 0, |data|);
    assert data[0..0 + |data|] == data;
    ContentIsContentOf(Contents(fs.vol, ino), 0, data);
    r := fs.ReadLink(node);
  }
}
