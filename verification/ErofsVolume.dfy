/** Reading files of a mounted EROFS volume (`crates/lamfold-erofs/src/erofs.rs`).

    `ByteAt` is the one logical content of an inode, byte by byte, whatever its layout. The
    class `Erofs` holds the two caches the reader fills as it goes; its methods are proved
    to return that content, and nothing but verified blocks of it. */
module ErofsVolume {
  import opened Bytes
  import opened ErofsDecode
  import opened Frontend
  import opened VerifiedReads
  import opened Windows
  import Verity

  const FLAT_PLAIN: nat := 0
  const FLAT_INLINE: nat := 2
  const CHUNK_BASED: nat := 4
  const NULL_BLKADDR: nat := 0xffff_ffff

  // ----- inodes -----

  function KindOf(mode: nat): FileKind
  {
    var t := mode / 0x1000 % 16;
    if t == 8 then Regular else if t == 4 then Directory else if t == 10 then Symlink else Other
  }

  /** What `parse_inode` reads for `nid`, from the source alone. */
  function InodeOf(v: Volume, nid: nat): Result<Inode>
  {
    var off := v.metaOff + nid * 32;
    if off >= U64 then Err(Corrupt)
    else
      var hdr :- ReadSource(v.src, off, 32);
      var format := Le16(hdr, 0);
      var extended := format % 2 == 1;
      if extended && ReadSource(v.src, off + 32, 32).Err? then Err(Io)
      else
        var icount := Le16(hdr, 2);
        var xattrs := if icount == 0 then 0 else 12 + (icount - 1) * 4;
        var mode := Le16(hdr, 4);
        var size := if extended then Le64(hdr, 8) else Le32(hdr, 8);
        Ok(Inode(KindOf(mode), size, mode, format / 2 % 8, Le32(hdr, 16),
                 off + (if extended then 64 else 32) + xattrs))
  }

  // ----- content -----

  /** `log2` of the chunk size, or the refusal of the chunk format. */
  function ChunkBits(v: Volume, ino: Inode): Result<nat>
  {
    var format := ino.rawBlkaddr % U16;
    var bits := v.blkszbits + format % 0x20;
    if format >= 0x80 then Err(Corrupt)
    else if format / 0x40 % 2 == 1 then Err(Unsupported)
    else if bits > 40 then Err(Corrupt)
    else if format / 0x20 % 2 == 1 then Err(Unsupported)
    else Ok(bits)
  }

  function ChunkTable(ino: Inode): nat
  {
    (ino.inlineOff + 3) / 4 * 4
  }

  /** The chunk table's entry for chunk `idx`. */
  function ChunkEntry(v: Volume, ino: Inode, idx: nat): Result<nat>
  {
    var e :- ReadSource(v.src, ChunkTable(ino) + idx * 4, 4);
    Ok(Le32(e, 0))
  }

  /** Byte `within` of chunk `idx`: through the table, a hole reading as zero. */
  function ChunkByte(v: Volume, ino: Inode, idx: nat, within: nat): Option<byte>
  {
    match ChunkEntry(v, ino, idx)
    case Err(_) => None
    case Ok(blk) => if blk == NULL_BLKADDR then Some(0) else SourceByte(v.src, blk * v.BlockSize() + within)
  }

  /** How many bytes of an inline-layout inode are whole blocks. */
  function FullBytes(v: Volume, ino: Inode): nat
  {
    DivBounds(ino.size, v.BlockSize());
    ino.size / v.BlockSize() * v.BlockSize()
  }

  function PlainBase(v: Volume, ino: Inode): nat
  {
    ino.rawBlkaddr * v.BlockSize()
  }

  /** Byte `p` of an inode: `None` where the source or the format does not give it. */
  function ByteAt(v: Volume, ino: Inode, p: nat): Option<byte>
  {
    if p >= ino.size then None
    else if ino.layout == FLAT_PLAIN then SourceByte(v.src, PlainBase(v, ino) + p)
    else if ino.layout == FLAT_INLINE then
      SourceByte(v.src, if p < FullBytes(v, ino) then PlainBase(v, ino) + p
                        else ino.inlineOff + (p - FullBytes(v, ino)))
    else if ino.layout == COMPRESSED_FULL || ino.layout == COMPRESSED_COMPACT then
      var data := Materialize(v, ino);
      if data.Err? then None else SourceByte(data.value, p)
    else if ino.layout == CHUNK_BASED then
      var bits := ChunkBits(v, ino);
      if bits.Err? then None
      else
        var chunk := Pow2(bits.value);
        DivBounds(p, chunk);
        ChunkByte(v, ino, p / chunk, p % chunk)
    else None
  }

  /** The one content of an inode. */
  function Contents(v: Volume, ino: Inode): Content
  {
    p => ByteAt(v, ino, p)
  }

  /** `at` is the content of an inode. */
  ghost predicate Gives(at: Content, v: Volume, ino: Inode)
  {
    forall q: nat {:trigger ByteAt(v, ino, q)} :: at(q) == ByteAt(v, ino, q)
  }

  lemma {:induction false} WindowOfContents(at: Content, v: Volume, ino: Inode, off: nat, total: nat, r: Result<nat>, data: seq<byte>)
    requires Gives(at, v, ino) && WindowRead(Contents(v, ino), off, total, r, data)
    ensures WindowRead(at, off, total, r, data)
  {
    forall q: nat
      ensures at(q) == Contents(v, ino)(q)
    {
      assert at(q) == ByteAt(v, ino, q);
    }
  }

  // ----- reading a window of one layout -----

  /** `FLAT_PLAIN`. */
  method ReadPlain(v: Volume, ino: Inode, off: nat, total: nat, buf: array<byte>) returns (r: Result<nat>)
    requires ino.layout == FLAT_PLAIN && off + total <= ino.size && total <= buf.Length
    modifies buf
    ensures WindowRead(Contents(v, ino), off, total, r, buf[..total])
    ensures forall i :: total <= i < buf.Length ==> buf[i] == old(buf[i])
  {
    var disk := PlainBase(v, ino) + off;
    assert LiesAt(Contents(v, ino), v.src, off, total, disk) by {
      forall q | off <= q < off + total
        ensures Contents(v, ino)(q) == SourceByte(v.src, disk + (q - off))
      {
        assert disk + (q - off) == PlainBase(v, ino) + q;
      }
    }
    if total > 0 { RunIsContent(Contents(v, ino), v.src, off, total, disk); }
    var ok := ReadInto(v.src, disk, buf, 0, total);
    if ok { r := Ok(total); } else { r := Err(Io); }
  }

  /** `FLAT_INLINE`: whole blocks at the block address, the tail after the inode. */
  method ReadInline(src: seq<byte>, base: nat, inlineOff: nat, full: nat, off: nat, total: nat, buf: array<byte>, ghost at: Content)
    returns (r: Result<nat>)
    requires total <= buf.Length
    requires forall q :: off <= q < off + total && q < full ==> at(q) == SourceByte(src, base + q)
    requires forall q :: off <= q < off + total && full <= q ==> at(q) == SourceByte(src, inlineOff + (q - full))
    modifies buf
    ensures WindowRead(at, off, total, r, buf[..total])
    ensures forall i :: total <= i < buf.Length ==> buf[i] == old(buf[i])
  {
    var end := off + total;
    var p := off;
    while p < end
      invariant off <= p <= end
      invariant IsContent(at, off, buf[..p - off])
      invariant forall i :: total <= i < buf.Length ==> buf[i] == old(buf[i])
    {
      var disk, segEnd := base + p, Min(end, full);
      if p >= full {
        disk, segEnd := inlineOff + (p - full), end;
      }
      var n, bo := segEnd - p, p - off;
      forall q | p <= q < segEnd
        ensures at(q) == SourceByte(src, disk + (q - p))
      {
        assert if p < full then disk + (q - p) == base + q else disk + (q - p) == inlineOff + (q - full);
      }
      RunIsContent(at, src, p, n, disk);
      var ok := ReadInto(src, disk, buf, bo, n);
      if !ok { return Err(Io); }
      BufferGrows(at, off, buf, bo, n);
      p := segEnd;
    }
    r := Ok(total);
  }

  lemma {:induction false} InlineLies(v: Volume, ino: Inode, off: nat, total: nat)
    requires ino.layout == FLAT_INLINE && off + total <= ino.size
    ensures var at, full := Contents(v, ino), FullBytes(v, ino);
            && (forall q :: off <= q < off + total && q < full ==> at(q) == SourceByte(v.src, PlainBase(v, ino) + q))
            && (forall q :: off <= q < off + total && full <= q ==> at(q) == SourceByte(v.src, ino.inlineOff + (q - full)))
  {
  }

  lemma {:induction false} DecodedByte(v: Volume, ino: Inode, q: nat)
    requires (ino.layout == COMPRESSED_FULL || ino.layout == COMPRESSED_COMPACT) && q < ino.size
    ensures ByteAt(v, ino, q) == match Materialize(v, ino) case Ok(data) => SourceByte(data, q) case Err(_) => None
  {
  }

  lemma {:induction false} DecodedLies(at: Content, v: Volume, ino: Inode, off: nat, total: nat, data: Result<seq<byte>>)
    requires ino.layout == COMPRESSED_FULL || ino.layout == COMPRESSED_COMPACT
    requires off + total <= ino.size && Gives(at, v, ino) && data == Materialize(v, ino)
    ensures data.Ok? && off + total <= |data.value| ==> IsContent(at, off, data.value[off..off + total])
    ensures total > 0 && (data.Err? || off + total > |data.value|) ==> Unreadable(at, off, total)
  {
    forall q | off <= q < off + total
      ensures at(q) == if data.Ok? then SourceByte(data.value, q) else None
    {
      DecodedByte(v, ino, q);
    }
    if total > 0 { assert at(off + total - 1).None? <==> data.Err? || off + total > |data.value|; }
  }

  lemma {:induction false} UnknownLayoutHasNoByte(v: Volume, ino: Inode, off: nat, total: nat)
    requires ino.layout !in {FLAT_PLAIN, FLAT_INLINE, COMPRESSED_FULL, COMPRESSED_COMPACT, CHUNK_BASED}
    ensures total > 0 ==> Unreadable(Contents(v, ino), off, total)
  {
    assert Contents(v, ino)(off) == ByteAt(v, ino, off) == None;
  }

  lemma {:induction false} SameChunk(p: nat, q: nat, chunk: nat)
    requires chunk > 0 && p <= q < (p / chunk + 1) * chunk
    ensures q / chunk == p / chunk && q % chunk == p % chunk + (q - p)
    ensures p / chunk >= 0 && p < (p / chunk + 1) * chunk
  {
    DivBounds(p, chunk);
    NextMultiple(p / chunk, chunk);
    DivUnique(q, chunk, p / chunk);
    assert p == p / chunk * chunk + p % chunk;
    assert q == q / chunk * chunk + q % chunk;
  }

  /** The bytes `p..p + n` of a file lie in chunk `idx` from `within` on. */
  ghost predicate LiesInChunk(at: Content, v: Volume, ino: Inode, p: nat, n: nat, idx: nat, within: nat)
  {
    forall q :: p <= q < p + n ==> at(q) == ChunkByte(v, ino, idx, within + (q - p))
  }

  lemma {:induction false} ChunkRun(at: Content, v: Volume, ino: Inode, p: nat, n: nat, chunk: nat)
    requires Gives(at, v, ino)
    requires ino.layout == CHUNK_BASED && ChunkBits(v, ino).Ok? && chunk == Pow2(ChunkBits(v, ino).value)
    requires p + n <= ino.size && p + n <= (p / chunk + 1) * chunk
    ensures p / chunk >= 0 && LiesInChunk(at, v, ino, p, n, p / chunk, p % chunk)
  {
    DivBounds(p, chunk);
    forall q | p <= q < p + n
      ensures at(q) == ChunkByte(v, ino, p / chunk, p % chunk + (q - p))
    {
      SameChunk(p, q, chunk);
      ByteInChunk(v, ino, q, chunk, p / chunk, p % chunk + (q - p));
    }
  }

  lemma {:induction false} ByteInChunk(v: Volume, ino: Inode, q: nat, chunk: nat, idx: nat, within: nat)
    requires ino.layout == CHUNK_BASED && ChunkBits(v, ino).Ok? && chunk == Pow2(ChunkBits(v, ino).value)
    requires q < ino.size && q / chunk == idx && q % chunk == within
    ensures ByteAt(v, ino, q) == ChunkByte(v, ino, idx, within)
  {
  }

  /** Chunk and place in it of byte `p`, and where the run from `p` ends. */
  method LocateChunk(v: Volume, ino: Inode, p: nat, end: nat, chunk: nat, ghost at: Content) returns (idx: nat, within: nat, segEnd: nat)
    requires ino.layout == CHUNK_BASED && ChunkBits(v, ino).Ok? && chunk == Pow2(ChunkBits(v, ino).value)
    requires p < end <= ino.size && Gives(at, v, ino)
    ensures p < segEnd <= end && LiesInChunk(at, v, ino, p, segEnd - p, idx, within)
  {
    DivBounds(p, chunk);
    NextMultiple(p / chunk, chunk);
    idx, within := p / chunk, p % chunk;
    segEnd := Min(end, (idx + 1) * chunk);
    ChunkRun(at, v, ino, p, segEnd - p, chunk);
  }

  /** A chunk without a table entry cannot be read. */
  lemma {:induction false} NoEntryNoByte(at: Content, v: Volume, ino: Inode, p: nat, n: nat, idx: nat, within: nat)
    requires n > 0 && LiesInChunk(at, v, ino, p, n, idx, within) && ChunkEntry(v, ino, idx).Err?
    ensures Unreadable(at, p, n)
  {
    assert at(p) == ChunkByte(v, ino, idx, within + (p - p));
  }

  lemma {:induction false} HoleIsZeros(at: Content, v: Volume, ino: Inode, p: nat, n: nat, idx: nat, within: nat)
    requires LiesInChunk(at, v, ino, p, n, idx, within) && ChunkEntry(v, ino, idx) == Ok(NULL_BLKADDR)
    ensures IsContent(at, p, Zeros(n))
  {
  }

  lemma {:induction false} ChunkLiesAt(at: Content, v: Volume, ino: Inode, p: nat, n: nat, idx: nat, within: nat, blk: nat, base: nat)
    requires LiesInChunk(at, v, ino, p, n, idx, within) && ChunkEntry(v, ino, idx) == Ok(blk)
    requires blk != NULL_BLKADDR && base == blk * v.BlockSize()
    ensures LiesAt(at, v.src, p, n, base + within)
  {
    forall q | p <= q < p + n
      ensures at(q) == SourceByte(v.src, base + within + (q - p))
    {
      assert at(q) == ChunkByte(v, ino, idx, within + (q - p));
    }
  }

  /** One turn of the loop of `read_chunked`: `n` bytes at `within` of chunk `idx`. */
  method ReadChunkRun(v: Volume, ino: Inode, p: nat, n: nat, idx: nat, within: nat, buf: array<byte>, bo: nat, ghost at: Content)
    returns (ok: bool)
    requires n > 0 && LiesInChunk(at, v, ino, p, n, idx, within) && bo + n <= buf.Length
    modifies buf
    ensures ok ==> IsContent(at, p, buf[bo..bo + n])
    ensures !ok ==> Unreadable(at, p, n)
    ensures forall i :: 0 <= i < buf.Length && !(bo <= i < bo + n) ==> buf[i] == old(buf[i])
  {
    var blkaddr := ChunkEntry(v, ino, idx);
    if blkaddr.Err? {
      NoEntryNoByte(at, v, ino, p, n, idx, within);
      return false;
    }
    if blkaddr.value == NULL_BLKADDR {
      HoleIsZeros(at, v, ino, p, n, idx, within);
      FillZeros(buf, bo, n);
      ok := true;
    } else {
      var base := blkaddr.value * v.BlockSize();
      ChunkLiesAt(at, v, ino, p, n, idx, within, blkaddr.value, base);
      RunIsContent(at, v.src, p, n, base + within);
      ok := ReadInto(v.src, base + within, buf, bo, n);
    }
  }

  /** `read_chunked`. */
  method ReadChunked(v: Volume, ino: Inode, off: nat, total: nat, buf: array<byte>, ghost at: Content) returns (r: Result<nat>)
    requires ino.layout == CHUNK_BASED && off + total <= ino.size && total <= buf.Length && Gives(at, v, ino)
    modifies buf
    ensures WindowRead(at, off, total, r, buf[..total])
    ensures forall i :: total <= i < buf.Length ==> buf[i] == old(buf[i])
  {
    var bits := ChunkBits(v, ino);
    if bits.Err? {
      assert at(off) == ByteAt(v, ino, off) == None || total == 0;
      return Err(bits.error);
    }
    var chunk := Pow2(bits.value);
    var end := off + total;
    var p := off;
    while p < end
      invariant off <= p <= end
      invariant IsContent(at, off, buf[..p - off])
      invariant forall i :: total <= i < buf.Length ==> buf[i] == old(buf[i])
    {
      var idx, within, segEnd := LocateChunk(v, ino, p, end, chunk, at);
      var ok := ReadChunkRun(v, ino, p, segEnd - p, idx, within, buf, p - off, at);
      if !ok { return Err(Io); }
      BufferGrows(at, off, buf, p - off, segEnd - p);
      p := segEnd;
    }
    r := Ok(total);
  }

  /** The uncompressed arms of `read_inode_data`. */
  method ReadRaw(v: Volume, ino: Inode, off: nat, total: nat, buf: array<byte>) returns (r: Result<nat>)
    requires ino.layout != COMPRESSED_FULL && ino.layout != COMPRESSED_COMPACT
    requires off + total <= ino.size && total <= buf.Length
    modifies buf
    ensures WindowRead(Contents(v, ino), off, total, r, buf[..total])
    ensures forall i :: total <= i < buf.Length ==> buf[i] == old(buf[i])
  {
    if ino.layout == FLAT_PLAIN {
      r := ReadPlain(v, ino, off, total, buf);
    } else if ino.layout == FLAT_INLINE {
      InlineLies(v, ino, off, total);
      r := ReadInline(v.src, PlainBase(v, ino), ino.inlineOff, FullBytes(v, ino), off, total, buf, Contents(v, ino));
    } else if ino.layout == CHUNK_BASED {
      r := ReadChunked(v, ino, off, total, buf, Contents(v, ino));
    } else {
      UnknownLayoutHasNoByte(v, ino, off, total);
      r := Err(Unsupported);
    }
  }

  /** An inode as a verified read sees it. */
  function FileOf(v: Volume, ino: Inode, verify: Verify, node: nat): Guarded
  {
    Guarded(Contents(v, ino), ino.size, v.BlockSize(), verify, node)
  }

  function LinkResult(at: Content, size: nat, got: Result<nat>, target: seq<byte>): (r: Result<Option<seq<byte>>>)
    requires |target| == size && (size > 0 ==> WindowRead(at, 0, size, got, target)) && (size == 0 ==> got == Ok(0))
    ensures r.Ok? <==> ContentOf(at, 0, size).Some?
    ensures r.Ok? ==> r.value == ContentOf(at, 0, size)
  {
    if got.Err? then
      UnreadableHasNoContent(at, 0, size);
      Err(got.error)
    else
      ContentIsContentOf(at, 0, target);
      Ok(Some(target))
  }

  // ----- a Merkle verifier at the volume's block size -----

  /** A `MerkleVerifier` as the reader sees it; it is never shown more than a block. */
  function MerkleVerify(sha: Verity.Sha, m: Verity.MerkleVerifier): Verify
  {
    (node: nat, start: nat, block) =>
      if 0 < m.blockSize && |block| <= m.blockSize then Verity.VerifyBlock(sha, m, start, block) else Err(VerifyFailed)
  }

  /** Some block that was read for the window `off..end` and accepted, and the genuine block
      at its offset, are two hash inputs with one digest. */
  ghost predicate BlockCollision(sha: Verity.Sha, genuine: seq<byte>, log: nat, salt: seq<byte>, f: Guarded, off: nat, end: nat)
    requires log >= 6 && f.bs > 0
  {
    exists start: nat {:trigger f.Accepts(start)} ::
      && Aligned(start, f.bs) && start < end && off < start + f.bs && f.Accepts(start)
      && Verity.CollidesWithGenuine(sha, genuine, log, salt, start, f.Block(start).value)
  }

  /** What a verifier over the genuine content is worth: each byte of an accepted block is
      the genuine one, or the block and the genuine one collide. */
  ghost predicate Trusted(verify: Verify, sha: Verity.Sha, genuine: seq<byte>, log: nat, salt: seq<byte>)
    requires log >= 6
  {
    forall node: nat, start: nat, block, i ::
      verify(node, start, block).Ok? && 0 <= i < |block| ==>
        block[i] == Verity.GenuineByte(genuine, start + i) || Verity.CollidesWithGenuine(sha, genuine, log, salt, start, block)
  }

  lemma {:induction false} MerkleIsTrusted(sha: Verity.Sha, genuine: seq<byte>, log: nat, salt: seq<byte>)
    requires |genuine| < U64 && 6 <= log < 64
    ensures Trusted(MerkleVerify(sha, Verity.VerifierOver(sha, genuine, log, salt)), sha, genuine, log, salt)
  {
    var m := Verity.VerifierOver(sha, genuine, log, salt);
    assert m.blockSize == Verity.BlockBytes(log);
    forall node: nat, start: nat, block, i | MerkleVerify(sha, m)(node, start, block).Ok? && 0 <= i < |block|
      ensures || block[i] == Verity.GenuineByte(genuine, start + i)
              || Verity.CollidesWithGenuine(sha, genuine, log, salt, start, block)
    {
      Verity.AcceptedIsGenuineOrCollides(sha, genuine, log, salt, start, block);
    }
  }

  lemma {:induction false} VerifiedIsGenuine(sha: Verity.Sha, genuine: seq<byte>, log: nat, salt: seq<byte>, f: Guarded, off: nat, end: nat, p: nat, b: byte)
    requires f.bs > 0 && log >= 6 && Trusted(f.verify, sha, genuine, log, salt) && f.VerifiedByte(p, b) && off <= p < end
    ensures b == Verity.GenuineByte(genuine, p) || BlockCollision(sha, genuine, log, salt, f, off, end)
  {
    var start: nat :| start <= p < Min(start + f.bs, f.size) && Aligned(start, f.bs) && f.Accepts(start) && f.at(p) == Some(b);
    var block := f.Block(start).value;
    assert block[p - start] == b;
    assert f.verify(f.node, start, block).Ok?;
  }

  /** A read that gave the caller genuine bytes only, all of the bytes it claims. */
  ghost predicate GenuineRead(genuine: seq<byte>, off: nat, was: seq<byte>, now: seq<byte>, r: Result<nat>)
    requires |was| == |now|
  {
    && (r.Ok? ==> r.value <= |now| && forall i :: 0 <= i < r.value ==> now[i] == Verity.GenuineByte(genuine, off + i))
    && (forall i :: 0 <= i < |now| ==> now[i] == was[i] || now[i] == Verity.GenuineByte(genuine, off + i))
  }

  lemma {:induction false} VerifiedReadIsGenuine(sha: Verity.Sha, genuine: seq<byte>, log: nat, salt: seq<byte>, f: Guarded, off: nat, end: nat,
                              was: seq<byte>, now: seq<byte>, r: Result<nat>)
    requires f.bs > 0 && log >= 6 && Trusted(f.verify, sha, genuine, log, salt)
    requires |was| == |now| && f.VerifiedRead(off, end, was, now, r)
    ensures GenuineRead(genuine, off, was, now, r) || BlockCollision(sha, genuine, log, salt, f, off, end)
  {
    if !BlockCollision(sha, genuine, log, salt, f, off, end) {
      forall done: nat, i | f.VerifiedSoFar(off, was, now, done) && off + done <= end && 0 <= i < done
        ensures now[i] == Verity.GenuineByte(genuine, off + i)
      {
        VerifiedIsGenuine(sha, genuine, log, salt, f, off, end, off + i, now[i]);
      }
    }
  }

  // ----- the mounted volume -----

  /** `Erofs`: the volume and its two caches. */
  class Erofs {
    const vol: Volume
    var inodes: map<nat, Inode>
    var decoded: map<nat, seq<byte>>

    /** What is cached is what a fresh parse or decode of the source would give. */
    ghost predicate Valid()
      reads this
    {
      && 9 <= vol.blkszbits <= 16
      && (forall n {:trigger InodeOf(vol, n)} :: n in inodes ==> InodeOf(vol, n) == Ok(inodes[n]))
      && decoded.Keys <= inodes.Keys
      && (forall n {:trigger Materialize(vol, inodes[n])} :: n in decoded ==> Materialize(vol, inodes[n]) == Ok(decoded[n]))
    }

    constructor (v: Volume)
      requires 9 <= v.blkszbits <= 16
      ensures Valid() && vol == v && inodes == map[] && decoded == map[]
    {
      vol, inodes, decoded := v, map[], map[];
    }

    /** `parse_inode` and `inode`. */
    method ParseInode(nid: nat) returns (r: Result<Inode>)
      requires Valid()
      modifies this
      ensures Valid() && r == InodeOf(vol, nid) && decoded == old(decoded)
      ensures inodes == if r.Ok? then old(inodes)[nid := r.value] else old(inodes)
    {
      if nid in inodes { return Ok(inodes[nid]); }
      r := InodeOf(vol, nid);
      if r.Ok? { inodes := inodes[nid := r.value]; }
    }

    /** `materialize_compressed`. */
    method MaterializeCompressed(nid: nat) returns (r: Result<()>)
      requires Valid()
      modifies this
      ensures Valid() && inodes == old(inodes)
      ensures nid !in inodes ==> r == Err(NotFound) && decoded == old(decoded)
      ensures nid in inodes ==> match Materialize(vol, inodes[nid])
                                case Ok(data) => r == Ok(()) && decoded == old(decoded)[nid := data]
                                case Err(e) => r == Err(e) && decoded == old(decoded)
    {
      if nid in decoded { return Ok(()); }
      if nid !in inodes { return Err(NotFound); }
      var data := DecodeInode(vol, inodes[nid]);
      if data.Err? { return Err(data.error); }
      decoded := decoded[nid := data.value];
      r := Ok(());
    }

    /** The compressed arm of `read_inode_data`. */
    method ReadDecoded(nid: nat, off: nat, total: nat, buf: array<byte>) returns (r: Result<nat>)
      requires Valid() && nid in inodes && off + total <= inodes[nid].size && total <= buf.Length
      requires inodes[nid].layout == COMPRESSED_FULL || inodes[nid].layout == COMPRESSED_COMPACT
      modifies this, buf
      ensures Valid() && inodes == old(inodes)
      ensures WindowRead(Contents(vol, inodes[nid]), off, total, r, buf[..total])
      ensures forall i :: total <= i < buf.Length ==> buf[i] == old(buf[i])
    {
      var m := MaterializeCompressed(nid);
      DecodedLies(Contents(vol, inodes[nid]), vol, inodes[nid], off, total, Materialize(vol, inodes[nid]));
      if m.Err? { return Err(m.error); }
      var data := decoded[nid];
      if off + total > |data| { return Err(Corrupt); }
      CopyInto(data[off..off + total], buf, 0);
      assert buf[..total] == buf[0..0 + total];
      r := Ok(total);
    }

    /** `read_inode_data` into `buf[..len]`: the window of the content, whatever the
        caches held; it fails exactly when a byte of the window is not to be had. */
    method ReadInodeData(nid: nat, off: nat, buf: array<byte>, len: nat) returns (r: Result<nat>)
      requires Valid() && len <= buf.Length
      modifies this, buf
      ensures Valid() && inodes == old(inodes)
      ensures nid !in inodes ==> r == Err(NotFound)
      ensures nid in inodes && off >= inodes[nid].size ==> r == Ok(0)
      ensures nid in inodes && off < inodes[nid].size ==>
                var total := Min(off + len, inodes[nid].size) - off; WindowRead(Contents(vol, inodes[nid]), off, total, r, buf[..total])
      ensures r == Ok(0) || nid !in inodes ==> buf[..] == old(buf[..])
      ensures forall i :: len <= i < buf.Length ==> buf[i] == old(buf[i])
    {
      if nid !in inodes { return Err(NotFound); }
      var ino := inodes[nid];
      if off >= ino.size { return Ok(0); }
      var total := Min(off + len, ino.size) - off;
      if ino.layout == COMPRESSED_FULL || ino.layout == COMPRESSED_COMPACT {
        r := ReadDecoded(nid, off, total, buf);
      } else {
        r := ReadRaw(vol, ino, off, total, buf);
      }
    }

    ghost predicate Guards(f: Guarded, node: nat, verify: Verify)
      requires node in inodes
      reads this
    {
      && f.size == inodes[node].size && f.bs == vol.BlockSize() && f.verify == verify && f.node == node
      && Gives(f.at, vol, inodes[node])
    }

    /** Block `start`, read whole and shown to the verifier. */
    method FetchBlock(node: nat, start: nat, block: array<byte>, verify: Verify, ghost f: Guarded) returns (r: Result<seq<byte>>)
      requires Valid() && node in inodes && Guards(f, node, verify)
      requires start < inodes[node].size && block.Length == vol.BlockSize()
      modifies this, block
      ensures Valid() && inodes == old(inodes)
      ensures r.Ok? <==> f.Accepts(start)
      ensures r.Ok? ==> f.Block(start) == Some(r.value)
    {
      var blockLen := Min(vol.BlockSize(), inodes[node].size - start);
      var got := ReadInodeData(node, start, block, blockLen);
      var data := block[..blockLen];
      WindowOfContents(f.at, vol, inodes[node], start, blockLen, got, data);
      if got.Err? {
        UnreadableHasNoContent(f.at, start, blockLen);
        return Err(got.error);
      }
      ContentIsContentOf(f.at, start, data);
      var checked := verify(node, start, data);
      if checked.Err? { return Err(checked.error); }
      r := Ok(data);
    }

    /** One turn of the loop of `read_at`: verify a block, then copy what the caller wants. */
    method ReadBlock(node: nat, off: nat, end: nat, start: nat, produced: nat, block: array<byte>, buf: array<byte>, verify: Verify,
                     ghost f: Guarded, ghost was: seq<byte>)
      returns (r: Result<nat>)
      requires Valid() && node in inodes && Guards(f, node, verify)
      requires block.Length == vol.BlockSize() && block != buf && start < end && |was| == buf.Length
      requires f.Progress(off, end, was, buf[..], produced, start)
      modifies this, block, buf
      ensures Valid() && inodes == old(inodes)
      ensures r.Ok? ==> f.Progress(off, end, was, buf[..], r.value, start + f.bs)
      ensures r.Err? ==> f.VerifiedRead(off, end, was, buf[..], r)
    {
      ghost var now := buf[..];
      var data := FetchBlock(node, start, block, verify, f);
      assert buf[..] == now;
      if data.Err? {
        ProgressFails(f, off, end, was, now, produced, start, data.error);
        return Err(data.error);
      }
      ProgressStep(f, off, end, was, now, produced, start, data.value);
      var n := CopyOverlap(off, end, start, data.value, buf);
      r := Ok(produced + n);
    }

    /** The loop of `read_at`. */
    method ReadBlocks(node: nat, off: nat, buf: array<byte>, verify: Verify, ghost f: Guarded) returns (r: Result<nat>)
      requires Valid() && node in inodes && off < inodes[node].size && Guards(f, node, verify)
      modifies this, buf
      ensures Valid() && inodes == old(inodes)
      ensures f.VerifiedRead(off, Min(off + buf.Length, f.size), old(buf[..]), buf[..], r)
    {
      var bs := vol.BlockSize();
      var end := Min(off + buf.Length, inodes[node].size);
      ghost var was := buf[..];
      var block := new byte[bs](_ => 0);
      var produced: nat, start: nat := 0, BlockStart(off, bs);
      ProgressStart(f, off, end, was);
      while start < end
        invariant Valid() && inodes == old(inodes)
        invariant f.Progress(off, end, was, buf[..], produced, start)
      {
        var turn := ReadBlock(node, off, end, start, produced, block, buf, verify, f, was);
        if turn.Err? { return turn; }
        produced, start := turn.value, start + bs;
      }
      ProgressEnds(f, off, end, was, buf[..], produced, start);
      r := Ok(produced);
    }

    /** `read_at`, into all of `buf`. It succeeds exactly when every block the window
        touches can be read and is accepted, and then gives the window of the content; a
        failed read has written verified bytes only. Caches do not matter. */
    method ReadAt(node: nat, off: nat, buf: array<byte>, verify: Verify) returns (r: Result<nat>)
      requires Valid()
      modifies this, buf
      ensures Valid()
      ensures InodeOf(vol, node).Err? ==> r == Err(InodeOf(vol, node).error) && buf[..] == old(buf[..])
      ensures InodeOf(vol, node).Ok? ==>
                var ino := InodeOf(vol, node).value;
                && (ino.kind == Directory ==> r == Err(IsDirectory) && buf[..] == old(buf[..]))
                && (ino.kind != Directory && off >= ino.size ==> r == Ok(0) && buf[..] == old(buf[..]))
                && (ino.kind != Directory && off < ino.size ==>
                      FileOf(vol, ino, verify, node).VerifiedRead(off, Min(off + buf.Length, ino.size), old(buf[..]), buf[..], r))
    {
      var p := ParseInode(node);
      if p.Err? { return Err(p.error); }
      var ino := p.value;
      if ino.kind == Directory { return Err(IsDirectory); }
      if off >= ino.size { return Ok(0); }
      r := ReadBlocks(node, off, buf, verify, FileOf(vol, ino, verify, node));
    }

    /** `read_link`: the whole content of a symlink, which no verifier is shown. */
    method ReadLink(node: nat) returns (r: Result<Option<seq<byte>>>)
      requires Valid()
      modifies this
      ensures Valid()
      ensures InodeOf(vol, node).Err? ==> r == Err(InodeOf(vol, node).error)
      ensures InodeOf(vol, node).Ok? ==>
                var ino := InodeOf(vol, node).value;
                && (ino.kind != Symlink ==> r == Ok(None))
                && (ino.kind == Symlink && ino.size > MAX_BOOT_FILE_BYTES ==> r == Err(FileTooLarge))
                && (ino.kind == Symlink && ino.size <= MAX_BOOT_FILE_BYTES ==>
                      var target := ContentOf(Contents(vol, ino), 0, ino.size);
                      (r.Ok? <==> target.Some?) && (r.Ok? ==> r.value == target))
    {
      var p := ParseInode(node);
      if p.Err? { return Err(p.error); }
      var ino := p.value;
      if ino.kind != Symlink { return Ok(None); }
      var len := CheckedFullReadLen(ino.size);
      if len.Err? { return Err(len.error); }
      var target := new byte[ino.size](_ => 0);
      var got := ReadInodeData(node, 0, target, ino.size);
      r := LinkResult(Contents(vol, ino), ino.size, got, target[..]);
    }

    /** End to end: reading through the Merkle verifier of the genuine content, at the
        volume's block size, gives the caller genuine bytes only, zero-extended inside the
        last block (the inode's size is not trusted), or there is a collision to show. */
    method ReadGenuine(sha: Verity.Sha, genuine: seq<byte>, salt: seq<byte>, node: nat, off: nat, buf: array<byte>)
      returns (r: Result<nat>)
      requires Valid() && |genuine| < U64
      modifies this, buf
      ensures Valid()
      ensures || GenuineRead(genuine, off, old(buf[..]), buf[..], r)
              || (InodeOf(vol, node).Ok?
                  && var verify := MerkleVerify(sha, Verity.VerifierOver(sha, genuine, vol.blkszbits, salt));
                     var ino := InodeOf(vol, node).value;
                     BlockCollision(sha, genuine, vol.blkszbits, salt, FileOf(vol, ino, verify, node), off, Min(off + buf.Length, ino.size)))
    {
      var m := Verity.Over(sha, genuine, vol.blkszbits, salt);
      var verify := MerkleVerify(sha, m);
      MerkleIsTrusted(sha, genuine, vol.blkszbits, salt);
      r := ReadTrusted(sha, genuine, salt, node, off, buf, verify);
    }

    /** `read_at` through a verifier that vouches for the genuine content. */
    method ReadTrusted(sha: Verity.Sha, genuine: seq<byte>, salt: seq<byte>, node: nat, off: nat, buf: array<byte>, verify: Verify)
      returns (r: Result<nat>)
      requires Valid() && Trusted(verify, sha, genuine, vol.blkszbits, salt)
      modifies this, buf
      ensures Valid()
      ensures || GenuineRead(genuine, off, old(buf[..]), buf[..], r)
              || (InodeOf(vol, node).Ok?
                  && var ino := InodeOf(vol, node).value;
                     BlockCollision(sha, genuine, vol.blkszbits, salt, FileOf(vol, ino, verify, node), off, Min(off + buf.Length, ino.size)))
    {
      ghost var was := buf[..];
      r := ReadAt(node, off, buf, verify);
      if InodeOf(vol, node).Ok? {
        ghost var ino := InodeOf(vol, node).value;
        if ino.kind != Directory && off < ino.size {
          VerifiedReadIsGenuine(sha, genuine, vol.blkszbits, salt, FileOf(vol, ino, verify, node), off,
                                Min(off + buf.Length, ino.size), was, buf[..], r);
        }
      }
    }
  }
}
