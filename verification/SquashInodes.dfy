/** SquashFS inodes and the bytes of their files (`crates/lamfold-squash/src/squash.rs`). */
module SquashInodes {
  import opened Bytes
  import opened Frontend
  import opened Windows
  import opened SquashMeta

  const NO_FRAGMENT: nat := 0xFFFF_FFFF
  const STORED: nat := 0x100_0000

  /** What opening a volume found. */
  datatype Volume = Volume(m: Medium, bs: nat, inodeTable: nat, dirTable: nat, fragTable: nat)

  datatype Body =
    | Dir(block: nat, offset: nat, listed: nat)
    | File(sizes: seq<nat>, offsets: seq<nat>, frag: nat, fragOffset: nat)
    | Link(target: seq<byte>)
    | NoBody

  datatype Inode = Inode(kind: FileKind, size: nat, body: Body)

  function Field16(b: seq<byte>, o: nat): Result<nat>
  {
    if o + 2 <= |b| then Ok(Le16(b, o)) else Err(Corrupt)
  }

  function Field32(b: seq<byte>, o: nat): Result<nat>
  {
    if o + 4 <= |b| then Ok(Le32(b, o)) else Err(Corrupt)
  }

  function Field64(b: seq<byte>, o: nat): Result<nat>
  {
    if o + 8 <= |b| then Ok(Le64(b, o)) else Err(Corrupt)
  }

  // ----- the blocks of a file -----

  /** Bytes a block takes on the medium; none when it is sparse. */
  function Stored(raw: nat): nat
  {
    raw % STORED
  }

  function BlockCount(bs: nat, size: nat, frag: nat): nat
    requires bs > 0
  {
    if frag != NO_FRAGMENT then size / bs else CeilDiv(size, bs)
  }

  /** Where block `k` starts: blocks follow one another from `start`. */
  function OffsetOf(start: nat, sizes: seq<nat>, k: nat): nat
    requires k <= |sizes|
  {
    if k == 0 then start else OffsetOf(start, sizes, k - 1) + Stored(sizes[k - 1])
  }

  function Offsets(start: nat, sizes: seq<nat>, n: nat): (r: seq<nat>)
    requires n <= |sizes|
    ensures |r| == n && forall k :: 0 <= k < n ==> r[k] == OffsetOf(start, sizes, k)
  {
    if n == 0 then [] else Offsets(start, sizes, n - 1) + [OffsetOf(start, sizes, n - 1)]
  }

  /** `block_offsets`. */
  method BlockOffsets(start: nat, sizes: seq<nat>) returns (r: seq<nat>)
    ensures r == Offsets(start, sizes, |sizes|)
  {
    var at: nat := start;
    r := [];
    for k := 0 to |sizes|
      invariant at == OffsetOf(start, sizes, k) && r == Offsets(start, sizes, k)
    {
      r := r + [at];
      at := at + Stored(sizes[k]);
    }
  }

  /** No two blocks of a file overlap. */
  lemma {:induction false} BlocksAreDisjoint(start: nat, sizes: seq<nat>, j: nat, k: nat)
    requires j < k < |sizes|
    ensures var o := Offsets(start, sizes, |sizes|); o[j] + Stored(sizes[j]) <= o[k]
    decreases k
  {
    if j + 1 < k {
      BlocksAreDisjoint(start, sizes, j, k - 1);
      assert Offsets(start, sizes, |sizes|)[k - 1] == OffsetOf(start, sizes, k - 1);
    }
  }

  // ----- inodes -----

  /** The block sizes recorded behind a file inode's `base` bytes. */
  function SizesAt(full: seq<byte>, base: nat, n: nat): (r: Result<seq<nat>>)
    ensures r.Ok? ==> |r.value| == n
  {
    if n == 0 then Ok([])
    else
      var init :- SizesAt(full, base, n - 1);
      var last :- Field32(full, base + 4 * (n - 1));
      Ok(init + [last])
  }

  /** A file inode, its fields read: the block list is read with the inode again. */
  function FileInode(v: Volume, at: nat, off: nat, base: nat, start: nat, size: nat, frag: nat, fragOffset: nat): Result<Inode>
    requires v.bs > 0
  {
    var n := BlockCount(v.bs, size, frag);
    var full :- MetaSpan(v.m, at, off, base + 4 * n);
    var sizes :- SizesAt(full, base, n);
    Ok(Inode(Regular, size, File(sizes, Offsets(start, sizes, n), frag, fragOffset)))
  }

  function BasicDir(v: Volume, at: nat, off: nat): Result<Inode>
  {
    var b :- MetaSpan(v.m, at, off, 32);
    var size :- Field16(b, 24);
    var block :- Field32(b, 16);
    var offset :- Field16(b, 26);
    Ok(Inode(Directory, size, Dir(v.dirTable + block, offset, size)))
  }

  function ExtendedDir(v: Volume, at: nat, off: nat): Result<Inode>
  {
    var b :- MetaSpan(v.m, at, off, 40);
    var size :- Field32(b, 20);
    var block :- Field32(b, 24);
    var offset :- Field16(b, 34);
    Ok(Inode(Directory, size, Dir(v.dirTable + block, offset, size)))
  }

  function BasicFile(v: Volume, at: nat, off: nat): Result<Inode>
    requires v.bs > 0
  {
    var h :- MetaSpan(v.m, at, off, 32);
    var start :- Field32(h, 16);
    var frag :- Field32(h, 20);
    var fragOffset :- Field32(h, 24);
    var size :- Field32(h, 28);
    FileInode(v, at, off, 32, start, size, frag, fragOffset)
  }

  function ExtendedFile(v: Volume, at: nat, off: nat): Result<Inode>
    requires v.bs > 0
  {
    var h :- MetaSpan(v.m, at, off, 56);
    var start :- Field64(h, 16);
    var size :- Field64(h, 24);
    var frag :- Field32(h, 44);
    var fragOffset :- Field32(h, 48);
    FileInode(v, at, off, 56, start, size, frag, fragOffset)
  }

  function SymlinkInode(v: Volume, at: nat, off: nat): Result<Inode>
  {
    var h :- MetaSpan(v.m, at, off, 24);
    var size :- Field32(h, 20);
    var _ :- CheckedFullReadLen(size);
    var full :- MetaSpan(v.m, at, off, 24 + size);
    if |full| < 24 + size then Err(Corrupt) else Ok(Inode(Symlink, size, Link(full[24..24 + size])))
  }

  /** `parse_inode`: the inode a reference names. */
  function InodeAt(v: Volume, ref: nat): Result<Inode>
    requires v.bs > 0
  {
    var at, off := v.inodeTable + ref / U16, ref % U16;
    var head :- MetaSpan(v.m, at, off, 16);
    var kind :- Field16(head, 0);
    if kind == 1 then BasicDir(v, at, off)
    else if kind == 8 then ExtendedDir(v, at, off)
    else if kind == 2 then BasicFile(v, at, off)
    else if kind == 9 then ExtendedFile(v, at, off)
    else if kind == 3 || kind == 10 then SymlinkInode(v, at, off)
    else Ok(Inode(Other, 0, NoBody))
  }

  /** What every inode read from the medium is: a file has the blocks its size calls for, back
      to back. */
  ghost predicate Sound(bs: nat, x: Inode)
    requires bs > 0
  {
    x.body.File? ==>
      && |x.body.sizes| == |x.body.offsets| == BlockCount(bs, x.size, x.body.frag)
      && forall k :: 0 < k < |x.body.sizes| ==> x.body.offsets[k] == x.body.offsets[k - 1] + Stored(x.body.sizes[k - 1])
  }

  lemma {:induction false} InodesAreSound(v: Volume, ref: nat)
    requires v.bs > 0 && InodeAt(v, ref).Ok?
    ensures Sound(v.bs, InodeAt(v, ref).value)
  {
  }

  /** Every byte of such a file has a block, or is in the fragment: reads never find a file
      longer than its blocks. */
  lemma {:induction false} BytesHaveBlocks(bs: nat, x: Inode, q: nat)
    requires bs > 0 && Sound(bs, x) && x.body.File? && q < x.size
    ensures q / bs < |x.body.sizes| || (x.body.frag != NO_FRAGMENT && q / bs == |x.body.sizes|)
  {
    DivBounds(q, bs);
    DivBounds(x.size, bs);
    CeilDivBounds(x.size, bs);
    NextMultiple(x.size / bs, bs);
    if x.body.frag != NO_FRAGMENT {
      CancelFactor(q / bs, x.size / bs + 1, bs);
    } else {
      CancelFactor(q / bs, CeilDiv(x.size, bs), bs);
    }
  }

  // ----- the bytes of a file -----

  /** `read_data_block`. */
  function DataBlock(v: Volume, at: nat, raw: nat): Result<seq<byte>>
  {
    if Stored(raw) == 0 then Ok([])
    else
      var data :- ReadSource(v.m.src, at, Stored(raw));
      if raw / STORED % 2 == 1 then Ok(data) else v.m.decode(data, v.bs)
  }

  /** `read_fragment`. */
  function Fragment(v: Volume, idx: nat): Result<seq<byte>>
  {
    var ptr :- ReadSource(v.m.src, v.fragTable + idx / 512 * 8, 8);
    var entry :- MetaSpan(v.m, Le64(ptr, 0), idx % 512 * 16, 16);
    var start :- Field64(entry, 0);
    var raw :- Field32(entry, 8);
    DataBlock(v, start, raw)
  }

  function ByteIn(b: Result<seq<byte>>, i: nat): Option<byte>
  {
    if b.Ok? && i < |b.value| then Some(b.value[i]) else None
  }

  /** Byte `within` of a file's block `idx`, the one past the last being its tail. */
  function BlockByte(v: Volume, x: Inode, idx: nat, within: nat): Option<byte>
    requires x.body.File? && |x.body.offsets| == |x.body.sizes|
  {
    if idx < |x.body.sizes| then
      if Stored(x.body.sizes[idx]) == 0 then Some(0)
      else ByteIn(DataBlock(v, x.body.offsets[idx], x.body.sizes[idx]), within)
    else if x.body.frag != NO_FRAGMENT && idx == |x.body.sizes| then
      ByteIn(Fragment(v, x.body.frag), x.body.fragOffset + within)
    else None
  }

  /** A file's logical content. */
  function FileByte(v: Volume, x: Inode, q: nat): Option<byte>
    requires v.bs > 0 && x.body.File? && |x.body.offsets| == |x.body.sizes|
  {
    BlockByte(v, x, q / v.bs, q % v.bs)
  }

  function Contents(v: Volume, x: Inode): Content
    requires v.bs > 0 && x.body.File? && |x.body.offsets| == |x.body.sizes|
  {
    (q: nat) => FileByte(v, x, q)
  }
}
