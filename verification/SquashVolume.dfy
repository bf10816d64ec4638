/** The SquashFS frontend (`crates/lamfold-squash/src/squash.rs`): inodes read and interned by
    reference, directories listed, file windows read. */
module SquashVolume {
  import opened Bytes
  import opened Frontend
  import opened Interning
  import opened Windows
  import opened SquashMeta
  import opened SquashDir
  import opened SquashInodes

  // ----- reading inodes -----

  method ReadSizes(full: seq<byte>, base: nat, n: nat) returns (r: Result<seq<nat>>)
    ensures r == SizesAt(full, base, n)
  {
    var sizes: seq<nat> := [];
    for k := 0 to n
      invariant SizesAt(full, base, k) == Ok(sizes)
    {
      var raw := Field32(full, base + 4 * k);
      if raw.Err? {
        SizesFail(full, base, k, n);
        return Err(raw.error);
      }
      sizes := sizes + [raw.value];
    }
    r := Ok(sizes);
  }

  lemma {:induction false} SizesFail(full: seq<byte>, base: nat, k: nat, n: nat)
    requires k < n && SizesAt(full, base, k).Ok? && Field32(full, base + 4 * k).Err?
    ensures SizesAt(full, base, n) == Err(Field32(full, base + 4 * k).error)
    decreases n - k
  {
    if k + 1 < n { SizesFailLater(full, base, k + 1, n); }
  }

  lemma {:induction false} SizesFailLater(full: seq<byte>, base: nat, k: nat, n: nat)
    requires k <= n && SizesAt(full, base, k).Err?
    ensures SizesAt(full, base, n) == Err(SizesAt(full, base, k).error)
    decreases n
  {
    if k < n { SizesFailLater(full, base, k, n - 1); }
  }

  method ReadFileInode(v: Volume, at: nat, off: nat, base: nat, start: nat, size: nat, frag: nat, fragOffset: nat) returns (r: Result<Inode>)
    requires v.bs > 0
    ensures r == FileInode(v, at, off, base, start, size, frag, fragOffset)
  {
    var n := BlockCount(v.bs, size, frag);
    var full := ReadMetaSpan(v.m, at, off, base + 4 * n);
    if full.Err? { return Err(full.error); }
    var sizes := ReadSizes(full.value, base, n);
    if sizes.Err? { return Err(sizes.error); }
    var offsets := BlockOffsets(start, sizes.value);
    r := Ok(Inode(Regular, size, File(sizes.value, offsets, frag, fragOffset)));
  }

  method ReadBasicFile(v: Volume, at: nat, off: nat) returns (r: Result<Inode>)
    requires v.bs > 0
    ensures r == BasicFile(v, at, off)
  {
    var h := ReadMetaSpan(v.m, at, off, 32);
    if h.Err? { return Err(h.error); }
    if |h.value| < 32 { return Err(Corrupt); }
    r := ReadFileInode(v, at, off, 32, Le32(h.value, 16), Le32(h.value, 28), Le32(h.value, 20), Le32(h.value, 24));
  }

  method ReadExtendedFile(v: Volume, at: nat, off: nat) returns (r: Result<Inode>)
    requires v.bs > 0
    ensures r == ExtendedFile(v, at, off)
  {
    var h := ReadMetaSpan(v.m, at, off, 56);
    if h.Err? { return Err(h.error); }
    if |h.value| < 52 { return Err(Corrupt); }
    r := ReadFileInode(v, at, off, 56, Le64(h.value, 16), Le64(h.value, 24), Le32(h.value, 44), Le32(h.value, 48));
  }

  method ReadDirInode(v: Volume, at: nat, off: nat, extended: bool) returns (r: Result<Inode>)
    ensures r == if extended then ExtendedDir(v, at, off) else BasicDir(v, at, off)
  {
    var b := ReadMetaSpan(v.m, at, off, if extended then 40 else 32);
    if b.Err? { return Err(b.error); }
    if |b.value| < (if extended then 36 else 28) { return Err(Corrupt); }
    if extended {
      var size := Le32(b.value, 20);
      r := Ok(Inode(Directory, size, Dir(v.dirTable + Le32(b.value, 24), Le16(b.value, 34), size)));
    } else {
      var size := Le16(b.value, 24);
      r := Ok(Inode(Directory, size, Dir(v.dirTable + Le32(b.value, 16), Le16(b.value, 26), size)));
    }
  }

  method ReadSymlink(v: Volume, at: nat, off: nat) returns (r: Result<Inode>)
    ensures r == SymlinkInode(v, at, off)
  {
    var h := ReadMetaSpan(v.m, at, off, 24);
    if h.Err? { return Err(h.error); }
    if |h.value| < 24 { return Err(Corrupt); }
    var size := CheckedFullReadLen(Le32(h.value, 20));
    if size.Err? { return Err(size.error); }
    var full := ReadMetaSpan(v.m, at, off, 24 + size.value);
    if full.Err? { return Err(full.error); }
    if |full.value| < 24 + size.value { return Err(Corrupt); }
    r := Ok(Inode(Symlink, size.value, Link(full.value[24..24 + size.value])));
  }

  /** `parse_inode`. */
  method ParseInode(v: Volume, ref: nat) returns (r: Result<Inode>)
    requires v.bs > 0
    ensures r == InodeAt(v, ref)
  {
    var at, off := v.inodeTable + ref / U16, ref % U16;
    var head := ReadMetaSpan(v.m, at, off, 16);
    if head.Err? { return Err(head.error); }
    if |head.value| < 2 { return Err(Corrupt); }
    var kind := Le16(head.value, 0);
    if kind == 1 || kind == 8 {
      r := ReadDirInode(v, at, off, kind == 8);
    } else if kind == 2 {
      r := ReadBasicFile(v, at, off);
    } else if kind == 9 {
      r := ReadExtendedFile(v, at, off);
    } else if kind == 3 || kind == 10 {
      r := ReadSymlink(v, at, off);
    } else {
      r := Ok(Inode(Other, 0, NoBody));
    }
  }

  method ReadFragment(v: Volume, idx: nat) returns (r: Result<seq<byte>>)
    ensures r == Fragment(v, idx)
  {
    var ptr := ReadSource(v.m.src, v.fragTable + idx / 512 * 8, 8);
    if ptr.Err? { return Err(ptr.error); }
    var entry := ReadMetaSpan(v.m, Le64(ptr.value, 0), idx % 512 * 16, 16);
    if entry.Err? { return Err(entry.error); }
    if |entry.value| < 12 { return Err(Corrupt); }
    r := DataBlock(v, Le64(entry.value, 0), Le32(entry.value, 8));
  }

  // ----- windows of files -----

  /** Part of a block goes into the buffer, or some byte of it is not to be had. */
  method CopyPart(b: Result<seq<byte>>, start: nat, want: nat, buf: array<byte>, lo: nat, ghost at: Content, ghost pos: nat) returns (r: Result<()>)
    requires lo + want <= buf.Length && want > 0
    requires forall q: nat {:trigger at(q)} :: pos <= q < pos + want ==> at(q) == ByteIn(b, start + (q - pos))
    modifies buf
    ensures r.Ok? ==> IsContent(at, pos, buf[lo..lo + want])
    ensures r.Err? ==> Unreadable(at, pos, want)
    ensures forall i :: 0 <= i < buf.Length && !(r.Ok? && lo <= i < lo + want) ==> buf[i] == old(buf[i])
  {
    if b.Err? {
      assert at(pos) == None;
      return Err(b.error);
    }
    if start + want > |b.value| {
      assert at(pos + want - 1) == None;
      return Err(Corrupt);
    }
    CopyInto(b.value[start..start + want], buf, lo);
    r := Ok(());
  }

  /** The bytes of a block that is not a hole are in what is read for it. */
  lemma {:induction false} PartIsIn(v: Volume, x: Inode, idx: nat, within: nat, want: nat, at: Content, pos: nat, b: Result<seq<byte>>, start: nat)
    requires x.body.File? && |x.body.offsets| == |x.body.sizes|
    requires forall q: nat {:trigger at(q)} :: pos <= q < pos + want ==> at(q) == BlockByte(v, x, idx, within + (q - pos))
    requires if idx < |x.body.sizes| then
               Stored(x.body.sizes[idx]) != 0 && b == DataBlock(v, x.body.offsets[idx], x.body.sizes[idx]) && start == within
             else
               x.body.frag != NO_FRAGMENT && idx == |x.body.sizes| && b == Fragment(v, x.body.frag) && start == x.body.fragOffset + within
    ensures forall q: nat {:trigger at(q)} :: pos <= q < pos + want ==> at(q) == ByteIn(b, start + (q - pos))
  {
  }

  /** One block's share of a read. */
  method ReadPart(v: Volume, x: Inode, idx: nat, within: nat, want: nat, buf: array<byte>, lo: nat, ghost at: Content, ghost pos: nat) returns (r: Result<()>)
    requires x.body.File? && |x.body.offsets| == |x.body.sizes| && lo + want <= buf.Length && want > 0
    requires idx < |x.body.sizes| || (x.body.frag != NO_FRAGMENT && idx == |x.body.sizes|)
    requires forall q: nat {:trigger at(q)} :: pos <= q < pos + want ==> at(q) == BlockByte(v, x, idx, within + (q - pos))
    modifies buf
    ensures r.Ok? ==> IsContent(at, pos, buf[lo..lo + want])
    ensures r.Err? ==> Unreadable(at, pos, want)
    ensures forall i :: 0 <= i < buf.Length && !(r.Ok? && lo <= i < lo + want) ==> buf[i] == old(buf[i])
  {
    if idx < |x.body.sizes| {
      if Stored(x.body.sizes[idx]) == 0 {
        FillZeros(buf, lo, want);
        return Ok(());
      }
      var block := DataBlock(v, x.body.offsets[idx], x.body.sizes[idx]);
      PartIsIn(v, x, idx, within, want, at, pos, block, within);
      r := CopyPart(block, within, want, buf, lo, at, pos);
    } else if x.body.frag != NO_FRAGMENT && idx == |x.body.sizes| {
      var frag := ReadFragment(v, x.body.frag);
      PartIsIn(v, x, idx, within, want, at, pos, frag, x.body.fragOffset + within);
      r := CopyPart(frag, x.body.fragOffset + within, want, buf, lo, at, pos);
    } else {
      // A file longer than its blocks: no inode read from the medium is one.
      assert false;
    }
  }

  lemma {:induction false} InBlock(bs: nat, pos: nat, q: nat, idx: nat, within: nat)
    requires bs > 0 && idx == pos / bs && within == pos % bs && pos <= q && within + (q - pos) < bs
    ensures q / bs == idx && q % bs == within + (q - pos)
  {
    DivBounds(pos, bs);
    DivUnique(q, bs, idx);
  }

  lemma {:induction false} ByteOfBlock(v: Volume, x: Inode, q: nat, idx: nat, within: nat)
    requires v.bs > 0 && x.body.File? && |x.body.offsets| == |x.body.sizes| && q / v.bs == idx && q % v.bs == within
    ensures FileByte(v, x, q) == BlockByte(v, x, idx, within)
  {
  }

  /** The bytes of a window that are in one block. */
  lemma {:induction false} SameBlock(v: Volume, x: Inode, pos: nat, idx: nat, within: nat, want: nat, at: Content)
    requires v.bs > 0 && x.body.File? && |x.body.offsets| == |x.body.sizes|
    requires idx == pos / v.bs && within == pos % v.bs && within + want <= v.bs
    requires forall q: nat {:trigger FileByte(v, x, q)} :: at(q) == FileByte(v, x, q)
    ensures forall q: nat {:trigger at(q)} :: pos <= q < pos + want ==> at(q) == BlockByte(v, x, idx, within + (q - pos))
  {
    forall q: nat {:trigger at(q)} | pos <= q < pos + want
      ensures at(q) == BlockByte(v, x, idx, within + (q - pos))
    {
      InBlock(v.bs, pos, q, idx, within);
      ByteOfBlock(v, x, q, idx, within + (q - pos));
    }
  }

  /** How much of a window is in the block of its first byte. */
  lemma {:induction false} PartFits(bs: nat, pos: nat, size: nat)
    requires bs > 0 && pos < size
    ensures pos % bs < Min(bs, size - pos / bs * bs)
    ensures pos + (Min(bs, size - pos / bs * bs) - pos % bs) <= size
  {
    DivBounds(pos, bs);
  }

  /** The block that `pos` of a file is in, where it is there, and how much of a window that
      ends at `end` is there with it. */
  method PartOf(bs: nat, pos: nat, size: nat, end: nat) returns (idx: nat, within: nat, want: nat)
    requires bs > 0 && pos < end <= size
    ensures idx == pos / bs && within == pos % bs
    ensures 0 < want <= end - pos && within + want <= bs
    ensures want == end - pos || within + want == bs || pos + want == size
  {
    DivBounds(pos, bs);
    PartFits(bs, pos, size);
    idx, within := pos / bs, pos % bs;
    var blockLen := Min(bs, size - idx * bs);
    want := Min(blockLen - within, end - pos);
  }

  /** That part is in one block of the file, or in its fragment. */
  lemma {:induction false} PartInBlock(v: Volume, x: Inode, pos: nat, idx: nat, within: nat, want: nat, at: Content)
    requires v.bs > 0 && x.body.File? && Sound(v.bs, x) && pos < x.size
    requires idx == pos / v.bs && within == pos % v.bs && within + want <= v.bs
    requires forall q: nat {:trigger FileByte(v, x, q)} :: at(q) == FileByte(v, x, q)
    ensures |x.body.offsets| == |x.body.sizes|
    ensures idx < |x.body.sizes| || (x.body.frag != NO_FRAGMENT && idx == |x.body.sizes|)
    ensures forall q: nat {:trigger at(q)} :: pos <= q < pos + want ==> at(q) == BlockByte(v, x, idx, within + (q - pos))
  {
    BytesHaveBlocks(v.bs, x, pos);
    SameBlock(v, x, pos, idx, within, want, at);
  }

  /** One turn of the loop of `read_at`: the rest of the window that is in one block. */
  method ReadNext(v: Volume, x: Inode, off: nat, pos: nat, end: nat, buf: array<byte>, ghost at: Content) returns (r: Result<nat>)
    requires v.bs > 0 && x.body.File? && Sound(v.bs, x) && off <= pos < end <= x.size && end - off <= buf.Length
    requires forall q: nat {:trigger FileByte(v, x, q)} :: at(q) == FileByte(v, x, q)
    modifies buf
    ensures r.Ok? ==> pos < r.value <= end && IsContent(at, pos, buf[pos - off..r.value - off])
    ensures r.Err? ==> exists q :: pos <= q < end && at(q).None?
    ensures forall i :: 0 <= i < buf.Length && !(r.Ok? && pos - off <= i < r.value - off) ==> buf[i] == old(buf[i])
  {
    var idx, within, want := PartOf(v.bs, pos, x.size, end);
    PartInBlock(v, x, pos, idx, within, want, at);
    var part := ReadPart(v, x, idx, within, want, buf, pos - off, at, pos);
    if part.Err? { return Err(part.error); }
    r := Ok(pos + want);
  }

  /** The loop of `read_at`, over the blocks the window touches. */
  method ReadBlocks(v: Volume, x: Inode, off: nat, n: nat, buf: array<byte>, ghost at: Content) returns (r: Result<nat>)
    requires v.bs > 0 && x.body.File? && Sound(v.bs, x) && off + n <= x.size && n <= buf.Length
    requires forall q: nat {:trigger FileByte(v, x, q)} :: at(q) == FileByte(v, x, q)
    modifies buf
    ensures WindowRead(at, off, n, r, buf[..n]) && (n == 0 ==> r == Ok(0))
    ensures forall i :: n <= i < buf.Length ==> buf[i] == old(buf[i])
  {
    var pos, end := off, off + n;
    while pos < end
      invariant off <= pos <= end
      invariant IsContent(at, off, buf[..pos - off])
      invariant forall i :: n <= i < buf.Length ==> buf[i] == old(buf[i])
    {
      ghost var before := buf[..pos - off];
      var next := ReadNext(v, x, off, pos, end, buf, at);
      if next.Err? { return Err(next.error); }
      assert buf[..pos - off] == before;
      BufferGrows(at, off, buf, pos - off, next.value - pos);
      pos := next.value;
    }
    r := Ok(n);
  }

  // ----- the frontend -----

  /** `dir_entries` of a directory inode. */
  function ChildrenOf(v: Volume, d: Body): Result<seq<Child>>
    requires d.Dir?
  {
    var listing :- MetaSpan(v.m, d.block, d.offset, Max(0, d.listed - 3));
    HeadersFrom(listing, 0, [])
  }

  datatype DirEntry = DirEntry(name: Name, node: nat, kind: FileKind)

  /** Number `k` is the first that has the name. */
  ghost predicate IsFirst(cs: seq<Child>, name: Name, k: nat)
  {
    k < |cs| && cs[k].name == name && forall j :: 0 <= j < k ==> cs[j].name != name
  }

  /** What a lookup answers: the node of the first child of the name, or that there is none. */
  ghost predicate FindsFirst(cs: seq<Child>, name: Name, ids: map<nat, nat>, answer: Option<nat>)
  {
    match answer
    case None => forall j :: 0 <= j < |cs| ==> cs[j].name != name
    case Some(id) => exists k: nat :: IsFirst(cs, name, k) && cs[k].ref in ids && ids[cs[k].ref] == id
  }

  function Parser(v: Volume): Parse<Inode>
    requires v.bs > 0
  {
    (ref: nat) => InodeAt(v, ref)
  }

  /** `e` is what the first child that cannot be parsed fails with. */
  ghost predicate FirstFailure(parse: Parse<Inode>, cs: seq<Child>, e: Error)
  {
    exists i :: 0 <= i < |cs| && parse(cs[i].ref) == Err(e) && forall j :: 0 <= j < i ==> parse(cs[j].ref).Ok?
  }

  class SquashFs {
    const vol: Volume
    var nodes: seq<Inode>
    var byRef: map<nat, nat>
    ghost var refs: seq<nat>

    /** The nodes are what `parse` gives. */
    ghost predicate Holds(parse: Parse<Inode>)
      reads this
    {
      |nodes| > 0 && Agrees(parse, nodes, byRef, refs)
    }

    ghost predicate Valid()
      reads this
    {
      vol.bs > 0 && Holds(Parser(vol))
    }

    constructor (v: Volume, rootRef: nat, root: Inode)
      requires v.bs > 0 && InodeAt(v, rootRef) == Ok(root)
      ensures Valid() && vol == v && nodes == [root]
    {
      vol := v;
      nodes := [root];
      byRef := map[rootRef := 0];
      refs := [rootRef];
    }

    /** `intern`. */
    method Intern(ref: nat, x: Inode, ghost parse: Parse<Inode>) returns (id: nat)
      requires Holds(parse) && parse(ref) == Ok(x)
      modifies this
      ensures Holds(parse) && old(nodes) <= nodes && old(refs) <= refs
      ensures id < |nodes| && nodes[id] == x && ref in byRef && byRef[ref] == id
      ensures ref in old(byRef) ==> nodes == old(nodes) && byRef == old(byRef)
    {
      if ref in byRef {
        id := byRef[ref];
        assert refs[id] == ref;
        return;
      }
      AgreesGrows(parse, nodes, byRef, refs, ref, x);
      id := |nodes|;
      nodes := nodes + [x];
      byRef := byRef[ref := id];
      refs := refs + [ref];
    }

    /** An entry handed out names the inode its reference names. */
    ghost predicate Answers(parse: Parse<Inode>, e: DirEntry, c: Child)
      reads this
    {
      e.name == c.name && e.node < |nodes| && parse(c.ref) == Ok(nodes[e.node]) && e.kind == nodes[e.node].kind
      && c.ref in byRef && byRef[c.ref] == e.node
    }

    /** It names the node of its child's reference; more nodes do not change that. */
    ghost predicate Names(e: DirEntry, c: Child)
      reads this
    {
      e.name == c.name && e.node < |nodes| == |refs| && refs[e.node] == c.ref && e.kind == nodes[e.node].kind
    }

    lemma {:induction false} NamesAnswer(parse: Parse<Inode>, es: seq<DirEntry>, cs: seq<Child>)
      requires Holds(parse) && |es| == |cs| && forall i :: 0 <= i < |cs| ==> Names(es[i], cs[i])
      ensures forall i :: 0 <= i < |cs| ==> Answers(parse, es[i], cs[i])
    {
    }

    /** The loop of `read_dir`. */
    method InternChildren(cs: seq<Child>, ghost parse: Parse<Inode>) returns (r: Result<seq<DirEntry>>)
      requires vol.bs > 0 && Holds(parse) && forall ref: nat {:trigger InodeAt(vol, ref)} :: parse(ref) == InodeAt(vol, ref)
      modifies this
      ensures Holds(parse) && old(nodes) <= nodes && old(refs) <= refs
      ensures r.Ok? ==> |r.value| == |cs| && forall i :: 0 <= i < |cs| ==> Answers(parse, r.value[i], cs[i])
      ensures r.Err? ==> FirstFailure(parse, cs, r.error)
      ensures (forall i :: 0 <= i < |cs| ==> cs[i].ref in old(byRef)) ==> nodes == old(nodes) && byRef == old(byRef)
    {
      var out: seq<DirEntry> := [];
      for k := 0 to |cs|
        invariant Holds(parse) && old(nodes) <= nodes && old(refs) <= refs
        invariant |out| == k && forall i :: 0 <= i < k ==> Names(out[i], cs[i])
        invariant forall i :: 0 <= i < k ==> parse(cs[i].ref).Ok?
        invariant (forall i :: 0 <= i < k ==> cs[i].ref in old(byRef)) ==> nodes == old(nodes) && byRef == old(byRef)
      {
        var child := ParseInode(vol, cs[k].ref);
        assert child == parse(cs[k].ref);
        if child.Err? { return Err(child.error); }
        var id := Intern(cs[k].ref, child.value, parse);
        out := out + [DirEntry(cs[k].name, id, child.value.kind)];
      }
      NamesAnswer(parse, out, cs);
      r := Ok(out);
    }

    /** `read_dir`: one entry per child, in order; listing again adds no node. */
    method ReadDir(node: nat) returns (r: Result<seq<DirEntry>>)
      requires Valid()
      modifies this
      ensures Valid() && old(nodes) <= nodes && old(refs) <= refs
      ensures node >= |old(nodes)| ==> r == Err(NotFound)
      ensures node < |old(nodes)| && !nodes[node].body.Dir? ==> r == Err(NotDirectory)
      ensures node < |old(nodes)| && nodes[node].body.Dir? ==>
                var cs := ChildrenOf(vol, nodes[node].body);
                && (cs.Err? ==> r == Err(cs.error) && nodes == old(nodes))
                && (cs.Ok? ==>
                      && (r.Ok? ==> |r.value| == |cs.value| && forall i :: 0 <= i < |cs.value| ==> Answers(Parser(vol), r.value[i], cs.value[i]))
                      && (r.Err? ==> FirstFailure(Parser(vol), cs.value, r.error))
                      && ((forall i :: 0 <= i < |cs.value| ==> cs.value[i].ref in old(byRef)) ==> nodes == old(nodes) && byRef == old(byRef)))
    {
      if node >= |nodes| { return Err(NotFound); }
      var d := nodes[node].body;
      if !d.Dir? { return Err(NotDirectory); }
      var listing := ReadMetaSpan(vol.m, d.block, d.offset, Max(0, d.listed - 3));
      if listing.Err? { return Err(listing.error); }
      var cs := ParseListing(listing.value);
      if cs.Err? { return Err(cs.error); }
      r := InternChildren(cs.value, Parser(vol));
    }

    /** `lookup`: the node of the first child of that name, if the listing has one. */
    method Lookup(dir: nat, name: Name) returns (r: Result<Option<nat>>)
      requires Valid()
      modifies this
      ensures Valid() && old(nodes) <= nodes
      ensures dir >= |old(nodes)| ==> r == Err(NotFound)
      ensures dir < |old(nodes)| && !nodes[dir].body.Dir? ==> r == Err(NotDirectory)
      ensures dir < |old(nodes)| && nodes[dir].body.Dir? && ChildrenOf(vol, nodes[dir].body).Err? ==> r == Err(ChildrenOf(vol, nodes[dir].body).error)
      ensures dir < |old(nodes)| && nodes[dir].body.Dir? && ChildrenOf(vol, nodes[dir].body).Ok? && r.Err? ==>
                FirstFailure(Parser(vol), ChildrenOf(vol, nodes[dir].body).value, r.error)
      ensures dir < |old(nodes)| && nodes[dir].body.Dir? && r.Ok? ==>
                && ChildrenOf(vol, nodes[dir].body).Ok?
                && (forall i :: 0 <= i < |ChildrenOf(vol, nodes[dir].body).value| ==> Parser(vol)(ChildrenOf(vol, nodes[dir].body).value[i].ref).Ok?)
                && FindsFirst(ChildrenOf(vol, nodes[dir].body).value, name, byRef, r.value)
    {
      var listed := ReadDir(dir);
      if listed.Err? { return Err(listed.error); }
      r := FindName(Parser(vol), listed.value, name, ChildrenOf(vol, nodes[dir].body).value);
    }

    /** The search of `lookup`. */
    method FindName(ghost parse: Parse<Inode>, es: seq<DirEntry>, name: Name, ghost cs: seq<Child>) returns (r: Result<Option<nat>>)
      requires |es| == |cs| && forall i :: 0 <= i < |cs| ==> Answers(parse, es[i], cs[i])
      ensures r.Ok?
      ensures FindsFirst(cs, name, byRef, r.value)
    {
      for k := 0 to |es|
        invariant forall j :: 0 <= j < k ==> cs[j].name != name
      {
        assert Answers(parse, es[k], cs[k]);
        if es[k].name == name {
          assert IsFirst(cs, name, k);
          return Ok(Some(es[k].node));
        }
      }
      r := Ok(None);
    }

    lemma {:induction false} NodesAreSound(id: nat)
      requires Valid() && id < |nodes|
      ensures Sound(vol.bs, nodes[id])
    {
      assert InodeAt(vol, refs[id]) == Parser(vol)(refs[id]) == Ok(nodes[id]);
      InodesAreSound(vol, refs[id]);
    }

    /** `read_at`: a window of the file's blocks, holes and tail, clipped to its size. */
    method ReadAt(node: nat, off: nat, buf: array<byte>) returns (r: Result<nat>)
      requires Valid()
      modifies buf
      ensures Valid() && nodes == old(nodes)
      ensures node >= |nodes| ==> r == Err(NotFound)
      ensures node < |nodes| && !nodes[node].body.File? ==> r == Err(if nodes[node].kind == Directory then IsDirectory else Unsupported)
      ensures node < |nodes| && nodes[node].body.File? ==>
                var x := nodes[node];
                && Sound(vol.bs, x)
                && if off >= x.size then r == Ok(0)
                   else
                     var n := Min(buf.Length, x.size - off);
                     WindowRead(Contents(vol, x), off, n, r, buf[..n]) && (n == 0 ==> r == Ok(0))
      ensures node < |nodes| && r.Ok? ==> forall i :: r.value <= i < buf.Length ==> buf[i] == old(buf[i])
    {
      if node >= |nodes| { return Err(NotFound); }
      var x := nodes[node];
      NodesAreSound(node);
      if !x.body.File? { return Err(if x.kind == Directory then IsDirectory else Unsupported); }
      if off >= x.size { return Ok(0); }
      r := ReadBlocks(vol, x, off, Min(buf.Length, x.size - off), buf, Contents(vol, x));
    }

    /** `read_link`. */
    method ReadLink(node: nat) returns (r: Result<Option<seq<byte>>>)
      requires Valid()
      ensures r == if node >= |nodes| then Err(NotFound) else Ok(if nodes[node].body.Link? then Some(nodes[node].body.target) else None)
    {
      if node >= |nodes| { return Err(NotFound); }
      match nodes[node].body {
        case Link(t) => r := Ok(Some(t));
        case _ => r := Ok(None);
      }
    }
  }
}
