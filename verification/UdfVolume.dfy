/** The UDF frontend (`crates/lamfold-udf/src/udf.rs`): file entries read and interned by block,
    directories read whole, file windows read. */
module UdfVolume {
  import opened Bytes
  import opened Frontend
  import opened Windows
  import opened Extents
  import opened Interning
  import opened UdfRecords
  import opened UdfDir

  datatype FileData = Inline(data: seq<byte>) | Recorded(extents: seq<Extent>)

  datatype Inode = Inode(kind: FileKind, size: nat, data: FileData)

  /** What opening a volume found. */
  datatype Volume = Volume(src: seq<byte>, bs: nat, part: nat, decode: DecodeName)

  // ----- file entries -----

  const TAG_FILE_ENTRY: nat := 261
  const TAG_EXTENDED_FILE_ENTRY: nat := 266

  function KindOf(fileType: byte): FileKind
  {
    if fileType == 4 then Directory else if fileType == 5 then Regular else if fileType == 12 then Symlink else Other
  }

  /** `read_block`. */
  function BlockAt(v: Volume, lba: nat): Result<seq<byte>>
  {
    if lba * v.bs + v.bs > |v.src| then Err(Corrupt) else Ok(v.src[lba * v.bs..lba * v.bs + v.bs])
  }

  /** Where the lengths and the allocation descriptors of a file entry are. */
  function Layout(tag: nat): Option<nat>
  {
    if tag == TAG_FILE_ENTRY then Some(168) else if tag == TAG_EXTENDED_FILE_ENTRY then Some(208) else None
  }

  function DataOf(v: Volume, buf: seq<byte>, adType: nat, at: nat, size: nat, len: nat): Result<FileData>
  {
    if adType == 3 then
      var n :- CheckedFullReadLen(size);
      if at + n > |buf| then Err(Corrupt) else Ok(Inline(buf[at..at + n]))
    else if adType <= 1 then
      var es :- ParseExtents(v.part, buf, at, len, if adType == 0 then 8 else 16);
      Ok(Recorded(es))
    else Err(Unsupported)
  }

  /** The inode that a block records. */
  function InodeIn(v: Volume, buf: seq<byte>): Result<Inode>
  {
    if |buf| < 2 || Layout(Le16(buf, 0)).None? then Err(Corrupt)
    else
      var lengths := Layout(Le16(buf, 0)).value;
      if |buf| < lengths + 8 then Err(Corrupt)
      else
        var at := lengths + 8 + Le32(buf, lengths);
        var data :- DataOf(v, buf, Le16(buf, 34) % 8, at, Le64(buf, 56), Le32(buf, lengths + 4));
        Ok(Inode(KindOf(buf[27]), Le64(buf, 56), data))
  }

  /** `read_fe`. */
  function InodeAt(v: Volume, lba: nat): Result<Inode>
  {
    var buf :- BlockAt(v, lba);
    InodeIn(v, buf)
  }

  /** The data location an inode's allocation descriptors give, or the data itself. */
  method ReadData(v: Volume, buf: seq<byte>, adType: nat, at: nat, size: nat, len: nat) returns (r: Result<FileData>)
    ensures r == DataOf(v, buf, adType, at, size, len)
  {
    if adType == 3 {
      var n := CheckedFullReadLen(size);
      if n.Err? { return Err(n.error); }
      if at + n.value > |buf| { return Err(Corrupt); }
      r := Ok(Inline(buf[at..at + n.value]));
    } else if adType == 0 || adType == 1 {
      var es := ReadExtentList(v.part, buf, at, len, if adType == 0 then 8 else 16);
      if es.Err? { return Err(es.error); }
      r := Ok(Recorded(es.value));
    } else {
      r := Err(Unsupported);
    }
  }

  method ReadFileEntry(v: Volume, lba: nat) returns (r: Result<Inode>)
    ensures r == InodeAt(v, lba)
  {
    var block := BlockAt(v, lba);
    if block.Err? { return Err(block.error); }
    var buf := block.value;
    if |buf| < 2 { return Err(Corrupt); }
    var tag := Le16(buf, 0);
    if tag != TAG_FILE_ENTRY && tag != TAG_EXTENDED_FILE_ENTRY { return Err(Corrupt); }
    var lengths := if tag == TAG_FILE_ENTRY then 168 else 208;
    if |buf| < lengths + 8 { return Err(Corrupt); }
    var adType, size := Le16(buf, 34) % 8, Le64(buf, 56);
    var used, len := Le32(buf, lengths), Le32(buf, lengths + 4);
    var at := lengths + 8 + used;
    var data := ReadData(v, buf, adType, at, size, len);
    if data.Err? { return Err(data.error); }
    r := Ok(Inode(KindOf(buf[27]), size, data.value));
  }

  /** What every inode read from the medium is: inline data has its size, and no extent is
      empty. */
  ghost predicate Sound(x: Inode)
  {
    match x.data
    case Inline(d) => |d| == x.size
    case Recorded(es) => NonEmpty(es)
  }

  lemma {:induction false} DataIsSound(v: Volume, buf: seq<byte>, adType: nat, at: nat, size: nat, len: nat)
    requires DataOf(v, buf, adType, at, size, len).Ok?
    ensures match DataOf(v, buf, adType, at, size, len).value
            case Inline(d) => |d| == size
            case Recorded(es) => NonEmpty(es)
  {
    if adType <= 1 {
      ExtentsAreNonEmpty(v.part, buf[at..at + len], if adType == 0 then 8 else 16, 0, []);
    }
  }

  lemma {:induction false} InodesAreSound(v: Volume, lba: nat)
    requires InodeAt(v, lba).Ok?
    ensures Sound(InodeAt(v, lba).value)
  {
    var buf := BlockAt(v, lba).value;
    var lengths := Layout(Le16(buf, 0)).value;
    DataIsSound(v, buf, Le16(buf, 34) % 8, lengths + 8 + Le32(buf, lengths), Le64(buf, 56), Le32(buf, lengths + 4));
  }

  // ----- the bytes of a file -----

  function DataByte(v: Volume, x: Inode, q: nat): Option<byte>
  {
    match x.data
    case Inline(d) => SourceByte(d, q)
    case Recorded(es) => ExtentByte(v.src, v.bs, es, 0, q)
  }

  /** A file's logical content. */
  function FileContents(v: Volume, x: Inode): Content
  {
    (q: nat) => DataByte(v, x, q)
  }

  /** How much of a file there is: its size, or less when its extents are shorter. */
  function Length(x: Inode): nat
  {
    Min(x.size, match x.data case Inline(d) => |d| case Recorded(es) => Size(es))
  }

  /** `read_all`: the simple, whole-file form. */
  ghost function WholeFile(v: Volume, x: Inode): Result<seq<byte>>
  {
    if x.data.Inline? then Ok(x.data.data)
    else if x.size > MAX_BOOT_FILE_BYTES then Err(FileTooLarge)
    else
      match ContentOf(FileContents(v, x), 0, Length(x))
      case Some(all) => Ok(all)
      case None => Err(Io)
  }

  /** One turn of the loop of `read_all`: the next extent's share. */
  method ReadShare(v: Volume, es: seq<Extent>, k: nat, out: seq<byte>, total: nat, ghost at: Content) returns (r: Result<seq<byte>>)
    requires k < |es| && es[k].len > 0 && |out| == Start(es, k) < total && IsContent(at, 0, out)
    requires forall q: nat {:trigger ExtentByte(v.src, v.bs, es, 0, q)} :: at(q) == ExtentByte(v.src, v.bs, es, 0, q)
    ensures r.Ok? ==> |r.value| == Min(total, Start(es, k + 1)) && IsContent(at, 0, r.value)
    ensures r.Err? ==> r.error == Io && Unreadable(at, 0, Min(total, Start(es, k + 1)))
  {
    var take := Min(es[k].len, total - |out|);
    match es[k].lba {
      case Some(lba) =>
        ExtentLies(at, v.src, v.bs, es, k, lba * v.bs, |out|, take);
        RunIsContent(at, v.src, |out|, take, lba * v.bs);
        var chunk := ReadSource(v.src, lba * v.bs, take);
        if chunk.Err? {
          UnreadableInPart(at, 0, |out|, take);
          return Err(chunk.error);
        }
        ContentExtends(at, 0, out, chunk.value);
        r := Ok(out + chunk.value);
      case None =>
        ExtentLies(at, v.src, v.bs, es, k, 0, |out|, take);
        ContentExtends(at, 0, out, Zeros(take));
        r := Ok(out + Zeros(take));
    }
  }

  /** The loop of `read_all`. */
  method ReadShares(v: Volume, es: seq<Extent>, total: nat, ghost at: Content) returns (r: Result<seq<byte>>)
    requires NonEmpty(es)
    requires forall q: nat {:trigger ExtentByte(v.src, v.bs, es, 0, q)} :: at(q) == ExtentByte(v.src, v.bs, es, 0, q)
    ensures r.Ok? ==> |r.value| == Min(total, Size(es)) && IsContent(at, 0, r.value)
    ensures r.Err? ==> r.error == Io && exists n: nat :: n <= Min(total, Size(es)) && Unreadable(at, 0, n)
  {
    var out: seq<byte> := [];
    for k := 0 to |es|
      invariant |out| == Min(total, Start(es, k)) && IsContent(at, 0, out)
    {
      StartMonotone(es, k, |es|);
      if |out| >= total { break; }
      StartMonotone(es, k + 1, |es|);
      var next := ReadShare(v, es, k, out, total, at);
      if next.Err? { return Err(next.error); }
      out := next.value;
    }
    r := Ok(out);
  }

  /** `read_all`. */
  method ReadAll(v: Volume, x: Inode) returns (r: Result<seq<byte>>)
    requires Sound(x)
    ensures r == WholeFile(v, x)
  {
    if x.data.Inline? { return Ok(x.data.data); }
    var cap := CheckedFullReadLen(x.size);
    if cap.Err? { return Err(cap.error); }
    r := ReadShares(v, x.data.extents, x.size, FileContents(v, x));
    if r.Ok? {
      ContentIsContentOf(FileContents(v, x), 0, r.value);
    } else {
      ghost var n: nat :| n <= Min(x.size, Size(x.data.extents)) && Unreadable(FileContents(v, x), 0, n);
      NoWholeFile(v, x, n);
    }
  }

  lemma {:induction false} NoWholeFile(v: Volume, x: Inode, n: nat)
    requires x.data.Recorded? && x.size <= MAX_BOOT_FILE_BYTES && n <= Length(x) && Unreadable(FileContents(v, x), 0, n)
    ensures WholeFile(v, x) == Err(Io)
  {
    UnreadableInPart(FileContents(v, x), 0, n, Length(x) - n);
    UnreadableHasNoContent(FileContents(v, x), 0, Length(x));
  }

  /** A read fills `now` with the window of the file's content that is there. */
  ghost predicate ReadsWindow(v: Volume, x: Inode, off: nat, r: Result<nat>, now: seq<byte>)
  {
    var n := Min(|now|, Max(0, Length(x) - off));
    WindowRead(FileContents(v, x), off, n, r, now[..n]) && (n == 0 ==> r == Ok(0))
  }

  /** It is that window of the whole file, if that can be read. */
  ghost predicate ReadsOfWhole(v: Volume, x: Inode, off: nat, r: Result<nat>, now: seq<byte>)
  {
    WholeFile(v, x).Ok? ==>
      var all := WholeFile(v, x).value;
      var m := Min(|now|, Max(0, |all| - off));
      r == Ok(m) && (off <= |all| ==> now[..m] == all[off..off + m])
  }

  /** A window read is that window of the whole file, cut off where the file ends. */
  lemma {:induction false} WindowOfWhole(v: Volume, x: Inode, off: nat, r: Result<nat>, now: seq<byte>)
    requires Sound(x) && ReadsWindow(v, x, off, r, now)
    ensures ReadsOfWhole(v, x, off, r, now)
  {
    if WholeFile(v, x).Ok? {
      var all, at := WholeFile(v, x).value, FileContents(v, x);
      assert |all| == Length(x) && IsContent(at, 0, all);
      if off < |all| {
        var n := Min(|now|, |all| - off);
        ContentPart(at, 0, all, off, off + n);
        ContentIsReadable(at, off, all[off..off + n]);
        if r.Ok? { ContentIsOne(at, off, now[..n], all[off..off + n]); }
      }
    }
  }

  /** The body of `read_at`. */
  method ReadWindow(v: Volume, x: Inode, off: nat, buf: array<byte>) returns (r: Result<nat>)
    requires Sound(x)
    modifies buf
    ensures ReadsWindow(v, x, off, r, buf[..])
    ensures r.Ok? ==> forall i :: r.value <= i < buf.Length ==> buf[i] == old(buf[i])
  {
    if off >= x.size { return Ok(0); }
    var want := Min(buf.Length, x.size - off);
    match x.data {
      case Inline(d) =>
        var n := Min(want, Max(0, |d| - off));
        CopyInto(d[off..off + n], buf, 0);
        assert buf[..n] == buf[0..n];
        r := Ok(n);
      case Recorded(es) =>
        r := ReadExtents(v.src, v.bs, es, off, want, buf, FileContents(v, x));
    }
  }

  // ----- the frontend -----

  /** The entries of a directory inode. */
  ghost function ChildrenOf(v: Volume, x: Inode): Result<seq<Child>>
  {
    var data :- WholeFile(v, x);
    FidsFrom(v.part, v.decode, data, 0, [])
  }

  datatype DirEntry = DirEntry(name: Name, node: nat, kind: FileKind)

  function Parser(v: Volume): Parse<Inode>
  {
    (lba: nat) => InodeAt(v, lba)
  }

  /** Number `k` is the first that has the name. */
  ghost predicate IsFirst(cs: seq<Child>, name: Name, k: nat)
  {
    k < |cs| && cs[k].name == name && forall j :: 0 <= j < k ==> cs[j].name != name
  }

  /** What a lookup answers: the node of the first child of the name, or that there is none. */
  ghost predicate FindsFirst(cs: seq<Child>, name: Name, ids: map<nat, nat>, answer: Option<nat>)
  {
    match answer
    case None => forall j :: 0 <= j < |cs| ==> cs[j].name != name
    case Some(id) => exists k: nat :: IsFirst(cs, name, k) && cs[k].place in ids && ids[cs[k].place] == id
  }

  /** `e` is what the first child that cannot be parsed fails with. */
  ghost predicate FirstFailure(parse: Parse<Inode>, cs: seq<Child>, e: Error)
  {
    exists i :: 0 <= i < |cs| && parse(cs[i].place) == Err(e) && forall j :: 0 <= j < i ==> parse(cs[j].place).Ok?
  }

  class Udf {
    const vol: Volume
    var nodes: seq<Inode>
    var byLba: map<nat, nat>
    ghost var places: seq<nat>

    /** The nodes are what `parse` gives. */
    ghost predicate Holds(parse: Parse<Inode>)
      reads this
    {
      |nodes| > 0 && Agrees(parse, nodes, byLba, places)
    }

    ghost predicate Valid()
      reads this
    {
      Holds(Parser(vol))
    }

    constructor (v: Volume, rootLba: nat, root: Inode)
      requires InodeAt(v, rootLba) == Ok(root)
      ensures Valid() && vol == v && nodes == [root]
    {
      vol := v;
      nodes := [root];
      byLba := map[rootLba := 0];
      places := [rootLba];
    }

    /** `intern`. */
    method Intern(lba: nat, x: Inode, ghost parse: Parse<Inode>) returns (id: nat)
      requires Holds(parse) && parse(lba) == Ok(x)
      modifies this
      ensures Holds(parse) && old(nodes) <= nodes && old(places) <= places
      ensures id < |nodes| && nodes[id] == x && lba in byLba && byLba[lba] == id
      ensures lba in old(byLba) ==> nodes == old(nodes) && byLba == old(byLba)
    {
      if lba in byLba {
        id := byLba[lba];
        assert places[id] == lba;
        return;
      }
      AgreesGrows(parse, nodes, byLba, places, lba, x);
      id := |nodes|;
      nodes := nodes + [x];
      byLba := byLba[lba := id];
      places := places + [lba];
    }

    /** An entry handed out names the inode its place names. */
    ghost predicate Answers(parse: Parse<Inode>, e: DirEntry, c: Child)
      reads this
    {
      e.name == c.name && e.node < |nodes| && parse(c.place) == Ok(nodes[e.node]) && e.kind == nodes[e.node].kind
      && c.place in byLba && byLba[c.place] == e.node
    }

    /** It names the node of its child's place; more nodes do not change that. */
    ghost predicate Names(e: DirEntry, c: Child)
      reads this
    {
      e.name == c.name && e.node < |nodes| == |places| && places[e.node] == c.place && e.kind == nodes[e.node].kind
    }

    lemma {:induction false} NamesAnswer(parse: Parse<Inode>, es: seq<DirEntry>, cs: seq<Child>)
      requires Holds(parse) && |es| == |cs| && forall i :: 0 <= i < |cs| ==> Names(es[i], cs[i])
      ensures forall i :: 0 <= i < |cs| ==> Answers(parse, es[i], cs[i])
    {
    }

    /** The loop of `read_dir`. */
    method InternChildren(cs: seq<Child>, ghost parse: Parse<Inode>) returns (r: Result<seq<DirEntry>>)
      requires Holds(parse) && forall place: nat {:trigger InodeAt(vol, place)} :: parse(place) == InodeAt(vol, place)
      modifies this
      ensures Holds(parse) && old(nodes) <= nodes && old(places) <= places
      ensures r.Ok? ==> |r.value| == |cs| && forall i :: 0 <= i < |cs| ==> Answers(parse, r.value[i], cs[i])
      ensures r.Err? ==> FirstFailure(parse, cs, r.error)
      ensures (forall i :: 0 <= i < |cs| ==> cs[i].place in old(byLba)) ==> nodes == old(nodes) && byLba == old(byLba)
    {
      var out: seq<DirEntry> := [];
      for k := 0 to |cs|
        invariant Holds(parse) && old(nodes) <= nodes && old(places) <= places
        invariant |out| == k && forall i :: 0 <= i < k ==> Names(out[i], cs[i])
        invariant forall i :: 0 <= i < k ==> parse(cs[i].place).Ok?
        invariant (forall i :: 0 <= i < k ==> cs[i].place in old(byLba)) ==> nodes == old(nodes) && byLba == old(byLba)
      {
        var child := ReadFileEntry(vol, cs[k].place);
        assert child == parse(cs[k].place);
        if child.Err? { return Err(child.error); }
        var id := Intern(cs[k].place, child.value, parse);
        out := out + [DirEntry(cs[k].name, id, child.value.kind)];
      }
      NamesAnswer(parse, out, cs);
      r := Ok(out);
    }

    lemma {:induction false} NodesAreSound(id: nat)
      requires Valid() && id < |nodes|
      ensures Sound(nodes[id])
    {
      assert InodeAt(vol, places[id]) == Parser(vol)(places[id]) == Ok(nodes[id]);
      InodesAreSound(vol, places[id]);
    }

    /** `read_dir`: one entry per identifier kept, in order; listing again adds no node. */
    method ReadDir(node: nat) returns (r: Result<seq<DirEntry>>)
      requires Valid()
      modifies this
      ensures Valid() && old(nodes) <= nodes
      ensures node >= |old(nodes)| ==> r == Err(NotFound)
      ensures node < |old(nodes)| && nodes[node].kind != Directory ==> r == Err(NotDirectory)
      ensures node < |old(nodes)| && nodes[node].kind == Directory ==>
                var cs := ChildrenOf(vol, nodes[node]);
                && (cs.Err? ==> r == Err(cs.error) && nodes == old(nodes))
                && (cs.Ok? ==>
                      && (r.Ok? ==> |r.value| == |cs.value| && forall i :: 0 <= i < |cs.value| ==> Answers(Parser(vol), r.value[i], cs.value[i]))
                      && (r.Err? ==> FirstFailure(Parser(vol), cs.value, r.error))
                      && ((forall i :: 0 <= i < |cs.value| ==> cs.value[i].place in old(byLba)) ==> nodes == old(nodes) && byLba == old(byLba)))
    {
      if node >= |nodes| { return Err(NotFound); }
      var x := nodes[node];
      if x.kind != Directory { return Err(NotDirectory); }
      NodesAreSound(node);
      var data := ReadAll(vol, x);
      if data.Err? { return Err(data.error); }
      var cs := ParseFids(vol.part, vol.decode, data.value);
      if cs.Err? { return Err(cs.error); }
      r := InternChildren(cs.value, Parser(vol));
    }

    /** `lookup`: the node of the first entry of that name, if there is one. */
    method Lookup(dir: nat, name: Name) returns (r: Result<Option<nat>>)
      requires Valid()
      modifies this
      ensures Valid() && old(nodes) <= nodes
      ensures dir >= |old(nodes)| ==> r == Err(NotFound)
      ensures dir < |old(nodes)| && nodes[dir].kind != Directory ==> r == Err(NotDirectory)
      ensures dir < |old(nodes)| && nodes[dir].kind == Directory && ChildrenOf(vol, nodes[dir]).Err? ==> r == Err(ChildrenOf(vol, nodes[dir]).error)
      ensures dir < |old(nodes)| && nodes[dir].kind == Directory && ChildrenOf(vol, nodes[dir]).Ok? && r.Err? ==>
                FirstFailure(Parser(vol), ChildrenOf(vol, nodes[dir]).value, r.error)
      ensures dir < |old(nodes)| && nodes[dir].kind == Directory && r.Ok? ==>
                && ChildrenOf(vol, nodes[dir]).Ok?
                && (forall i :: 0 <= i < |ChildrenOf(vol, nodes[dir]).value| ==> Parser(vol)(ChildrenOf(vol, nodes[dir]).value[i].place).Ok?)
                && FindsFirst(ChildrenOf(vol, nodes[dir]).value, name, byLba, r.value)
    {
      var listed := ReadDir(dir);
      if listed.Err? { return Err(listed.error); }
      r := FindName(Parser(vol), listed.value, name, ChildrenOf(vol, nodes[dir]).value);
    }

    /** The search of `lookup`. */
    method FindName(ghost parse: Parse<Inode>, es: seq<DirEntry>, name: Name, ghost cs: seq<Child>) returns (r: Result<Option<nat>>)
      requires |es| == |cs| && forall i :: 0 <= i < |cs| ==> Answers(parse, es[i], cs[i])
      ensures r.Ok?
      ensures FindsFirst(cs, name, byLba, r.value)
    {
      for k := 0 to |es|
        invariant forall j :: 0 <= j < k ==> cs[j].name != name
      {
        assert Answers(parse, es[k], cs[k]);
        if es[k].name == name {
          assert IsFirst(cs, name, k);
          return Ok(Some(es[k].node));
        }
      }
      r := Ok(None);
    }

    /** `read_at`: exactly the window of what `read_all` gives. */
    method ReadAt(node: nat, off: nat, buf: array<byte>) returns (r: Result<nat>)
      requires Valid()
      modifies buf
      ensures Valid() && nodes == old(nodes)
      ensures node >= |nodes| ==> r == Err(NotFound)
      ensures node < |nodes| && nodes[node].kind == Directory ==> r == Err(IsDirectory)
      ensures node < |nodes| && nodes[node].kind != Directory ==>
                var x := nodes[node];
                Sound(x) && ReadsWindow(vol, x, off, r, buf[..]) && ReadsOfWhole(vol, x, off, r, buf[..])
      ensures r.Ok? ==> forall i :: r.value <= i < buf.Length ==> buf[i] == old(buf[i])
    {
      if node >= |nodes| { return Err(NotFound); }
      var x := nodes[node];
      NodesAreSound(node);
      if x.kind == Directory { return Err(IsDirectory); }
      r := ReadWindow(vol, x, off, buf);
      WindowOfWhole(vol, x, off, r, buf[..]);
    }
  }
}
