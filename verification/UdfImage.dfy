/** UDF as it is written (`crates/lamfold-udf/src/udf.rs`): file entries of both kinds, data in
    the entry or in extents, and directories; and that a mounted volume reads them back. Every
    field is given by its place, its width and its value. */
module UdfImage {
  import opened Bytes
  import opened Extents
  import opened Frontend
  import opened Parts
  import opened UdfRecords
  import opened UdfVolume
  import opened Windows
  import D = UdfDir

  // ----- file entries -----

  /** A type that is none of a directory's, a regular file's and a symlink's. */
  type Special = n: nat | n < 256 && n != 4 && n != 5 && n != 12

  /** Where the data is: in extents given by short or long descriptors, or in the entry. */
  datatype Body = Short(ads: seq<Ad>) | Long(ads: seq<Ad>) | Embedded(data: seq<byte>)

  /** A file entry, or an extended one; `high` is the rest of the flags, and `attributes` the
      length of what stands between the entry and its descriptors. */
  datatype Written = Written(extended: bool, kind: FileKind, special: Special, high: nat, size: nat, attributes: nat, area: seq<byte>, body: Body)
  {
    function TypeCode(): nat
    {
      match kind
      case Directory => 4
      case Regular => 5
      case Symlink => 12
      case Other => special
    }

    function Form(): nat { match body case Short(_) => 0 case Long(_) => 1 case Embedded(_) => 3 }
  }

  /** The bytes behind the attributes are the descriptors, or the data. */
  ghost predicate AreaSays(w: Written)
  {
    match w.body
    case Short(ads) => AdsOn(w.area, ads, 8)
    case Long(ads) => AdsOn(w.area, ads, 16)
    case Embedded(data) => w.area == data && w.size == |data| <= 0x2000_0000
  }

  /** The block `x` says `w`. */
  ghost predicate Says(x: seq<byte>, w: Written)
  {
    var lengths := if w.extended then 208 else 168;
    && AreaSays(w) && |x| >= lengths + 8
    && Number(x, 0, 2, if w.extended then 266 else 261) && x[27] as int == w.TypeCode() && Number(x, 34, 2, w.Form() + 8 * w.high)
    && Number(x, 56, 8, w.size) && Number(x, lengths, 4, w.attributes) && Number(x, lengths + 4, 4, |w.area|)
    && Lies(x, lengths + 8 + w.attributes, w.area)
  }

  /** What the reader makes of it. */
  function Parsed(v: Volume, w: Written): Inode
  {
    Inode(w.kind, w.size, match w.body
                          case Short(ads) => Recorded(Flat(ExtentsOf(v.part, ads), 0))
                          case Long(ads) => Recorded(Flat(ExtentsOf(v.part, ads), 0))
                          case Embedded(data) => Inline(data))
  }

  lemma {:induction false} FormReads(form: nat, high: nat, flags: nat)
    requires form < 8 && flags == form + 8 * high
    ensures flags % 8 == form
  {
  }

  lemma {:induction false} TypeReads(w: Written, code: byte)
    requires code as int == w.TypeCode()
    ensures KindOf(code) == w.kind
  {
  }

  lemma {:induction false} AreaReads(v: Volume, x: seq<byte>, at: nat, w: Written)
    requires AreaSays(w) && Lies(x, at, w.area)
    ensures DataOf(v, x, w.Form(), at, w.size, |w.area|) == Ok(Parsed(v, w).data)
  {
    match w.body
    case Short(ads) => ExtentsUndoPrint(v.part, w.area, ads, 8);
    case Long(ads) => ExtentsUndoPrint(v.part, w.area, ads, 16);
    case Embedded(_) =>
  }

  lemma {:induction false} FieldsRead(x: seq<byte>, w: Written, lengths: nat)
    requires Says(x, w) && lengths == if w.extended then 208 else 168
    ensures Layout(Le16(x, 0)) == Some(lengths) && Le16(x, 34) % 8 == w.Form() && Le64(x, 56) == w.size
    ensures Le32(x, lengths) == w.attributes && Le32(x, lengths + 4) == |w.area|
  {
    NumberReads(x, 0, 2, if w.extended then 266 else 261);
    NumberReads(x, 34, 2, w.Form() + 8 * w.high);
    FormReads(w.Form(), w.high, Le16(x, 34));
    NumberReads(x, 56, 8, w.size);
    NumberReads(x, lengths, 4, w.attributes);
    NumberReads(x, lengths + 4, 4, |w.area|);
  }

  /** The file entry stands at block `lba`. */
  ghost predicate EntryOn(v: Volume, lba: nat, x: seq<byte>, w: Written)
  {
    |x| == v.bs && Lies(v.src, Room(lba, v.bs), x) && Says(x, w)
  }

  lemma {:induction false} BlockReads(v: Volume, lba: nat, x: seq<byte>)
    requires |x| == v.bs && Lies(v.src, Room(lba, v.bs), x)
    ensures BlockAt(v, lba) == Ok(x)
  {
    RoomIs(lba, v.bs);
  }

  lemma {:induction false} EntryIs(v: Volume, x: seq<byte>, lengths: nat, at: nat, form: nat, size: nat, len: nat, data: FileData)
    requires |x| >= 2 && Layout(Le16(x, 0)) == Some(lengths) && |x| >= lengths + 8
    requires at == lengths + 8 + Le32(x, lengths) && Le16(x, 34) % 8 == form && Le64(x, 56) == size && Le32(x, lengths + 4) == len
    requires DataOf(v, x, form, at, size, len) == Ok(data)
    ensures InodeIn(v, x) == Ok(Inode(KindOf(x[27]), size, data))
  {
  }

  lemma {:induction false} BlockIsEntry(v: Volume, x: seq<byte>, w: Written)
    requires Says(x, w)
    ensures InodeIn(v, x) == Ok(Parsed(v, w))
  {
    var lengths := if w.extended then 208 else 168;
    FieldsRead(x, w, lengths);
    TypeReads(w, x[27]);
    AreaReads(v, x, lengths + 8 + w.attributes, w);
    EntryIs(v, x, lengths, lengths + 8 + w.attributes, w.Form(), w.size, |w.area|, Parsed(v, w).data);
  }

  lemma {:induction false} AtBlock(v: Volume, lba: nat, x: seq<byte>, inode: Inode)
    requires BlockAt(v, lba) == Ok(x) && InodeIn(v, x) == Ok(inode)
    ensures InodeAt(v, lba) == Ok(inode)
  {
  }

  /** A file entry is read back from its block. */
  lemma {:induction false} InodeReadsBack(v: Volume, lba: nat, x: seq<byte>, w: Written)
    requires EntryOn(v, lba, x, w)
    ensures InodeAt(v, lba) == Ok(Parsed(v, w))
  {
    BlockReads(v, lba, x);
    BlockIsEntry(v, x, w);
    AtBlock(v, lba, x, Parsed(v, w));
  }

  // ----- data in extents -----

  /** The descriptor records `part`: bytes in the blocks it names, or zeros. */
  ghost predicate AdHolds(v: Volume, a: Ad, part: seq<byte>)
  {
    && |part| == a.len
    && if a.kind == 0 then v.part + a.block < 0x1_0000_0000 && Lies(v.src, Room(v.part + a.block, v.bs), part) else part == Zeros(|part|)
  }

  ghost predicate AdsHold(v: Volume, ads: seq<Ad>, parts: seq<seq<byte>>)
  {
    |parts| == |ads| && forall k {:trigger AdHolds(v, ads[k], parts[k])} :: 0 <= k < |ads| ==> AdHolds(v, ads[k], parts[k])
  }

  lemma {:induction false} ExtentPlace(part: nat, a: Ad)
    requires a.len > 0 && (a.kind == 0 ==> part + a.block < 0x1_0000_0000)
    ensures ExtentOf(part, a) == [Extent(if a.kind == 0 then Some(part + a.block) else None, a.len)]
  {
  }

  lemma {:induction false} AdByte(v: Volume, a: Ad, part: seq<byte>, rest: seq<Extent>, q: nat)
    requires AdHolds(v, a, part) && part != []
    ensures ExtentByte(v.src, v.bs, ExtentOf(v.part, a) + rest, 0, q)
            == if q < |part| then Some(part[q]) else ExtentByte(v.src, v.bs, rest, 0, q - |part|)
  {
    ExtentPlace(v.part, a);
    FirstByte(v.src, v.bs, Extent(if a.kind == 0 then Some(v.part + a.block) else None, a.len), part, rest, q);
  }

  /** The extents are the parts, one after another. */
  lemma {:induction false} PartsRead(v: Volume, ads: seq<Ad>, parts: seq<seq<byte>>, k: nat, q: nat)
    requires AdsHold(v, ads, parts) && q < |Flat(parts, k)|
    ensures ExtentByte(v.src, v.bs, Flat(ExtentsOf(v.part, ads), k), 0, q) == Some(Flat(parts, k)[q])
    decreases |ads| - k
  {
    assert AdHolds(v, ads[k], parts[k]);
    var rest := Flat(ExtentsOf(v.part, ads), k + 1);
    if parts[k] == [] {
      assert [] + rest == rest;
      PartsRead(v, ads, parts, k + 1, q);
    } else {
      AdByte(v, ads[k], parts[k], rest, q);
      if q >= |parts[k]| { PartsRead(v, ads, parts, k + 1, q - |parts[k]|); }
    }
  }

  lemma {:induction false} AdFills(v: Volume, a: Ad, part: seq<byte>, rest: seq<Extent>)
    requires AdHolds(v, a, part)
    ensures Size(ExtentOf(v.part, a) + rest) == |part| + Size(rest)
  {
    if part == [] {
      assert [] + rest == rest;
    } else {
      ExtentPlace(v.part, a);
      StartAfter(ExtentOf(v.part, a)[0], rest, |rest|);
    }
  }

  lemma {:induction false} PartsFill(v: Volume, ads: seq<Ad>, parts: seq<seq<byte>>, k: nat)
    requires AdsHold(v, ads, parts)
    ensures Size(Flat(ExtentsOf(v.part, ads), k)) == |Flat(parts, k)|
    decreases |ads| - k
  {
    if k < |ads| {
      assert AdHolds(v, ads[k], parts[k]);
      PartsFill(v, ads, parts, k + 1);
      AdFills(v, ads[k], parts[k], Flat(ExtentsOf(v.part, ads), k + 1));
    }
  }

  /** The medium holds `data` for the file: its size of what the parts are, end to end. */
  ghost predicate DataOn(v: Volume, w: Written, parts: seq<seq<byte>>, data: seq<byte>)
  {
    && w.size == |data|
    && match w.body
       case Short(ads) => AdsHold(v, ads, parts) && data <= Flat(parts, 0)
       case Long(ads) => AdsHold(v, ads, parts) && data <= Flat(parts, 0)
       case Embedded(held) => data == held
  }

  lemma {:induction false} ExtentsGive(v: Volume, x: Inode, ads: seq<Ad>, parts: seq<seq<byte>>, data: seq<byte>)
    requires x.data == Recorded(Flat(ExtentsOf(v.part, ads), 0)) && x.size == |data| && AdsHold(v, ads, parts) && data <= Flat(parts, 0)
    ensures IsContent(FileContents(v, x), 0, data) && Length(x) == |data|
  {
    PartsFill(v, ads, parts, 0);
    forall q: nat | q < |data|
      ensures DataByte(v, x, q) == Some(data[q])
    {
      PartsRead(v, ads, parts, 0, q);
    }
  }

  /** The content of a written file is its data, all of it. */
  lemma {:induction false} DataReads(v: Volume, x: Inode, w: Written, parts: seq<seq<byte>>, data: seq<byte>)
    requires x == Parsed(v, w) && AreaSays(w) && DataOn(v, w, parts, data)
    ensures IsContent(FileContents(v, x), 0, data) && Length(x) == |data|
  {
    match w.body
    case Short(ads) => ExtentsGive(v, x, ads, parts, data);
    case Long(ads) => ExtentsGive(v, x, ads, parts, data);
    case Embedded(_) =>
  }

  // ----- reading -----

  /** The node is that of a written file entry. */
  ghost predicate NodeOf(fs: Udf, node: nat, lba: nat, x: seq<byte>, w: Written)
    reads fs
  {
    fs.Valid() && node < |fs.nodes| && fs.places[node] == lba && EntryOn(fs.vol, lba, x, w)
  }

  lemma {:induction false} NodeIs(fs: Udf, node: nat, lba: nat, x: seq<byte>, w: Written)
    requires NodeOf(fs, node, lba, x, w)
    ensures fs.nodes[node] == Parsed(fs.vol, w)
  {
    InodeReadsBack(fs.vol, lba, x, w);
    assert Parser(fs.vol)(fs.places[node]) == Ok(fs.nodes[node]);
  }

  lemma {:induction false} NodeHas(fs: Udf, node: nat, lba: nat, x: seq<byte>, w: Written, parts: seq<seq<byte>>, data: seq<byte>)
    requires NodeOf(fs, node, lba, x, w) && DataOn(fs.vol, w, parts, data)
    ensures var ino := fs.nodes[node]; ino.kind == w.kind && IsContent(FileContents(fs.vol, ino), 0, data) && Length(ino) == |data|
  {
    NodeIs(fs, node, lba, x, w);
    DataReads(fs.vol, fs.nodes[node], w, parts, data);
  }

  lemma {:induction false} WindowIsData(v: Volume, x: Inode, data: seq<byte>, off: nat, was: seq<byte>, now: seq<byte>, r: Result<nat>)
    requires IsContent(FileContents(v, x), 0, data) && Length(x) == |data| && |was| == |now|
    requires ReadsWindow(v, x, off, r, now) && (r.Ok? ==> forall i :: r.value <= i < |now| ==> now[i] == was[i])
    ensures Delivered(data, off, was, now, r)
  {
    if off < |data| {
      var n := Min(|was|, |data| - off);
      WindowDelivers(FileContents(v, x), data, off, n, was, now, r);
    }
  }

  /** A written file reads back, any window of it. */
  method ReadBack(fs: Udf, node: nat, ghost lba: nat, ghost x: seq<byte>, ghost w: Written, ghost parts: seq<seq<byte>>, ghost data: seq<byte>,
                  off: nat, buf: array<byte>)
    returns (r: Result<nat>)
    requires NodeOf(fs, node, lba, x, w) && w.kind != Directory && DataOn(fs.vol, w, parts, data)
    modifies buf
    ensures Delivered(data, off, old(buf[..]), buf[..], r)
  {
    NodeHas(fs, node, lba, x, w, parts, data);
    ghost var was := buf[..];
    r := fs.ReadAt(node, off, buf);
    WindowIsData(fs.vol, fs.nodes[node], data, off, was, buf[..], r);
  }

  // ----- directories -----

  lemma {:induction false} WholeReads(v: Volume, x: Inode, data: seq<byte>)
    requires IsContent(FileContents(v, x), 0, data) && Length(x) == |data| <= x.size <= 0x2000_0000 && x.data.Recorded?
    ensures WholeFile(v, x) == Ok(data)
  {
    ContentIsContentOf(FileContents(v, x), 0, data);
  }

  lemma {:induction false} ListingReads(v: Volume, x: Inode, w: Written, parts: seq<seq<byte>>, data: seq<byte>, fs: seq<D.Fid>)
    requires x == Parsed(v, w) && AreaSays(w) && DataOn(v, w, parts, data) && |data| <= 0x2000_0000 && D.Listing(v.decode, data, fs)
    ensures ChildrenOf(v, x) == Ok(Flat(D.Entries(v.part, v.decode, fs), 0))
  {
    DataReads(v, x, w, parts, data);
    if !w.body.Embedded? { WholeReads(v, x, data); }
    D.FidsUndoPrint(v.part, v.decode, data, fs);
  }

  /** A written directory is listed: an entry for every name that is not deleted or the
      parent's, in order, each with the node of the file entry it refers to. */
  method ReadDirBack(fs: Udf, node: nat, ghost lba: nat, ghost x: seq<byte>, ghost w: Written, ghost parts: seq<seq<byte>>, ghost data: seq<byte>,
                     ghost fids: seq<D.Fid>)
    returns (r: Result<seq<DirEntry>>)
    requires NodeOf(fs, node, lba, x, w) && w.kind == Directory && DataOn(fs.vol, w, parts, data)
    requires |data| <= 0x2000_0000 && D.Listing(fs.vol.decode, data, fids)
    modifies fs
    ensures fs.Valid() && old(fs.nodes) <= fs.nodes
    ensures var cs := Flat(D.Entries(fs.vol.part, fs.vol.decode, fids), 0);
            && (r.Ok? ==> |r.value| == |cs| && forall i :: 0 <= i < |cs| ==>
                            && r.value[i].name == cs[i].name && r.value[i].node < |fs.nodes|
                            && InodeAt(fs.vol, cs[i].place) == Ok(fs.nodes[r.value[i].node]))
            && (r.Err? ==> exists i :: 0 <= i < |cs| && InodeAt(fs.vol, cs[i].place) == Err(r.error))
  {
    NodeIs(fs, node, lba, x, w);
    ListingReads(fs.vol, fs.nodes[node], w, parts, data, fids);
    r := fs.ReadDir(node);
    ghost var cs := Flat(D.Entries(fs.vol.part, fs.vol.decode, fids), 0);
    if r.Ok? {
      forall i | 0 <= i < |cs|
        ensures InodeAt(fs.vol, cs[i].place) == Ok(fs.nodes[r.value[i].node])
      {
        assert fs.Answers(Parser(fs.vol), r.value[i], cs[i]);
      }
    } else {
      ghost var i :| 0 <= i < |cs| && Parser(fs.vol)(cs[i].place) == Err(r.error);
      assert InodeAt(fs.vol, cs[i].place) == Err(r.error);
    }
  }
}
