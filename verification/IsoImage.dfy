/** ISO9660 as it is written (`crates/lamfold-iso/src/iso9660.rs`): what a directory record with
    its system use area says, directories in their sectors, and files in their extents; and that
    a mounted volume reads them back. */
module IsoImage {
  import opened Bytes
  import opened Extents
  import opened Frontend
  import opened IsoDirectory
  import opened IsoSectors
  import opened IsoVolume
  import opened Parts
  import opened Windows
  import RockRidge

  // ----- entries -----

  /** The entry of a record without Rock Ridge: its name, key and extent, and its kind. */
  lemma {:induction false} PlainEntry(n: Naming, dirLba: nat, pos: nat, r: Rec, directory: bool, more: bool, name: Name)
    requires n.rock.None? && Marked(r, directory, more) && n.decode(r.fi, directory) == Ok(name)
    ensures FirstEntry(n, dirLba, pos, r)
            == Ok(Found(name, Inode((dirLba, pos), r.lba, r.len, [Extent(Some(r.lba), r.len)], if directory then Directory else Regular, None, None)))
  {
    MarksRead(r, directory, more);
  }

  /** What follows the identifier: a pad byte if that has an even length, what the volume says
      to skip, and the system use area. */
  ghost predicate RestSays(n: Naming, r: Rec, pad: seq<byte>, skipped: seq<byte>, su: seq<byte>)
  {
    && r.rest == pad + skipped + su && |skipped| == n.suspSkip
    && |pad| == if |r.fi| % 2 == 0 then 1 else 0
  }

  lemma {:induction false} RestReads(n: Naming, r: Rec, pad: seq<byte>, skipped: seq<byte>, su: seq<byte>)
    requires RestSays(n, r, pad, skipped, su)
    ensures Pad(r) <= |r.rest| && SystemUse(n, r) == su
  {
    assert r.rest[|pad|..] == skipped + su;
    assert (skipped + su)[|skipped|..] == su;
  }

  /** With Rock Ridge, its name, link target and compression, where it has them, take the place
      of the record's own. */
  lemma {:induction false} RockEntry(n: Naming, dirLba: nat, pos: nat, r: Rec, directory: bool, more: bool, name: Name,
                                     pad: seq<byte>, skipped: seq<byte>, su: seq<byte>, says: RockRidge.Says)
    requires Marked(r, directory, more) && n.decode(r.fi, directory) == Ok(name) && RestSays(n, r, pad, skipped, su)
    requires n.rock.Some? && n.rock.value(su) == Ok(says)
    ensures FirstEntry(n, dirLba, pos, r)
            == Ok(Found(if says.name.Some? then says.name.value else name,
                        Inode((dirLba, pos), r.lba, r.len, [Extent(Some(r.lba), r.len)],
                              if says.target.Some? then Symlink else if directory then Directory else Regular, says.target, says.zisofs)))
  {
    MarksRead(r, directory, more);
    RestReads(n, r, pad, skipped, su);
  }

  /** The entries of a record, in its own area and a chain of others, carry these items, and
      the link target among them is this path. */
  ghost predicate AreasSay(v: Volume, su: seq<byte>, first: seq<RockRidge.Entry>, pad: seq<byte>, areas: seq<seq<RockRidge.Entry>>,
                           pads: seq<seq<byte>>, ces: seq<RockRidge.Continuation>, items: seq<RockRidge.Item>, absolute: bool, comps: seq<RockRidge.Comp>)
  {
    && RockRidge.Printable(first) && RockRidge.IsPadding(pad) && su == RockRidge.PrintEntries(first, 0) + pad
    && |areas| <= 16 && RockRidge.Chained(v.src, v.bs, areas, pads, ces) && RockRidge.PointTo(first, RockRidge.NextIn(ces, 0))
    && RockRidge.Carries(first + Flat(areas, 0), items) && RockRidge.LinkPieces(items, 0) == RockRidge.PathPieces(absolute, comps)
    && forall j :: 0 <= j < |comps| ==> comps[j].Valid()
  }

  /** What a record says, its entries spread and cut as they may be: the path of its link, its
      name, and how it is compressed. */
  lemma {:induction false} AreasRead(v: Volume, su: seq<byte>, first: seq<RockRidge.Entry>, pad: seq<byte>, areas: seq<seq<RockRidge.Entry>>,
                                     pads: seq<seq<byte>>, ces: seq<RockRidge.Continuation>, items: seq<RockRidge.Item>, absolute: bool, comps: seq<RockRidge.Comp>)
    requires AreasSay(v, su, first, pad, areas, pads, ces, items, absolute, comps)
    ensures var name := RockRidge.NameParts(items, 0);
            SaysOf(v.src, v.bs, v.utf8)(su)
            == Ok(RockRidge.Says(if name != [] && v.utf8(name) then Some(name) else None, RockRidge.LastMode(items, 0, None),
                                 if RockRidge.HasLink(items, 0) then Some(RockRidge.PathText(absolute, comps)) else None,
                                 RockRidge.LastZisofs(items, 0, None)))
  {
    RockRidge.RecordReadsBack(v.src, v.bs, su, first, pad, areas, pads, ces, items, absolute, comps, v.utf8);
  }

  // ----- directories -----

  /** The directory is recorded on the medium, in sectors: its own record, its parent's, and
      those of its files. */
  ghost predicate DirOn(v: Volume, dir: Inode, buf: seq<byte>, sectors: seq<seq<Printable>>, gs: seq<Group>)
    requires v.bs > 0
  {
    && |buf| == dir.size <= 0x2000_0000 && Lies(v.src, Room(dir.lba, v.bs), buf)
    && Recorded(buf, v.bs, sectors) && PlacedInAll(v.bs, sectors, AllRecords(gs, 0))
    && forall j :: 0 <= j < |gs| ==> gs[j].Valid(v.Naming(), dir.lba)
  }

  lemma {:induction false} BytesRead(v: Volume, dir: Inode, buf: seq<byte>)
    requires |buf| == dir.size <= 0x2000_0000 && Lies(v.src, Room(dir.lba, v.bs), buf)
    ensures DirBytes(v, dir) == Ok(buf)
  {
    RoomIs(dir.lba, v.bs);
  }

  lemma {:induction false} DirReads(v: Volume, dir: Inode, buf: seq<byte>, sectors: seq<seq<Printable>>, gs: seq<Group>)
    requires v.bs > 0 && DirOn(v, dir, buf, sectors, gs)
    ensures Entries(v, dir) == Ok(AllEntries(EntriesIn(v.Naming(), dir.lba), gs, 0))
  {
    BytesRead(v, dir, buf);
    WalkUndoesRecording(v.Naming(), dir.lba, buf, v.bs, sectors, gs);
  }

  /** A recorded directory is listed: an entry for every file, in order, each with the node of
      what its records say. */
  method ReadDirBack(fs: Iso9660, node: nat, ghost buf: seq<byte>, ghost sectors: seq<seq<Printable>>, ghost gs: seq<Group>)
    returns (r: Result<seq<DirEntry>>)
    requires fs.Valid() && node < |fs.nodes| && fs.nodes[node].kind == Directory && fs.vol.bs > 0
    requires DirOn(fs.vol, fs.nodes[node], buf, sectors, gs)
    modifies fs
    ensures fs.Valid() && old(fs.nodes) <= fs.nodes
    ensures var es := AllEntries(EntriesIn(fs.vol.Naming(), old(fs.nodes[node].lba)), gs, 0);
            r.Ok? && |r.value| == |es| && forall i :: 0 <= i < |es| ==>
              && r.value[i].name == es[i].name && r.value[i].kind == es[i].inode.kind
              && r.value[i].node < |fs.nodes| && fs.nodes[r.value[i].node] == es[i].inode
  {
    DirReads(fs.vol, fs.nodes[node], buf, sectors, gs);
    ghost var es := AllEntries(EntriesIn(fs.vol.Naming(), fs.nodes[node].lba), gs, 0);
    r := fs.ReadDir(node);
    forall i | 0 <= i < |es|
      ensures r.value[i].name == es[i].name && fs.nodes[r.value[i].node] == es[i].inode
    {
      assert fs.Answers(r.value[i], es[i]);
    }
  }

  // ----- files -----

  /** A file recorded in extents reads back, any window of it. */
  method ReadBack(fs: Iso9660, node: nat, ghost parts: seq<seq<byte>>, off: nat, buf: array<byte>) returns (r: Result<nat>)
    requires fs.Valid() && node < |fs.nodes|
    requires fs.nodes[node].kind != Directory && fs.nodes[node].zisofs.None? && fs.nodes[node].size == |Flat(parts, 0)|
    requires AllRecorded(fs.vol.src, fs.vol.bs, fs.nodes[node].extents, parts)
    modifies buf
    ensures Delivered(Flat(parts, 0), off, old(buf[..]), buf[..], r)
  {
    ghost var x, data, was := fs.nodes[node], Flat(parts, 0), buf[..];
    ContentsRecorded(fs.vol.src, fs.vol.bs, x.extents, parts);
    r := fs.ReadAt(node, off, buf);
    if off < |data| {
      WindowDelivers(Contents(fs.vol.src, fs.vol.bs, x.extents), data, off, Min(|was|, |data| - off), was, buf[..], r);
    }
  }
}
