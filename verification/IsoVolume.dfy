/** The ISO9660 frontend (`crates/lamfold-iso/src/iso9660.rs`): directories walked, nodes
    interned by record, file windows read. */
module IsoVolume {
  import opened Bytes
  import opened Frontend
  import opened Windows
  import opened Extents
  import opened IsoDirectory
  import opened IsoWalks
  import RockRidge

  /** What opening a volume found. */
  datatype Volume = Volume(src: seq<byte>, bs: nat, decode: (seq<byte>, bool) -> Result<Name>, utf8: seq<byte> -> bool, rock: bool, skip: nat)
  {
    function Naming(): Naming
    {
      IsoDirectory.Naming(decode, if rock then Some(SaysOf(src, bs, utf8)) else None, skip)
    }
  }

  /** What the Rock Ridge entries of a record say, over all continuation areas. */
  function SaysOf(src: seq<byte>, bs: nat, utf8: seq<byte> -> bool): seq<byte> -> Result<RockRidge.Says>
  {
    (su: seq<byte>) =>
      var fed := RockRidge.Feed(RockRidge.EMPTY, su);
      match RockRidge.FollowChain(src, bs, fed.info, fed.next, 0)
      case Ok(info) => Ok(RockRidge.Finish(info, utf8))
      case Err(e) => Err(e)
  }

  function DirBytes(v: Volume, dir: Inode): Result<seq<byte>>
  {
    var len :- CheckedFullReadLen(dir.size);
    ReadSource(v.src, dir.lba * v.bs, len)
  }

  /** A directory's entries, read from the medium. */
  function Entries(v: Volume, dir: Inode): Result<seq<Found>>
    requires v.bs > 0
  {
    var buf :- DirBytes(v, dir);
    Walk(v.Naming(), dir.lba, buf, v.bs)
  }

  /** `x` is an entry of `dir`. */
  ghost predicate ListedBy(v: Volume, dir: Inode, x: Inode)
    requires v.bs > 0
  {
    Entries(v, dir).Ok? && exists i :: 0 <= i < |Entries(v, dir).value| && Entries(v, dir).value[i].inode == x
  }

  const ROOT_KEY: (nat, nat) := (U32 - 1, U32 - 1)

  /** An entry's size is the sum of its extents, and its key is not the root's. */
  lemma {:induction false} EntryIsSound(v: Volume, dir: Inode, x: Inode)
    requires v.bs > 0 && ListedBy(v, dir, x)
    ensures x.size == Size(x.extents) && x.key.0 == dir.lba && x.key.1 < MAX_BOOT_FILE_BYTES && x.key != ROOT_KEY
  {
    var buf := DirBytes(v, dir).value;
    WalkAddsSizes(v.Naming(), dir.lba, buf, v.bs);
    WalkIsKeyed(v.Naming(), dir.lba, buf, v.bs);
    var i :| 0 <= i < |Entries(v, dir).value| && Entries(v, dir).value[i].inode == x;
  }

  /** Whichever directories list them, nodes with one key are one node. */
  lemma {:induction false} KeyNamesNode(v: Volume, d: Inode, x: Inode, e: Inode, y: Inode)
    requires v.bs > 0 && ListedBy(v, d, x) && ListedBy(v, e, y) && x.key == y.key
    ensures x == y
  {
    EntryIsSound(v, d, x);
    EntryIsSound(v, e, y);
    var i :| 0 <= i < |Entries(v, d).value| && Entries(v, d).value[i].inode == x;
    var j :| 0 <= j < |Entries(v, e).value| && Entries(v, e).value[j].inode == y;
    if d.size <= e.size {
      KeyNamesEntry(v.Naming(), d.lba, DirBytes(v, d).value, DirBytes(v, e).value, v.bs, i, j);
    } else {
      KeyNamesEntry(v.Naming(), d.lba, DirBytes(v, e).value, DirBytes(v, d).value, v.bs, j, i);
    }
  }

  // ----- the intern table -----

  /** Nodes, and the node of each record. */
  datatype Table = Table(nodes: seq<Inode>, ids: map<(nat, nat), nat>)
  {
    /** Ids and keys are in bijection. */
    ghost predicate Bijective()
    {
      && (forall key :: key in ids ==> ids[key] < |nodes| && nodes[ids[key]].key == key)
      && (forall id :: 0 <= id < |nodes| ==> nodes[id].key in ids && ids[nodes[id].key] == id)
    }

    function Intern(x: Inode): Table
    {
      if x.key in ids then this else Table(nodes + [x], ids[x.key := |nodes|])
    }
  }

  function InternAll(t: Table, fs: seq<Found>, k: nat): Table
    decreases |fs| - k
  {
    if k >= |fs| then t else InternAll(t.Intern(fs[k].inode), fs, k + 1)
  }

  lemma {:induction false} InternKeeps(t: Table, x: Inode)
    requires t.Bijective()
    ensures var u := t.Intern(x);
            && u.Bijective() && t.nodes <= u.nodes && x.key in u.ids
            && forall key :: key in t.ids ==> key in u.ids && u.ids[key] == t.ids[key]
  {
  }

  /** Interning a listing keeps every id, and gives every entry one. */
  lemma {:induction false} InternAllKeeps(t: Table, fs: seq<Found>, k: nat)
    requires t.Bijective()
    ensures var u := InternAll(t, fs, k);
            && u.Bijective() && t.nodes <= u.nodes
            && (forall key :: key in t.ids ==> key in u.ids && u.ids[key] == t.ids[key])
            && forall i :: k <= i < |fs| ==> fs[i].inode.key in u.ids
    decreases |fs| - k
  {
    if k < |fs| {
      InternKeeps(t, fs[k].inode);
      InternAllKeeps(t.Intern(fs[k].inode), fs, k + 1);
    }
  }

  lemma {:induction false} NothingNew(t: Table, fs: seq<Found>, k: nat)
    requires forall i :: k <= i < |fs| ==> fs[i].inode.key in t.ids
    ensures InternAll(t, fs, k) == t
    decreases |fs| - k
  {
    if k < |fs| { NothingNew(t, fs, k + 1); }
  }

  /** Listing a directory again adds no node and changes no id, whatever was interned since. */
  lemma {:induction false} ListingAgainAddsNothing(t: Table, fs: seq<Found>, later: seq<Found>)
    requires t.Bijective()
    ensures var u := InternAll(InternAll(t, fs, 0), later, 0); InternAll(u, fs, 0) == u
  {
    InternAllKeeps(t, fs, 0);
    InternAllKeeps(InternAll(t, fs, 0), later, 0);
    NothingNew(InternAll(InternAll(t, fs, 0), later, 0), fs, 0);
  }

  ghost predicate HasParent(listed: (Inode, Inode) -> bool, nodes: seq<Inode>, id: nat)
    requires id < |nodes|
  {
    exists d :: 0 <= d < id && nodes[d].kind == Directory && listed(nodes[d], nodes[id])
  }

  /** Every node but the root is an entry of a directory found before it. */
  ghost predicate Reached(listed: (Inode, Inode) -> bool, nodes: seq<Inode>)
  {
    forall id {:trigger HasParent(listed, nodes, id)} :: 1 <= id < |nodes| ==> HasParent(listed, nodes, id)
  }

  ghost function Listing(v: Volume): (Inode, Inode) -> bool
    requires v.bs > 0
  {
    (d: Inode, x: Inode) => ListedBy(v, d, x)
  }

  lemma {:induction false} ReachedGrows(listed: (Inode, Inode) -> bool, nodes: seq<Inode>, d: nat, x: Inode)
    requires Reached(listed, nodes) && d < |nodes| && nodes[d].kind == Directory && listed(nodes[d], x)
    ensures Reached(listed, nodes + [x])
  {
    var grown := nodes + [x];
    forall i {:trigger HasParent(listed, grown, i)} | 1 <= i < |grown|
      ensures HasParent(listed, grown, i)
    {
      if i == |nodes| {
        assert grown[d] == nodes[d];
      } else {
        assert HasParent(listed, nodes, i);
        var e :| 0 <= e < i && nodes[e].kind == Directory && listed(nodes[e], nodes[i]);
        assert grown[e] == nodes[e];
      }
    }
  }

  /** Nodes that directories list: one for each key, and none under the root's. */
  ghost predicate OnePerKey(listed: (Inode, Inode) -> bool)
  {
    && (forall d, x, e, y {:trigger listed(d, x), listed(e, y)} :: listed(d, x) && listed(e, y) && x.key == y.key ==> x == y)
    && (forall d, x {:trigger listed(d, x)} :: listed(d, x) ==> x.key != ROOT_KEY)
  }

  lemma {:induction false} ListingIsKeyed(v: Volume)
    requires v.bs > 0
    ensures OnePerKey(Listing(v))
  {
    forall d, x, e, y {:trigger Listing(v)(d, x), Listing(v)(e, y)} | Listing(v)(d, x) && Listing(v)(e, y) && x.key == y.key
      ensures x == y
    {
      KeyNamesNode(v, d, x, e, y);
    }
    forall d, x {:trigger Listing(v)(d, x)} | Listing(v)(d, x)
      ensures x.key != ROOT_KEY
    {
      EntryIsSound(v, d, x);
    }
  }

  lemma {:induction false} AllListed(v: Volume, dir: Inode)
    requires v.bs > 0 && Entries(v, dir).Ok?
    ensures forall i :: 0 <= i < |Entries(v, dir).value| ==> Listing(v)(dir, Entries(v, dir).value[i].inode)
  {
    forall i | 0 <= i < |Entries(v, dir).value|
      ensures Listing(v)(dir, Entries(v, dir).value[i].inode)
    {
      assert ListedBy(v, dir, Entries(v, dir).value[i].inode);
    }
  }

  /** Number `k` is the first that has the name. */
  ghost predicate IsFirst(fs: seq<Found>, name: Name, k: nat)
  {
    k < |fs| && fs[k].name == name && forall j :: 0 <= j < k ==> fs[j].name != name
  }

  datatype DirEntry = DirEntry(name: Name, node: nat, kind: FileKind)

  // ----- the frontend -----

  class Iso9660 {
    const vol: Volume
    var nodes: seq<Inode>
    var byRecord: map<(nat, nat), nat>

    ghost function Interned(): Table
      reads this
    {
      Table(nodes, byRecord)
    }

    /** The root, and nodes that directories list, one for each record. */
    ghost predicate Holds(listed: (Inode, Inode) -> bool)
      reads this
    {
      && |nodes| > 0 && nodes[0].kind == Directory && nodes[0].key == ROOT_KEY
      && Interned().Bijective() && Reached(listed, nodes)
    }

    ghost predicate Valid()
      reads this
    {
      vol.bs > 0 && Holds(Listing(vol))
    }

    /** An opened volume: the root, from its descriptor, is node 0. */
    constructor (v: Volume, lba: nat, size: nat)
      requires v.bs > 0
      ensures Valid() && vol == v
      ensures nodes == [Inode(ROOT_KEY, lba, size, [Extent(Some(lba), size)], Directory, None, None)]
    {
      vol := v;
      nodes := [Inode(ROOT_KEY, lba, size, [Extent(Some(lba), size)], Directory, None, None)];
      byRecord := map[ROOT_KEY := 0];
    }

    /** The entry handed out names the node of the record. */
    ghost predicate Answers(e: DirEntry, f: Found)
      reads this
    {
      e.name == f.name && e.kind == f.inode.kind && e.node < |nodes| && nodes[e.node] == f.inode
    }

    /** A known record's node is what was just read for it. */
    lemma {:induction false} KnownIsSame(d: nat, x: Inode, listed: (Inode, Inode) -> bool)
      requires Holds(listed) && OnePerKey(listed) && d < |nodes| && listed(nodes[d], x) && x.key in byRecord
      ensures nodes[byRecord[x.key]] == x
    {
      var id := byRecord[x.key];
      assert HasParent(listed, nodes, id);
      var e :| 0 <= e < id && nodes[e].kind == Directory && listed(nodes[e], nodes[id]);
    }

    /** `intern`. */
    method Intern(x: Inode, ghost d: nat, ghost listed: (Inode, Inode) -> bool) returns (id: nat)
      requires Holds(listed) && OnePerKey(listed) && d < |nodes| && nodes[d].kind == Directory && listed(nodes[d], x)
      modifies this
      ensures Holds(listed) && Interned() == old(Interned()).Intern(x) && old(nodes) <= nodes
      ensures id < |nodes| && nodes[id] == x
    {
      InternKeeps(Interned(), x);
      if x.key in byRecord {
        KnownIsSame(d, x, listed);
        return byRecord[x.key];
      }
      ReachedGrows(listed, nodes, d, x);
      id := |nodes|;
      nodes := nodes + [x];
      byRecord := byRecord[x.key := id];
    }

    /** The entry a file's first record gives, its Rock Ridge entries parsed. */
    method EntryOf(dirLba: nat, pos: nat, rec: Rec) returns (r: Result<Found>)
      ensures r == FirstEntry(vol.Naming(), dirLba, pos, rec)
    {
      var decoded := vol.decode(rec.fi, rec.IsDir());
      if decoded.Err? { return Err(decoded.error); }
      var name, kind := decoded.value, if rec.IsDir() then Directory else Regular;
      var target, zisofs := None, None;
      if vol.rock && |rec.rest| >= Pad(rec) {
        var says := RockRidge.ParseRockRidge(vol.src, vol.bs, SystemUse(vol.Naming(), rec), vol.utf8);
        if says.Err? { return Err(says.error); }
        if says.value.name.Some? { name := says.value.name.value; }
        if says.value.target.Some? { kind := Symlink; target := says.value.target; }
        zisofs := says.value.zisofs;
      }
      r := Ok(Found(name, Inode((dirLba, pos), rec.lba, rec.len, [rec.Where()], kind, target, zisofs)));
    }

    /** What `for_each_entry` does with one record. */
    method TakeRecord(dirLba: nat, pos: nat, rec: Rec, out: seq<Found>, pending: Option<Pending>) returns (r: Result<State>)
      ensures r == Take(vol.Naming(), dirLba, State(out, pending), pos, rec)
    {
      if rec.IsDot() { return Ok(State(out, pending)); }
      if pending.Some? {
        if rec.IsDir() || rec.fi != pending.value.fi { return Err(Corrupt); }
        if |pending.value.found.inode.extents| >= MAX_EXTENTS { return Err(Corrupt); }
        var found := AddExtent(pending.value.found, rec.Where());
        if rec.More() {
          r := Ok(State(out, Some(Pending(found, pending.value.fi))));
        } else {
          r := Ok(State(out + [found], None));
        }
      } else {
        var first := EntryOf(dirLba, pos, rec);
        if first.Err? { return Err(first.error); }
        if rec.More() && !rec.IsDir() {
          r := Ok(State(out, Some(Pending(first.value, rec.fi))));
        } else {
          r := Ok(State(out + [first.value], None));
        }
      }
    }

    /** `for_each_entry`: the entries, in order. */
    method ForEachEntry(dir: Inode) returns (r: Result<seq<Found>>)
      requires vol.bs > 0
      ensures r == Entries(vol, dir)
    {
      var read := DirBytes(vol, dir);
      if read.Err? { return Err(read.error); }
      var buf := read.value;
      ghost var take, at := TakeIn(vol.Naming(), dir.lba), RecordsOf(buf);
      var pos: nat, out: seq<Found>, pending: Option<Pending> := 0, [], None;
      while pos < |buf|
        invariant WalkFrom(take, at, buf, vol.bs, State(out, pending), pos) == WalkFrom(take, at, buf, vol.bs, State([], None), 0)
        decreases |buf| - pos
      {
        if buf[pos] == 0 {
          WalkSkips(take, at, buf, vol.bs, State(out, pending), pos);
          pos := NextSector(pos, vol.bs);
          continue;
        }
        var parsed := ParseRec(buf, pos);
        if parsed.Err? { return Err(parsed.error); }
        WalkTakes(take, at, buf, vol.bs, State(out, pending), pos, parsed.value);
        var next := TakeRecord(dir.lba, pos, parsed.value, out, pending);
        if next.Err? { return Err(next.error); }
        out, pending := next.value.out, next.value.pending;
        pos := pos + buf[pos];
      }
      r := if pending.Some? then Err(Corrupt) else Ok(out);
    }

    /** The loop of `read_dir` over a listing. */
    method InternListing(fs: seq<Found>, ghost d: nat, ghost listed: (Inode, Inode) -> bool) returns (out: seq<DirEntry>)
      requires Holds(listed) && OnePerKey(listed) && d < |nodes| && nodes[d].kind == Directory
      requires forall i :: 0 <= i < |fs| ==> listed(nodes[d], fs[i].inode)
      modifies this
      ensures Holds(listed) && old(nodes) <= nodes && Interned() == InternAll(old(Interned()), fs, 0)
      ensures |out| == |fs| && forall i :: 0 <= i < |fs| ==> Answers(out[i], fs[i])
    {
      out := [];
      for k := 0 to |fs|
        invariant Holds(listed) && old(nodes) <= nodes
        invariant InternAll(Interned(), fs, k) == InternAll(old(Interned()), fs, 0)
        invariant |out| == k && forall i :: 0 <= i < k ==> Answers(out[i], fs[i])
      {
        assert nodes[d] == old(nodes)[d];
        var id := Intern(fs[k].inode, d, listed);
        out := out + [DirEntry(fs[k].name, id, fs[k].inode.kind)];
      }
    }

    /** `read_dir`: every entry gets a node, and that node is what the record says now. */
    method ReadDir(node: nat) returns (r: Result<seq<DirEntry>>)
      requires Valid()
      modifies this
      ensures Valid() && old(nodes) <= nodes
      ensures node >= |old(nodes)| ==> r == Err(NotFound)
      ensures node < |old(nodes)| && nodes[node].kind != Directory ==> r == Err(NotDirectory)
      ensures node < |old(nodes)| && nodes[node].kind == Directory ==>
                var es := Entries(vol, nodes[node]);
                && (es.Err? ==> r == Err(es.error) && Interned() == old(Interned()))
                && (es.Ok? ==>
                      && Interned() == InternAll(old(Interned()), es.value, 0)
                      && r.Ok? && |r.value| == |es.value|
                      && forall i :: 0 <= i < |es.value| ==> Answers(r.value[i], es.value[i]))
    {
      if node >= |nodes| { return Err(NotFound); }
      var dir := nodes[node];
      if dir.kind != Directory { return Err(NotDirectory); }
      var collected := ForEachEntry(dir);
      if collected.Err? { return Err(collected.error); }
      AllListed(vol, dir);
      ListingIsKeyed(vol);
      var out := InternListing(collected.value, node, Listing(vol));
      r := Ok(out);
    }

    /** `lookup`: the node of the first entry of that name, if the directory has one. */
    method Lookup(dir: nat, name: Name) returns (r: Result<Option<nat>>)
      requires Valid()
      modifies this
      ensures Valid() && old(nodes) <= nodes
      ensures dir >= |old(nodes)| ==> r == Err(NotFound)
      ensures dir < |old(nodes)| && nodes[dir].kind != Directory ==> r == Err(NotDirectory)
      ensures dir < |old(nodes)| && nodes[dir].kind == Directory ==>
                var es := Entries(vol, nodes[dir]);
                && (es.Err? ==> r == Err(es.error) && Interned() == old(Interned()))
                && (es.Ok? ==>
                      && r.Ok?
                      && match r.value
                         case None => Interned() == old(Interned()) && forall j :: 0 <= j < |es.value| ==> es.value[j].name != name
                         case Some(id) =>
                           exists k: nat ::
                             && IsFirst(es.value, name, k) && Interned() == old(Interned()).Intern(es.value[k].inode)
                             && id < |nodes| && nodes[id] == es.value[k].inode)
    {
      if dir >= |nodes| { return Err(NotFound); }
      var inode := nodes[dir];
      if inode.kind != Directory { return Err(NotDirectory); }
      var collected := ForEachEntry(inode);
      if collected.Err? { return Err(collected.error); }
      var fs := collected.value;
      AllListed(vol, inode);
      for k := 0 to |fs|
        invariant Valid() && Interned() == old(Interned())
        invariant forall j :: 0 <= j < k ==> fs[j].name != name
      {
        if fs[k].name == name {
          ListingIsKeyed(vol);
          var id := Intern(fs[k].inode, dir, Listing(vol));
          assert IsFirst(fs, name, k);
          return Ok(Some(id));
        }
      }
      r := Ok(None);
    }

    lemma {:induction false} SizeIsSum(id: nat)
      requires Valid() && 1 <= id < |nodes|
      ensures nodes[id].size == Size(nodes[id].extents)
    {
      assert HasParent(Listing(vol), nodes, id);
      var d :| 0 <= d < id && nodes[d].kind == Directory && Listing(vol)(nodes[d], nodes[id]);
      EntryIsSound(vol, nodes[d], nodes[id]);
    }

    /** `read_at`: a window of the extents laid end to end, clipped to the file's size. */
    method ReadAt(node: nat, off: nat, buf: array<byte>) returns (r: Result<nat>)
      requires Valid()
      modifies buf
      ensures Valid() && nodes == old(nodes)
      ensures node >= |nodes| ==> r == Err(NotFound)
      ensures node < |nodes| && nodes[node].kind == Directory ==> r == Err(IsDirectory)
      ensures node < |nodes| && nodes[node].kind != Directory && nodes[node].zisofs.Some? ==> r == Err(Unsupported)
      ensures node < |nodes| && nodes[node].kind != Directory && nodes[node].zisofs.None? ==>
                var x := nodes[node];
                if off >= x.size then r == Ok(0)
                else
                  var n := Min(buf.Length, x.size - off);
                  WindowRead(Contents(vol.src, vol.bs, x.extents), off, n, r, buf[..n]) && (n == 0 ==> r == Ok(0))
      ensures node < |nodes| && r.Ok? ==> forall i :: r.value <= i < buf.Length ==> buf[i] == old(buf[i])
    {
      if node >= |nodes| { return Err(NotFound); }
      var x := nodes[node];
      if x.kind == Directory { return Err(IsDirectory); }
      if x.zisofs.Some? { return Err(Unsupported); }
      if off >= x.size { return Ok(0); }
      SizeIsSum(node);
      var n := Min(buf.Length, x.size - off);
      r := ReadExtents(vol.src, vol.bs, x.extents, off, n, buf, Contents(vol.src, vol.bs, x.extents));
    }

    /** `read_link`. */
    method ReadLink(node: nat) returns (r: Result<Option<seq<byte>>>)
      requires Valid()
      ensures r == if node < |nodes| then Ok(nodes[node].target) else Err(NotFound)
    {
      r := if node < |nodes| then Ok(nodes[node].target) else Err(NotFound);
    }
  }
}
