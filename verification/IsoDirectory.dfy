/** Walking an ISO9660 directory (`crates/lamfold-iso/src/iso9660.rs`): records up to the sector
    padding, and the records of a multi-extent file gathered into one entry (sections 9.1 and
    9.1.6 of ECMA-119). */
module IsoDirectory {
  import opened Bytes
  import opened Frontend
  import opened Extents
  import RockRidge

  const FILE_ID: nat := 33
  const MAX_EXTENTS: nat := 4096

  /** A directory record, as far as the walk looks: its identifier, flags, extent, and what
      follows the identifier. */
  datatype Rec = Rec(fi: seq<byte>, flags: byte, lba: nat, len: nat, rest: seq<byte>)
  {
    predicate IsDot() { fi == [0] || fi == [1] }

    predicate IsDir() { flags / 2 % 2 == 1 }

    function Where(): Extent { Extent(Some(lba), len) }

    /** Its fields fit a record with 22 bytes of other fields. */
    predicate Prints() { |fi| + |rest| <= 222 && lba < U32 && len < U32 }

    /** Another record of the same file follows. */
    predicate More() { flags / 0x80 == 1 }
  }

  /** A record's node, keyed by its directory and its place there. */
  datatype Inode = Inode(
    key: (nat, nat), lba: nat, size: nat, extents: seq<Extent>, kind: FileKind,
    target: Option<seq<byte>>, zisofs: Option<(byte, nat)>)

  datatype Found = Found(name: Name, inode: Inode)

  /** How names are read on this volume: Joliet or plain identifiers, and Rock Ridge, when
      there is one, over what follows them. */
  datatype Naming = Naming(decode: (seq<byte>, bool) -> Result<Name>, rock: Option<seq<byte> -> Result<RockRidge.Says>>, suspSkip: nat)

  /** The entry a file's first record gives. */
  function FirstEntry(n: Naming, dirLba: nat, pos: nat, r: Rec): Result<Found>
  {
    var name :- n.decode(r.fi, r.IsDir());
    var kind := if r.IsDir() then Directory else Regular;
    var plain := Inode((dirLba, pos), r.lba, r.len, [r.Where()], kind, None, None);
    if n.rock.None? || |r.rest| < Pad(r) then Ok(Found(name, plain))
    else
      var says :- n.rock.value(SystemUse(n, r));
      Ok(Found(if says.name.Some? then says.name.value else name,
               plain.(kind := if says.target.Some? then Symlink else kind, target := says.target, zisofs := says.zisofs)))
  }

  /** The pad byte after an identifier of even length. */
  function Pad(r: Rec): nat
  {
    if |r.fi| % 2 == 0 then 1 else 0
  }

  function SystemUse(n: Naming, r: Rec): seq<byte>
    requires |r.rest| >= Pad(r)
  {
    var su := r.rest[Pad(r)..];
    if n.suspSkip <= |su| then su[n.suspSkip..] else []
  }

  // ----- the state machine -----

  /** A multi-extent file being gathered: its entry so far and its first identifier. */
  datatype Pending = Pending(found: Found, fi: seq<byte>)

  datatype State = State(out: seq<Found>, pending: Option<Pending>)

  function AddExtent(f: Found, e: Extent): Found
  {
    f.(inode := f.inode.(extents := f.inode.extents + [e], size := f.inode.size + e.len))
  }

  /** One record. */
  function Take(n: Naming, dirLba: nat, s: State, pos: nat, r: Rec): Result<State>
  {
    if r.IsDot() then Ok(s)
    else
      match s.pending
      case Some(p) =>
        if r.IsDir() || r.fi != p.fi then Err(Corrupt)
        else if |p.found.inode.extents| >= MAX_EXTENTS then Err(Corrupt)
        else
          var more := AddExtent(p.found, r.Where());
          if r.More() then Ok(State(s.out, Some(Pending(more, p.fi)))) else Ok(State(s.out + [more], None))
      case None =>
        var first :- FirstEntry(n, dirLba, pos, r);
        if r.More() && !r.IsDir() then Ok(State(s.out, Some(Pending(first, r.fi)))) else Ok(State(s.out + [first], None))
  }

  /** A record in its place. */
  datatype Placed = Placed(pos: nat, rec: Rec)

  /** What a record does to a walk. */
  type Taking = (State, nat, Rec) -> Result<State>

  function TakeIn(n: Naming, dirLba: nat): Taking
  {
    (s: State, pos: nat, r: Rec) => Take(n, dirLba, s, pos, r)
  }

  /** Records `k..` in order. */
  function Gather(take: Taking, s: State, rs: seq<Placed>, k: nat): Result<State>
    decreases |rs| - k
  {
    if k >= |rs| then Ok(s)
    else
      var next :- take(s, rs[k].pos, rs[k].rec);
      Gather(take, next, rs, k + 1)
  }

  // ----- the bytes -----

  /** The record at `pos`, whose length byte is not zero. */
  function ParseRec(buf: seq<byte>, pos: nat): (r: Result<Rec>)
    requires pos < |buf| && buf[pos] != 0
  {
    var len := buf[pos];
    if pos + len > |buf| || len <= 32 then Err(Corrupt)
    else
      var fiLen := buf[pos + 32];
      if FILE_ID + fiLen > len then Err(Corrupt)
      else
        Ok(Rec(buf[pos + FILE_ID..pos + FILE_ID + fiLen], buf[pos + 25],
               Le32(buf, pos + 2), Le32(buf, pos + 10), buf[pos + FILE_ID + fiLen..pos + len]))
  }

  /** The start of the sector after the one `pos` is in. */
  function NextSector(pos: nat, bs: nat): (r: nat)
    requires bs > 0
    ensures r > pos
  {
    DivBounds(pos, bs);
    NextMultiple(pos / bs, bs);
    (pos / bs + 1) * bs
  }

  /** What stands at each place of a buffer. */
  type Parsing = nat -> Result<Rec>

  function RecordsOf(buf: seq<byte>): Parsing
  {
    (pos: nat) => if pos < |buf| && buf[pos] != 0 then ParseRec(buf, pos) else Err(Corrupt)
  }

  /** `for_each_entry`, from `pos` on; `at` is `RecordsOf(buf)`. */
  function WalkFrom(take: Taking, at: Parsing, buf: seq<byte>, bs: nat, s: State, pos: nat): Result<State>
    requires bs > 0
    decreases |buf| - pos
  {
    if pos >= |buf| then Ok(s)
    else if buf[pos] == 0 then WalkFrom(take, at, buf, bs, s, NextSector(pos, bs))
    else
      var rec :- at(pos);
      var next :- take(s, pos, rec);
      WalkFrom(take, at, buf, bs, next, pos + buf[pos])
  }

  lemma {:induction false} WalkSkips(take: Taking, at: Parsing, buf: seq<byte>, bs: nat, s: State, pos: nat)
    requires bs > 0 && pos < |buf| && buf[pos] == 0
    ensures WalkFrom(take, at, buf, bs, s, pos) == WalkFrom(take, at, buf, bs, s, NextSector(pos, bs))
  {
  }

  lemma {:induction false} WalkTakes(take: Taking, at: Parsing, buf: seq<byte>, bs: nat, s: State, pos: nat, rec: Rec)
    requires bs > 0 && pos < |buf| && buf[pos] != 0 && at(pos) == Ok(rec)
    ensures var next := take(s, pos, rec);
            WalkFrom(take, at, buf, bs, s, pos) == if next.Ok? then WalkFrom(take, at, buf, bs, next.value, pos + buf[pos]) else Err(next.error)
  {
  }

  /** All entries of a directory. */
  function Walk(n: Naming, dirLba: nat, buf: seq<byte>, bs: nat): Result<seq<Found>>
    requires bs > 0
  {
    var end :- WalkFrom(TakeIn(n, dirLba), RecordsOf(buf), buf, bs, State([], None), 0);
    if end.pending.Some? then Err(Corrupt) else Ok(end.out)
  }

  /** `rs[k..]` are the records that stand in `buf` from `pos` on; `at` is `RecordsOf(buf)`. */
  ghost predicate Holds(at: Parsing, buf: seq<byte>, bs: nat, pos: nat, rs: seq<Placed>, k: nat)
    requires bs > 0
    decreases |buf| - pos
  {
    if pos >= |buf| then k == |rs|
    else if buf[pos] == 0 then Holds(at, buf, bs, NextSector(pos, bs), rs, k)
    else
      && k < |rs| && rs[k].pos == pos && at(pos) == Ok(rs[k].rec)
      && Holds(at, buf, bs, pos + buf[pos], rs, k + 1)
  }

  /** The walk is the state machine over the records that are there. */
  lemma {:induction false} WalkGathers(take: Taking, at: Parsing, buf: seq<byte>, bs: nat, s: State, pos: nat, rs: seq<Placed>, k: nat)
    requires bs > 0 && Holds(at, buf, bs, pos, rs, k)
    ensures WalkFrom(take, at, buf, bs, s, pos) == Gather(take, s, rs, k)
    decreases |buf| - pos
  {
    if pos < |buf| {
      if buf[pos] == 0 {
        WalkGathers(take, at, buf, bs, s, NextSector(pos, bs), rs, k);
      } else {
        var next := take(s, pos, rs[k].rec);
        if next.Ok? { WalkGathers(take, at, buf, bs, next.value, pos + buf[pos], rs, k + 1); }
      }
    }
  }

  // ----- printed records -----

  /** A record's bytes; `head` are the fields the walk does not look at. */
  function PrintRec(r: Rec, head: seq<byte>): (x: seq<byte>)
    requires |head| == 22 && r.Prints()
    ensures |x| == FILE_ID + |r.fi| + |r.rest|
  {
    [FILE_ID + |r.fi| + |r.rest|, head[0]] + Put32(r.lba) + head[1..5] + Put32(r.len)
    + (head[5..16] + [r.flags] + head[16..22] + [|r.fi|]) + r.fi + r.rest
  }

  lemma {:induction false} FieldOf(buf: seq<byte>, pos: nat, x: seq<byte>, o: nat)
    requires pos + |x| <= |buf| && buf[pos..pos + |x|] == x && o + 4 <= |x|
    ensures Le32(buf, pos + o) == Le32(x, o)
  {
    LeSlice(buf, pos, pos + |x|, o);
  }

  lemma {:induction false} FieldsOfRec(r: Rec, head: seq<byte>, x: seq<byte>)
    requires |head| == 22 && r.Prints() && x == PrintRec(r, head)
    ensures x[0] == |x| && x[25] == r.flags && x[32] == |r.fi|
    ensures x[33..33 + |r.fi|] == r.fi && x[33 + |r.fi|..] == r.rest
    ensures x[2..6] == Put32(r.lba) && x[10..14] == Put32(r.len)
  {
  }

  /** A printed record is read back. */
  lemma {:induction false} ParseUndoesPrint(buf: seq<byte>, pos: nat, r: Rec, head: seq<byte>, x: seq<byte>)
    requires |head| == 22 && r.Prints() && x == PrintRec(r, head)
    requires pos + |x| <= |buf| && buf[pos..pos + |x|] == x
    ensures buf[pos] == |x| && ParseRec(buf, pos) == Ok(r)
  {
    FieldsOfRec(r, head, x);
    FieldOf(buf, pos, x, 2);
    FieldOf(buf, pos, x, 10);
    LeSlice(x, 2, 6, 0);
    LeSlice(x, 10, 14, 0);
    assert buf[pos] == x[0] && buf[pos + 25] == x[25] && buf[pos + 32] == x[32];
    PartOfSlice(buf, pos, pos + |x|, x, 33, 33 + |r.fi|);
    PartOfSlice(buf, pos, pos + |x|, x, 33 + |r.fi|, |x|);
  }

  // ----- files -----

  /** A record's flags as they are written: that it is hidden, a directory, that another record
      of the file follows, and five others. */
  ghost predicate Marked(r: Rec, directory: bool, more: bool)
  {
    exists hidden: nat, other: nat {:trigger Flags(hidden, directory, other, more)} ::
      hidden < 2 && other < 32 && r.flags as int == Flags(hidden, directory, other, more)
  }

  function Flags(hidden: nat, directory: bool, other: nat, more: bool): nat
  {
    hidden + (if directory then 0x02 else 0) + 4 * other + if more then 0x80 else 0
  }

  lemma {:induction false} MarksRead(r: Rec, directory: bool, more: bool)
    requires Marked(r, directory, more)
    ensures r.IsDir() == directory && r.More() == more
  {
    var hidden: nat, other: nat :| hidden < 2 && other < 32 && r.flags as int == Flags(hidden, directory, other, more);
    var d, m := if directory then 1 else 0, if more then 1 else 0;
    DivUnique(r.flags as int, 2, d + 2 * other + 0x40 * m);
  }

  /** The records of one file: one, or several that agree on the identifier, each but the
      last saying that another follows. A directory has one. */
  ghost predicate IsFile(ps: seq<Placed>)
  {
    && 0 < |ps| <= 4096
    && (forall i :: 0 <= i < |ps| ==> ps[i].rec.fi != [0x00] && ps[i].rec.fi != [0x01] && ps[i].rec.fi == ps[0].rec.fi)
    && (IsDirectory(ps) || forall i {:trigger ps[i]} :: 0 <= i < |ps| ==> Marked(ps[i].rec, false, i + 1 < |ps|))
  }

  ghost predicate IsDirectory(ps: seq<Placed>)
  {
    |ps| == 1 && (Marked(ps[0].rec, true, false) || Marked(ps[0].rec, true, true))
  }

  lemma {:induction false} FileMarks(ps: seq<Placed>, i: nat)
    requires IsFile(ps) && !IsDirectory(ps) && i < |ps|
    ensures !ps[i].rec.IsDir() && ps[i].rec.More() == (i + 1 < |ps|)
  {
    MarksRead(ps[i].rec, false, i + 1 < |ps|);
  }

  lemma {:induction false} DirectoryMarks(ps: seq<Placed>)
    requires IsDirectory(ps)
    ensures ps[0].rec.IsDir()
  {
    if Marked(ps[0].rec, true, false) { MarksRead(ps[0].rec, true, false); } else { MarksRead(ps[0].rec, true, true); }
  }

  /** The extents of a file's first `m` records. */
  function ExtentsOf(ps: seq<Placed>, m: nat): (r: seq<Extent>)
    requires m <= |ps|
    ensures |r| == m
  {
    if m == 0 then [] else ExtentsOf(ps, m - 1) + [ps[m - 1].rec.Where()]
  }

  lemma {:induction false} SizeAppend(es: seq<Extent>, e: Extent)
    ensures Size(es + [e]) == Size(es) + e.len
  {
    StartPrefix(es, [e], |es|);
  }

  lemma {:induction false} StartPrefix(es: seq<Extent>, more: seq<Extent>, k: nat)
    requires k <= |es|
    ensures Start(es + more, k) == Start(es, k)
  {
    if k > 0 { StartPrefix(es, more, k - 1); }
  }

  /** A file's entry: named and keyed by its first record, with all extents in order and
      their sum for its size. */
  function EntryUpTo(first: Found, ps: seq<Placed>, m: nat): Found
    requires m <= |ps|
  {
    first.(inode := first.inode.(extents := ExtentsOf(ps, m), size := Size(ExtentsOf(ps, m))))
  }

  lemma {:induction false} OneMoreExtent(first: Found, ps: seq<Placed>, m: nat)
    requires m < |ps|
    ensures AddExtent(EntryUpTo(first, ps, m), ps[m].rec.Where()) == EntryUpTo(first, ps, m + 1)
  {
    SizeAppend(ExtentsOf(ps, m), ps[m].rec.Where());
  }

  lemma {:induction false} FirstIsUpToOne(n: Naming, dirLba: nat, ps: seq<Placed>)
    requires |ps| > 0 && FirstEntry(n, dirLba, ps[0].pos, ps[0].rec).Ok?
    ensures var first := FirstEntry(n, dirLba, ps[0].pos, ps[0].rec).value; first == EntryUpTo(first, ps, 1)
  {
    var es := ExtentsOf(ps, 1);
    assert ExtentsOf(ps, 0) == [] && es == [ps[0].rec.Where()];
    assert Start(es, 0) == 0 && Start(es, 1) == ps[0].rec.len;
  }

  /** The records of a file from the second on go into its pending entry. */
  lemma {:induction false} RestGathers(n: Naming, dirLba: nat, out: seq<Found>, first: Found, ps: seq<Placed>, m: nat)
    requires IsFile(ps) && !IsDirectory(ps) && 0 < m < |ps|
    ensures Gather(TakeIn(n, dirLba), State(out, Some(Pending(EntryUpTo(first, ps, m), ps[0].rec.fi))), ps, m)
            == Ok(State(out + [EntryUpTo(first, ps, |ps|)], None))
    decreases |ps| - m
  {
    OneMoreExtent(first, ps, m);
    FileMarks(ps, m);
    assert !ps[m].rec.IsDot() && ps[m].rec.fi == ps[0].rec.fi;
    if m + 1 < |ps| { RestGathers(n, dirLba, out, first, ps, m + 1); }
  }

  /** A file's records give one entry. */
  lemma {:induction false} FileGathers(n: Naming, dirLba: nat, out: seq<Found>, ps: seq<Placed>)
    requires IsFile(ps) && FirstEntry(n, dirLba, ps[0].pos, ps[0].rec).Ok?
    ensures var first := FirstEntry(n, dirLba, ps[0].pos, ps[0].rec).value;
            Gather(TakeIn(n, dirLba), State(out, None), ps, 0) == Ok(State(out + [EntryUpTo(first, ps, |ps|)], None))
  {
    var first := FirstEntry(n, dirLba, ps[0].pos, ps[0].rec).value;
    FirstIsUpToOne(n, dirLba, ps);
    assert !ps[0].rec.IsDot();
    if IsDirectory(ps) { DirectoryMarks(ps); } else { FileMarks(ps, 0); }
    if |ps| > 1 { RestGathers(n, dirLba, out, first, ps, 1); }
  }

  // ----- whole directories -----

  /** What a well-formed directory is made of. */
  datatype Group = Dot(at: Placed) | File(records: seq<Placed>)
  {
    function Records(): seq<Placed>
    {
      if Dot? then [at] else records
    }

    ghost predicate Valid(n: Naming, dirLba: nat)
    {
      if Dot? then at.rec.fi == [0x00] || at.rec.fi == [0x01]
      else IsFile(records) && FirstEntry(n, dirLba, records[0].pos, records[0].rec).Ok?
    }

    function Entries(n: Naming, dirLba: nat): seq<Found>
    {
      if Dot? || records == [] then []
      else
        var first := FirstEntry(n, dirLba, records[0].pos, records[0].rec);
        if first.Err? then [] else [EntryUpTo(first.value, records, |records|)]
    }
  }

  function EntriesIn(n: Naming, dirLba: nat): Group -> seq<Found>
  {
    (g: Group) => g.Entries(n, dirLba)
  }

  function AllRecords(gs: seq<Group>, k: nat): seq<Placed>
    decreases |gs| - k
  {
    if k >= |gs| then [] else gs[k].Records() + AllRecords(gs, k + 1)
  }

  function AllEntries(give: Group -> seq<Found>, gs: seq<Group>, k: nat): seq<Found>
    decreases |gs| - k
  {
    if k >= |gs| then [] else give(gs[k]) + AllEntries(give, gs, k + 1)
  }

  lemma {:induction false} GatherJoins(take: Taking, s: State, a: seq<Placed>, k: nat, b: seq<Placed>)
    requires k <= |a|
    ensures Gather(take, s, a + b, k)
            == (var mid := Gather(take, s, a, k); if mid.Ok? then Gather(take, mid.value, b, 0) else mid)
    decreases |a| - k
  {
    if k < |a| {
      var next := take(s, a[k].pos, a[k].rec);
      if next.Ok? { GatherJoins(take, next.value, a, k + 1, b); }
    } else {
      GatherAfter(take, s, a, b, 0);
    }
  }

  lemma {:induction false} GatherAfter(take: Taking, s: State, a: seq<Placed>, b: seq<Placed>, k: nat)
    requires k <= |b|
    ensures Gather(take, s, a + b, |a| + k) == Gather(take, s, b, k)
    decreases |b| - k
  {
    if k < |b| {
      var next := take(s, b[k].pos, b[k].rec);
      if next.Ok? { GatherAfter(take, next.value, a, b, k + 1); }
    }
  }

  /** Wherever they come, the records of `g` add `x`. */
  ghost predicate Adds(take: Taking, g: seq<Placed>, x: seq<Found>)
  {
    forall out {:trigger State(out, None)} :: Gather(take, State(out, None), g, 0) == Ok(State(out + x, None))
  }

  lemma {:induction false} GroupAdds(n: Naming, dirLba: nat, g: Group)
    requires g.Valid(n, dirLba)
    ensures Adds(TakeIn(n, dirLba), g.Records(), EntriesIn(n, dirLba)(g))
  {
    forall out
      ensures Gather(TakeIn(n, dirLba), State(out, None), g.Records(), 0) == Ok(State(out + g.Entries(n, dirLba), None))
    {
      if g.Dot? {
        assert out + [] == out;
      } else {
        FileGathers(n, dirLba, out, g.records);
      }
    }
  }

  lemma {:induction false} GroupsGather(take: Taking, give: Group -> seq<Found>, out: seq<Found>, gs: seq<Group>, k: nat)
    requires forall j {:trigger give(gs[j])} :: 0 <= j < |gs| ==> Adds(take, gs[j].Records(), give(gs[j]))
    ensures Gather(take, State(out, None), AllRecords(gs, k), 0) == Ok(State(out + AllEntries(give, gs, k), None))
    decreases |gs| - k
  {
    if k < |gs| {
      GatherJoins(take, State(out, None), gs[k].Records(), 0, AllRecords(gs, k + 1));
      assert Adds(take, gs[k].Records(), give(gs[k]));
      GroupsGather(take, give, out + give(gs[k]), gs, k + 1);
      Associate(out, give(gs[k]), AllEntries(give, gs, k + 1));
    } else {
      assert out + [] == out;
    }
  }

  lemma {:induction false} GroupsAdd(n: Naming, dirLba: nat, take: Taking, give: Group -> seq<Found>, gs: seq<Group>)
    requires take == TakeIn(n, dirLba) && give == EntriesIn(n, dirLba)
    requires forall j :: 0 <= j < |gs| ==> gs[j].Valid(n, dirLba)
    ensures forall j {:trigger give(gs[j])} :: 0 <= j < |gs| ==> Adds(take, gs[j].Records(), give(gs[j]))
  {
    forall j {:trigger give(gs[j])} | 0 <= j < |gs|
      ensures Adds(take, gs[j].Records(), give(gs[j]))
    {
      GroupAdds(n, dirLba, gs[j]);
    }
  }

  lemma {:induction false} WalkOfGroups(take: Taking, at: Parsing, give: Group -> seq<Found>, buf: seq<byte>, bs: nat, gs: seq<Group>)
    requires bs > 0 && Holds(at, buf, bs, 0, AllRecords(gs, 0), 0)
    requires forall j {:trigger give(gs[j])} :: 0 <= j < |gs| ==> Adds(take, gs[j].Records(), give(gs[j]))
    ensures WalkFrom(take, at, buf, bs, State([], None), 0) == Ok(State(AllEntries(give, gs, 0), None))
  {
    WalkGathers(take, at, buf, bs, State([], None), 0, AllRecords(gs, 0), 0);
    GroupsGather(take, give, [], gs, 0);
    assert [] + AllEntries(give, gs, 0) == AllEntries(give, gs, 0);
  }

  /** Walking a well-formed directory, whatever its padding, gives one entry per file, in
      order, of all the file's extents. */
  lemma {:induction false} WalkGivesFiles(n: Naming, dirLba: nat, buf: seq<byte>, bs: nat, gs: seq<Group>)
    requires bs > 0 && Holds(RecordsOf(buf), buf, bs, 0, AllRecords(gs, 0), 0)
    requires forall j :: 0 <= j < |gs| ==> gs[j].Valid(n, dirLba)
    ensures Walk(n, dirLba, buf, bs) == Ok(AllEntries(EntriesIn(n, dirLba), gs, 0))
  {
    GroupsAdd(n, dirLba, TakeIn(n, dirLba), EntriesIn(n, dirLba), gs);
    WalkOfGroups(TakeIn(n, dirLba), RecordsOf(buf), EntriesIn(n, dirLba), buf, bs, gs);
  }

  /** Whatever the directory, an entry's size is the sum of its extents. */
  ghost predicate SizesAdd(s: State)
  {
    && (forall i :: 0 <= i < |s.out| ==> s.out[i].inode.size == Size(s.out[i].inode.extents))
    && (s.pending.Some? ==> s.pending.value.found.inode.size == Size(s.pending.value.found.inode.extents))
  }

  lemma {:induction false} TakeKeepsSizes(n: Naming, dirLba: nat, s: State, pos: nat, r: Rec)
    requires SizesAdd(s) && Take(n, dirLba, s, pos, r).Ok?
    ensures SizesAdd(Take(n, dirLba, s, pos, r).value)
  {
    if s.pending.Some? { SizeAppend(s.pending.value.found.inode.extents, r.Where()); }
    assert Start([r.Where()], 0) == 0 && Start([r.Where()], 1) == r.len;
  }

  /** What every record keeps, the walk keeps. */
  lemma {:induction false} WalkKeeps(take: Taking, at: Parsing, inv: (State, nat) -> bool, buf: seq<byte>, bs: nat, s: State, pos: nat)
    requires bs > 0 && inv(s, pos) && WalkFrom(take, at, buf, bs, s, pos).Ok?
    requires forall s, p: nat, q: nat {:trigger inv(s, p), inv(s, q)} :: inv(s, p) && p <= q ==> inv(s, q)
    requires forall s, p: nat, r, q: nat {:trigger inv(s, p), take(s, p, r), inv(take(s, p, r).value, q)} ::
               inv(s, p) && p < q && take(s, p, r).Ok? ==> inv(take(s, p, r).value, q)
    ensures inv(WalkFrom(take, at, buf, bs, s, pos).value, Max(pos, |buf|))
    decreases |buf| - pos
  {
    if pos >= |buf| {
    } else if buf[pos] == 0 {
      var next := NextSector(pos, bs);
      assert inv(s, next);
      WalkKeeps(take, at, inv, buf, bs, s, next);
      assert inv(WalkFrom(take, at, buf, bs, s, pos).value, Max(next, |buf|));
    } else {
      var next := take(s, pos, at(pos).value);
      assert inv(next.value, pos + buf[pos]);
      WalkKeeps(take, at, inv, buf, bs, next.value, pos + buf[pos]);
    }
  }
}
