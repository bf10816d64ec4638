/** One newc or CRC archive of a chain (`crates/lamfold-cpio/src/cpio.rs`): its records up
    to the trailer, hard links, and what they ask of the tree. */
module CpioArchive {
  import opened Bytes
  import opened CpioRecords
  import opened CpioTree
  import opened Frontend

  // ----- the records -----

  /** What stands at one offset: the trailer, or a record and then the next offset. */
  datatype Step = Last(end: nat) | More(record: Record, next: nat)
  {
    function After(): nat { if Last? then end else next }
  }

  function MagicAt(archive: seq<byte>, pos: nat): Option<bool>
  {
    if pos + 6 > |archive| then None
    else if archive[pos..pos + 6] == CRC_MAGIC then Some(true)
    else if archive[pos..pos + 6] == NEWC_MAGIC then Some(false)
    else None
  }

  function NameOf(archive: seq<byte>, r: Record): seq<byte>
  {
    if r.name.off + r.name.len <= |archive| then archive[r.name.off..r.name.off + r.name.len] else []
  }

  predicate ExtentIn(e: Extent, n: nat)
  {
    e.off + e.len <= n
  }

  function StepAt(archive: seq<byte>, pos: nat): (r: Result<Step>)
    ensures r.Ok? ==> pos < |archive| && r.value.After() > pos
    ensures r.Ok? && r.value.More? ==> ExtentIn(r.value.record.data, |archive|)
  {
    var crc := MagicAt(archive, pos);
    if crc.None? then Err(Corrupt)
    else
      RecordInBounds(archive, pos, crc.value);
      var (record, next) :- ParseRecord(archive, pos, crc.value);
      Ok(if NameOf(archive, record) == TRAILER then Last(next) else More(record, next))
  }

  /** Steps lead forward, inside the archive. */
  ghost predicate Forward(step: nat -> Result<Step>, len: nat)
  {
    forall p: nat {:trigger step(p)} :: step(p).Ok? ==> p < len && step(p).value.After() > p
  }

  /** The first loop of `insert_newc_archive`: records to the trailer, and where it ends. */
  function Scan(step: nat -> Result<Step>, len: nat, pos: nat): Result<(seq<Record>, nat)>
    requires Forward(step, len)
    decreases len - pos
  {
    match step(pos)
    case Err(e) => Err(e)
    case Ok(Last(end)) => Ok(([], end))
    case Ok(More(record, next)) =>
      var (records, end) :- Scan(step, len, next);
      Ok(([record] + records, end))
  }

  function RecordsFrom(archive: seq<byte>, pos: nat): Result<(seq<Record>, nat)>
  {
    Scan((p: nat) => StepAt(archive, p), |archive|, pos)
  }

  lemma {:induction false} ScanInBounds(step: nat -> Result<Step>, len: nat, pos: nat)
    requires Forward(step, len)
    requires forall p: nat {:trigger step(p)} :: step(p).Ok? && step(p).value.More? ==> ExtentIn(step(p).value.record.data, len)
    ensures var r := Scan(step, len, pos);
            r.Ok? ==> r.value.1 > pos && forall k :: 0 <= k < |r.value.0| ==> ExtentIn(r.value.0[k].data, len)
    decreases len - pos
  {
    var st := step(pos);
    if st.Ok? && st.value.More? { ScanInBounds(step, len, st.value.next); }
  }

  lemma {:induction false} RecordsInBounds(archive: seq<byte>, pos: nat)
    ensures var r := RecordsFrom(archive, pos);
            r.Ok? ==> r.value.1 > pos && forall k :: 0 <= k < |r.value.0| ==> ExtentIn(r.value.0[k].data, |archive|)
  {
    ScanInBounds((p: nat) => StepAt(archive, p), |archive|, pos);
  }

  // ----- hard links -----

  function KindOfMode(mode: nat): FileKind
  {
    if TypeBits(mode) == S_IFDIR then Directory
    else if TypeBits(mode) == S_IFREG then Regular
    else if TypeBits(mode) == S_IFLNK then Symlink
    else Other
  }

  predicate IsLink(r: Record)
  {
    TypeBits(r.mode) == S_IFREG && r.nlink > 1
  }

  /** The data of the last link of an inode that has any. */
  function LastLink(records: seq<Record>, id: InodeId): Option<Extent>
  {
    if records == [] then None
    else
      var last := records[|records| - 1];
      if IsLink(last) && last.data.len > 0 && last.inode == id then Some(last.data)
      else LastLink(records[..|records| - 1], id)
  }

  function DataOf(records: seq<Record>, r: Record): Extent
  {
    if IsLink(r) && LastLink(records, r.inode).Some? then LastLink(records, r.inode).value else r.data
  }

  function OpFor(name: seq<byte>, idx: nat, records: seq<Record>, r: Record): Op
  {
    Op(name, Attrs(KindOfMode(r.mode), r.mode % 0x1000, Span(idx, DataOf(records, r).off, DataOf(records, r).len)))
  }

  function OpsOf(archive: seq<byte>, idx: nat, records: seq<Record>): (r: seq<Op>)
    ensures |r| == |records|
  {
    seq(|records|, k requires 0 <= k < |records| => OpFor(NameOf(archive, records[k]), idx, records, records[k]))
  }

  /** Record `k` is the last link of `id` that has data. */
  ghost predicate IsLastLink(records: seq<Record>, id: InodeId, k: nat)
    requires k < |records|
  {
    && IsLink(records[k]) && records[k].inode == id && records[k].data.len > 0
    && forall m :: k < m < |records| && IsLink(records[m]) && records[m].inode == id ==> records[m].data.len == 0
  }

  lemma {:induction false} LastLinkMissed(records: seq<Record>, id: InodeId, i: nat)
    requires i < |records| && IsLink(records[i]) && records[i].inode == id && LastLink(records, id).None?
    ensures records[i].data.len == 0
  {
    if i < |records| - 1 { LastLinkMissed(records[..|records| - 1], id, i); }
  }

  lemma {:induction false} LastLinkFound(records: seq<Record>, id: InodeId) returns (k: nat)
    requires LastLink(records, id).Some?
    ensures k < |records| && IsLastLink(records, id, k) && records[k].data == LastLink(records, id).value
  {
    var n := |records| - 1;
    if IsLink(records[n]) && records[n].data.len > 0 && records[n].inode == id {
      k := n;
    } else {
      k := LastLinkFound(records[..n], id);
    }
  }

  ghost predicate SomeLinkHasData(records: seq<Record>, id: InodeId)
  {
    exists k :: 0 <= k < |records| && IsLink(records[k]) && records[k].inode == id && records[k].data.len > 0
  }

  /** The links of an inode all get the data of the last one that has any; if none has, each
      keeps its own empty extent. */
  lemma {:induction false} LinksShareData(records: seq<Record>, i: nat, j: nat)
    requires i < |records| && j < |records| && IsLink(records[i]) && IsLink(records[j]) && records[i].inode == records[j].inode
    ensures SomeLinkHasData(records, records[i].inode) ==>
              exists k: nat :: k < |records| && IsLastLink(records, records[i].inode, k)
                               && DataOf(records, records[i]) == records[k].data == DataOf(records, records[j])
    ensures !SomeLinkHasData(records, records[i].inode) ==>
              DataOf(records, records[i]) == records[i].data && records[i].data.len == 0
  {
    if LastLink(records, records[i].inode).Some? {
      var k := LastLinkFound(records, records[i].inode);
    } else {
      forall m | 0 <= m < |records| && IsLink(records[m]) && records[m].inode == records[i].inode
        ensures records[m].data.len == 0
      {
        LastLinkMissed(records, records[i].inode, m);
      }
    }
  }

  // ----- what records ask of the tree -----

  /** What a record asks of the tree. */
  datatype Op = Op(path: seq<byte>, attrs: Attrs)

  function Apply(nodes: seq<Node>, op: Op): seq<Node>
  {
    Insert(nodes, op.path, op.attrs)
  }

  /** A tree after some records, `f` being what one of them does. */
  function FoldOps(f: (seq<Node>, Op) -> seq<Node>, nodes: seq<Node>, ops: seq<Op>, n: nat): seq<Node>
    requires n <= |ops|
  {
    if n == 0 then nodes else f(FoldOps(f, nodes, ops, n - 1), ops[n - 1])
  }

  /** Records applied in order. */
  function ApplyAll(nodes: seq<Node>, ops: seq<Op>): seq<Node>
  {
    FoldOps((nodes: seq<Node>, op: Op) => Apply(nodes, op), nodes, ops, |ops|)
  }

  lemma {:induction false} FoldOpsKeeps(f: (seq<Node>, Op) -> seq<Node>, inv: seq<Node> -> bool, nodes: seq<Node>, ops: seq<Op>, n: nat)
    requires n <= |ops| && inv(nodes)
    requires forall t, k {:trigger f(t, ops[k])} :: inv(t) && 0 <= k < |ops| ==> inv(f(t, ops[k]))
    ensures inv(FoldOps(f, nodes, ops, n))
  {
    if n > 0 { FoldOpsKeeps(f, inv, nodes, ops, n - 1); }
  }

  lemma {:induction false} ApplyAllKeepsTree(nodes: seq<Node>, ops: seq<Op>)
    requires Tree(nodes)
    ensures Tree(ApplyAll(nodes, ops))
  {
    var f, inv := (nodes: seq<Node>, op: Op) => Apply(nodes, op), (t: seq<Node>) => Tree(t);
    forall t, k {:trigger f(t, ops[k])} | inv(t) && 0 <= k < |ops|
      ensures inv(f(t, ops[k]))
    {
      InsertRefines(t, ops[k].path, ops[k].attrs);
    }
    FoldOpsKeeps(f, inv, nodes, ops, |ops|);
  }

  predicate NamesAre(utf8: seq<byte> -> bool, ops: seq<Op>)
  {
    forall k :: 0 <= k < |ops| ==> utf8(ops[k].path)
  }

  /** `insert_newc_archive`. */
  function InsertArchive(utf8: seq<byte> -> bool, archive: seq<byte>, idx: nat, nodes: seq<Node>, start: nat): Result<(seq<Node>, nat)>
  {
    var (records, end) :- RecordsFrom(archive, start);
    var ops := OpsOf(archive, idx, records);
    if NamesAre(utf8, ops) then Ok((ApplyAll(nodes, ops), end)) else Err(Unsupported)
  }

  lemma {:induction false} OpSpanIn(records: seq<Record>, r: Record, n: nat)
    requires (forall k :: 0 <= k < |records| ==> ExtentIn(records[k].data, n)) && ExtentIn(r.data, n)
    ensures ExtentIn(DataOf(records, r), n)
  {
    if IsLink(r) && LastLink(records, r.inode).Some? {
      var k := LastLinkFound(records, r.inode);
    }
  }

  lemma {:induction false} ApplyAllKeepsSpans(nodes: seq<Node>, ops: seq<Op>, buffers: seq<seq<byte>>)
    requires SpansIn(nodes, buffers) && |buffers| > 0 && forall k :: 0 <= k < |ops| ==> SpanIn(ops[k].attrs.data, buffers)
    ensures SpansIn(ApplyAll(nodes, ops), buffers)
  {
    var f, inv := (nodes: seq<Node>, op: Op) => Apply(nodes, op), (t: seq<Node>) => SpansIn(t, buffers);
    forall t, k {:trigger f(t, ops[k])} | inv(t) && 0 <= k < |ops|
      ensures inv(f(t, ops[k]))
    {
      InsertKeepsSpans(t, 0, Components(ops[k].path), ops[k].attrs, buffers);
    }
    FoldOpsKeeps(f, inv, nodes, ops, |ops|);
  }

  lemma {:induction false} OpsSpansIn(buffers: seq<seq<byte>>, idx: nat, records: seq<Record>)
    requires idx < |buffers| && forall k :: 0 <= k < |records| ==> ExtentIn(records[k].data, |buffers[idx]|)
    ensures forall k :: 0 <= k < |records| ==> SpanIn(OpsOf(buffers[idx], idx, records)[k].attrs.data, buffers)
  {
    forall k | 0 <= k < |records|
      ensures SpanIn(OpsOf(buffers[idx], idx, records)[k].attrs.data, buffers)
    {
      OpSpanIn(records, records[k], |buffers[idx]|);
    }
  }

  /** A tree whose spans are all inside their buffers. */
  ghost predicate WellFormed(nodes: seq<Node>, buffers: seq<seq<byte>>)
  {
    Tree(nodes) && SpansIn(nodes, buffers)
  }

  /** An archive ends after it starts, keeps the tree a tree, and puts no span outside its
      buffer. */
  lemma {:induction false} ArchiveKeeps(utf8: seq<byte> -> bool, buffers: seq<seq<byte>>, idx: nat, nodes: seq<Node>, start: nat)
    requires idx < |buffers|
    ensures var r := InsertArchive(utf8, buffers[idx], idx, nodes, start);
            r.Ok? ==> r.value.1 > start && (WellFormed(nodes, buffers) ==> WellFormed(r.value.0, buffers))
  {
    var r := RecordsFrom(buffers[idx], start);
    RecordsInBounds(buffers[idx], start);
    if r.Ok? && WellFormed(nodes, buffers) {
      OpsSpansIn(buffers, idx, r.value.0);
      ApplyAllKeepsSpans(nodes, OpsOf(buffers[idx], idx, r.value.0), buffers);
      ApplyAllKeepsTree(nodes, OpsOf(buffers[idx], idx, r.value.0));
    }
  }

  // ----- printed archives -----

  /** A printed record, wherever it comes to stand: its bytes, its name, and the record
      read back from them at an offset; the last one of an archive is the trailer. */
  datatype Shape = Shape(bytes: seq<byte>, name: seq<byte>, record: nat -> Record, last: bool)
  {
    function StepFrom(at: nat): Step
    {
      if last then Last(at + |bytes|) else More(record(at), at + |bytes|)
    }
  }

  function ShapeOf(e: Entry, crc: bool): Shape
  {
    Shape(PrintRecord(e, crc), e.name, (at: nat) => e.RecordAt(at), e.name == TRAILER)
  }

  function Join(xs: seq<Shape>): seq<byte>
  {
    if xs == [] then [] else xs[0].bytes + Join(xs[1..])
  }

  function RecordsAt(xs: seq<Shape>, pos: nat): (r: seq<Record>)
    ensures |r| == |xs|
  {
    if xs == [] then [] else [xs[0].record(pos)] + RecordsAt(xs[1..], pos + |xs[0].bytes|)
  }

  /** What the records of a printed archive at `pos` of buffer `idx` ask for. */
  function ShapeOps(xs: seq<Shape>, idx: nat, pos: nat): (r: seq<Op>)
    ensures |r| == |xs|
  {
    seq(|xs|, k requires 0 <= k < |xs| => OpFor(xs[k].name, idx, RecordsAt(xs, pos), RecordsAt(xs, pos)[k]))
  }

  /** Wherever the bytes of `x` lie aligned, `x` is read back. */
  ghost predicate ReadsBack(x: Shape)
  {
    && |x.bytes| % 4 == 0
    && forall archive, at: nat {:trigger Lies(archive, at, x.bytes)} ::
         at % 4 == 0 && Lies(archive, at, x.bytes) ==>
           && MagicAt(archive, at).Some? && at < |archive| && archive[at] == 0x30
           && StepAt(archive, at) == Ok(x.StepFrom(at)) && NameOf(archive, x.record(at)) == x.name
  }

  lemma {:induction false} MagicPrinted(archive: seq<byte>, pos: nat, crc: bool)
    requires Lies(archive, pos, MagicOf(crc))
    ensures MagicAt(archive, pos) == Some(crc) && archive[pos] == 0x30
  {
    var magic := MagicOf(crc);
    assert archive[pos..pos + 6] == magic;
    assert magic[0] == 0x30 && archive[pos] == archive[pos..pos + 6][0];
  }

  lemma {:induction false} StepPrinted(archive: seq<byte>, at: nat, e: Entry, crc: bool)
    requires at % 4 == 0 && e.Valid(crc) && Lies(archive, at, PrintRecord(e, crc))
    ensures MagicAt(archive, at) == Some(crc) && archive[at] == 0x30
    ensures ParseRecord(archive, at, crc) == Ok((e.RecordAt(at), at + e.Size())) && e.Size() % 4 == 0
    ensures NameOf(archive, e.RecordAt(at)) == e.name
  {
    ParseUndoesPrint(archive, at, e, crc);
    MagicPrinted(archive, at, crc);
    RecordLies(archive, at, e, crc);
  }

  lemma {:induction false} StepOfRecord(archive: seq<byte>, at: nat, crc: bool, r: Record, x: Shape)
    requires MagicAt(archive, at) == Some(crc) && ParseRecord(archive, at, crc) == Ok((r, at + |x.bytes|))
    requires NameOf(archive, r) == x.name && x.last == (x.name == TRAILER) && x.record(at) == r
    ensures StepAt(archive, at) == Ok(x.StepFrom(at))
  {
  }

  lemma {:induction false} ShapeParts(e: Entry, crc: bool, x: Shape, at: nat)
    requires x == ShapeOf(e, crc)
    ensures |x.bytes| == e.Size() && x.record(at) == e.RecordAt(at)
  {
  }

  /** What `StepOfRecord` asks for. */
  ghost predicate Stands(archive: seq<byte>, at: nat, crc: bool, x: Shape, r: Record)
  {
    && MagicAt(archive, at) == Some(crc) && at < |archive| && archive[at] == 0x30
    && ParseRecord(archive, at, crc) == Ok((r, at + |x.bytes|)) && NameOf(archive, r) == x.name
  }

  lemma {:induction false} ShapeStands(archive: seq<byte>, at: nat, e: Entry, crc: bool, x: Shape)
    requires at % 4 == 0 && e.Valid(crc) && Lies(archive, at, x.bytes) && x == ShapeOf(e, crc)
    ensures Stands(archive, at, crc, x, x.record(at))
  {
    StepPrinted(archive, at, e, crc);
    ShapeParts(e, crc, x, at);
  }

  lemma {:induction false} PrintedReadsAt(archive: seq<byte>, at: nat, e: Entry, crc: bool, x: Shape)
    requires at % 4 == 0 && e.Valid(crc) && Lies(archive, at, x.bytes) && x == ShapeOf(e, crc)
    ensures MagicAt(archive, at).Some? && archive[at] == 0x30
    ensures StepAt(archive, at) == Ok(x.StepFrom(at)) && NameOf(archive, x.record(at)) == x.name
  {
    ShapeStands(archive, at, e, crc, x);
    assert x.last == (x.name == TRAILER);
    StepOfRecord(archive, at, crc, x.record(at), x);
  }

  lemma {:induction false} PrintedLength(e: Entry, crc: bool)
    ensures |ShapeOf(e, crc).bytes| % 4 == 0
  {
    Offsets(0, e);
  }

  /** Every valid entry, printed, reads back. */
  lemma {:induction false} PrintedReadsBack(e: Entry, crc: bool, x: Shape)
    requires e.Valid(crc) && x == ShapeOf(e, crc)
    ensures ReadsBack(x)
  {
    PrintedLength(e, crc);
    forall archive, at: nat {:trigger Lies(archive, at, x.bytes)} | at % 4 == 0 && Lies(archive, at, x.bytes)
      ensures && MagicAt(archive, at).Some? && at < |archive| && archive[at] == 0x30
              && StepAt(archive, at) == Ok(x.StepFrom(at)) && NameOf(archive, x.record(at)) == x.name
    {
      PrintedReadsAt(archive, at, e, crc, x);
    }
  }

  /** An archive to print: records that read back, none a trailer, and then a trailer. */
  ghost predicate Printable(utf8: seq<byte> -> bool, xs: seq<Shape>, trailer: Shape)
  {
    && ReadsBack(trailer) && trailer.last
    && forall k :: 0 <= k < |xs| ==> ReadsBack(xs[k]) && !xs[k].last && utf8(xs[k].name)
  }

  /** Wherever `x` lies aligned in this archive, it is the step taken there. */
  ghost predicate StepsOver(archive: seq<byte>, step: nat -> Result<Step>, x: Shape)
  {
    && |x.bytes| % 4 == 0
    && forall at: nat {:trigger Lies(archive, at, x.bytes)} ::
         at % 4 == 0 && Lies(archive, at, x.bytes) ==> step(at) == Ok(x.StepFrom(at)) && NameOf(archive, x.record(at)) == x.name
  }

  lemma {:induction false} ReadingSteps(archive: seq<byte>, step: nat -> Result<Step>, x: Shape)
    requires ReadsBack(x)
    requires forall p: nat {:trigger StepAt(archive, p)} :: step(p) == StepAt(archive, p)
    ensures StepsOver(archive, step, x)
  {
  }

  lemma {:induction false} JoinLies(archive: seq<byte>, pos: nat, xs: seq<Shape>, trailer: Shape)
    requires xs != [] && Lies(archive, pos, Join(xs) + trailer.bytes)
    ensures Lies(archive, pos, xs[0].bytes) && Lies(archive, pos + |xs[0].bytes|, Join(xs[1..]) + trailer.bytes)
  {
    LiesFirst(archive, pos, xs[0].bytes, Join(xs[1..]), trailer.bytes);
  }

  lemma {:induction false} ScanPrinted(archive: seq<byte>, step: nat -> Result<Step>, pos: nat, xs: seq<Shape>, trailer: Shape)
    requires Forward(step, |archive|) && StepsOver(archive, step, trailer) && trailer.last
    requires forall k :: 0 <= k < |xs| ==> StepsOver(archive, step, xs[k]) && !xs[k].last
    requires pos % 4 == 0 && Lies(archive, pos, Join(xs) + trailer.bytes)
    ensures Scan(step, |archive|, pos) == Ok((RecordsAt(xs, pos), pos + |Join(xs)| + |trailer.bytes|))
    ensures forall k :: 0 <= k < |xs| ==> NameOf(archive, RecordsAt(xs, pos)[k]) == xs[k].name
    decreases |xs|
  {
    if xs == [] {
      assert Join(xs) + trailer.bytes == trailer.bytes;
    } else {
      var x, next := xs[0], pos + |xs[0].bytes|;
      JoinLies(archive, pos, xs, trailer);
      assert step(pos) == Ok(More(x.record(pos), next));
      ScanPrinted(archive, step, next, xs[1..], trailer);
      forall k | 0 <= k < |xs|
        ensures NameOf(archive, RecordsAt(xs, pos)[k]) == xs[k].name
      {
        if k > 0 { assert RecordsAt(xs, pos)[k] == RecordsAt(xs[1..], next)[k - 1]; }
      }
    }
  }

  lemma {:induction false} FirstIsMagic(utf8: seq<byte> -> bool, archive: seq<byte>, pos: nat, xs: seq<Shape>, trailer: Shape)
    requires Printable(utf8, xs, trailer)
    requires pos % 4 == 0 && Lies(archive, pos, Join(xs) + trailer.bytes)
    ensures MagicAt(archive, pos).Some? && pos < |archive| && archive[pos] == 0x30
  {
    if xs == [] {
      assert Join(xs) + trailer.bytes == trailer.bytes;
      assert Lies(archive, pos, trailer.bytes);
    } else {
      JoinLies(archive, pos, xs, trailer);
    }
  }

  lemma {:induction false} RecordsPrinted(utf8: seq<byte> -> bool, archive: seq<byte>, pos: nat, xs: seq<Shape>, trailer: Shape, end: nat)
    requires Printable(utf8, xs, trailer) && end == pos + |Join(xs)| + |trailer.bytes|
    requires pos % 4 == 0 && Lies(archive, pos, Join(xs) + trailer.bytes)
    ensures Yields(RecordsFrom(archive, pos), RecordsAt(xs, pos), end)
    ensures forall k :: 0 <= k < |xs| ==> NameOf(archive, RecordsAt(xs, pos)[k]) == xs[k].name
  {
    var step := (p: nat) => StepAt(archive, p);
    ReadingSteps(archive, step, trailer);
    forall k | 0 <= k < |xs|
      ensures StepsOver(archive, step, xs[k])
    {
      ReadingSteps(archive, step, xs[k]);
    }
    ScanPrinted(archive, step, pos, xs, trailer);
    assert RecordsFrom(archive, pos) == Scan(step, |archive|, pos);
  }

  lemma {:induction false} ArchiveOf(utf8: seq<byte> -> bool, archive: seq<byte>, idx: nat, nodes: seq<Node>, pos: nat, records: seq<Record>, end: nat, ops: seq<Op>)
    requires Yields(RecordsFrom(archive, pos), records, end) && ops == OpsOf(archive, idx, records) && NamesAre(utf8, ops)
    ensures Yields(InsertArchive(utf8, archive, idx, nodes, pos), ApplyAll(nodes, ops), end)
  {
  }

  /** A printed archive is folded in as its records say, in order. */
  lemma {:induction false} ArchivePrinted(utf8: seq<byte> -> bool, archive: seq<byte>, idx: nat, nodes: seq<Node>, pos: nat, xs: seq<Shape>, trailer: Shape,
                       bytes: seq<byte>)
    requires Printable(utf8, xs, trailer) && bytes == Join(xs) + trailer.bytes
    requires pos % 4 == 0 && Lies(archive, pos, bytes)
    ensures Yields(InsertArchive(utf8, archive, idx, nodes, pos), ApplyAll(nodes, ShapeOps(xs, idx, pos)), pos + |bytes|)
  {
    RecordsPrinted(utf8, archive, pos, xs, trailer, pos + |bytes|);
    assert OpsOf(archive, idx, RecordsAt(xs, pos)) == ShapeOps(xs, idx, pos);
    ArchiveOf(utf8, archive, idx, nodes, pos, RecordsAt(xs, pos), pos + |bytes|, ShapeOps(xs, idx, pos));
  }
}
