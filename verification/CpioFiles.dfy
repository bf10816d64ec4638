/** The files an initramfs is written from, and that unpacking it gives them back: every path
    standing as the last record written for it (`crates/lamfold-cpio/src/cpio.rs`). */
module CpioFiles {
  import opened Bytes
  import opened CpioArchive
  import opened CpioChain
  import opened CpioInitramfs
  import opened CpioRecords
  import opened CpioTree
  import opened CpioVolume
  import opened Frontend

  /** A record in newc or CRC form. */
  datatype Written = Written(entry: Entry, crc: bool)
  {
    function Shape(): Shape { ShapeOf(entry, crc) }

    predicate Linked() { entry.kind == Regular && entry.nlink > 1 }
  }

  function Shapes(ws: seq<Written>): (r: seq<Shape>)
    ensures |r| == |ws|
  {
    seq(|ws|, k requires 0 <= k < |ws| => ws[k].Shape())
  }

  /** The last of the first `n` records that is a link of `id` and has data. */
  function LastWith(ws: seq<Written>, id: InodeId, n: nat): (r: Option<nat>)
    requires n <= |ws|
    ensures r.Some? ==> r.value < n && ws[r.value].Linked() && ws[r.value].entry.inode == id && ws[r.value].entry.data != []
  {
    if n == 0 then None
    else if ws[n - 1].Linked() && ws[n - 1].entry.data != [] && ws[n - 1].entry.inode == id then Some(n - 1)
    else LastWith(ws, id, n - 1)
  }

  /** What record `j` of an archive says: a hard link has its last link's data. */
  function MeaningOf(ws: seq<Written>, j: nat): Meaning
    requires j < |ws|
  {
    var e := ws[j].entry;
    var last := LastWith(ws, e.inode, |ws|);
    Meaning(e.name, e.kind, e.permissions, if ws[j].Linked() && last.Some? then ws[last.value].entry.data else e.data)
  }

  function MeaningsOf(ws: seq<Written>): (r: seq<Meaning>)
    ensures |r| == |ws|
  {
    seq(|ws|, j requires 0 <= j < |ws| => MeaningOf(ws, j))
  }

  /** "TRAILER!!!" */
  const END: seq<byte> := [0x54, 0x52, 0x41, 0x49, 0x4c, 0x45, 0x52, 0x21, 0x21, 0x21]

  /** Zeros, or an archive: files, and a trailer. */
  datatype Item = Blank(n: nat) | Files(records: seq<Written>, trailer: Written)
  {
    /** Every record fits its fields and has a name of its own; the trailer has the trailer's. */
    ghost predicate Valid(utf8: seq<byte> -> bool)
    {
      Files? ==>
        && trailer.entry.Valid(trailer.crc) && trailer.entry.name == END
        && forall k :: 0 <= k < |records| ==>
             records[k].entry.Valid(records[k].crc) && records[k].entry.name != END && utf8(records[k].entry.name)
    }

    function Bytes(): seq<byte>
    {
      if Blank? then Zeros(n) else CpioArchive.Join(Shapes(records)) + PrintRecord(trailer.entry, trailer.crc)
    }
  }

  function PrintOf(item: Item): Print
  {
    match item
    case Blank(n) => Print(Gap(n), (idx: nat, pos: nat) => [], [])
    case Files(ws, _) =>
      Print(Archive(item.Bytes(), PrintedEffect(Shapes(ws))), (idx: nat, pos: nat) => ShapeOps(Shapes(ws), idx, pos), MeaningsOf(ws))
  }

  // ----- records say what was written -----

  /** Where record `m` of a printed archive stands. */
  lemma {:induction false} RecordPlace(archive: seq<byte>, xs: seq<Shape>, tail: seq<byte>, pos: nat, m: nat) returns (p: nat)
    requires m < |xs| && Lies(archive, pos, CpioArchive.Join(xs) + tail)
    ensures RecordsAt(xs, pos)[m] == xs[m].record(p) && Lies(archive, p, xs[m].bytes)
    decreases m
  {
    Associate(xs[0].bytes, CpioArchive.Join(xs[1..]), tail);
    LiesParts(archive, pos, xs[0].bytes, CpioArchive.Join(xs[1..]) + tail);
    if m == 0 {
      p := pos;
    } else {
      p := RecordPlace(archive, xs[1..], tail, pos + |xs[0].bytes|, m - 1);
    }
  }

  /** A record keeps what its file is, its link fields and its data's length wherever it stands, and its data is
      where it says. */
  ghost predicate Keeps(archive: seq<byte>, w: Written, r: Record)
  {
    && KindOfMode(r.mode) == w.entry.kind && r.mode % 0x1000 == w.entry.permissions && (IsLink(r) <==> w.Linked())
    && r.inode == w.entry.inode && r.data.len == |w.entry.data|
    && Lies(archive, r.data.off, w.entry.data)
  }

  lemma {:induction false} KeepsWhereItLies(archive: seq<byte>, w: Written, x: Shape, p: nat)
    requires x == w.Shape() && Lies(archive, p, x.bytes)
    ensures Keeps(archive, w, x.record(p))
  {
    ModeSays(w.entry);
    ShapeParts(w.entry, w.crc, x, p);
    RecordLies(archive, p, w.entry, w.crc);
  }

  lemma {:induction false} RecordKeeps(archive: seq<byte>, ws: seq<Written>, xs: seq<Shape>, tail: seq<byte>, pos: nat, m: nat)
    requires m < |ws| && xs == Shapes(ws) && Lies(archive, pos, CpioArchive.Join(xs) + tail)
    ensures Keeps(archive, ws[m], RecordsAt(xs, pos)[m])
  {
    var p := RecordPlace(archive, xs, tail, pos, m);
    KeepsWhereItLies(archive, ws[m], xs[m], p);
  }

  lemma {:induction false} LastMatches(archive: seq<byte>, ws: seq<Written>, records: seq<Record>, id: InodeId, n: nat)
    requires n <= |ws| == |records| && forall m :: 0 <= m < |ws| ==> Keeps(archive, ws[m], records[m])
    ensures var last := LastWith(ws, id, n);
            LastLink(records[..n], id) == if last.Some? then Some(records[last.value].data) else None
  {
    if n > 0 {
      LastMatches(archive, ws, records, id, n - 1);
      assert records[..n][..n - 1] == records[..n - 1];
      assert Keeps(archive, ws[n - 1], records[n - 1]);
    }
  }

  /** The operation of record `j` is what it says. */
  lemma {:induction false} RecordSaysIt(buffers: seq<seq<byte>>, idx: nat, ws: seq<Written>, records: seq<Record>, j: nat, name: seq<byte>)
    requires idx < |buffers| && j < |ws| == |records| && name == ws[j].entry.name
    requires forall m :: 0 <= m < |ws| ==> Keeps(buffers[idx], ws[m], records[m])
    ensures Says(buffers, OpFor(name, idx, records, records[j]), MeaningOf(ws, j))
  {
    var a, last := buffers[idx], LastWith(ws, ws[j].entry.inode, |ws|);
    LastMatches(a, ws, records, ws[j].entry.inode, |ws|);
    assert records[..|ws|] == records;
    assert Keeps(a, ws[j], records[j]);
    if last.Some? { assert Keeps(a, ws[last.value], records[last.value]); }
  }

  lemma {:induction false} FilesSay(buffers: seq<seq<byte>>, idx: nat, ws: seq<Written>, tail: seq<byte>, pos: nat)
    requires idx < |buffers| && Lies(buffers[idx], pos, CpioArchive.Join(Shapes(ws)) + tail)
    ensures SaysAll(buffers, ShapeOps(Shapes(ws), idx, pos), MeaningsOf(ws))
  {
    var records := RecordsAt(Shapes(ws), pos);
    forall m | 0 <= m < |ws|
      ensures Keeps(buffers[idx], ws[m], records[m])
    {
      RecordKeeps(buffers[idx], ws, Shapes(ws), tail, pos, m);
    }
    forall j | 0 <= j < |ws|
      ensures Says(buffers, ShapeOps(Shapes(ws), idx, pos)[j], MeaningsOf(ws)[j])
    {
      RecordSaysIt(buffers, idx, ws, records, j, Shapes(ws)[j].name);
    }
  }

  lemma {:induction false} ItemFaithful(item: Item, p: Print)
    requires p == PrintOf(item)
    ensures Faithful(p)
  {
    forall buffers, idx: nat, pos: nat {:trigger SaysAll(buffers, p.ops(idx, pos), p.says)} |
      idx < |buffers| && Lies(buffers[idx], pos, p.piece.Bytes())
      ensures SaysAll(buffers, p.ops(idx, pos), p.says)
    {
      if item.Files? { FilesSay(buffers, idx, item.records, PrintRecord(item.trailer.entry, item.trailer.crc), pos); }
    }
  }

  lemma {:induction false} ItemFits(t: Tools, item: Item, pos: nat)
    requires item.Valid(t.utf8) && (item.Files? ==> pos % 4 == 0)
    ensures PrintOf(item).piece.Fits(PartsOf(t), pos)
  {
    if item.Blank? {
      ZerosAreSkipped(t, item.n);
    } else {
      var ws := item.records;
      var es, crcs := seq(|ws|, k requires 0 <= k < |ws| => ws[k].entry), seq(|ws|, k requires 0 <= k < |ws| => ws[k].crc);
      EntriesFit(t, es, crcs, item.trailer.entry, item.trailer.crc, Shapes(ws), item.Bytes(), pos);
    }
  }

  // ----- inputs -----

  function PrintsOf(items: seq<Item>): (r: seq<Print>)
    ensures |r| == |items|
  {
    seq(|items|, k requires 0 <= k < |items| => PrintOf(items[k]))
  }

  /** Archives stand at offsets that are multiples of four. */
  ghost predicate Aligned(ps: seq<Piece>, k: nat, pos: nat)
    decreases |ps| - k
  {
    k < |ps| ==> (ps[k].Archive? ==> pos % 4 == 0) && Aligned(ps, k + 1, pos + |ps[k].Bytes()|)
  }

  ghost predicate AlwaysFits(c: Parts, p: Piece)
  {
    forall pos: nat {:trigger p.Fits(c, pos)} :: (p.Archive? ==> pos % 4 == 0) ==> p.Fits(c, pos)
  }

  lemma {:induction false} AlignedFit(c: Parts, ps: seq<Piece>, k: nat, pos: nat)
    requires (forall i :: 0 <= i < |ps| ==> AlwaysFits(c, ps[i])) && Aligned(ps, k, pos)
    ensures PiecesFit(c, ps, k, pos)
    decreases |ps| - k
  {
    if k < |ps| {
      assert AlwaysFits(c, ps[k]);
      AlignedFit(c, ps, k + 1, pos + |ps[k].Bytes()|);
    }
  }

  lemma {:induction false} ItemsFit(t: Tools, items: seq<Item>, ps: seq<Piece>)
    requires (forall k :: 0 <= k < |items| ==> items[k].Valid(t.utf8)) && ps == Pieces(PrintsOf(items)) && Aligned(ps, 0, 0)
    ensures PiecesFit(PartsOf(t), ps, 0, 0) && forall k :: 0 <= k < |items| ==> Faithful(PrintsOf(items)[k])
  {
    forall k | 0 <= k < |items|
      ensures AlwaysFits(PartsOf(t), ps[k]) && Faithful(PrintsOf(items)[k])
    {
      ItemFaithful(items[k], PrintOf(items[k]));
      forall pos: nat {:trigger ps[k].Fits(PartsOf(t), pos)} | ps[k].Archive? ==> pos % 4 == 0
        ensures ps[k].Fits(PartsOf(t), pos)
      {
        ItemFits(t, items[k], pos);
      }
    }
    AlignedFit(PartsOf(t), ps, 0, 0);
  }

  /** The bytes a compressed stream starts with. */
  function MagicBytes(codec: Codec): seq<byte>
  {
    match codec
    case Gzip => [0x1f, 0x8b]
    case Zstd => [0x28, 0xb5, 0x2f, 0xfd]
    case Xz => [0xfd, 0x37, 0x7a, 0x58, 0x5a, 0x00]
    case Lzma => [0x5d, 0x00, 0x00]
    case Lz4Legacy => [0x02, 0x21, 0x4c, 0x18]
    case Bzip2 => [0x42, 0x5a, 0x68]
    case Lzo => [0x89, 0x4c, 0x5a, 0x4f]
  }

  /** A stream is known by its first bytes, and only by them. */
  lemma {:induction false} SniffedIff(x: seq<byte>, codec: Codec)
    ensures Sniff(x) == Some(codec) <==> MagicBytes(codec) <= x
  {
    if MagicBytes(codec) <= x { assert x[0] == MagicBytes(codec)[0]; }
  }

  /** A stretch of an input: an item, or a compressed member that holds items. */
  datatype Section = Loose(item: Item) | Packed(codec: Codec, packed: seq<byte>, items: seq<Item>)
  {
    ghost predicate Valid(utf8: seq<byte> -> bool)
    {
      if Loose? then item.Valid(utf8) else forall k :: 0 <= k < |items| ==> items[k].Valid(utf8)
    }

    function Stretch(): Stretch
    {
      match this
      case Loose(item) => CpioInitramfs.Loose(PrintOf(item))
      case Packed(codec, packed, items) => CpioInitramfs.Packed(codec, packed, PrintsOf(items))
    }

    function Leg(): Leg { LegOf(Stretch()) }

    /** Where it stands: an archive aligned; a member, which starts with its codec's magic,
        decoding there, within the budget and from its own bytes, to its items, in which
        archives stand aligned too. */
    ghost predicate Stands(t: Tools, x: seq<byte>, pos: nat, budget: nat)
      requires pos <= |x|
    {
      match this
      case Loose(item) => item.Files? ==> pos % 4 == 0
      case Packed(codec, packed, items) =>
        && MagicBytes(codec) <= packed
        && var ps := Pieces(PrintsOf(items));
           && Yields(t.decode(codec, x[pos..], budget), PiecesBytes(ps, 0), |packed|) && |PiecesBytes(ps, 0)| <= budget
           && Aligned(ps, 0, 0)
    }
  }

  function LegsOf(ss: seq<Section>): (r: seq<Leg>)
    ensures |r| == |ss|
  {
    seq(|ss|, k requires 0 <= k < |ss| => ss[k].Leg())
  }

  lemma {:induction false} SectionReads(t: Tools, c: Parts, s: Section, l: Leg, x: seq<byte>, pos: nat, budget: nat)
    requires c == PartsOf(t) && l == s.Leg() && pos <= |x| && s.Valid(t.utf8) && s.Stands(t, x, pos, budget)
    ensures Reads(c, l, x, pos, budget)
  {
    match s {
      case Loose(item) =>
        ItemFaithful(item, PrintOf(item));
        ItemFits(t, item, pos);
      case Packed(codec, packed, items) =>
        SniffedIff(packed, codec);
        ItemsFit(t, items, Pieces(PrintsOf(items)));
    }
    LegReads(c, s.Stretch(), x, pos, budget);
  }

  lemma {:induction false} SectionMoves(s: Section)
    ensures Moves(ApplyOps(), s.Leg())
  {
    match s {
      case Loose(item) => ItemFaithful(item, PrintOf(item));
      case Packed(_, _, items) =>
        forall k | 0 <= k < |items|
          ensures Faithful(PrintsOf(items)[k])
        {
          ItemFaithful(items[k], PrintOf(items[k]));
        }
    }
    LegMoves(s.Stretch());
  }

  /** Where leg `k` stands, and what is left of the budget then. */
  function PosOf(ls: seq<Leg>, k: nat): nat
    requires k <= |ls|
  {
    if k == 0 then 0 else PosOf(ls, k - 1) + |ls[k - 1].bytes|
  }

  function LeftOf(ls: seq<Leg>, k: nat, budget: int): int
    requires k <= |ls|
  {
    if k == 0 then budget else LeftOf(ls, k - 1, budget) - ls[k - 1].cost
  }

  ghost predicate StandsAt(t: Tools, x: seq<byte>, ss: seq<Section>, ls: seq<Leg>, k: nat, budget: nat)
    requires k < |ss| == |ls|
  {
    PosOf(ls, k) <= |x| && LeftOf(ls, k, budget) >= 0 && ss[k].Stands(t, x, PosOf(ls, k), LeftOf(ls, k, budget))
  }

  /** Every stretch stands where the ones before it end. */
  ghost predicate AllStand(t: Tools, x: seq<byte>, ss: seq<Section>, ls: seq<Leg>, budget: nat)
    requires |ls| == |ss|
  {
    forall k {:trigger StandsAt(t, x, ss, ls, k, budget)} :: 0 <= k < |ss| ==> StandsAt(t, x, ss, ls, k, budget)
  }

  ghost predicate ReadsAt(reading: Reading, ls: seq<Leg>, k: nat, budget: nat)
    requires k < |ls|
  {
    LeftOf(ls, k, budget) >= ls[k].cost && reading(ls[k], PosOf(ls, k), LeftOf(ls, k, budget))
  }

  lemma {:induction false} ReadInTurn(reading: Reading, ls: seq<Leg>, k: nat, budget: nat)
    requires k <= |ls| && LeftOf(ls, k, budget) >= 0
    requires forall i {:trigger ReadsAt(reading, ls, i, budget)} :: 0 <= i < |ls| ==> ReadsAt(reading, ls, i, budget)
    ensures AllRead(reading, ls, k, PosOf(ls, k), LeftOf(ls, k, budget))
    decreases |ls| - k
  {
    if k < |ls| {
      assert ReadsAt(reading, ls, k, budget);
      ReadInTurn(reading, ls, k + 1, budget);
    }
  }

  lemma {:induction false} AllStandRead(t: Tools, c: Parts, x: seq<byte>, ss: seq<Section>, ls: seq<Leg>, budget: nat)
    requires c == PartsOf(t) && ls == LegsOf(ss) && AllStand(t, x, ss, ls, budget)
    requires forall i :: 0 <= i < |ss| ==> ss[i].Valid(t.utf8)
    ensures AllRead(ReadIn(c, x), ls, 0, 0, budget)
  {
    var reading := ReadIn(c, x);
    forall k {:trigger ReadsAt(reading, ls, k, budget)} | 0 <= k < |ls|
      ensures ReadsAt(reading, ls, k, budget)
    {
      assert StandsAt(t, x, ss, ls, k, budget);
      SectionReads(t, c, ss[k], ls[k], x, PosOf(ls, k), LeftOf(ls, k, budget));
    }
    ReadInTurn(reading, ls, 0, budget);
  }

  /** The bytes of an input. */
  function InputOf(ls: seq<Leg>): seq<byte>
  {
    LegsBytes(ls, 0)
  }

  /** All records of an input, in order, members' records where the members stand. */
  function RecordsOf(ls: seq<Leg>): seq<Meaning>
  {
    LegsSay(ls, 0)
  }

  /** What they ask of the tree. */
  function OpsOf(ls: seq<Leg>): seq<Op>
  {
    LegsOps(ls, 0, 1, 0)
  }

  /** The input, and its members' bytes. */
  function BuffersOf(ls: seq<Leg>): seq<seq<byte>>
  {
    [InputOf(ls)] + LegsBuffers(ls, 0)
  }

  lemma {:induction false} LegsMove(ss: seq<Section>, ls: seq<Leg>)
    requires ls == LegsOf(ss)
    ensures forall k :: 0 <= k < |ls| ==> Moves(ApplyOps(), ls[k])
  {
    forall k | 0 <= k < |ls|
      ensures Moves(ApplyOps(), ls[k])
    {
      SectionMoves(ss[k]);
    }
  }

  /** The input `x` is these sections, written one after another. */
  ghost predicate Initramfs(t: Tools, ss: seq<Section>, ls: seq<Leg>, x: seq<byte>)
  {
    && ls == LegsOf(ss) && x == InputOf(ls)
    && (forall k :: 0 <= k < |ss| ==> ss[k].Valid(t.utf8)) && AllStand(t, x, ss, ls, MAX_BOOT_FILE_BYTES)
  }

  /** Its legs do what they say, and are all read. */
  ghost predicate Ready(c: Parts, ls: seq<Leg>, x: seq<byte>, budget: nat)
  {
    (forall k :: 0 <= k < |ls| ==> Moves(ApplyOps(), ls[k])) && AllRead(ReadIn(c, x), ls, 0, 0, budget) && x == InputOf(ls)
  }

  lemma {:induction false} InitramfsReady(t: Tools, ss: seq<Section>, ls: seq<Leg>, x: seq<byte>)
    requires Initramfs(t, ss, ls, x)
    ensures Ready(PartsOf(t), ls, x, MAX_BOOT_FILE_BYTES)
  {
    LegsMove(ss, ls);
    AllStandRead(t, PartsOf(t), x, ss, ls, MAX_BOOT_FILE_BYTES);
  }

  /** The chain leaves the records' tree, the members' buffers, and the budget they leave; and
      the records' spans hold their bytes. */
  ghost predicate Undone(c: Parts, ls: seq<Leg>, x: seq<byte>, budget: nat)
    requires c.Progress()
  {
    && LegsCost(ls, 0) <= budget
    && Chain(c, x, State([x], ROOT, budget), 0) == Ok(State(BuffersOf(ls), ApplyAll(ROOT, OpsOf(ls)), budget - LegsCost(ls, 0)))
    && SaysAll(BuffersOf(ls), OpsOf(ls), RecordsOf(ls))
  }

  lemma {:induction false} LegsUndone(c: Parts, ls: seq<Leg>, x: seq<byte>, budget: nat)
    requires c.Progress() && Ready(c, ls, x, budget)
    ensures Undone(c, ls, x, budget)
  {
    ApplyOpsRuns();
    LegsChain(c, ApplyOps(), x, ROOT, budget, ls);
  }

  /** Unpacking undoes writing: an input of archives, zeros and compressed members unpacks to
      its records, applied in order from the root; and the spans hold the records' bytes. */
  lemma {:induction false} UnpackingUndoesWriting(t: Tools, ss: seq<Section>, ls: seq<Leg>, x: seq<byte>)
    requires t.Bounded() && Initramfs(t, ss, ls, x)
    ensures PartsOf(t).Progress() && Undone(PartsOf(t), ls, x, MAX_BOOT_FILE_BYTES)
  {
    PartsProgress(t);
    InitramfsReady(t, ss, ls, x);
    LegsUndone(PartsOf(t), ls, x, MAX_BOOT_FILE_BYTES);
  }

  // ----- paths read back -----

  /** No record from the `i`th on sets `target`: none is for it but a directory's. */
  ghost predicate Unset(ops: seq<Op>, i: nat, target: seq<Name>)
  {
    forall j :: i <= j < |ops| ==> Components(ops[j].path) != target || ops[j].attrs.kind == Directory
  }

  /** The tree has `a` at `target`. */
  ghost predicate HasAt(nodes: seq<Node>, target: seq<Name>, a: Attrs)
  {
    Tree(nodes) && View(nodes, target) == Some(a)
  }

  lemma {:induction false} OtherRecordKeeps(nodes: seq<Node>, op: Op, target: seq<Name>, a: Attrs)
    requires target != [] && HasAt(nodes, target, a) && (Components(op.path) != target || op.attrs.kind == Directory)
    ensures HasAt(Apply(nodes, op), target, a)
  {
    InsertRefines(nodes, op.path, op.attrs);
  }

  lemma {:induction false} LaterRecordsKeep(f: (seq<Node>, Op) -> seq<Node>, has: seq<Node> -> bool, nodes: seq<Node>, ops: seq<Op>, i: nat, n: nat)
    requires i <= n <= |ops| && has(FoldOps(f, nodes, ops, i))
    requires forall t, j {:trigger f(t, ops[j])} :: has(t) && i <= j < |ops| ==> has(f(t, ops[j]))
    ensures has(FoldOps(f, nodes, ops, n))
    decreases n - i
  {
    if i < n { LaterRecordsKeep(f, has, nodes, ops, i, n - 1); }
  }

  lemma {:induction false} FoldKeepsTree(f: (seq<Node>, Op) -> seq<Node>, nodes: seq<Node>, ops: seq<Op>, n: nat)
    requires (forall t, op {:trigger f(t, op)} :: f(t, op) == Apply(t, op)) && n <= |ops| && Tree(nodes)
    ensures Tree(FoldOps(f, nodes, ops, n))
  {
    if n > 0 {
      FoldKeepsTree(f, nodes, ops, n - 1);
      InsertRefines(FoldOps(f, nodes, ops, n - 1), ops[n - 1].path, ops[n - 1].attrs);
    }
  }

  /** The last record that sets a path is what is found there. */
  lemma {:induction false} LastRecordWins(nodes: seq<Node>, ops: seq<Op>, i: nat, target: seq<Name>)
    requires Tree(nodes) && i < |ops| && target == Components(ops[i].path) != []
    requires ops[i].attrs.kind != Directory && Unset(ops, i + 1, target)
    ensures View(ApplyAll(nodes, ops), target) == Some(ops[i].attrs)
  {
    var f := (nodes: seq<Node>, op: Op) => Apply(nodes, op);
    FoldKeepsTree(f, nodes, ops, i);
    InsertRefines(FoldOps(f, nodes, ops, i), ops[i].path, ops[i].attrs);
    var has := (t: seq<Node>) => HasAt(t, target, ops[i].attrs);
    forall t, j {:trigger f(t, ops[j])} | has(t) && i + 1 <= j < |ops|
      ensures has(f(t, ops[j]))
    {
      OtherRecordKeeps(t, ops[j], target, ops[i].attrs);
    }
    LaterRecordsKeep(f, has, nodes, ops, i + 1, |ops|);
  }

  /** No record from the `i`th on sets `target`, in terms of what was written. */
  ghost predicate NotWritten(says: seq<Meaning>, i: nat, target: seq<Name>)
  {
    forall j :: i <= j < |says| ==> Components(says[j].path) != target || says[j].kind == Directory
  }

  /** What is found at a path, in a tree over some buffers, is what the record says. */
  ghost predicate FoundAs(now: State, m: Meaning)
  {
    var found := View(now.nodes, Components(m.path));
    && found.Some? && found.value.kind == m.kind && found.value.mode == m.mode
    && SpanIn(found.value.data, now.buffers)
    && var s := found.value.data; now.buffers[s.buf][s.off..s.off + s.len] == m.data
  }

  lemma {:induction false} RecordFound(buffers: seq<seq<byte>>, ops: seq<Op>, says: seq<Meaning>, i: nat, budget: nat)
    requires SaysAll(buffers, ops, says) && i < |says| && says[i].kind != Directory && Components(says[i].path) != []
    requires NotWritten(says, i + 1, Components(says[i].path))
    ensures FoundAs(State(buffers, ApplyAll(ROOT, ops), budget), says[i])
  {
    assert Says(buffers, ops[i], says[i]);
    forall j | i + 1 <= j < |ops|
      ensures Components(ops[j].path) != Components(ops[i].path) || ops[j].attrs.kind == Directory
    {
      assert Says(buffers, ops[j], says[j]);
    }
    RootIsTree();
    LastRecordWins(ROOT, ops, i, Components(ops[i].path));
  }

  lemma {:induction false} UndoneFinds(c: Parts, ls: seq<Leg>, x: seq<byte>, i: nat, budget: nat)
    requires c.Progress() && Undone(c, ls, x, budget)
    requires i < |RecordsOf(ls)| && RecordsOf(ls)[i].kind != Directory && Components(RecordsOf(ls)[i].path) != []
    requires NotWritten(RecordsOf(ls), i + 1, Components(RecordsOf(ls)[i].path))
    ensures var r := Chain(c, x, State([x], ROOT, budget), 0); r.Ok? && FoundAs(r.value, RecordsOf(ls)[i])
  {
    RecordFound(BuffersOf(ls), OpsOf(ls), RecordsOf(ls), i, budget - LegsCost(ls, 0));
  }

  /** Every path stands as the last record written for it says: its kind, its mode and its bytes. */
  lemma {:induction false} PathReadsBack(t: Tools, ss: seq<Section>, ls: seq<Leg>, x: seq<byte>, i: nat)
    requires t.Bounded() && Initramfs(t, ss, ls, x)
    requires i < |RecordsOf(ls)| && RecordsOf(ls)[i].kind != Directory && Components(RecordsOf(ls)[i].path) != []
    requires NotWritten(RecordsOf(ls), i + 1, Components(RecordsOf(ls)[i].path))
    ensures PartsOf(t).Progress()
    ensures var r := Chain(PartsOf(t), x, State([x], ROOT, MAX_BOOT_FILE_BYTES), 0);
            r.Ok? && FoundAs(r.value, RecordsOf(ls)[i])
  {
    UnpackingUndoesWriting(t, ss, ls, x);
    UndoneFinds(PartsOf(t), ls, x, i, MAX_BOOT_FILE_BYTES);
  }

  // ----- mounting and reading -----

  /** The input begins with an archive. */
  ghost predicate ArchiveFirst(ss: seq<Section>)
  {
    ss != [] && ss[0].Loose? && ss[0].item.Files?
  }

  lemma {:induction false} ShapesPrintable(utf8: seq<byte> -> bool, item: Item, xs: seq<Shape>, trailer: Shape)
    requires item.Files? && item.Valid(utf8) && xs == Shapes(item.records) && trailer == item.trailer.Shape()
    ensures Printable(utf8, xs, trailer)
  {
    PrintedReadsBack(item.trailer.entry, item.trailer.crc, trailer);
    forall k | 0 <= k < |xs|
      ensures ReadsBack(xs[k])
    {
      PrintedReadsBack(item.records[k].entry, item.records[k].crc, xs[k]);
    }
  }

  lemma {:induction false} BeginsWithMagic(t: Tools, ss: seq<Section>, ls: seq<Leg>, x: seq<byte>)
    requires Initramfs(t, ss, ls, x) && ArchiveFirst(ss)
    ensures MagicAt(x, 0).Some?
  {
    var item := ss[0].item;
    var xs, trailer := Shapes(item.records), item.trailer.Shape();
    ShapesPrintable(t.utf8, item, xs, trailer);
    assert ls[0].bytes == CpioArchive.Join(xs) + trailer.bytes;
    assert x == ls[0].bytes + LegsBytes(ls, 1);
    assert x[0..|ls[0].bytes|] == ls[0].bytes;
    FirstIsMagic(t.utf8, x, 0, xs, trailer);
  }

  /** Record `i` is the last that sets its path. */
  ghost predicate SetLast(says: seq<Meaning>, i: nat)
  {
    && i < |says| && says[i].kind != Directory && Components(says[i].path) != []
    && NotWritten(says, i + 1, Components(says[i].path))
  }

  lemma {:induction false} AllFound(t: Tools, ss: seq<Section>, ls: seq<Leg>, x: seq<byte>)
    requires t.Bounded() && Initramfs(t, ss, ls, x)
    ensures PartsOf(t).Progress()
    ensures var r := Chain(PartsOf(t), x, State([x], ROOT, MAX_BOOT_FILE_BYTES), 0);
            r.Ok? && forall i: nat {:trigger SetLast(RecordsOf(ls), i)} :: SetLast(RecordsOf(ls), i) ==> FoundAs(r.value, RecordsOf(ls)[i])
  {
    UnpackingUndoesWriting(t, ss, ls, x);
    forall i: nat {:trigger SetLast(RecordsOf(ls), i)} | SetLast(RecordsOf(ls), i)
      ensures FoundAs(Chain(PartsOf(t), x, State([x], ROOT, MAX_BOOT_FILE_BYTES), 0).value, RecordsOf(ls)[i])
    {
      UndoneFinds(PartsOf(t), ls, x, i, MAX_BOOT_FILE_BYTES);
    }
  }

  /** `open`, of an input as it was written: every path is what its last record says. */
  method MountWritten(t: Tools, ghost ss: seq<Section>, ghost ls: seq<Leg>, x: seq<byte>) returns (fs: Cpio, r: Result<()>)
    requires t.Bounded() && t.SlicesOf(x) && Initramfs(t, ss, ls, x) && ArchiveFirst(ss)
    ensures fresh(fs) && r == Ok(()) && fs.Valid()
    ensures forall i: nat {:trigger SetLast(RecordsOf(ls), i)} :: SetLast(RecordsOf(ls), i) ==> FoundAs(fs.Now(), RecordsOf(ls)[i])
  {
    BeginsWithMagic(t, ss, ls, x);
    UnpackingUndoesWriting(t, ss, ls, x);
    AllFound(t, ss, ls, x);
    fs := new Cpio(x);
    r := fs.Mount(t);
  }

  /** The node that a path leads to is what a record says. */
  ghost predicate StandsFor(fs: Cpio, id: nat, m: Meaning)
    reads fs
  {
    CpioTree.Lookup(fs.nodes, Components(m.path)) == Some(id) && FoundAs(fs.Now(), m)
  }

  /** A written symlink's target is its data; nothing else has one. */
  method ReadLinkBack(fs: Cpio, id: nat, ghost m: Meaning) returns (r: Result<Option<seq<byte>>>)
    requires fs.Valid() && StandsFor(fs, id, m)
    ensures r == Ok(if m.kind == Symlink then Some(m.data) else None)
  {
    r := fs.ReadLink(id);
  }

  /** A written file reads back, any window of it. */
  method ReadBack(fs: Cpio, id: nat, ghost m: Meaning, off: nat, buf: array<byte>) returns (r: Result<nat>)
    requires fs.Valid() && StandsFor(fs, id, m) && m.kind != Directory
    modifies buf
    ensures var n := Max(0, Min(off + buf.Length, |m.data|) - off);
            r == Ok(n) && (n > 0 ==> buf[..n] == m.data[off..off + n])
  {
    r := fs.ReadAt(id, off, buf);
  }
}
