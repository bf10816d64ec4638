/** A mounted cpio archive (`crates/lamfold-cpio/src/cpio.rs`): the methods that fold an
    input into the tree, proved against the functions of the other modules, and reads. */
module CpioVolume {
  import opened Bytes
  import opened CpioArchive
  import opened CpioChain
  import opened CpioRecords
  import opened CpioTree
  import opened Frontend

  /** The code this crate calls: stream decoding, UTF-8 validation, and the parser reused for
      the odc and old binary formats, as the records it finds. */
  datatype Tools = Tools(decode: Decode, utf8: seq<byte> -> bool, single: seq<byte> -> seq<Op>)
  {
    ghost predicate Bounded()
    {
      forall c, x, cap {:trigger decode(c, x, cap)} ::
        decode(c, x, cap).Ok? ==> |decode(c, x, cap).value.0| <= cap && 1 <= decode(c, x, cap).value.1 <= |x|
    }

    /** The reused parser's entries are slices of the archive. */
    ghost predicate SlicesOf(archive: seq<byte>)
    {
      forall k :: 0 <= k < |single(archive)| ==> SpanIn(single(archive)[k].attrs.data, [archive])
    }
  }

  function PartsOf(t: Tools): Parts
  {
    Parts((x: seq<byte>, pos: nat) => LookAt(x, pos), t.decode,
          (a: seq<byte>, idx: nat, nodes: seq<Node>, pos: nat) => InsertArchive(t.utf8, a, idx, nodes, pos))
  }

  lemma {:induction false} PartsProgress(t: Tools)
    requires t.Bounded()
    ensures PartsOf(t).Progress()
  {
    var c := PartsOf(t);
    forall a, idx, nodes, pos | c.fold(a, idx, nodes, pos).Ok?
      ensures c.fold(a, idx, nodes, pos).value.1 > pos
    {
      RecordsInBounds(a, pos);
    }
  }

  /** The tree stays a tree with its spans inside their buffers, over every run. */
  lemma {:induction false} ChainKeepsWellFormed(t: Tools, s: State, pos: nat)
    requires t.Bounded() && |s.buffers| > 0 && WellFormed(s.nodes, s.buffers)
    ensures PartsOf(t).Progress()
    ensures var r := Chain(PartsOf(t), s.buffers[0], s, pos); r.Ok? ==> WellFormed(r.value.nodes, r.value.buffers)
  {
    PartsProgress(t);
    var c, inv := PartsOf(t), (s: State) => WellFormed(s.nodes, s.buffers);
    FoldKeepsWellFormed(t, c, inv);
    MemberKeepsWellFormed(inv);
    ChainKeeps(c, inv, s.buffers[0], s, pos);
  }

  lemma {:induction false} FoldKeepsWellFormed(t: Tools, c: Parts, inv: State -> bool)
    requires c == PartsOf(t) && forall s {:trigger inv(s)} :: inv(s) == WellFormed(s.nodes, s.buffers)
    ensures FoldKeeps(c, inv)
  {
    forall s: State, idx: nat, pos: nat | idx < |s.buffers| && inv(s) && c.fold(s.buffers[idx], idx, s.nodes, pos).Ok?
      ensures inv(s.(nodes := c.fold(s.buffers[idx], idx, s.nodes, pos).value.0))
    {
      ArchiveKeeps(t.utf8, s.buffers, idx, s.nodes, pos);
    }
  }

  lemma {:induction false} MemberKeepsWellFormed(inv: State -> bool)
    requires forall s {:trigger inv(s)} :: inv(s) == WellFormed(s.nodes, s.buffers)
    ensures MemberKeeps(inv)
  {
    forall s, out | inv(s) && |out| <= s.budget
      ensures inv(WithMember(s, out, s.nodes))
    {
      SpansGrow(s.nodes, s.buffers, out);
    }
  }

  lemma {:induction false} SpansGrow(nodes: seq<Node>, buffers: seq<seq<byte>>, x: seq<byte>)
    requires SpansIn(nodes, buffers)
    ensures SpansIn(nodes, buffers + [x])
  {
    forall i | 0 <= i < |nodes|
      ensures SpanIn(nodes[i].attrs.data, buffers + [x])
    {
      assert (buffers + [x])[nodes[i].attrs.data.buf] == buffers[nodes[i].attrs.data.buf];
    }
  }

  /** The parts of the chain do what `t` and the archive parser do. */
  ghost predicate Agrees(c: Parts, t: Tools)
  {
    && c.decode == t.decode
    && (forall x, pos: nat {:trigger LookAt(x, pos)} :: c.look(x, pos) == LookAt(x, pos))
    && (forall a, idx: nat, nodes, pos: nat {:trigger InsertArchive(t.utf8, a, idx, nodes, pos)} ::
          c.fold(a, idx, nodes, pos) == InsertArchive(t.utf8, a, idx, nodes, pos))
  }

  // ----- printed inputs -----

  lemma {:induction false} ZerosAreSkipped(t: Tools, n: nat)
    ensures Skipped(PartsOf(t), Zeros(n))
  {
    forall a: seq<byte>, at: nat | Lies(a, at, Zeros(n))
      ensures PartsOf(t).look(a, at) == PartsOf(t).look(a, at + |Zeros(n)|)
    {
      SkipZeros(a, at, n);
    }
  }

  /** What a printed archive does to the tree: its records, applied in order. */
  function PrintedEffect(xs: seq<Shape>): Effect
  {
    (nodes: seq<Node>, idx: nat, pos: nat) => ApplyAll(nodes, ShapeOps(xs, idx, pos))
  }

  lemma {:induction false} PrintedArchiveFound(t: Tools, xs: seq<Shape>, trailer: Shape, bytes: seq<byte>, a: seq<byte>, at: nat)
    requires Printable(t.utf8, xs, trailer) && bytes == CpioArchive.Join(xs) + trailer.bytes
    requires at % 4 == 0 && Lies(a, at, bytes)
    ensures LookAt(a, at) == Newc(at)
  {
    FirstIsMagic(t.utf8, a, at, xs, trailer);
    FindsArchive(a, at);
  }

  /** A printed archive folds to its records, wherever it stands aligned. */
  lemma {:induction false} PrintedArchiveFolds(t: Tools, xs: seq<Shape>, trailer: Shape, bytes: seq<byte>)
    requires Printable(t.utf8, xs, trailer) && bytes == CpioArchive.Join(xs) + trailer.bytes
    ensures FoldsAs(PartsOf(t), bytes, PrintedEffect(xs))
  {
    var c, effect := PartsOf(t), PrintedEffect(xs);
    forall a: seq<byte>, at: nat {:trigger Lies(a, at, bytes), c.look(a, at)} | at % 4 == 0 && Lies(a, at, bytes)
      ensures c.look(a, at) == Newc(at)
    {
      PrintedArchiveFound(t, xs, trailer, bytes, a, at);
    }
    forall a: seq<byte>, at: nat, idx: nat, nodes: seq<Node> {:trigger Lies(a, at, bytes), c.fold(a, idx, nodes, at)} |
      at % 4 == 0 && Lies(a, at, bytes)
      ensures Yields(c.fold(a, idx, nodes, at), effect(nodes, idx, at), at + |bytes|)
    {
      ArchivePrinted(t.utf8, a, idx, nodes, at, xs, trailer, bytes);
    }
  }

  /** An archive written from valid entries, each in newc or CRC form, and a trailer, fits
      wherever it is aligned: what it does is apply its entries in order. */
  lemma {:induction false} EntriesFit(t: Tools, es: seq<Entry>, crcs: seq<bool>, trailer: Entry, crc: bool, xs: seq<Shape>, bytes: seq<byte>, pos: nat)
    requires |es| == |crcs| == |xs| && pos % 4 == 0
    requires forall k :: 0 <= k < |es| ==> es[k].Valid(crcs[k]) && es[k].name != TRAILER && t.utf8(es[k].name) && xs[k] == ShapeOf(es[k], crcs[k])
    requires trailer.Valid(crc) && trailer.name == TRAILER && bytes == CpioArchive.Join(xs) + PrintRecord(trailer, crc)
    ensures Archive(bytes, PrintedEffect(xs)).Fits(PartsOf(t), pos)
  {
    var last := ShapeOf(trailer, crc);
    PrintedReadsBack(trailer, crc, last);
    forall k | 0 <= k < |xs|
      ensures ReadsBack(xs[k])
    {
      PrintedReadsBack(es[k], crcs[k], xs[k]);
    }
    PrintedArchiveFolds(t, xs, last, bytes);
  }

  // ----- the loops over one archive -----

  /** `records` read so far, and what is read after them. */
  function Prepend(records: seq<Record>, r: Result<(seq<Record>, nat)>): Result<(seq<Record>, nat)>
  {
    if r.Ok? then Ok((records + r.value.0, r.value.1)) else r
  }

  lemma {:induction false} PrependMore(records: seq<Record>, record: Record, r: Result<(seq<Record>, nat)>)
    ensures Prepend(records + [record], r) == Prepend(records, Prepend([record], r))
  {
    if r.Ok? { assert records + [record] + r.value.0 == records + ([record] + r.value.0); }
  }

  /** The first loop of `insert_newc_archive`. */
  method ReadRecords(archive: seq<byte>, start: nat, ghost step: nat -> Result<Step>) returns (r: Result<(seq<Record>, nat)>)
    requires Forward(step, |archive|)
    requires forall p: nat {:trigger StepAt(archive, p)} :: step(p) == StepAt(archive, p)
    ensures r == Scan(step, |archive|, start)
  {
    var records, pos := [], start;
    assert Prepend([], Scan(step, |archive|, pos)) == Scan(step, |archive|, start) by { PrependNone(Scan(step, |archive|, pos)); }
    while true
      invariant Prepend(records, Scan(step, |archive|, pos)) == Scan(step, |archive|, start)
      decreases |archive| - pos
    {
      var next := TakeStep(archive, pos, step);
      match next
      case Err(e) => return Err(e);
      case Ok(Last(end)) =>
        assert records + [] == records;
        return Ok((records, end));
      case Ok(More(record, after)) =>
        PrependMore(records, record, Scan(step, |archive|, after));
        records, pos := records + [record], after;
    }
  }

  lemma {:induction false} PrependNone(r: Result<(seq<Record>, nat)>)
    ensures Prepend([], r) == r
  {
    if r.Ok? { assert [] + r.value.0 == r.value.0; }
  }

  method TakeStep(archive: seq<byte>, pos: nat, ghost step: nat -> Result<Step>) returns (r: Result<Step>)
    requires forall p: nat {:trigger StepAt(archive, p)} :: step(p) == StepAt(archive, p)
    ensures r == step(pos)
  {
    r := StepAt(archive, pos);
  }

  /** `linked` holds each link group's data. */
  ghost predicate Remembers(linked: map<InodeId, Extent>, records: seq<Record>)
  {
    forall id :: LastLink(records, id) == if id in linked then Some(linked[id]) else None
  }

  /** The loop that remembers each link group's data. */
  method LinkedData(records: seq<Record>) returns (linked: map<InodeId, Extent>)
    ensures Remembers(linked, records)
  {
    linked := map[];
    for i := 0 to |records|
      invariant Remembers(linked, records[..i])
    {
      var r := records[i];
      assert records[..i + 1][..i] == records[..i];
      if IsLink(r) && r.data.len > 0 {
        linked := linked[r.inode := r.data];
      }
    }
    assert records[..|records|] == records;
  }

  /** What one record asks for, its data looked up among the links. */
  method RecordOp(archive: seq<byte>, idx: nat, r: Record, linked: map<InodeId, Extent>, ghost records: seq<Record>) returns (op: Op)
    requires Remembers(linked, records)
    ensures op == OpFor(NameOf(archive, r), idx, records, r)
  {
    var data := if IsLink(r) && r.inode in linked then linked[r.inode] else r.data;
    op := Op(NameOf(archive, r), Attrs(KindOfMode(r.mode), r.mode % 0x1000, Span(idx, data.off, data.len)));
  }

  /** A mounted archive. */
  class Cpio {
    /** The input, then each decompressed member. */
    var buffers: seq<seq<byte>>
    var nodes: seq<Node>
    /** What is left of the decompressed total. */
    var budget: nat

    ghost predicate Valid()
      reads this
    {
      |buffers| > 0 && WellFormed(nodes, buffers)
    }

    function Now(): State
      reads this
    {
      State(buffers, nodes, budget)
    }

    constructor (input: seq<byte>)
      ensures Valid() && Now() == State([input], ROOT, MAX_BOOT_FILE_BYTES)
    {
      buffers, nodes, budget := [input], ROOT, MAX_BOOT_FILE_BYTES;
      new;
      RootIsTree();
    }

    /** `insert`. */
    method Insert(path: seq<byte>, a: Attrs)
      requires Tree(nodes)
      modifies this`nodes
      ensures Tree(nodes) && nodes == CpioTree.Insert(old(nodes), path, a)
    {
      var comps := Components(path);
      var cur: nat := 0;
      assert comps[0..] == comps;
      for i := 0 to |comps|
        invariant Tree(nodes) && cur < |nodes|
        invariant InsertFrom(nodes, cur, comps[i..], a) == InsertFrom(old(nodes), 0, comps, a)
      {
        var comp, last := comps[i], i + 1 == |comps|;
        assert comps[i..][1..] == comps[i + 1..];
        if comp in nodes[cur].children {
          var existing := nodes[cur].children[comp];
          assert Edge(nodes, cur, comp, existing);
          if last && a.kind != Directory {
            RefillKeepsTree(nodes, existing, a);
            nodes := nodes[existing := nodes[existing].(attrs := a)];
          }
          cur := existing;
        } else {
          var id := |nodes|;
          AddChildKeepsTree(nodes, cur, comp, if last then a else IMPLIED);
          nodes := AddChild(nodes, cur, comp, if last then a else IMPLIED);
          cur := id;
        }
      }
    }

    /** One record; false at a name that is not UTF-8. */
    method InsertRecord(utf8: seq<byte> -> bool, archive: seq<byte>, idx: nat, r: Record, linked: map<InodeId, Extent>,
                        ghost records: seq<Record>, ghost op: Op, ghost f: (seq<Node>, Op) -> seq<Node>)
      returns (ok: bool)
      requires Tree(nodes) && Remembers(linked, records) && op == OpFor(NameOf(archive, r), idx, records, r)
      requires forall t, o {:trigger Apply(t, o)} :: f(t, o) == Apply(t, o)
      modifies this`nodes
      ensures Tree(nodes) && ok == utf8(op.path) && nodes == if ok then f(old(nodes), op) else old(nodes)
    {
      var made := RecordOp(archive, idx, r, linked, records);
      ok := utf8(made.path);
      assert f(nodes, made) == Apply(nodes, made);
      if ok { Insert(made.path, made.attrs); }
    }

    /** The second loop of `insert_newc_archive`. */
    method InsertRecords(utf8: seq<byte> -> bool, archive: seq<byte>, idx: nat, records: seq<Record>, linked: map<InodeId, Extent>,
                         ghost ops: seq<Op>, ghost f: (seq<Node>, Op) -> seq<Node>)
      returns (ok: bool)
      requires Tree(nodes) && |ops| == |records| && Remembers(linked, records)
      requires forall k {:trigger OpFor(NameOf(archive, records[k]), idx, records, records[k])} ::
                 0 <= k < |ops| ==> ops[k] == OpFor(NameOf(archive, records[k]), idx, records, records[k])
      requires forall t, o {:trigger Apply(t, o)} :: f(t, o) == Apply(t, o)
      modifies this`nodes
      ensures Tree(nodes) && ok == NamesAre(utf8, ops)
      ensures ok ==> nodes == FoldOps(f, old(nodes), ops, |ops|)
    {
      for k := 0 to |records|
        invariant Tree(nodes) && nodes == FoldOps(f, old(nodes), ops, k) && forall j :: 0 <= j < k ==> utf8(ops[j].path)
      {
        ok := InsertRecord(utf8, archive, idx, records[k], linked, records, ops[k], f);
        if !ok { return; }
      }
      ok := true;
    }

    /** `insert_newc_archive`. */
    method InsertNewcArchive(utf8: seq<byte> -> bool, archive: seq<byte>, idx: nat, start: nat) returns (r: Result<nat>)
      requires Tree(nodes)
      modifies this`nodes
      ensures Tree(nodes)
      ensures match InsertArchive(utf8, archive, idx, old(nodes), start)
              case Ok(after) => r == Ok(after.1) && nodes == after.0
              case Err(e) => r == Err(e)
    {
      var read := ReadRecords(archive, start, (p: nat) => StepAt(archive, p));
      if read.Err? { return Err(read.error); }
      var (records, end) := read.value;
      var linked := LinkedData(records);
      var ok := InsertRecords(utf8, archive, idx, records, linked, OpsOf(archive, idx, records), (t: seq<Node>, op: Op) => Apply(t, op));
      if ok { r := Ok(end); } else { r := Err(Unsupported); }
    }

    method FindNext(t: Tools, x: seq<byte>, pos: nat, ghost c: Parts) returns (found: Found)
      requires Agrees(c, t)
      ensures found == c.look(x, pos)
    {
      found := LookAt(x, pos);
    }

    /** One archive of buffer `idx`, as the chain's functions put it. */
    method FoldArchive(t: Tools, idx: nat, pos: nat, ghost c: Parts) returns (r: Result<nat>)
      requires Valid() && idx < |buffers| && Agrees(c, t)
      modifies this`nodes
      ensures Tree(nodes)
      ensures c.fold(buffers[idx], idx, old(nodes), pos).Ok? == r.Ok?
      ensures r.Ok? ==> Yields(c.fold(buffers[idx], idx, old(nodes), pos), nodes, r.value)
      ensures r.Ok? ==> Valid()
      ensures r.Err? ==> c.fold(buffers[idx], idx, old(nodes), pos) == Err(r.error)
    {
      ArchiveKeeps(t.utf8, buffers, idx, nodes, pos);
      r := InsertNewcArchive(t.utf8, buffers[idx], idx, pos);
    }

    /** The compressed member at `at` of the input: decoded into a buffer of its own, and its
        archives folded in from there. */
    method Decompress(t: Tools, codec: Codec, at: nat, ghost c: Parts) returns (r: Result<nat>)
      requires Valid() && at <= |buffers[0]| && c.Progress() && Agrees(c, t)
      modifies this
      ensures Tree(nodes)
      ensures var d := c.decode(codec, old(buffers[0])[at..], old(budget));
              if d.Err? then r == Err(d.error)
              else match MemberChain(c, d.value.0, |old(buffers)|, old(nodes), 0)
                   case Ok(after) => r == Ok(d.value.1) && Valid() && Now() == WithMember(old(Now()), d.value.0, after)
                   case Err(e) => r == Err(e)
      decreases 0, 1
    {
      var d := t.decode(codec, buffers[0][at..], budget);
      if d.Err? { return Err(d.error); }
      var (out, used) := d.value;
      SpansGrow(nodes, buffers, out);
      budget := budget - |out|;
      buffers := buffers + [out];
      var inside := InsertChain(t, |buffers| - 1, c);
      if inside.Err? { return Err(inside.error); }
      r := Ok(used);
    }

    /** `insert_chain`: on the input, or on a decompressed member. */
    method InsertChain(t: Tools, idx: nat, ghost c: Parts) returns (r: Result<()>)
      requires Valid() && idx < |buffers| && c.Progress() && Agrees(c, t)
      modifies this
      ensures Tree(nodes)
      ensures r.Ok? ==> Valid()
      ensures idx == 0 ==>
                match Chain(c, old(buffers[0]), old(Now()), 0)
                case Ok(s) => r == Ok(()) && Now() == s
                case Err(e) => r == Err(e)
      ensures idx > 0 ==>
                match MemberChain(c, old(buffers[idx]), idx, old(nodes), 0)
                case Ok(after) => r == Ok(()) && Now() == State(old(buffers), after, old(budget))
                case Err(e) => r == Err(e)
      decreases if idx == 0 then 1 else 0, 0
    {
      ghost var was := Now();
      var pos: nat := 0;
      while true
        invariant Valid() && idx < |buffers| && buffers[idx] == was.buffers[idx]
        invariant idx == 0 ==> Chain(c, was.buffers[0], Now(), pos) == Chain(c, was.buffers[0], was, 0)
        invariant idx > 0 ==> buffers == was.buffers && budget == was.budget
        invariant idx > 0 ==> MemberChain(c, was.buffers[idx], idx, nodes, pos) == MemberChain(c, was.buffers[idx], idx, was.nodes, 0)
        decreases Left(was.buffers[idx], pos)
      {
        var found := FindNext(t, buffers[idx], pos, c);
        match found
        case End => return Ok(());
        case Junk => return Err(Corrupt);
        case Newc(p) =>
          var next := FoldArchive(t, idx, p, c);
          if next.Err? { return Err(next.error); }
          pos := next.value;
        case Stream(codec, p) =>
          if idx != 0 { return Err(Corrupt); }
          var used := Decompress(t, codec, p, c);
          if used.Err? { return Err(used.error); }
          pos := p + used.value;
      }
    }

    /** `open`, once the input is read. */
    method Mount(t: Tools) returns (r: Result<()>)
      requires Valid() && t.Bounded() && t.SlicesOf(buffers[0])
      modifies this
      ensures r.Ok? ==> Valid()
      ensures MagicAt(old(buffers[0]), 0).Some? ==>
                PartsOf(t).Progress() && match Chain(PartsOf(t), old(buffers[0]), old(Now()), 0)
                                         case Ok(s) => r == Ok(()) && Now() == s
                                         case Err(e) => r == Err(e)
      ensures MagicAt(old(buffers[0]), 0).None? ==>
                r == Ok(()) && Now() == old(Now()).(nodes := ApplyAll(old(nodes), t.single(old(buffers[0]))))
    {
      if MagicAt(buffers[0], 0).Some? {
        PartsProgress(t);
        r := InsertChain(t, 0, PartsOf(t));
      } else {
        InsertSingle(t);
        r := Ok(());
      }
    }

    /** `insert_single`. */
    method InsertSingle(t: Tools)
      requires Valid() && t.SlicesOf(buffers[0])
      modifies this`nodes
      ensures Valid() && nodes == ApplyAll(old(nodes), t.single(buffers[0]))
    {
      var ops := t.single(buffers[0]);
      forall k | 0 <= k < |ops|
        ensures SpanIn(ops[k].attrs.data, buffers)
      {
        assert [buffers[0]][0] == buffers[0];
      }
      ApplyAllKeepsSpans(nodes, ops, buffers);
      InsertOps(ops, (n: seq<Node>, op: Op) => Apply(n, op));
    }

    method InsertOps(ops: seq<Op>, ghost f: (seq<Node>, Op) -> seq<Node>)
      requires Tree(nodes) && forall n, o {:trigger Apply(n, o)} :: f(n, o) == Apply(n, o)
      modifies this`nodes
      ensures Tree(nodes) && nodes == FoldOps(f, old(nodes), ops, |ops|)
    {
      for k := 0 to |ops|
        invariant Tree(nodes) && nodes == FoldOps(f, old(nodes), ops, k)
      {
        assert f(nodes, ops[k]) == Apply(nodes, ops[k]);
        Insert(ops[k].path, ops[k].attrs);
      }
    }

    /** The bytes of a node: its span never leaves its buffer. */
    function Data(id: nat): (data: seq<byte>)
      requires Valid() && id < |nodes|
      reads this
      ensures |data| == nodes[id].attrs.data.len
    {
      var s := nodes[id].attrs.data;
      buffers[s.buf][s.off..s.off + s.len]
    }

    /** `read_at`, into all of `buf`. */
    method ReadAt(id: nat, off: nat, buf: array<byte>) returns (r: Result<nat>)
      requires Valid()
      modifies buf
      ensures id >= |nodes| ==> r == Err(NotFound)
      ensures id < |nodes| && nodes[id].attrs.kind == Directory ==> r == Err(IsDirectory)
      ensures id < |nodes| && nodes[id].attrs.kind != Directory ==>
                var n := Max(0, Min(off + buf.Length, |Data(id)|) - off);
                r == Ok(n) && (n > 0 ==> buf[..n] == Data(id)[off..off + n])
      ensures forall i :: (if r.Ok? then r.value else 0) <= i < buf.Length ==> buf[i] == old(buf[i])
    {
      if id >= |nodes| { return Err(NotFound); }
      if nodes[id].attrs.kind == Directory { return Err(IsDirectory); }
      var data := Data(id);
      if off >= |data| { return Ok(0); }
      var count := Min(buf.Length, |data| - off);
      forall i | 0 <= i < count {
        buf[i] := data[off + i];
      }
      r := Ok(count);
    }

    /** `read_link`. */
    method ReadLink(id: nat) returns (r: Result<Option<seq<byte>>>)
      requires Valid()
      ensures r == if id >= |nodes| then Err(NotFound)
                   else Ok(if nodes[id].attrs.kind == Symlink then Some(Data(id)) else None)
    {
      if id >= |nodes| { return Err(NotFound); }
      if nodes[id].attrs.kind != Symlink { return Ok(None); }
      r := Ok(Some(Data(id)));
    }
  }
}
