/** An initramfs as it is written: archives of files, zeros between them, and compressed
    members. Unpacking it (`insert_chain` of `crates/lamfold-cpio/src/cpio.rs`) gives back every
    file. This module deals in what is printed; `CpioFiles` in the files it is printed from. */
module CpioInitramfs {
  import opened Bytes
  import opened CpioArchive
  import opened CpioChain
  import opened CpioRecords
  import opened CpioTree
  import opened CpioVolume
  import opened Frontend

  /** What a record says: a path, what is there, and its bytes. */
  datatype Meaning = Meaning(path: seq<byte>, kind: FileKind, mode: nat, data: seq<byte>)

  /** A printed item: its bytes, what its records ask of the tree once it stands somewhere in
      a buffer, and what they say. */
  datatype Print = Print(piece: Piece, ops: (nat, nat) -> seq<Op>, says: seq<Meaning>)

  /** The operation is what the record says, its bytes being where its span is. */
  ghost predicate Says(buffers: seq<seq<byte>>, op: Op, m: Meaning)
  {
    var s := op.attrs.data;
    && op.path == m.path && op.attrs.kind == m.kind && op.attrs.mode == m.mode
    && SpanIn(s, buffers) && buffers[s.buf][s.off..s.off + s.len] == m.data
  }

  ghost predicate SaysAll(buffers: seq<seq<byte>>, ops: seq<Op>, says: seq<Meaning>)
  {
    |ops| == |says| && forall i :: 0 <= i < |ops| ==> Says(buffers, ops[i], says[i])
  }

  /** Wherever the print stands, its operations are what it does, and what it says. */
  ghost predicate Faithful(p: Print)
  {
    && (forall nodes, idx, pos {:trigger p.piece.After(nodes, idx, pos)} ::
          p.piece.After(nodes, idx, pos) == ApplyAll(nodes, p.ops(idx, pos)))
    && (forall buffers, idx: nat, pos: nat {:trigger SaysAll(buffers, p.ops(idx, pos), p.says)} ::
          idx < |buffers| && (p.piece.Archive? ==> pos % 4 == 0) && Lies(buffers[idx], pos, p.piece.Bytes())
          ==> SaysAll(buffers, p.ops(idx, pos), p.says))
  }

  function Pieces(ps: seq<Print>): (r: seq<Piece>)
    ensures |r| == |ps|
  {
    seq(|ps|, k requires 0 <= k < |ps| => ps[k].piece)
  }

  function PrintsOps(ps: seq<Print>, k: nat, idx: nat, pos: nat): seq<Op>
    decreases |ps| - k
  {
    if k >= |ps| then [] else ps[k].ops(idx, pos) + PrintsOps(ps, k + 1, idx, pos + |ps[k].piece.Bytes()|)
  }

  function PrintsSay(ps: seq<Print>, k: nat): seq<Meaning>
    decreases |ps| - k
  {
    if k >= |ps| then [] else ps[k].says + PrintsSay(ps, k + 1)
  }

  // ----- runs of records -----

  lemma {:induction false} FoldOpsJoins(f: (seq<Node>, Op) -> seq<Node>, nodes: seq<Node>, a: seq<Op>, b: seq<Op>, n: nat)
    requires n <= |b|
    ensures FoldOps(f, nodes, a + b, |a| + n) == FoldOps(f, FoldOps(f, nodes, a, |a|), b, n)
  {
    if n > 0 {
      FoldOpsJoins(f, nodes, a, b, n - 1);
    } else {
      FoldOpsPrefix(f, nodes, a, b, |a|);
    }
  }

  lemma {:induction false} FoldOpsPrefix(f: (seq<Node>, Op) -> seq<Node>, nodes: seq<Node>, a: seq<Op>, b: seq<Op>, n: nat)
    requires n <= |a|
    ensures FoldOps(f, nodes, a + b, n) == FoldOps(f, nodes, a, n)
  {
    if n > 0 { FoldOpsPrefix(f, nodes, a, b, n - 1); }
  }

  type Applying = (seq<Node>, seq<Op>) -> seq<Node>

  ghost predicate RunsOn(apply: Applying, nodes: seq<Node>, a: seq<Op>, b: seq<Op>)
  {
    apply(apply(nodes, a), b) == apply(nodes, a + b)
  }

  /** What applying records in order is like: in runs, one after another. */
  ghost predicate Runs(apply: Applying)
  {
    && (forall nodes {:trigger apply(nodes, [])} :: apply(nodes, []) == nodes)
    && (forall nodes, a, b {:trigger RunsOn(apply, nodes, a, b)} :: RunsOn(apply, nodes, a, b))
  }

  function Folding(f: (seq<Node>, Op) -> seq<Node>): Applying
  {
    (nodes: seq<Node>, ops: seq<Op>) => FoldOps(f, nodes, ops, |ops|)
  }

  lemma {:induction false} FoldingRuns(f: (seq<Node>, Op) -> seq<Node>)
    ensures Runs(Folding(f))
  {
    forall nodes, a, b {:trigger RunsOn(Folding(f), nodes, a, b)}
      ensures RunsOn(Folding(f), nodes, a, b)
    {
      FoldOpsJoins(f, nodes, a, b, |b|);
    }
  }

  function ApplyOps(): Applying
  {
    Folding((nodes: seq<Node>, op: Op) => Apply(nodes, op))
  }

  lemma {:induction false} ApplyOpsRuns()
    ensures Runs(ApplyOps())
  {
    FoldingRuns((nodes: seq<Node>, op: Op) => Apply(nodes, op));
  }

  lemma {:induction false} PrintsApply(apply: Applying, ps: seq<Print>, pieces: seq<Piece>, k: nat, nodes: seq<Node>, idx: nat, pos: nat)
    requires Runs(apply) && pieces == Pieces(ps)
    requires forall i: nat, n, x, p {:trigger pieces[i].After(n, x, p)} :: i < |ps| ==> pieces[i].After(n, x, p) == apply(n, ps[i].ops(x, p))
    ensures PiecesAfter(pieces, k, nodes, idx, pos) == apply(nodes, PrintsOps(ps, k, idx, pos))
    decreases |ps| - k
  {
    if k < |ps| {
      var ops, next := ps[k].ops(idx, pos), pos + |pieces[k].Bytes()|;
      assert pieces[k].After(nodes, idx, pos) == apply(nodes, ops);
      PrintsApply(apply, ps, pieces, k + 1, apply(nodes, ops), idx, next);
      assert RunsOn(apply, nodes, ops, PrintsOps(ps, k + 1, idx, next));
    }
  }

  lemma {:induction false} PrintsApplyAll(ps: seq<Print>, nodes: seq<Node>, idx: nat)
    requires forall i :: 0 <= i < |ps| ==> Faithful(ps[i])
    ensures PiecesAfter(Pieces(ps), 0, nodes, idx, 0) == ApplyAll(nodes, PrintsOps(ps, 0, idx, 0))
  {
    var apply, pieces := ApplyOps(), Pieces(ps);
    ApplyOpsRuns();
    forall i: nat, n, x, p {:trigger pieces[i].After(n, x, p)} | i < |ps|
      ensures pieces[i].After(n, x, p) == apply(n, ps[i].ops(x, p))
    {
      assert Faithful(ps[i]) && ps[i].piece.After(n, x, p) == pieces[i].After(n, x, p);
    }
    PrintsApply(apply, ps, pieces, 0, nodes, idx, 0);
  }

  // ----- what runs of records say -----

  type Saying = (seq<Op>, seq<Meaning>) -> bool

  ghost predicate JoinsOn(say: Saying, a: seq<Op>, x: seq<Meaning>, b: seq<Op>, y: seq<Meaning>)
  {
    say(a, x) && say(b, y) ==> say(a + b, x + y)
  }

  /** What saying something is like: runs that do say it, one after the other. */
  ghost predicate Joins(say: Saying)
  {
    && say([], [])
    && forall a, x, b, y {:trigger JoinsOn(say, a, x, b, y)} :: JoinsOn(say, a, x, b, y)
  }

  ghost function SayIn(buffers: seq<seq<byte>>): Saying
  {
    (ops: seq<Op>, says: seq<Meaning>) => SaysAll(buffers, ops, says)
  }

  lemma {:induction false} SaysJoin(buffers: seq<seq<byte>>, a: seq<Op>, x: seq<Meaning>, b: seq<Op>, y: seq<Meaning>)
    requires SaysAll(buffers, a, x) && SaysAll(buffers, b, y)
    ensures SaysAll(buffers, a + b, x + y)
  {
  }

  lemma {:induction false} SayInJoins(buffers: seq<seq<byte>>)
    ensures Joins(SayIn(buffers))
  {
    var say := SayIn(buffers);
    forall a, x, b, y {:trigger JoinsOn(say, a, x, b, y)}
      ensures JoinsOn(say, a, x, b, y)
    {
      if say(a, x) && say(b, y) { SaysJoin(buffers, a, x, b, y); }
    }
  }

  /** The print says it wherever it lies in `buffer`, aligned if it is an archive. */
  ghost predicate SaysIn(say: Saying, buffer: seq<byte>, idx: nat, p: Print)
  {
    forall pos: nat {:trigger p.ops(idx, pos)} ::
      (p.piece.Archive? ==> pos % 4 == 0) && Lies(buffer, pos, p.piece.Bytes()) ==> say(p.ops(idx, pos), p.says)
  }

  lemma {:induction false} PrintSaysHere(c: Parts, say: Saying, buffer: seq<byte>, idx: nat, p: Print, rest: seq<byte>, pos: nat)
    requires SaysIn(say, buffer, idx, p) && p.piece.Fits(c, pos) && pos <= |buffer| && buffer[pos..] == p.piece.Bytes() + rest
    ensures say(p.ops(idx, pos), p.says) && pos + |p.piece.Bytes()| <= |buffer| && buffer[pos + |p.piece.Bytes()|..] == rest
  {
    TailLies(buffer, pos, p.piece.Bytes(), rest);
  }

  lemma {:induction false} PrintsSayStep(say: Saying, idx: nat, ps: seq<Print>, k: nat, pos: nat, next: nat)
    requires Joins(say) && k < |ps| && next == pos + |ps[k].piece.Bytes()|
    requires say(ps[k].ops(idx, pos), ps[k].says) && say(PrintsOps(ps, k + 1, idx, next), PrintsSay(ps, k + 1))
    ensures say(PrintsOps(ps, k, idx, pos), PrintsSay(ps, k))
  {
    assert JoinsOn(say, ps[k].ops(idx, pos), ps[k].says, PrintsOps(ps, k + 1, idx, next), PrintsSay(ps, k + 1));
  }

  lemma {:induction false} PrintsSayRun(c: Parts, say: Saying, buffer: seq<byte>, idx: nat, ps: seq<Print>, pieces: seq<Piece>, k: nat, pos: nat)
    requires Joins(say) && pieces == Pieces(ps) && forall i :: 0 <= i < |ps| ==> SaysIn(say, buffer, idx, ps[i])
    requires PiecesFit(c, pieces, k, pos) && pos <= |buffer| && buffer[pos..] == PiecesBytes(pieces, k)
    ensures say(PrintsOps(ps, k, idx, pos), PrintsSay(ps, k))
    decreases |ps| - k
  {
    if k < |ps| {
      var next := pos + |pieces[k].Bytes()|;
      PrintSaysHere(c, say, buffer, idx, ps[k], PiecesBytes(pieces, k + 1), pos);
      PrintsSayRun(c, say, buffer, idx, ps, pieces, k + 1, next);
      PrintsSayStep(say, idx, ps, k, pos, next);
    }
  }

  /** The records of a buffer say what was printed into it. */
  lemma {:induction false} PrintsSayAll(c: Parts, buffers: seq<seq<byte>>, idx: nat, ps: seq<Print>)
    requires (forall i :: 0 <= i < |ps| ==> Faithful(ps[i])) && PiecesFit(c, Pieces(ps), 0, 0)
    requires idx < |buffers| && buffers[idx] == PiecesBytes(Pieces(ps), 0)
    ensures SaysAll(buffers, PrintsOps(ps, 0, idx, 0), PrintsSay(ps, 0))
  {
    var say, buffer := SayIn(buffers), buffers[idx];
    SayInJoins(buffers);
    forall i | 0 <= i < |ps|
      ensures SaysIn(say, buffer, idx, ps[i])
    {
      FaithfulSays(buffers, idx, ps[i]);
    }
    assert buffer[0..] == buffer;
    PrintsSayRun(c, say, buffer, idx, ps, Pieces(ps), 0, 0);
  }

  lemma {:induction false} FaithfulSays(buffers: seq<seq<byte>>, idx: nat, p: Print)
    requires Faithful(p) && idx < |buffers|
    ensures SaysIn(SayIn(buffers), buffers[idx], idx, p)
  {
    forall pos: nat {:trigger p.ops(idx, pos)} | (p.piece.Archive? ==> pos % 4 == 0) && Lies(buffers[idx], pos, p.piece.Bytes())
      ensures SayIn(buffers)(p.ops(idx, pos), p.says)
    {
      assert SaysAll(buffers, p.ops(idx, pos), p.says);
    }
  }

  // ----- whole inputs -----

  /** A stretch of the input: a printed item, or a compressed member that holds some. */
  datatype Stretch = Loose(one: Print) | Packed(codec: Codec, packed: seq<byte>, prints: seq<Print>)
  {
    function Part(): Part
    {
      if Loose? then Plain(one.piece) else Member(codec, packed, Pieces(prints))
    }

    function Ops(members: nat, pos: nat): seq<Op>
    {
      if Loose? then one.ops(0, pos) else PrintsOps(prints, 0, members, 0)
    }

    function Meanings(): seq<Meaning>
    {
      if Loose? then one.says else PrintsSay(prints, 0)
    }

    /** The buffer it adds, if it is a member. */
    function Buffers(): seq<seq<byte>>
    {
      if Loose? then [] else [PiecesBytes(Pieces(prints), 0)]
    }

    ghost predicate Sound()
    {
      if Loose? then Faithful(one) else forall i :: 0 <= i < |prints| ==> Faithful(prints[i])
    }

    /** Archives stand aligned. A member starts with its codec's magic, and decodes, where it
        stands and within the budget, to its items, from exactly its own bytes. */
    ghost predicate Stands(c: Parts, x: seq<byte>, pos: nat, budget: nat)
      requires pos <= |x|
    {
      match this
      case Loose(p) => p.piece.Fits(c, pos)
      case Packed(_, _, _) =>
        && Sniff(packed) == Some(codec)
        && Yields(c.decode(codec, x[pos..], budget), PiecesBytes(Pieces(prints), 0), |packed|)
        && PiecesFit(c, Pieces(prints), 0, 0)
    }
  }

  /** What it takes from the budget. */
  function OutOf(s: Stretch): nat
  {
    if s.Loose? then 0 else |PiecesBytes(Pieces(s.prints), 0)|
  }

  /** No codec's magic starts another's. */
  lemma {:induction false} SniffPrefix(x: seq<byte>, packed: seq<byte>, pos: nat)
    requires Lies(x, pos, packed) && Sniff(packed).Some?
    ensures pos < |x| && x[pos] != 0 && Sniff(x[pos..]) == Sniff(packed)
  {
    assert packed <= x[pos..] by { assert x[pos..][..|packed|] == x[pos..pos + |packed|]; }
    assert x[pos] == x[pos..][0] == packed[0];
  }

  lemma {:induction false} StretchFits(c: Parts, x: seq<byte>, pos: nat, s: Stretch, budget: nat)
    requires forall x, pos: nat {:trigger LookAt(x, pos)} :: c.look(x, pos) == LookAt(x, pos)
    requires pos <= |x| && Lies(x, pos, s.Part().Bytes()) && s.Stands(c, x, pos, budget)
    ensures s.Part().Fits(c, x, pos, budget)
  {
    if s.Packed? {
      SniffPrefix(x, s.packed, pos);
      FindsStream(x, pos, s.codec);
    }
  }

  /** The state after a stretch: its records applied, its buffer added and paid for. */
  lemma {:induction false} StretchAfter(s: Stretch, now: State, pos: nat)
    requires s.Sound() && OutOf(s) <= now.budget
    ensures s.Part().After(now, pos)
            == State(now.buffers + s.Buffers(), ApplyAll(now.nodes, s.Ops(|now.buffers|, pos)), now.budget - OutOf(s))
  {
    if s.Loose? {
      assert s.one.piece.After(now.nodes, 0, pos) == ApplyAll(now.nodes, s.one.ops(0, pos));
      assert now.buffers + [] == now.buffers;
    } else {
      PrintsApplyAll(s.prints, now.nodes, |now.buffers|);
    }
  }

  lemma {:induction false} StretchSays(c: Parts, buffers: seq<seq<byte>>, s: Stretch, members: nat, pos: nat, budget: nat)
    requires |buffers| > 0 && pos <= |buffers[0]| && s.Sound() && s.Stands(c, buffers[0], pos, budget)
    requires Lies(buffers[0], pos, s.Part().Bytes())
    requires s.Packed? ==> members < |buffers| && buffers[members] == PiecesBytes(Pieces(s.prints), 0)
    ensures SaysAll(buffers, s.Ops(members, pos), s.Meanings())
  {
    if s.Loose? {
      assert Faithful(s.one) && SaysAll(buffers, s.one.ops(0, pos), s.one.says);
    } else {
      PrintsSayAll(c, buffers, members, s.prints);
    }
  }

  // ----- legs -----

  /** A stretch as far as the chain looks: its part and its bytes, what its records ask when
      `members` buffers stand before, what they say, the buffers it adds and what they cost. */
  datatype Leg = Leg(part: Part, bytes: seq<byte>, ops: (nat, nat) -> seq<Op>, says: seq<Meaning>, buffers: seq<seq<byte>>, cost: nat)

  function LegOf(s: Stretch): Leg
  {
    Leg(s.Part(), s.Part().Bytes(), (members: nat, pos: nat) => s.Ops(members, pos), s.Meanings(), s.Buffers(), OutOf(s))
  }

  /** Its bytes are its part's; what it does to the state is what its operations, buffers and
      cost say. */
  ghost predicate Moves(apply: Applying, l: Leg)
  {
    && l.bytes == l.part.Bytes()
    && forall s: State, pos: nat {:trigger l.part.After(s, pos)} :: l.cost <= s.budget ==>
         l.part.After(s, pos) == State(s.buffers + l.buffers, apply(s.nodes, l.ops(|s.buffers|, pos)), s.budget - l.cost)
  }

  /** At `pos` of the input, with its buffers right after the first `members`, it is read and
      says what it says. */
  ghost predicate Reads(c: Parts, l: Leg, x: seq<byte>, pos: nat, budget: nat)
    requires pos <= |x|
  {
    && l.cost <= budget
    && (Lies(x, pos, l.bytes) ==> l.part.Fits(c, x, pos, budget))
    && forall buffers, members: nat {:trigger SaysAll(buffers, l.ops(members, pos), l.says)} ::
         |buffers| > 0 && buffers[0] == x && Lies(x, pos, l.bytes)
         && members + |l.buffers| <= |buffers| && buffers[members..members + |l.buffers|] == l.buffers
         ==> SaysAll(buffers, l.ops(members, pos), l.says)
  }

  lemma {:induction false} LegMoves(s: Stretch)
    requires s.Sound()
    ensures Moves(ApplyOps(), LegOf(s))
  {
    var l := LegOf(s);
    forall now: State, pos: nat {:trigger l.part.After(now, pos)} | l.cost <= now.budget
      ensures l.part.After(now, pos) == State(now.buffers + l.buffers, ApplyOps()(now.nodes, l.ops(|now.buffers|, pos)), now.budget - l.cost)
    {
      StretchAfter(s, now, pos);
    }
  }

  lemma {:induction false} LegReads(c: Parts, s: Stretch, x: seq<byte>, pos: nat, budget: nat)
    requires forall x, pos: nat {:trigger LookAt(x, pos)} :: c.look(x, pos) == LookAt(x, pos)
    requires pos <= |x| && s.Sound() && s.Stands(c, x, pos, budget) && OutOf(s) <= budget
    ensures Reads(c, LegOf(s), x, pos, budget)
  {
    var l := LegOf(s);
    if Lies(x, pos, l.bytes) {
      StretchFits(c, x, pos, s, budget);
      forall buffers, members: nat {:trigger SaysAll(buffers, l.ops(members, pos), l.says)} |
        |buffers| > 0 && buffers[0] == x && members + |l.buffers| <= |buffers| && buffers[members..members + |l.buffers|] == l.buffers
        ensures SaysAll(buffers, l.ops(members, pos), l.says)
      {
        if s.Packed? { assert buffers[members] == buffers[members..members + 1][0] == l.buffers[0]; }
        StretchSays(c, buffers, s, members, pos, budget);
      }
    }
  }

  function PartsOfLegs(ls: seq<Leg>): (r: seq<Part>)
    ensures |r| == |ls|
  {
    seq(|ls|, k requires 0 <= k < |ls| => ls[k].part)
  }

  function LegsBytes(ls: seq<Leg>, k: nat): seq<byte>
    decreases |ls| - k
  {
    if k >= |ls| then [] else ls[k].bytes + LegsBytes(ls, k + 1)
  }

  lemma {:induction false} LegsArePrinted(ls: seq<Leg>, parts: seq<Part>, k: nat)
    requires parts == PartsOfLegs(ls) && forall i :: 0 <= i < |ls| ==> parts[i].Bytes() == ls[i].bytes
    ensures PartsBytes(parts, k) == LegsBytes(ls, k)
    decreases |ls| - k
  {
    if k < |ls| { LegsArePrinted(ls, parts, k + 1); }
  }

  /** All records of the input from leg `k` on, when `members` buffers stand before. */
  function LegsOps(ls: seq<Leg>, k: nat, members: nat, pos: nat): seq<Op>
    decreases |ls| - k
  {
    if k >= |ls| then [] else ls[k].ops(members, pos) + LegsOps(ls, k + 1, members + |ls[k].buffers|, pos + |ls[k].bytes|)
  }

  function LegsSay(ls: seq<Leg>, k: nat): seq<Meaning>
    decreases |ls| - k
  {
    if k >= |ls| then [] else ls[k].says + LegsSay(ls, k + 1)
  }

  function LegsBuffers(ls: seq<Leg>, k: nat): seq<seq<byte>>
    decreases |ls| - k
  {
    if k >= |ls| then [] else ls[k].buffers + LegsBuffers(ls, k + 1)
  }

  function LegsCost(ls: seq<Leg>, k: nat): nat
    decreases |ls| - k
  {
    if k >= |ls| then 0 else ls[k].cost + LegsCost(ls, k + 1)
  }

  type Reading = (Leg, nat, nat) -> bool

  ghost function ReadIn(c: Parts, x: seq<byte>): Reading
  {
    (l: Leg, pos: nat, budget: nat) => pos <= |x| && Reads(c, l, x, pos, budget)
  }

  /** Every leg is read where the ones before it end. */
  ghost predicate AllRead(reading: Reading, ls: seq<Leg>, k: nat, pos: nat, budget: nat)
    decreases |ls| - k
  {
    k < |ls| ==>
      && ls[k].cost <= budget && reading(ls[k], pos, budget)
      && AllRead(reading, ls, k + 1, pos + |ls[k].bytes|, budget - ls[k].cost)
  }

  lemma {:induction false} CostFits(reading: Reading, ls: seq<Leg>, k: nat, pos: nat, budget: nat)
    requires AllRead(reading, ls, k, pos, budget)
    ensures LegsCost(ls, k) <= budget
    decreases |ls| - k
  {
    if k < |ls| { CostFits(reading, ls, k + 1, pos + |ls[k].bytes|, budget - ls[k].cost); }
  }

  /** The state once legs `k..` are unpacked. */
  function Unpacked(apply: Applying, s: State, ls: seq<Leg>, k: nat, pos: nat): State
    requires LegsCost(ls, k) <= s.budget
  {
    State(s.buffers + LegsBuffers(ls, k), apply(s.nodes, LegsOps(ls, k, |s.buffers|, pos)), s.budget - LegsCost(ls, k))
  }

  lemma {:induction false} UnpackedStep(apply: Applying, s: State, ls: seq<Leg>, k: nat, pos: nat, after: State)
    requires Runs(apply) && k < |ls| && LegsCost(ls, k) <= s.budget
    requires after == State(s.buffers + ls[k].buffers, apply(s.nodes, ls[k].ops(|s.buffers|, pos)), s.budget - ls[k].cost)
    ensures LegsCost(ls, k + 1) <= after.budget
    ensures Unpacked(apply, after, ls, k + 1, pos + |ls[k].bytes|) == Unpacked(apply, s, ls, k, pos)
  {
    var next, members := pos + |ls[k].bytes|, |s.buffers| + |ls[k].buffers|;
    Associate(s.buffers, ls[k].buffers, LegsBuffers(ls, k + 1));
    assert RunsOn(apply, s.nodes, ls[k].ops(|s.buffers|, pos), LegsOps(ls, k + 1, members, next));
  }

  /** A leg that is read is one the chain takes. */
  ghost predicate Taken(c: Parts, x: seq<byte>, reading: Reading, l: Leg, pos: nat, budget: nat)
  {
    reading(l, pos, budget) ==> pos <= |x| && (Lies(x, pos, l.bytes) ==> l.part.Fits(c, x, pos, budget))
  }

  lemma {:induction false} LegFits(c: Parts, x: seq<byte>, reading: Reading, l: Leg, rest: seq<byte>, pos: nat, budget: nat)
    requires Taken(c, x, reading, l, pos, budget) && reading(l, pos, budget) && pos <= |x| && x[pos..] == l.bytes + rest
    ensures l.part.Fits(c, x, pos, budget) && pos + |l.bytes| <= |x| && x[pos + |l.bytes|..] == rest
  {
    TailLies(x, pos, l.bytes, rest);
  }

  lemma {:induction false} LegsUnpack(c: Parts, apply: Applying, reading: Reading, x: seq<byte>, s: State, pos: nat, ls: seq<Leg>, parts: seq<Part>, k: nat)
    requires Runs(apply) && forall i :: 0 <= i < |ls| ==> Moves(apply, ls[i])
    requires forall l, p, b {:trigger Taken(c, x, reading, l, p, b)} :: Taken(c, x, reading, l, p, b)
    requires parts == PartsOfLegs(ls) && pos <= |x| && x[pos..] == LegsBytes(ls, k)
    requires AllRead(reading, ls, k, pos, s.budget) && LegsCost(ls, k) <= s.budget
    ensures Unpacks(c, x, s, pos, parts, k, Unpacked(apply, s, ls, k, pos))
    decreases |ls| - k
  {
    if k < |ls| {
      assert Moves(apply, ls[k]) && Taken(c, x, reading, ls[k], pos, s.budget);
      LegFits(c, x, reading, ls[k], LegsBytes(ls, k + 1), pos, s.budget);
      var after := ls[k].part.After(s, pos);
      UnpackedStep(apply, s, ls, k, pos, after);
      LegsUnpack(c, apply, reading, x, after, pos + |ls[k].bytes|, ls, parts, k + 1);
    } else {
      assert s.buffers + [] == s.buffers;
    }
  }

  lemma {:induction false} BuffersOf(buffers: seq<seq<byte>>, ls: seq<Leg>, k: nat, members: nat)
    requires k < |ls| && members <= |buffers| && buffers[members..] == LegsBuffers(ls, k)
    ensures var after := members + |ls[k].buffers|;
            after <= |buffers| && buffers[members..after] == ls[k].buffers && buffers[after..] == LegsBuffers(ls, k + 1)
  {
    var own, rest := ls[k].buffers, buffers[members..];
    assert rest[..|own|] == buffers[members..members + |own|];
    assert rest[|own|..] == buffers[members + |own|..];
  }

  /** Each leg from `k` on says what it says where it stands. */
  ghost predicate AllSay(say: Saying, ls: seq<Leg>, k: nat, members: nat, pos: nat)
    decreases |ls| - k
  {
    k < |ls| ==>
      && say(ls[k].ops(members, pos), ls[k].says)
      && AllSay(say, ls, k + 1, members + |ls[k].buffers|, pos + |ls[k].bytes|)
  }

  /** A leg that is read, its buffers after the first `members`, says what it says. */
  ghost predicate Said(say: Saying, reading: Reading, buffers: seq<seq<byte>>, l: Leg, members: nat, pos: nat, budget: nat)
    requires |buffers| > 0
  {
    && reading(l, pos, budget) && Lies(buffers[0], pos, l.bytes)
    && members + |l.buffers| <= |buffers| && buffers[members..members + |l.buffers|] == l.buffers
    ==> say(l.ops(members, pos), l.says)
  }

  lemma {:induction false} LegSays(c: Parts, buffers: seq<seq<byte>>, l: Leg, members: nat, pos: nat, budget: nat)
    requires |buffers| > 0
    ensures Said(SayIn(buffers), ReadIn(c, buffers[0]), buffers, l, members, pos, budget)
  {
    assert SayIn(buffers)(l.ops(members, pos), l.says) == SaysAll(buffers, l.ops(members, pos), l.says);
  }

  lemma {:induction false} LegsAllSay(say: Saying, reading: Reading, buffers: seq<seq<byte>>, ls: seq<Leg>, k: nat, members: nat, pos: nat, budget: nat)
    requires |buffers| > 0 && pos <= |buffers[0]| && buffers[0][pos..] == LegsBytes(ls, k)
    requires forall l, m: nat, p: nat, b: nat {:trigger Said(say, reading, buffers, l, m, p, b)} :: Said(say, reading, buffers, l, m, p, b)
    requires AllRead(reading, ls, k, pos, budget)
    requires members <= |buffers| && buffers[members..] == LegsBuffers(ls, k)
    ensures AllSay(say, ls, k, members, pos)
    decreases |ls| - k
  {
    if k < |ls| {
      TailLies(buffers[0], pos, ls[k].bytes, LegsBytes(ls, k + 1));
      BuffersOf(buffers, ls, k, members);
      assert Said(say, reading, buffers, ls[k], members, pos, budget);
      LegsAllSay(say, reading, buffers, ls, k + 1, members + |ls[k].buffers|, pos + |ls[k].bytes|, budget - ls[k].cost);
    }
  }

  lemma {:induction false} LegsSayRun(say: Saying, ls: seq<Leg>, k: nat, members: nat, pos: nat)
    requires Joins(say) && AllSay(say, ls, k, members, pos)
    ensures say(LegsOps(ls, k, members, pos), LegsSay(ls, k))
    decreases |ls| - k
  {
    if k < |ls| {
      var next, after := pos + |ls[k].bytes|, members + |ls[k].buffers|;
      LegsSayRun(say, ls, k + 1, after, next);
      assert JoinsOn(say, ls[k].ops(members, pos), ls[k].says, LegsOps(ls, k + 1, after, next), LegsSay(ls, k + 1));
    }
  }

  lemma {:induction false} LegsSayAll(c: Parts, buffers: seq<seq<byte>>, ls: seq<Leg>, budget: nat)
    requires |buffers| > 0 && buffers[0] == LegsBytes(ls, 0) && buffers[1..] == LegsBuffers(ls, 0)
    requires AllRead(ReadIn(c, buffers[0]), ls, 0, 0, budget)
    ensures SaysAll(buffers, LegsOps(ls, 0, 1, 0), LegsSay(ls, 0))
  {
    var say, reading := SayIn(buffers), ReadIn(c, buffers[0]);
    forall l, m: nat, p: nat, b: nat {:trigger Said(say, reading, buffers, l, m, p, b)}
      ensures Said(say, reading, buffers, l, m, p, b)
    {
      LegSays(c, buffers, l, m, p, b);
    }
    assert buffers[0][0..] == buffers[0];
    LegsAllSay(say, reading, buffers, ls, 0, 1, 0, budget);
    SayInJoins(buffers);
    LegsSayRun(say, ls, 0, 1, 0);
  }

  lemma {:induction false} LegsRun(c: Parts, apply: Applying, x: seq<byte>, s: State, ls: seq<Leg>)
    requires c.Progress() && Runs(apply) && forall i :: 0 <= i < |ls| ==> Moves(apply, ls[i])
    requires x == LegsBytes(ls, 0) && AllRead(ReadIn(c, x), ls, 0, 0, s.budget) && LegsCost(ls, 0) <= s.budget
    ensures Chain(c, x, s, 0) == Ok(Unpacked(apply, s, ls, 0, 0))
  {
    var reading, parts := ReadIn(c, x), PartsOfLegs(ls);
    forall l, p, b {:trigger Taken(c, x, reading, l, p, b)}
      ensures Taken(c, x, reading, l, p, b)
    {
    }
    forall i | 0 <= i < |ls|
      ensures parts[i].Bytes() == ls[i].bytes
    {
      assert Moves(apply, ls[i]);
    }
    assert x[0..] == x;
    LegsUnpack(c, apply, reading, x, s, 0, ls, parts, 0);
    LegsArePrinted(ls, parts, 0);
    ChainUndoesPrint(c, x, s, 0, parts, 0, Unpacked(apply, s, ls, 0, 0));
  }

  lemma {:induction false} LegsSpeak(c: Parts, x: seq<byte>, ls: seq<Leg>, budget: nat)
    requires c.Progress() && x == LegsBytes(ls, 0) && AllRead(ReadIn(c, x), ls, 0, 0, budget)
    ensures SaysAll([x] + LegsBuffers(ls, 0), LegsOps(ls, 0, 1, 0), LegsSay(ls, 0))
  {
    var buffers := [x] + LegsBuffers(ls, 0);
    assert buffers[0] == x && buffers[1..] == LegsBuffers(ls, 0);
    LegsSayAll(c, buffers, ls, budget);
  }

  /** An input whose legs are all read unpacks to all their records, applied in order, with the
      members' bytes in buffers of their own, paid for from the budget; and each record's span
      holds the bytes the record was written with. */
  lemma {:induction false} LegsChain(c: Parts, apply: Applying, x: seq<byte>, nodes: seq<Node>, budget: nat, ls: seq<Leg>)
    requires c.Progress() && Runs(apply) && forall i :: 0 <= i < |ls| ==> Moves(apply, ls[i])
    requires x == LegsBytes(ls, 0) && AllRead(ReadIn(c, x), ls, 0, 0, budget)
    ensures LegsCost(ls, 0) <= budget
    ensures var buffers, ops := [x] + LegsBuffers(ls, 0), LegsOps(ls, 0, 1, 0);
            && Chain(c, x, State([x], nodes, budget), 0) == Ok(State(buffers, apply(nodes, ops), budget - LegsCost(ls, 0)))
            && SaysAll(buffers, ops, LegsSay(ls, 0))
  {
    CostFits(ReadIn(c, x), ls, 0, 0, budget);
    LegsRun(c, apply, x, State([x], nodes, budget), ls);
    LegsSpeak(c, x, ls, budget);
  }
}
