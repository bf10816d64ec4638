/** A chain of cpio archives and compressed members, as the kernel unpacks an initramfs
    (`crates/lamfold-cpio/src/cpio.rs`): the loop over a
    buffer, members, and the decompression budget. */
module CpioChain {
  import opened Bytes
  import opened CpioArchive
  import opened CpioRecords
  import opened CpioTree
  import opened Frontend

  datatype Codec = Gzip | Zstd | Xz | Lzma | Lz4Legacy | Bzip2 | Lzo

  /** `StreamCodec::sniff`. */
  function Sniff(x: seq<byte>): Option<Codec>
  {
    if [0x1f, 0x8b] <= x then Some(Gzip)
    else if [0x28, 0xb5, 0x2f, 0xfd] <= x then Some(Zstd)
    else if [0xfd, 0x37, 0x7a, 0x58, 0x5a, 0x00] <= x then Some(Xz)
    else if [0x5d, 0x00, 0x00] <= x then Some(Lzma)
    else if [0x02, 0x21, 0x4c, 0x18] <= x then Some(Lz4Legacy)
    else if [0x42, 0x5a, 0x68] <= x then Some(Bzip2)
    else if [0x89, 0x4c, 0x5a, 0x4f] <= x then Some(Lzo)
    else None
  }

  /** What a turn of the loop finds at an offset, zeros skipped. */
  datatype Found = End | Stream(codec: Codec, at: nat) | Newc(at: nat) | Junk

  type Look = (seq<byte>, nat) -> Found
  type Decode = (Codec, seq<byte>, nat) -> Result<(seq<byte>, nat)>
  type Fold = (seq<byte>, nat, seq<Node>, nat) -> Result<(seq<Node>, nat)>

  /** What the loop is made of: what it finds, `decode_stream`, and how an archive is folded
      into the tree. */
  datatype Parts = Parts(look: Look, decode: Decode, fold: Fold)
  {
    /** Nothing is found past the end, and what is found lies ahead; `decode_stream` never exceeds the cap it is given, and uses
        some of its input; an archive ends after it starts. */
    ghost predicate Progress()
    {
      && (forall x, pos: nat {:trigger look(x, pos)} ::
            if pos >= |x| then look(x, pos) == End
            else look(x, pos).Stream? || look(x, pos).Newc? ==> pos <= look(x, pos).at < |x|)
      && (forall c, x, cap {:trigger decode(c, x, cap)} ::
            decode(c, x, cap).Ok? ==> |decode(c, x, cap).value.0| <= cap && 1 <= decode(c, x, cap).value.1 <= |x|)
      && (forall a, idx, nodes, pos {:trigger fold(a, idx, nodes, pos)} ::
            fold(a, idx, nodes, pos).Ok? ==> fold(a, idx, nodes, pos).value.1 > pos)
    }
  }

  // ----- what the loop finds -----

  function NextNonZero(x: seq<byte>, pos: nat): Option<nat>
    decreases |x| - pos
  {
    if pos >= |x| then None else if x[pos] != 0 then Some(pos) else NextNonZero(x, pos + 1)
  }

  lemma {:induction false} NextNonZeroIsNext(x: seq<byte>, pos: nat)
    ensures match NextNonZero(x, pos)
            case Some(p) => pos <= p < |x| && x[p] != 0 && forall i :: pos <= i < p ==> x[i] == 0
            case None => forall i :: pos <= i < |x| ==> x[i] == 0
    decreases |x| - pos
  {
    if pos < |x| && x[pos] == 0 { NextNonZeroIsNext(x, pos + 1); }
  }

  function LookAt(x: seq<byte>, pos: nat): (r: Found)
    ensures if pos >= |x| then r == End else r.Stream? || r.Newc? ==> pos <= r.at < |x|
  {
    NextNonZeroIsNext(x, pos);
    match NextNonZero(x, pos)
    case None => End
    case Some(p) =>
      match Sniff(x[p..])
      case Some(codec) => Stream(codec, p)
      case None => if MagicAt(x, p).None? || p % 4 != 0 then Junk else Newc(p)
  }

  lemma {:induction false} SkipZeros(x: seq<byte>, pos: nat, n: nat)
    requires Lies(x, pos, Zeros(n))
    ensures LookAt(x, pos) == LookAt(x, pos + n)
    decreases n
  {
    if n > 0 {
      assert x[pos] == x[pos..pos + n][0] == 0;
      assert x[pos + 1..pos + 1 + (n - 1)] == x[pos..pos + n][1..] == Zeros(n - 1);
      SkipZeros(x, pos + 1, n - 1);
    }
  }

  lemma {:induction false} FindsArchive(x: seq<byte>, pos: nat)
    requires pos < |x| && x[pos] == 0x30 && MagicAt(x, pos).Some? && pos % 4 == 0
    ensures LookAt(x, pos) == Newc(pos)
  {
    assert x[pos..][0] == 0x30;
  }

  lemma {:induction false} FindsStream(x: seq<byte>, pos: nat, codec: Codec)
    requires pos < |x| && x[pos] != 0 && Sniff(x[pos..]) == Some(codec)
    ensures LookAt(x, pos) == Stream(codec, pos)
  {
  }

  // ----- the chain -----

  function Left(x: seq<byte>, pos: nat): nat
  {
    Max(0, |x| - pos)
  }

  /** `insert_chain` inside a decompressed member: archives only. */
  function MemberChain(c: Parts, x: seq<byte>, idx: nat, nodes: seq<Node>, pos: nat): Result<seq<Node>>
    requires c.Progress()
    decreases Left(x, pos)
  {
    match c.look(x, pos)
    case End => Ok(nodes)
    case Newc(p) =>
      var (after, next) :- c.fold(x, idx, nodes, p);
      MemberChain(c, x, idx, after, next)
    case Stream(_, _) => Err(Corrupt)
    case Junk => Err(Corrupt)
  }

  datatype State = State(buffers: seq<seq<byte>>, nodes: seq<Node>, budget: nat)

  /** The state once a stream is decoded to `out` and its archives are folded in. */
  function WithMember(s: State, out: seq<byte>, nodes: seq<Node>): State
  {
    State(s.buffers + [out], nodes, if |out| <= s.budget then s.budget - |out| else 0)
  }

  /** `insert_chain` on the input `x`: the kernel does not decompress inside a decompressed
      member, so the recursion is one deep. */
  function Chain(c: Parts, x: seq<byte>, s: State, pos: nat): Result<State>
    requires c.Progress()
    decreases Left(x, pos)
  {
    match c.look(x, pos)
    case End => Ok(s)
    case Newc(p) =>
      var (after, next) :- c.fold(x, 0, s.nodes, p);
      Chain(c, x, s.(nodes := after), next)
    case Stream(codec, p) =>
      var (out, used) :- c.decode(codec, x[p..], s.budget);
      var nodes :- MemberChain(c, out, |s.buffers|, s.nodes, 0);
      Chain(c, x, WithMember(s, out, nodes), p + used)
    case Junk => Err(Corrupt)
  }

  // ----- what a chain keeps -----

  /** Each archive keeps `inv`, in whichever buffer it is. */
  ghost predicate FoldKeeps(c: Parts, inv: State -> bool)
  {
    forall s: State, idx: nat, pos: nat {:trigger c.fold(s.buffers[idx], idx, s.nodes, pos)} ::
      idx < |s.buffers| && inv(s) && c.fold(s.buffers[idx], idx, s.nodes, pos).Ok?
      ==> inv(s.(nodes := c.fold(s.buffers[idx], idx, s.nodes, pos).value.0))
  }

  /** A buffer added within the budget keeps `inv`. */
  ghost predicate MemberKeeps(inv: State -> bool)
  {
    forall s, out {:trigger WithMember(s, out, s.nodes)} :: inv(s) && |out| <= s.budget ==> inv(WithMember(s, out, s.nodes))
  }

  lemma {:induction false} MemberChainKeeps(c: Parts, inv: State -> bool, s: State, idx: nat, pos: nat)
    requires c.Progress() && FoldKeeps(c, inv) && idx < |s.buffers| && inv(s)
    ensures var r := MemberChain(c, s.buffers[idx], idx, s.nodes, pos); r.Ok? ==> inv(s.(nodes := r.value))
    decreases Left(s.buffers[idx], pos)
  {
    var found := c.look(s.buffers[idx], pos);
    if found.Newc? {
      var f := c.fold(s.buffers[idx], idx, s.nodes, found.at);
      if f.Ok? { MemberChainKeeps(c, inv, s.(nodes := f.value.0), idx, f.value.1); }
    }
  }

  /** Whatever every archive and every added buffer keeps, every run keeps. */
  lemma {:induction false} ChainKeeps(c: Parts, inv: State -> bool, x: seq<byte>, s: State, pos: nat)
    requires c.Progress() && FoldKeeps(c, inv) && MemberKeeps(inv)
    requires |s.buffers| > 0 && s.buffers[0] == x && inv(s)
    ensures var r := Chain(c, x, s, pos); r.Ok? ==> inv(r.value)
    decreases Left(x, pos)
  {
    match c.look(x, pos)
    case End =>
    case Newc(p) =>
      var f := c.fold(s.buffers[0], 0, s.nodes, p);
      if f.Ok? { ChainKeeps(c, inv, x, s.(nodes := f.value.0), f.value.1); }
    case Stream(codec, p) =>
      var d := c.decode(codec, x[p..], s.budget);
      if d.Ok? {
        var inside := WithMember(s, d.value.0, s.nodes);
        assert inside.buffers[|s.buffers|] == d.value.0 && inside.buffers[0] == x;
        MemberChainKeeps(c, inv, inside, |s.buffers|, 0);
        var m := MemberChain(c, d.value.0, |s.buffers|, s.nodes, 0);
        if m.Ok? { ChainKeeps(c, inv, x, WithMember(s, d.value.0, m.value), p + d.value.1); }
      }
    case Junk =>
  }

  /** The first `n` buffers' lengths, added up. */
  function TotalLength(buffers: seq<seq<byte>>, n: nat): nat
    requires n <= |buffers|
  {
    if n == 0 then 0 else TotalLength(buffers, n - 1) + |buffers[n - 1]|
  }

  lemma {:induction false} TotalLengthGrows(buffers: seq<seq<byte>>, x: seq<byte>, n: nat)
    requires n <= |buffers|
    ensures TotalLength(buffers + [x], n) == TotalLength(buffers, n)
  {
    if n > 0 { TotalLengthGrows(buffers, x, n - 1); }
  }

  /** Decompressed bytes and budget left, together. */
  function Total(s: State): nat
  {
    TotalLength(s.buffers, |s.buffers|) + s.budget
  }

  lemma {:induction false} WithMemberKeepsTotal(s: State, out: seq<byte>, nodes: seq<Node>)
    requires |out| <= s.budget
    ensures Total(WithMember(s, out, nodes)) == Total(s)
  {
    TotalLengthGrows(s.buffers, out, |s.buffers|);
  }

  /** Over any run: buffers are only added, and decompressed bytes and budget left add up to
      what they were, so all members together stay within the first budget. */
  lemma {:induction false} ChainConserves(c: Parts, s: State, pos: nat)
    requires c.Progress() && |s.buffers| > 0
    ensures var r := Chain(c, s.buffers[0], s, pos);
            r.Ok? ==> s.buffers <= r.value.buffers && Total(r.value) == Total(s)
  {
    var inv := (t: State) => s.buffers <= t.buffers && Total(t) == Total(s);
    assert MemberKeeps(inv) by {
      forall t: State, out | inv(t) && |out| <= t.budget
        ensures inv(WithMember(t, out, t.nodes))
      {
        WithMemberKeepsTotal(t, out, t.nodes);
      }
    }
    ChainKeeps(c, inv, s.buffers[0], s, pos);
  }

  // ----- one turn of the loop -----

  lemma {:induction false} MemberSkips(c: Parts, x: seq<byte>, idx: nat, nodes: seq<Node>, pos: nat, next: nat)
    requires c.Progress() && c.look(x, pos) == c.look(x, next)
    ensures MemberChain(c, x, idx, nodes, pos) == MemberChain(c, x, idx, nodes, next)
  {
  }

  lemma {:induction false} MemberTakes(c: Parts, x: seq<byte>, idx: nat, nodes: seq<Node>, pos: nat, after: seq<Node>, next: nat)
    requires c.Progress() && c.look(x, pos) == Newc(pos) && Yields(c.fold(x, idx, nodes, pos), after, next)
    ensures MemberChain(c, x, idx, nodes, pos) == MemberChain(c, x, idx, after, next)
  {
  }

  lemma {:induction false} ChainSkips(c: Parts, x: seq<byte>, s: State, pos: nat, next: nat)
    requires c.Progress() && c.look(x, pos) == c.look(x, next)
    ensures Chain(c, x, s, pos) == Chain(c, x, s, next)
  {
  }

  lemma {:induction false} ChainTakes(c: Parts, x: seq<byte>, s: State, pos: nat, after: seq<Node>, next: nat)
    requires c.Progress() && c.look(x, pos) == Newc(pos) && Yields(c.fold(x, 0, s.nodes, pos), after, next)
    ensures Chain(c, x, s, pos) == Chain(c, x, s.(nodes := after), next)
  {
  }

  lemma {:induction false} ChainDecodes(c: Parts, x: seq<byte>, s: State, pos: nat, codec: Codec, out: seq<byte>, used: nat, nodes: seq<Node>)
    requires c.Progress() && c.look(x, pos) == Stream(codec, pos) && Yields(c.decode(codec, x[pos..], s.budget), out, used)
    requires MemberChain(c, out, |s.buffers|, s.nodes, 0) == Ok(nodes)
    ensures Chain(c, x, s, pos) == Chain(c, x, WithMember(s, out, nodes), pos + used)
  {
  }

  // ----- printed chains -----

  /** What an archive does to the tree, at an offset of a buffer. */
  type Effect = (seq<Node>, nat, nat) -> seq<Node>

  /** What stands between the ends of a buffer without members: zeros, or an archive. */
  datatype Piece = Gap(n: nat) | Archive(bytes: seq<byte>, effect: Effect)
  {
    function Bytes(): seq<byte>
    {
      if Gap? then Zeros(n) else bytes
    }

    function After(nodes: seq<Node>, idx: nat, pos: nat): seq<Node>
    {
      if Gap? then nodes else effect(nodes, idx, pos)
    }

    /** Wherever its bytes lie, aligned if it is an archive, the loop does what it says. */
    ghost predicate Fits(c: Parts, pos: nat)
    {
      if Gap? then Skipped(c, Zeros(n)) else pos % 4 == 0 && FoldsAs(c, bytes, effect)
    }
  }

  ghost predicate Skipped(c: Parts, x: seq<byte>)
  {
    forall a: seq<byte>, at: nat {:trigger Lies(a, at, x), c.look(a, at)} :: Lies(a, at, x) ==> c.look(a, at) == c.look(a, at + |x|)
  }

  ghost predicate FoldsAs(c: Parts, x: seq<byte>, effect: Effect)
  {
    && (forall a: seq<byte>, at: nat {:trigger Lies(a, at, x), c.look(a, at)} ::
          at % 4 == 0 && Lies(a, at, x) ==> c.look(a, at) == Newc(at))
    && (forall a: seq<byte>, at: nat, idx: nat, nodes: seq<Node> {:trigger Lies(a, at, x), c.fold(a, idx, nodes, at)} ::
          at % 4 == 0 && Lies(a, at, x) ==> Yields(c.fold(a, idx, nodes, at), effect(nodes, idx, at), at + |x|))
  }

  /** One piece inside a member. */
  lemma {:induction false} PieceInMember(c: Parts, x: seq<byte>, idx: nat, nodes: seq<Node>, pos: nat, p: Piece)
    requires c.Progress() && p.Fits(c, pos) && Lies(x, pos, p.Bytes())
    ensures MemberChain(c, x, idx, nodes, pos) == MemberChain(c, x, idx, p.After(nodes, idx, pos), pos + |p.Bytes()|)
  {
    if p.Gap? {
      MemberSkips(c, x, idx, nodes, pos, pos + p.n);
    } else {
      assert c.fold(x, idx, nodes, pos).Ok?;
      MemberTakes(c, x, idx, nodes, pos, p.effect(nodes, idx, pos), pos + |p.bytes|);
    }
  }

  /** One piece of the input. */
  lemma {:induction false} PieceInChain(c: Parts, x: seq<byte>, s: State, pos: nat, p: Piece)
    requires c.Progress() && p.Fits(c, pos) && Lies(x, pos, p.Bytes())
    ensures Chain(c, x, s, pos) == Chain(c, x, s.(nodes := p.After(s.nodes, 0, pos)), pos + |p.Bytes()|)
  {
    if p.Gap? {
      ChainSkips(c, x, s, pos, pos + p.n);
    } else {
      assert c.fold(x, 0, s.nodes, pos).Ok?;
      ChainTakes(c, x, s, pos, p.effect(s.nodes, 0, pos), pos + |p.bytes|);
    }
  }

  /** Pieces `k..`, printed one after another. */
  function PiecesBytes(ps: seq<Piece>, k: nat): seq<byte>
    decreases |ps| - k
  {
    if k >= |ps| then [] else ps[k].Bytes() + PiecesBytes(ps, k + 1)
  }

  /** The tree after pieces `k..`, when they stand at `pos` of buffer `idx`. */
  function PiecesAfter(ps: seq<Piece>, k: nat, nodes: seq<Node>, idx: nat, pos: nat): seq<Node>
    decreases |ps| - k
  {
    if k >= |ps| then nodes else PiecesAfter(ps, k + 1, ps[k].After(nodes, idx, pos), idx, pos + |ps[k].Bytes()|)
  }

  ghost predicate PiecesFit(c: Parts, ps: seq<Piece>, k: nat, pos: nat)
    decreases |ps| - k
  {
    k < |ps| ==> ps[k].Fits(c, pos) && PiecesFit(c, ps, k + 1, pos + |ps[k].Bytes()|)
  }

  /** A member made of pieces folds to their records, in order. */
  lemma {:induction false} PiecesFold(c: Parts, x: seq<byte>, idx: nat, nodes: seq<Node>, pos: nat, ps: seq<Piece>, k: nat)
    requires c.Progress() && PiecesFit(c, ps, k, pos) && pos <= |x| && x[pos..] == PiecesBytes(ps, k)
    ensures MemberChain(c, x, idx, nodes, pos) == Ok(PiecesAfter(ps, k, nodes, idx, pos))
    decreases |ps| - k
  {
    if k < |ps| {
      var p, next := ps[k], pos + |ps[k].Bytes()|;
      TailLies(x, pos, p.Bytes(), PiecesBytes(ps, k + 1));
      PieceInMember(c, x, idx, nodes, pos, p);
      PiecesFold(c, x, idx, p.After(nodes, idx, pos), next, ps, k + 1);
    }
  }

  /** A whole input: pieces, and compressed members that decode to pieces. */
  datatype Part = Plain(piece: Piece) | Member(codec: Codec, packed: seq<byte>, inner: seq<Piece>)
  {
    function Bytes(): seq<byte>
    {
      if Plain? then piece.Bytes() else packed
    }

    /** Archives stand aligned; a member decodes, within the budget, to pieces that fit. */
    ghost predicate Fits(c: Parts, x: seq<byte>, pos: nat, budget: nat)
      requires pos <= |x|
    {
      match this
      case Plain(p) => p.Fits(c, pos)
      case Member(codec, packed, inner) =>
        && c.look(x, pos) == Stream(codec, pos)
        && Yields(c.decode(codec, x[pos..], budget), PiecesBytes(inner, 0), |packed|)
        && PiecesFit(c, inner, 0, 0)
    }

    /** The state after it, when it stands at `pos` of the input: what its records ask for,
        done; a member's inside one buffer more, paid for from the budget. */
    function After(s: State, pos: nat): State
    {
      match this
      case Plain(p) => s.(nodes := p.After(s.nodes, 0, pos))
      case Member(_, _, inner) =>
        WithMember(s, PiecesBytes(inner, 0), PiecesAfter(inner, 0, s.nodes, |s.buffers|, 0))
    }
  }

  function PartsBytes(ps: seq<Part>, k: nat): seq<byte>
    decreases |ps| - k
  {
    if k >= |ps| then [] else ps[k].Bytes() + PartsBytes(ps, k + 1)
  }

  /** A member of the input: its pieces are folded in from a buffer of their own. */
  lemma {:induction false} MemberInChain(c: Parts, x: seq<byte>, s: State, pos: nat, codec: Codec, packed: seq<byte>, inner: seq<Piece>, out: seq<byte>)
    requires c.Progress() && pos <= |x| && out == PiecesBytes(inner, 0)
    requires c.look(x, pos) == Stream(codec, pos) && Yields(c.decode(codec, x[pos..], s.budget), out, |packed|)
    requires PiecesFit(c, inner, 0, 0)
    ensures Chain(c, x, s, pos) == Chain(c, x, WithMember(s, out, PiecesAfter(inner, 0, s.nodes, |s.buffers|, 0)), pos + |packed|)
  {
    assert out[0..] == out;
    PiecesFold(c, out, |s.buffers|, s.nodes, 0, inner, 0);
    ChainDecodes(c, x, s, pos, codec, out, |packed|, PiecesAfter(inner, 0, s.nodes, |s.buffers|, 0));
  }

  /** One part of an input, and the chain goes on after it. */
  lemma {:induction false} PartFolds(c: Parts, x: seq<byte>, s: State, pos: nat, p: Part)
    requires c.Progress() && pos <= |x| && Lies(x, pos, p.Bytes()) && p.Fits(c, x, pos, s.budget)
    ensures Chain(c, x, s, pos) == Chain(c, x, p.After(s, pos), pos + |p.Bytes()|)
  {
    match p
    case Plain(piece) => PieceInChain(c, x, s, pos, piece);
    case Member(codec, packed, inner) =>
      MemberInChain(c, x, s, pos, codec, packed, inner, PiecesBytes(inner, 0));
  }

  /** Every part fits where it stands, and `result` is the state after all of them. */
  ghost predicate Unpacks(c: Parts, x: seq<byte>, s: State, pos: nat, ps: seq<Part>, k: nat, result: State)
    decreases |ps| - k
  {
    if k >= |ps| then result == s
    else
      && pos <= |x| && ps[k].Fits(c, x, pos, s.budget)
      && Unpacks(c, x, ps[k].After(s, pos), pos + |ps[k].Bytes()|, ps, k + 1, result)
  }

  /** Parsing undoes writing: a printed input, of any archives, zeros and members, unpacks to
      the fold of all their records in order. */
  lemma {:induction false} ChainUndoesPrint(c: Parts, x: seq<byte>, s: State, pos: nat, ps: seq<Part>, k: nat, result: State)
    requires c.Progress() && pos <= |x| && x[pos..] == PartsBytes(ps, k) && Unpacks(c, x, s, pos, ps, k, result)
    ensures Chain(c, x, s, pos) == Ok(result)
    decreases |ps| - k
  {
    if k < |ps| {
      TailLies(x, pos, ps[k].Bytes(), PartsBytes(ps, k + 1));
      PartFolds(c, x, s, pos, ps[k]);
      ChainUndoesPrint(c, x, ps[k].After(s, pos), pos + |ps[k].Bytes()|, ps, k + 1, result);
    }
  }
}
