/** Rock Ridge over SUSP (`crates/lamfold-iso/src/rock_ridge.rs`, and the continuation chain of
    `iso9660.rs`): names and link targets put together again from the pieces they were cut
    into (IEEE P1281, IEEE P1282). */
module RockRidge {
  import opened Bytes
  import opened Frontend
  import opened Parts

  const CONTINUE: byte := 0x01
  const CURRENT: byte := 0x02
  const PARENT: byte := 0x04
  const ROOT: byte := 0x08
  const MAX_CONTINUATIONS: nat := 16

  const NM: (byte, byte) := (0x4e, 0x4d)
  const PX: (byte, byte) := (0x50, 0x58)
  const SL: (byte, byte) := (0x53, 0x4c)
  const ZF: (byte, byte) := (0x5a, 0x46)
  const CE: (byte, byte) := (0x43, 0x45)
  const ST: (byte, byte) := (0x53, 0x54)

  function Flag(flags: byte, bit: byte): bool
    requires bit > 0
  {
    flags / bit % 2 == 1
  }

  // ----- link components -----

  /** A link target so far, and whether its last component goes on. */
  datatype Link = Link(path: seq<byte>, continues: bool)

  /** A component record of an `SL` entry. */
  datatype Piece = Piece(flags: byte, content: seq<byte>)

  /** What one component record adds. */
  function AddPiece(l: Link, p: Piece): Link
  {
    var continues := Flag(p.flags, CONTINUE);
    if Flag(p.flags, ROOT) then Link(if l.path == [] then [SLASH] else l.path, continues)
    else
      var separated := if !l.continues && l.path != [] && l.path[|l.path| - 1] != SLASH then l.path + [SLASH] else l.path;
      var text := if Flag(p.flags, CURRENT) then DOT else if Flag(p.flags, PARENT) then DOTDOT else p.content;
      Link(separated + text, continues)
  }

  /** `parse_sl_components`, from `at` of an entry's component records. */
  function ParseComponents(comp: seq<byte>, at: nat, l: Link): Link
    decreases |comp| - at
  {
    if at + 2 > |comp| || at + 2 + comp[at + 1] > |comp| then l
    else
      var end := at + 2 + comp[at + 1];
      ParseComponents(comp, end, AddPiece(l, Piece(comp[at], comp[at + 2..end])))
  }

  // ----- entries -----

  /** `RrParser`: what is collected so far. */
  datatype Info = Info(
    mode: Option<nat>, zisofs: Option<(byte, nat)>, name: seq<byte>, haveNm: bool, link: Link, haveSl: bool)

  const EMPTY: Info := Info(None, None, [], false, Link([], false), false)

  datatype Continuation = Continuation(block: nat, offset: nat, len: nat)

  /** A system use entry: its signature and what follows the four-byte header. */
  datatype Entry = Entry(sig: (byte, byte), data: seq<byte>)

  function AddEntry(i: Info, e: Entry): Info
  {
    if e.sig == NM then
      if |e.data| > 0 && !Flag(e.data[0], CURRENT) && !Flag(e.data[0], PARENT)
      then i.(name := i.name + e.data[1..], haveNm := true) else i
    else if e.sig == PX then if |e.data| >= 4 then i.(mode := Some(Le32(e.data, 0))) else i
    else if e.sig == SL then
      i.(haveSl := true, link := if |e.data| > 0 then ParseComponents(e.data[1..], 0, i.link) else i.link)
    else if e.sig == ZF then
      if |e.data| >= 8 && e.data[0] == 0x70 && e.data[1] == 0x7a then i.(zisofs := Some((e.data[3], Le32(e.data, 4)))) else i
    else i
  }

  /** Where a `CE` entry says the rest is; of several, the last one counts. */
  function NextArea(next: Option<Continuation>, e: Entry): Option<Continuation>
  {
    if e.sig == CE && |e.data| >= 24 then Some(Continuation(Le32(e.data, 0), Le32(e.data, 8), Le32(e.data, 16))) else next
  }

  /** The entry at `p` of an area, if a whole one is there. */
  function EntryAt(su: seq<byte>, p: nat): (r: Option<Entry>)
    ensures r.Some? ==> p + 4 + |r.value.data| <= |su|
  {
    if p + 4 > |su| || su[p + 2] < 4 || p + su[p + 2] > |su| then None
    else Some(Entry((su[p], su[p + 1]), su[p + 4..p + su[p + 2]]))
  }

  datatype Fed = Fed(info: Info, next: Option<Continuation>)

  /** `feed`, from `p` on. */
  function FeedFrom(f: Fed, su: seq<byte>, p: nat): Fed
    decreases |su| - p
  {
    match EntryAt(su, p)
    case None => f
    case Some(e) => if e.sig == ST then f else FeedFrom(Take(f, e), su, p + 4 + |e.data|)
  }

  function Feed(i: Info, su: seq<byte>): Fed
  {
    FeedFrom(Fed(i, None), su, 0)
  }

  /** What the record says, once all its areas are fed (`finish`). */
  datatype Says = Says(name: Option<seq<byte>>, mode: Option<nat>, target: Option<seq<byte>>, zisofs: Option<(byte, nat)>)

  function Finish(i: Info, utf8: seq<byte> -> bool): Says
  {
    Says(if i.haveNm && i.name != [] && utf8(i.name) then Some(i.name) else None, i.mode,
         if i.haveSl then Some(i.link.path) else None, i.zisofs)
  }

  // ----- printed areas -----

  function PrintEntry(e: Entry): (r: seq<byte>)
    requires |e.data| <= 251
    ensures |r| == 4 + |e.data|
  {
    [e.sig.0, e.sig.1, 4 + |e.data|, 1] + e.data
  }

  predicate Printable(es: seq<Entry>)
  {
    forall k :: 0 <= k < |es| ==> |es[k].data| <= 251 && es[k].sig != (0x53, 0x54)
  }

  function PrintEntries(es: seq<Entry>, k: nat): seq<byte>
    requires Printable(es)
    decreases |es| - k
  {
    if k >= |es| then [] else PrintEntry(es[k]) + PrintEntries(es, k + 1)
  }

  /** Bytes where no entry is: too few, or a length that cannot be one. */
  predicate IsPadding(x: seq<byte>)
  {
    |x| < 4 || x[2] < 4
  }

  /** What one entry does to a parser that is being fed. */
  function Take(f: Fed, e: Entry): Fed
  {
    Fed(AddEntry(f.info, e), NextArea(f.next, e))
  }

  type Taking = (Fed, Entry) -> Fed

  /** Entries `k..` taken in order, `take` being what one does. */
  function TakeAll(take: Taking, f: Fed, es: seq<Entry>, k: nat): Fed
    decreases |es| - k
  {
    if k >= |es| then f else TakeAll(take, take(f, es[k]), es, k + 1)
  }

  function AddEntries(f: Fed, es: seq<Entry>): Fed
  {
    TakeAll((f: Fed, e: Entry) => Take(f, e), f, es, 0)
  }

  lemma {:induction false} EntryPrinted(su: seq<byte>, p: nat, e: Entry, rest: seq<byte>)
    requires |e.data| <= 251 && p <= |su| && su[p..] == PrintEntry(e) + rest
    ensures EntryAt(su, p) == Some(e) && p + 4 + |e.data| <= |su| && su[p + 4 + |e.data|..] == rest
  {
    var x := su[p..];
    assert su[p] == x[0] && su[p + 1] == x[1] && su[p + 2] == x[2];
    assert su[p + 4..p + 4 + |e.data|] == x[4..4 + |e.data|] == e.data;
    assert su[p + 4 + |e.data|..] == x[4 + |e.data|..] == rest;
  }

  /** A printed area feeds as its entries do, whatever padding ends it. */
  lemma {:induction false} FeedPrintedFrom(take: Taking, f: Fed, su: seq<byte>, p: nat, es: seq<Entry>, k: nat, pad: seq<byte>)
    requires Printable(es) && IsPadding(pad) && p <= |su| && su[p..] == PrintEntries(es, k) + pad
    requires forall f: Fed, e {:trigger Take(f, e)} :: take(f, e) == Take(f, e)
    ensures FeedFrom(f, su, p) == TakeAll(take, f, es, k)
    decreases |es| - k
  {
    if k >= |es| {
      assert su[p..] == pad;
      PaddingEnds(su, p, pad);
    } else {
      assert su[p..] == PrintEntry(es[k]) + (PrintEntries(es, k + 1) + pad);
      EntryPrinted(su, p, es[k], PrintEntries(es, k + 1) + pad);
      assert take(f, es[k]) == Take(f, es[k]);
      FeedPrintedFrom(take, take(f, es[k]), su, p + 4 + |es[k].data|, es, k + 1, pad);
    }
  }

  lemma {:induction false} FeedPrinted(i: Info, su: seq<byte>, es: seq<Entry>, pad: seq<byte>)
    requires Printable(es) && IsPadding(pad) && su == PrintEntries(es, 0) + pad
    ensures Feed(i, su) == AddEntries(Fed(i, None), es)
  {
    assert su[0..] == su;
    FeedPrintedFrom((f: Fed, e: Entry) => Take(f, e), Fed(i, None), su, 0, es, 0, pad);
  }

  lemma {:induction false} PaddingEnds(su: seq<byte>, p: nat, pad: seq<byte>)
    requires p <= |su| && su[p..] == pad && IsPadding(pad)
    ensures EntryAt(su, p).None?
  {
    if |pad| >= 4 { assert su[p + 2] == pad[2]; }
  }

  /** Feeding areas one after another is feeding their entries in one run. */
  lemma {:induction false} TakeAllJoins(take: Taking, f: Fed, a: seq<Entry>, k: nat, b: seq<Entry>)
    requires k <= |a|
    ensures TakeAll(take, f, a + b, k) == TakeAll(take, TakeAll(take, f, a, k), b, 0)
    decreases |a| - k
  {
    if k < |a| { TakeAllJoins(take, take(f, a[k]), a, k + 1, b); } else { TakeAllAfter(take, f, a, b, 0); }
  }

  lemma {:induction false} TakeAllAfter(take: Taking, f: Fed, a: seq<Entry>, b: seq<Entry>, k: nat)
    requires k <= |b|
    ensures TakeAll(take, f, a + b, |a| + k) == TakeAll(take, f, b, k)
    decreases |b| - k
  {
    if k < |b| { TakeAllAfter(take, take(f, b[k]), a, b, k + 1); }
  }

  /** The parser's state after areas, one after another, is that after all their entries. */
  lemma {:induction false} AddEntriesJoins(i: Info, a: seq<Entry>, b: seq<Entry>)
    ensures AddEntries(Fed(AddEntries(Fed(i, None), a).info, None), b).info == AddEntries(Fed(i, None), a + b).info
  {
    var take := (f: Fed, e: Entry) => Take(f, e);
    TakeAllJoins(take, Fed(i, None), a, 0, b);
    NextDoesNotMatter(take, TakeAll(take, Fed(i, None), a, 0), None, b, 0);
  }

  /** Feeding the concatenation of two areas that hold whole entries only, and no `ST`, is
      feeding one and then the other. */
  lemma {:induction false} FeedJoins(i: Info, a: seq<Entry>, b: seq<Entry>, pad: seq<byte>)
    requires Printable(a) && Printable(b) && IsPadding(pad)
    ensures Feed(i, PrintEntries(a, 0) + PrintEntries(b, 0) + pad).info
            == Feed(Feed(i, PrintEntries(a, 0)).info, PrintEntries(b, 0) + pad).info
  {
    PrintJoins(a, b, 0);
    FeedPrinted(i, PrintEntries(a, 0) + PrintEntries(b, 0) + pad, a + b, pad);
    assert PrintEntries(a, 0) + [] == PrintEntries(a, 0);
    FeedPrinted(i, PrintEntries(a, 0), a, []);
    FeedPrinted(AddEntries(Fed(i, None), a).info, PrintEntries(b, 0) + pad, b, pad);
    AddEntriesJoins(i, a, b);
  }

  lemma {:induction false} PrintJoins(a: seq<Entry>, b: seq<Entry>, k: nat)
    requires Printable(a) && Printable(b) && k <= |a|
    ensures Printable(a + b) && PrintEntries(a + b, k) == PrintEntries(a, k) + PrintEntries(b, 0)
    decreases |a| - k
  {
    if k < |a| {
      PrintJoins(a, b, k + 1);
      Associate(PrintEntry(a[k]), PrintEntries(a, k + 1), PrintEntries(b, 0));
    } else {
      assert (a + b)[|a|..] == b[0..];
      PrintSame(a + b, |a|, b, 0);
      assert [] + PrintEntries(b, 0) == PrintEntries(b, 0);
    }
  }

  /** Entries that are the same from some place on are printed the same from there on. */
  lemma {:induction false} PrintSame(x: seq<Entry>, i: nat, y: seq<Entry>, k: nat)
    requires Printable(x) && Printable(y) && i <= |x| && k <= |y| && x[i..] == y[k..]
    ensures PrintEntries(x, i) == PrintEntries(y, k)
    decreases |y| - k
  {
    assert |x| - i == |x[i..]| == |y[k..]| == |y| - k;
    if k < |y| {
      assert x[i] == x[i..][0] == y[k..][0] == y[k];
      assert x[i + 1..] == x[i..][1..] == y[k..][1..] == y[k + 1..];
      PrintSame(x, i + 1, y, k + 1);
    }
  }

  /** What a record says does not depend on where its continuation areas are. */
  lemma {:induction false} NextDoesNotMatter(take: Taking, f: Fed, next: Option<Continuation>, es: seq<Entry>, k: nat)
    requires forall f: Fed, e {:trigger take(f, e)} :: take(f, e).info == AddEntry(f.info, e)
    ensures TakeAll(take, f, es, k).info == TakeAll(take, f.(next := next), es, k).info
    decreases |es| - k
  {
    if k < |es| {
      var g, h := take(f, es[k]), take(f.(next := next), es[k]);
      NextDoesNotMatter(take, g, h.next, es, k + 1);
      assert g.(next := h.next) == h;
    }
  }

  // ----- a link target, cut into pieces -----

  /** A component of a link target: a name in chunks, `.` or `..`. */
  datatype Comp = Named(chunks: seq<seq<byte>>) | Here | Up
  {
    ghost predicate Valid()
    {
      Named? ==> && Flat(chunks, 0) != []
                 && forall k :: 0 <= k < |chunks| ==> 0x2f !in chunks[k]
    }

    function Text(): seq<byte>
    {
      match this
      case Named(chunks) => Flat(chunks, 0)
      case Here => [0x2e]
      case Up => [0x2e, 0x2e]
    }

    /** Every chunk but the last is marked to go on in the next piece. */
    function Pieces(): seq<Piece>
    {
      match this
      case Named(chunks) => ChunkPieces(chunks, 0)
      case Here => [Piece(2, [])]
      case Up => [Piece(4, [])]
    }
  }

  function ChunkPieces(chunks: seq<seq<byte>>, k: nat): seq<Piece>
    decreases |chunks| - k
  {
    if k >= |chunks| then []
    else [Piece(if k + 1 < |chunks| then 1 else 0, chunks[k])] + ChunkPieces(chunks, k + 1)
  }

  function CompPieces(comps: seq<Comp>, k: nat): seq<Piece>
    decreases |comps| - k
  {
    if k >= |comps| then [] else comps[k].Pieces() + CompPieces(comps, k + 1)
  }

  /** All pieces of a target. */
  function PathPieces(absolute: bool, comps: seq<Comp>): seq<Piece>
  {
    (if absolute then [Piece(8, [])] else []) + CompPieces(comps, 0)
  }

  /** Components `k..`, with slashes between them. */
  function Joined(comps: seq<Comp>, k: nat): seq<byte>
    decreases |comps| - k
  {
    if k >= |comps| then []
    else if k + 1 == |comps| then comps[k].Text()
    else comps[k].Text() + [0x2f] + Joined(comps, k + 1)
  }

  /** The target itself. */
  function PathText(absolute: bool, comps: seq<Comp>): seq<byte>
  {
    (if absolute then [0x2f] else []) + Joined(comps, 0)
  }

  function AddPieces(l: Link, ps: seq<Piece>, k: nat): Link
    decreases |ps| - k
  {
    if k >= |ps| then l else AddPieces(AddPiece(l, ps[k]), ps, k + 1)
  }

  lemma {:induction false} AddPiecesJoin(l: Link, a: seq<Piece>, k: nat, b: seq<Piece>)
    requires k <= |a|
    ensures AddPieces(l, a + b, k) == AddPieces(AddPieces(l, a, k), b, 0)
    decreases |a| - k
  {
    if k < |a| { AddPiecesJoin(AddPiece(l, a[k]), a, k + 1, b); } else { AddPiecesAfter(l, a, b, 0); }
  }

  lemma {:induction false} AddPiecesAfter(l: Link, a: seq<Piece>, b: seq<Piece>, k: nat)
    requires k <= |b|
    ensures AddPieces(l, a + b, |a| + k) == AddPieces(l, b, k)
    decreases |b| - k
  {
    if k < |b| { AddPiecesAfter(AddPiece(l, b[k]), a, b, k + 1); }
  }

  /** A target so far, ready for the next component. */
  function Separated(path: seq<byte>): seq<byte>
  {
    if path != [] && path[|path| - 1] != SLASH then path + [SLASH] else path
  }

  lemma {:induction false} ChunksAdd(l: Link, chunks: seq<seq<byte>>, k: nat)
    requires k < |chunks|
    ensures AddPieces(l, ChunkPieces(chunks, k), 0)
            == Link((if l.continues then l.path else Separated(l.path)) + Flat(chunks, k), false)
    decreases |chunks| - k
  {
    var first := Piece(if k + 1 < |chunks| then 1 else 0, chunks[k]);
    var after := AddPiece(l, first);
    var start := if l.continues then l.path else Separated(l.path);
    assert after == Link(start + chunks[k], k + 1 < |chunks|);
    AddPiecesJoin(l, [first], 0, ChunkPieces(chunks, k + 1));
    assert AddPieces(l, [first], 0) == after;
    if k + 1 < |chunks| {
      ChunksAdd(after, chunks, k + 1);
      Associate(start, chunks[k], Flat(chunks, k + 1));
    } else {
      assert Flat(chunks, k + 1) == [] && ChunkPieces(chunks, k + 1) == [];
      assert chunks[k] + [] == chunks[k];
    }
  }

  lemma {:induction false} CompAdds(path: seq<byte>, c: Comp)
    requires c.Valid()
    ensures AddPieces(Link(path, false), c.Pieces(), 0) == Link(Separated(path) + c.Text(), false)
  {
    match c
    case Named(chunks) =>
      assert |chunks| > 0;
      ChunksAdd(Link(path, false), chunks, 0);
    case Here => assert AddPieces(Link(path, false), [Piece(2, [])], 0) == AddPiece(Link(path, false), Piece(2, []));
    case Up => assert AddPieces(Link(path, false), [Piece(4, [])], 0) == AddPiece(Link(path, false), Piece(4, []));
  }

  lemma {:induction false} ConcatHasNoSlash(chunks: seq<seq<byte>>, k: nat)
    requires forall j :: 0 <= j < |chunks| ==> SLASH !in chunks[j]
    ensures SLASH !in Flat(chunks, k)
    decreases |chunks| - k
  {
    if k < |chunks| { ConcatHasNoSlash(chunks, k + 1); }
  }

  lemma {:induction false} TextEnds(c: Comp)
    requires c.Valid()
    ensures c.Text() != [] && c.Text()[|c.Text()| - 1] != SLASH
  {
    if c.Named? { ConcatHasNoSlash(c.chunks, 0); }
  }

  lemma {:induction false} JoinStep(a: seq<byte>, text: seq<byte>, rest: seq<byte>)
    ensures a + text + [SLASH] + rest == a + (text + [SLASH] + rest)
  {
  }

  lemma {:induction false} AfterText(a: seq<byte>, text: seq<byte>)
    requires text != [] && text[|text| - 1] != SLASH
    ensures Separated(a + text) == a + text + [SLASH]
  {
    assert (a + text)[|a + text| - 1] == text[|text| - 1];
  }

  lemma {:induction false} CompAddsFirst(path: seq<byte>, c: Comp, rest: seq<Piece>)
    requires c.Valid()
    ensures AddPieces(Link(path, false), c.Pieces() + rest, 0) == AddPieces(Link(Separated(path) + c.Text(), false), rest, 0)
  {
    CompAdds(path, c);
    AddPiecesJoin(Link(path, false), c.Pieces(), 0, rest);
  }

  lemma {:induction false} CompsAdd(path: seq<byte>, comps: seq<Comp>, k: nat)
    requires k < |comps| && forall j :: 0 <= j < |comps| ==> comps[j].Valid()
    ensures AddPieces(Link(path, false), CompPieces(comps, k), 0) == Link(Separated(path) + Joined(comps, k), false)
    decreases |comps| - k
  {
    var text := comps[k].Text();
    CompAddsFirst(path, comps[k], CompPieces(comps, k + 1));
    if k + 1 < |comps| {
      CompsAdd(Separated(path) + text, comps, k + 1);
      TextEnds(comps[k]);
      AfterText(Separated(path), text);
      JoinStep(Separated(path), text, Joined(comps, k + 1));
    } else {
      assert CompPieces(comps, k + 1) == [];
    }
  }

  /** The pieces of a target, in order, are the target, however its names were cut. */
  lemma {:induction false} PiecesAreThePath(absolute: bool, comps: seq<Comp>)
    requires forall j :: 0 <= j < |comps| ==> comps[j].Valid()
    ensures AddPieces(Link([], false), PathPieces(absolute, comps), 0) == Link(PathText(absolute, comps), false)
  {
    var root: seq<Piece> := if absolute then [Piece(8, [])] else [];
    var start: seq<byte> := if absolute then [SLASH] else [];
    AddPiecesJoin(Link([], false), root, 0, CompPieces(comps, 0));
    if absolute {
      assert AddPieces(Link([], false), root, 0) == AddPiece(Link([], false), Piece(8, []));
    }
    if comps != [] {
      CompsAdd(start, comps, 0);
    } else {
      assert start + [] == start;
    }
  }

  // ----- the pieces, spread over entries -----

  function PrintPiece(p: Piece): (r: seq<byte>)
    requires |p.content| < 256
    ensures |r| == 2 + |p.content|
  {
    [p.flags, |p.content|] + p.content
  }

  function PrintPieces(ps: seq<Piece>, k: nat): seq<byte>
    requires forall j :: 0 <= j < |ps| ==> |ps[j].content| < 256
    decreases |ps| - k
  {
    if k >= |ps| then [] else PrintPiece(ps[k]) + PrintPieces(ps, k + 1)
  }

  lemma {:induction false} PieceLies(comp: seq<byte>, at: nat, p: Piece, rest: seq<byte>)
    requires |p.content| < 256 && at <= |comp| && comp[at..] == PrintPiece(p) + rest
    ensures var end := at + 2 + |p.content|;
            && end <= |comp| && comp[at] == p.flags && comp[at + 1] == |p.content|
            && comp[at + 2..end] == p.content && comp[end..] == rest
  {
    var x, n := comp[at..], |p.content|;
    assert comp[at] == x[0] && comp[at + 1] == x[1];
    assert comp[at + 2..at + 2 + n] == x[2..2 + n] == p.content;
    assert comp[at + 2 + n..] == x[2 + n..] == rest;
  }

  lemma {:induction false} ComponentParses(comp: seq<byte>, at: nat, l: Link, p: Piece)
    requires |p.content| < 256 && at + 2 + |p.content| <= |comp|
    requires comp[at] == p.flags && comp[at + 1] == |p.content| && comp[at + 2..at + 2 + |p.content|] == p.content
    ensures ParseComponents(comp, at, l) == ParseComponents(comp, at + 2 + |p.content|, AddPiece(l, p))
  {
  }

  lemma {:induction false} ComponentTaken(l: Link, comp: seq<byte>, at: nat, p: Piece, rest: seq<byte>) returns (end: nat)
    requires |p.content| < 256 && at <= |comp| && comp[at..] == PrintPiece(p) + rest
    ensures end == at + 2 + |p.content| <= |comp| && comp[end..] == rest
    ensures ParseComponents(comp, at, l) == ParseComponents(comp, end, AddPiece(l, p))
  {
    end := at + 2 + |p.content|;
    PieceLies(comp, at, p, rest);
    ComponentParses(comp, at, l, p);
  }

  lemma {:induction false} ComponentsPrinted(l: Link, comp: seq<byte>, at: nat, ps: seq<Piece>, k: nat)
    requires forall j :: 0 <= j < |ps| ==> |ps[j].content| < 256
    requires at <= |comp| && comp[at..] == PrintPieces(ps, k)
    ensures ParseComponents(comp, at, l) == AddPieces(l, ps, k)
    decreases |ps| - k
  {
    if k < |ps| {
      var end := ComponentTaken(l, comp, at, ps[k], PrintPieces(ps, k + 1));
      ComponentsPrinted(AddPiece(l, ps[k]), comp, end, ps, k + 1);
    }
  }

  /** What a system use entry carries: a part of the link target or of the name, the mode, or
      that the file is compressed, in blocks of which size. */
  datatype Item =
    | LinkPart(pieces: seq<Piece>)
    | NamePart(part: seq<byte>, goesOn: bool)
    | ModePart(mode: nat, data: seq<byte>)
    | ZisofsPart(log: byte, size: nat, data: seq<byte>)
    | Other(entry: Entry)
  {
    ghost predicate Valid()
    {
      match this
      case LinkPart(pieces) => forall j :: 0 <= j < |pieces| ==> |pieces[j].content| < 256
      case NamePart(_, _) => true
      case ModePart(mode, data) => Number(data, 0, 4, mode)
      case ZisofsPart(log, size, data) =>
        |data| >= 8 && data[0] == 0x70 && data[1] == 0x7a && data[3] == log && Number(data, 4, 4, size)
      case Other(e) =>
        && e.sig != (0x4e, 0x4d) && e.sig != (0x50, 0x58) && e.sig != (0x53, 0x4c) && e.sig != (0x5a, 0x46)
        && e.sig != (0x53, 0x54)
    }

    /** The entry, with its signature: "SL", "NM", "PX" or "ZF". */
    ghost function ToEntry(): Entry
      requires Valid()
    {
      match this
      case LinkPart(pieces) => Entry((0x53, 0x4c), [0] + PrintPieces(pieces, 0))
      case NamePart(part, goesOn) => Entry((0x4e, 0x4d), [if goesOn then 1 else 0] + part)
      case ModePart(_, data) => Entry((0x50, 0x58), data)
      case ZisofsPart(_, _, data) => Entry((0x5a, 0x46), data)
      case Other(e) => e
    }
  }

  /** The pieces of a link, over all entries. */
  function LinkPieces(items: seq<Item>, k: nat): seq<Piece>
    decreases |items| - k
  {
    if k >= |items| then [] else ItemPieces(items[k]) + LinkPieces(items, k + 1)
  }

  function NameParts(items: seq<Item>, k: nat): seq<byte>
    decreases |items| - k
  {
    if k >= |items| then [] else ItemName(items[k]) + NameParts(items, k + 1)
  }

  /** The entries are what the items say. */
  ghost predicate Carries(es: seq<Entry>, items: seq<Item>)
  {
    |es| == |items| && forall k :: 0 <= k < |items| ==> items[k].Valid() && es[k] == items[k].ToEntry()
  }

  function ItemPieces(item: Item): seq<Piece>
  {
    if item.LinkPart? then item.pieces else []
  }

  function ItemName(item: Item): seq<byte>
  {
    if item.NamePart? then item.part else []
  }

  /** The mode and the compression that hold after an item: a later one replaces an earlier. */
  function ItemMode(item: Item, was: Option<nat>): Option<nat>
  {
    if item.ModePart? then Some(item.mode) else was
  }

  function ItemZisofs(item: Item, was: Option<(byte, nat)>): Option<(byte, nat)>
  {
    if item.ZisofsPart? then Some((item.log, item.size)) else was
  }

  function LastMode(items: seq<Item>, k: nat, was: Option<nat>): Option<nat>
    decreases |items| - k
  {
    if k >= |items| then was else LastMode(items, k + 1, ItemMode(items[k], was))
  }

  function LastZisofs(items: seq<Item>, k: nat, was: Option<(byte, nat)>): Option<(byte, nat)>
    decreases |items| - k
  {
    if k >= |items| then was else LastZisofs(items, k + 1, ItemZisofs(items[k], was))
  }

  /** What an item adds to what is collected so far. */
  ghost predicate Adds(i: Info, item: Item, after: Info)
  {
    && after.link == AddPieces(i.link, ItemPieces(item), 0) && after.haveSl == (i.haveSl || item.LinkPart?)
    && after.name == i.name + ItemName(item) && after.haveNm == (i.haveNm || item.NamePart?)
    && after.mode == ItemMode(item, i.mode) && after.zisofs == ItemZisofs(item, i.zisofs)
  }

  lemma {:induction false} ItemAdds(i: Info, item: Item, e: Entry)
    requires item.Valid() && e == item.ToEntry()
    ensures Adds(i, item, AddEntry(i, e))
  {
    match item
    case LinkPart(pieces) =>
      assert e.data[1..] == PrintPieces(pieces, 0);
      assert e.data[1..][0..] == e.data[1..];
      ComponentsPrinted(i.link, e.data[1..], 0, pieces, 0);
      assert i.name + [] == i.name;
    case NamePart(part, _) => assert e.data[1..] == part;
    case ModePart(mode, data) =>
      NumberReads(data, 0, 4, mode);
      assert i.name + [] == i.name;
    case ZisofsPart(_, size, data) =>
      NumberReads(data, 4, 4, size);
      assert i.name + [] == i.name;
    case Other(_) =>
      assert i.name + [] == i.name;
  }

  /** The link and the name collected from entries are the pieces they carry, in order. */
  lemma {:induction false} ItemsAdd(take: Taking, f: Fed, es: seq<Entry>, items: seq<Item>, k: nat)
    requires |es| == |items| >= k
    requires forall f: Fed, j {:trigger take(f, es[j])} :: 0 <= j < |es| ==> Adds(f.info, items[j], take(f, es[j]).info)
    ensures var after := TakeAll(take, f, es, k).info;
            && after.link == AddPieces(f.info.link, LinkPieces(items, k), 0)
            && after.haveSl == (f.info.haveSl || HasLink(items, k))
            && after.name == f.info.name + NameParts(items, k)
            && after.haveNm == (f.info.haveNm || HasName(items, k))
            && after.mode == LastMode(items, k, f.info.mode) && after.zisofs == LastZisofs(items, k, f.info.zisofs)
    decreases |items| - k
  {
    if k < |items| {
      var g := take(f, es[k]);
      ItemsAdd(take, g, es, items, k + 1);
      AddPiecesJoin(f.info.link, ItemPieces(items[k]), 0, LinkPieces(items, k + 1));
      Associate(f.info.name, ItemName(items[k]), NameParts(items, k + 1));
    } else {
      assert f.info.name + [] == f.info.name;
    }
  }

  /** Some entry from `k` on carries a piece of the link. */
  predicate HasLink(items: seq<Item>, k: nat)
    decreases |items| - k
  {
    k < |items| && (items[k].LinkPart? || HasLink(items, k + 1))
  }

  predicate HasName(items: seq<Item>, k: nat)
    decreases |items| - k
  {
    k < |items| && (items[k].NamePart? || HasName(items, k + 1))
  }

  lemma {:induction false} EntriesAdd(es: seq<Entry>, items: seq<Item>)
    requires Carries(es, items)
    ensures var after := AddEntries(Fed(EMPTY, None), es).info;
            && after.link == AddPieces(Link([], false), LinkPieces(items, 0), 0) && after.haveSl == HasLink(items, 0)
            && after.name == NameParts(items, 0) && after.haveNm == HasName(items, 0)
            && after.mode == LastMode(items, 0, None) && after.zisofs == LastZisofs(items, 0, None)
  {
    var take := (f: Fed, e: Entry) => Take(f, e);
    forall f: Fed, j {:trigger take(f, es[j])} | 0 <= j < |es|
      ensures Adds(f.info, items[j], take(f, es[j]).info)
    {
      ItemAdds(f.info, items[j], es[j]);
    }
    ItemsAdd(take, Fed(EMPTY, None), es, items, 0);
    assert [] + NameParts(items, 0) == NameParts(items, 0);
  }

  /** Reassembly: whatever entries a record's target and name are spread over, and however
      the target's names are cut, the record says exactly that target and that name. */
  lemma {:induction false} RecordSays(es: seq<Entry>, items: seq<Item>, absolute: bool, comps: seq<Comp>, utf8: seq<byte> -> bool)
    requires Carries(es, items) && LinkPieces(items, 0) == PathPieces(absolute, comps)
    requires forall j :: 0 <= j < |comps| ==> comps[j].Valid()
    ensures var says, name := Finish(AddEntries(Fed(EMPTY, None), es).info, utf8), NameParts(items, 0);
            && says.target == (if HasLink(items, 0) then Some(PathText(absolute, comps)) else None)
            && says.name == (if name != [] && utf8(name) then Some(name) else None)
            && says.mode == LastMode(items, 0, None) && says.zisofs == LastZisofs(items, 0, None)
  {
    EntriesAdd(es, items);
    PiecesAreThePath(absolute, comps);
    if NameParts(items, 0) != [] { NamesNeedParts(items, 0); }
  }

  lemma {:induction false} NamesNeedParts(items: seq<Item>, k: nat)
    requires NameParts(items, k) != []
    ensures HasName(items, k)
    decreases |items| - k
  {
    if !items[k].NamePart? { NamesNeedParts(items, k + 1); }
  }

  // ----- continuation areas -----

  /** A continuation area: at most a block, and inside the volume. */
  function ReadArea(src: seq<byte>, blockSize: nat, ce: Continuation): Result<seq<byte>>
  {
    var at := ce.block * blockSize + ce.offset;
    if ce.len == 0 || ce.len > blockSize || at + ce.len > |src| then Err(Corrupt) else Ok(src[at..at + ce.len])
  }

  /** The chain of `parse_rock_ridge`: continuation areas read and fed, one after another. */
  function FollowChain(src: seq<byte>, blockSize: nat, i: Info, next: Option<Continuation>, hops: nat): Result<Info>
    requires hops <= MAX_CONTINUATIONS
    decreases MAX_CONTINUATIONS - hops
  {
    match next
    case None => Ok(i)
    case Some(ce) =>
      if hops + 1 > MAX_CONTINUATIONS then Err(Corrupt)
      else
        var area :- ReadArea(src, blockSize, ce);
        var fed := Feed(i, area);
        FollowChain(src, blockSize, fed.info, fed.next, hops + 1)
  }

  /** The continuation the last `CE` of some entries names. */
  function NextOf(es: seq<Entry>, k: nat, next: Option<Continuation>): Option<Continuation>
    decreases |es| - k
  {
    if k >= |es| then next else NextOf(es, k + 1, NextArea(next, es[k]))
  }

  lemma {:induction false} NextIsNextOf(take: Taking, f: Fed, es: seq<Entry>, k: nat)
    requires forall f: Fed, e {:trigger take(f, e)} :: take(f, e).next == NextArea(f.next, e)
    ensures TakeAll(take, f, es, k).next == NextOf(es, k, f.next)
    decreases |es| - k
  {
    if k < |es| { NextIsNextOf(take, take(f, es[k]), es, k + 1); }
  }

  /** The last pointer among some entries, a "CE" entry with block, offset and length, each in
      both byte orders, is to `next`; or there is none. */
  ghost predicate PointTo(es: seq<Entry>, next: Option<Continuation>)
  {
    match next
    case None => NoPointer(es, 0)
    case Some(ce) => exists j: nat :: j < |es| && IsPointer(es[j], ce) && NoPointer(es, j + 1)
  }

  ghost predicate IsPointer(e: Entry, ce: Continuation)
  {
    && e.sig == (0x43, 0x45) && |e.data| >= 24
    && Number(e.data, 0, 4, ce.block) && Number(e.data, 8, 4, ce.offset) && Number(e.data, 16, 4, ce.len)
  }

  ghost predicate NoPointer(es: seq<Entry>, k: nat)
  {
    forall m :: k <= m < |es| ==> es[m].sig != (0x43, 0x45)
  }

  lemma {:induction false} NoneFollows(es: seq<Entry>, k: nat, next: Option<Continuation>)
    requires NoPointer(es, k)
    ensures NextOf(es, k, next) == next
    decreases |es| - k
  {
    if k < |es| { NoneFollows(es, k + 1, next); }
  }

  lemma {:induction false} PointerFollowed(es: seq<Entry>, k: nat, j: nat, ce: Continuation, next: Option<Continuation>)
    requires k <= j < |es| && IsPointer(es[j], ce) && NoPointer(es, j + 1)
    ensures NextOf(es, k, next) == Some(ce)
    decreases j - k
  {
    if k < j {
      PointerFollowed(es, k + 1, j, ce, NextArea(next, es[k]));
    } else {
      NumberReads(es[j].data, 0, 4, ce.block);
      NumberReads(es[j].data, 8, 4, ce.offset);
      NumberReads(es[j].data, 16, 4, ce.len);
      NoneFollows(es, j + 1, Some(ce));
    }
  }

  /** Pointers are read as they are written. */
  lemma {:induction false} PointerReads(es: seq<Entry>, next: Option<Continuation>)
    requires PointTo(es, next)
    ensures NextOf(es, 0, None) == next
  {
    match next
    case None => NoneFollows(es, 0, None);
    case Some(ce) =>
      var j: nat :| j < |es| && IsPointer(es[j], ce) && NoPointer(es, j + 1);
      PointerFollowed(es, 0, j, ce, None);
  }

  /** `es` lie where the continuation `ce` says, padded or not. */
  ghost predicate AreaHolds(src: seq<byte>, blockSize: nat, ce: Continuation, es: seq<Entry>, pad: seq<byte>)
  {
    && Printable(es) && IsPadding(pad) && 0 < ce.len <= blockSize && ce.len == |PrintEntries(es, 0)| + |pad|
    && Lies(src, Room(ce.block, blockSize) + ce.offset, PrintEntries(es, 0) + pad)
  }

  lemma {:induction false} AreaReads(src: seq<byte>, blockSize: nat, ce: Continuation, es: seq<Entry>, pad: seq<byte>)
    requires AreaHolds(src, blockSize, ce, es, pad)
    ensures ReadArea(src, blockSize, ce) == Ok(PrintEntries(es, 0) + pad)
  {
    RoomIs(ce.block, blockSize);
  }

  function NextIn(ces: seq<Continuation>, k: nat): Option<Continuation>
  {
    if k < |ces| then Some(ces[k]) else None
  }

  /** Area `k` lies where the entries before it point, and points to the next one, the last
      one to none. */
  ghost predicate Chained(src: seq<byte>, blockSize: nat, areas: seq<seq<Entry>>, pads: seq<seq<byte>>, ces: seq<Continuation>)
  {
    && |areas| == |pads| == |ces|
    && forall k {:trigger areas[k]} :: 0 <= k < |areas| ==>
         AreaHolds(src, blockSize, ces[k], areas[k], pads[k]) && PointTo(areas[k], NextIn(ces, k + 1))
  }

  lemma {:induction false} AreaFeeds(i: Info, area: seq<byte>, es: seq<Entry>, pad: seq<byte>)
    requires Printable(es) && IsPadding(pad) && area == PrintEntries(es, 0) + pad
    ensures Feed(i, area).info == AddEntries(Fed(i, None), es).info && Feed(i, area).next == NextOf(es, 0, None)
  {
    FeedPrinted(i, area, es, pad);
    NextIsNextOf((f: Fed, e: Entry) => Take(f, e), Fed(i, None), es, 0);
  }

  /** However a record's entries are spread over a chain of continuation areas, at most
      sixteen, they are collected as if they stood in one. */
  lemma {:induction false} ChainCollects(src: seq<byte>, blockSize: nat, areas: seq<seq<Entry>>, pads: seq<seq<byte>>, ces: seq<Continuation>,
                                         k: nat, i: Info, hops: nat)
    requires Chained(src, blockSize, areas, pads, ces) && k <= |areas| && hops + (|areas| - k) <= 16
    ensures FollowChain(src, blockSize, i, NextIn(ces, k), hops) == Ok(AddEntries(Fed(i, None), Flat(areas, k)).info)
    decreases |areas| - k
  {
    if k < |areas| {
      var after := AddEntries(Fed(i, None), areas[k]).info;
      AreaReads(src, blockSize, ces[k], areas[k], pads[k]);
      AreaFeeds(i, PrintEntries(areas[k], 0) + pads[k], areas[k], pads[k]);
      PointerReads(areas[k], NextIn(ces, k + 1));
      ChainCollects(src, blockSize, areas, pads, ces, k + 1, after, hops + 1);
      AddEntriesJoins(i, areas[k], Flat(areas, k + 1));
    }
  }

  // ----- the parser -----

  /** `RrParser`. */
  class RrParser {
    var mode: Option<nat>
    var zisofs: Option<(byte, nat)>
    var name: seq<byte>
    var haveNm: bool
    var sl: seq<byte>
    var haveSl: bool
    var slContinues: bool

    function Collected(): Info
      reads this
    {
      Info(mode, zisofs, name, haveNm, Link(sl, slContinues), haveSl)
    }

    constructor ()
      ensures Collected() == EMPTY
    {
      mode, zisofs, name, haveNm, sl, haveSl, slContinues := None, None, [], false, [], false, false;
    }

    /** One component record of an `SL` entry. */
    method AddComponent(flags: byte, content: seq<byte>)
      modifies `sl, `slContinues
      ensures Link(sl, slContinues) == AddPiece(old(Link(sl, slContinues)), Piece(flags, content))
    {
      if Flag(flags, ROOT) {
        if sl == [] { sl := [SLASH]; }
      } else {
        if !slContinues && sl != [] && sl[|sl| - 1] != SLASH { sl := sl + [SLASH]; }
        if Flag(flags, CURRENT) {
          sl := sl + DOT;
        } else if Flag(flags, PARENT) {
          sl := sl + DOTDOT;
        } else {
          sl := sl + content;
        }
      }
      slContinues := Flag(flags, CONTINUE);
    }

    /** `parse_sl_components`. */
    method ParseSlComponents(comp: seq<byte>)
      modifies `sl, `slContinues
      ensures Link(sl, slContinues) == ParseComponents(comp, 0, old(Link(sl, slContinues)))
    {
      var at: nat := 0;
      while at + 2 <= |comp| && at + 2 + comp[at + 1] <= |comp|
        invariant ParseComponents(comp, at, Link(sl, slContinues)) == ParseComponents(comp, 0, old(Link(sl, slContinues)))
        decreases |comp| - at
      {
        var end := at + 2 + comp[at + 1];
        AddComponent(comp[at], comp[at + 2..end]);
        at := end;
      }
    }

    /** One entry of an area. */
    method TakeEntry(e: Entry)
      modifies this
      ensures Collected() == AddEntry(old(Collected()), e)
    {
      if e.sig == NM {
        if |e.data| > 0 && !Flag(e.data[0], CURRENT) && !Flag(e.data[0], PARENT) {
          name, haveNm := name + e.data[1..], true;
        }
      } else if e.sig == PX {
        if |e.data| >= 4 { mode := Some(Le32(e.data, 0)); }
      } else if e.sig == SL {
        haveSl := true;
        if |e.data| > 0 { ParseSlComponents(e.data[1..]); }
      } else if e.sig == ZF {
        if |e.data| >= 8 && e.data[0] == 0x70 && e.data[1] == 0x7a { zisofs := Some((e.data[3], Le32(e.data, 4))); }
      }
    }

    /** `feed`. */
    method FeedArea(su: seq<byte>) returns (next: Option<Continuation>)
      modifies this
      ensures Fed(Collected(), next) == Feed(old(Collected()), su)
    {
      next := None;
      var p: nat := 0;
      while true
        invariant FeedFrom(Fed(Collected(), next), su, p) == Feed(old(Collected()), su)
        decreases |su| - p
      {
        var e := EntryAt(su, p);
        if e.None? || e.value.sig == ST { return; }
        TakeEntry(e.value);
        next := NextArea(next, e.value);
        p := p + 4 + |e.value.data|;
      }
    }
  }

  /** `parse_rock_ridge`. */
  method ParseRockRidge(src: seq<byte>, blockSize: nat, su: seq<byte>, utf8: seq<byte> -> bool) returns (r: Result<Says>)
    ensures var fed := Feed(EMPTY, su);
            match FollowChain(src, blockSize, fed.info, fed.next, 0)
            case Ok(info) => r == Ok(Finish(info, utf8))
            case Err(e) => r == Err(e)
  {
    var parser := new RrParser();
    var next := parser.FeedArea(su);
    var hops: nat := 0;
    ghost var fed := Feed(EMPTY, su);
    while next.Some?
      invariant hops <= MAX_CONTINUATIONS
      invariant FollowChain(src, blockSize, parser.Collected(), next, hops) == FollowChain(src, blockSize, fed.info, fed.next, 0)
      decreases MAX_CONTINUATIONS - hops
    {
      var ce := next.value;
      if hops + 1 > MAX_CONTINUATIONS { return Err(Corrupt); }
      var area := ReadArea(src, blockSize, ce);
      if area.Err? { return Err(area.error); }
      next := parser.FeedArea(area.value);
      hops := hops + 1;
    }
    r := Ok(Finish(parser.Collected(), utf8));
  }

  /** A record whose entries, in its own area and a chain of others, carry a link target and a
      name in pieces, is read as that target and that name. */
  lemma {:induction false} RecordReadsBack(src: seq<byte>, blockSize: nat, su: seq<byte>, first: seq<Entry>, pad: seq<byte>,
                                           areas: seq<seq<Entry>>, pads: seq<seq<byte>>, ces: seq<Continuation>, items: seq<Item>,
                                           absolute: bool, comps: seq<Comp>, utf8: seq<byte> -> bool)
    requires Printable(first) && IsPadding(pad) && su == PrintEntries(first, 0) + pad
    requires |areas| <= 16 && Chained(src, blockSize, areas, pads, ces) && PointTo(first, NextIn(ces, 0))
    requires Carries(first + Flat(areas, 0), items) && LinkPieces(items, 0) == PathPieces(absolute, comps)
    requires forall j :: 0 <= j < |comps| ==> comps[j].Valid()
    ensures var fed, name := Feed(EMPTY, su), NameParts(items, 0);
            var r := FollowChain(src, blockSize, fed.info, fed.next, 0);
            && r.Ok?
            && Finish(r.value, utf8).target == (if HasLink(items, 0) then Some(PathText(absolute, comps)) else None)
            && Finish(r.value, utf8).name == (if name != [] && utf8(name) then Some(name) else None)
            && Finish(r.value, utf8).mode == LastMode(items, 0, None) && Finish(r.value, utf8).zisofs == LastZisofs(items, 0, None)
  {
    FeedPrinted(EMPTY, su, first, pad);
    NextIsNextOf((f: Fed, e: Entry) => Take(f, e), Fed(EMPTY, None), first, 0);
    PointerReads(first, NextIn(ces, 0));
    ChainCollects(src, blockSize, areas, pads, ces, 0, AddEntries(Fed(EMPTY, None), first).info, 0);
    AddEntriesJoins(EMPTY, first, Flat(areas, 0));
    RecordSays(first + Flat(areas, 0), items, absolute, comps, utf8);
  }
}
