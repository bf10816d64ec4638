/** The two forms of the EROFS index say the same thing: what a list of lclusters means
    (`IndexHeads`), written as a full index or as a non-big compact one, is what the
    reader resolves; and a big compact index gives back every pcluster it was made from. */
module ErofsForms {
  import opened Bytes
  import opened ErofsIndex
  import opened ErofsPacking

  /** How a pcluster is stored: as it is, or by one of the two algorithms of its inode. */
  datatype Storage = Plain | First | Second

  /** The two type bits of an lcluster that opens a pcluster; of one that continues a pcluster
      they are 2. */
  function TypeBits(s: Storage): nat
  {
    match s
    case Plain => 0
    case First => 1
    case Second => 3
  }

  /** A logical cluster: it opens a pcluster, or continues one. */
  datatype LclusterShape = Opens(storage: Storage, clusterofs: nat, blkaddr: nat) | Continues(value: nat)

  /** What the compact form has room for: 12 value bits; block 0 is never a pcluster's. */
  type Lcluster = lc: LclusterShape |
    match lc
    case Opens(_, ofs, blk) => ofs < 0x1000 && 0 < blk < 0x1_0000_0000
    case Continues(v) => v < 0x1000
    witness Continues(0)

  /** The pclusters the first `n` lclusters of an index stand for, one block each. */
  function IndexHeads(lcs: seq<Lcluster>, lcsize: nat, n: nat): seq<Head>
    requires n <= |lcs|
  {
    if n == 0 then []
    else
      Extend(IndexHeads(lcs, lcsize, n - 1), lcs[n - 1], lcsize, n - 1)
  }

  // ----- the full form -----

  function PutFullEntry(lc: Lcluster): (r: seq<byte>)
    ensures |r| == 8
  {
    match lc
    case Opens(s, ofs, blk) => PutGroupLike(TypeBits(s), ofs, blk)
    case Continues(v) => PutGroupLike(2, v, 0)
  }

  function PutGroupLike(x: nat, y: nat, z: nat): (r: seq<byte>)
    requires x < U16 && y < U16 && z < U32
    ensures |r| == 8 && Le16(r, 0) == x && Le16(r, 2) == y && Le32(r, 4) == z
  {
    var b := Put32(z);
    var r := Put16(x) + Put16(y) + b;
    assert r[4..8] == b;
    LeSlice(r, 4, 8, 0);
    r
  }

  /** The full entry at `pos` says `lc`: the type in the low bits of the advice, no hole;
      of one that continues a pcluster nothing else is read. */
  ghost predicate FullEntryAt(src: seq<byte>, pos: nat, lc: Lcluster)
  {
    && pos + 8 <= |src|
    && match lc
       case Opens(s, ofs, blk) =>
         && Le16(src, pos) % 4 == TypeBits(s) && Le16(src, pos) / 0x4000 % 2 == 0
         && Le16(src, pos + 2) == ofs && Le32(src, pos + 4) == blk
       case Continues(_) => Le16(src, pos) % 4 == 2
  }

  lemma {:induction false} PutFullEntrySays(src: seq<byte>, pos: nat, lc: Lcluster)
    requires Lies(src, pos, PutFullEntry(lc))
    ensures FullEntryAt(src, pos, lc)
  {
    LeSlice(src, pos, pos + 8, 0);
    LeSlice(src, pos, pos + 8, 2);
    LeSlice(src, pos, pos + 8, 4);
  }

  /** The source holds the full index of `lcs` at `idx0`. */
  ghost predicate HoldsFullIndex(src: seq<byte>, idx0: nat, lcs: seq<Lcluster>)
  {
    forall i :: 0 <= i < |lcs| ==> FullEntryAt(src, idx0 + i * 8, lcs[i])
  }

  /** The first `n` entries, one after another. */
  function Flatten(entries: seq<seq<byte>>, n: nat): seq<byte>
    requires n <= |entries|
  {
    if n == 0 then [] else Flatten(entries, n - 1) + entries[n - 1]
  }

  /** Entries of 8 bytes each lie 8 bytes apart. */
  lemma {:induction false} EntryLies(src: seq<byte>, idx0: nat, entries: seq<seq<byte>>, n: nat, i: nat)
    requires i < n <= |entries| && Lies(src, idx0, Flatten(entries, n)) && forall j :: 0 <= j < |entries| ==> |entries[j]| == 8
    ensures |Flatten(entries, n)| == 8 * n && Lies(src, idx0 + i * 8, entries[i])
    decreases n
  {
    LiesParts(src, idx0, Flatten(entries, n - 1), entries[n - 1]);
    if n > 1 { EntryLies(src, idx0, entries, n - 1, if i < n - 1 then i else 0); }
  }

  function FullEntries(lcs: seq<Lcluster>): (r: seq<seq<byte>>)
    ensures |r| == |lcs| && forall i :: 0 <= i < |r| ==> |r[i]| == 8
  {
    seq(|lcs|, i requires 0 <= i < |lcs| => PutFullEntry(lcs[i]))
  }

  /** A full index, written out. */
  function PutFullIndex(lcs: seq<Lcluster>): seq<byte>
  {
    Flatten(FullEntries(lcs), |lcs|)
  }

  /** A written full index is one that holds its lclusters. */
  lemma {:induction false} WrittenIndexHolds(src: seq<byte>, idx0: nat, lcs: seq<Lcluster>)
    requires Lies(src, idx0, PutFullIndex(lcs))
    ensures HoldsFullIndex(src, idx0, lcs)
  {
    forall i | 0 <= i < |lcs|
      ensures FullEntryAt(src, idx0 + i * 8, lcs[i])
    {
      EntryLies(src, idx0, FullEntries(lcs), |lcs|, i);
      PutFullEntrySays(src, idx0 + i * 8, lcs[i]);
    }
  }

  /** One more lcluster on top of the pclusters `hs` of those before it. */
  function Extend(hs: seq<Head>, lc: Lcluster, lcsize: nat, i: nat): seq<Head>
  {
    match lc
    case Continues(_) => hs
    case Opens(s, ofs, blk) => hs + [Head(if hs == [] then 0 else i * lcsize + ofs, TypeBits(s), blk, 1)]
  }

  lemma {:induction false} FullEntryMeans(src: seq<byte>, pos: nat, hs: seq<Head>, lc: Lcluster, lcsize: nat, i: nat)
    requires FullEntryAt(src, pos, lc)
    ensures ReadSource(src, pos, 8).Ok?
    ensures FullStep(hs, src[pos..pos + 8], lcsize, i) == Ok(Extend(hs, lc, lcsize, i))
  {
    LeSlice(src, pos, pos + 8, 0);
    LeSlice(src, pos, pos + 8, 2);
    LeSlice(src, pos, pos + 8, 4);
  }

  lemma {:induction false} FullMeansIndex(src: seq<byte>, idx0: nat, lcs: seq<Lcluster>, lcsize: nat, n: nat)
    requires n <= |lcs| && HoldsFullIndex(src, idx0, lcs)
    ensures FullHeads(src, idx0, lcsize, n) == Ok(IndexHeads(lcs, lcsize, n))
  {
    if n > 0 {
      FullMeansIndex(src, idx0, lcs, lcsize, n - 1);
      FullEntryMeans(src, idx0 + (n - 1) * 8, IndexHeads(lcs, lcsize, n - 1), lcs[n - 1], lcsize, n - 1);
    }
  }

  // ----- the compact form, one block a pcluster -----

  function Code(lc: Lcluster): code14
  {
    match lc
    case Opens(s, ofs, _) => TypeBits(s) * 0x1000 + ofs
    case Continues(v) => 0x2000 + v
  }

  function Codes(lcs: seq<Lcluster>): (r: seq<code14>)
    ensures |r| == |lcs|
  {
    seq(|lcs|, i requires 0 <= i < |lcs| => Code(lcs[i]))
  }

  /** How many of the first `n` lclusters open a pcluster in `region`. */
  function HeadsBefore(lcs: seq<Lcluster>, ebase: nat, n: nat, region: nat): nat
    requires n <= |lcs|
  {
    if n == 0 then 0
    else HeadsBefore(lcs, ebase, n - 1, region)
         + if lcs[n - 1].Opens? && RegionOf(ebase, |lcs|, n - 1) == region then 1 else 0
  }

  /** Each pcluster sits at its region's base, plus one, plus its rank in the region. */
  ghost predicate BasesFit(lcs: seq<Lcluster>, ebase: nat, bases: seq<u32>)
  {
    && |bases| == Regions(ebase, |lcs|)
    && forall i :: 0 <= i < |lcs| && lcs[i].Opens? ==>
         var r := RegionOf(ebase, |lcs|, i);
         lcs[i].blkaddr == bases[r] + 1 + HeadsBefore(lcs, ebase, i, r)
  }

  /** Inside each region, pclusters lie in consecutive blocks. */
  ghost predicate Consecutive(lcs: seq<Lcluster>, ebase: nat)
  {
    forall i, j :: 0 <= i < j < |lcs| && lcs[i].Opens? && lcs[j].Opens?
                   && RegionOf(ebase, |lcs|, i) == RegionOf(ebase, |lcs|, j) ==>
      var r := RegionOf(ebase, |lcs|, i);
      lcs[j].blkaddr - lcs[i].blkaddr == HeadsBefore(lcs, ebase, j, r) - HeadsBefore(lcs, ebase, i, r)
  }

  /** One block below the first pcluster of `region` among the lclusters from `i` on. */
  function BaseFrom(lcs: seq<Lcluster>, ebase: nat, region: nat, i: nat): u32
    requires i <= |lcs|
    decreases |lcs| - i
  {
    if i == |lcs| then 0
    else if lcs[i].Opens? && RegionOf(ebase, |lcs|, i) == region then lcs[i].blkaddr - 1
    else BaseFrom(lcs, ebase, region, i + 1)
  }

  function BasesFor(lcs: seq<Lcluster>, ebase: nat): (r: seq<u32>)
    ensures |r| == Regions(ebase, |lcs|)
  {
    seq(Regions(ebase, |lcs|), r requires 0 <= r < Regions(ebase, |lcs|) => BaseFrom(lcs, ebase, r, 0))
  }

  lemma {:induction false} BaseFromFits(lcs: seq<Lcluster>, ebase: nat, i: nat, j: nat)
    requires i <= j < |lcs| && lcs[j].Opens? && Consecutive(lcs, ebase)
    requires HeadsBefore(lcs, ebase, i, RegionOf(ebase, |lcs|, j)) == 0
    ensures var r := RegionOf(ebase, |lcs|, j);
            lcs[j].blkaddr == BaseFrom(lcs, ebase, r, i) + 1 + HeadsBefore(lcs, ebase, j, r)
    decreases j - i
  {
    var r := RegionOf(ebase, |lcs|, j);
    if i < j {
      if lcs[i].Opens? && RegionOf(ebase, |lcs|, i) == r {
      } else {
        BaseFromFits(lcs, ebase, i + 1, j);
      }
    }
  }

  /** The non-big compact form can hold an index, its block addresses included, exactly
      when blocks are consecutive inside each region. */
  lemma {:induction false} CompressibleIffConsecutive(lcs: seq<Lcluster>, ebase: nat)
    ensures Consecutive(lcs, ebase) ==> BasesFit(lcs, ebase, BasesFor(lcs, ebase))
    ensures (exists bases: seq<u32> :: BasesFit(lcs, ebase, bases)) ==> Consecutive(lcs, ebase)
  {
    if Consecutive(lcs, ebase) {
      forall i | 0 <= i < |lcs| && lcs[i].Opens?
        ensures var r := RegionOf(ebase, |lcs|, i);
                lcs[i].blkaddr == BasesFor(lcs, ebase)[r] + 1 + HeadsBefore(lcs, ebase, i, r)
      {
        BaseFromFits(lcs, ebase, 0, i);
      }
    }
  }

  lemma {:induction false} EntryOpens(lcs: seq<Lcluster>, ebase: nat, bases: seq<u32>, i: nat)
    requires i < |lcs| && |bases| == Regions(ebase, |lcs|)
    ensures var e := RawIndex(Codes(lcs), bases, ebase)[i];
            (e.ty != NONHEAD <==> lcs[i].Opens?) && e.region == RegionOf(ebase, |lcs|, i)
  {
  }

  lemma {:induction false} SameRankIn(raw: seq<RawEntry>, lcs: seq<Lcluster>, ebase: nat, n: nat, region: nat)
    requires n <= |lcs| == |raw|
    requires forall i :: 0 <= i < |lcs| ==> (raw[i].ty != NONHEAD <==> lcs[i].Opens?) && raw[i].region == RegionOf(ebase, |lcs|, i)
    ensures HeadsInRegion(raw, n, region) == HeadsBefore(lcs, ebase, n, region)
  {
    if n > 0 { SameRankIn(raw, lcs, ebase, n - 1, region); }
  }

  lemma {:induction false} SameRank(lcs: seq<Lcluster>, ebase: nat, bases: seq<u32>, n: nat, region: nat)
    requires n <= |lcs| && |bases| == Regions(ebase, |lcs|)
    ensures HeadsInRegion(RawIndex(Codes(lcs), bases, ebase), n, region) == HeadsBefore(lcs, ebase, n, region)
  {
    forall i | 0 <= i < |lcs|
      ensures var e := RawIndex(Codes(lcs), bases, ebase)[i]; (e.ty != NONHEAD <==> lcs[i].Opens?) && e.region == RegionOf(ebase, |lcs|, i)
    {
      EntryOpens(lcs, ebase, bases, i);
    }
    SameRankIn(RawIndex(Codes(lcs), bases, ebase), lcs, ebase, n, region);
  }

  lemma {:induction false} CompactEntryMeans(hs: seq<Head>, lc: Lcluster, region: nat, base: nat, rank: nat, lcsize: nat, i: nat)
    requires lc.Opens? ==> lc.blkaddr == base + 1 + rank
    ensures OpenEntry(Entry(Code(lc), region, base), rank, hs, lcsize, false, i) == Ok(Extend(hs, lc, lcsize, i))
  {
  }

  /** Entry `i` opens what lcluster `i` does. */
  ghost predicate StepSays(raw: seq<RawEntry>, lcs: seq<Lcluster>, lcsize: nat, i: nat, hs: seq<Head>)
    requires i < |raw| == |lcs|
  {
    OpenStep(raw, hs, lcsize, false, i) == Ok(Extend(hs, lcs[i], lcsize, i))
  }

  lemma {:induction false} EntriesOpenIndex(raw: seq<RawEntry>, lcs: seq<Lcluster>, lcsize: nat, n: nat)
    requires n <= |lcs| == |raw|
    requires forall i, hs {:trigger StepSays(raw, lcs, lcsize, i, hs)} :: 0 <= i < |lcs| ==> StepSays(raw, lcs, lcsize, i, hs)
    ensures OpenHeads(raw, lcsize, false, n) == Ok(IndexHeads(lcs, lcsize, n))
  {
    if n > 0 {
      EntriesOpenIndex(raw, lcs, lcsize, n - 1);
      assert StepSays(raw, lcs, lcsize, n - 1, IndexHeads(lcs, lcsize, n - 1));
    }
  }

  lemma {:induction false} CompactMeansIndex(lcs: seq<Lcluster>, ebase: nat, bases: seq<u32>, lcsize: nat, n: nat)
    requires n <= |lcs| && BasesFit(lcs, ebase, bases)
    ensures OpenHeads(RawIndex(Codes(lcs), bases, ebase), lcsize, false, n) == Ok(IndexHeads(lcs, lcsize, n))
  {
    var raw := RawIndex(Codes(lcs), bases, ebase);
    forall i, hs {:trigger StepSays(raw, lcs, lcsize, i, hs)} | 0 <= i < |lcs|
      ensures StepSays(raw, lcs, lcsize, i, hs)
    {
      var r := RegionOf(ebase, |lcs|, i);
      SameRank(lcs, ebase, bases, i, r);
      CompactEntryMeans(hs, lcs[i], r, bases[r], HeadsBefore(lcs, ebase, i, r), lcsize, i);
    }
    EntriesOpenIndex(raw, lcs, lcsize, n);
  }

  lemma {:induction false} UnpackWritten(src: seq<byte>, ebase: nat, codes: seq<code14>, bases: seq<u32>)
    requires |bases| == Regions(ebase, |codes|) && CheckedFullReadLen(IdxLen(ebase, |codes|)).Ok?
    requires Lies(src, ebase, PutCompactIndex(codes, bases, ebase))
    ensures UnpackIndex(src, ebase, |codes|) == Ok(RawIndex(codes, bases, ebase))
  {
    UnpackUndoesPack(codes, bases, ebase);
  }

  lemma {:induction false} CompactReads(src: seq<byte>, ebase: nat, lcs: seq<Lcluster>, lcsize: nat)
    requires Consecutive(lcs, ebase) && CheckedFullReadLen(IdxLen(ebase, |lcs|)).Ok?
    requires Lies(src, ebase, PutCompactIndex(Codes(lcs), BasesFor(lcs, ebase), ebase))
    ensures CompactHeads(src, ebase, lcsize, |lcs|, false) == Ok(IndexHeads(lcs, lcsize, |lcs|))
  {
    var bases := BasesFor(lcs, ebase);
    CompressibleIffConsecutive(lcs, ebase);
    UnpackWritten(src, ebase, Codes(lcs), bases);
    CompactMeansIndex(lcs, ebase, bases, lcsize, |lcs|);
  }

  /** The compact index is a faithful compression of the full one: wherever the two are
      written, the reader resolves both to the same pclusters. */
  lemma {:induction false} CompactIsFullCompressed(src: seq<byte>, ebase: nat, src': seq<byte>, mh: nat, lcs: seq<Lcluster>, lcsize: nat)
    requires Consecutive(lcs, ebase) && CheckedFullReadLen(IdxLen(ebase, |lcs|)).Ok?
    requires Lies(src, ebase, PutCompactIndex(Codes(lcs), BasesFor(lcs, ebase), ebase))
    requires HoldsFullIndex(src', mh + LEGACY_HEADER_SIZE, lcs)
    ensures CompactHeads(src, ebase, lcsize, |lcs|, false) == Ok(IndexHeads(lcs, lcsize, |lcs|))
    ensures FullHeads(src', mh + LEGACY_HEADER_SIZE, lcsize, |lcs|) == Ok(IndexHeads(lcs, lcsize, |lcs|))
  {
    CompactReads(src, ebase, lcs, lcsize);
    FullMeansIndex(src', mh + LEGACY_HEADER_SIZE, lcs, lcsize, |lcs|);
  }

  // ----- the compact form, big pclusters -----

  /** A pcluster of a big index: the lcluster that opens it, then (if it has any) the
      lclusters after it, the first one carrying the block count when there is a count. */
  datatype PclusterShape = Pcluster(storage: Storage, clusterofs: nat, count: Option<nat>, deltas: seq<nat>)

  type Pcluster = p: PclusterShape |
    && p.clusterofs < 0x1000
    && (p.count.Some? ==> 0 < p.count.value < 0x800)
    && forall i :: 0 <= i < |p.deltas| ==> p.deltas[i] < 0x800
    witness PclusterShape.Pcluster(Plain, 0, None, [])

  function Blocks(p: Pcluster): nat
  {
    if p.count.Some? then p.count.value else 1
  }

  function CountCodes(p: Pcluster): seq<code14>
  {
    if p.count.Some? then [0x2800 + p.count.value] else []
  }

  function DeltaCodes(deltas: seq<nat>): (r: seq<code14>)
    requires forall i :: 0 <= i < |deltas| ==> deltas[i] < 0x800
    ensures |r| == |deltas|
  {
    seq(|deltas|, i requires 0 <= i < |deltas| => 0x2000 + deltas[i])
  }

  function PclusterCodes(p: Pcluster): seq<code14>
  {
    [TypeBits(p.storage) * 0x1000 + p.clusterofs] + CountCodes(p) + DeltaCodes(p.deltas)
  }

  function BigCodes(ps: seq<Pcluster>): seq<code14>
  {
    if ps == [] then [] else BigCodes(ps[..|ps| - 1]) + PclusterCodes(ps[|ps| - 1])
  }

  function TotalBlocks(ps: seq<Pcluster>): nat
  {
    if ps == [] then 0 else TotalBlocks(ps[..|ps| - 1]) + Blocks(ps[|ps| - 1])
  }

  /** What a big index stands for: each pcluster, right after the blocks of those before. */
  function BigHeads(ps: seq<Pcluster>, lcsize: nat, first: nat): (r: seq<Head>)
    ensures |r| == |ps|
  {
    if ps == [] then []
    else
      var init, p := ps[..|ps| - 1], ps[|ps| - 1];
      BigHeads(init, lcsize, first)
      + [Head(if init == [] then 0 else |BigCodes(init)| * lcsize + p.clusterofs, TypeBits(p.storage), first + TotalBlocks(init), Blocks(p))]
  }

  /** `raw` carries `codes` from entry `off` on. */
  ghost predicate Carries(raw: seq<RawEntry>, off: nat, codes: seq<code14>)
  {
    && off + |codes| <= |raw|
    && forall j :: 0 <= j < |codes| ==>
         raw[off + j].ty == codes[j] / 0x1000 % 4 && raw[off + j].value == codes[j] % 0x1000
  }

  lemma {:induction false} CarriesParts(raw: seq<RawEntry>, off: nat, x: seq<code14>, y: seq<code14>)
    requires Carries(raw, off, x + y)
    ensures Carries(raw, off, x) && Carries(raw, off + |x|, y)
  {
    forall j | 0 <= j < |x|
      ensures raw[off + j].ty == x[j] / 0x1000 % 4 && raw[off + j].value == x[j] % 0x1000
    {
      assert (x + y)[j] == x[j];
    }
    forall j | 0 <= j < |y|
      ensures raw[off + |x| + j].ty == y[j] / 0x1000 % 4 && raw[off + |x| + j].value == y[j] % 0x1000
    {
      assert (x + y)[|x| + j] == y[j];
    }
  }

  lemma {:induction false} DeltasOpenNothing(raw: seq<RawEntry>, lcsize: nat, off: nat, deltas: seq<nat>, n: nat)
    requires forall i :: 0 <= i < |deltas| ==> deltas[i] < 0x800
    requires n <= |deltas| && Carries(raw, off, DeltaCodes(deltas))
    ensures OpenHeads(raw, lcsize, true, off + n) == OpenHeads(raw, lcsize, true, off)
  {
    forall j | off <= j < off + n
      ensures raw[j].ty == NONHEAD && raw[j].value < CBLKCNT_FLAG
    {
      assert raw[off + (j - off)].ty == DeltaCodes(deltas)[j - off] / 0x1000 % 4;
    }
    RunOpensNothing(raw, lcsize, off, off + n);
  }

  lemma {:induction false} RunOpensNothing(raw: seq<RawEntry>, lcsize: nat, off: nat, end: nat)
    requires off <= end <= |raw| && forall j :: off <= j < end ==> raw[j].ty == NONHEAD && raw[j].value < CBLKCNT_FLAG
    ensures OpenHeads(raw, lcsize, true, end) == OpenHeads(raw, lcsize, true, off)
    decreases end
  {
    if end > off { RunOpensNothing(raw, lcsize, off, end - 1); }
  }

  lemma {:induction false} CountIsStored(raw: seq<RawEntry>, lcsize: nat, off: nat, p: Pcluster, hs: seq<Head>, h: Head)
    requires Carries(raw, off, CountCodes(p)) && h.cblkcnt == 1
    requires OpenHeads(raw, lcsize, true, off) == Ok(hs + [h])
    ensures OpenHeads(raw, lcsize, true, off + |CountCodes(p)|) == Ok(hs + [h.(cblkcnt := Blocks(p))])
  {
    if p.count.Some? {
      assert raw[off + 0].ty == CountCodes(p)[0] / 0x1000 % 4;
      assert OpenHeads(raw, lcsize, true, off + 1) == OpenStep(raw, hs + [h], lcsize, true, off);
      assert (hs + [h])[|hs| := h.(cblkcnt := Blocks(p))] == hs + [h.(cblkcnt := Blocks(p))];
    }
  }

  function Unplaced(ps: seq<Pcluster>, lcsize: nat): (r: seq<Head>)
    ensures |r| == |ps|
  {
    if ps == [] then []
    else
      var init, p := ps[..|ps| - 1], ps[|ps| - 1];
      Unplaced(init, lcsize)
      + [Head(if init == [] then 0 else |BigCodes(init)| * lcsize + p.clusterofs, TypeBits(p.storage), 0, Blocks(p))]
  }

  lemma {:induction false} UnplacedLast(ps: seq<Pcluster>, lcsize: nat, init: seq<Pcluster>, p: Pcluster, off: nat)
    requires ps != [] && init == ps[..|ps| - 1] && p == ps[|ps| - 1] && off == |BigCodes(init)|
    ensures BigCodes(ps) == BigCodes(init) + PclusterCodes(p)
    ensures var hs := Unplaced(init, lcsize);
            Unplaced(ps, lcsize) == hs + [Head(if hs == [] then 0 else off * lcsize + p.clusterofs, TypeBits(p.storage), 0, Blocks(p))]
  {
  }

  lemma {:induction false} OpensBig(raw: seq<RawEntry>, ps: seq<Pcluster>, lcsize: nat)
    requires Carries(raw, 0, BigCodes(ps))
    ensures OpenHeads(raw, lcsize, true, |BigCodes(ps)|) == Ok(Unplaced(ps, lcsize))
    decreases |ps|
  {
    if ps != [] {
      var init, p := ps[..|ps| - 1], ps[|ps| - 1];
      var off := |BigCodes(init)|;
      UnplacedLast(ps, lcsize, init, p, off);
      CarriesParts(raw, 0, BigCodes(init), PclusterCodes(p));
      OpensBig(raw, init, lcsize);
      OpensOne(raw, lcsize, off, p, Unplaced(init, lcsize));
    }
  }

  /** An opening entry opens its pcluster, of one block for now. */
  lemma {:induction false} OpeningOpens(raw: seq<RawEntry>, lcsize: nat, off: nat, ty: nat, ofs: nat, hs: seq<Head>)
    requires off < |raw| && raw[off].ty == ty != NONHEAD && raw[off].value == ofs && OpenHeads(raw, lcsize, true, off) == Ok(hs)
    ensures OpenHeads(raw, lcsize, true, off + 1) == Ok(hs + [Head(if hs == [] then 0 else off * lcsize + ofs, ty, 0, 1)])
  {
    assert OpenHeads(raw, lcsize, true, off + 1) == OpenStep(raw, hs, lcsize, true, off);
  }

  lemma {:induction false} OpensOne(raw: seq<RawEntry>, lcsize: nat, off: nat, p: Pcluster, hs: seq<Head>)
    requires Carries(raw, off, PclusterCodes(p)) && OpenHeads(raw, lcsize, true, off) == Ok(hs)
    ensures OpenHeads(raw, lcsize, true, off + |PclusterCodes(p)|)
            == Ok(hs + [Head(if hs == [] then 0 else off * lcsize + p.clusterofs, TypeBits(p.storage), 0, Blocks(p))])
  {
    var opening: seq<code14> := [TypeBits(p.storage) * 0x1000 + p.clusterofs];
    var h := Head(if hs == [] then 0 else off * lcsize + p.clusterofs, TypeBits(p.storage), 0, 1);
    var n := |CountCodes(p)|;
    CarriesParts(raw, off, opening + CountCodes(p), DeltaCodes(p.deltas));
    CarriesParts(raw, off, opening, CountCodes(p));
    assert raw[off + 0].ty == opening[0] / 0x1000 % 4 && raw[off + 0].value == opening[0] % 0x1000;
    OpeningOpens(raw, lcsize, off, TypeBits(p.storage), p.clusterofs, hs);
    CountIsStored(raw, lcsize, off + 1, p, hs, h);
    DeltasOpenNothing(raw, lcsize, off + 1 + n, p.deltas, |p.deltas|);
  }

  lemma {:induction false} BlocksEndTotal(hs: seq<Head>, ps: seq<Pcluster>, first: nat, k: nat)
    requires k <= |ps| == |hs| && forall j :: 0 <= j < |hs| ==> hs[j].cblkcnt == Blocks(ps[j])
    ensures BlocksEnd(hs, first, k) == first + TotalBlocks(ps[..k])
  {
    if k > 0 {
      BlocksEndTotal(hs, ps, first, k - 1);
      assert ps[..k][..k - 1] == ps[..k - 1];
    }
  }

  lemma {:induction false} BigHeadAt(ps: seq<Pcluster>, lcsize: nat, first: nat, k: nat)
    requires k < |ps|
    ensures var u, b := Unplaced(ps, lcsize), BigHeads(ps, lcsize, first);
            u[k].cblkcnt == Blocks(ps[k]) && b[k] == u[k].(blkaddr := first + TotalBlocks(ps[..k]))
    decreases |ps|
  {
    if k < |ps| - 1 {
      BigHeadAt(ps[..|ps| - 1], lcsize, first, k);
      assert ps[..|ps| - 1][..k] == ps[..k];
    }
  }

  lemma {:induction false} TotalBlocksGrows(ps: seq<Pcluster>, k: nat)
    requires k <= |ps|
    ensures TotalBlocks(ps[..k]) <= TotalBlocks(ps)
    decreases |ps|
  {
    if k < |ps| {
      TotalBlocksGrows(ps[..|ps| - 1], k);
      assert ps[..|ps| - 1][..k] == ps[..k];
    } else {
      assert ps[..k] == ps;
    }
  }

  /** A big index is read back whole: starts, types, block counts and block addresses, as
      long as every pcluster begins below block 2^32. */
  lemma {:induction false} BigResolves(raw: seq<RawEntry>, ps: seq<Pcluster>, lcsize: nat)
    requires ps != [] && Carries(raw, 0, BigCodes(ps)) && |raw| == |BigCodes(ps)|
    requires raw[0].base + TotalBlocks(ps[..|ps| - 1]) < U32
    ensures ResolveHeads(raw, lcsize, true) == Ok(BigHeads(ps, lcsize, raw[0].base))
  {
    var first := raw[0].base;
    var hs := Unplaced(ps, lcsize);
    OpensBig(raw, ps, lcsize);
    forall k | 0 <= k < |ps|
      ensures BlocksEnd(hs, first, k) == first + TotalBlocks(ps[..k]) < U32
      ensures BigHeads(ps, lcsize, first)[k] == hs[k].(blkaddr := BlocksEnd(hs, first, k))
    {
      forall j | 0 <= j < |hs| ensures hs[j].cblkcnt == Blocks(ps[j]) { BigHeadAt(ps, lcsize, first, j); }
      BlocksEndTotal(hs, ps, first, k);
      BigHeadAt(ps, lcsize, first, k);
      TotalBlocksGrows(ps[..|ps| - 1], k);
      assert ps[..|ps| - 1][..k] == ps[..k];
    }
    assert AssignBlocks(hs, first) == Ok(BigHeads(ps, lcsize, first)) by {
      assert BigHeads(ps, lcsize, first)
          == seq(|hs|, k requires 0 <= k < |hs| => hs[k].(blkaddr := BlocksEnd(hs, first, k)));
    }
  }

  lemma {:induction false} FirstRegion(ebase: nat, nLc: nat)
    requires nLc > 0
    ensures RegionOf(ebase, nLc, 0) == 0
  {
  }

  /** The big round trip from the bytes of the index, whatever the bases of regions other
      than the first: only the first base is ever used. */
  lemma {:induction false} BigRoundTrip(src: seq<byte>, ebase: nat, ps: seq<Pcluster>, bases: seq<u32>, lcsize: nat)
    requires ps != [] && |bases| == Regions(ebase, |BigCodes(ps)|) > 0
    requires bases[0] + TotalBlocks(ps[..|ps| - 1]) < U32
    requires CheckedFullReadLen(IdxLen(ebase, |BigCodes(ps)|)).Ok?
    requires Lies(src, ebase, PutCompactIndex(BigCodes(ps), bases, ebase))
    ensures CompactHeads(src, ebase, lcsize, |BigCodes(ps)|, true) == Ok(BigHeads(ps, lcsize, bases[0]))
  {
    var codes := BigCodes(ps);
    FirstRegion(ebase, |codes|);
    UnpackWritten(src, ebase, codes, bases);
    BigResolves(RawIndex(codes, bases, ebase), ps, lcsize);
  }

  // ----- any index at all -----

  lemma {:induction false} OpenCounts(raw: seq<RawEntry>, lcsize: nat, big: bool, n: nat)
    requires n <= |raw| && OpenHeads(raw, lcsize, big, n).Ok?
    ensures forall k :: 0 <= k < |OpenHeads(raw, lcsize, big, n).value| ==>
              OpenHeads(raw, lcsize, big, n).value[k].cblkcnt >= 1
  {
    if n > 0 { OpenCounts(raw, lcsize, big, n - 1); }
  }

  lemma {:induction false} BlocksEndMonotone(hs: seq<Head>, first: nat, j: nat, k: nat)
    requires j <= k <= |hs|
    ensures BlocksEnd(hs, first, j) <= BlocksEnd(hs, first, k)
    decreases k
  {
    if j < k { BlocksEndMonotone(hs, first, j, k - 1); }
  }

  /** In big mode, whatever the index holds, physical spans are contiguous from the first
      base, non-empty and pairwise disjoint. */
  lemma {:induction false} BigSpansTile(raw: seq<RawEntry>, lcsize: nat)
    requires ResolveHeads(raw, lcsize, true).Ok?
    ensures var hs := ResolveHeads(raw, lcsize, true).value;
            && (hs != [] ==> hs[0].blkaddr == raw[0].base)
            && (forall k :: 0 <= k < |hs| ==> hs[k].cblkcnt >= 1)
            && (forall k :: 0 <= k < |hs| - 1 ==> hs[k + 1].blkaddr == hs[k].blkaddr + hs[k].cblkcnt)
            && (forall j, k :: 0 <= j < k < |hs| ==> hs[j].blkaddr + hs[j].cblkcnt <= hs[k].blkaddr)
  {
    OpenCounts(raw, lcsize, true, |raw|);
    var open := OpenHeads(raw, lcsize, true, |raw|).value;
    var first := if raw == [] then 0 else raw[0].base;
    var hs := ResolveHeads(raw, lcsize, true).value;
    forall j, k | 0 <= j < k < |hs|
      ensures hs[j].blkaddr + hs[j].cblkcnt <= hs[k].blkaddr
    {
      BlocksEndMonotone(open, first, j + 1, k);
    }
  }
}
