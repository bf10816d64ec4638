/** When a pcluster of an EROFS index is empty (`crates/lamfold-erofs/src/erofs.rs`): exactly,
    for both forms of the index, from the lclusters alone. */
module ErofsStarts {
  import opened Bytes
  import opened ErofsIndex
  import opened ErofsDecode
  import opened Frontend

  /** An lcluster that opens a pcluster, and the offset it records. */
  datatype Opening = Opening(at: nat, offset: nat)

  /** The opening lclusters of a compact index. */
  function CompactOpenings(raw: seq<RawEntry>, n: nat): seq<Opening>
    requires n <= |raw|
  {
    if n == 0 then []
    else
      var os := CompactOpenings(raw, n - 1);
      if raw[n - 1].ty == NONHEAD then os else os + [Opening(n - 1, raw[n - 1].value)]
  }

  /** The opening lclusters of a full index. */
  function FullOpenings(src: seq<byte>, idx0: nat, n: nat): seq<Opening>
    requires idx0 + n * 8 <= |src|
  {
    if n == 0 then []
    else
      var os, p := FullOpenings(src, idx0, n - 1), idx0 + (n - 1) * 8;
      if Le16(src, p) % 4 == NONHEAD then os else os + [Opening(n - 1, Le16(src, p + 2))]
  }

  /** The start that goes with an opening: the first one's offset is not looked at. */
  function StartOf(os: seq<Opening>, lcsize: nat, k: nat): nat
    requires k < |os|
  {
    if k == 0 then 0 else os[k].at * lcsize + os[k].offset
  }

  /** The pclusters start where the openings say, which come in order. */
  ghost predicate StartsAre(hs: seq<Head>, os: seq<Opening>, lcsize: nat)
  {
    && |hs| == |os|
    && (forall k :: 0 <= k < |hs| ==> hs[k].start == StartOf(os, lcsize, k))
    && (forall j, k :: 0 <= j < k < |os| ==> os[j].at < os[k].at)
  }

  ghost predicate OpenBefore(os: seq<Opening>, n: nat)
  {
    forall k :: 0 <= k < |os| ==> os[k].at < n
  }

  /** One more opening lcluster. */
  lemma {:induction false} StartsAreGrow(hs: seq<Head>, os: seq<Opening>, lcsize: nat, i: nat, offset: nat, next: seq<Head>)
    requires StartsAre(hs, os, lcsize) && OpenBefore(os, i)
    requires |next| == |hs| + 1 && (forall k :: 0 <= k < |hs| ==> next[k].start == hs[k].start)
    requires next[|hs|].start == if hs == [] then 0 else i * lcsize + offset
    ensures StartsAre(next, os + [Opening(i, offset)], lcsize) && OpenBefore(os + [Opening(i, offset)], i + 1)
  {
    var more := os + [Opening(i, offset)];
    forall k | 0 <= k < |next|
      ensures next[k].start == StartOf(more, lcsize, k)
    {
      if k < |hs| { assert StartOf(more, lcsize, k) == StartOf(os, lcsize, k); }
    }
  }

  /** What an entry of a compact index does to the starts. */
  lemma {:induction false} CompactEntryOpens(e: RawEntry, rank: nat, hs: seq<Head>, lcsize: nat, big: bool, i: nat)
    requires OpenEntry(e, rank, hs, lcsize, big, i).Ok?
    ensures var next := OpenEntry(e, rank, hs, lcsize, big, i).value;
            && (forall k :: 0 <= k < |hs| && k < |next| ==> next[k].start == hs[k].start)
            && if e.ty == NONHEAD then |next| == |hs|
               else |next| == |hs| + 1 && next[|hs|].start == if hs == [] then 0 else i * lcsize + e.value
  {
  }

  lemma {:induction false} CompactStartsAre(raw: seq<RawEntry>, lcsize: nat, big: bool, n: nat)
    requires n <= |raw| && OpenHeads(raw, lcsize, big, n).Ok?
    ensures StartsAre(OpenHeads(raw, lcsize, big, n).value, CompactOpenings(raw, n), lcsize)
    ensures OpenBefore(CompactOpenings(raw, n), n)
  {
    if n > 0 {
      CompactStartsAre(raw, lcsize, big, n - 1);
      var hs, os, e := OpenHeads(raw, lcsize, big, n - 1).value, CompactOpenings(raw, n - 1), raw[n - 1];
      CompactEntryOpens(e, HeadsInRegion(raw, n - 1, e.region), hs, lcsize, big, n - 1);
      if e.ty != NONHEAD { StartsAreGrow(hs, os, lcsize, n - 1, e.value, OpenHeads(raw, lcsize, big, n).value); }
    }
  }

  lemma {:induction false} ResolvedStartsAre(raw: seq<RawEntry>, lcsize: nat, big: bool)
    requires ResolveHeads(raw, lcsize, big).Ok?
    ensures StartsAre(ResolveHeads(raw, lcsize, big).value, CompactOpenings(raw, |raw|), lcsize)
  {
    CompactStartsAre(raw, lcsize, big, |raw|);
  }

  lemma {:induction false} FullEntryOpens(src: seq<byte>, p: nat, hs: seq<Head>, lcsize: nat, i: nat)
    requires p + 8 <= |src| && FullStep(hs, src[p..p + 8], lcsize, i).Ok?
    ensures var next := FullStep(hs, src[p..p + 8], lcsize, i).value;
            if Le16(src, p) % 4 == NONHEAD then next == hs
            else |next| == |hs| + 1 && (forall k :: 0 <= k < |hs| ==> next[k].start == hs[k].start)
                 && next[|hs|].start == if hs == [] then 0 else i * lcsize + Le16(src, p + 2)
  {
    LeSlice(src, p, p + 8, 0);
    LeSlice(src, p, p + 8, 2);
  }

  lemma {:induction false} FullStartsAre(src: seq<byte>, idx0: nat, lcsize: nat, n: nat)
    requires idx0 + n * 8 <= |src| && FullHeads(src, idx0, lcsize, n).Ok?
    ensures StartsAre(FullHeads(src, idx0, lcsize, n).value, FullOpenings(src, idx0, n), lcsize)
    ensures OpenBefore(FullOpenings(src, idx0, n), n)
  {
    if n > 0 {
      FullStartsAre(src, idx0, lcsize, n - 1);
      var hs, os, p := FullHeads(src, idx0, lcsize, n - 1).value, FullOpenings(src, idx0, n - 1), idx0 + (n - 1) * 8;
      FullEntryOpens(src, p, hs, lcsize, n - 1);
      if Le16(src, p) % 4 != NONHEAD {
        StartsAreGrow(hs, os, lcsize, n - 1, Le16(src, p + 2), FullHeads(src, idx0, lcsize, n).value);
      }
    }
  }

  // ----- the exact condition -----

  /** From the lcluster of opening `k` to the start of the next pcluster. */
  function Reach(os: seq<Opening>, lcsize: nat, k: nat): int
    requires k + 1 < |os|
  {
    (os[k + 1].at - (if k == 0 then 0 else os[k].at)) * lcsize + os[k + 1].offset
  }

  function OffsetOf(os: seq<Opening>, k: nat): nat
    requires k < |os|
  {
    if k == 0 then 0 else os[k].offset
  }

  lemma {:induction false} Distance(a: int, b: int, c: int)
    ensures (a - b) * c == a * c - b * c
  {
  }

  /** A pcluster before the last is empty exactly when its offset is as far as the next one's
      start; it has bytes exactly when it is less. */
  lemma {:induction false} EmptyIffOffsetReaches(hs: seq<Head>, os: seq<Opening>, lcsize: nat, k: nat)
    requires StartsAre(hs, os, lcsize) && k + 1 < |hs|
    ensures hs[k].start == hs[k + 1].start <==> OffsetOf(os, k) == Reach(os, lcsize, k)
    ensures hs[k].start < hs[k + 1].start <==> OffsetOf(os, k) < Reach(os, lcsize, k)
  {
    Distance(os[k + 1].at, if k == 0 then 0 else os[k].at, lcsize);
  }

  ghost predicate Increasing(hs: seq<Head>)
  {
    forall j, k :: 0 <= j < k < |hs| ==> hs[j].start < hs[k].start
  }

  lemma {:induction false} ChainIncreases(hs: seq<Head>, j: nat, k: nat)
    requires j < k < |hs| && forall i: nat :: i + 1 < |hs| ==> hs[i].start < hs[i + 1].start
    ensures hs[j].start < hs[k].start
    decreases k
  {
    if j + 1 < k { ChainIncreases(hs, j, k - 1); }
  }

  /** Only the last pcluster can be empty exactly when every offset before the last stays
      short of the next start. */
  lemma {:induction false} IncreasingIffOffsetsFallShort(hs: seq<Head>, os: seq<Opening>, lcsize: nat)
    requires StartsAre(hs, os, lcsize)
    ensures Increasing(hs) <==> forall k {:trigger Reach(os, lcsize, k)} :: 0 <= k < |os| - 1 ==> OffsetOf(os, k) < Reach(os, lcsize, k)
  {
    if Increasing(hs) {
      forall k {:trigger Reach(os, lcsize, k)} | 0 <= k < |os| - 1
        ensures OffsetOf(os, k) < Reach(os, lcsize, k)
      {
        EmptyIffOffsetReaches(hs, os, lcsize, k);
      }
    }
    if forall k {:trigger Reach(os, lcsize, k)} :: 0 <= k < |os| - 1 ==> OffsetOf(os, k) < Reach(os, lcsize, k) {
      forall i: nat | i + 1 < |hs|
        ensures hs[i].start < hs[i + 1].start
      {
        assert OffsetOf(os, i) < Reach(os, lcsize, i);
        EmptyIffOffsetReaches(hs, os, lcsize, i);
      }
      forall j, k | 0 <= j < k < |hs|
        ensures hs[j].start < hs[k].start
      {
        ChainIncreases(hs, j, k);
      }
    }
  }

  /** For instance when every offset lies inside its lcluster. */
  lemma {:induction false} OffsetsInsideFallShort(os: seq<Opening>, lcsize: nat)
    requires forall k :: 0 <= k < |os| ==> os[k].offset < lcsize
    requires forall j, k :: 0 <= j < k < |os| ==> os[j].at < os[k].at
    ensures forall k {:trigger Reach(os, lcsize, k)} :: 0 <= k < |os| - 1 ==> OffsetOf(os, k) < Reach(os, lcsize, k)
  {
    forall k {:trigger Reach(os, lcsize, k)} | 0 <= k < |os| - 1
      ensures OffsetOf(os, k) < Reach(os, lcsize, k)
    {
      var from := if k == 0 then 0 else os[k].at;
      assert os[0].at < os[k + 1].at && os[k].at < os[k + 1].at;
      MulMonotone(lcsize, 1, os[k + 1].at - from);
    }
  }

  // ----- inodes -----

  /** The opening lclusters of an inode's index. */
  function OpeningsIn(v: Volume, layout: nat, h: MapHeader, nLc: nat): seq<Opening>
  {
    if layout == COMPRESSED_FULL then
      if h.mh + LEGACY_HEADER_SIZE + nLc * 8 <= |v.src| then FullOpenings(v.src, h.mh + LEGACY_HEADER_SIZE, nLc) else []
    else
      match UnpackIndex(v.src, h.mh + 8, nLc)
      case Ok(raw) => CompactOpenings(raw, |raw|)
      case Err(_) => []
  }

  lemma {:induction false} FullIsReadable(src: seq<byte>, idx0: nat, lcsize: nat, n: nat)
    requires FullHeads(src, idx0, lcsize, n).Ok?
    ensures n == 0 || idx0 + n * 8 <= |src|
  {
  }

  lemma {:induction false} IndexStartsAre(v: Volume, layout: nat, h: MapHeader, lcsize: nat, nLc: nat)
    requires HeadsIn(v, layout, h, lcsize, nLc).Ok?
    ensures StartsAre(HeadsIn(v, layout, h, lcsize, nLc).value, OpeningsIn(v, layout, h, nLc), lcsize)
  {
    if layout == COMPRESSED_FULL {
      var idx0 := h.mh + LEGACY_HEADER_SIZE;
      FullIsReadable(v.src, idx0, lcsize, nLc);
      if nLc > 0 {
        FullStartsAre(v.src, idx0, lcsize, nLc);
      }
    } else {
      ResolvedStartsAre(UnpackIndex(v.src, h.mh + 8, nLc).value, lcsize, h.big);
    }
  }

  /** Whatever a compressed inode's index, only its last pcluster can be empty exactly when
      the offsets of the opening lclusters before the last fall short. */
  lemma {:induction false} InodeStartsIncreaseIff(v: Volume, ino: Inode, h: MapHeader, lcsize: nat, os: seq<Opening>)
    requires InodeHeads(v, ino).Ok? && ParseMapHeader(v, ino) == Ok(h) && lcsize == Pow2(h.lcbits)
    requires os == OpeningsIn(v, ino.layout, h, CeilDiv(ino.size, lcsize))
    ensures |os| == |InodeHeads(v, ino).value.0|
    ensures Increasing(InodeHeads(v, ino).value.0)
            <==> forall k {:trigger Reach(os, lcsize, k)} :: 0 <= k < |os| - 1 ==> OffsetOf(os, k) < Reach(os, lcsize, k)
  {
    IndexStartsAre(v, ino.layout, h, lcsize, CeilDiv(ino.size, lcsize));
    IncreasingIffOffsetsFallShort(InodeHeads(v, ino).value.0, os, lcsize);
  }

  // ----- an empty pcluster in the middle -----

  /** A map header and a full index of three lclusters, each opening a pcluster, the second
      with an offset of 512 bytes, which is the lcluster size. */
  const MIDDLE_INDEX: seq<byte> :=
    Zeros(16) + [1, 0, 0, 0, 1, 0, 0, 0] + [1, 0, 0, 2, 2, 0, 0, 0] + [1, 0, 0, 0, 3, 0, 0, 0]

  const MIDDLE_INODE: Inode := Inode(Regular, 1536, 0, COMPRESSED_FULL, 0, 0)

  lemma {:induction false} MiddleEntries(none: seq<Head>, h0: Head, h1: Head, h2: Head)
    requires none == [] && h0 == Head(0, HEAD1, 1, 1) && h1 == Head(1024, HEAD1, 2, 1) && h2 == Head(1024, HEAD1, 3, 1)
    ensures FullStep(none, [1, 0, 0, 0, 1, 0, 0, 0], 512, 0) == Ok([h0])
    ensures FullStep([h0], [1, 0, 0, 2, 2, 0, 0, 0], 512, 1) == Ok([h0, h1])
    ensures FullStep([h0, h1], [1, 0, 0, 0, 3, 0, 0, 0], 512, 2) == Ok([h0, h1, h2])
  {
    assert none + [h0] == [h0] && [h0] + [h1] == [h0, h1] && [h0, h1] + [h2] == [h0, h1, h2];
  }

  /** So the comment that only the last pcluster can be empty does not hold of every index. */
  lemma {:induction false} MiddlePclusterCanBeEmpty(v: Volume)
    requires v.blkszbits == 9 && |v.src| >= 40 && v.src[..40] == MIDDLE_INDEX
    ensures InodeHeads(v, MIDDLE_INODE) == Ok(([Head(0, HEAD1, 1, 1), Head(1024, HEAD1, 2, 1), Head(1024, HEAD1, 3, 1)], Algos(0, 0)))
  {
    var x := v.src[..40];
    assert v.src[0..8] == x[0..8] == Zeros(8);
    assert v.src[16..24] == x[16..24] == [1, 0, 0, 0, 1, 0, 0, 0];
    assert v.src[24..32] == x[24..32] == [1, 0, 0, 2, 2, 0, 0, 0];
    assert v.src[32..40] == x[32..40] == [1, 0, 0, 0, 3, 0, 0, 0];
    assert Pow2(9) == 512;
    assert ParseMapHeader(v, MIDDLE_INODE) == Ok(MapHeader(0, 9, false, false, Algos(0, 0)));
    var none, h0, h1, h2 := [], Head(0, HEAD1, 1, 1), Head(1024, HEAD1, 2, 1), Head(1024, HEAD1, 3, 1);
    MiddleEntries(none, h0, h1, h2);
    assert FullHeads(v.src, 16, 512, 0) == Ok(none);
    assert FullHeads(v.src, 16, 512, 1) == Ok([h0]);
    assert FullHeads(v.src, 16, 512, 2) == Ok([h0, h1]);
    assert FullHeads(v.src, 16, 512, 3) == Ok([h0, h1, h2]);
  }
}
