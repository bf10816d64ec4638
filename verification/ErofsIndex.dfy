/** The EROFS logical-cluster indexes (`crates/lamfold-erofs/src/erofs.rs`): the full form
    (8 bytes an lcluster), the compact form (4- and 2-byte amortised zones), and how each
    resolves into the list of pclusters.

    The functions say what the index means; the methods are the loops, proved equal to
    them. `ErofsPacking` proves the two forms agree. */
module ErofsIndex {
  import opened Bytes

  const PLAIN: nat := 0
  const HEAD1: nat := 1
  const NONHEAD: nat := 2
  const HEAD2: nat := 3

  const LEGACY_HEADER_SIZE: nat := 16
  const LOBITS_MASK: nat := 0x1000
  const CBLKCNT_FLAG: nat := 0x800
  const ENCBITS: nat := 14
  const ENC: nat := 0x4000

  /** One pcluster: logical start, lcluster type, first block, number of blocks. */
  datatype Head = Head(start: nat, ty: nat, blkaddr: nat, cblkcnt: nat)

  /** One unpacked compact lcluster, with the region it came from and its base block. */
  datatype RawEntry = RawEntry(ty: nat, value: nat, region: nat, base: nat)

  function Prepend<T>(xs: seq<T>, r: Result<seq<T>>): Result<seq<T>>
  {
    if r.Ok? then Ok(xs + r.value) else r
  }

  lemma {:induction false} PrependTwice<T>(xs: seq<T>, ys: seq<T>, r: Result<seq<T>>)
    ensures Prepend(xs, Prepend(ys, r)) == Prepend(xs + ys, r)
    ensures Prepend(xs, Ok([])) == Ok(xs) && Prepend([], r) == r
  {
    assert xs + [] == xs;
    if r.Ok? { assert [] + r.value == r.value; }
    if r.Ok? { assert xs + (ys + r.value) == xs + ys + r.value; }
  }

  // ----- the full index -----

  /** The pclusters of the first `n` entries of the full index at `idx0`. */
  function FullHeads(src: seq<byte>, idx0: nat, lcsize: nat, n: nat): Result<seq<Head>>
  {
    if n == 0 then Ok([])
    else
      var hs :- FullHeads(src, idx0, lcsize, n - 1);
      var e :- ReadSource(src, idx0 + (n - 1) * 8, 8);
      FullStep(hs, e, lcsize, n - 1)
  }

  function FullStep(hs: seq<Head>, e: seq<byte>, lcsize: nat, i: nat): Result<seq<Head>>
    requires |e| == 8
  {
    var advise := Le16(e, 0);
    var ty := advise % 4;
    if ty == NONHEAD then Ok(hs)
    else if advise / 0x4000 % 2 == 1 then Err(Unsupported)
    else
      var start := if hs == [] then 0 else i * lcsize + Le16(e, 2);
      Ok(hs + [Head(start, ty, Le32(e, 4), 1)])
  }

  lemma {:induction false} FullAdvise(low: byte, high: byte)
    ensures (low as int + 0x100 * high as int) % 4 == low as int % 4
    ensures (low as int + 0x100 * high as int) / 0x4000 % 2 == high as int / 0x40 % 2
  {
  }

  /** A full entry opens a pcluster if and only if its two type bits, the low bits of its first
      byte, are not 2; bit 14 of its first word makes it a hole, which is refused. */
  lemma {:induction false} FullEntryOpens(hs: seq<Head>, e: seq<byte>, lcsize: nat, i: nat)
    requires |e| == 8
    ensures e[0] as int % 4 == 2 <==> FullStep(hs, e, lcsize, i) == Ok(hs)
    ensures e[0] as int % 4 != 2 && e[1] as int / 0x40 % 2 == 1 <==> FullStep(hs, e, lcsize, i) == Err(Unsupported)
    ensures e[0] as int % 4 != 2 && e[1] as int / 0x40 % 2 == 0 <==>
              FullStep(hs, e, lcsize, i) == Ok(hs + [Head(if hs == [] then 0 else i * lcsize + e[2] as int + 0x100 * e[3] as int,
                                                          e[0] as int % 4, Le32(e, 4), 1)])
  {
    FullAdvise(e[0], e[1]);
  }

  lemma {:induction false} FullErrorStays(src: seq<byte>, idx0: nat, lcsize: nat, i: nat, n: nat)
    requires i <= n && FullHeads(src, idx0, lcsize, i).Err?
    ensures FullHeads(src, idx0, lcsize, n) == FullHeads(src, idx0, lcsize, i)
    decreases n - i
  {
    if i < n { FullErrorStays(src, idx0, lcsize, i, n - 1); }
  }

  /** `build_heads_full`. */
  method BuildHeadsFull(src: seq<byte>, mh: nat, lcsize: nat, nLc: nat) returns (r: Result<seq<Head>>)
    ensures r == FullHeads(src, mh + LEGACY_HEADER_SIZE, lcsize, nLc)
  {
    var idx0 := mh + LEGACY_HEADER_SIZE;
    var heads: seq<Head> := [];
    for i := 0 to nLc
      invariant FullHeads(src, idx0, lcsize, i) == Ok(heads)
    {
      var e := ReadSource(src, idx0 + i * 8, 8);
      if e.Err? {
        FullErrorStays(src, idx0, lcsize, i + 1, nLc);
        return Err(e.error);
      }
      assert FullHeads(src, idx0, lcsize, i + 1) == FullStep(heads, e.value, lcsize, i);
      var advise := Le16(e.value, 0);
      var ty := advise % 4;
      if ty == NONHEAD { continue; }
      if advise / 0x4000 % 2 == 1 {
        FullErrorStays(src, idx0, lcsize, i + 1, nLc);
        return Err(Unsupported);
      }
      var clusterofs := Le16(e.value, 2);
      var blkaddr := Le32(e.value, 4);
      var start := if |heads| == 0 then 0 else i * lcsize + clusterofs;
      heads := heads + [Head(start, ty, blkaddr, 1)];
    }
    r := Ok(heads);
  }

  // ----- bits -----

  /** Bit `j` of `v` (`(v >> j) & 1`). */
  function NatBit(v: nat, j: nat): (r: nat)
    ensures r < 2
  {
    if j == 0 then v % 2 else NatBit(v / 2, j - 1)
  }

  /** Bit `p` of a buffer, least significant bit of each byte first. */
  function BitAt(buf: seq<byte>, p: nat): nat
    requires p < 8 * |buf|
  {
    NatBit(buf[p / 8], p % 8)
  }

  /** The `n`-bit number at bit `p`, least significant bit first. */
  function BitsLsb(buf: seq<byte>, p: nat, n: nat): (r: nat)
    requires p + n <= 8 * |buf|
    ensures r < Pow2(n)
    decreases 8 * |buf| - p
  {
    if n == 0 then 0 else BitAt(buf, p) + 2 * BitsLsb(buf, p + 1, n - 1)
  }

  /** `bit << k`. */
  function Shl(bit: nat, k: nat): nat
  {
    if k == 0 then bit else 2 * Shl(bit, k - 1)
  }

  /** A number gains its next bit at the top. */
  lemma {:induction false} BitsLsbTop(buf: seq<byte>, p: nat, k: nat)
    requires p + k < 8 * |buf|
    ensures BitsLsb(buf, p, k + 1) == BitsLsb(buf, p, k) + Shl(BitAt(buf, p + k), k)
    decreases k
  {
    if k > 0 { BitsLsbTop(buf, p + 1, k - 1); }
  }

  lemma {:induction false} ByteOfBit(p: nat, n: nat)
    ensures p / 8 < n <==> p < 8 * n
  {
  }

  /** `read_bits_lsb`; each new bit lands above all the bits of `v`, so `|=` is `+`. */
  method ReadBitsLsb(buf: seq<byte>, bitPos: nat) returns (r: Result<nat>)
    ensures r.Ok? <==> bitPos + ENCBITS <= 8 * |buf|
    ensures r.Ok? ==> r.value == BitsLsb(buf, bitPos, ENCBITS)
    ensures r.Err? ==> r.error == Corrupt
  {
    var v := 0;
    for k := 0 to ENCBITS
      invariant k > 0 ==> bitPos + k <= 8 * |buf|
      invariant v == if k == 0 then 0 else BitsLsb(buf, bitPos, k)
    {
      var bp := bitPos + k;
      ByteOfBit(bp, |buf|);
      if bp / 8 >= |buf| { return Err(Corrupt); }
      var bit := NatBit(buf[bp / 8], bp % 8);
      assert bit == BitAt(buf, bp);
      BitsLsbTop(buf, bitPos, k);
      v := v + Shl(bit, k);
    }
    r := Ok(v);
  }

  // ----- the compact index: unpacking -----

  /** A 14-bit code: two type bits above a 12-bit value. */
  function Entry(code: nat, region: nat, base: nat): RawEntry
  {
    RawEntry(code / LOBITS_MASK % 4, code % LOBITS_MASK, region, base)
  }

  /** Unpack `count` lclusters from 8-byte groups: two codes sharing one base. */
  function Groups4(buf: seq<byte>, pos: nat, count: nat, rid: nat): (r: Result<seq<RawEntry>>)
    ensures r.Ok? ==> |r.value| == count
    decreases count
  {
    if count == 0 then Ok([])
    else if pos + 8 > |buf| then Err(Corrupt)
    else
      var base := Le32(buf, pos + 4);
      var even, odd := Entry(Le16(buf, pos), rid, base), Entry(Le16(buf, pos + 2), rid, base);
      if count == 1 then Ok([even])
      else Prepend([even, odd], Groups4(buf, pos + 8, count - 2, rid + 1))
  }

  /** The first `n` entries of a 32-byte pack. */
  function PackEntries(pack: seq<byte>, n: nat, rid: nat): (r: seq<RawEntry>)
    requires |pack| == 32 && n <= 16
    ensures |r| == n
  {
    seq(n, s requires 0 <= s < n => Entry(BitsLsb(pack, s * ENCBITS, ENCBITS), rid, Le32(pack, 28)))
  }

  /** Unpack `count` lclusters from 32-byte packs: sixteen 14-bit codes, then one base. */
  function Packs2(buf: seq<byte>, pos: nat, count: nat, rid: nat): (r: Result<seq<RawEntry>>)
    ensures r.Ok? ==> |r.value| == count
    decreases count
  {
    if count == 0 then Ok([])
    else if pos + 32 > |buf| then Err(Corrupt)
    else
      var n := Min(16, count);
      Prepend(PackEntries(buf[pos..pos + 32], n, rid), Packs2(buf, pos + 32, count - n, rid + 1))
  }

  lemma {:induction false} GroupStep(buf: seq<byte>, pos: nat, left: nat, rid: nat, before: seq<RawEntry>)
    requires left > 0 && pos + 8 <= |buf|
    ensures var base, n := Le32(buf, pos + 4), Min(2, left);
            var group := [Entry(Le16(buf, pos), rid, base), Entry(Le16(buf, pos + 2), rid, base)];
            Prepend(before, Groups4(buf, pos, left, rid))
            == Prepend(before + group[..n], Groups4(buf, pos + 8, left - n, rid + 1))
  {
    var base, n := Le32(buf, pos + 4), Min(2, left);
    var group := [Entry(Le16(buf, pos), rid, base), Entry(Le16(buf, pos + 2), rid, base)];
    var rest := Groups4(buf, pos + 8, left - n, rid + 1);
    if left == 1 {
      assert group[..1] == [group[0]];
      PrependTwice(before + group[..1], [], rest);
    } else {
      assert group[..2] == group;
      PrependTwice(before, group, rest);
    }
  }

  /** `read_4b_groups`: the loop; `pos`, `rid` and `raw` are its in-out parameters. */
  method Read4bGroups(buf: seq<byte>, pos0: nat, count: nat, rid0: nat, raw0: seq<RawEntry>)
    returns (r: Result<seq<RawEntry>>, pos: nat, rid: nat)
    ensures r == Prepend(raw0, Groups4(buf, pos0, count, rid0))
    ensures r.Ok? ==> pos == pos0 + 8 * CeilDiv(count, 2) && rid == rid0 + CeilDiv(count, 2)
  {
    var raw := raw0;
    pos, rid := pos0, rid0;
    var produced := 0;
    while produced < count
      invariant produced <= count
      invariant Prepend(raw, Groups4(buf, pos, count - produced, rid))
                == Prepend(raw0, Groups4(buf, pos0, count, rid0))
      invariant pos + 8 * CeilDiv(count - produced, 2) == pos0 + 8 * CeilDiv(count, 2)
      invariant rid + CeilDiv(count - produced, 2) == rid0 + CeilDiv(count, 2)
    {
      if pos + 8 > |buf| { return Err(Corrupt), pos, rid; }
      ghost var before, left := raw, count - produced;
      GroupStep(buf, pos, left, rid, before);
      var base := Le32(buf, pos + 4);
      var halves := [Le16(buf, pos), Le16(buf, pos + 2)];
      ghost var group := [Entry(halves[0], rid, base), Entry(halves[1], rid, base)];
      var h := 0;
      while h < 2 && produced < count
        invariant 0 <= h <= Min(2, left)
        invariant produced == count - left + h
        invariant raw == before + group[..h]
        decreases 2 - h
      {
        assert group[..h] + [group[h]] == group[..h + 1];
        raw := raw + [RawEntry(halves[h] / LOBITS_MASK % 4, halves[h] % LOBITS_MASK, rid, base)];
        produced := produced + 1;
        h := h + 1;
      }
      pos := pos + 8;
      rid := rid + 1;
    }
    PrependTwice(raw, [], Ok([]));
    r := Ok(raw);
  }

  lemma {:induction false} PackStep(buf: seq<byte>, pos: nat, left: nat, rid: nat, before: seq<RawEntry>)
    requires left > 0 && pos + 32 <= |buf|
    ensures var n := Min(16, left);
            Prepend(before, Packs2(buf, pos, left, rid))
            == Prepend(before + PackEntries(buf[pos..pos + 32], n, rid), Packs2(buf, pos + 32, left - n, rid + 1))
  {
    var n := Min(16, left);
    PrependTwice(before, PackEntries(buf[pos..pos + 32], n, rid), Packs2(buf, pos + 32, left - n, rid + 1));
  }

  /** The inner loop of `read_2b_packs`: up to sixteen entries of one pack. */
  method ReadPack(pack: seq<byte>, left: nat, rid: nat, before: seq<RawEntry>)
    returns (raw: seq<RawEntry>)
    requires left > 0 && |pack| == 32
    ensures raw == before + PackEntries(pack, Min(16, left), rid)
  {
    var base := Le32(pack, 28);
    raw := before;
    ghost var all := PackEntries(pack, Min(16, left), rid);
    var s := 0;
    while s < 16 && s < left
      invariant 0 <= s <= |all|
      invariant raw == before + all[..s]
      decreases 16 - s
    {
      var v := ReadBitsLsb(pack, s * ENCBITS);
      assert all[..s] + [all[s]] == all[..s + 1];
      raw := raw + [RawEntry(v.value / LOBITS_MASK % 4, v.value % LOBITS_MASK, rid, base)];
      s := s + 1;
    }
    assert all[..|all|] == all;
  }

  /** `read_2b_packs`. */
  method Read2bPacks(buf: seq<byte>, pos0: nat, count: nat, rid0: nat, raw0: seq<RawEntry>)
    returns (r: Result<seq<RawEntry>>, pos: nat, rid: nat)
    ensures r == Prepend(raw0, Packs2(buf, pos0, count, rid0))
    ensures r.Ok? ==> pos == pos0 + 32 * CeilDiv(count, 16) && rid == rid0 + CeilDiv(count, 16)
  {
    var raw := raw0;
    pos, rid := pos0, rid0;
    var produced := 0;
    while produced < count
      invariant produced <= count
      invariant Prepend(raw, Packs2(buf, pos, count - produced, rid))
                == Prepend(raw0, Packs2(buf, pos0, count, rid0))
      invariant pos + 32 * CeilDiv(count - produced, 16) == pos0 + 32 * CeilDiv(count, 16)
      invariant rid + CeilDiv(count - produced, 16) == rid0 + CeilDiv(count, 16)
    {
      if pos + 32 > |buf| { return Err(Corrupt), pos, rid; }
      PackStep(buf, pos, count - produced, rid, raw);
      raw := ReadPack(buf[pos..pos + 32], count - produced, rid, raw);
      produced := produced + Min(16, count - produced);
      pos := pos + 32;
      rid := rid + 1;
    }
    PrependTwice(raw, [], Ok([]));
    r := Ok(raw);
  }

  // ----- the compact index: zones -----

  /** Initial 4-byte lclusters: enough to bring the 2-byte packs to a multiple of 32. */
  function Zone4Initial(ebase: nat, nLc: nat): (r: nat)
    ensures r <= nLc
  {
    Min((32 - ebase % 32) / 4 % 8, nLc)
  }

  function Zone2(ebase: nat, nLc: nat): (r: nat)
    ensures r <= nLc - Zone4Initial(ebase, nLc) && r % 16 == 0
  {
    (nLc - Zone4Initial(ebase, nLc)) / 16 * 16
  }

  function Zone4Final(ebase: nat, nLc: nat): (r: nat)
    ensures r < 16 && Zone4Initial(ebase, nLc) + Zone2(ebase, nLc) + r == nLc
  {
    nLc - Zone4Initial(ebase, nLc) - Zone2(ebase, nLc)
  }

  function IdxLen(ebase: nat, nLc: nat): nat
  {
    CeilDiv(Zone4Initial(ebase, nLc), 2) * 8 + Zone2(ebase, nLc) / 16 * 32 + CeilDiv(Zone4Final(ebase, nLc), 2) * 8
  }

  /** Three runs in order, numbering regions as they come. */
  function Unpack3(buf: seq<byte>, a: nat, b: nat, c: nat): (r: Result<seq<RawEntry>>)
    ensures r.Ok? ==> |r.value| == a + b + c
  {
    var ra, rb := CeilDiv(a, 2), b / 16;
    var xs :- Groups4(buf, 0, a, 0);
    var ys :- Prepend(xs, Packs2(buf, 8 * ra, b, ra));
    Prepend(ys, Groups4(buf, 8 * ra + 32 * rb, c, ra + rb))
  }

  function UnpackZones(buf: seq<byte>, ebase: nat, nLc: nat): (r: Result<seq<RawEntry>>)
  {
    Unpack3(buf, Zone4Initial(ebase, nLc), Zone2(ebase, nLc), Zone4Final(ebase, nLc))
  }

  function UnpackIndex(src: seq<byte>, ebase: nat, nLc: nat): Result<seq<RawEntry>>
  {
    var len := IdxLen(ebase, nLc);
    var cap :- CheckedFullReadLen(len);
    var buf :- ReadSource(src, ebase, len);
    UnpackZones(buf, ebase, nLc)
  }

  lemma {:induction false} Groups4Fits(buf: seq<byte>, pos: nat, count: nat, rid: nat)
    requires pos + 8 * CeilDiv(count, 2) <= |buf|
    ensures Groups4(buf, pos, count, rid).Ok?
    decreases count
  {
    if count > 1 { Groups4Fits(buf, pos + 8, count - 2, rid + 1); }
  }

  lemma {:induction false} Packs2Fits(buf: seq<byte>, pos: nat, count: nat, rid: nat)
    requires pos + 32 * CeilDiv(count, 16) <= |buf|
    ensures Packs2(buf, pos, count, rid).Ok?
    decreases count
  {
    if count > 0 {
      var n := Min(16, count);
      Packs2Fits(buf, pos + 32, count - n, rid + 1);
    }
  }

  /** Where the two later zones start, in bytes from the index base. */
  function Zone2Pos(ebase: nat, nLc: nat): nat
  {
    8 * CeilDiv(Zone4Initial(ebase, nLc), 2)
  }

  function FinalPos(ebase: nat, nLc: nat): nat
  {
    Zone2Pos(ebase, nLc) + 32 * (Zone2(ebase, nLc) / 16)
  }

  lemma {:induction false} RemainderOfEight(v: nat)
    requires v % 8 == 0
    ensures v % 32 in {0, 8, 16, 24}
  {
    var q := v / 8;
    assert v == 32 * (q / 4) + 8 * (q % 4);
  }

  lemma {:induction false} ZoneAlignment(ebase: nat, nLc: nat)
    requires ebase % 8 == 0
    ensures Zone2(ebase, nLc) > 0 ==> (ebase + Zone2Pos(ebase, nLc)) % 32 == 0
  {
    var r := ebase % 32;
    RemainderOfEight(ebase);
    var k := (32 - r) / 4 % 8;
    if Zone2(ebase, nLc) > 0 {
      assert Zone4Initial(ebase, nLc) == k;
      assert r == 0 || 32 - r == 8 * CeilDiv(k, 2);
    }
  }

  /** Zone geometry, for every 8-byte-aligned base and every number of lclusters: the zones
      tile the index, a 2-byte zone starts at an absolute multiple of 32, and an index of
      `IdxLen` bytes unpacks, without ever running out of range, to one entry an lcluster. */
  lemma {:induction false} ZoneGeometry(buf: seq<byte>, ebase: nat, nLc: nat)
    requires ebase % 8 == 0
    requires |buf| == IdxLen(ebase, nLc)
    ensures Zone4Initial(ebase, nLc) + Zone2(ebase, nLc) + Zone4Final(ebase, nLc) == nLc
    ensures Zone2(ebase, nLc) > 0 ==> (ebase + Zone2Pos(ebase, nLc)) % 32 == 0
    ensures FinalPos(ebase, nLc) + 8 * CeilDiv(Zone4Final(ebase, nLc), 2) == |buf|
    ensures UnpackZones(buf, ebase, nLc).Ok? && |UnpackZones(buf, ebase, nLc).value| == nLc
  {
    ZoneAlignment(ebase, nLc);
    var a, b, c := Zone4Initial(ebase, nLc), Zone2(ebase, nLc), Zone4Final(ebase, nLc);
    var ra, rb := CeilDiv(a, 2), b / 16;
    WholePacks(b);
    Groups4Fits(buf, 0, a, 0);
    Packs2Fits(buf, 8 * ra, b, ra);
    Groups4Fits(buf, 8 * ra + 32 * rb, c, ra + rb);
  }

  lemma {:induction false} WholePacks(b: nat)
    requires b % 16 == 0
    ensures CeilDiv(b, 16) == b / 16
  {
  }

  lemma {:induction false} LclusterCount(size: nat, lcsize: nat)
    requires lcsize >= 512
    ensures 512 * CeilDiv(size, lcsize) <= size + 512
  {
    var n := CeilDiv(size, lcsize);
    CeilDivBounds(size, lcsize);
    if n > 0 {
      NextMultiple(n - 1, lcsize);
      MulMonotone(n - 1, 512, lcsize);
    }
  }

  lemma {:induction false} IdxLenLinear(ebase: nat, nLc: nat)
    ensures IdxLen(ebase, nLc) <= 4 * nLc + 8
  {
  }

  /** An index stays below the read cap for every file below it. */
  lemma {:induction false} IdxLenBelowCap(ebase: nat, size: nat, lcsize: nat)
    requires size <= MAX_BOOT_FILE_BYTES && lcsize >= 512
    ensures IdxLen(ebase, CeilDiv(size, lcsize)) <= MAX_BOOT_FILE_BYTES
  {
    var n := CeilDiv(size, lcsize);
    IdxLenLinear(ebase, n);
    LclusterCount(size, lcsize);
  }

  // ----- resolving -----

  /** How many of the first `n` entries are heads of region `region`. */
  function HeadsInRegion(raw: seq<RawEntry>, n: nat, region: nat): (r: nat)
    requires n <= |raw|
    ensures r <= n
  {
    if n == 0 then 0
    else HeadsInRegion(raw, n - 1, region)
         + if raw[n - 1].ty != NONHEAD && raw[n - 1].region == region then 1 else 0
  }

  /** The pclusters opened by the first `n` entries. In big mode their blocks are still
      to be assigned, and a flagged NONHEAD sets the block count of the last one opened. */
  function OpenHeads(raw: seq<RawEntry>, lcsize: nat, big: bool, n: nat): Result<seq<Head>>
    requires n <= |raw|
  {
    if n == 0 then Ok([])
    else
      var hs :- OpenHeads(raw, lcsize, big, n - 1);
      OpenStep(raw, hs, lcsize, big, n - 1)
  }

  function OpenStep(raw: seq<RawEntry>, hs: seq<Head>, lcsize: nat, big: bool, i: nat): Result<seq<Head>>
    requires i < |raw|
  {
    OpenEntry(raw[i], HeadsInRegion(raw, i, raw[i].region), hs, lcsize, big, i)
  }

  /** Entry `e`, lcluster `i`, which `rank` heads of its region come before. */
  function OpenEntry(e: RawEntry, rank: nat, hs: seq<Head>, lcsize: nat, big: bool, i: nat): Result<seq<Head>>
  {
    if e.ty == NONHEAD then
      if big && e.value / CBLKCNT_FLAG % 2 == 1 && hs != [] then
        if e.value % CBLKCNT_FLAG == 0 then Err(Unsupported)
        else Ok(hs[|hs| - 1 := hs[|hs| - 1].(cblkcnt := e.value % CBLKCNT_FLAG)])
      else Ok(hs)
    else
      var start := if hs == [] then 0 else i * lcsize + e.value;
      if big then Ok(hs + [Head(start, e.ty, 0, 1)])
      else
        var b := e.base + 1 + rank;
        if b >= U32 then Err(Corrupt) else Ok(hs + [Head(start, e.ty, b, 1)])
  }

  /** A compact entry, 14 bits wide, opens a pcluster if and only if its two high bits are not 2;
      a continuation adds none, and in a big index bit 11 says that it counts blocks. */
  lemma {:induction false} CompactEntryOpens(code: nat, region: nat, base: nat, rank: nat, hs: seq<Head>, lcsize: nat, big: bool, i: nat)
    requires code < 0x4000
    ensures var r := OpenEntry(Entry(code, region, base), rank, hs, lcsize, big, i);
            code / 0x1000 != 2 <==> r == Err(Corrupt) || (r.Ok? && |r.value| == |hs| + 1)
    ensures var r := OpenEntry(Entry(code, region, base), rank, hs, lcsize, big, i);
            code / 0x1000 != 2 && r.Ok? ==>
              && r.value[..|hs|] == hs && r.value[|hs|].ty == code / 0x1000
              && r.value[|hs|].start == if hs == [] then 0 else i * lcsize + code % 0x1000
    ensures var r := OpenEntry(Entry(code, region, base), rank, hs, lcsize, big, i);
            && (r == Err(Corrupt) <==> code / 0x1000 != 2 && !big && base + 1 + rank >= 0x1_0000_0000)
            && (r == Err(Unsupported) <==> big && hs != [] && code == 0x2800)
    ensures var r := OpenEntry(Entry(code, region, base), rank, hs, lcsize, big, i);
            && (0x2000 <= code < (if big then 0x2800 else 0x3000) ==> r == Ok(hs))
            && (big && hs != [] && 0x2800 < code < 0x3000 ==> r == Ok(hs[|hs| - 1 := hs[|hs| - 1].(cblkcnt := code - 0x2800)]))
  {
  }

  /** The block after the spans of the first `n` pclusters, laid end to end from `first`. */
  function BlocksEnd(hs: seq<Head>, first: nat, n: nat): nat
    requires n <= |hs|
  {
    if n == 0 then first else BlocksEnd(hs, first, n - 1) + hs[n - 1].cblkcnt
  }

  /** Every pcluster at the end of the ones before it, within 32 bits. */
  function AssignBlocks(hs: seq<Head>, first: nat): (r: Result<seq<Head>>)
  {
    if exists k :: 0 < k < |hs| && BlocksEnd(hs, first, k) >= U32 then Err(Corrupt)
    else Ok(seq(|hs|, k requires 0 <= k < |hs| => hs[k].(blkaddr := BlocksEnd(hs, first, k))))
  }

  function ResolveHeads(raw: seq<RawEntry>, lcsize: nat, big: bool): Result<seq<Head>>
  {
    var hs :- OpenHeads(raw, lcsize, big, |raw|);
    if big then AssignBlocks(hs, if raw == [] then 0 else raw[0].base) else Ok(hs)
  }

  function CompactHeads(src: seq<byte>, ebase: nat, lcsize: nat, nLc: nat, big: bool): Result<seq<Head>>
  {
    var raw :- UnpackIndex(src, ebase, nLc);
    ResolveHeads(raw, lcsize, big)
  }

  lemma {:induction false} OpenErrorStays(raw: seq<RawEntry>, lcsize: nat, big: bool, i: nat, n: nat)
    requires i <= n <= |raw| && OpenHeads(raw, lcsize, big, i).Err?
    ensures OpenHeads(raw, lcsize, big, n) == OpenHeads(raw, lcsize, big, i)
    decreases n - i
  {
    if i < n { OpenErrorStays(raw, lcsize, big, i, n - 1); }
  }

  /** The first pass of `resolve_compact_heads`: open pclusters, count heads per region in
      a map, patch block counts. */
  method OpenPass(raw: seq<RawEntry>, lcsize: nat, big: bool) returns (r: Result<seq<Head>>)
    ensures r == OpenHeads(raw, lcsize, big, |raw|)
  {
    var heads: seq<Head> := [];
    var regionHeads: map<nat, nat> := map[];
    var curHead: Option<nat> := None;
    for i := 0 to |raw|
      invariant OpenHeads(raw, lcsize, big, i) == Ok(heads)
      invariant curHead == if heads == [] then None else Some(|heads| - 1)
      invariant !big ==> forall r :: HeadsInRegion(raw, i, r) == if r in regionHeads then regionHeads[r] else 0
    {
      var e := raw[i];
      ghost var step := OpenStep(raw, heads, lcsize, big, i);
      assert OpenHeads(raw, lcsize, big, i + 1) == step;
      if e.ty == NONHEAD {
        if big && e.value / CBLKCNT_FLAG % 2 == 1 {
          if curHead.Some? {
            var h := curHead.value;
            heads := heads[h := heads[h].(cblkcnt := e.value % CBLKCNT_FLAG)];
            if heads[h].cblkcnt == 0 {
              OpenErrorStays(raw, lcsize, big, i + 1, |raw|);
              return Err(Unsupported);
            }
          }
        }
        continue;
      }
      var start := if |heads| == 0 then 0 else i * lcsize + e.value;
      var blkaddr := 0;
      if !big {
        var c := if e.region in regionHeads then regionHeads[e.region] else 0;
        blkaddr := e.base + 1 + c;
        if blkaddr >= U32 {
          OpenErrorStays(raw, lcsize, big, i + 1, |raw|);
          return Err(Corrupt);
        }
        regionHeads := regionHeads[e.region := c + 1];
      }
      heads := heads + [Head(start, e.ty, blkaddr, 1)];
      curHead := Some(|heads| - 1);
    }
    r := Ok(heads);
  }

  /** The second pass of `resolve_compact_heads`: the running sum of block counts. */
  method AssignPass(unplaced: seq<Head>, firstBase: nat) returns (r: Result<seq<Head>>)
    ensures r == AssignBlocks(unplaced, firstBase)
  {
    var heads := unplaced;
    var blk := firstBase;
    for k := 0 to |heads|
      invariant |heads| == |unplaced|
      invariant forall j :: 0 <= j < |heads| ==>
                  heads[j] == if j < k then unplaced[j].(blkaddr := BlocksEnd(unplaced, firstBase, j)) else unplaced[j]
      invariant blk == BlocksEnd(unplaced, firstBase, if k == 0 then 0 else k - 1)
      invariant forall j :: 0 < j < k ==> BlocksEnd(unplaced, firstBase, j) < U32
    {
      if k > 0 {
        if blk + heads[k - 1].cblkcnt >= U32 {
          assert BlocksEnd(unplaced, firstBase, k) >= U32;
          return Err(Corrupt);
        }
        blk := blk + heads[k - 1].cblkcnt;
      }
      heads := heads[k := heads[k].(blkaddr := blk)];
    }
    assert heads == seq(|unplaced|, k requires 0 <= k < |unplaced| =>
                          unplaced[k].(blkaddr := BlocksEnd(unplaced, firstBase, k)));
    r := Ok(heads);
  }

  /** `resolve_compact_heads`. */
  method ResolveCompactHeads(raw: seq<RawEntry>, lcsize: nat, big: bool) returns (r: Result<seq<Head>>)
    ensures r == ResolveHeads(raw, lcsize, big)
  {
    var firstBase := if |raw| == 0 then 0 else raw[0].base;
    r := OpenPass(raw, lcsize, big);
    if r.Ok? && big {
      r := AssignPass(r.value, firstBase);
    }
  }

  /** The zone sizes, as `build_heads_compact` computes them. */
  method ComputeZones(ebase: nat, nLc: nat) returns (c4i: nat, c2b: nat, c4f: nat, idxLen: nat)
    ensures c4i == Zone4Initial(ebase, nLc) && c2b == Zone2(ebase, nLc) && c4f == Zone4Final(ebase, nLc)
    ensures idxLen == IdxLen(ebase, nLc)
  {
    var ebrem := ebase % 32;
    c4i := Min((32 - ebrem) / 4 % 8, nLc);
    c2b := (nLc - c4i) / 16 * 16;
    c4f := nLc - c4i - c2b;
    idxLen := CeilDiv(c4i, 2) * 8 + c2b / 16 * 32 + CeilDiv(c4f, 2) * 8;
  }

  /** The three unpacking calls of `build_heads_compact`. */
  method UnpackCalls(buf: seq<byte>, a: nat, b: nat, c: nat) returns (r: Result<seq<RawEntry>>)
    requires b % 16 == 0
    ensures r == Unpack3(buf, a, b, c)
  {
    var xs, pos, rid := Read4bGroups(buf, 0, a, 0, []);
    PrependTwice([], [], Groups4(buf, 0, a, 0));
    if xs.Err? { return xs; }
    WholePacks(b);
    var ys, pos2, rid2 := Read2bPacks(buf, pos, b, rid, xs.value);
    if ys.Err? { return ys; }
    r, pos, rid := Read4bGroups(buf, pos2, c, rid2, ys.value);
  }

  /** `build_heads_compact`. */
  method BuildHeadsCompact(src: seq<byte>, ebase: nat, lcsize: nat, nLc: nat, big: bool)
    returns (r: Result<seq<Head>>)
    ensures r == CompactHeads(src, ebase, lcsize, nLc, big)
  {
    var c4i, c2b, c4f, idxLen := ComputeZones(ebase, nLc);
    var cap := CheckedFullReadLen(idxLen);
    if cap.Err? { return Err(cap.error); }
    var buf := ReadSource(src, ebase, cap.value);
    if buf.Err? { return Err(buf.error); }
    var raw := UnpackCalls(buf.value, c4i, c2b, c4f);
    if raw.Err? { return Err(raw.error); }
    r := ResolveCompactHeads(raw.value, lcsize, big);
  }
}
