/** Writing the EROFS indexes, and the proof that the reader of `ErofsIndex` undoes it:
    the compact index unpacks to exactly what was packed, its non-big form resolves to the
    same pclusters as the full index, and its big form restores every block count and
    block address. */
module ErofsPacking {
  import opened Bytes
  import opened ErofsIndex

  // ----- bits -----

  /** The low `n` bits of `v`, least significant first. */
  function NatBits(v: nat, n: nat): (r: seq<nat>)
    ensures |r| == n && forall i :: 0 <= i < n ==> r[i] < 2
    decreases n, v
  {
    if n == 0 then [] else [v % 2] + NatBits(v / 2, n - 1)
  }

  function FromBits(bits: seq<nat>): nat
  {
    if bits == [] then 0 else bits[0] + 2 * FromBits(bits[1..])
  }

  lemma {:induction false} FromNatBits(v: nat, n: nat)
    requires v < Pow2(n)
    ensures FromBits(NatBits(v, n)) == v
  {
    if n > 0 { FromNatBits(v / 2, n - 1); }
  }

  lemma {:induction false} FromBitsBound(bits: seq<nat>)
    requires forall i :: 0 <= i < |bits| ==> bits[i] < 2
    ensures FromBits(bits) < Pow2(|bits|)
  {
    if bits != [] { FromBitsBound(bits[1..]); }
  }

  lemma {:induction false} BitOfFromBits(bits: seq<nat>, j: nat)
    requires j < |bits| && forall i :: 0 <= i < |bits| ==> bits[i] < 2
    ensures NatBit(FromBits(bits), j) == bits[j]
  {
    if j > 0 { BitOfFromBits(bits[1..], j - 1); }
  }

  /** Bits into bytes, eight at a time. */
  function BytesOf(bits: seq<nat>): (r: seq<byte>)
    requires |bits| % 8 == 0 && forall i :: 0 <= i < |bits| ==> bits[i] < 2
    ensures 8 * |r| == |bits|
  {
    if bits == [] then []
    else
      FromBitsBound(bits[..8]);
      assert Pow2(8) == 256;
      [FromBits(bits[..8])] + BytesOf(bits[8..])
  }

  lemma {:induction false} BitOfBytes(bits: seq<nat>, p: nat)
    requires |bits| % 8 == 0 && forall i :: 0 <= i < |bits| ==> bits[i] < 2
    requires p < |bits|
    ensures BitAt(BytesOf(bits), p) == bits[p]
  {
    if p < 8 {
      BitOfFromBits(bits[..8], p);
    } else {
      BitOfBytes(bits[8..], p - 8);
      assert BytesOf(bits)[p / 8] == BytesOf(bits[8..])[(p - 8) / 8];
    }
  }

  lemma {:induction false} ReadsFromBits(buf: seq<byte>, p: nat, n: nat, bits: seq<nat>)
    requires p + n <= 8 * |buf| && |bits| == n
    requires forall k :: 0 <= k < n ==> BitAt(buf, p + k) == bits[k]
    ensures BitsLsb(buf, p, n) == FromBits(bits)
    decreases n
  {
    if n > 0 {
      forall k | 0 <= k < n - 1
        ensures BitAt(buf, p + 1 + k) == bits[1..][k]
      {
        assert BitAt(buf, p + (k + 1)) == bits[k + 1];
      }
      ReadsFromBits(buf, p + 1, n - 1, bits[1..]);
      assert BitAt(buf, p + 0) == bits[0];
    }
  }

  function CodeBits(codes: seq<nat>): (r: seq<nat>)
    ensures |r| == ENCBITS * |codes| && forall i :: 0 <= i < |r| ==> r[i] < 2
  {
    if codes == [] then [] else NatBits(codes[0], ENCBITS) + CodeBits(codes[1..])
  }

  lemma {:induction false} CodeBitsAt(codes: seq<nat>, s: nat)
    requires s < |codes|
    ensures CodeBits(codes)[s * ENCBITS..s * ENCBITS + ENCBITS] == NatBits(codes[s], ENCBITS)
  {
    if s > 0 {
      CodeBitsAt(codes[1..], s - 1);
      var head, tail := NatBits(codes[0], ENCBITS), CodeBits(codes[1..]);
      assert (head + tail)[s * ENCBITS..s * ENCBITS + ENCBITS]
          == tail[(s - 1) * ENCBITS..(s - 1) * ENCBITS + ENCBITS];
    }
  }

  /** Sixteen 14-bit codes as 28 bytes. */
  function PutBits(codes: seq<nat>): (r: seq<byte>)
    requires |codes| == 16
    ensures |r| == 28
  {
    BytesOf(CodeBits(codes))
  }

  /** `read_bits_lsb` undoes the packing, whatever follows the codes in the pack. */
  lemma {:induction false} ReadUndoesPutBits(codes: seq<nat>, suffix: seq<byte>, s: nat)
    requires |codes| == 16 && s < 16 && codes[s] < ENC
    ensures BitsLsb(PutBits(codes) + suffix, s * ENCBITS, ENCBITS) == codes[s]
  {
    var bits := CodeBits(codes);
    var buf := PutBits(codes) + suffix;
    var want := NatBits(codes[s], ENCBITS);
    CodeBitsAt(codes, s);
    forall k | 0 <= k < ENCBITS
      ensures BitAt(buf, s * ENCBITS + k) == want[k]
    {
      var p := s * ENCBITS + k;
      BitOfBytes(bits, p);
      assert buf[p / 8] == PutBits(codes)[p / 8];
      assert bits[p] == bits[s * ENCBITS..s * ENCBITS + ENCBITS][k];
    }
    ReadsFromBits(buf, s * ENCBITS, ENCBITS, want);
    CodeFits(codes[s]);
    FromNatBits(codes[s], ENCBITS);
  }

  lemma {:induction false} CodeFits(code: nat)
    requires code < ENC
    ensures code < Pow2(ENCBITS)
  {
    assert Pow2(14) == 0x4000;
  }

  // ----- packing regions -----

  type code14 = c: nat | c < 0x4000
  type u32 = v: nat | v < 0x1_0000_0000

  function PutGroup(even: code14, odd: code14, base: u32): (r: seq<byte>)
    ensures |r| == 8 && Le16(r, 0) == even && Le16(r, 2) == odd && Le32(r, 4) == base
  {
    var b := Put32(base);
    var r := Put16(even) + Put16(odd) + b;
    assert r[4..8] == b;
    LeSlice(r, 4, 8, 0);
    r
  }

  /** A stretch `codes[lo..hi]` makes up regions `rlo..rhi` of `size` codes each, the last one
      padded. */
  ghost predicate Covers(codes: seq<code14>, bases: seq<u32>, size: nat, lo: nat, hi: nat, rlo: nat, rhi: nat)
  {
    && lo <= hi <= |codes| && rlo <= rhi <= |bases|
    && hi - lo <= size * (rhi - rlo) < hi - lo + size
  }

  /** Write codes `lo..hi` as 8-byte groups of two codes (the last one padded) and a base. */
  function PutGroups4(codes: seq<code14>, bases: seq<u32>, lo: nat, hi: nat, rlo: nat, rhi: nat): (r: seq<byte>)
    requires Covers(codes, bases, 2, lo, hi, rlo, rhi)
    ensures |r| == 8 * (rhi - rlo)
    decreases hi - lo
  {
    if lo == hi then []
    else
      PutGroup(codes[lo], if lo + 1 < hi then codes[lo + 1] else 0, bases[rlo])
      + PutGroups4(codes, bases, Min(lo + 2, hi), hi, rlo + 1, rhi)
  }

  function PutPack(codes: seq<code14>, base: u32): (r: seq<byte>)
    requires |codes| == 16
    ensures |r| == 32 && Le32(r, 28) == base
  {
    var b := Put32(base);
    var r := PutBits(codes) + b;
    assert r[28..32] == b;
    LeSlice(r, 28, 32, 0);
    r
  }

  /** Write codes `lo..hi` as 32-byte packs of sixteen codes and a base. */
  function PutPacks2(codes: seq<code14>, bases: seq<u32>, lo: nat, hi: nat, rlo: nat, rhi: nat): (r: seq<byte>)
    requires Covers(codes, bases, 16, lo, hi, rlo, rhi) && hi - lo == 16 * (rhi - rlo)
    ensures |r| == 32 * (rhi - rlo)
    decreases hi - lo
  {
    if lo == hi then []
    else PutPack(codes[lo..lo + 16], bases[rlo]) + PutPacks2(codes, bases, lo + 16, hi, rlo + 1, rhi)
  }

  /** What unpacking should give for codes `lo..hi`, which start region `rlo`. */
  function Run(codes: seq<code14>, bases: seq<u32>, size: nat, lo: nat, hi: nat, rlo: nat, rhi: nat): (r: seq<RawEntry>)
    requires size > 0 && Covers(codes, bases, size, lo, hi, rlo, rhi)
    ensures |r| == hi - lo
  {
    seq(hi - lo, i requires 0 <= i < hi - lo =>
      (ChunkIndex(i, hi - lo, size, rhi - rlo);
       Entry(codes[lo + i], rlo + i / size, bases[rlo + i / size])))
  }

  lemma {:induction false} ChunkIndex(i: nat, n: nat, size: nat, m: nat)
    requires size > 0 && i < n <= size * m
    ensures 0 <= i / size < m
  {
    DivBounds(i, size);
    if i / size >= m { MulMonotone(size, m, i / size); }
  }

  lemma {:induction false} ChunkIndexNext(i: nat, size: nat)
    requires size > 0
    ensures i < size ==> i / size == 0
    ensures i >= size ==> i / size == (i - size) / size + 1
  {
    if i < size {
      DivUnique(i, size, 0);
    } else {
      DivBounds(i - size, size);
      NextMultiple((i - size) / size, size);
      DivUnique(i, size, (i - size) / size + 1);
    }
  }

  /** The entries of the codes from `lo` on, all of one region. */
  ghost predicate OneRegion(xs: seq<RawEntry>, codes: seq<code14>, lo: nat, rid: nat, base: nat)
  {
    lo + |xs| <= |codes| && forall i :: 0 <= i < |xs| ==> xs[i] == Entry(codes[lo + i], rid, base)
  }

  /** A run is its first region, and the run behind it. */
  lemma {:induction false} RunSteps(codes: seq<code14>, bases: seq<u32>, size: nat, lo: nat, hi: nat, rlo: nat, rhi: nat, first: seq<RawEntry>)
    requires size > 0 && lo < hi && Covers(codes, bases, size, lo, hi, rlo, rhi) && rlo < rhi
    requires Covers(codes, bases, size, Min(lo + size, hi), hi, rlo + 1, rhi)
    requires |first| == Min(size, hi - lo) && OneRegion(first, codes, lo, rlo, bases[rlo])
    ensures Run(codes, bases, size, lo, hi, rlo, rhi) == first + Run(codes, bases, size, Min(lo + size, hi), hi, rlo + 1, rhi)
  {
    var next := Run(codes, bases, size, Min(lo + size, hi), hi, rlo + 1, rhi);
    forall i | 0 <= i < hi - lo
      ensures Run(codes, bases, size, lo, hi, rlo, rhi)[i] == (first + next)[i]
    {
      ChunkIndexNext(i, size);
    }
  }

  lemma {:induction false} UnpackGroup(buf: seq<byte>, pos: nat, even: code14, odd: code14, base: u32, count: nat, left: nat, rid: nat,
                                       first: seq<RawEntry>, rest: seq<RawEntry>)
    requires Lies(buf, pos, PutGroup(even, odd, base)) && count > 0 && left == Max(0, count - 2)
    requires Groups4(buf, pos + 8, left, rid + 1) == Ok(rest)
    requires first == if count == 1 then [Entry(even, rid, base)] else [Entry(even, rid, base), Entry(odd, rid, base)]
    ensures Groups4(buf, pos, count, rid) == Ok(first + rest)
  {
    LeSlice(buf, pos, pos + 8, 0);
    LeSlice(buf, pos, pos + 8, 2);
    LeSlice(buf, pos, pos + 8, 4);
    if count == 1 { assert first + [] == first; }
  }

  lemma {:induction false} GroupsLie(buf: seq<byte>, pos: nat, codes: seq<code14>, bases: seq<u32>, lo: nat, hi: nat, rlo: nat, rhi: nat,
                                     next: nat, even: code14, odd: code14)
    requires Covers(codes, bases, 2, lo, hi, rlo, rhi) && lo < hi && Lies(buf, pos, PutGroups4(codes, bases, lo, hi, rlo, rhi))
    requires next == Min(lo + 2, hi) && even == codes[lo] && odd == if lo + 1 < hi then codes[lo + 1] else 0
    ensures rlo < rhi && Covers(codes, bases, 2, next, hi, rlo + 1, rhi)
    ensures Lies(buf, pos, PutGroup(even, odd, bases[rlo])) && Lies(buf, pos + 8, PutGroups4(codes, bases, next, hi, rlo + 1, rhi))
  {
    LiesParts(buf, pos, PutGroup(even, odd, bases[rlo]), PutGroups4(codes, bases, next, hi, rlo + 1, rhi));
  }

  function GroupEntries(codes: seq<code14>, lo: nat, hi: nat, rid: nat, base: nat): (r: seq<RawEntry>)
    requires lo < hi <= |codes|
    ensures |r| == Min(2, hi - lo) && OneRegion(r, codes, lo, rid, base)
  {
    if hi - lo == 1 then [Entry(codes[lo], rid, base)] else [Entry(codes[lo], rid, base), Entry(codes[lo + 1], rid, base)]
  }

  lemma {:induction false} GroupThenRun(buf: seq<byte>, pos: nat, codes: seq<code14>, bases: seq<u32>, lo: nat, hi: nat, rlo: nat, rhi: nat,
                                        next: nat, even: code14, odd: code14)
    requires Covers(codes, bases, 2, lo, hi, rlo, rhi) && lo < hi && rlo < rhi && Covers(codes, bases, 2, next, hi, rlo + 1, rhi)
    requires next == Min(lo + 2, hi) && even == codes[lo] && odd == if lo + 1 < hi then codes[lo + 1] else 0
    requires Lies(buf, pos, PutGroup(even, odd, bases[rlo])) && Groups4(buf, pos + 8, hi - next, rlo + 1) == Ok(Run(codes, bases, 2, next, hi, rlo + 1, rhi))
    ensures Groups4(buf, pos, hi - lo, rlo) == Ok(Run(codes, bases, 2, lo, hi, rlo, rhi))
  {
    var first := GroupEntries(codes, lo, hi, rlo, bases[rlo]);
    UnpackGroup(buf, pos, even, odd, bases[rlo], hi - lo, hi - next, rlo, first, Run(codes, bases, 2, next, hi, rlo + 1, rhi));
    RunSteps(codes, bases, 2, lo, hi, rlo, rhi, first);
  }

  lemma {:induction false} UnpackGroups(buf: seq<byte>, pos: nat, codes: seq<code14>, bases: seq<u32>, lo: nat, hi: nat, rlo: nat, rhi: nat)
    requires Covers(codes, bases, 2, lo, hi, rlo, rhi) && Lies(buf, pos, PutGroups4(codes, bases, lo, hi, rlo, rhi))
    ensures Groups4(buf, pos, hi - lo, rlo) == Ok(Run(codes, bases, 2, lo, hi, rlo, rhi))
    decreases hi - lo
  {
    if lo < hi {
      var next, even, odd := Min(lo + 2, hi), codes[lo], if lo + 1 < hi then codes[lo + 1] else 0;
      GroupsLie(buf, pos, codes, bases, lo, hi, rlo, rhi, next, even, odd);
      UnpackGroups(buf, pos + 8, codes, bases, next, hi, rlo + 1, rhi);
      GroupThenRun(buf, pos, codes, bases, lo, hi, rlo, rhi, next, even, odd);
    }
  }

  lemma {:induction false} UnpackPack(buf: seq<byte>, pos: nat, codes: seq<code14>, lo: nat, base: u32, count: nat, left: nat, rid: nat, rest: seq<RawEntry>)
    returns (first: seq<RawEntry>)
    requires lo + 16 <= |codes| && count == 16 + left && Lies(buf, pos, PutPack(codes[lo..lo + 16], base)) && Packs2(buf, pos + 32, left, rid + 1) == Ok(rest)
    ensures Packs2(buf, pos, count, rid) == Ok(first + rest)
    ensures |first| == 16 && OneRegion(first, codes, lo, rid, base)
  {
    first := PackEntries(buf[pos..pos + 32], 16, rid);
    forall i | 0 <= i < 16
      ensures first[i] == Entry(codes[lo + i], rid, base)
    {
      ReadUndoesPutBits(codes[lo..lo + 16], Put32(base), i);
    }
  }

  lemma {:induction false} UnpackPacks(buf: seq<byte>, pos: nat, codes: seq<code14>, bases: seq<u32>, lo: nat, hi: nat, rlo: nat, rhi: nat)
    requires Covers(codes, bases, 16, lo, hi, rlo, rhi) && hi - lo == 16 * (rhi - rlo)
    requires Lies(buf, pos, PutPacks2(codes, bases, lo, hi, rlo, rhi))
    ensures Packs2(buf, pos, hi - lo, rlo) == Ok(Run(codes, bases, 16, lo, hi, rlo, rhi))
    decreases hi - lo
  {
    if lo < hi {
      LiesParts(buf, pos, PutPack(codes[lo..lo + 16], bases[rlo]), PutPacks2(codes, bases, lo + 16, hi, rlo + 1, rhi));
      UnpackPacks(buf, pos + 32, codes, bases, lo + 16, hi, rlo + 1, rhi);
      var first := UnpackPack(buf, pos, codes, lo, bases[rlo], hi - lo, hi - (lo + 16), rlo, Run(codes, bases, 16, lo + 16, hi, rlo + 1, rhi));
      RunSteps(codes, bases, 16, lo, hi, rlo, rhi, first);
    }
  }

  /** The region of entry `i` when `a` entries come in `ra` groups of 2, then come `rb`
      packs of 16, then the rest in groups of 2. */
  function RegionIn(a: nat, ra: nat, rb: nat, i: nat): nat
  {
    if i < a then i / 2
    else if i < a + 16 * rb then ra + (i - a) / 16
    else ra + rb + (i - a - 16 * rb) / 2
  }

  lemma {:induction false} RegionInBound(a: nat, ra: nat, rb: nat, n: nat, m: nat, i: nat)
    requires a <= 2 * ra && a + 16 * rb <= n && n - a - 16 * rb <= 2 * (m - ra - rb) && i < n
    ensures RegionIn(a, ra, rb, i) < m
  {
  }

  /** `codes` cut into `a` codes for `ra` groups, `16 * rb` for packs, the rest for groups. */
  ghost predicate Cut(n: nat, m: nat, a: nat, ra: nat, rb: nat)
  {
    && a <= 2 * ra <= a + 1 && a + 16 * rb <= n
    && n - a - 16 * rb <= 2 * (m - ra - rb) <= n - a - 16 * rb + 1
  }

  function PutThree(codes: seq<code14>, bases: seq<u32>, a: nat, ra: nat, rb: nat): (r: seq<byte>)
    requires Cut(|codes|, |bases|, a, ra, rb)
    ensures |r| == 8 * ra + 32 * rb + 8 * (|bases| - ra - rb)
  {
    var p, q := a + 16 * rb, ra + rb;
    PutGroups4(codes, bases, 0, a, 0, ra) + PutPacks2(codes, bases, a, p, ra, q) + PutGroups4(codes, bases, p, |codes|, q, |bases|)
  }

  function RawThree(codes: seq<code14>, bases: seq<u32>, a: nat, ra: nat, rb: nat): (r: seq<RawEntry>)
    requires Cut(|codes|, |bases|, a, ra, rb)
    ensures |r| == |codes|
  {
    seq(|codes|, i requires 0 <= i < |codes| =>
      (RegionInBound(a, ra, rb, |codes|, |bases|, i);
       Entry(codes[i], RegionIn(a, ra, rb, i), bases[RegionIn(a, ra, rb, i)])))
  }

  lemma {:induction false} IndexThree<T>(x: seq<T>, y: seq<T>, z: seq<T>, i: nat)
    requires i < |x| + |y| + |z|
    ensures i < |x| ==> (x + y + z)[i] == x[i]
    ensures |x| <= i < |x| + |y| ==> (x + y + z)[i] == y[i - |x|]
    ensures |x| + |y| <= i ==> (x + y + z)[i] == z[i - |x| - |y|]
  {
  }

  lemma {:induction false} RunAt(codes: seq<code14>, bases: seq<u32>, size: nat, lo: nat, hi: nat, rlo: nat, rhi: nat, i: nat, j: nat, r: nat)
    requires size > 0 && Covers(codes, bases, size, lo, hi, rlo, rhi)
    requires lo <= i < hi && j == i - lo && r == rlo + j / size < |bases|
    ensures Run(codes, bases, size, lo, hi, rlo, rhi)[j] == Entry(codes[i], r, bases[r])
  {
  }

  /** The runs of the three parts, laid end to end. */
  lemma {:induction false} RunsAt(codes: seq<code14>, bases: seq<u32>, a: nat, ra: nat, rb: nat, p: nat, q: nat, i: nat, r: nat)
    requires Cut(|codes|, |bases|, a, ra, rb) && p == a + 16 * rb && q == ra + rb && i < |codes|
    requires r == RegionIn(a, ra, rb, i) < |bases|
    ensures (Run(codes, bases, 2, 0, a, 0, ra) + Run(codes, bases, 16, a, p, ra, q) + Run(codes, bases, 2, p, |codes|, q, |bases|))[i]
            == Entry(codes[i], r, bases[r])
  {
    IndexThree(Run(codes, bases, 2, 0, a, 0, ra), Run(codes, bases, 16, a, p, ra, q), Run(codes, bases, 2, p, |codes|, q, |bases|), i);
    if i < a {
      RunAt(codes, bases, 2, 0, a, 0, ra, i, i, r);
    } else if i < p {
      RunAt(codes, bases, 16, a, p, ra, q, i, i - a, r);
    } else {
      RunAt(codes, bases, 2, p, |codes|, q, |bases|, i, i - p, r);
    }
  }

  lemma {:induction false} RunsAreThree(codes: seq<code14>, bases: seq<u32>, a: nat, ra: nat, rb: nat, p: nat, q: nat)
    requires Cut(|codes|, |bases|, a, ra, rb) && p == a + 16 * rb && q == ra + rb
    ensures Run(codes, bases, 2, 0, a, 0, ra) + Run(codes, bases, 16, a, p, ra, q) + Run(codes, bases, 2, p, |codes|, q, |bases|)
            == RawThree(codes, bases, a, ra, rb)
  {
    var x, y, z := Run(codes, bases, 2, 0, a, 0, ra), Run(codes, bases, 16, a, p, ra, q), Run(codes, bases, 2, p, |codes|, q, |bases|);
    forall i | 0 <= i < |codes|
      ensures (x + y + z)[i] == RawThree(codes, bases, a, ra, rb)[i]
    {
      RegionInBound(a, ra, rb, |codes|, |bases|, i);
      RunsAt(codes, bases, a, ra, rb, p, q, i, RegionIn(a, ra, rb, i));
    }
  }

  lemma {:induction false} LieInTurn(x: seq<byte>, y: seq<byte>, z: seq<byte>)
    ensures var buf := x + y + z; Lies(buf, 0, x) && Lies(buf, |x|, y) && Lies(buf, |x| + |y|, z)
  {
  }

  lemma {:induction false} CombineRuns(buf: seq<byte>, a: nat, b: nat, c: nat, ra: nat, rb: nat,
                    xs: seq<RawEntry>, ys: seq<RawEntry>, zs: seq<RawEntry>)
    requires a <= 2 * ra <= a + 1 && b == 16 * rb
    requires Groups4(buf, 0, a, 0) == Ok(xs)
    requires Packs2(buf, 8 * ra, b, ra) == Ok(ys)
    requires Groups4(buf, 8 * ra + 32 * rb, c, ra + rb) == Ok(zs)
    ensures Unpack3(buf, a, b, c) == Ok(xs + ys + zs)
  {
    assert CeilDiv(a, 2) == ra && b / 16 == rb;
  }

  /** Each part of a packed index is unpacked. */
  lemma {:induction false} FirstPart(codes: seq<code14>, bases: seq<u32>, a: nat, ra: nat, rb: nat, y: seq<byte>, z: seq<byte>)
    requires Covers(codes, bases, 2, 0, a, 0, ra)
    ensures Groups4(PutGroups4(codes, bases, 0, a, 0, ra) + y + z, 0, a, 0) == Ok(Run(codes, bases, 2, 0, a, 0, ra))
  {
    var x := PutGroups4(codes, bases, 0, a, 0, ra);
    LieInTurn(x, y, z);
    UnpackGroups(x + y + z, 0, codes, bases, 0, a, 0, ra);
  }

  lemma {:induction false} SecondPart(codes: seq<code14>, bases: seq<u32>, x: seq<byte>, lo: nat, hi: nat, rlo: nat, rhi: nat, z: seq<byte>, pos: nat, count: nat)
    requires Covers(codes, bases, 16, lo, hi, rlo, rhi) && hi - lo == 16 * (rhi - rlo) == count && pos == |x|
    ensures Packs2(x + PutPacks2(codes, bases, lo, hi, rlo, rhi) + z, pos, count, rlo) == Ok(Run(codes, bases, 16, lo, hi, rlo, rhi))
  {
    var y := PutPacks2(codes, bases, lo, hi, rlo, rhi);
    LieInTurn(x, y, z);
    UnpackPacks(x + y + z, pos, codes, bases, lo, hi, rlo, rhi);
  }

  lemma {:induction false} ThirdPart(codes: seq<code14>, bases: seq<u32>, x: seq<byte>, y: seq<byte>, lo: nat, hi: nat, rlo: nat, rhi: nat, pos: nat, count: nat)
    requires Covers(codes, bases, 2, lo, hi, rlo, rhi) && pos == |x| + |y| && count == hi - lo
    ensures Groups4(x + y + PutGroups4(codes, bases, lo, hi, rlo, rhi), pos, count, rlo) == Ok(Run(codes, bases, 2, lo, hi, rlo, rhi))
  {
    var z := PutGroups4(codes, bases, lo, hi, rlo, rhi);
    LieInTurn(x, y, z);
    UnpackGroups(x + y + z, pos, codes, bases, lo, hi, rlo, rhi);
  }

  lemma {:induction false} PartsAreThree(buf: seq<byte>, codes: seq<code14>, bases: seq<u32>, a: nat, ra: nat, rb: nat, p: nat, q: nat, b: nat, c: nat)
    requires Cut(|codes|, |bases|, a, ra, rb) && p == a + 16 * rb && q == ra + rb && b == 16 * rb && c == |codes| - p
    requires Groups4(buf, 0, a, 0) == Ok(Run(codes, bases, 2, 0, a, 0, ra))
    requires Packs2(buf, 8 * ra, b, ra) == Ok(Run(codes, bases, 16, a, p, ra, q))
    requires Groups4(buf, 8 * ra + 32 * rb, c, q) == Ok(Run(codes, bases, 2, p, |codes|, q, |bases|))
    ensures Unpack3(buf, a, b, c) == Ok(RawThree(codes, bases, a, ra, rb))
  {
    CombineRuns(buf, a, b, c, ra, rb,
                Run(codes, bases, 2, 0, a, 0, ra), Run(codes, bases, 16, a, p, ra, q), Run(codes, bases, 2, p, |codes|, q, |bases|));
    RunsAreThree(codes, bases, a, ra, rb, p, q);
  }

  lemma {:induction false} ThreeParts(codes: seq<code14>, bases: seq<u32>, a: nat, ra: nat, rb: nat, p: nat, q: nat)
    requires Cut(|codes|, |bases|, a, ra, rb) && p == a + 16 * rb && q == ra + rb
    ensures PutThree(codes, bases, a, ra, rb)
            == PutGroups4(codes, bases, 0, a, 0, ra) + PutPacks2(codes, bases, a, p, ra, q) + PutGroups4(codes, bases, p, |codes|, q, |bases|)
  {
  }

  lemma {:induction false} UnpackThree(codes: seq<code14>, bases: seq<u32>, a: nat, ra: nat, rb: nat, p: nat, q: nat, b: nat, c: nat)
    requires Cut(|codes|, |bases|, a, ra, rb) && p == a + 16 * rb && q == ra + rb && b == 16 * rb && c == |codes| - p
    ensures Unpack3(PutThree(codes, bases, a, ra, rb), a, b, c) == Ok(RawThree(codes, bases, a, ra, rb))
  {
    var x, y := PutGroups4(codes, bases, 0, a, 0, ra), PutPacks2(codes, bases, a, p, ra, q);
    var z := PutGroups4(codes, bases, p, |codes|, q, |bases|);
    ThreeParts(codes, bases, a, ra, rb, p, q);
    FirstPart(codes, bases, a, ra, rb, y, z);
    SecondPart(codes, bases, x, a, p, ra, q, z, 8 * ra, b);
    ThirdPart(codes, bases, x, y, p, |codes|, q, |bases|, 8 * ra + 32 * rb, c);
    PartsAreThree(x + y + z, codes, bases, a, ra, rb, p, q, b, c);
  }

  // ----- packing an index -----

  function Groups1(ebase: nat, nLc: nat): nat { CeilDiv(Zone4Initial(ebase, nLc), 2) }

  function Packs(ebase: nat, nLc: nat): (r: nat)
    ensures 16 * r == Zone2(ebase, nLc)
  {
    Zone2(ebase, nLc) / 16
  }

  function Regions(ebase: nat, nLc: nat): (r: nat)
    ensures Cut(nLc, r, Zone4Initial(ebase, nLc), Groups1(ebase, nLc), Packs(ebase, nLc))
  {
    Groups1(ebase, nLc) + Packs(ebase, nLc) + CeilDiv(Zone4Final(ebase, nLc), 2)
  }

  /** The amortisation region of lcluster `i` in an index of `nLc` at `ebase`. */
  function RegionOf(ebase: nat, nLc: nat, i: nat): (r: nat)
    requires i < nLc
    ensures r < Regions(ebase, nLc)
  {
    RegionInBound(Zone4Initial(ebase, nLc), Groups1(ebase, nLc), Packs(ebase, nLc), nLc, Regions(ebase, nLc), i);
    RegionIn(Zone4Initial(ebase, nLc), Groups1(ebase, nLc), Packs(ebase, nLc), i)
  }

  /** A compact index holding `codes`, with `bases[r]` as the base of region `r`. */
  function PutCompactIndex(codes: seq<code14>, bases: seq<u32>, ebase: nat): (r: seq<byte>)
    requires |bases| == Regions(ebase, |codes|)
    ensures |r| == IdxLen(ebase, |codes|)
  {
    PutThree(codes, bases, Zone4Initial(ebase, |codes|), Groups1(ebase, |codes|), Packs(ebase, |codes|))
  }

  /** What an index packed with `codes` and `bases` unpacks to. */
  function RawIndex(codes: seq<code14>, bases: seq<u32>, ebase: nat): (r: seq<RawEntry>)
    requires |bases| == Regions(ebase, |codes|)
    ensures |r| == |codes|
  {
    var n := |codes|;
    seq(n, i requires 0 <= i < n => Entry(codes[i], RegionOf(ebase, n, i), bases[RegionOf(ebase, n, i)]))
  }

  /** The unpacker undoes the packer: every code, in its region, with its region's base. */
  lemma {:induction false} UnpackUndoesPack(codes: seq<code14>, bases: seq<u32>, ebase: nat)
    requires |bases| == Regions(ebase, |codes|)
    ensures UnpackZones(PutCompactIndex(codes, bases, ebase), ebase, |codes|) == Ok(RawIndex(codes, bases, ebase))
  {
    var a, ra, rb := Zone4Initial(ebase, |codes|), Groups1(ebase, |codes|), Packs(ebase, |codes|);
    UnpackThree(codes, bases, a, ra, rb, a + 16 * rb, ra + rb, Zone2(ebase, |codes|), Zone4Final(ebase, |codes|));
    assert RawThree(codes, bases, a, ra, rb) == RawIndex(codes, bases, ebase);
  }

  // ----- the same index, laid out from the first byte on -----

  function BaseAt(bases: seq<u32>, r: nat): u32
  {
    if r < |bases| then bases[r] else 0
  }

  /** Codes from `k` on, two to a group of 8 bytes. */
  function LayGroups(codes: seq<code14>, bases: seq<u32>, k: nat, r: nat): seq<byte>
    decreases |codes| - k
  {
    if k >= |codes| then []
    else PutGroup(codes[k], if k + 1 < |codes| then codes[k + 1] else 0, BaseAt(bases, r)) + LayGroups(codes, bases, k + 2, r + 1)
  }

  /** Sixteen to a pack of 32 bytes as long as there are sixteen. */
  function LayPacks(codes: seq<code14>, bases: seq<u32>, k: nat, r: nat): seq<byte>
    decreases |codes| - k
  {
    if k + 16 > |codes| then LayGroups(codes, bases, k, r)
    else PutPack(codes[k..k + 16], BaseAt(bases, r)) + LayPacks(codes, bases, k + 16, r + 1)
  }

  /** An index at address `at`: groups up to a multiple of 32, then packs, then groups. */
  function LayIndex(codes: seq<code14>, bases: seq<u32>, at: nat, k: nat, r: nat): seq<byte>
    decreases |codes| - k
  {
    if k >= |codes| || at % 32 == 0 then LayPacks(codes, bases, k, r)
    else
      PutGroup(codes[k], if k + 1 < |codes| then codes[k + 1] else 0, BaseAt(bases, r)) + LayIndex(codes, bases, at + 8, k + 2, r + 1)
  }

  lemma {:induction false} GroupsAreLaid(codes: seq<code14>, bases: seq<u32>, lo: nat, r: nat)
    requires Covers(codes, bases, 2, lo, |codes|, r, |bases|)
    ensures PutGroups4(codes, bases, lo, |codes|, r, |bases|) == LayGroups(codes, bases, lo, r)
    decreases |codes| - lo
  {
    if lo < |codes| {
      if lo + 2 <= |codes| {
        GroupsAreLaid(codes, bases, lo + 2, r + 1);
      } else {
        assert PutGroups4(codes, bases, |codes|, |codes|, r + 1, |bases|) == [] == LayGroups(codes, bases, lo + 2, r + 1);
      }
    }
  }

  lemma {:induction false} PacksAreLaid(codes: seq<code14>, bases: seq<u32>, lo: nat, hi: nat, rlo: nat, rhi: nat)
    requires Covers(codes, bases, 16, lo, hi, rlo, rhi) && hi - lo == 16 * (rhi - rlo)
    requires |codes| < hi + 16 && Covers(codes, bases, 2, hi, |codes|, rhi, |bases|)
    ensures PutPacks2(codes, bases, lo, hi, rlo, rhi) + PutGroups4(codes, bases, hi, |codes|, rhi, |bases|) == LayPacks(codes, bases, lo, rlo)
    decreases hi - lo
  {
    if lo == hi {
      GroupsAreLaid(codes, bases, lo, rlo);
      assert [] + LayGroups(codes, bases, lo, rlo) == LayGroups(codes, bases, lo, rlo);
    } else {
      PacksAreLaid(codes, bases, lo + 16, hi, rlo + 1, rhi);
      Associate(PutPack(codes[lo..lo + 16], bases[rlo]), PutPacks2(codes, bases, lo + 16, hi, rlo + 1, rhi),
                PutGroups4(codes, bases, hi, |codes|, rhi, |bases|));
    }
  }

  /** Of the `left` codes laid from `at` on, `count` come before an aligned address. */
  ghost predicate UpToAligned(at: nat, left: nat, count: nat)
    decreases left
  {
    if left == 0 || at % 32 == 0 then count == 0
    else if left == 1 then count == 1
    else count >= 2 && UpToAligned(at + 8, left - 2, count - 2)
  }

  lemma {:induction false} InitialIsAligned(at: nat, left: nat)
    requires at % 8 == 0
    ensures UpToAligned(at, left, Zone4Initial(at, left))
    decreases left
  {
    RemainderOfEight(at);
    if left >= 2 && at % 32 != 0 { InitialIsAligned(at + 8, left - 2); }
  }

  lemma {:induction false} LaidNone(codes: seq<code14>, bases: seq<u32>, at: nat, k: nat, r: nat)
    requires k >= |codes| || at % 32 == 0
    ensures LayIndex(codes, bases, at, k, r) == LayPacks(codes, bases, k, r)
    ensures k >= |codes| ==> LayPacks(codes, bases, k, r) == []
  {
  }

  lemma {:induction false} LaidGroup(codes: seq<code14>, bases: seq<u32>, at: nat, k: nat, r: nat, hi: nat, next: nat, rhi: nat, rest: seq<byte>)
    requires Covers(codes, bases, 2, k, hi, r, rhi) && k < hi && at % 32 != 0 && next == Min(k + 2, hi)
    requires (k + 1 == hi ==> hi == |codes|) && Covers(codes, bases, 2, next, hi, r + 1, rhi)
    requires PutGroups4(codes, bases, next, hi, r + 1, rhi) + rest == LayIndex(codes, bases, at + 8, k + 2, r + 1)
    ensures PutGroups4(codes, bases, k, hi, r, rhi) + rest == LayIndex(codes, bases, at, k, r)
  {
    var group := PutGroup(codes[k], if k + 1 < hi then codes[k + 1] else 0, bases[r]);
    Associate(group, PutGroups4(codes, bases, next, hi, r + 1, rhi), rest);
  }

  lemma {:induction false} InitialIsLaid(codes: seq<code14>, bases: seq<u32>, at: nat, k: nat, r: nat, hi: nat, rhi: nat, left: nat, count: nat)
    requires Covers(codes, bases, 2, k, hi, r, rhi) && left == |codes| - k && count == hi - k && UpToAligned(at, left, count)
    ensures PutGroups4(codes, bases, k, hi, r, rhi) + LayPacks(codes, bases, hi, rhi) == LayIndex(codes, bases, at, k, r)
    decreases left
  {
    var rest := LayPacks(codes, bases, hi, rhi);
    if left == 0 || at % 32 == 0 {
      LaidNone(codes, bases, at, k, r);
      assert [] + rest == rest;
    } else if left == 1 {
      LaidNone(codes, bases, at, hi, rhi);
      LaidNone(codes, bases, at + 8, k + 2, r + 1);
      assert PutGroups4(codes, bases, hi, hi, r + 1, rhi) + rest == [];
      LaidGroup(codes, bases, at, k, r, hi, hi, rhi, rest);
    } else {
      InitialIsLaid(codes, bases, at + 8, k + 2, r + 1, hi, rhi, left - 2, count - 2);
      LaidGroup(codes, bases, at, k, r, hi, k + 2, rhi, rest);
    }
  }

  /** So an index is packed byte after byte, without any thought of zones. */
  lemma {:induction false} IndexIsLaid(codes: seq<code14>, bases: seq<u32>, ebase: nat)
    requires ebase % 8 == 0 && |bases| == Regions(ebase, |codes|)
    ensures PutCompactIndex(codes, bases, ebase) == LayIndex(codes, bases, ebase, 0, 0)
  {
    var n, a, ra, rb := |codes|, Zone4Initial(ebase, |codes|), Groups1(ebase, |codes|), Packs(ebase, |codes|);
    var p, q := a + 16 * rb, ra + rb;
    ThreeParts(codes, bases, a, ra, rb, p, q);
    PacksAreLaid(codes, bases, a, p, ra, q);
    InitialIsAligned(ebase, n);
    InitialIsLaid(codes, bases, ebase, 0, 0, a, ra, n, a);
    Associate(PutGroups4(codes, bases, 0, a, 0, ra), PutPacks2(codes, bases, a, p, ra, q), PutGroups4(codes, bases, p, n, q, |bases|));
  }
}
