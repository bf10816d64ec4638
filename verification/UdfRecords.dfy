/** UDF allocation descriptors (`parse_extents` of `crates/lamfold-udf/src/udf.rs`; section
    4/14.14 of ECMA-167). */
module UdfRecords {
  import opened Bytes
  import opened Extents
  import opened Parts
  import opened Runs

  const LEN_MASK: nat := 0x4000_0000

  // ----- allocation descriptors -----

  /** The extent of descriptor `k`: none when its length is zero. */
  function ExtentAt(part: nat, ads: seq<byte>, stride: nat, at: nat): Result<Option<Extent>>
    requires stride >= 8 && at + stride <= |ads|
  {
    var raw := Le32(ads, at);
    var len, kind := raw % LEN_MASK, raw / LEN_MASK;
    if len == 0 then Ok(None)
    else if kind == 3 then Err(Unsupported)
    else Ok(Some(Extent(if kind == 0 then Some(Add32(part, Le32(ads, at + 4))) else None, len)))
  }

  /** The extents of the descriptors from `at` on; bytes that do not make a whole one are left. */
  function ExtentsFrom(part: nat, ads: seq<byte>, stride: nat, at: nat, out: seq<Extent>): Result<seq<Extent>>
    requires stride >= 8
    decreases |ads| - at
  {
    if at + stride > |ads| then Ok(out)
    else
      var e :- ExtentAt(part, ads, stride, at);
      ExtentsFrom(part, ads, stride, at + stride, if e.Some? then out + [e.value] else out)
  }

  /** `parse_extents`. */
  function ParseExtents(part: nat, buf: seq<byte>, at: nat, len: nat, stride: nat): Result<seq<Extent>>
    requires stride >= 8
  {
    if at + len > |buf| then Err(Corrupt) else ExtentsFrom(part, buf[at..at + len], stride, 0, [])
  }

  method ReadExtentList(part: nat, buf: seq<byte>, at: nat, len: nat, stride: nat) returns (r: Result<seq<Extent>>)
    requires stride >= 8
    ensures r == ParseExtents(part, buf, at, len, stride)
  {
    if at + len > |buf| { return Err(Corrupt); }
    var ads, p: nat, out: seq<Extent> := buf[at..at + len], 0, [];
    while p + stride <= |ads|
      invariant ExtentsFrom(part, ads, stride, p, out) == ExtentsFrom(part, ads, stride, 0, [])
      decreases |ads| - p
    {
      var raw := Le32(ads, p);
      if raw % LEN_MASK != 0 {
        if raw / LEN_MASK == 3 { return Err(Unsupported); }
        out := out + [Extent(if raw / LEN_MASK == 0 then Some(Add32(part, Le32(ads, p + 4))) else None, raw % LEN_MASK)];
      }
      p := p + stride;
    }
    r := Ok(out);
  }

  ghost predicate NonEmpty(es: seq<Extent>)
  {
    forall i :: 0 <= i < |es| ==> es[i].len > 0
  }

  lemma {:induction false} ExtentsAreNonEmpty(part: nat, ads: seq<byte>, stride: nat, at: nat, out: seq<Extent>)
    requires stride >= 8 && NonEmpty(out)
    ensures var r := ExtentsFrom(part, ads, stride, at, out); r.Ok? ==> NonEmpty(r.value)
    decreases |ads| - at
  {
    if at + stride <= |ads| {
      var e := ExtentAt(part, ads, stride, at);
      if e.Ok? { ExtentsAreNonEmpty(part, ads, stride, at + stride, if e.value.Some? then out + [e.value.value] else out); }
    }
  }

  /** A descriptor as it is written: recorded (0), allocated or unallocated (1, 2). */
  datatype Ad = Ad(kind: nat, len: nat, block: nat, bytes: seq<byte>)
  {
    ghost predicate Fits(stride: nat)
    {
      && kind < 3 && len < 0x4000_0000 && |bytes| == stride
      && Number(bytes, 0, 4, kind * 0x4000_0000 + len) && Number(bytes, 4, 4, block) && block < 0x1_0000_0000
    }
  }

  /** What a descriptor records: of length zero nothing, unrecorded zeros. */
  function ExtentOf(part: nat, a: Ad): seq<Extent>
  {
    if a.len == 0 then [] else [Extent(if a.kind == 0 then Some(Add32(part, a.block)) else None, a.len)]
  }

  /** A recorded extent is where the partition and its block number put it exactly when their
      sum is a 32-bit number. */
  lemma {:induction false} PlacedIffInRange(part: nat, a: Ad, stride: nat)
    requires a.Fits(stride) && a.kind == 0 && a.len > 0
    ensures |ExtentOf(part, a)| == 1 && (ExtentOf(part, a)[0].lba == Some(part + a.block) <==> part + a.block < U32)
  {
  }

  function ExtentsOf(part: nat, ads: seq<Ad>): (r: seq<seq<Extent>>)
    ensures |r| == |ads|
  {
    seq(|ads|, k requires 0 <= k < |ads| => ExtentOf(part, ads[k]))
  }

  ghost predicate AdStands(x: seq<byte>, ads: seq<Ad>, stride: nat, k: nat)
  {
    k < |ads| && ads[k].Fits(stride) && Lies(x, Room(k, stride), ads[k].bytes)
  }

  /** The descriptors stand one after another and fill the list. */
  ghost predicate AdsOn(x: seq<byte>, ads: seq<Ad>, stride: nat)
  {
    && (forall k {:trigger AdStands(x, ads, stride, k)} :: 0 <= k < |ads| ==> AdStands(x, ads, stride, k))
    && |x| == Room(|ads|, stride)
  }

  lemma {:induction false} RawSplits(kind: nat, len: nat, raw: nat)
    requires kind < 3 && len < 0x4000_0000 && raw == kind * 0x4000_0000 + len
    ensures raw % LEN_MASK == len && raw / LEN_MASK == kind
  {
  }

  lemma {:induction false} AdReads(part: nat, x: seq<byte>, at: nat, a: Ad, stride: nat)
    requires stride >= 8 && a.Fits(stride) && Lies(x, at, a.bytes)
    ensures at + stride <= |x|
    ensures ExtentAt(part, x, stride, at) == Ok(if a.len == 0 then None else Some(Extent(if a.kind == 0 then Some(Add32(part, a.block)) else None, a.len)))
  {
    PartOfSlice(x, at, at + stride, a.bytes, 0, 4);
    PartOfSlice(x, at, at + stride, a.bytes, 4, 8);
    NumberReads(x, at, 4, a.kind * 0x4000_0000 + a.len);
    NumberReads(x, at + 4, 4, a.block);
    RawSplits(a.kind, a.len, Le32(x, at));
  }

  type Reading = Run<Extent, Result<seq<Extent>>>

  /** The loop, descriptor by descriptor. */
  ghost predicate RunsAds(run: Reading, part: nat, x: seq<byte>, ads: seq<Ad>, stride: nat)
    requires stride >= 8
  {
    forall k: nat, out {:trigger run(k, out)} :: k <= |ads| ==> run(k, out) == ExtentsFrom(part, x, stride, Room(k, stride), out)
  }

  lemma {:induction false} AdTurn(run: Reading, part: nat, x: seq<byte>, ads: seq<Ad>, stride: nat, k: nat)
    requires stride >= 8 && RunsAds(run, part, x, ads, stride) && AdStands(x, ads, stride, k)
    ensures Turns(run, k, ExtentOf(part, ads[k]))
  {
    AdReads(part, x, Room(k, stride), ads[k], stride);
    forall out
      ensures run(k, out) == run(k + 1, out + ExtentOf(part, ads[k]))
    {
      assert out + [] == out;
    }
  }

  /** Written descriptors give back their extents, in order. */
  lemma {:induction false} ExtentsUndoPrint(part: nat, x: seq<byte>, ads: seq<Ad>, stride: nat)
    requires stride >= 8 && AdsOn(x, ads, stride)
    ensures ExtentsFrom(part, x, stride, 0, []) == Ok(Flat(ExtentsOf(part, ads), 0))
  {
    var run := (k: nat, out: seq<Extent>) => if k <= |ads| then ExtentsFrom(part, x, stride, Room(k, stride), out) else Err(Corrupt);
    var parts := ExtentsOf(part, ads);
    forall k {:trigger parts[k]} | 0 <= k < |parts|
      ensures Turns(run, k, parts[k])
    {
      assert AdStands(x, ads, stride, k);
      AdTurn(run, part, x, ads, stride, k);
    }
    RunsThrough(run, parts, 0, []);
    assert Room(0, stride) == 0 && [] + Flat(parts, 0) == Flat(parts, 0);
  }
}
