/** Reading a file recorded in several extents (`read_at` of
    `crates/lamfold-iso/src/iso9660.rs` and `crates/lamfold-udf/src/udf.rs`): a window of the
    extents laid end to end. */
module Extents {
  import opened Bytes
  import opened Parts
  import opened Windows

  /** `len` bytes from logical block `lba`, or, with none, `len` zeros recorded nowhere. */
  datatype Extent = Extent(lba: Option<nat>, len: nat)

  /** Where extent `k` begins in the file. */
  function Start(es: seq<Extent>, k: nat): nat
    requires k <= |es|
  {
    if k == 0 then 0 else Start(es, k - 1) + es[k - 1].len
  }

  /** The data length: all extents together. */
  function Size(es: seq<Extent>): nat
  {
    Start(es, |es|)
  }

  /** Byte `q` of extents `k..`, laid end to end. */
  function ExtentByte(src: seq<byte>, bs: nat, es: seq<Extent>, k: nat, q: nat): Option<byte>
    decreases |es| - k
  {
    if k >= |es| then None
    else if q < es[k].len then
      match es[k].lba
      case Some(lba) => SourceByte(src, lba * bs + q)
      case None => Some(0)
    else ExtentByte(src, bs, es, k + 1, q - es[k].len)
  }

  function Contents(src: seq<byte>, bs: nat, es: seq<Extent>): Content
  {
    q => ExtentByte(src, bs, es, 0, q)
  }

  lemma {:induction false} StartMonotone(es: seq<Extent>, j: nat, k: nat)
    requires j <= k <= |es|
    ensures Start(es, j) <= Start(es, k)
    decreases k
  {
    if j < k { StartMonotone(es, j, k - 1); }
  }

  /** Past the beginning of extent `k`, the file is extents `k..`. */
  lemma {:induction false} FromExtent(src: seq<byte>, bs: nat, es: seq<Extent>, k: nat, q: nat)
    requires k <= |es| && q >= Start(es, k)
    ensures ExtentByte(src, bs, es, 0, q) == ExtentByte(src, bs, es, k, q - Start(es, k))
    decreases k
  {
    if k > 0 { FromExtent(src, bs, es, k - 1, q); }
  }

  /** The part of the file in extent `k` lies where the extent is, or is zeros. */
  lemma {:induction false} ExtentLies(at: Content, src: seq<byte>, bs: nat, es: seq<Extent>, k: nat, base: nat, pos: nat, n: nat)
    requires k < |es| && (es[k].lba.Some? ==> base == es[k].lba.value * bs)
    requires forall q: nat {:trigger ExtentByte(src, bs, es, 0, q)} :: at(q) == ExtentByte(src, bs, es, 0, q)
    requires Start(es, k) <= pos && pos + n <= Start(es, k) + es[k].len
    ensures es[k].lba.Some? ==> LiesAt(at, src, pos, n, base + (pos - Start(es, k)))
    ensures es[k].lba.None? ==> IsContent(at, pos, Zeros(n))
  {
    forall q | pos <= q < pos + n
      ensures at(q) == if es[k].lba.Some? then SourceByte(src, base + (pos - Start(es, k)) + (q - pos)) else Some(0)
    {
      FromExtent(src, bs, es, k, q);
    }
  }

  /** One extent's share of a read, if the read reaches into it. */
  method ReadExtent(src: seq<byte>, bs: nat, es: seq<Extent>, k: nat, start: nat, off: nat, n: nat, done: nat, buf: array<byte>, ghost at: Content)
    returns (r: Result<nat>)
    requires k < |es| && start == Start(es, k) && done <= n <= buf.Length && (done < n ==> off + done >= start)
    requires forall q: nat {:trigger ExtentByte(src, bs, es, 0, q)} :: at(q) == ExtentByte(src, bs, es, 0, q)
    requires IsContent(at, off, buf[..done])
    modifies buf
    ensures r.Ok? ==> done <= r.value <= n && IsContent(at, off, buf[..r.value]) && (r.value < n ==> off + r.value >= start + es[k].len)
    ensures r.Ok? ==> r.value == done || off + r.value <= start + es[k].len
    ensures r.Err? ==> off + done < start + es[k].len && Unreadable(at, off, Min(n, start + es[k].len - off))
    ensures forall i :: n <= i < buf.Length ==> buf[i] == old(buf[i])
    ensures forall i :: (if r.Ok? then r.value else done) <= i < buf.Length ==> buf[i] == old(buf[i])
  {
    var pos := off + done;
    if done == n || pos >= start + es[k].len { return Ok(done); }
    var within := pos - start;
    var take := Min(n - done, es[k].len - within);
    ghost var before := buf[..done];
    match es[k].lba {
      case Some(lba) =>
        var disk := lba * bs + within;
        ExtentLies(at, src, bs, es, k, lba * bs, pos, take);
        RunIsContent(at, src, pos, take, disk);
        var ok := ReadInto(src, disk, buf, done, take);
        if !ok { return Err(Io); }
      case None =>
        ExtentLies(at, src, bs, es, k, 0, pos, take);
        FillZeros(buf, done, take);
    }
    assert buf[..done] == before;
    BufferGrows(at, off, buf, done, take);
    r := Ok(done + take);
  }

  /** The loop of `read_at`: as much of the window as the extents reach. */
  method ReadExtents(src: seq<byte>, bs: nat, es: seq<Extent>, off: nat, n: nat, buf: array<byte>, ghost at: Content) returns (r: Result<nat>)
    requires n <= buf.Length
    requires forall q: nat {:trigger ExtentByte(src, bs, es, 0, q)} :: at(q) == ExtentByte(src, bs, es, 0, q)
    modifies buf
    ensures var total := Min(n, Max(0, Size(es) - off)); WindowRead(at, off, total, r, buf[..total]) && (r.Err? ==> total > 0)
    ensures forall i :: (if r.Ok? then r.value else n) <= i < buf.Length ==> buf[i] == old(buf[i])
  {
    var done: nat, start: nat := 0, 0;
    for k := 0 to |es|
      invariant start == Start(es, k) && done <= n && (done < n ==> off + done >= start)
      invariant done == 0 || off + done <= start
      invariant IsContent(at, off, buf[..done])
      invariant forall i :: done <= i < buf.Length ==> buf[i] == old(buf[i])
    {
      StartMonotone(es, k, |es|);
      StartMonotone(es, k + 1, |es|);
      if done == n { break; }
      var got := ReadExtent(src, bs, es, k, start, off, n, done, buf, at);
      if got.Err? { return got; }
      done := got.value;
      start := start + es[k].len;
    }
    r := Ok(done);
  }

  // ----- extents as they are written -----

  /** The extent's bytes stand in its blocks; one that is recorded nowhere is of zeros. */
  ghost predicate Records(src: seq<byte>, bs: nat, e: Extent, part: seq<byte>)
  {
    |part| == e.len && if e.lba.Some? then Lies(src, Room(e.lba.value, bs), part) else part == Zeros(|part|)
  }

  lemma {:induction false} AfterFirst(src: seq<byte>, bs: nat, e: Extent, rest: seq<Extent>, k: nat, q: nat)
    requires k <= |rest|
    ensures ExtentByte(src, bs, [e] + rest, k + 1, q) == ExtentByte(src, bs, rest, k, q)
    decreases |rest| - k
  {
    if k < |rest| && q >= rest[k].len { AfterFirst(src, bs, e, rest, k + 1, q - rest[k].len); }
  }

  lemma {:induction false} FirstByte(src: seq<byte>, bs: nat, e: Extent, part: seq<byte>, rest: seq<Extent>, q: nat)
    requires Records(src, bs, e, part)
    ensures ExtentByte(src, bs, [e] + rest, 0, q) == if q < |part| then Some(part[q]) else ExtentByte(src, bs, rest, 0, q - |part|)
  {
    if q < |part| {
      if e.lba.Some? {
        var at := Room(e.lba.value, bs);
        RoomIs(e.lba.value, bs);
        assert src[at..at + |part|][q] == part[q];
      }
    } else {
      AfterFirst(src, bs, e, rest, 0, q - |part|);
    }
  }

  lemma {:induction false} StartAfter(e: Extent, rest: seq<Extent>, k: nat)
    requires k <= |rest|
    ensures Start([e] + rest, k + 1) == e.len + Start(rest, k)
  {
    if k > 0 { StartAfter(e, rest, k - 1); }
  }

  ghost predicate AllRecorded(src: seq<byte>, bs: nat, es: seq<Extent>, parts: seq<seq<byte>>)
  {
    |parts| == |es| && forall k {:trigger Records(src, bs, es[k], parts[k])} :: 0 <= k < |es| ==> Records(src, bs, es[k], parts[k])
  }

  lemma {:induction false} RecordedByte(src: seq<byte>, bs: nat, es: seq<Extent>, parts: seq<seq<byte>>, k: nat, q: nat)
    requires AllRecorded(src, bs, es, parts) && q < |Flat(parts, k)|
    ensures ExtentByte(src, bs, es, k, q) == Some(Flat(parts, k)[q])
    decreases |es| - k
  {
    assert Records(src, bs, es[k], parts[k]);
    if q >= |parts[k]| {
      RecordedByte(src, bs, es, parts, k + 1, q - |parts[k]|);
    } else if es[k].lba.Some? {
      var at := Room(es[k].lba.value, bs);
      RoomIs(es[k].lba.value, bs);
      assert src[at..at + |parts[k]|][q] == parts[k][q];
    }
  }

  lemma {:induction false} RecordedSize(src: seq<byte>, bs: nat, es: seq<Extent>, parts: seq<seq<byte>>, k: nat)
    requires AllRecorded(src, bs, es, parts) && k <= |es|
    ensures Start(es, k) + |Flat(parts, k)| == Size(es)
    decreases |es| - k
  {
    if k < |es| {
      assert Records(src, bs, es[k], parts[k]);
      RecordedSize(src, bs, es, parts, k + 1);
    }
  }

  /** The content of extents is what was written into them, one after another. */
  lemma {:induction false} ContentsRecorded(src: seq<byte>, bs: nat, es: seq<Extent>, parts: seq<seq<byte>>)
    requires AllRecorded(src, bs, es, parts)
    ensures IsContent(Contents(src, bs, es), 0, Flat(parts, 0)) && Size(es) == |Flat(parts, 0)|
  {
    var data := Flat(parts, 0);
    forall q: nat | q < |data|
      ensures Contents(src, bs, es)(q) == Some(data[q])
    {
      RecordedByte(src, bs, es, parts, 0, q);
    }
    RecordedSize(src, bs, es, parts, 0);
  }
}
