/** UDF directory data (`parse_fids` of `crates/lamfold-udf/src/udf.rs`; file identifier
    descriptors, section 4/14.4 of ECMA-167). */
module UdfDir {
  import opened Bytes
  import opened Frontend
  import opened Runs

  const TAG_FID: nat := 257

  /** An entry and the block of its file entry. */
  datatype Child = Child(name: Name, place: nat)

  type DecodeName = seq<byte> -> Result<Name>

  function Padded(n: nat): (r: nat)
    ensures n <= r < n + 4 && r % 4 == 0
  {
    AlignUp(n, 4)
  }

  /** Deleted entries and the parent are passed over. */
  predicate Skipped(flags: byte)
  {
    flags / 4 % 2 == 1 || flags / 8 % 2 == 1
  }

  /** The descriptor at `p`: its entry, if it is kept, and where the next is. */
  function FidAt(part: nat, decode: DecodeName, data: seq<byte>, p: nat): (r: Result<(seq<Child>, nat)>)
    requires p + 38 <= |data|
    ensures r.Ok? ==> r.value.1 >= p + 38
  {
    var fi := p + 38 + Le16(data, p + 36);
    var end := fi + data[p + 19];
    if end > |data| then Err(Corrupt)
    else
      var next := p + Padded(end - p);
      if Skipped(data[p + 18]) then Ok(([], next))
      else
        var name :- decode(data[fi..end]);
        Ok(([Child(name, Add32(part, Le32(data, p + 24)))], next))
  }

  /** The entries from `p` on, up to the first thing that is not a descriptor. */
  function FidsFrom(part: nat, decode: DecodeName, data: seq<byte>, p: nat, out: seq<Child>): Result<seq<Child>>
    decreases |data| - p
  {
    if p + 38 > |data| || Le16(data, p) != TAG_FID then Ok(out)
    else
      var f :- FidAt(part, decode, data, p);
      FidsFrom(part, decode, data, f.1, out + f.0)
  }

  /** One turn of the loop of `parse_fids`. */
  method ReadFid(part: nat, decode: DecodeName, data: seq<byte>, p: nat) returns (r: Result<(seq<Child>, nat)>)
    requires p + 38 <= |data|
    ensures r == FidAt(part, decode, data, p)
  {
    var flags, len, block, used := data[p + 18], data[p + 19], Le32(data, p + 24), Le16(data, p + 36);
    var fi := p + 38 + used;
    if fi + len > |data| { return Err(Corrupt); }
    var out: seq<Child> := [];
    if !Skipped(flags) {
      var name := decode(data[fi..fi + len]);
      if name.Err? { return Err(name.error); }
      out := [Child(name.value, Add32(part, block))];
    }
    r := Ok((out, p + Padded(38 + used + len)));
  }

  /** `parse_fids`. */
  method ParseFids(part: nat, decode: DecodeName, data: seq<byte>) returns (r: Result<seq<Child>>)
    ensures r == FidsFrom(part, decode, data, 0, [])
  {
    var out: seq<Child>, p: nat := [], 0;
    while p + 38 <= |data|
      invariant FidsFrom(part, decode, data, p, out) == FidsFrom(part, decode, data, 0, [])
      decreases |data| - p
    {
      if Le16(data, p) != TAG_FID { break; }
      var f := ReadFid(part, decode, data, p);
      if f.Err? { return Err(f.error); }
      out, p := out + f.value.0, f.value.1;
    }
    r := Ok(out);
  }

  // ----- directories as written -----

  /** A descriptor as it is written: of the parent, or of an entry, deleted or not; `low` and
      `high` are the other characteristics, `use` the length of what stands before the name. */
  datatype Fid = Fid(deleted: bool, parent: bool, low: nat, high: nat, block: nat, use: nat, fi: seq<byte>, bytes: seq<byte>)
  {
    /** Its bytes say so, and fill up to a multiple of four. */
    ghost predicate Fits()
    {
      && low < 4 && high < 16 && |bytes| % 4 == 0 && 38 + use + |fi| <= |bytes| < 42 + use + |fi|
      && Number(bytes, 0, 2, 257) && bytes[18] as int == Flags() && bytes[19] as int == |fi|
      && Number(bytes, 24, 4, block) && Number(bytes, 36, 2, use) && Lies(bytes, 38 + use, fi)
    }

    function Flags(): nat { low + (if deleted then 4 else 0) + (if parent then 8 else 0) + 16 * high }

    /** An entry to list. */
    predicate Listed() { !deleted && !parent }
  }

  function Place(fs: seq<Fid>, k: nat): nat
    requires k <= |fs|
  {
    if k == 0 then 0 else Place(fs, k - 1) + |fs[k - 1].bytes|
  }

  ghost predicate Stands(decode: DecodeName, data: seq<byte>, fs: seq<Fid>, k: nat)
  {
    k < |fs| && fs[k].Fits() && Lies(data, Place(fs, k), fs[k].bytes) && (fs[k].Listed() ==> decode(fs[k].fi).Ok?)
  }

  /** The descriptors stand one after another and fill the data; the names listed decode. */
  ghost predicate Listing(decode: DecodeName, data: seq<byte>, fs: seq<Fid>)
  {
    && (forall k {:trigger Stands(decode, data, fs, k)} :: 0 <= k < |fs| ==> Stands(decode, data, fs, k))
    && |data| == Place(fs, |fs|)
  }

  /** What one descriptor gives. */
  function EntryOf(part: nat, decode: DecodeName, f: Fid): seq<Child>
  {
    if !f.Listed() || decode(f.fi).Err? then [] else [Child(decode(f.fi).value, Add32(part, f.block))]
  }

  /** What each gives: all but the parent and the deleted ones give an entry. */
  function Entries(part: nat, decode: DecodeName, fs: seq<Fid>): (r: seq<seq<Child>>)
    ensures |r| == |fs|
  {
    seq(|fs|, k requires 0 <= k < |fs| => EntryOf(part, decode, fs[k]))
  }

  lemma {:induction false} FlagsRead(f: Fid, flags: byte)
    requires f.low < 4 && f.high < 16 && flags as int == f.Flags()
    ensures Skipped(flags) <==> !f.Listed()
  {
    var d, p := if f.deleted then 1 else 0, if f.parent then 1 else 0;
    DivUnique(flags as int, 4, d + 2 * p + 4 * f.high);
    DivUnique(flags as int, 8, p + 2 * f.high);
  }

  /** A number that stands in a part stands in the whole. */
  lemma {:induction false} NumberLies(data: seq<byte>, p: nat, x: seq<byte>, o: nat, n: nat, v: nat)
    requires Lies(data, p, x) && Number(x, o, n, v)
    ensures Number(data, p + o, n, v)
  {
    PartOfSlice(data, p, p + |x|, x, o, o + n);
  }

  lemma {:induction false} PaddedIs(n: nat, len: nat)
    requires len % 4 == 0 && n <= len < n + 4
    ensures Padded(n) == len
  {
  }

  lemma {:induction false} NumbersStand(data: seq<byte>, p: nat, f: Fid)
    requires f.Fits() && Lies(data, p, f.bytes)
    ensures Le16(data, p) == 257 && Le32(data, p + 24) == f.block && Le16(data, p + 36) == f.use
  {
    NumberLies(data, p, f.bytes, 0, 2, 257);
    NumberLies(data, p, f.bytes, 24, 4, f.block);
    NumberLies(data, p, f.bytes, 36, 2, f.use);
    NumberReads(data, p, 2, 257);
    NumberReads(data, p + 24, 4, f.block);
    NumberReads(data, p + 36, 2, f.use);
  }

  lemma {:induction false} FidStands(data: seq<byte>, p: nat, f: Fid)
    requires f.Fits() && Lies(data, p, f.bytes)
    ensures data[p + 18] as int == f.Flags() && data[p + 19] as int == |f.fi|
    ensures data[p + 38 + f.use..p + 38 + f.use + |f.fi|] == f.fi
  {
    var x := f.bytes;
    PartOfSlice(data, p, p + |x|, x, 38 + f.use, 38 + f.use + |f.fi|);
    assert data[p..p + |x|][18] == data[p + 18] && data[p..p + |x|][19] == data[p + 19];
  }

  lemma {:induction false} FidReads(part: nat, decode: DecodeName, data: seq<byte>, p: nat, f: Fid, next: nat)
    requires f.Fits() && Lies(data, p, f.bytes) && (f.Listed() ==> decode(f.fi).Ok?) && next == p + |f.bytes|
    ensures p + 38 <= |data| && Le16(data, p) == 257 && Yields(FidAt(part, decode, data, p), EntryOf(part, decode, f), next)
  {
    NumbersStand(data, p, f);
    FidStands(data, p, f);
    FlagsRead(f, data[p + 18]);
    PaddedIs(38 + f.use + |f.fi|, |f.bytes|);
  }

  type Reading = Run<Child, Result<seq<Child>>>

  /** The loop, descriptor by descriptor. */
  ghost predicate RunsFids(run: Reading, part: nat, decode: DecodeName, data: seq<byte>, fs: seq<Fid>)
  {
    forall k: nat, out {:trigger run(k, out)} :: k <= |fs| ==> run(k, out) == FidsFrom(part, decode, data, Place(fs, k), out)
  }

  lemma {:induction false} FidTurn(run: Reading, part: nat, decode: DecodeName, data: seq<byte>, fs: seq<Fid>, k: nat)
    requires RunsFids(run, part, decode, data, fs) && Stands(decode, data, fs, k)
    ensures Turns(run, k, EntryOf(part, decode, fs[k]))
  {
    FidReads(part, decode, data, Place(fs, k), fs[k], Place(fs, k + 1));
  }

  /** A written directory gives back its entries, in order. */
  lemma {:induction false} FidsUndoPrint(part: nat, decode: DecodeName, data: seq<byte>, fs: seq<Fid>)
    requires Listing(decode, data, fs)
    ensures FidsFrom(part, decode, data, 0, []) == Ok(Flat(Entries(part, decode, fs), 0))
  {
    var run := (k: nat, out: seq<Child>) => if k <= |fs| then FidsFrom(part, decode, data, Place(fs, k), out) else Err(Corrupt);
    var parts := Entries(part, decode, fs);
    forall k {:trigger parts[k]} | 0 <= k < |parts|
      ensures Turns(run, k, parts[k])
    {
      assert Stands(decode, data, fs, k);
      FidTurn(run, part, decode, data, fs, k);
    }
    RunsThrough(run, parts, 0, []);
    assert Place(fs, 0) == 0 && [] + Flat(parts, 0) == Flat(parts, 0);
  }
}
