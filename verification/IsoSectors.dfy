/** A directory as it is recorded: records packed into logical sectors, none crossing into the
    next, zeros up to the sector's end (section 6.8.1 of ECMA-119). The walk of
    `crates/lamfold-iso/src/iso9660.rs` finds exactly those records. */
module IsoSectors {
  import opened Bytes
  import opened IsoDirectory

  /** A record to be written; `head` are the fields the walk does not look at. */
  datatype Printable = Printable(rec: Rec, head: seq<byte>)
  {
    predicate Fits()
    {
      |head| == 22 && rec.Prints()
    }

    function Len(): nat
    {
      FILE_ID + |rec.fi| + |rec.rest|
    }
  }

  /** Where record `k` of a sector that starts at `base` goes. */
  function At(base: nat, ps: seq<Printable>, k: nat): (r: nat)
    requires k <= |ps|
    ensures r >= base
  {
    if k == 0 then base else At(base, ps, k - 1) + ps[k - 1].Len()
  }

  /** Record `k` of a sector that starts at `base`, in its place. */
  function Place(base: nat, ps: seq<Printable>, k: nat): Placed
    requires k < |ps|
  {
    Placed(At(base, ps, k), ps[k].rec)
  }

  /** The sector at `base` holds these records and then zeros. */
  ghost predicate SectorHolds(buf: seq<byte>, base: nat, bs: nat, ps: seq<Printable>)
    requires base + bs <= |buf|
  {
    && At(base, ps, |ps|) <= base + bs
    && (forall k {:trigger Place(base, ps, k)} :: 0 <= k < |ps| ==>
         ps[k].Fits() && At(base, ps, k) + ps[k].Len() <= |buf|
         && buf[At(base, ps, k)..At(base, ps, k) + ps[k].Len()] == PrintRec(ps[k].rec, ps[k].head))
    && (forall i :: At(base, ps, |ps|) <= i < base + bs ==> buf[i] == 0)
  }

  /** Where sector `i` starts. */
  function Base(bs: nat, i: nat): nat
  {
    if i == 0 then 0 else Base(bs, i - 1) + bs
  }

  lemma {:induction false} BaseIs(bs: nat, i: nat)
    ensures Base(bs, i) == i * bs
  {
    if i > 0 {
      BaseIs(bs, i - 1);
      NextMultiple(i - 1, bs);
    }
  }

  /** The directory is these sectors. */
  ghost predicate Recorded(buf: seq<byte>, bs: nat, sectors: seq<seq<Printable>>)
  {
    && |buf| == Base(bs, |sectors|)
    && forall i {:trigger Base(bs, i)} :: 0 <= i < |sectors| ==> Base(bs, i) + bs <= |buf| && SectorHolds(buf, Base(bs, i), bs, sectors[i])
  }

  /** How many records stand before sector `i`. */
  function Before(sectors: seq<seq<Printable>>, i: nat): nat
    requires i <= |sectors|
  {
    if i == 0 then 0 else Before(sectors, i - 1) + |sectors[i - 1]|
  }

  /** From the `o`th on, `rs` are the records of the sector at `base`, in their places. */
  ghost predicate PlacedIn(base: nat, ps: seq<Printable>, rs: seq<Placed>, o: nat)
  {
    && o + |ps| <= |rs|
    && forall k {:trigger Place(base, ps, k)} :: 0 <= k < |ps| ==> rs[o + k] == Place(base, ps, k)
  }

  /** `rs` are the records of all sectors, in order and in their places. */
  ghost predicate PlacedInAll(bs: nat, sectors: seq<seq<Printable>>, rs: seq<Placed>)
  {
    && |rs| == Before(sectors, |sectors|)
    && forall i {:trigger Base(bs, i)} :: 0 <= i < |sectors| ==> PlacedIn(Base(bs, i), sectors[i], rs, Before(sectors, i))
  }

  lemma {:induction false} NextSectorIs(pos: nat, bs: nat, i: nat)
    requires bs > 0 && Base(bs, i) <= pos < Base(bs, i) + bs
    ensures NextSector(pos, bs) == Base(bs, i + 1)
  {
    BaseIs(bs, i);
    BaseIs(bs, i + 1);
    DivUnique(pos, bs, i);
  }

  /** The records of the sector at `base` read as what they were written from. */
  ghost predicate Reads(at: Parsing, buf: seq<byte>, base: nat, ps: seq<Printable>)
  {
    forall k {:trigger Place(base, ps, k)} :: 0 <= k < |ps| ==>
      var p := Place(base, ps, k);
      p.pos < |buf| && buf[p.pos] == ps[k].Len() && at(p.pos) == Ok(p.rec)
  }

  lemma {:induction false} SectorReads(buf: seq<byte>, base: nat, bs: nat, ps: seq<Printable>)
    requires base + bs <= |buf| && SectorHolds(buf, base, bs, ps)
    ensures Reads(RecordsOf(buf), buf, base, ps)
  {
    forall k {:trigger Place(base, ps, k)} | 0 <= k < |ps|
      ensures var p := Place(base, ps, k); p.pos < |buf| && buf[p.pos] == ps[k].Len() && RecordsOf(buf)(p.pos) == Ok(p.rec)
    {
      assert Place(base, ps, k).rec == ps[k].rec;
      ParseUndoesPrint(buf, At(base, ps, k), ps[k].rec, ps[k].head, PrintRec(ps[k].rec, ps[k].head));
    }
  }

  lemma {:induction false} HoldsRecord(at: Parsing, buf: seq<byte>, bs: nat, pos: nat, len: nat, rs: seq<Placed>, m: nat)
    requires bs > 0 && pos < |buf| && buf[pos] == len != 0 && m < |rs| && rs[m].pos == pos && at(pos) == Ok(rs[m].rec)
    requires Holds(at, buf, bs, pos + len, rs, m + 1)
    ensures Holds(at, buf, bs, pos, rs, m)
  {
  }

  /** From record `k` of a sector on, the records are those placed there, if they are from
      the next sector on. */
  lemma {:induction false} HoldsInSector(at: Parsing, buf: seq<byte>, base: nat, bs: nat, ps: seq<Printable>, rs: seq<Placed>, o: nat, k: nat)
    requires bs > 0 && base + bs <= |buf| && k <= |ps| && Reads(at, buf, base, ps) && PlacedIn(base, ps, rs, o)
    requires At(base, ps, |ps|) <= base + bs && forall i :: At(base, ps, |ps|) <= i < base + bs ==> buf[i] == 0
    requires forall pos: nat {:trigger NextSector(pos, bs)} :: base <= pos < base + bs ==> NextSector(pos, bs) == base + bs
    requires Holds(at, buf, bs, base + bs, rs, o + |ps|)
    ensures Holds(at, buf, bs, At(base, ps, k), rs, o + k)
    decreases |ps| - k
  {
    if k < |ps| {
      HoldsInSector(at, buf, base, bs, ps, rs, o, k + 1);
      assert rs[o + k] == Place(base, ps, k);
      HoldsRecord(at, buf, bs, At(base, ps, k), ps[k].Len(), rs, o + k);
    }
  }

  /** Sector `i`, read: its records in their places among all, and zeros after them. */
  ghost predicate SectorAt(at: Parsing, buf: seq<byte>, bs: nat, sectors: seq<seq<Printable>>, rs: seq<Placed>, i: nat)
    requires i < |sectors|
  {
    var base, ps := Base(bs, i), sectors[i];
    && base + bs <= |buf| && Reads(at, buf, base, ps) && PlacedIn(base, ps, rs, Before(sectors, i))
    && At(base, ps, |ps|) <= base + bs && forall i :: At(base, ps, |ps|) <= i < base + bs ==> buf[i] == 0
  }

  lemma {:induction false} HoldsSector(at: Parsing, buf: seq<byte>, bs: nat, sectors: seq<seq<Printable>>, rs: seq<Placed>, i: nat)
    requires bs > 0 && i < |sectors| && SectorAt(at, buf, bs, sectors, rs, i)
    requires Holds(at, buf, bs, Base(bs, i) + bs, rs, Before(sectors, i) + |sectors[i]|)
    ensures Holds(at, buf, bs, Base(bs, i), rs, Before(sectors, i))
  {
    var base := Base(bs, i);
    forall pos: nat {:trigger NextSector(pos, bs)} | base <= pos < base + bs
      ensures NextSector(pos, bs) == base + bs
    {
      NextSectorIs(pos, bs, i);
    }
    HoldsInSector(at, buf, base, bs, sectors[i], rs, Before(sectors, i), 0);
  }

  lemma {:induction false} HoldsFromSector(at: Parsing, buf: seq<byte>, bs: nat, sectors: seq<seq<Printable>>, rs: seq<Placed>, i: nat)
    requires bs > 0 && i <= |sectors| && |buf| == Base(bs, |sectors|) && |rs| == Before(sectors, |sectors|)
    requires forall j {:trigger SectorAt(at, buf, bs, sectors, rs, j)} :: 0 <= j < |sectors| ==> SectorAt(at, buf, bs, sectors, rs, j)
    ensures Holds(at, buf, bs, Base(bs, i), rs, Before(sectors, i))
    decreases |sectors| - i
  {
    if i < |sectors| {
      HoldsFromSector(at, buf, bs, sectors, rs, i + 1);
      assert SectorAt(at, buf, bs, sectors, rs, i);
      HoldsSector(at, buf, bs, sectors, rs, i);
    }
  }

  lemma {:induction false} RecordedHolds(buf: seq<byte>, bs: nat, sectors: seq<seq<Printable>>, rs: seq<Placed>)
    requires bs > 0 && Recorded(buf, bs, sectors) && PlacedInAll(bs, sectors, rs)
    ensures Holds(RecordsOf(buf), buf, bs, 0, rs, 0)
  {
    var at := RecordsOf(buf);
    forall i {:trigger SectorAt(at, buf, bs, sectors, rs, i)} | 0 <= i < |sectors|
      ensures SectorAt(at, buf, bs, sectors, rs, i)
    {
      SectorReads(buf, Base(bs, i), bs, sectors[i]);
    }
    HoldsFromSector(at, buf, bs, sectors, rs, 0);
  }

  /** A recorded directory gives back one entry per file, in order, of all its extents. */
  lemma {:induction false} WalkUndoesRecording(n: Naming, dirLba: nat, buf: seq<byte>, bs: nat, sectors: seq<seq<Printable>>, gs: seq<Group>)
    requires bs > 0 && Recorded(buf, bs, sectors) && PlacedInAll(bs, sectors, AllRecords(gs, 0))
    requires forall j :: 0 <= j < |gs| ==> gs[j].Valid(n, dirLba)
    ensures Walk(n, dirLba, buf, bs) == Ok(AllEntries(EntriesIn(n, dirLba), gs, 0))
  {
    RecordedHolds(buf, bs, sectors, AllRecords(gs, 0));
    WalkGivesFiles(n, dirLba, buf, bs, gs);
  }
}
