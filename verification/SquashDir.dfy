/** SquashFS directory listings (`dir_entries` of `crates/lamfold-squash/src/squash.rs`):
    headers, each followed by the entries whose inodes share a metadata block. */
module SquashDir {
  import opened Bytes
  import opened Frontend

  /** A name and its inode's reference. */
  datatype Child = Child(name: Name, ref: nat)

  function RefOf(start: nat, offset: nat): nat
  {
    start * U16 + offset
  }

  /** Up to `left` entries from `p` on; a listing that ends early ends them. */
  function EntriesFrom(l: seq<byte>, p: nat, start: nat, left: nat, out: seq<Child>): (r: Result<(seq<Child>, nat)>)
    requires p <= |l|
    ensures r.Ok? ==> p <= r.value.1 <= |l|
    decreases |l| - p
  {
    if left == 0 || p + 8 > |l| then Ok((out, p))
    else
      var end := p + 8 + Le16(l, p + 6) + 1;
      if end > |l| then Err(Corrupt)
      else EntriesFrom(l, end, start, left - 1, out + [Child(l[p + 8..end], RefOf(start, Le16(l, p)))])
  }

  /** Headers and their entries from `p` on. */
  function HeadersFrom(l: seq<byte>, p: nat, out: seq<Child>): Result<seq<Child>>
    requires p <= |l|
    decreases |l| - p
  {
    if p + 12 > |l| then Ok(out)
    else
      var entries :- EntriesFrom(l, p + 12, Le32(l, p + 4), Le32(l, p) + 1, out);
      HeadersFrom(l, entries.1, entries.0)
  }

  /** The inner loop of `dir_entries`. */
  method ParseEntries(l: seq<byte>, at: nat, start: nat, count: nat, before: seq<Child>) returns (r: Result<(seq<Child>, nat)>)
    requires at <= |l|
    ensures r == EntriesFrom(l, at, start, count, before)
  {
    var p: nat, out := at, before;
    for k := 0 to count
      invariant p <= |l| && EntriesFrom(l, p, start, count - k, out) == EntriesFrom(l, at, start, count, before)
    {
      if p + 8 > |l| { break; }
      var nlen := Le16(l, p + 6) + 1;
      if p + 8 + nlen > |l| { return Err(Corrupt); }
      out := out + [Child(l[p + 8..p + 8 + nlen], RefOf(start, Le16(l, p)))];
      p := p + 8 + nlen;
    }
    r := Ok((out, p));
  }

  /** `dir_entries`, the listing read. */
  method ParseListing(l: seq<byte>) returns (r: Result<seq<Child>>)
    ensures r == HeadersFrom(l, 0, [])
  {
    var out: seq<Child>, p: nat := [], 0;
    while p + 12 <= |l|
      invariant p <= |l| && HeadersFrom(l, p, out) == HeadersFrom(l, 0, [])
      decreases |l| - p
    {
      var count, start := Le32(l, p), Le32(l, p + 4);
      var entries := ParseEntries(l, p + 12, start, count + 1, out);
      if entries.Err? { return Err(entries.error); }
      out, p := entries.value.0, entries.value.1;
    }
    r := Ok(out);
  }

  // ----- listings as written -----

  /** An entry to be written. */
  datatype Entry = Entry(offset: nat, number: nat, kind: nat, name: Name)
  {
    predicate Fits() { offset < U16 && number < U16 && kind < U16 && 0 < |name| <= U16 }
  }

  datatype Header = Header(start: nat, number: nat, entries: seq<Entry>)
  {
    predicate Fits()
    {
      start < U32 && number < U32 && 0 < |entries| <= U32 && forall j :: 0 <= j < |entries| ==> entries[j].Fits()
    }
  }

  function PrintEntry(e: Entry): (r: seq<byte>)
    requires e.Fits()
    ensures |r| == 8 + |e.name|
  {
    Put16(e.offset) + Put16(e.number) + Put16(e.kind) + Put16(|e.name| - 1) + e.name
  }

  function PrintEntries(es: seq<Entry>, k: nat): seq<byte>
    requires forall j :: 0 <= j < |es| ==> es[j].Fits()
    decreases |es| - k
  {
    if k >= |es| then [] else PrintEntry(es[k]) + PrintEntries(es, k + 1)
  }

  function PrintHeader(h: Header): seq<byte>
    requires h.Fits()
  {
    Put32(|h.entries| - 1) + Put32(h.start) + Put32(h.number) + PrintEntries(h.entries, 0)
  }

  function PrintHeaders(hs: seq<Header>, k: nat): seq<byte>
    requires forall j :: 0 <= j < |hs| ==> hs[j].Fits()
    decreases |hs| - k
  {
    if k >= |hs| then [] else PrintHeader(hs[k]) + PrintHeaders(hs, k + 1)
  }

  function Children(start: nat, es: seq<Entry>, k: nat): seq<Child>
    decreases |es| - k
  {
    if k >= |es| then [] else [Child(es[k].name, start * 0x1_0000 + es[k].offset)] + Children(start, es, k + 1)
  }

  function AllChildren(hs: seq<Header>, k: nat): seq<Child>
    decreases |hs| - k
  {
    if k >= |hs| then [] else Children(hs[k].start, hs[k].entries, 0) + AllChildren(hs, k + 1)
  }

  /** The fields of an entry that lies at `p`. */
  lemma {:induction false} EntryStands(l: seq<byte>, p: nat, e: Entry)
    requires e.Fits() && Lies(l, p, PrintEntry(e))
    ensures var end := p + 8 + |e.name|;
            Le16(l, p) == e.offset && Le16(l, p + 6) + 1 == |e.name| && l[p + 8..end] == e.name
  {
    var end, n := p + 8 + |e.name|, |e.name|;
    var x := l[p..end];
    LeSlice(l, p, end, 0);
    LeSlice(l, p, end, 6);
    assert x[0..2] == Put16(e.offset) && x[6..8] == Put16(n - 1);
    LeSlice(x, 0, 2, 0);
    LeSlice(x, 6, 8, 0);
    PartOfSlice(l, p, end, x, 8, 8 + n);
    assert x[8..8 + n] == e.name;
  }

  type Entering = (nat, nat, seq<Child>) -> Result<(seq<Child>, nat)>

  /** `EntriesFrom` of one header's entries, as a value. */
  function EntriesOf(l: seq<byte>, start: nat): Entering
  {
    (p: nat, left: nat, out: seq<Child>) => if p <= |l| then EntriesFrom(l, p, start, left, out) else Err(Corrupt)
  }

  /** An entry that lies at `p` is read, and reading goes on behind it. */
  ghost predicate Enters(read: Entering, l: seq<byte>, start: nat, e: Entry, p: nat, left: nat, out: seq<Child>)
  {
    e.Fits() && left > 0 && Lies(l, p, PrintEntry(e)) ==>
      read(p, left, out) == read(p + 8 + |e.name|, left - 1, out + [Child(e.name, RefOf(start, e.offset))])
  }

  lemma {:induction false} EntriesEnter(l: seq<byte>, start: nat, e: Entry, p: nat, left: nat, out: seq<Child>)
    ensures Enters(EntriesOf(l, start), l, start, e, p, left, out)
  {
    if e.Fits() && left > 0 && Lies(l, p, PrintEntry(e)) { EntryStands(l, p, e); }
  }

  /** Written entries are read, and reading goes on behind them. */
  lemma {:induction false} EntriesRead(read: Entering, l: seq<byte>, start: nat, p: nat, es: seq<Entry>, k: nat, out: seq<Child>, rest: seq<byte>)
    requires forall q: nat, o {:trigger read(q, 0, o)} :: q <= |l| ==> read(q, 0, o) == Ok((o, q))
    requires forall e, q, left, o {:trigger Enters(read, l, start, e, q, left, o)} :: Enters(read, l, start, e, q, left, o)
    requires forall j :: 0 <= j < |es| ==> es[j].Fits()
    requires k <= |es| && p <= |l| && l[p..] == PrintEntries(es, k) + rest
    ensures p + |PrintEntries(es, k)| <= |l| && l[p + |PrintEntries(es, k)|..] == rest
    ensures Yields(read(p, |es| - k, out), out + Children(start, es, k), p + |PrintEntries(es, k)|)
    decreases |es| - k
  {
    if k < |es| {
      var e, more := es[k], PrintEntries(es, k + 1);
      var c := Child(e.name, RefOf(start, e.offset));
      Associate(PrintEntry(e), more, rest);
      TailLies(l, p, PrintEntry(e), more + rest);
      assert Enters(read, l, start, e, p, |es| - k, out);
      EntriesRead(read, l, start, p + 8 + |e.name|, es, k + 1, out + [c], rest);
      Associate(out, [c], Children(start, es, k + 1));
    } else {
      assert l[p..] == rest;
      assert out + [] == out;
    }
  }

  lemma {:induction false} EntriesPrinted(l: seq<byte>, start: nat, p: nat, es: seq<Entry>, out: seq<Child>, rest: seq<byte>)
    requires (forall j :: 0 <= j < |es| ==> es[j].Fits()) && p <= |l| && l[p..] == PrintEntries(es, 0) + rest
    ensures p + |PrintEntries(es, 0)| <= |l| && l[p + |PrintEntries(es, 0)|..] == rest
    ensures Yields(EntriesFrom(l, p, start, |es|, out), out + Children(start, es, 0), p + |PrintEntries(es, 0)|)
  {
    var read := EntriesOf(l, start);
    forall e, q, left, o {:trigger Enters(read, l, start, e, q, left, o)}
      ensures Enters(read, l, start, e, q, left, o)
    {
      EntriesEnter(l, start, e, q, left, o);
    }
    EntriesRead(read, l, start, p, es, 0, out, rest);
  }

  lemma {:induction false} HeaderStands(l: seq<byte>, p: nat, h: Header, rest: seq<byte>)
    requires h.Fits() && p <= |l| && l[p..] == PrintHeader(h) + rest
    ensures p + 12 <= |l| && Le32(l, p) + 1 == |h.entries| && Le32(l, p + 4) == h.start
    ensures l[p + 12..] == PrintEntries(h.entries, 0) + rest
  {
    var x := l[p..];
    LeSlice(l, p, |l|, 0);
    LeSlice(l, p, |l|, 4);
    assert x[0..4] == Put32(|h.entries| - 1) && x[4..8] == Put32(h.start);
    LeSlice(x, 0, 4, 0);
    LeSlice(x, 4, 8, 0);
    assert l[p + 12..] == x[12..] == PrintEntries(h.entries, 0) + rest;
  }

  lemma {:induction false} HeaderSteps(l: seq<byte>, p: nat, out: seq<Child>, after: seq<Child>, q: nat)
    requires p + 12 <= |l| && q <= |l| && Yields(EntriesFrom(l, p + 12, Le32(l, p + 4), Le32(l, p) + 1, out), after, q)
    ensures HeadersFrom(l, p, out) == HeadersFrom(l, q, after)
  {
  }

  lemma {:induction false} HeaderPrinted(l: seq<byte>, p: nat, h: Header, rest: seq<byte>, out: seq<Child>) returns (q: nat)
    requires h.Fits() && p <= |l| && l[p..] == PrintHeader(h) + rest
    ensures q <= |l| && l[q..] == rest && HeadersFrom(l, p, out) == HeadersFrom(l, q, out + Children(h.start, h.entries, 0))
  {
    HeaderStands(l, p, h, rest);
    EntriesPrinted(l, h.start, p + 12, h.entries, out, rest);
    q := p + 12 + |PrintEntries(h.entries, 0)|;
    HeaderSteps(l, p, out, out + Children(h.start, h.entries, 0), q);
  }

  lemma {:induction false} HeadersPrinted(l: seq<byte>, p: nat, hs: seq<Header>, k: nat, out: seq<Child>)
    requires forall j :: 0 <= j < |hs| ==> hs[j].Fits()
    requires k <= |hs| && p <= |l| && l[p..] == PrintHeaders(hs, k)
    ensures HeadersFrom(l, p, out) == Ok(out + AllChildren(hs, k))
    decreases |hs| - k
  {
    if k < |hs| {
      var cs := Children(hs[k].start, hs[k].entries, 0);
      var q := HeaderPrinted(l, p, hs[k], PrintHeaders(hs, k + 1), out);
      HeadersPrinted(l, q, hs, k + 1, out + cs);
      Associate(out, cs, AllChildren(hs, k + 1));
    } else {
      assert out + [] == out;
    }
  }

  /** A written listing gives back every entry, in order, with its inode's reference. */
  lemma {:induction false} ParseUndoesPrint(hs: seq<Header>)
    requires forall j :: 0 <= j < |hs| ==> hs[j].Fits()
    ensures HeadersFrom(PrintHeaders(hs, 0), 0, []) == Ok(AllChildren(hs, 0))
  {
    var l := PrintHeaders(hs, 0);
    assert l[0..] == l;
    HeadersPrinted(l, 0, hs, 0, []);
    assert [] + AllChildren(hs, 0) == AllChildren(hs, 0);
  }
}
