/** Two walks of the same directory blocks agree: a record's key — its directory's block and its
    place there — stands for one entry, whatever length the directory is read at. This is what
    lets `crates/lamfold-iso/src/iso9660.rs` intern nodes by key. */
module IsoWalks {
  import opened Bytes
  import opened Extents
  import opened IsoDirectory

  lemma {:induction false} PrefixSlice(short: seq<byte>, long: seq<byte>, lo: nat, hi: nat)
    requires short <= long && lo <= hi <= |short|
    ensures long[lo..hi] == short[lo..hi]
  {
  }

  /** A record that fits in the shorter buffer is the same record in the longer. */
  lemma {:induction false} ParseAgrees(short: seq<byte>, long: seq<byte>, pos: nat)
    requires short <= long && pos < |short| && short[pos] != 0 && ParseRec(short, pos).Ok?
    ensures long[pos] == short[pos] && ParseRec(long, pos) == ParseRec(short, pos)
  {
    var len, fiLen := short[pos], short[pos + 32];
    PrefixSlice(short, long, pos + FILE_ID, pos + FILE_ID + fiLen);
    PrefixSlice(short, long, pos + FILE_ID + fiLen, pos + len);
  }

  /** Two parses agree where the first succeeds, as those of a buffer and a longer one do. */
  ghost predicate Agree(short: seq<byte>, a: Parsing, b: Parsing)
  {
    forall pos: nat {:trigger a(pos)} :: pos < |short| && short[pos] != 0 && a(pos).Ok? ==> b(pos) == a(pos)
  }

  lemma {:induction false} BuffersAgree(short: seq<byte>, long: seq<byte>)
    requires short <= long
    ensures Agree(short, RecordsOf(short), RecordsOf(long))
  {
    forall pos: nat | pos < |short| && short[pos] != 0 && RecordsOf(short)(pos).Ok?
      ensures RecordsOf(long)(pos) == RecordsOf(short)(pos)
    {
      ParseAgrees(short, long, pos);
    }
  }

  /** A longer read of a directory walks through the shorter one and goes on from there. */
  lemma {:induction false} WalkGoesOn(take: Taking, a: Parsing, b: Parsing, short: seq<byte>, long: seq<byte>, bs: nat, s: State, pos: nat) returns (p: nat)
    requires bs > 0 && short <= long && Agree(short, a, b) && WalkFrom(take, a, short, bs, s, pos).Ok?
    ensures p >= pos && p >= |short| && WalkFrom(take, b, long, bs, s, pos) == WalkFrom(take, b, long, bs, WalkFrom(take, a, short, bs, s, pos).value, p)
    decreases |short| - pos
  {
    if pos >= |short| {
      p := pos;
    } else if short[pos] == 0 {
      p := WalkGoesOn(take, a, b, short, long, bs, s, NextSector(pos, bs));
    } else {
      var next := take(s, pos, a(pos).value);
      p := WalkGoesOn(take, a, b, short, long, bs, next.value, pos + short[pos]);
    }
  }

  /** What was emitted stays, and keys only grow. */
  ghost predicate Keyed(dirLba: nat, s: State, pos: nat)
  {
    && (forall i :: 0 <= i < |s.out| ==> s.out[i].inode.key.0 == dirLba && s.out[i].inode.key.1 < pos)
    && (forall i, j :: 0 <= i < j < |s.out| ==> s.out[i].inode.key.1 < s.out[j].inode.key.1)
    && (s.pending.Some? ==>
          var key := s.pending.value.found.inode.key;
          key.0 == dirLba && key.1 < pos && forall i :: 0 <= i < |s.out| ==> s.out[i].inode.key.1 < key.1)
  }

  lemma {:induction false} TakeKeeps(n: Naming, dirLba: nat, s: State, pos: nat, r: Rec, next: nat)
    requires Keyed(dirLba, s, pos) && pos < next && Take(n, dirLba, s, pos, r).Ok?
    ensures Keyed(dirLba, Take(n, dirLba, s, pos, r).value, next)
    ensures s.out <= Take(n, dirLba, s, pos, r).value.out
  {
  }

  /** The entries of a walk have keys that grow, and a walk only adds to what it began with. */
  lemma {:induction false} WalkKeepsKeys(n: Naming, dirLba: nat, buf: seq<byte>, bs: nat, s: State, pos: nat)
    requires bs > 0 && Keyed(dirLba, s, pos) && WalkFrom(TakeIn(n, dirLba), RecordsOf(buf), buf, bs, s, pos).Ok?
    ensures var t := WalkFrom(TakeIn(n, dirLba), RecordsOf(buf), buf, bs, s, pos).value; s.out <= t.out && Keyed(dirLba, t, Max(pos, |buf|))
  {
    var inv := (t: State, p: nat) => s.out <= t.out && Keyed(dirLba, t, p);
    forall t, p: nat, r, q: nat {:trigger inv(t, p), TakeIn(n, dirLba)(t, p, r), inv(TakeIn(n, dirLba)(t, p, r).value, q)} |
      inv(t, p) && p < q && TakeIn(n, dirLba)(t, p, r).Ok?
      ensures inv(TakeIn(n, dirLba)(t, p, r).value, q)
    {
      TakeKeeps(n, dirLba, t, p, r, q);
    }
    WalkKeeps(TakeIn(n, dirLba), RecordsOf(buf), inv, buf, bs, s, pos);
    assert inv(WalkFrom(TakeIn(n, dirLba), RecordsOf(buf), buf, bs, s, pos).value, Max(pos, |buf|));
  }

  lemma {:induction false} WalkIsKeyed(n: Naming, dirLba: nat, buf: seq<byte>, bs: nat)
    requires bs > 0 && Walk(n, dirLba, buf, bs).Ok?
    ensures Keyed(dirLba, WalkFrom(TakeIn(n, dirLba), RecordsOf(buf), buf, bs, State([], None), 0).value, |buf|)
  {
    WalkKeepsKeys(n, dirLba, buf, bs, State([], None), 0);
  }

  /** Whatever the directory, an entry's size is the sum of its extents. */
  lemma {:induction false} WalkAddsSizes(n: Naming, dirLba: nat, buf: seq<byte>, bs: nat)
    requires bs > 0 && Walk(n, dirLba, buf, bs).Ok?
    ensures forall i :: 0 <= i < |Walk(n, dirLba, buf, bs).value| ==>
              var x := Walk(n, dirLba, buf, bs).value[i].inode; x.size == Size(x.extents)
  {
    var inv := (t: State, p: nat) => SizesAdd(t);
    forall t, p: nat, r, q: nat {:trigger inv(t, p), TakeIn(n, dirLba)(t, p, r), inv(TakeIn(n, dirLba)(t, p, r).value, q)} |
      inv(t, p) && p < q && TakeIn(n, dirLba)(t, p, r).Ok?
      ensures inv(TakeIn(n, dirLba)(t, p, r).value, q)
    {
      TakeKeepsSizes(n, dirLba, t, p, r);
    }
    WalkKeeps(TakeIn(n, dirLba), RecordsOf(buf), inv, buf, bs, State([], None), 0);
    assert inv(WalkFrom(TakeIn(n, dirLba), RecordsOf(buf), buf, bs, State([], None), 0).value, |buf|);
  }

  lemma {:induction false} ShorterIsPrefix(n: Naming, dirLba: nat, short: seq<byte>, long: seq<byte>, bs: nat)
    requires bs > 0 && short <= long && Walk(n, dirLba, short, bs).Ok? && Walk(n, dirLba, long, bs).Ok?
    ensures Walk(n, dirLba, short, bs).value <= Walk(n, dirLba, long, bs).value
  {
    var start := State([], None);
    var end := WalkFrom(TakeIn(n, dirLba), RecordsOf(short), short, bs, start, 0).value;
    BuffersAgree(short, long);
    var p := WalkGoesOn(TakeIn(n, dirLba), RecordsOf(short), RecordsOf(long), short, long, bs, start, 0);
    WalkIsKeyed(n, dirLba, short, bs);
    WalkKeepsKeys(n, dirLba, long, bs, end, p);
  }

  /** Entries with the same key are the same entry. */
  lemma {:induction false} KeyNamesEntry(n: Naming, dirLba: nat, a: seq<byte>, b: seq<byte>, bs: nat, i: nat, j: nat)
    requires bs > 0 && a <= b && Walk(n, dirLba, a, bs).Ok? && Walk(n, dirLba, b, bs).Ok?
    requires i < |Walk(n, dirLba, a, bs).value| && j < |Walk(n, dirLba, b, bs).value|
    requires Walk(n, dirLba, a, bs).value[i].inode.key == Walk(n, dirLba, b, bs).value[j].inode.key
    ensures Walk(n, dirLba, a, bs).value[i] == Walk(n, dirLba, b, bs).value[j]
  {
    ShorterIsPrefix(n, dirLba, a, b, bs);
    WalkIsKeyed(n, dirLba, b, bs);
  }
}
