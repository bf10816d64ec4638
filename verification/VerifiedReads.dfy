/** Reading through a verifier (`crates/lamfold/src/verify.rs`): a file's blocks are read
    whole and accepted before a byte of them reaches the caller. */
module VerifiedReads {
  import opened Bytes
  import opened Windows

  /** A verifier: node, offset, block. */
  type Verify = (nat, nat, seq<byte>) -> Result<()>

  /** `p % bs == 0`, without the division. */
  ghost predicate Aligned(p: nat, bs: nat)
    requires bs > 0
  {
    p == 0 || (p >= bs && Aligned(p - bs, bs))
  }

  lemma {:induction false} AlignedIsMultiple(p: nat, bs: nat)
    requires bs > 0
    ensures Aligned(p, bs) <==> p % bs == 0
  {
    if p >= bs {
      AlignedIsMultiple(p - bs, bs);
      SubtractOne(p, bs);
    } else {
      DivUnique(p, bs, 0);
    }
  }

  lemma {:induction false} SubtractOne(p: nat, bs: nat)
    requires 0 < bs <= p
    ensures p % bs == (p - bs) % bs
  {
    DivBounds(p - bs, bs);
    NextMultiple((p - bs) / bs, bs);
    DivUnique(p, bs, (p - bs) / bs + 1);
  }

  /** Block starts are a whole block apart. */
  lemma {:induction false} AlignedApart(s: nat, t: nat, bs: nat)
    requires bs > 0 && Aligned(s, bs) && Aligned(t, bs) && s < t + bs
    ensures s <= t
    decreases s
  {
    if s > 0 && t > 0 { AlignedApart(s - bs, t - bs, bs); }
  }

  function BlockStart(p: nat, bs: nat): (r: nat)
    requires bs > 0
    ensures r <= p < r + bs && Aligned(r, bs)
  {
    DivBounds(p, bs);
    AlignedIsMultiple(p - p % bs, bs);
    DivUnique(p - p % bs, bs, p / bs);
    p - p % bs
  }

  /** A file as a verified read sees it. */
  datatype Guarded = Guarded(at: Content, size: nat, bs: nat, verify: Verify, node: nat)
  {
    /** The content of the block at `start`, the last one being short. */
    ghost function Block(start: nat): Option<seq<byte>>
    {
      if start < size then ContentOf(at, start, Min(bs, size - start)) else None
    }

    /** The block can be read, and the verifier accepts it. */
    ghost predicate Accepts(start: nat)
    {
      Block(start).Some? && verify(node, start, Block(start).value).Ok?
    }

    /** `b` is byte `p` of the file, in an aligned block that was accepted. */
    ghost predicate VerifiedByte(p: nat, b: byte)
      requires bs > 0
    {
      exists start: nat ::
        start <= p < Min(start + bs, size) && Aligned(start, bs) && Accepts(start) && at(p) == Some(b)
    }

    /** Every aligned block that overlaps `off..end` is accepted. */
    ghost predicate AllAccepted(off: nat, end: nat)
      requires bs > 0
    {
      forall start: nat :: Aligned(start, bs) && start < end && off < start + bs ==> Accepts(start)
    }

    /** A caller's buffer for `off..` after `done` bytes: those were verified, the rest is
        as the caller left it. */
    ghost predicate VerifiedSoFar(off: nat, was: seq<byte>, now: seq<byte>, done: nat)
      requires bs > 0
    {
      && |now| == |was| >= done
      && (forall i :: 0 <= i < done ==> VerifiedByte(off + i, now[i]))
      && (forall i :: done <= i < |now| ==> now[i] == was[i])
    }

    /** What a verified read owes its caller: success exactly when every block it touches can
        be read and is accepted, the whole window then, and verified bytes only in any case. */
    ghost predicate VerifiedRead(off: nat, end: nat, was: seq<byte>, now: seq<byte>, r: Result<nat>)
      requires bs > 0
    {
      && (r.Ok? <==> AllAccepted(off, end))
      && (r.Ok? ==> off + r.value == end && VerifiedSoFar(off, was, now, r.value))
      && exists done: nat :: off + done <= end && VerifiedSoFar(off, was, now, done)
    }

    /** The loop of a verified read, before block `start`. */
    ghost predicate Progress(off: nat, end: nat, was: seq<byte>, now: seq<byte>, produced: nat, start: nat)
      requires bs > 0
    {
      && Aligned(start, bs) && off < start + bs
      && off <= end <= Min(off + |was|, size)
      && off + produced == Min(end, Max(off, start))
      && VerifiedSoFar(off, was, now, produced)
      && AllAccepted(off, Min(start, end))
    }
  }

  /** A caller's buffer for `off..` once the part of `block` (which starts at `start`) that
      lies before `end` is copied into it. */
  function Overlay(was: seq<byte>, off: nat, end: nat, start: nat, block: seq<byte>): (r: seq<byte>)
    requires Max(off, start) <= Min(end, start + |block|) && end <= off + |was|
    ensures |r| == |was|
  {
    var lo, hi := Max(off, start), Min(end, start + |block|);
    was[..lo - off] + block[lo - start..hi - start] + was[hi - off..]
  }

  lemma {:induction false} OverlayBytes(now: seq<byte>, off: nat, end: nat, start: nat, block: seq<byte>)
    requires Max(off, start) <= Min(end, start + |block|) && end <= off + |now|
    ensures var next, lo, hi := Overlay(now, off, end, start, block), Max(off, start), Min(end, start + |block|);
            && (forall i :: 0 <= i < lo - off ==> next[i] == now[i])
            && (forall i :: lo - off <= i < hi - off ==> next[i] == block[off + i - start])
            && (forall i :: hi - off <= i < |next| ==> next[i] == now[i])
  {
  }

  /** The copy at the end of a turn of `read_at`. */
  method CopyOverlap(off: nat, end: nat, start: nat, block: seq<byte>, buf: array<byte>) returns (n: nat)
    requires Max(off, start) <= Min(end, start + |block|) && end <= off + buf.Length
    modifies buf
    ensures n == Min(end, start + |block|) - Max(off, start)
    ensures buf[..] == Overlay(old(buf[..]), off, end, start, block)
  {
    var copyStart, copyEnd := Max(off, start), Min(end, start + |block|);
    if copyEnd > copyStart {
      CopyInto(block[copyStart - start..copyEnd - start], buf, copyStart - off);
    }
    n := copyEnd - copyStart;
  }

  lemma {:induction false} ProgressStart(f: Guarded, off: nat, end: nat, was: seq<byte>)
    requires f.bs > 0 && off <= end <= Min(off + |was|, f.size)
    ensures f.Progress(off, end, was, was, 0, BlockStart(off, f.bs))
  {
    forall s: nat | Aligned(s, f.bs) && s < BlockStart(off, f.bs) && off < s + f.bs
      ensures false
    {
      AlignedApart(BlockStart(off, f.bs), s, f.bs);
    }
  }

  /** The copied part is verified where the block is. */
  lemma {:induction false} OverlayVerified(f: Guarded, off: nat, end: nat, start: nat, now: seq<byte>, block: seq<byte>, i: nat)
    requires f.bs > 0 && Aligned(start, f.bs) && f.Accepts(start) && f.Block(start) == Some(block)
    requires end <= off + |now| && Max(off, start) <= off + i < Min(end, start + |block|)
    ensures f.VerifiedByte(off + i, Overlay(now, off, end, start, block)[i])
  {
    OverlayBytes(now, off, end, start, block);
    assert f.at(off + i) == Some(block[off + i - start]);
  }

  lemma {:induction false} VerifiedFurther(f: Guarded, off: nat, end: nat, start: nat, was: seq<byte>, now: seq<byte>, done: nat, block: seq<byte>)
    requires f.bs > 0 && Aligned(start, f.bs) && f.Accepts(start) && f.Block(start) == Some(block)
    requires end <= off + |now| && off + done == Max(off, start) <= Min(end, start + |block|)
    requires f.VerifiedSoFar(off, was, now, done)
    ensures f.VerifiedSoFar(off, was, Overlay(now, off, end, start, block), Min(end, start + |block|) - off)
  {
    var hi, next := Min(end, start + |block|), Overlay(now, off, end, start, block);
    OverlayBytes(now, off, end, start, block);
    forall i | 0 <= i < hi - off
      ensures f.VerifiedByte(off + i, next[i])
    {
      if i >= done { OverlayVerified(f, off, end, start, now, block, i); }
    }
  }

  lemma {:induction false} OneMoreBlock(f: Guarded, off: nat, start: nat, end: nat)
    requires f.bs > 0 && Aligned(start, f.bs) && start < end && f.Accepts(start) && f.AllAccepted(off, start)
    ensures Aligned(start + f.bs, f.bs) && f.AllAccepted(off, Min(start + f.bs, end))
  {
    forall s: nat | Aligned(s, f.bs) && s < Min(start + f.bs, end) && off < s + f.bs
      ensures f.Accepts(s)
    {
      AlignedApart(s, start, f.bs);
    }
  }

  lemma {:induction false} ProgressStep(f: Guarded, off: nat, end: nat, was: seq<byte>, now: seq<byte>, produced: nat, start: nat, block: seq<byte>)
    requires f.bs > 0 && f.Progress(off, end, was, now, produced, start)
    requires start < end && f.Accepts(start) && f.Block(start) == Some(block)
    ensures var lo, hi := Max(off, start), Min(end, start + |block|);
            && lo <= hi
            && f.Progress(off, end, was, Overlay(now, off, end, start, block), produced + (hi - lo), start + f.bs)
  {
    VerifiedFurther(f, off, end, start, was, now, produced, block);
    OneMoreBlock(f, off, start, end);
  }

  lemma {:induction false} ProgressFails(f: Guarded, off: nat, end: nat, was: seq<byte>, now: seq<byte>, produced: nat, start: nat, e: Error)
    requires f.bs > 0 && f.Progress(off, end, was, now, produced, start)
    requires start < end && !f.Accepts(start)
    ensures f.VerifiedRead(off, end, was, now, Err(e))
  {
  }

  lemma {:induction false} ProgressEnds(f: Guarded, off: nat, end: nat, was: seq<byte>, now: seq<byte>, produced: nat, start: nat)
    requires f.bs > 0 && f.Progress(off, end, was, now, produced, start)
    requires start >= end
    ensures f.VerifiedRead(off, end, was, now, Ok(produced))
  {
  }

  /** A verified read that succeeds gives exactly the window of the content, so reads of
      adjacent windows concatenate (`WindowsConcatenate`). */
  lemma {:induction false} VerifiedReadIsContent(f: Guarded, off: nat, end: nat, was: seq<byte>, now: seq<byte>, n: nat)
    requires f.bs > 0 && f.VerifiedRead(off, end, was, now, Ok(n))
    ensures n <= |now| && off + n == end && ContentOf(f.at, off, n) == Some(now[..n])
  {
    forall q | off <= q < off + n
      ensures f.at(q) == Some(now[..n][q - off])
    {
      assert f.VerifiedByte(off + (q - off), now[q - off]);
    }
    ContentIsContentOf(f.at, off, now[..n]);
  }
}
