/** Windowed reads. A file's logical content gives each byte position its byte, or none
    where the medium has none to give; a windowed read must return a slice of it. */
module Windows {
  import opened Bytes

  type Content = nat -> Option<byte>

  function SourceByte(src: seq<byte>, p: nat): Option<byte>
  {
    if p < |src| then Some(src[p]) else None
  }

  /** `data` is the content at `off`. */
  ghost predicate IsContent(at: Content, off: nat, data: seq<byte>)
  {
    forall q :: off <= q < off + |data| ==> at(q) == Some(data[q - off])
  }

  /** Some byte of the window is not to be had. */
  ghost predicate Unreadable(at: Content, off: nat, n: nat)
  {
    exists q :: off <= q < off + n && at(q).None?
  }

  /** What a windowed read owes its caller: all of the window, or an error when some byte of
      it is not to be had. */
  ghost predicate WindowRead(at: Content, off: nat, total: nat, r: Result<nat>, data: seq<byte>)
  {
    && (r.Ok? ==> r.value == total == |data| && IsContent(at, off, data))
    && (r.Err? && total > 0 ==> Unreadable(at, off, total))
  }

  /** The bytes `p..p + n` of a file lie in the source from `disk` on. */
  ghost predicate LiesAt(at: Content, src: seq<byte>, p: nat, n: nat, disk: nat)
  {
    forall q :: p <= q < p + n ==> at(q) == SourceByte(src, disk + (q - p))
  }

  /** `BlockSource::read_at` into `n` bytes of a buffer from `lo`: all of it or nothing. */
  method ReadInto(src: seq<byte>, off: nat, buf: array<byte>, lo: nat, n: nat) returns (ok: bool)
    requires lo + n <= buf.Length
    modifies buf
    ensures ok <==> off + n <= |src|
    ensures ok ==> buf[lo..lo + n] == src[off..off + n]
    ensures forall i :: 0 <= i < buf.Length && !(ok && lo <= i < lo + n) ==> buf[i] == old(buf[i])
  {
    ok := off + n <= |src|;
    if ok {
      forall i | 0 <= i < n {
        buf[lo + i] := src[off + i];
      }
    }
  }

  /** Zero-fill `n` bytes of a buffer from `lo`. */
  method FillZeros(buf: array<byte>, lo: nat, n: nat)
    requires lo + n <= buf.Length
    modifies buf
    ensures buf[lo..lo + n] == Zeros(n)
    ensures forall i :: 0 <= i < buf.Length && !(lo <= i < lo + n) ==> buf[i] == old(buf[i])
  {
    forall i | 0 <= i < n {
      buf[lo + i] := 0;
    }
  }

  /** Copy `data` into a buffer from `lo`. */
  method CopyInto(data: seq<byte>, buf: array<byte>, lo: nat)
    requires lo + |data| <= buf.Length
    modifies buf
    ensures buf[lo..lo + |data|] == data
    ensures forall i :: 0 <= i < buf.Length && !(lo <= i < lo + |data|) ==> buf[i] == old(buf[i])
  {
    forall i | 0 <= i < |data| {
      buf[lo + i] := data[i];
    }
  }

  /** A contiguous run, read in one go, is content, and if it cannot be read it is not. */
  lemma {:induction false} RunIsContent(at: Content, src: seq<byte>, p: nat, n: nat, disk: nat)
    requires n > 0 && LiesAt(at, src, p, n, disk)
    ensures disk + n <= |src| ==> IsContent(at, p, src[disk..disk + n])
    ensures disk + n > |src| ==> Unreadable(at, p, n)
  {
    if disk + n > |src| {
      assert at(p + n - 1) == SourceByte(src, disk + (p + n - 1 - p)) == None;
    }
  }

  lemma {:induction false} ContentExtends(at: Content, off: nat, x: seq<byte>, y: seq<byte>)
    requires IsContent(at, off, x) && IsContent(at, off + |x|, y)
    ensures IsContent(at, off, x + y)
  {
  }

  /** A buffer that holds content and, right after it, more content. */
  lemma {:induction false} BufferGrows(at: Content, off: nat, buf: array<byte>, bo: nat, n: nat)
    requires bo + n <= buf.Length
    requires IsContent(at, off, buf[..bo]) && IsContent(at, off + bo, buf[bo..bo + n])
    ensures IsContent(at, off, buf[..bo + n])
  {
    ContentExtends(at, off, buf[..bo], buf[bo..bo + n]);
    assert buf[..bo + n] == buf[..bo] + buf[bo..bo + n];
  }

  /** Any part of content is content. */
  lemma {:induction false} ContentPart(at: Content, off: nat, data: seq<byte>, lo: nat, hi: nat)
    requires lo <= hi <= |data| && IsContent(at, off, data)
    ensures IsContent(at, off + lo, data[lo..hi])
  {
  }

  /** The `n` bytes of content at `start`, when all of them can be had. */
  ghost function ContentOf(at: Content, start: nat, n: nat): (r: Option<seq<byte>>)
    ensures r.Some? ==> |r.value| == n && IsContent(at, start, r.value)
    ensures r.None? ==> Unreadable(at, start, n)
  {
    if n == 0 then Some([])
    else
      var init, last := ContentOf(at, start, n - 1), at(start + n - 1);
      if init.None? || last.None? then None else Some(init.value + [last.value])
  }

  /** Content is unique: what was read is `ContentOf`, and a failed read means there is none. */
  lemma {:induction false} ContentIsContentOf(at: Content, start: nat, data: seq<byte>)
    requires IsContent(at, start, data)
    ensures ContentOf(at, start, |data|) == Some(data)
    decreases |data|
  {
    if data != [] {
      var init := data[..|data| - 1];
      ContentIsContentOf(at, start, init);
      assert data == init + [data[|data| - 1]];
    }
  }

  lemma {:induction false} ContentIsReadable(at: Content, off: nat, x: seq<byte>)
    requires IsContent(at, off, x)
    ensures !Unreadable(at, off, |x|)
  {
  }

  lemma {:induction false} ContentIsOne(at: Content, off: nat, x: seq<byte>, y: seq<byte>)
    requires IsContent(at, off, x) && IsContent(at, off, y) && |x| == |y|
    ensures x == y
  {
    forall i | 0 <= i < |x|
      ensures x[i] == y[i]
    {
      assert at(off + i) == Some(x[off + i - off]);
    }
  }

  lemma {:induction false} UnreadableHasNoContent(at: Content, start: nat, n: nat)
    requires Unreadable(at, start, n)
    ensures ContentOf(at, start, n).None?
  {
  }

  lemma {:induction false} UnreadableInPart(at: Content, off: nat, m: nat, n: nat)
    requires Unreadable(at, off, m) || Unreadable(at, off + m, n)
    ensures Unreadable(at, off, m + n)
  {
  }

  /** However a window is cut in two, the parts read separately make up the whole. */
  lemma {:induction false} WindowsConcatenate(at: Content, off: nat, m: nat, n: nat)
    ensures var x, y := ContentOf(at, off, m), ContentOf(at, off + m, n);
            ContentOf(at, off, m + n) == if x.Some? && y.Some? then Some(x.value + y.value) else None
  {
    var x, y := ContentOf(at, off, m), ContentOf(at, off + m, n);
    if x.Some? && y.Some? {
      ContentExtends(at, off, x.value, y.value);
      ContentIsContentOf(at, off, x.value + y.value);
    } else {
      UnreadableInPart(at, off, m, n);
      UnreadableHasNoContent(at, off, m + n);
    }
  }
}
