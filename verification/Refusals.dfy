/** What the readers refuse, in terms of the bytes on the medium: the guards of
    `crates/lamfold-erofs/src/erofs.rs`, `crates/lamfold-cpio/src/cpio.rs`,
    `crates/lamfold/src/stream.rs`, `crates/lamfold-iso/src/iso9660.rs` and `rockridge.rs`, and
    `crates/lamfold-udf/src/udf.rs`. */
module Refusals {
  import opened Bytes
  import opened Parts
  import CpioArchive
  import CpioChain
  import Crc32Division
  import Erofs = ErofsDecode
  import ErofsIndex
  import ErofsVolume
  import Extents
  import Iso = IsoDirectory
  import RockRidge
  import StreamForms
  import Streams
  import UdfRecords

  // ----- EROFS -----

  /** An inode is refused only if its offset is no 64-bit number, or the medium ends within its
      header: 64 bytes if the low bit of the first byte is set, else 32. */
  lemma {:induction false} InodeRefusedIff(v: Erofs.Volume, nid: nat, off: nat)
    requires off == v.metaOff + nid * 32
    ensures ErofsVolume.InodeOf(v, nid).Err? <==>
            off >= 0x1_0000_0000_0000_0000 || off + 32 > |v.src| || (v.src[off] % 2 == 1 && off + 64 > |v.src|)
  {
    if off + 32 <= |v.src| {
      var hdr := v.src[off..off + 32];
      assert hdr[0] == v.src[off] && Le16(hdr, 0) % 2 == hdr[0] % 2;
    }
  }

  /** The map header `x` of a compressed file is refused for a size over 512 MiB, for
      fragments, inline or interlaced pclusters, and for lclusters over 1 GiB, in this order. */
  lemma {:induction false} MapRefused(v: Erofs.Volume, ino: Erofs.Inode, mh: nat, x: seq<byte>)
    requires mh % 8 == 0 && ino.inlineOff <= mh < ino.inlineOff + 8 && |x| == 8 && Lies(v.src, mh, x)
    ensures var r := Erofs.ParseMapHeader(v, ino); var special := x[7] >= 0x80 || x[4] / 8 % 8 != 0;
            && (r == Err(FileTooLarge) <==> ino.size > 0x2000_0000)
            && (r == Err(Unsupported) <==> ino.size <= 0x2000_0000 && special)
            && (r == Err(Corrupt) <==> ino.size <= 0x2000_0000 && !special && v.blkszbits + x[7] % 16 > 30)
            && (r.Ok? <==> ino.size <= 0x2000_0000 && !special && v.blkszbits + x[7] % 16 <= 30)
  {
    assert AlignUp(ino.inlineOff, 8) == mh;
    var low: int, high: int := x[4], x[5];
    AdviseBits(low, high);
    assert Le16(x, 4) == low + 256 * high;
  }

  lemma {:induction false} AdviseBits(low: int, high: int)
    ensures (low + 256 * high) / 8 % 8 == low / 8 % 8
  {
  }

  /** A compact index is refused for lclusters over 4 KiB and for packing by four bytes. */
  lemma {:induction false} CompactRefused(v: Erofs.Volume, ino: Erofs.Inode, h: Erofs.MapHeader)
    requires Erofs.ParseMapHeader(v, ino) == Ok(h) && ino.layout == 3 && (h.lcbits > 12 || !h.twoByte)
    ensures Erofs.Materialize(v, ino) == Err(Unsupported)
  {
  }

  /** A chunk table is accepted only if its format, the low half of `i_u`, has none but the
      five bits of the chunk size, which is at most 1 TiB. */
  lemma {:induction false} ChunksAcceptedIff(v: Erofs.Volume, ino: Erofs.Inode)
    ensures ErofsVolume.ChunkBits(v, ino).Ok? <==> ino.rawBlkaddr % 0x1_0000 < 0x20 && v.blkszbits + ino.rawBlkaddr % 0x20 <= 40
    ensures ErofsVolume.ChunkBits(v, ino).Ok? ==> ErofsVolume.ChunkBits(v, ino).value == v.blkszbits + ino.rawBlkaddr % 0x20
  {
    var format := ino.rawBlkaddr % 0x1_0000;
    FormatBits(format);
    FormatLow(ino.rawBlkaddr);
  }

  lemma {:induction false} FormatBits(format: nat)
    ensures format < 0x80 ==> ((format / 0x20 % 2 == 0 && format / 0x40 % 2 == 0) <==> format < 0x20)
  {
  }

  lemma {:induction false} FormatLow(u: nat)
    ensures u % 0x1_0000 % 0x20 == u % 0x20
  {
    DivUnique(u, 0x20, 0x800 * (u / 0x1_0000) + u % 0x1_0000 / 0x20);
  }

  /** A pcluster of more than 16 MiB is never decoded, nor one of an algorithm not among the
      four, nor MicroLZMA when the volume does not configure it. */
  lemma {:induction false} PclusterRefused(v: Erofs.Volume, ty: nat, algo: nat, span: seq<byte>, n: nat, prior: seq<byte>)
    requires n > 0x100_0000 || ty == 2 || (ty != 0 && (algo > 3 || (algo == 1 && v.lzmaDict.None?)))
    ensures Erofs.DecodePcluster(v, ty, algo, span, n, prior).Err?
  {
  }

  // ----- cpio -----

  /** From `pos` on a chain goes on at the first byte that is not zero: with a compressed
      stream, or with an archive if its magic stands at a multiple of four; anything else is
      refused. */
  lemma {:induction false} ChainFinds(x: seq<byte>, pos: nat, p: nat)
    requires pos <= p < |x| && x[p] != 0 && forall i :: pos <= i < p ==> x[i] == 0
    ensures CpioChain.LookAt(x, pos)
            == match CpioChain.Sniff(x[p..])
               case Some(codec) => CpioChain.Stream(codec, p)
               case None => if CpioArchive.MagicAt(x, p).Some? && p % 4 == 0 then CpioChain.Newc(p) else CpioChain.Junk
  {
    CpioChain.NextNonZeroIsNext(x, pos);
  }

  /** What is neither stream nor archive makes the whole chain fail, wherever it stands, and
      inside a compressed member so does another stream. */
  lemma {:induction false} ChainRefuses(c: CpioChain.Parts, x: seq<byte>, s: CpioChain.State, idx: nat, pos: nat)
    requires c.Progress() && c.look(x, pos) == CpioChain.LookAt(x, pos)
    ensures CpioChain.LookAt(x, pos).Junk? ==> CpioChain.Chain(c, x, s, pos) == Err(Corrupt)
    ensures CpioChain.LookAt(x, pos).Junk? || CpioChain.LookAt(x, pos).Stream? ==> CpioChain.MemberChain(c, x, idx, s.nodes, pos) == Err(Corrupt)
  {
  }

  // ----- streams -----

  lemma {:induction false} TrailerSeals(x: seq<byte>, pos: nat, out: seq<byte>)
    requires pos + 8 <= |x| && Le32(x, pos) == Streams.CrcValue(out) && Le32(x, pos + 4) == |out| % 0x1_0000_0000
    ensures StreamForms.Seals(x[pos..pos + 8], out)
  {
    Crc32Division.CrcIsRemainder(out);
    LittleEndian(x, pos);
    LittleEndian(x, pos + 4);
    assert x[pos..pos + 8][..4] == x[pos..pos + 4] && x[pos..pos + 8][4..] == x[pos + 4..pos + 8];
  }

  /** A gzip member is accepted only if it begins as one, with deflate and no reserved flag,
      and its trailer is the seal of what it decodes to. */
  lemma {:induction false} AcceptedIsSealed(n: Streams.Inner, x: seq<byte>, maxOut: nat)
    requires Streams.Gzip(n, x, maxOut).Ok?
    ensures var (out, end) := Streams.Gzip(n, x, maxOut).value;
            && 18 <= end <= |x| && x[0] == 0x1f && x[1] == 0x8b && x[2] == 8 && x[3] < 0x20
            && StreamForms.Seals(x[end - 8..end], out)
  {
    var (out, end) := Streams.Gzip(n, x, maxOut).value;
    TrailerSeals(x, end - 8, out);
  }

  /** bzip2 and lzo streams are recognised, and refused. */
  lemma {:induction false} UnsupportedStreams(n: Streams.Inner, x: seq<byte>, maxOut: nat)
    requires n.Honest()
    ensures Streams.DecodeStream(n, CpioChain.Bzip2, x, maxOut) == Streams.DecodeStream(n, CpioChain.Lzo, x, maxOut) == Err(Unsupported)
  {
  }

  // ----- ISO9660 -----

  /** Within a file of several extents only another record of it is accepted, up to 4096. */
  lemma {:induction false} GoesOnIff(n: Iso.Naming, dirLba: nat, s: Iso.State, pos: nat, r: Iso.Rec, directory: bool, more: bool)
    requires s.pending.Some? && r.fi != [0x00] && r.fi != [0x01] && Iso.Marked(r, directory, more)
    ensures Iso.Take(n, dirLba, s, pos, r).Ok?
            <==> !directory && r.fi == s.pending.value.fi && |s.pending.value.found.inode.extents| < 4096
  {
    Iso.MarksRead(r, directory, more);
  }

  /** A record that another one must follow. */
  ghost predicate Unfinished(p: Iso.Placed)
  {
    p.rec.fi != [0x00] && p.rec.fi != [0x01] && Iso.Marked(p.rec, false, true)
  }

  lemma {:induction false} EndsPending(n: Iso.Naming, dirLba: nat, s: Iso.State, rs: seq<Iso.Placed>, k: nat)
    requires k < |rs| && Unfinished(rs[|rs| - 1])
    ensures var r := Iso.Gather(Iso.TakeIn(n, dirLba), s, rs, k); r.Ok? ==> r.value.pending.Some?
    decreases |rs| - k
  {
    var next := Iso.Take(n, dirLba, s, rs[k].pos, rs[k].rec);
    if k == |rs| - 1 {
      Iso.MarksRead(rs[k].rec, false, true);
    } else if next.Ok? {
      EndsPending(n, dirLba, next.value, rs, k + 1);
    }
  }

  /** A directory that ends within a file of several extents is refused. */
  lemma {:induction false} UnfinishedRefused(n: Iso.Naming, dirLba: nat, buf: seq<byte>, bs: nat, rs: seq<Iso.Placed>)
    requires bs > 0 && Iso.Holds(Iso.RecordsOf(buf), buf, bs, 0, rs, 0) && rs != [] && Unfinished(rs[|rs| - 1])
    ensures Iso.Walk(n, dirLba, buf, bs).Err?
  {
    var s := Iso.State([], None);
    Iso.WalkGathers(Iso.TakeIn(n, dirLba), Iso.RecordsOf(buf), buf, bs, s, 0, rs, 0);
    EndsPending(n, dirLba, s, rs, 0);
  }

  // ----- Rock Ridge -----

  /** A chain of more than sixteen continuation areas is refused. */
  lemma {:induction false} LongChainRefused(src: seq<byte>, blockSize: nat, areas: seq<seq<RockRidge.Entry>>, pads: seq<seq<byte>>,
                                            ces: seq<RockRidge.Continuation>, k: nat, i: RockRidge.Info, hops: nat)
    requires RockRidge.Chained(src, blockSize, areas, pads, ces) && k <= |areas| && hops <= 16 < hops + (|areas| - k)
    ensures RockRidge.FollowChain(src, blockSize, i, RockRidge.NextIn(ces, k), hops) == Err(Corrupt)
    decreases |areas| - k
  {
    if hops < 16 {
      var after := RockRidge.AddEntries(RockRidge.Fed(i, None), areas[k]).info;
      RockRidge.AreaReads(src, blockSize, ces[k], areas[k], pads[k]);
      RockRidge.AreaFeeds(i, RockRidge.PrintEntries(areas[k], 0) + pads[k], areas[k], pads[k]);
      RockRidge.PointerReads(areas[k], RockRidge.NextIn(ces, k + 1));
      LongChainRefused(src, blockSize, areas, pads, ces, k + 1, after, hops + 1);
    }
  }

  // ----- UDF -----

  /** Descriptor `k` from `at` on names an extent of further descriptors: the two high bits of
      a length that is not zero are both set. */
  ghost predicate NamesMore(ads: seq<byte>, stride: nat, at: nat, k: nat)
    requires stride >= 8
  {
    var p := at + Room(k, stride);
    p + stride <= |ads| && Le32(ads, p) >= 0xC000_0000 && Le32(ads, p) % 0x4000_0000 != 0
  }

  lemma {:induction false} NextNames(ads: seq<byte>, stride: nat, at: nat, k: nat)
    requires stride >= 8
    ensures NamesMore(ads, stride, at, k + 1) == NamesMore(ads, stride, at + stride, k)
  {
    assert Room(k + 1, stride) == Room(k, stride) + stride;
  }

  /** A list of allocation descriptors is refused exactly when one of them names an extent of
      further descriptors. */
  lemma {:induction false} ExtentsRefusedIff(part: nat, ads: seq<byte>, stride: nat, at: nat, out: seq<Extents.Extent>)
    requires stride >= 8
    ensures UdfRecords.ExtentsFrom(part, ads, stride, at, out).Err? <==> exists k: nat {:trigger NamesMore(ads, stride, at, k)} :: NamesMore(ads, stride, at, k)
    decreases |ads| - at
  {
    if at + stride <= |ads| {
      var e := UdfRecords.ExtentAt(part, ads, stride, at);
      assert e.Err? <==> NamesMore(ads, stride, at, 0);
      if e.Ok? {
        ExtentsRefusedIff(part, ads, stride, at + stride, if e.value.Some? then out + [e.value.value] else out);
        forall k: nat | NamesMore(ads, stride, at, k)
          ensures NamesMore(ads, stride, at + stride, k - 1)
        {
          NextNames(ads, stride, at, k - 1);
        }
        forall k: nat {:trigger NamesMore(ads, stride, at + stride, k)} | NamesMore(ads, stride, at + stride, k)
          ensures NamesMore(ads, stride, at, k + 1)
        {
          NextNames(ads, stride, at, k);
        }
      }
    }
  }
}
