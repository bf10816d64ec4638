/** Compressed streams as they are written (`crates/lamfold/src/stream.rs`): a gzip member with
    any header, Zstandard frames with skippable ones between them, and the blocks of LZ4's legacy
    format; and that each decodes to what was compressed, using up exactly its own bytes. */
module StreamForms {
  import opened Bytes
  import opened Crc32Division
  import opened Streams
  import CpioChain
  import Crc32

  // ----- output under the cap -----

  /** Chunks are taken up exactly when all of them fit under the cap. */
  lemma {:induction false} PushAllIff(out: seq<byte>, chunks: seq<seq<byte>>, k: nat, maxOut: nat)
    requires |out| <= maxOut
    ensures PushAll(out, chunks, k, maxOut)
            == if |out| + |Flat(chunks, k)| <= maxOut then Ok(out + Flat(chunks, k)) else Err(FileTooLarge)
    decreases |chunks| - k
  {
    if k >= |chunks| {
      assert out + [] == out;
    } else if |out| + |chunks[k]| <= maxOut {
      PushAllIff(out + chunks[k], chunks, k + 1, maxOut);
      Associate(out, chunks[k], Flat(chunks, k + 1));
    }
  }

  /** The decompressor yields `data` from the first `used` bytes it is given. */
  ghost predicate Decodes(c: Chunks, data: seq<byte>, used: nat)
  {
    Flat(c.chunks, 0) == data && c.end == Ok(used)
  }

  lemma {:induction false} ReadAllIff(c: Chunks, data: seq<byte>, used: nat, maxOut: nat)
    requires Decodes(c, data, used)
    ensures ReadAll(c, maxOut) == if |data| <= maxOut then Ok((data, used)) else Err(FileTooLarge)
  {
    PushAllIff([], c.chunks, 0, maxOut);
    assert [] + data == data;
  }

  // ----- gzip -----

  /** Bytes behind their length, in little-endian order. */
  datatype Sized = Sized(size: seq<byte>, bytes: seq<byte>)
  {
    predicate InTwo() { |size| == 2 && Digits(size) == |bytes| }

    predicate InFour() { |size| == 4 && Digits(size) == |bytes| }

    function All(): seq<byte> { size + bytes }
  }

  lemma {:induction false} SizedReads(x: seq<byte>, pos: nat, s: Sized)
    requires Lies(x, pos, s.All())
    ensures Lies(x, pos, s.size) && Lies(x, pos + |s.size|, s.bytes)
    ensures s.InTwo() ==> Le16(x, pos) == |s.bytes|
    ensures s.InFour() ==> Le32(x, pos) == |s.bytes|
  {
    LiesParts(x, pos, s.size, s.bytes);
    LittleEndian(x, pos);
  }

  /** The header of a member (section 2.3.1 of RFC 1952). */
  datatype Header = Header(
    text: bool, time: seq<byte>, level: byte, system: byte,
    extra: Option<Sized>, name: Option<seq<byte>>, comment: Option<seq<byte>>, check: Option<seq<byte>>)
  {
    ghost predicate Fits()
    {
      && |time| == 4 && (extra.Some? ==> extra.value.InTwo()) && (check.Some? ==> |check.value| == 2)
      && (name.Some? ==> 0 !in name.value) && (comment.Some? ==> 0 !in comment.value)
    }

    function Flags(): byte
    {
      (if text then 1 else 0) + (if check.Some? then 2 else 0) + (if extra.Some? then 4 else 0)
      + (if name.Some? then 8 else 0) + (if comment.Some? then 16 else 0)
    }
  }

  function PutExtra(extra: Option<Sized>): seq<byte>
  {
    if extra.None? then [] else extra.value.All()
  }

  function PutText(text: Option<seq<byte>>): seq<byte>
  {
    if text.None? then [] else text.value + [0]
  }

  function PutCheck(check: Option<seq<byte>>): seq<byte>
  {
    if check.None? then [] else check.value
  }

  function PutFixed(h: Header): (r: seq<byte>)
    requires h.Fits()
    ensures |r| == 10
  {
    [0x1f, 0x8b, 8, h.Flags()] + h.time + [h.level, h.system]
  }

  function PutHeader(h: Header): seq<byte>
    requires h.Fits()
  {
    PutFixed(h) + (PutExtra(h.extra) + (PutText(h.name) + (PutText(h.comment) + PutCheck(h.check))))
  }

  lemma {:induction false} FlagsRead(h: Header)
    ensures var f := h.Flags();
            && f < 0x20 && Flag(f, 2) == h.check.Some? && Flag(f, 4) == h.extra.Some?
            && Flag(f, 8) == h.name.Some? && Flag(f, 16) == h.comment.Some?
  {
  }

  lemma {:induction false} TextSkipped(x: seq<byte>, pos: nat, text: seq<byte>)
    requires Lies(x, pos, text + [0]) && 0 !in text
    ensures PastNul(x, pos) == Some(pos + |text| + 1)
    decreases |text|
  {
    var t := text + [0];
    assert x[pos] == x[pos..pos + |t|][0] == t[0];
    if text != [] {
      assert x[pos + 1..pos + 1 + |text[1..] + [0]|] == x[pos..pos + |t|][1..] == text[1..] + [0];
      TextSkipped(x, pos + 1, text[1..]);
    }
  }

  lemma {:induction false} ByteOf(x: seq<byte>, pos: nat, y: seq<byte>, i: nat)
    requires Lies(x, pos, y) && i < |y|
    ensures x[pos + i] == y[i]
  {
    assert x[pos..pos + |y|][i] == y[i];
  }

  lemma {:induction false} FixedReads(x: seq<byte>, h: Header)
    requires h.Fits() && Lies(x, 0, PutFixed(h))
    ensures |x| >= 10 && x[0] == 0x1f && x[1] == 0x8b && x[2] == 8 && x[3] < 0x20
    ensures Flag(x[3], 2) == h.check.Some? && Flag(x[3], 4) == h.extra.Some?
    ensures Flag(x[3], 8) == h.name.Some? && Flag(x[3], 16) == h.comment.Some?
  {
    var f := PutFixed(h);
    ByteOf(x, 0, f, 0);
    ByteOf(x, 0, f, 1);
    ByteOf(x, 0, f, 2);
    ByteOf(x, 0, f, 3);
    FlagsRead(h);
  }

  /** The optional fields of a header, from one place to the next. */
  ghost predicate PastExtra(x: seq<byte>, to: nat)
    requires |x| >= 10
  {
    if Flag(x[3], 4) then |x| >= 12 && 12 + Le16(x, 10) == to else to == 10
  }

  ghost predicate PastText(x: seq<byte>, bit: nat, from: nat, to: nat)
    requires |x| >= 10 && bit > 0
  {
    if Flag(x[3], bit) then PastNul(x, from) == Some(to) else to == from
  }

  ghost predicate PastCheck(x: seq<byte>, from: nat, to: nat)
    requires |x| >= 10
  {
    to == if Flag(x[3], 2) then from + 2 else from
  }

  lemma {:induction false} ExtraSkipped(x: seq<byte>, extra: Option<Sized>, to: nat)
    requires |x| >= 10 && Flag(x[3], 4) == extra.Some? && (extra.Some? ==> extra.value.InTwo())
    requires Lies(x, 10, PutExtra(extra)) && to == 10 + |PutExtra(extra)|
    ensures PastExtra(x, to)
  {
    if extra.Some? { SizedReads(x, 10, extra.value); }
  }

  lemma {:induction false} OptionalSkipped(x: seq<byte>, bit: nat, from: nat, text: Option<seq<byte>>, to: nat)
    requires |x| >= 10 && bit > 0 && Flag(x[3], bit) == text.Some? && (text.Some? ==> 0 !in text.value)
    requires Lies(x, from, PutText(text)) && to == from + |PutText(text)|
    ensures PastText(x, bit, from, to)
  {
    if text.Some? { TextSkipped(x, from, text.value); }
  }

  lemma {:induction false} FiveParts(x: seq<byte>, f: seq<byte>, e: seq<byte>, n: seq<byte>, c: seq<byte>, k: seq<byte>)
    requires Lies(x, 0, f + (e + (n + (c + k))))
    ensures Lies(x, 0, f) && Lies(x, |f|, e) && Lies(x, |f| + |e|, n) && Lies(x, |f| + |e| + |n|, c)
    ensures |f| + |e| + |n| + |c| + |k| <= |x|
  {
    LiesParts(x, 0, f, e + (n + (c + k)));
    LiesParts(x, |f|, e, n + (c + k));
    LiesParts(x, |f| + |e|, n, c + k);
    LiesParts(x, |f| + |e| + |n|, c, k);
  }

  lemma {:induction false} BodyAt(x: seq<byte>, afterExtra: nat, afterName: nat, afterComment: nat, body: nat)
    requires |x| >= 10 && x[0] == 0x1f && x[1] == 0x8b && x[2] == 8 && x[3] < 0x20
    requires PastExtra(x, afterExtra) && PastText(x, 8, afterExtra, afterName) && PastText(x, 16, afterName, afterComment)
    requires PastCheck(x, afterComment, body) && body <= |x|
    ensures GzipBody(x) == Ok(body)
  {
  }

  /** Where the optional fields of a written header end. */
  ghost predicate Places(h: Header, afterExtra: nat, afterName: nat, afterComment: nat, body: nat)
    requires h.Fits()
  {
    && afterExtra == 10 + |PutExtra(h.extra)| && afterName == afterExtra + |PutText(h.name)|
    && afterComment == afterName + |PutText(h.comment)| && body == afterComment + |PutCheck(h.check)|
  }

  lemma {:induction false} HeaderPlaces(x: seq<byte>, h: Header, afterExtra: nat, afterName: nat, afterComment: nat, body: nat)
    requires h.Fits() && Lies(x, 0, PutHeader(h)) && Places(h, afterExtra, afterName, afterComment, body)
    ensures Lies(x, 0, PutFixed(h)) && Lies(x, 10, PutExtra(h.extra))
    ensures Lies(x, afterExtra, PutText(h.name)) && Lies(x, afterName, PutText(h.comment)) && body == |PutHeader(h)| <= |x|
  {
    FiveParts(x, PutFixed(h), PutExtra(h.extra), PutText(h.name), PutText(h.comment), PutCheck(h.check));
  }

  lemma {:induction false} FieldsSkipped(x: seq<byte>, h: Header, afterExtra: nat, afterName: nat, afterComment: nat, body: nat)
    requires h.Fits() && Places(h, afterExtra, afterName, afterComment, body) && body <= |x|
    requires Lies(x, 0, PutFixed(h)) && Lies(x, 10, PutExtra(h.extra))
    requires Lies(x, afterExtra, PutText(h.name)) && Lies(x, afterName, PutText(h.comment))
    ensures GzipBody(x) == Ok(body)
  {
    FixedReads(x, h);
    ExtraSkipped(x, h.extra, afterExtra);
    OptionalSkipped(x, 8, afterExtra, h.name, afterName);
    OptionalSkipped(x, 16, afterName, h.comment, afterComment);
    BodyAt(x, afterExtra, afterName, afterComment, body);
  }

  /** Behind a written header stands the compressed data. */
  lemma {:induction false} HeaderSkipped(x: seq<byte>, h: Header)
    requires h.Fits() && Lies(x, 0, PutHeader(h))
    ensures GzipBody(x) == Ok(|PutHeader(h)|)
  {
    var afterExtra := 10 + |PutExtra(h.extra)|;
    var afterName := afterExtra + |PutText(h.name)|;
    var afterComment := afterName + |PutText(h.comment)|;
    var body := afterComment + |PutCheck(h.check)|;
    HeaderPlaces(x, h, afterExtra, afterName, afterComment, body);
    FieldsSkipped(x, h, afterExtra, afterName, afterComment, body);
  }

  /** A member's end: the checksum and the length of what was compressed. */
  ghost predicate Seals(trailer: seq<byte>, data: seq<byte>)
  {
    && |trailer| == 8 && Digits(trailer[..4]) == Crc32.Value(Complement(Remainder(Dividend(data))))
    && Digits(trailer[4..]) == |data| % 0x1_0000_0000
  }

  function PutMember(h: Header, packed: seq<byte>, trailer: seq<byte>): seq<byte>
    requires h.Fits()
  {
    PutHeader(h) + (packed + trailer)
  }

  lemma {:induction false} TrailerReads(x: seq<byte>, pos: nat, trailer: seq<byte>, data: seq<byte>)
    requires Lies(x, pos, trailer) && Seals(trailer, data)
    ensures pos + 8 <= |x| && Le32(x, pos) == CrcValue(data) && Le32(x, pos + 4) == |data| % 0x1_0000_0000
  {
    CrcIsRemainder(data);
    LittleEndian(x, pos);
    LittleEndian(x, pos + 4);
    assert x[pos..pos + 4] == trailer[..4] && x[pos + 4..pos + 8] == trailer[4..];
  }

  /** A written member decodes to what was compressed, wherever more follows it. */
  lemma {:induction false} MemberReadsBack(n: Inner, x: seq<byte>, maxOut: nat, h: Header, packed: seq<byte>, data: seq<byte>, trailer: seq<byte>)
    requires h.Fits() && Seals(trailer, data) && Lies(x, 0, PutMember(h, packed, trailer))
    requires Decodes(n.inflate(x[|PutHeader(h)|..]), data, |packed|)
    ensures Gzip(n, x, maxOut) == if |data| <= maxOut then Ok((data, |PutMember(h, packed, trailer)|)) else Err(FileTooLarge)
  {
    var at := |PutHeader(h)|;
    LiesParts(x, 0, PutHeader(h), packed + trailer);
    LiesParts(x, at, packed, trailer);
    HeaderSkipped(x, h);
    TrailerReads(x, at + |packed|, trailer, data);
    ReadAllIff(n.inflate(x[at..]), data, |packed|, maxOut);
  }

  // ----- streams in parts -----

  /** What parts `k..` give, `out` having been decoded before: everything, if it fits. */
  function Given(out: seq<byte>, parts: seq<seq<byte>>, k: nat, end: nat, maxOut: nat): Result<(seq<byte>, nat)>
  {
    if |out| + |Flat(parts, k)| <= maxOut then Ok((out + Flat(parts, k), end)) else Err(FileTooLarge)
  }

  /** A decoding loop, from its `k`th part on. */
  type Running = (nat, seq<byte>) -> Result<(seq<byte>, nat)>

  /** Turn `k` takes up a part, if it fits. */
  ghost predicate TakesUp(run: Running, k: nat, part: seq<byte>, maxOut: nat)
  {
    forall out {:trigger run(k, out)} :: |out| <= maxOut ==>
      run(k, out) == if |out| + |part| <= maxOut then run(k + 1, out + part) else Err(FileTooLarge)
  }

  /** The loop ends there with what it has. */
  ghost predicate StopsAt(run: Running, k: nat, end: nat)
  {
    forall out {:trigger run(k, out)} :: run(k, out) == Ok((out, end))
  }

  lemma {:induction false} RunGives(run: Running, parts: seq<seq<byte>>, k: nat, end: nat, out: seq<byte>, maxOut: nat)
    requires (forall k {:trigger parts[k]} :: 0 <= k < |parts| ==> TakesUp(run, k, parts[k], maxOut)) && StopsAt(run, |parts|, end)
    requires k <= |parts| && |out| <= maxOut
    ensures run(k, out) == Given(out, parts, k, end, maxOut)
    decreases |parts| - k
  {
    if k == |parts| {
      assert out + [] == out;
    } else {
      assert TakesUp(run, k, parts[k], maxOut);
      if |out| + |parts[k]| <= maxOut {
        RunGives(run, parts, k + 1, end, out + parts[k], maxOut);
        Associate(out, parts[k], Flat(parts, k + 1));
      }
    }
  }

  // ----- zstd -----

  /** A skippable frame, of one of 16 kinds, or a frame of data. */
  datatype Frame = Skippable(kind: nat, body: Sized) | Data(bytes: seq<byte>, content: seq<byte>)
  {
    ghost predicate Fits()
    {
      if Skippable? then kind < 16 && body.InFour() else [0x28, 0xb5, 0x2f, 0xfd] <= bytes
    }

    function Bytes(): seq<byte>
      requires Fits()
    {
      if Skippable? then [0x50 + kind, 0x2a, 0x4d, 0x18] + body.All() else bytes
    }

    function Content(): seq<byte> { if Skippable? then [] else content }
  }

  /** No frame of either kind starts here. */
  ghost predicate NoFrame(rest: seq<byte>)
  {
    && !([0x28, 0xb5, 0x2f, 0xfd] <= rest)
    && !(|rest| >= 8 && 0x50 <= rest[0] < 0x60 && rest[1..4] == [0x2a, 0x4d, 0x18])
  }

  /** The frame stands at `pos`, and decodes to its content, from its own bytes. */
  ghost predicate FrameOn(n: Inner, x: seq<byte>, f: Frame, pos: nat)
  {
    && f.Fits() && Lies(x, pos, f.Bytes()) && pos <= |x|
    && (f.Data? ==> Decodes(n.zstdFrame(x[pos..]), f.content, |f.bytes|))
  }

  /** Where frame `k` starts. */
  function FramePlace(frames: seq<Frame>, k: nat): nat
    requires k <= |frames|
  {
    if k == 0 then 0
    else FramePlace(frames, k - 1) + match frames[k - 1] case Skippable(_, body) => 8 + |body.bytes| case Data(bytes, _) => |bytes|
  }

  ghost predicate FrameStands(n: Inner, x: seq<byte>, frames: seq<Frame>, k: nat)
  {
    k < |frames| && FrameOn(n, x, frames[k], FramePlace(frames, k))
  }

  /** The frames stand one after another, up to `end`. */
  ghost predicate FramesOn(n: Inner, x: seq<byte>, frames: seq<Frame>, end: nat)
  {
    && (forall k {:trigger FrameStands(n, x, frames, k)} :: 0 <= k < |frames| ==> FrameStands(n, x, frames, k))
    && end == FramePlace(frames, |frames|) <= |x| && NoFrame(x[end..])
  }

  /** How many of the first `k` are of data. */
  function DataAmong(frames: seq<Frame>, k: nat): nat
    requires k <= |frames|
  {
    if k == 0 then 0 else DataAmong(frames, k - 1) + if frames[k - 1].Data? then 1 else 0
  }

  function Contents(frames: seq<Frame>): seq<seq<byte>>
  {
    seq(|frames|, k requires 0 <= k < |frames| => frames[k].Content())
  }

  lemma {:induction false} SkippableReads(x: seq<byte>, pos: nat, f: Frame)
    requires f.Skippable? && f.Fits() && Lies(x, pos, f.Bytes())
    ensures IsSkippable(x[pos..]) && 8 + Le32(x[pos..], 4) == |f.Bytes()| <= |x[pos..]|
  {
    var m, rest := [0x50 + f.kind, 0x2a, 0x4d, 0x18], x[pos..];
    assert Lies(rest, 0, m + f.body.All());
    LiesParts(rest, 0, m, f.body.All());
    SizedReads(rest, 4, f.body);
    ByteOf(rest, 0, m, 0);
    ByteOf(rest, 0, m, 1);
    ByteOf(rest, 0, m, 2);
    ByteOf(rest, 0, m, 3);
  }

  lemma {:induction false} DataFound(x: seq<byte>, pos: nat, f: Frame)
    requires f.Data? && f.Fits() && Lies(x, pos, f.Bytes())
    ensures !IsSkippable(x[pos..]) && [0x28, 0xb5, 0x2f, 0xfd] <= x[pos..]
  {
    var rest := x[pos..];
    assert rest[..|f.bytes|] == f.bytes;
    assert rest[0] == f.bytes[0] == 0x28;
  }

  lemma {:induction false} NoFrameEnds(rest: seq<byte>)
    requires NoFrame(rest)
    ensures !IsSkippable(rest) && !([0x28, 0xb5, 0x2f, 0xfd] <= rest)
  {
    if |rest| >= 8 && rest[1] == 0x2a && rest[2] == 0x4d && rest[3] == 0x18 {
      assert rest[1..4] == [0x2a, 0x4d, 0x18];
    }
  }

  lemma {:induction false} OneSkippable(n: Inner, x: seq<byte>, pos: nat, f: Frame, next: nat, out: seq<byte>, count: nat, maxOut: nat)
    requires n.Honest() && f.Skippable? && f.Fits() && Lies(x, pos, f.Bytes()) && next == pos + |f.Bytes()|
    ensures next <= |x| && ZstdFrom(n, x, pos, out, count, maxOut) == ZstdFrom(n, x, next, out, count, maxOut)
  {
    SkippableReads(x, pos, f);
  }

  lemma {:induction false} OneFrame(n: Inner, x: seq<byte>, pos: nat, f: Frame, next: nat, out: seq<byte>, count: nat, maxOut: nat)
    requires n.Honest() && f.Data? && f.Fits() && Lies(x, pos, f.bytes) && next == pos + |f.bytes| && |out| <= maxOut
    requires Decodes(n.zstdFrame(x[pos..]), f.content, |f.bytes|)
    ensures next <= |x|
    ensures ZstdFrom(n, x, pos, out, count, maxOut)
            == if |out| + |f.content| <= maxOut then ZstdFrom(n, x, next, out + f.content, count + 1, maxOut) else Err(FileTooLarge)
  {
    DataFound(x, pos, f);
    ReadAllIff(n.zstdFrame(x[pos..]), f.content, |f.bytes|, maxOut - |out|);
  }

  /** The loop from somewhere on, as a function value. */
  type Looping = (nat, seq<byte>, nat) -> Result<(seq<byte>, nat)>

  ghost predicate LoopsZstd(loop: Looping, n: Inner, x: seq<byte>, maxOut: nat)
    requires n.Honest()
  {
    forall pos: nat, out, count: nat {:trigger ZstdFrom(n, x, pos, out, count, maxOut)} :: pos <= |x| ==>
      loop(pos, out, count) == ZstdFrom(n, x, pos, out, count, maxOut)
  }

  lemma {:induction false} FramesEnd(loop: Looping, n: Inner, x: seq<byte>, pos: nat, out: seq<byte>, count: nat, maxOut: nat)
    requires n.Honest() && LoopsZstd(loop, n, x, maxOut) && pos <= |x| && NoFrame(x[pos..]) && count > 0
    ensures loop(pos, out, count) == Ok((out, pos))
  {
    NoFrameEnds(x[pos..]);
    assert ZstdFrom(n, x, pos, out, count, maxOut) == Ok((out, pos));
  }

  lemma {:induction false} FrameMoves(loop: Looping, n: Inner, x: seq<byte>, pos: nat, f: Frame, next: nat, out: seq<byte>, count: nat, counted: nat, maxOut: nat)
    requires n.Honest() && LoopsZstd(loop, n, x, maxOut) && FrameOn(n, x, f, pos) && next == pos + |f.Bytes()| && |out| <= maxOut
    requires counted == if f.Data? then count + 1 else count
    ensures loop(pos, out, count)
            == if |out| + |f.Content()| <= maxOut then loop(next, out + f.Content(), counted) else Err(FileTooLarge)
  {
    if f.Skippable? {
      OneSkippable(n, x, pos, f, next, out, count, maxOut);
      assert out + [] == out;
    } else {
      OneFrame(n, x, pos, f, next, out, count, maxOut);
    }
  }

  /** The loop, frame by frame. */
  ghost predicate RunsFrames(run: Running, loop: Looping, frames: seq<Frame>)
  {
    forall k: nat, out {:trigger run(k, out)} :: k <= |frames| ==> run(k, out) == loop(FramePlace(frames, k), out, DataAmong(frames, k))
  }

  lemma {:induction false} FrameTurn(run: Running, loop: Looping, n: Inner, x: seq<byte>, frames: seq<Frame>, k: nat, maxOut: nat)
    requires n.Honest() && LoopsZstd(loop, n, x, maxOut) && RunsFrames(run, loop, frames) && FrameStands(n, x, frames, k)
    ensures TakesUp(run, k, frames[k].Content(), maxOut)
  {
    forall out | |out| <= maxOut
      ensures run(k, out) == if |out| + |frames[k].Content()| <= maxOut then run(k + 1, out + frames[k].Content()) else Err(FileTooLarge)
    {
      FrameMoves(loop, n, x, FramePlace(frames, k), frames[k], FramePlace(frames, k + 1), out, DataAmong(frames, k), DataAmong(frames, k + 1), maxOut);
    }
  }

  lemma {:induction false} FramesStop(run: Running, loop: Looping, n: Inner, x: seq<byte>, frames: seq<Frame>, end: nat, maxOut: nat)
    requires n.Honest() && LoopsZstd(loop, n, x, maxOut) && RunsFrames(run, loop, frames)
    requires end == FramePlace(frames, |frames|) <= |x| && NoFrame(x[end..]) && DataAmong(frames, |frames|) > 0
    ensures StopsAt(run, |frames|, end)
  {
    forall out
      ensures run(|frames|, out) == Ok((out, end))
    {
      FramesEnd(loop, n, x, end, out, DataAmong(frames, |frames|), maxOut);
    }
  }

  /** Frames decode to their contents, one after another; at least one of them is of data. */
  lemma {:induction false} FramesReadBack(run: Running, loop: Looping, n: Inner, x: seq<byte>, frames: seq<Frame>, end: nat, maxOut: nat)
    requires n.Honest() && LoopsZstd(loop, n, x, maxOut) && RunsFrames(run, loop, frames)
    requires FramesOn(n, x, frames, end) && DataAmong(frames, |frames|) > 0
    ensures run(0, []) == Given([], Contents(frames), 0, end, maxOut)
  {
    var parts := Contents(frames);
    forall k {:trigger parts[k]} | 0 <= k < |parts|
      ensures TakesUp(run, k, parts[k], maxOut)
    {
      assert FrameStands(n, x, frames, k);
      FrameTurn(run, loop, n, x, frames, k, maxOut);
    }
    FramesStop(run, loop, n, x, frames, end, maxOut);
    RunGives(run, parts, 0, end, [], maxOut);
  }

  // ----- lz4 legacy -----

  /** A block of a stream; or the magic of another stream that goes on. */
  datatype Block = Again | Block(packed: Sized, content: seq<byte>)
  {
    function Length(): nat { if Again? then 4 else 4 + |packed.bytes| }

    function Content(): seq<byte> { if Again? then [] else content }
  }

  /** The decoder unpacks a block into any room that holds it. */
  ghost predicate Unpacks(n: Inner, b: seq<byte>, content: seq<byte>)
  {
    forall room: nat {:trigger n.lz4Block(b, room)} :: if |content| <= room then n.lz4Block(b, room) == Ok(content) else n.lz4Block(b, room).Err?
  }

  /** No block starts here: no size can be read, or none that a block has. */
  ghost predicate NoBlock(x: seq<byte>, pos: nat)
  {
    pos + 4 > |x| || Le32(x, pos) == 0 || (Le32(x, pos) > |x| - pos - 4 && x[pos..pos + 4] != [0x02, 0x21, 0x4c, 0x18])
  }

  ghost predicate PackedOn(n: Inner, x: seq<byte>, packed: Sized, content: seq<byte>, pos: nat)
  {
    && packed.InFour() && 0 < |packed.bytes| <= 0x80_8090 && |content| <= 0x80_0000
    && Lies(x, pos, packed.All()) && Unpacks(n, packed.bytes, content)
  }

  ghost predicate BlockOn(n: Inner, x: seq<byte>, b: Block, pos: nat)
  {
    match b
    case Again => Lies(x, pos, [0x02, 0x21, 0x4c, 0x18])
    case Block(packed, content) => PackedOn(n, x, packed, content, pos)
  }

  /** Where block `k` starts, behind the magic. */
  function BlockPlace(blocks: seq<Block>, k: nat): nat
    requires k <= |blocks|
  {
    if k == 0 then 4
    else BlockPlace(blocks, k - 1) + blocks[k - 1].Length()
  }

  ghost predicate BlockStands(n: Inner, x: seq<byte>, blocks: seq<Block>, k: nat)
  {
    k < |blocks| && BlockOn(n, x, blocks[k], BlockPlace(blocks, k))
  }

  /** The blocks stand one after another, up to `end`. */
  ghost predicate BlocksOn(n: Inner, x: seq<byte>, blocks: seq<Block>, end: nat)
  {
    && (forall k {:trigger BlockStands(n, x, blocks, k)} :: 0 <= k < |blocks| ==> BlockStands(n, x, blocks, k))
    && end == BlockPlace(blocks, |blocks|) <= |x| && NoBlock(x, end)
  }

  function Unpacked(blocks: seq<Block>): seq<seq<byte>>
  {
    seq(|blocks|, k requires 0 <= k < |blocks| => blocks[k].Content())
  }

  lemma {:induction false} SmallIsNoMagic(x: seq<byte>, pos: nat)
    requires pos + 4 <= |x| && Le32(x, pos) <= 0x80_8090
    ensures x[pos..pos + 4] != [0x02, 0x21, 0x4c, 0x18]
  {
    LeSlice(x, pos, pos + 4, 0);
    assert Le32([0x02, 0x21, 0x4c, 0x18], 0) == 0x184c_2102;
  }

  lemma {:induction false} OneBlock(n: Inner, x: seq<byte>, pos: nat, packed: Sized, content: seq<byte>, next: nat, out: seq<byte>, maxOut: nat)
    requires PackedOn(n, x, packed, content, pos) && next == pos + 4 + |packed.bytes| && |out| <= maxOut
    ensures Lz4From(n, x, pos, out, maxOut)
            == if |out| + |content| <= maxOut then Lz4From(n, x, next, out + content, maxOut) else Err(FileTooLarge)
  {
    SizedReads(x, pos, packed);
    SmallIsNoMagic(x, pos);
  }

  lemma {:induction false} OneAgain(n: Inner, x: seq<byte>, pos: nat, out: seq<byte>, maxOut: nat)
    requires Lies(x, pos, [0x02, 0x21, 0x4c, 0x18])
    ensures Lz4From(n, x, pos, out, maxOut) == Lz4From(n, x, pos + 4, out, maxOut)
  {
  }

  ghost predicate LoopsLz4(loop: (nat, seq<byte>) -> Result<(seq<byte>, nat)>, n: Inner, x: seq<byte>, maxOut: nat)
  {
    forall pos: nat, out {:trigger Lz4From(n, x, pos, out, maxOut)} :: loop(pos, out) == Lz4From(n, x, pos, out, maxOut)
  }

  lemma {:induction false} BlocksEnd(loop: Running, n: Inner, x: seq<byte>, end: nat, out: seq<byte>, maxOut: nat)
    requires LoopsLz4(loop, n, x, maxOut) && end <= |x| && NoBlock(x, end)
    ensures loop(end, out) == Ok((out, end))
  {
    if end + 4 <= |x| && Le32(x, end) == 0 { SmallIsNoMagic(x, end); }
    assert Lz4From(n, x, end, out, maxOut) == Ok((out, end));
  }

  lemma {:induction false} AgainMoves(loop: Running, n: Inner, x: seq<byte>, pos: nat, next: nat, out: seq<byte>, maxOut: nat)
    requires LoopsLz4(loop, n, x, maxOut) && Lies(x, pos, [0x02, 0x21, 0x4c, 0x18]) && next == pos + 4
    ensures loop(pos, out) == loop(next, out)
  {
    OneAgain(n, x, pos, out, maxOut);
  }

  lemma {:induction false} PackedMoves(loop: Running, n: Inner, x: seq<byte>, pos: nat, packed: Sized, content: seq<byte>, next: nat, out: seq<byte>, maxOut: nat)
    requires LoopsLz4(loop, n, x, maxOut) && PackedOn(n, x, packed, content, pos) && next == pos + 4 + |packed.bytes| && |out| <= maxOut
    ensures loop(pos, out) == if |out| + |content| <= maxOut then loop(next, out + content) else Err(FileTooLarge)
  {
    OneBlock(n, x, pos, packed, content, next, out, maxOut);
  }

  lemma {:induction false} BlockMoves(loop: Running, n: Inner, x: seq<byte>, pos: nat, b: Block, next: nat, out: seq<byte>, maxOut: nat)
    requires LoopsLz4(loop, n, x, maxOut) && BlockOn(n, x, b, pos) && next == pos + b.Length() && |out| <= maxOut
    ensures loop(pos, out) == if |out| + |b.Content()| <= maxOut then loop(next, out + b.Content()) else Err(FileTooLarge)
  {
    match b
    case Again =>
      AgainMoves(loop, n, x, pos, next, out, maxOut);
      assert out + [] == out;
    case Block(packed, content) => PackedMoves(loop, n, x, pos, packed, content, next, out, maxOut);
  }

  /** The loop, block by block. */
  ghost predicate RunsBlocks(run: Running, loop: Running, blocks: seq<Block>)
  {
    forall k: nat, out {:trigger run(k, out)} :: k <= |blocks| ==> run(k, out) == loop(BlockPlace(blocks, k), out)
  }

  lemma {:induction false} BlockTurn(run: Running, loop: Running, n: Inner, x: seq<byte>, blocks: seq<Block>, k: nat, maxOut: nat)
    requires LoopsLz4(loop, n, x, maxOut) && RunsBlocks(run, loop, blocks) && BlockStands(n, x, blocks, k)
    ensures TakesUp(run, k, blocks[k].Content(), maxOut)
  {
    forall out | |out| <= maxOut
      ensures run(k, out) == if |out| + |blocks[k].Content()| <= maxOut then run(k + 1, out + blocks[k].Content()) else Err(FileTooLarge)
    {
      BlockMoves(loop, n, x, BlockPlace(blocks, k), blocks[k], BlockPlace(blocks, k + 1), out, maxOut);
    }
  }

  lemma {:induction false} BlocksStop(run: Running, loop: Running, n: Inner, x: seq<byte>, blocks: seq<Block>, end: nat, maxOut: nat)
    requires LoopsLz4(loop, n, x, maxOut) && RunsBlocks(run, loop, blocks) && end == BlockPlace(blocks, |blocks|) <= |x| && NoBlock(x, end)
    ensures StopsAt(run, |blocks|, end)
  {
    forall out
      ensures run(|blocks|, out) == Ok((out, end))
    {
      BlocksEnd(loop, n, x, end, out, maxOut);
    }
  }

  /** Blocks decode to their contents, one after another. */
  lemma {:induction false} BlocksReadBack(run: Running, loop: Running, n: Inner, x: seq<byte>, blocks: seq<Block>, end: nat, maxOut: nat)
    requires LoopsLz4(loop, n, x, maxOut) && RunsBlocks(run, loop, blocks) && BlocksOn(n, x, blocks, end)
    ensures run(0, []) == Given([], Unpacked(blocks), 0, end, maxOut)
  {
    var parts := Unpacked(blocks);
    forall k {:trigger parts[k]} | 0 <= k < |parts|
      ensures TakesUp(run, k, parts[k], maxOut)
    {
      assert BlockStands(n, x, blocks, k);
      BlockTurn(run, loop, n, x, blocks, k, maxOut);
    }
    BlocksStop(run, loop, n, x, blocks, end, maxOut);
    RunGives(run, parts, 0, end, [], maxOut);
  }

  // ----- every stream that is written -----

  /** A compressed stream: a gzip member, Zstandard frames, a legacy LZ4 stream, or an xz or
      lzma stream, whose framing is not modelled. */
  datatype Stream =
    | Member(header: Header, packed: seq<byte>, data: seq<byte>, trailer: seq<byte>)
    | Frames(frames: seq<Frame>)
    | Blocks(blocks: seq<Block>)
    | Xz(data: seq<byte>)
    | Lzma(data: seq<byte>)
  {
    function Codec(): CpioChain.Codec
    {
      match this
      case Member(_, _, _, _) => CpioChain.Gzip
      case Frames(_) => CpioChain.Zstd
      case Blocks(_) => CpioChain.Lz4Legacy
      case Xz(_) => CpioChain.Xz
      case Lzma(_) => CpioChain.Lzma
    }

    function Content(): seq<byte>
    {
      match this
      case Member(_, _, data, _) => data
      case Frames(fs) => Flat(Contents(fs), 0)
      case Blocks(bs) => Flat(Unpacked(bs), 0)
      case Xz(data) => data
      case Lzma(data) => data
    }

    /** The input starts with it, and it ends at `end`. */
    ghost predicate Starts(n: Inner, x: seq<byte>, end: nat)
    {
      match this
      case Member(h, packed, data, trailer) =>
        && h.Fits() && Seals(trailer, data) && Lies(x, 0, PutMember(h, packed, trailer)) && end == |PutMember(h, packed, trailer)|
        && Decodes(n.inflate(x[|PutHeader(h)|..]), data, |packed|)
      case Frames(fs) => DataAmong(fs, |fs|) > 0 && FramesOn(n, x, fs, end)
      case Blocks(bs) => [0x02, 0x21, 0x4c, 0x18] <= x && BlocksOn(n, x, bs, end)
      case Xz(data) => Decodes(n.xz(x), data, end)
      case Lzma(data) => Decodes(n.lzma(x), data, end)
    }
  }

  lemma {:induction false} ZstdReadsBack(n: Inner, x: seq<byte>, frames: seq<Frame>, end: nat, maxOut: nat)
    requires n.Honest() && FramesOn(n, x, frames, end) && DataAmong(frames, |frames|) > 0
    ensures ZstdFrom(n, x, 0, [], 0, maxOut) == Given([], Contents(frames), 0, end, maxOut)
  {
    var loop := (pos: nat, out: seq<byte>, count: nat) => if pos <= |x| then ZstdFrom(n, x, pos, out, count, maxOut) else Err(Corrupt);
    var run := (k: nat, out: seq<byte>) => if k <= |frames| then loop(FramePlace(frames, k), out, DataAmong(frames, k)) else Err(Corrupt);
    assert FramePlace(frames, 0) == 0 && DataAmong(frames, 0) == 0;
    FramesReadBack(run, loop, n, x, frames, end, maxOut);
  }

  lemma {:induction false} Lz4ReadsBack(n: Inner, x: seq<byte>, blocks: seq<Block>, end: nat, maxOut: nat)
    requires BlocksOn(n, x, blocks, end)
    ensures Lz4From(n, x, 4, [], maxOut) == Given([], Unpacked(blocks), 0, end, maxOut)
  {
    var loop := (pos: nat, out: seq<byte>) => Lz4From(n, x, pos, out, maxOut);
    var run := (k: nat, out: seq<byte>) => if k <= |blocks| then loop(BlockPlace(blocks, k), out) else Err(Corrupt);
    assert BlockPlace(blocks, 0) == 4;
    BlocksReadBack(run, loop, n, x, blocks, end, maxOut);
  }

  lemma {:induction false} Lz4Dispatch(n: Inner, x: seq<byte>, maxOut: nat, r: Result<(seq<byte>, nat)>)
    requires n.Honest() && [0x02, 0x21, 0x4c, 0x18] <= x && Lz4From(n, x, 4, [], maxOut) == r
    ensures DecodeStream(n, CpioChain.Lz4Legacy, x, maxOut) == r
  {
  }

  lemma {:induction false} GivenAll(parts: seq<seq<byte>>, end: nat, maxOut: nat)
    ensures Given([], parts, 0, end, maxOut) == if |Flat(parts, 0)| <= maxOut then Ok((Flat(parts, 0), end)) else Err(FileTooLarge)
  {
    assert [] + Flat(parts, 0) == Flat(parts, 0);
  }

  lemma {:induction false} FramesDecode(n: Inner, x: seq<byte>, frames: seq<Frame>, end: nat, maxOut: nat)
    requires n.Honest() && FramesOn(n, x, frames, end) && DataAmong(frames, |frames|) > 0
    ensures DecodeStream(n, CpioChain.Zstd, x, maxOut)
            == if |Flat(Contents(frames), 0)| <= maxOut then Ok((Flat(Contents(frames), 0), end)) else Err(FileTooLarge)
  {
    ZstdReadsBack(n, x, frames, end, maxOut);
    GivenAll(Contents(frames), end, maxOut);
  }

  lemma {:induction false} BlocksDecode(n: Inner, x: seq<byte>, blocks: seq<Block>, end: nat, maxOut: nat)
    requires n.Honest() && [0x02, 0x21, 0x4c, 0x18] <= x && BlocksOn(n, x, blocks, end)
    ensures DecodeStream(n, CpioChain.Lz4Legacy, x, maxOut)
            == if |Flat(Unpacked(blocks), 0)| <= maxOut then Ok((Flat(Unpacked(blocks), 0), end)) else Err(FileTooLarge)
  {
    Lz4ReadsBack(n, x, blocks, end, maxOut);
    Lz4Dispatch(n, x, maxOut, Given([], Unpacked(blocks), 0, end, maxOut));
    GivenAll(Unpacked(blocks), end, maxOut);
  }

  /** `decode_stream` undoes writing: the content if it fits under the cap, and where the
      stream ends. */
  lemma {:induction false} StreamReadsBack(n: Inner, s: Stream, x: seq<byte>, end: nat, maxOut: nat)
    requires n.Honest() && s.Starts(n, x, end)
    ensures DecodeStream(n, s.Codec(), x, maxOut) == if |s.Content()| <= maxOut then Ok((s.Content(), end)) else Err(FileTooLarge)
  {
    match s
    case Member(h, packed, data, trailer) => MemberReadsBack(n, x, maxOut, h, packed, data, trailer);
    case Frames(fs) => FramesDecode(n, x, fs, end, maxOut);
    case Blocks(bs) => BlocksDecode(n, x, bs, end, maxOut);
    case Xz(data) => ReadAllIff(n.xz(x), data, end, maxOut);
    case Lzma(data) => ReadAllIff(n.lzma(x), data, end, maxOut);
  }
}
