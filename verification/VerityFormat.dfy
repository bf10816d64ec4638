/** The fs-verity measurement, byte by byte, as the published format describes it and
    `crates/lamfold/src/verity.rs` promises to compute it: what is hashed for a block, the levels
    of the tree and the 256-byte descriptor. */
module VerityFormat {
  import opened Bytes
  import opened Verity

  // ----- blocks -----

  /** The salt before every block: in whole pieces of 64 bytes, zeros behind it; or nothing. */
  ghost predicate IsPrefix(salt: seq<byte>, p: seq<byte>)
  {
    && |p| % 64 == 0 && |salt| <= |p| < |salt| + 64
    && forall k :: 0 <= k < |p| ==> p[k] == if k < |salt| then salt[k] else 0
  }

  lemma {:induction false} PrefixIs(salt: seq<byte>)
    ensures IsPrefix(salt, PaddedSalt(salt))
  {
  }

  /** The prefix, the block, and zeros up to the block size. */
  function Hashed(p: seq<byte>, block: seq<byte>, bs: nat): seq<byte>
  {
    seq(|p| + bs, k requires 0 <= k =>
      if k < |p| then p[k] else if k - |p| < |block| then block[k - |p|] else 0)
  }

  /** What is hashed for a block is exactly that. */
  lemma {:induction false} InputIs(p: seq<byte>, block: seq<byte>, bs: nat)
    requires |block| <= bs
    ensures BlockInput(p, block, bs) == Hashed(p, block, bs)
  {
  }

  // ----- levels -----

  /** Digest `i` of a level is that of the block at `start` of the level below. */
  ghost predicate DigestAt(sha: Sha, p: seq<byte>, bs: nat, level: seq<byte>, up: seq<byte>, i: nat, start: nat)
    requires start < |level|
  {
    && 32 * i + 32 <= |up|
    && up[32 * i..32 * i + 32] == sha(Hashed(p, level[start..Min(start + bs, |level|)], bs))
  }

  /** `up` is the level above `level`: a digest a block, 32 bytes each, in order, and no more. */
  ghost predicate Above(sha: Sha, p: seq<byte>, bs: nat, level: seq<byte>, up: seq<byte>)
  {
    && |up| % 32 == 0
    && forall i: nat, start: nat {:trigger StartsBlock(i, start, bs)} :: StartsBlock(i, start, bs) ==>
         && (start < |level| ==> DigestAt(sha, p, bs, level, up, i, start))
         && (start >= |level| ==> |up| <= 32 * i)
  }

  lemma {:induction false} ConcatAt(ds: seq<Digest>, i: nat)
    requires i < |ds|
    ensures Concat(ds)[32 * i..32 * i + 32] == ds[i]
  {
    if i > 0 {
      ConcatAt(ds[1..], i - 1);
      assert Concat(ds)[32 * i..32 * i + 32] == Concat(ds[1..])[32 * (i - 1)..32 * (i - 1) + 32];
    }
  }

  lemma {:induction false} LevelIsAbove(sha: Sha, p: seq<byte>, bs: nat, level: seq<byte>)
    requires bs > 0
    ensures Above(sha, p, bs, level, HashLevel(sha, p, level, bs))
  {
    var ds := LeafLayer(sha, p, level, bs);
    forall i: nat, start: nat {:trigger StartsBlock(i, start, bs)} | StartsBlock(i, start, bs)
      ensures start < |level| ==> DigestAt(sha, p, bs, level, HashLevel(sha, p, level, bs), i, start)
      ensures start >= |level| ==> |HashLevel(sha, p, level, bs)| <= 32 * i
    {
      LeafAt(sha, p, level, bs, i, start);
      if start < |level| {
        ConcatAt(ds, i);
        InputIs(p, level[start..Min(start + bs, |level|)], bs);
      }
    }
  }

  /** The levels of a file's tree, the file itself first: each but the last is more than one
      block, and the root is the digest of the last. */
  ghost predicate IsTree(sha: Sha, p: seq<byte>, bs: nat, levels: seq<seq<byte>>, root: Digest)
  {
    && levels != []
    && (forall k {:trigger levels[k]} :: 0 <= k < |levels| - 1 ==> |levels[k]| > bs && Above(sha, p, bs, levels[k], levels[k + 1]))
    && |levels[|levels| - 1]| <= bs && root == sha(Hashed(p, levels[|levels| - 1], bs))
  }

  lemma {:induction false} RootIsTree(sha: Sha, p: seq<byte>, bs: nat, level: seq<byte>) returns (levels: seq<seq<byte>>)
    requires bs >= 64
    ensures IsTree(sha, p, bs, levels, RootOf(sha, p, level, bs)) && levels[0] == level
    decreases |level|
  {
    if |level| <= bs {
      InputIs(p, level, bs);
      levels := [level];
    } else {
      LevelShrinks(sha, p, level, bs);
      LevelIsAbove(sha, p, bs, level);
      var above := RootIsTree(sha, p, bs, HashLevel(sha, p, level, bs));
      levels := [level] + above;
    }
  }

  // ----- the descriptor -----

  /** All 256 bytes: version 1, algorithm 1 (SHA-256), the block size's logarithm, the salt's
      length, the data's size in little-endian order, the root in a field of 64 bytes, at most 32
      bytes of salt; the rest reserved. */
  ghost predicate IsDescriptor(d: seq<byte>, size: nat, root: Digest, blockLog: nat, salt: seq<byte>)
  {
    && |d| == 256
    && d[0] == 1 && d[1] == 1 && d[2] as int == blockLog && d[3] as int == |salt| % 256
    && (forall k :: 4 <= k < 8 ==> d[k] == 0)
    && Digits(d[8..16]) == size
    && d[16..48] == root
    && (forall k :: 48 <= k < 80 ==> d[k] == 0)
    && (forall k :: 80 <= k < 112 ==> d[k] == if k - 80 < |salt| then salt[k - 80] else 0)
    && (forall k :: 112 <= k < 256 ==> d[k] == 0)
  }

  lemma {:induction false} DescriptorIs(size: nat, root: Digest, blockLog: nat, salt: seq<byte>)
    requires size < U64 && blockLog < 64
    ensures IsDescriptor(Descriptor(size, root, blockLog, salt), size, root, blockLog, salt)
  {
    var d := Descriptor(size, root, blockLog, salt);
    DescriptorFields(size, root, blockLog, salt);
    LittleEndian(Put64(size), 0);
    assert Put64(size)[0..8] == Put64(size);
    assert forall k :: 80 <= k < 112 ==> d[k] == d[80..112][k - 80];
  }

  // ----- the measurement -----

  /** What `fsverity digest` prints for a file: the digest of the descriptor over the root of
      the tree, an empty file's root being zeros. */
  ghost predicate IsMeasurement(sha: Sha, data: seq<byte>, blockLog: nat, salt: seq<byte>, p: seq<byte>, levels: seq<seq<byte>>, root: Digest, d: seq<byte>, m: Digest)
  {
    && IsPrefix(salt, p)
    && (if data == [] then root == Zeros(32) else IsTree(sha, p, Pow2(blockLog), levels, root) && levels[0] == data)
    && IsDescriptor(d, |data|, root, blockLog, salt)
    && m == sha(d)
  }

  lemma {:induction false} MeasurementIs(sha: Sha, data: seq<byte>, blockLog: nat, salt: seq<byte>)
    returns (p: seq<byte>, levels: seq<seq<byte>>, root: Digest, d: seq<byte>)
    requires |data| < U64 && 6 <= blockLog < 64
    ensures IsMeasurement(sha, data, blockLog, salt, p, levels, root, d, FsverityDigest(sha, data, blockLog, salt))
  {
    var bs := BlockBytes(blockLog);
    p, levels := PaddedSalt(salt), [];
    PrefixIs(salt);
    root := MerkleRoot(sha, data, bs, p);
    d := Descriptor(|data|, root, blockLog, salt);
    DescriptorIs(|data|, root, blockLog, salt);
    if data != [] { levels := RootIsTree(sha, p, bs, data); }
  }
}
