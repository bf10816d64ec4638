/** The shepherd's fs-verity Merkle tree (`crates/lamfold/src/verity.rs`).

    SHA-256 is a function parameter `sha` about which nothing is assumed beyond its
    32-byte result. Binding theorems therefore never say "the inputs are equal": they
    say "the inputs are equal, or here are two different byte strings, both hashed by
    these very computations, with one digest". */
module Verity {
  import opened Bytes

  const HASH_LEN: nat := 32
  const SHA256_INPUT_BLOCK: nat := 64

  type Digest = d: seq<byte> | |d| == 32 witness Zeros(32)
  type Sha = seq<byte> -> Digest

  // ----- blocks, levels, root -----

  /** The salt, zero-padded to whole hash input blocks; no salt, no prefix. */
  function PaddedSalt(salt: seq<byte>): (r: seq<byte>)
    ensures |salt| <= |r| < |salt| + SHA256_INPUT_BLOCK
    ensures |r| % SHA256_INPUT_BLOCK == 0 && salt <= r
  {
    var rem := |salt| % SHA256_INPUT_BLOCK;
    if rem == 0 then salt else salt + Zeros(SHA256_INPUT_BLOCK - rem)
  }

  /** What is hashed for one block: prefix, block, zeros up to the block size. */
  function BlockInput(prefix: seq<byte>, block: seq<byte>, bs: nat): seq<byte>
    requires |block| <= bs
  {
    prefix + block + Zeros(bs - |block|)
  }

  function HashBlock(sha: Sha, prefix: seq<byte>, block: seq<byte>, bs: nat): Digest
    requires |block| <= bs
  {
    sha(BlockInput(prefix, block, bs))
  }

  function FirstBlock(level: seq<byte>, bs: nat): (r: seq<byte>)
    ensures |r| <= bs
  {
    if |level| <= bs then level else level[..bs]
  }

  function RestBlocks(level: seq<byte>, bs: nat): seq<byte>
  {
    if |level| <= bs then [] else level[bs..]
  }

  /** The digests of a level's blocks, in order. */
  function LeafLayer(sha: Sha, prefix: seq<byte>, level: seq<byte>, bs: nat): seq<Digest>
    requires bs > 0
    decreases |level|
  {
    if level == [] then []
    else [HashBlock(sha, prefix, FirstBlock(level, bs), bs)]
         + LeafLayer(sha, prefix, RestBlocks(level, bs), bs)
  }

  function Concat(ds: seq<Digest>): (r: seq<byte>)
    ensures |r| == HASH_LEN * |ds|
  {
    if ds == [] then [] else ds[0] + Concat(ds[1..])
  }

  /** The next level up. */
  function HashLevel(sha: Sha, prefix: seq<byte>, level: seq<byte>, bs: nat): seq<byte>
    requires bs > 0
  {
    Concat(LeafLayer(sha, prefix, level, bs))
  }

  lemma {:induction false} LeafLayerLength(sha: Sha, prefix: seq<byte>, level: seq<byte>, bs: nat)
    requires bs > 0
    ensures |LeafLayer(sha, prefix, level, bs)| * bs < |level| + bs
    ensures |level| <= |LeafLayer(sha, prefix, level, bs)| * bs
    ensures |level| > 0 ==> |LeafLayer(sha, prefix, level, bs)| > 0
    decreases |level|
  {
    if level != [] {
      var rest := RestBlocks(level, bs);
      LeafLayerLength(sha, prefix, rest, bs);
      var n := |LeafLayer(sha, prefix, rest, bs)|;
      assert (n + 1) * bs == n * bs + bs;
    }
  }

  /** One level up is shorter, whenever there is more than one block of at least 64 bytes. */
  lemma {:induction false} LevelShrinks(sha: Sha, prefix: seq<byte>, level: seq<byte>, bs: nat)
    requires bs >= 64 && |level| > bs
    ensures 0 < |HashLevel(sha, prefix, level, bs)| < |level|
  {
    LeafLayerLength(sha, prefix, level, bs);
    var n := |LeafLayer(sha, prefix, level, bs)|;
    assert 64 * n <= n * bs;
  }

  /** The level-by-level climb of `merkle_root` stops for every input exactly when a block
      holds at least two digests: with smaller blocks a level of more than one block is
      followed by one at least as long, so the climb never reaches a single block. */
  lemma {:induction false} ClimbStopsIffTwoDigestsFit(sha: Sha, prefix: seq<byte>, bs: nat)
    requires bs > 0
    ensures bs >= 64 ==> forall level: seq<byte> | |level| > bs ::
                           |HashLevel(sha, prefix, level, bs)| < |level|
    ensures bs <= 32 ==> forall level: seq<byte> | |level| > bs ::
                           |HashLevel(sha, prefix, level, bs)| >= |level| > bs
  {
    forall level: seq<byte> | |level| > bs
      ensures bs >= 64 ==> |HashLevel(sha, prefix, level, bs)| < |level|
      ensures bs <= 32 ==> |HashLevel(sha, prefix, level, bs)| >= |level|
    {
      if bs >= 64 { LevelShrinks(sha, prefix, level, bs); }
      if bs <= 32 {
        LeafLayerLength(sha, prefix, level, bs);
        var n := |LeafLayer(sha, prefix, level, bs)|;
        assert n * bs <= n * 32;
      }
    }
  }

  function RootOf(sha: Sha, prefix: seq<byte>, level: seq<byte>, bs: nat): Digest
    requires bs >= 64
    decreases |level|
  {
    if |level| <= bs then HashBlock(sha, prefix, level, bs)
    else
      LevelShrinks(sha, prefix, level, bs);
      RootOf(sha, prefix, HashLevel(sha, prefix, level, bs), bs)
  }

  function MerkleRoot(sha: Sha, data: seq<byte>, bs: nat, prefix: seq<byte>): Digest
    requires bs >= 64
  {
    if data == [] then Zeros(HASH_LEN) else RootOf(sha, prefix, data, bs)
  }

  // ----- the loops -----

  /** `padded_salt`. */
  method ComputePaddedSalt(salt: seq<byte>) returns (v: seq<byte>)
    ensures v == PaddedSalt(salt)
  {
    if |salt| == 0 { return []; }
    v := salt;
    var rem := |v| % SHA256_INPUT_BLOCK;
    if rem != 0 {
      v := v + Zeros(SHA256_INPUT_BLOCK - rem);
    }
  }

  /** `hash_block`: the hasher is fed the prefix, the block, then zeros in pieces of at
      most 64 bytes; `fed` is what it has absorbed so far. */
  method ComputeHashBlock(sha: Sha, prefix: seq<byte>, block: seq<byte>, bs: nat) returns (d: Digest)
    requires |block| <= bs
    ensures d == HashBlock(sha, prefix, block, bs)
  {
    var fed := prefix + block;
    var pad := bs - |block|;
    while pad > 0
      invariant 0 <= pad <= bs - |block|
      invariant fed == prefix + block + Zeros(bs - |block| - pad)
    {
      var n := Min(pad, SHA256_INPUT_BLOCK);
      fed := fed + Zeros(n);
      pad := pad - n;
    }
    d := sha(fed);
  }

  ghost function From(level: seq<byte>, start: nat): seq<byte>
  {
    if start < |level| then level[start..] else []
  }

  /** Hashing the block at `start` moves one digest from the layer still due to `done`. */
  lemma {:induction false} HashOneMore(sha: Sha, prefix: seq<byte>, level: seq<byte>, done: seq<Digest>, start: nat, bs: nat)
    requires bs > 0 && start < |level|
    ensures done + LeafLayer(sha, prefix, From(level, start), bs)
            == done + [HashBlock(sha, prefix, level[start..Min(start + bs, |level|)], bs)]
               + LeafLayer(sha, prefix, From(level, start + bs), bs)
  {
    var here := From(level, start);
    assert FirstBlock(here, bs) == level[start..Min(start + bs, |level|)];
    assert RestBlocks(here, bs) == From(level, start + bs);
  }

  lemma {:induction false} BlockStartInside(i: nat, n: nat, bs: nat)
    requires bs > 0
    ensures i < CeilDiv(n, bs) <==> i * bs < n
  {
    var q := CeilDiv(n, bs);
    CeilDivBounds(n, bs);
    if i < q {
      MulMonotone(bs, i + 1, q);
      NextMultiple(i, bs);
    } else {
      MulMonotone(bs, q, i);
    }
  }

  /** `done` holds the digests of the blocks before `start`. */
  ghost predicate HashedUpTo(sha: Sha, prefix: seq<byte>, level: seq<byte>, bs: nat, done: seq<Digest>, start: nat)
    requires bs > 0
  {
    done + LeafLayer(sha, prefix, From(level, start), bs) == LeafLayer(sha, prefix, level, bs)
  }

  lemma {:induction false} HashedNone(sha: Sha, prefix: seq<byte>, level: seq<byte>, bs: nat)
    requires bs > 0
    ensures HashedUpTo(sha, prefix, level, bs, [], 0)
  {
    assert From(level, 0) == level;
    assert [] + LeafLayer(sha, prefix, level, bs) == LeafLayer(sha, prefix, level, bs);
  }

  lemma {:induction false} HashedNext(sha: Sha, prefix: seq<byte>, level: seq<byte>, bs: nat, done: seq<Digest>, start: nat, d: Digest)
    requires bs > 0 && start < |level| && HashedUpTo(sha, prefix, level, bs, done, start)
    requires d == HashBlock(sha, prefix, level[start..Min(start + bs, |level|)], bs)
    ensures HashedUpTo(sha, prefix, level, bs, done + [d], start + bs)
  {
    HashOneMore(sha, prefix, level, done, start, bs);
  }

  lemma {:induction false} HashedAll(sha: Sha, prefix: seq<byte>, level: seq<byte>, bs: nat, done: seq<Digest>, start: nat)
    requires bs > 0 && start >= |level| && HashedUpTo(sha, prefix, level, bs, done, start)
    ensures done == LeafLayer(sha, prefix, level, bs)
  {
    assert done + [] == done;
  }

  /** The digest of block `i`, which starts at `start`. */
  method ComputeBlockDigest(sha: Sha, prefix: seq<byte>, level: seq<byte>, bs: nat, i: nat, ghost start: nat) returns (d: Digest)
    requires bs > 0 && i < CeilDiv(|level|, bs) && start == i * bs
    ensures start < |level| && d == HashBlock(sha, prefix, level[start..Min(start + bs, |level|)], bs)
  {
    BlockStartInside(i, |level|, bs);
    var end := Min(i * bs + bs, |level|);
    d := ComputeHashBlock(sha, prefix, level[i * bs..end], bs);
  }

  /** The loop of one level: `i` blocks are hashed, up to `due`, into `done` and `next`. */
  ghost predicate LevelSoFar(sha: Sha, prefix: seq<byte>, level: seq<byte>, bs: nat, done: seq<Digest>, next: seq<byte>, i: nat, due: nat)
    requires bs > 0
  {
    due == i * bs && next == Concat(done) && HashedUpTo(sha, prefix, level, bs, done, due)
  }

  lemma {:induction false} LevelNext(sha: Sha, prefix: seq<byte>, level: seq<byte>, bs: nat, done: seq<Digest>, next: seq<byte>, i: nat, due: nat, d: Digest)
    requires bs > 0 && due < |level| && LevelSoFar(sha, prefix, level, bs, done, next, i, due)
    requires d == HashBlock(sha, prefix, level[due..Min(due + bs, |level|)], bs)
    ensures LevelSoFar(sha, prefix, level, bs, done + [d], next + d, i + 1, due + bs)
  {
    HashedNext(sha, prefix, level, bs, done, due, d);
    NextMultiple(i, bs);
    ConcatAppend(done, d);
  }

  lemma {:induction false} LevelDone(sha: Sha, prefix: seq<byte>, level: seq<byte>, bs: nat, done: seq<Digest>, next: seq<byte>, blocks: nat, due: nat)
    requires bs > 0 && blocks == CeilDiv(|level|, bs) && LevelSoFar(sha, prefix, level, bs, done, next, blocks, due)
    ensures next == HashLevel(sha, prefix, level, bs)
  {
    BlockStartInside(blocks, |level|, bs);
    HashedAll(sha, prefix, level, bs, done, due);
  }

  /** One turn of the outer loop of `merkle_root`. */
  method ComputeHashLevel(sha: Sha, prefix: seq<byte>, level: seq<byte>, bs: nat)
    returns (next: seq<byte>)
    requires bs > 0
    ensures next == HashLevel(sha, prefix, level, bs)
  {
    var nblocks := CeilDiv(|level|, bs);
    next := [];
    ghost var done: seq<Digest>, due := [], 0;
    HashedNone(sha, prefix, level, bs);
    for i := 0 to nblocks
      invariant LevelSoFar(sha, prefix, level, bs, done, next, i, due)
    {
      var d := ComputeBlockDigest(sha, prefix, level, bs, i, due);
      LevelNext(sha, prefix, level, bs, done, next, i, due, d);
      done, due := done + [d], due + bs;
      next := next + d;
    }
    LevelDone(sha, prefix, level, bs, done, next, nblocks, due);
  }

  lemma {:induction false} ConcatAppend(ds: seq<Digest>, d: Digest)
    ensures Concat(ds + [d]) == Concat(ds) + d
  {
    if ds == [] {
      assert [d][1..] == [];
    } else {
      ConcatAppend(ds[1..], d);
      assert (ds + [d])[1..] == ds[1..] + [d];
    }
  }

  /** `merkle_root`. */
  method ComputeMerkleRoot(sha: Sha, data: seq<byte>, bs: nat, prefix: seq<byte>)
    returns (root: Digest)
    requires bs >= 64
    ensures root == MerkleRoot(sha, data, bs, prefix)
  {
    if |data| == 0 { return Zeros(HASH_LEN); }
    var level := data;
    while |level| > bs
      invariant RootOf(sha, prefix, level, bs) == MerkleRoot(sha, data, bs, prefix)
      decreases |level|
    {
      LevelShrinks(sha, prefix, level, bs);
      level := ComputeHashLevel(sha, prefix, level, bs);
    }
    root := ComputeHashBlock(sha, prefix, level, bs);
  }

  // ----- the measurement -----

  /** `struct fsverity_descriptor`: 256 bytes; the salt length is cut to a byte and at
      most 32 salt bytes are stored. */
  function Descriptor(size: nat, root: Digest, blockLog: nat, salt: seq<byte>): (r: seq<byte>)
    requires size < U64 && blockLog < 64
    ensures |r| == 256
  {
    [1, 1, blockLog, |salt| % 256] + Zeros(4) + Put64(size) + (root + Zeros(32))
    + SaltField(salt) + Zeros(144)
  }

  /** The descriptor's 32-byte salt field. */
  function SaltField(salt: seq<byte>): (r: seq<byte>)
    ensures |r| == 32
  {
    var sl := Min(|salt|, 32);
    salt[..sl] + Zeros(32 - sl)
  }

  /** `fsverity_digest_sha256`. A level of 64-byte blocks holds two digests, so `blockLog`
      is at least 6 (see `ClimbStopsIffTwoDigestsFit`). */
  function FsverityDigest(sha: Sha, data: seq<byte>, blockLog: nat, salt: seq<byte>): Digest
    requires |data| < U64 && 6 <= blockLog < 64
  {
    sha(MeasuredDescriptor(sha, data, blockLog, salt))
  }

  function BlockBytes(blockLog: nat): (bs: nat)
    requires blockLog >= 6
    ensures bs >= 64
  {
    Pow2Monotone(6, blockLog);
    assert Pow2(6) == 64;
    Pow2(blockLog)
  }

  function MeasuredDescriptor(sha: Sha, data: seq<byte>, blockLog: nat, salt: seq<byte>): seq<byte>
    requires |data| < U64 && 6 <= blockLog < 64
  {
    Descriptor(|data|, MerkleRoot(sha, data, BlockBytes(blockLog), PaddedSalt(salt)), blockLog, salt)
  }

  // ----- everything a measurement hashes -----

  ghost function LevelInputs(prefix: seq<byte>, level: seq<byte>, bs: nat): set<seq<byte>>
    requires bs > 0
    decreases |level|
  {
    if level == [] then {}
    else {BlockInput(prefix, FirstBlock(level, bs), bs)} + LevelInputs(prefix, RestBlocks(level, bs), bs)
  }

  ghost function RootInputs(sha: Sha, prefix: seq<byte>, level: seq<byte>, bs: nat): set<seq<byte>>
    requires bs >= 64
    decreases |level|
  {
    if |level| <= bs then {BlockInput(prefix, level, bs)}
    else
      LevelShrinks(sha, prefix, level, bs);
      LevelInputs(prefix, level, bs) + RootInputs(sha, prefix, HashLevel(sha, prefix, level, bs), bs)
  }

  ghost function MeasurementInputs(sha: Sha, data: seq<byte>, blockLog: nat, salt: seq<byte>): set<seq<byte>>
    requires |data| < U64 && 6 <= blockLog < 64
  {
    {MeasuredDescriptor(sha, data, blockLog, salt)}
    + if data == [] then {} else RootInputs(sha, PaddedSalt(salt), data, BlockBytes(blockLog))
  }

  /** `x`, hashed on one side, and `y`, hashed on the other, differ and share a digest. */
  ghost predicate Collision(sha: Sha, x: seq<byte>, xs: set<seq<byte>>, y: seq<byte>, ys: set<seq<byte>>)
  {
    x in xs && y in ys && x != y && sha(x) == sha(y)
  }

  // ----- binding -----

  lemma {:induction false} BlockInputInjective(p: seq<byte>, a: seq<byte>, q: seq<byte>, b: seq<byte>, bs: nat)
    requires |a| == |b| <= bs && BlockInput(p, a, bs) == BlockInput(q, b, bs)
    ensures p == q && a == b
  {
    var x, y := BlockInput(p, a, bs), BlockInput(q, b, bs);
    assert |x| == |p| + bs && |y| == |q| + bs;
    assert p == x[..|p|] && q == y[..|q|];
    assert a == x[|p|..|p| + |a|] && b == y[|q|..|q| + |b|];
  }

  lemma {:induction false} LeafLayerSameLength(sha: Sha, p: seq<byte>, a: seq<byte>, q: seq<byte>, b: seq<byte>, bs: nat)
    requires bs > 0 && |a| == |b|
    ensures |LeafLayer(sha, p, a, bs)| == |LeafLayer(sha, q, b, bs)|
    decreases |a|
  {
    if a != [] {
      LeafLayerSameLength(sha, p, RestBlocks(a, bs), q, RestBlocks(b, bs), bs);
    }
  }

  /** Equal leaf layers over different content: some block pair collides. */
  lemma {:induction false} LevelBinds(sha: Sha, p: seq<byte>, a: seq<byte>, q: seq<byte>, b: seq<byte>, bs: nat)
    returns (x: seq<byte>, y: seq<byte>)
    requires bs > 0 && |a| == |b| > 0 && (p != q || a != b)
    requires LeafLayer(sha, p, a, bs) == LeafLayer(sha, q, b, bs)
    ensures Collision(sha, x, LevelInputs(p, a, bs), y, LevelInputs(q, b, bs))
    decreases |a|
  {
    var fa, fb := FirstBlock(a, bs), FirstBlock(b, bs);
    var ra, rb := RestBlocks(a, bs), RestBlocks(b, bs);
    var la, lb := LeafLayer(sha, p, a, bs), LeafLayer(sha, q, b, bs);
    x, y := BlockInput(p, fa, bs), BlockInput(q, fb, bs);
    assert sha(x) == la[0] == lb[0] == sha(y);
    if x == y {
      BlockInputInjective(p, fa, q, fb, bs);
      assert a == fa + ra && b == fb + rb;
      assert LeafLayer(sha, p, ra, bs) == la[1..] == lb[1..] == LeafLayer(sha, q, rb, bs);
      x, y := LevelBinds(sha, p, ra, q, rb, bs);
    }
  }

  lemma {:induction false} ConcatInjective(a: seq<Digest>, b: seq<Digest>)
    requires |a| == |b| && Concat(a) == Concat(b)
    ensures a == b
  {
    if a != [] {
      assert a[0] == Concat(a)[..32] && b[0] == Concat(b)[..32];
      assert Concat(a[1..]) == Concat(a)[32..] && Concat(b[1..]) == Concat(b)[32..];
      ConcatInjective(a[1..], b[1..]);
      assert a == [a[0]] + a[1..] && b == [b[0]] + b[1..];
    }
  }

  /** Equal roots over different content of one length: a collision at some level. */
  lemma {:induction false} RootBinds(sha: Sha, p: seq<byte>, a: seq<byte>, q: seq<byte>, b: seq<byte>, bs: nat)
    returns (x: seq<byte>, y: seq<byte>)
    requires bs >= 64 && |a| == |b| > 0 && (p != q || a != b)
    requires RootOf(sha, p, a, bs) == RootOf(sha, q, b, bs)
    ensures Collision(sha, x, RootInputs(sha, p, a, bs), y, RootInputs(sha, q, b, bs))
    decreases |a|
  {
    if |a| <= bs {
      x, y := BlockInput(p, a, bs), BlockInput(q, b, bs);
      if x == y { BlockInputInjective(p, a, q, b, bs); }
    } else {
      var la, lb := LeafLayer(sha, p, a, bs), LeafLayer(sha, q, b, bs);
      if la == lb {
        x, y := LevelBinds(sha, p, a, q, b, bs);
      } else {
        LeafLayerSameLength(sha, p, a, q, b, bs);
        LevelShrinks(sha, p, a, bs);
        if Concat(la) == Concat(lb) { ConcatInjective(la, lb); }
        x, y := RootBinds(sha, p, Concat(la), q, Concat(lb), bs);
      }
    }
  }

  /** Salts of the same length modulo 256 have different padded forms when they differ. */
  lemma {:induction false} PaddedSaltInjective(s: seq<byte>, t: seq<byte>)
    requires |s| % 256 == |t| % 256 && PaddedSalt(s) == PaddedSalt(t)
    ensures s == t
  {
    assert |s| == |t|;
    assert s == PaddedSalt(s)[..|s|] && t == PaddedSalt(t)[..|t|];
  }

  /** The fields the descriptor gives back. */
  lemma {:induction false} DescriptorFields(size: nat, root: Digest, blockLog: nat, salt: seq<byte>)
    requires size < U64 && blockLog < 64
    ensures var d := Descriptor(size, root, blockLog, salt);
            && d[2] == blockLog && d[3] == |salt| % 256 && d[8..16] == Put64(size)
            && d[16..48] == root && d[80..112] == SaltField(salt)
  {
    var a: seq<byte> := [1, 1, blockLog, |salt| % 256] + Zeros(4);
    var b := Put64(size);
    var c := root + Zeros(32);
    var e := SaltField(salt);
    var d := Descriptor(size, root, blockLog, salt);
    assert d == a + b + c + e + Zeros(144);
    assert d[8..16] == b;
    assert d[16..80] == c;
    assert d[16..48] == c[..32] == root;
    assert d[80..112] == e;
  }

  /** What the measurement identifies: data, block size, and the salt as the descriptor
      stores it; the whole salt as soon as there is a block to prefix it to. */
  ghost predicate SameMeasured(d1: seq<byte>, l1: nat, s1: seq<byte>, d2: seq<byte>, l2: nat, s2: seq<byte>)
  {
    && d1 == d2 && l1 == l2
    && |s1| % 256 == |s2| % 256 && SaltField(s1) == SaltField(s2)
    && (d1 == [] || s1 == s2)
  }

  lemma {:induction false} DescriptorBinds(n1: nat, r1: Digest, l1: nat, s1: seq<byte>, n2: nat, r2: Digest, l2: nat, s2: seq<byte>)
    requires n1 < U64 && n2 < U64 && l1 < 64 && l2 < 64
    requires Descriptor(n1, r1, l1, s1) == Descriptor(n2, r2, l2, s2)
    ensures n1 == n2 && r1 == r2 && l1 == l2 && |s1| % 256 == |s2| % 256 && SaltField(s1) == SaltField(s2)
  {
    DescriptorFields(n1, r1, l1, s1);
    DescriptorFields(n2, r2, l2, s2);
    Put64Injective(n1, n2);
  }

  /** Equal measurements of inputs that are not the same as measured give, by descending
      the tree, two different hashed byte strings with one digest. */
  lemma {:induction false} MeasurementBinds(sha: Sha, d1: seq<byte>, l1: nat, s1: seq<byte>, d2: seq<byte>, l2: nat, s2: seq<byte>)
    returns (x: seq<byte>, y: seq<byte>)
    requires |d1| < U64 && 6 <= l1 < 64 && |d2| < U64 && 6 <= l2 < 64
    requires FsverityDigest(sha, d1, l1, s1) == FsverityDigest(sha, d2, l2, s2)
    requires !SameMeasured(d1, l1, s1, d2, l2, s2)
    ensures Collision(sha, x, MeasurementInputs(sha, d1, l1, s1), y, MeasurementInputs(sha, d2, l2, s2))
  {
    x, y := MeasuredDescriptor(sha, d1, l1, s1), MeasuredDescriptor(sha, d2, l2, s2);
    if x == y {
      var p, q, bs := PaddedSalt(s1), PaddedSalt(s2), BlockBytes(l1);
      DescriptorBinds(|d1|, MerkleRoot(sha, d1, bs, p), l1, s1, |d2|, MerkleRoot(sha, d2, BlockBytes(l2), q), l2, s2);
      if d1 != [] {
        if p == q { PaddedSaltInjective(s1, s2); }
        x, y := RootBinds(sha, p, d1, q, d2, bs);
      }
    }
  }

  /** Conversely, inputs that are the same as measured have equal measurements; so, up to
      collisions, the digest identifies exactly what `SameMeasured` compares. */
  lemma {:induction false} SameMeasuredSameDigest(sha: Sha, d1: seq<byte>, l1: nat, s1: seq<byte>, d2: seq<byte>, l2: nat, s2: seq<byte>)
    requires |d1| < U64 && 6 <= l1 < 64 && |d2| < U64 && 6 <= l2 < 64
    requires SameMeasured(d1, l1, s1, d2, l2, s2)
    ensures FsverityDigest(sha, d1, l1, s1) == FsverityDigest(sha, d2, l2, s2)
  {
  }

  /** With salts of at most 32 bytes (all the descriptor has room for) nothing is lost. */
  lemma {:induction false} ShortSaltsFullyBound(d1: seq<byte>, l1: nat, s1: seq<byte>, d2: seq<byte>, l2: nat, s2: seq<byte>)
    requires |s1| <= 32 && |s2| <= 32
    ensures SameMeasured(d1, l1, s1, d2, l2, s2) <==> d1 == d2 && l1 == l2 && s1 == s2
  {
    if SameMeasured(d1, l1, s1, d2, l2, s2) {
      assert s1 == SaltField(s1)[..|s1|] && s2 == SaltField(s2)[..|s2|];
    }
  }

  /** A longer salt is not bound by the measurement of an empty file. */
  lemma {:induction false} LongSaltOfEmptyFileNotBound(sha: Sha, blockLog: nat)
    requires 6 <= blockLog < 64
    ensures var s, t := Zeros(32) + [0], Zeros(32) + [1];
            s != t && FsverityDigest(sha, [], blockLog, s) == FsverityDigest(sha, [], blockLog, t)
  {
    var s, t: seq<byte> := Zeros(32) + [0], Zeros(32) + [1];
    assert s[32] != t[32];
    assert s[..32] == Zeros(32) == t[..32];
    SameMeasuredSameDigest(sha, [], blockLog, s, [], blockLog, t);
  }

  // ----- the block verifier -----

  /** `MerkleVerifier`: the trusted leaf layer and the measurement of one file. */
  datatype MerkleVerifier = MerkleVerifier(blockSize: nat, saltPrefix: seq<byte>, leaves: seq<Digest>, measurement: Digest)

  function VerifierOver(sha: Sha, data: seq<byte>, blockLog: nat, salt: seq<byte>): MerkleVerifier
    requires |data| < U64 && 6 <= blockLog < 64
  {
    var bs, p := BlockBytes(blockLog), PaddedSalt(salt);
    MerkleVerifier(bs, p, LeafLayer(sha, p, data, bs), FsverityDigest(sha, data, blockLog, salt))
  }

  /** `fsverity_digest_sha256`, computed. */
  method ComputeFsverityDigest(sha: Sha, data: seq<byte>, blockLog: nat, salt: seq<byte>) returns (d: Digest)
    requires |data| < U64 && 6 <= blockLog < 64
    ensures d == FsverityDigest(sha, data, blockLog, salt)
  {
    var prefix := ComputePaddedSalt(salt);
    var root := ComputeMerkleRoot(sha, data, BlockBytes(blockLog), prefix);
    d := sha(Descriptor(|data|, root, blockLog, salt));
  }

  /** The loop of `MerkleVerifier::over`. */
  method ComputeLeaves(sha: Sha, data: seq<byte>, bs: nat, prefix: seq<byte>) returns (leaves: seq<Digest>)
    requires bs > 0
    ensures leaves == LeafLayer(sha, prefix, data, bs)
  {
    leaves := [];
    var i := 0;
    HashedNone(sha, prefix, data, bs);
    while i < |data|
      invariant HashedUpTo(sha, prefix, data, bs, leaves, i)
      decreases |data| - i
    {
      var end := Min(i + bs, |data|);
      var d := ComputeHashBlock(sha, prefix, data[i..end], bs);
      HashedNext(sha, prefix, data, bs, leaves, i, d);
      leaves := leaves + [d];
      i := i + bs;
    }
    HashedAll(sha, prefix, data, bs, leaves, i);
  }

  /** `MerkleVerifier::over`. */
  method Over(sha: Sha, data: seq<byte>, blockLog: nat, salt: seq<byte>) returns (v: MerkleVerifier)
    requires |data| < U64 && 6 <= blockLog < 64
    ensures v == VerifierOver(sha, data, blockLog, salt)
  {
    var bs := BlockBytes(blockLog);
    var prefix := ComputePaddedSalt(salt);
    var leaves := ComputeLeaves(sha, data, bs, prefix);
    var m := ComputeFsverityDigest(sha, data, blockLog, salt);
    v := MerkleVerifier(bs, prefix, leaves, m);
  }

  /** The verifier's leaves are the tree's first level: they are what `merkle_root` climbs
      from, so the leaves and the rest of the measurement agree. */
  lemma {:induction false} LeavesAreFirstLevel(sha: Sha, data: seq<byte>, blockLog: nat, salt: seq<byte>)
    requires 0 < |data| < U64 && 6 <= blockLog < 64
    ensures var v := VerifierOver(sha, data, blockLog, salt);
            var root := MerkleRoot(sha, data, v.blockSize, v.saltPrefix);
            && v.measurement == sha(Descriptor(|data|, root, blockLog, salt))
            && (|data| <= v.blockSize ==> v.leaves == [root])
            && (|data| > v.blockSize ==> root == RootOf(sha, v.saltPrefix, Concat(v.leaves), v.blockSize))
  {
    var v := VerifierOver(sha, data, blockLog, salt);
    if |data| <= v.blockSize {
      assert LeafLayer(sha, v.saltPrefix, [], v.blockSize) == [];
      assert v.leaves == [HashBlock(sha, v.saltPrefix, data, v.blockSize)] + [];
    } else {
      LevelShrinks(sha, v.saltPrefix, data, v.blockSize);
    }
  }

  function VerifyAt(sha: Sha, v: MerkleVerifier, idx: nat, data: seq<byte>): Result<()>
    requires |data| <= v.blockSize
  {
    if idx >= |v.leaves| then Err(VerifyFailed)
    else if HashBlock(sha, v.saltPrefix, data, v.blockSize) == v.leaves[idx] then Ok(())
    else Err(VerifyFailed)
  }

  /** `verify_block`. A caller hands over at most one block. */
  function VerifyBlock(sha: Sha, v: MerkleVerifier, offset: nat, data: seq<byte>): Result<()>
    requires v.blockSize > 0 && |data| <= v.blockSize
  {
    if offset % v.blockSize != 0 then Err(VerifyFailed)
    else VerifyAt(sha, v, offset / v.blockSize, data)
  }

  /** `start == i * bs`, without the multiplication. */
  ghost predicate StartsBlock(i: nat, start: nat, bs: nat)
  {
    if i == 0 then start == 0 else start >= bs && StartsBlock(i - 1, start - bs, bs)
  }

  lemma {:induction false} MultipleStartsBlock(i: nat, bs: nat)
    ensures StartsBlock(i, i * bs, bs)
  {
    if i > 0 {
      MultipleStartsBlock(i - 1, bs);
      NextMultiple(i - 1, bs);
    }
  }

  /** The layer at index `i` is the digest of the block there; past the last block, nothing. */
  ghost predicate LeafIsHash(sha: Sha, prefix: seq<byte>, data: seq<byte>, bs: nat, i: nat, start: nat)
    requires bs > 0
  {
    var layer := LeafLayer(sha, prefix, data, bs);
    && (i < |layer| <==> start < |data|)
    && (start < |data| ==> layer[i] == HashBlock(sha, prefix, data[start..Min(start + bs, |data|)], bs))
  }

  lemma {:induction false} LeafAt(sha: Sha, prefix: seq<byte>, data: seq<byte>, bs: nat, i: nat, start: nat)
    requires bs > 0 && StartsBlock(i, start, bs)
    ensures LeafIsHash(sha, prefix, data, bs, i, start)
    decreases i
  {
    if i == 0 {
      assert data[0..Min(bs, |data|)] == FirstBlock(data, bs);
    } else {
      var rest := RestBlocks(data, bs);
      LeafAt(sha, prefix, rest, bs, i - 1, start - bs);
      LeafOfRest(sha, prefix, data, bs, i, start);
    }
  }

  lemma {:induction false} LeafOfRest(sha: Sha, prefix: seq<byte>, data: seq<byte>, bs: nat, i: nat, start: nat)
    requires bs > 0 && i > 0 && start >= bs
    requires LeafIsHash(sha, prefix, RestBlocks(data, bs), bs, i - 1, start - bs)
    ensures LeafIsHash(sha, prefix, data, bs, i, start)
  {
    if start < |data| { BlockOfRest(data, start, bs); }
  }

  lemma {:induction false} BlockOfRest(data: seq<byte>, start: nat, bs: nat)
    requires bs <= start < |data|
    ensures var rest := RestBlocks(data, bs);
            && start - bs < |rest|
            && rest[start - bs..Min(start, |rest|)] == data[start..Min(start + bs, |data|)]
  {
  }

  /** The genuine block at an aligned offset. */
  function GenuineBlock(data: seq<byte>, offset: nat, bs: nat): (r: seq<byte>)
    requires offset <= |data|
    ensures |r| <= bs
  {
    data[offset..Min(offset + bs, |data|)]
  }

  /** Byte `p` of the genuine data, which the last block's hash extends with zeros. */
  function GenuineByte(data: seq<byte>, p: nat): byte
  {
    if p < |data| then data[p] else 0
  }

  lemma {:induction false} DivideExact(offset: nat, bs: nat)
    requires bs > 0 && offset % bs == 0
    ensures offset / bs >= 0 && StartsBlock(offset / bs, offset, bs)
  {
    MultipleStartsBlock(offset / bs, bs);
    assert offset / bs * bs == offset;
  }

  lemma {:induction false} VerifyOnLeaves(sha: Sha, v: MerkleVerifier, data: seq<byte>, idx: nat, offset: nat, block: seq<byte>)
    requires v.blockSize > 0 && |block| <= v.blockSize
    requires v.leaves == LeafLayer(sha, v.saltPrefix, data, v.blockSize)
    requires StartsBlock(idx, offset, v.blockSize)
    ensures VerifyAt(sha, v, idx, block).Ok? <==>
              && offset < |data|
              && sha(BlockInput(v.saltPrefix, block, v.blockSize))
                 == sha(BlockInput(v.saltPrefix, GenuineBlock(data, offset, v.blockSize), v.blockSize))
  {
    LeafAt(sha, v.saltPrefix, data, v.blockSize, idx, offset);
  }

  /** A block is accepted exactly at an aligned offset inside the genuine data, where it
      hashes like the genuine block. */
  lemma {:induction false} VerifyAcceptsIff(sha: Sha, data: seq<byte>, blockLog: nat, salt: seq<byte>, offset: nat, block: seq<byte>)
    requires |data| < U64 && 6 <= blockLog < 64 && |block| <= BlockBytes(blockLog)
    ensures var v := VerifierOver(sha, data, blockLog, salt); var bs := BlockBytes(blockLog);
            VerifyBlock(sha, v, offset, block).Ok? <==>
              && offset % bs == 0 && offset < |data|
              && sha(BlockInput(v.saltPrefix, block, bs))
                 == sha(BlockInput(v.saltPrefix, GenuineBlock(data, offset, bs), bs))
  {
    var bs := BlockBytes(blockLog);
    if offset % bs == 0 {
      DivideExact(offset, bs);
      VerifyOnLeaves(sha, VerifierOver(sha, data, blockLog, salt), data, offset / bs, offset, block);
    }
  }

  /** Two blocks of one offset that are hashed as the same input agree up to zeros. */
  lemma {:induction false} SameInputSameBytes(prefix: seq<byte>, block: seq<byte>, data: seq<byte>, offset: nat, bs: nat)
    requires |block| <= bs && offset < |data|
    requires BlockInput(prefix, block, bs) == BlockInput(prefix, GenuineBlock(data, offset, bs), bs)
    ensures forall i :: 0 <= i < |block| ==> block[i] == GenuineByte(data, offset + i)
  {
    var g := GenuineBlock(data, offset, bs);
    var x, y := BlockInput(prefix, block, bs), BlockInput(prefix, g, bs);
    forall i | 0 <= i < |block|
      ensures block[i] == GenuineByte(data, offset + i)
    {
      assert block[i] == x[|prefix| + i] == y[|prefix| + i];
    }
  }

  /** What an accepted block is worth: it is the genuine one, zero-extended inside the last
      block, or it and the genuine block are two inputs with one digest. */
  lemma {:induction false} AcceptedIsGenuineOrCollides(sha: Sha, data: seq<byte>, blockLog: nat, salt: seq<byte>, offset: nat, block: seq<byte>)
    requires |data| < U64 && 6 <= blockLog < 64 && |block| <= BlockBytes(blockLog)
    requires VerifyBlock(sha, VerifierOver(sha, data, blockLog, salt), offset, block).Ok?
    ensures offset < |data|
    ensures || (forall i :: 0 <= i < |block| ==> block[i] == GenuineByte(data, offset + i))
            || CollidesWithGenuine(sha, data, blockLog, salt, offset, block)
  {
    VerifyAcceptsIff(sha, data, blockLog, salt, offset, block);
    var bs, p := BlockBytes(blockLog), PaddedSalt(salt);
    if BlockInput(p, block, bs) == BlockInput(p, GenuineBlock(data, offset, bs), bs) {
      SameInputSameBytes(p, block, data, offset, bs);
    }
  }

  /** `block` and the genuine block at `offset` are different hash inputs with one digest. */
  ghost predicate CollidesWithGenuine(sha: Sha, data: seq<byte>, blockLog: nat, salt: seq<byte>, offset: nat, block: seq<byte>)
    requires blockLog >= 6
  {
    var bs, p := BlockBytes(blockLog), PaddedSalt(salt);
    && |block| <= bs && offset < |data|
    && var x, y := BlockInput(p, block, bs), BlockInput(p, GenuineBlock(data, offset, bs), bs);
       x != y && sha(x) == sha(y)
  }
}
