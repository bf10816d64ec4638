/** Bytes, little-endian fields and the source a frontend reads over
    (`crates/lamfold/src/source.rs`, `error.rs`, `read_cap.rs`). */
module Bytes {

  type byte = x: int | 0 <= x < 256

  const U16: nat := 0x1_0000
  const U32: nat := 0x1_0000_0000
  const U64: nat := 0x1_0000_0000_0000_0000

  /** The error variants of `FoldError`; the static tokens they carry are left out. */
  datatype Error =
    | NotFound | NotDirectory | IsDirectory | InvalidPath | Corrupt | Unsupported
    | FileTooLarge | Decompress | VerifyFailed | Io

  datatype Result<+T> = Ok(value: T) | Err(error: Error) {
    predicate IsFailure() { Err? }

    function PropagateFailure<U>(): Result<U>
      requires Err?
    {
      Err(error)
    }

    function Extract(): T
      requires Ok?
    {
      value
    }
  }

  datatype Option<+T> = None | Some(value: T)

  /** A parse that gave `x` and goes on at `next`. */
  ghost predicate Yields<T>(r: Result<(T, nat)>, x: T, next: nat)
  {
    r.Ok? && r.value.0 == x && r.value.1 == next
  }

  function Min(a: int, b: int): int { if a <= b then a else b }

  function Max(a: int, b: int): int { if a >= b then a else b }

  function CeilDiv(a: nat, b: nat): nat
    requires b > 0
  {
    (a + b - 1) / b
  }

  lemma {:induction false} DivBounds(a: nat, b: nat)
    requires b > 0
    ensures a / b >= 0 && a / b * b <= a < a / b * b + b
  {
    assert a == a / b * b + a % b;
  }

  lemma {:induction false} CeilDivBounds(a: nat, b: nat)
    requires b > 0
    ensures CeilDiv(a, b) >= 0 && CeilDiv(a, b) * b < a + b && a <= CeilDiv(a, b) * b
  {
    DivBounds(a + b - 1, b);
  }

  lemma {:induction false} MulMonotone(a: int, b: int, c: int)
    requires a >= 0 && b <= c
    ensures a * b <= a * c && b * a <= c * a
  {
  }

  lemma {:induction false} NextMultiple(i: int, n: int)
    ensures (i + 1) * n == i * n + n
  {
  }

  lemma {:induction false} CancelFactor(x: int, y: int, b: nat)
    requires x * b < y * b
    ensures x < y
  {
    if x >= y { MulMonotone(b, y, x); }
  }

  lemma {:induction false} DivUnique(a: nat, b: nat, q: nat)
    requires q * b <= a < q * b + b
    ensures b > 0 && a / b == q
  {
    DivBounds(a, b);
    NextMultiple(q, b);
    NextMultiple(a / b, b);
    CancelFactor(q, a / b + 1, b);
    CancelFactor(a / b, q + 1, b);
  }

  lemma {:induction false} Associate<T>(a: seq<T>, b: seq<T>, c: seq<T>)
    ensures a + b + c == a + (b + c)
  {
  }

  /** A part of a slice is a slice. */
  lemma {:induction false} PartOfSlice<T>(s: seq<T>, a: nat, b: nat, x: seq<T>, lo: nat, hi: nat)
    requires a <= b <= |s| && s[a..b] == x && lo <= hi <= |x|
    ensures s[a + lo..a + hi] == x[lo..hi]
  {
    forall k | 0 <= k < hi - lo
      ensures s[a + lo..a + hi][k] == x[lo..hi][k]
    {
      assert x[lo + k] == s[a..b][lo + k];
    }
  }

  /** Parts `k..`, one after another. */
  function Flat<T>(parts: seq<seq<T>>, k: nat): seq<T>
    decreases |parts| - k
  {
    if k >= |parts| then [] else parts[k] + Flat(parts, k + 1)
  }

  /** `x` lies in `buf` at `at`. */
  ghost predicate Lies(buf: seq<byte>, at: nat, x: seq<byte>)
  {
    at + |x| <= |buf| && buf[at..at + |x|] == x
  }

  lemma {:induction false} LiesParts(buf: seq<byte>, at: nat, x: seq<byte>, y: seq<byte>)
    requires Lies(buf, at, x + y)
    ensures Lies(buf, at, x) && Lies(buf, at + |x|, y)
  {
    var z := buf[at..at + |x + y|];
    assert x == z[..|x|] == buf[at..at + |x|];
    assert y == z[|x|..] == buf[at + |x|..at + |x| + |y|];
  }

  /** The first of two runs that make up the rest of a buffer, and what is behind it. */
  lemma {:induction false} TailLies(x: seq<byte>, pos: nat, a: seq<byte>, b: seq<byte>)
    requires pos <= |x| && x[pos..] == a + b
    ensures Lies(x, pos, a) && pos + |a| <= |x| && x[pos + |a|..] == b
  {
    assert x[pos..pos + |a|] == x[pos..][..|a|];
    assert x[pos + |a|..] == x[pos..][|a|..];
  }

  /** Smallest multiple of `n` that is at least `v` (`(v + n - 1) & !(n - 1)`). */
  function AlignUp(v: nat, n: nat): nat
    requires n > 0
  {
    CeilDiv(v, n) * n
  }

  function Zeros(n: nat): (r: seq<byte>)
    ensures |r| == n && forall i :: 0 <= i < n ==> r[i] == 0
  {
    seq(n, _ => 0)
  }

  function Repeat(n: nat, b: byte): (r: seq<byte>)
    ensures |r| == n && forall i :: 0 <= i < n ==> r[i] == b
  {
    seq(n, _ => b)
  }

  function Pow2(n: nat): (r: nat)
    ensures r >= 1
  {
    if n == 0 then 1 else 2 * Pow2(n - 1)
  }

  lemma {:induction false} Pow2Monotone(a: nat, b: nat)
    requires a <= b
    ensures Pow2(a) <= Pow2(b)
    decreases b - a
  {
    if a < b { Pow2Monotone(a, b - 1); }
  }

  /** A 32-bit sum, which wraps where overflow is not trapped. */
  function Add32(a: nat, b: nat): (r: nat)
    ensures r < U32 && (a + b < U32 ==> r == a + b)
  {
    (a + b) % U32
  }

  // ----- little-endian fields -----

  function Le16(b: seq<byte>, o: nat): (r: nat)
    requires o + 2 <= |b|
    ensures r < U16
  {
    (b[o] as int) + 256 * (b[o + 1] as int)
  }

  function Le32(b: seq<byte>, o: nat): (r: nat)
    requires o + 4 <= |b|
    ensures r < U32
  {
    Le16(b, o) + U16 * Le16(b, o + 2)
  }

  function Le64(b: seq<byte>, o: nat): (r: nat)
    requires o + 8 <= |b|
    ensures r < U64
  {
    Le32(b, o) + U32 * Le32(b, o + 4)
  }

  function Put16(v: nat): (r: seq<byte>)
    requires v < U16
    ensures |r| == 2 && Le16(r, 0) == v
  {
    [v % 256, v / 256]
  }

  function Put32(v: nat): (r: seq<byte>)
    requires v < U32
    ensures |r| == 4 && Le32(r, 0) == v
  {
    Put16(v % U16) + Put16(v / U16)
  }

  function Put64(v: nat): (r: seq<byte>)
    requires v < U64
    ensures |r| == 8 && Le64(r, 0) == v
  {
    var lo, hi := Put32(v % U32), Put32(v / U32);
    var r := lo + hi;
    assert Le32(r, 0) == Le32(lo, 0);
    assert Le32(r, 4) == Le32(hi, 0);
    r
  }

  /** Bytes as the digits of a number, the lowest first. */
  function Digits(b: seq<byte>): nat
  {
    if b == [] then 0 else (b[0] as int) + 256 * Digits(b[1..])
  }

  lemma {:induction false} DigitsOfTwo(b: seq<byte>, o: nat)
    requires o + 2 <= |b|
    ensures Digits(b[o..o + 2]) == Le16(b, o)
  {
    var x := b[o..o + 2];
    assert x == [b[o], b[o + 1]] && x[1..] == [b[o + 1]] && x[1..][1..] == [];
    assert Digits(x[1..]) == b[o + 1] as int;
  }

  lemma {:induction false} DigitsJoin(a: seq<byte>, b: seq<byte>, weight: nat)
    requires (|a| == 2 && weight == U16) || (|a| == 4 && weight == U32)
    ensures Digits(a + b) == Digits(a) + weight * Digits(b)
  {
    DigitsStep(a, b);
    DigitsStep(a[1..], b);
    if |a| == 4 {
      DigitsStep(a[2..], b);
      DigitsStep(a[3..], b);
      assert a[1..][1..] == a[2..] && a[2..][1..] == a[3..] && a[3..][1..] == [];
    } else {
      assert a[1..][1..] == [];
    }
    assert [] + b == b;
  }

  lemma {:induction false} DigitsStep(a: seq<byte>, b: seq<byte>)
    requires a != []
    ensures Digits(a + b) == a[0] as int + 256 * Digits(a[1..] + b)
    ensures Digits(a) == a[0] as int + 256 * Digits(a[1..])
  {
    assert (a + b)[1..] == a[1..] + b;
  }

  /** The fields are those digits. */
  lemma {:induction false} LittleEndian(b: seq<byte>, o: nat)
    ensures o + 2 <= |b| ==> Le16(b, o) == Digits(b[o..o + 2])
    ensures o + 4 <= |b| ==> Le32(b, o) == Digits(b[o..o + 4])
    ensures o + 8 <= |b| ==> Le64(b, o) == Digits(b[o..o + 8])
  {
    if o + 2 <= |b| { DigitsOfTwo(b, o); }
    if o + 4 <= |b| { DigitsOfFour(b, o); }
    if o + 8 <= |b| {
      DigitsOfFour(b, o);
      DigitsOfFour(b, o + 4);
      DigitsJoin(b[o..o + 4], b[o + 4..o + 8], U32);
      assert b[o..o + 8] == b[o..o + 4] + b[o + 4..o + 8];
    }
  }

  lemma {:induction false} DigitsOfFour(b: seq<byte>, o: nat)
    requires o + 4 <= |b|
    ensures Digits(b[o..o + 4]) == Le32(b, o)
  {
    DigitsOfTwo(b, o);
    DigitsOfTwo(b, o + 2);
    DigitsJoin(b[o..o + 2], b[o + 2..o + 4], U16);
    assert b[o..o + 4] == b[o..o + 2] + b[o + 2..o + 4];
  }

  /** The `n` bytes at `o` are the number `v`, its low byte first. */
  ghost predicate Number(b: seq<byte>, o: nat, n: nat, v: nat)
  {
    o + n <= |b| && Digits(b[o..o + n]) == v
  }

  lemma {:induction false} NumberReads(b: seq<byte>, o: nat, n: nat, v: nat)
    requires Number(b, o, n, v)
    ensures n == 2 ==> Le16(b, o) == v
    ensures n == 4 ==> Le32(b, o) == v
    ensures n == 8 ==> Le64(b, o) == v
  {
    LittleEndian(b, o);
  }

  lemma {:induction false} Put64Injective(v: nat, w: nat)
    requires v < U64 && w < U64 && Put64(v) == Put64(w)
    ensures v == w
  {
    assert Le64(Put64(v), 0) == Le64(Put64(w), 0);
  }

  /** A field reads the same in a slice as in the whole. */
  lemma {:induction false} LeSlice(b: seq<byte>, lo: nat, hi: nat, o: nat)
    requires lo <= hi <= |b|
    ensures o + 2 <= hi - lo ==> Le16(b[lo..hi], o) == Le16(b, lo + o)
    ensures o + 4 <= hi - lo ==> Le32(b[lo..hi], o) == Le32(b, lo + o)
    ensures o + 8 <= hi - lo ==> Le64(b[lo..hi], o) == Le64(b, lo + o)
  {
  }

  // ----- the source -----

  /** `SliceSource::read_at`: fill a buffer of `n` bytes from `off`, or fail whole. */
  function ReadSource(src: seq<byte>, off: nat, n: nat): (r: Result<seq<byte>>)
    ensures r.Ok? <==> off + n <= |src|
    ensures r.Ok? ==> |r.value| == n && r.value == src[off..off + n]
  {
    if off + n <= |src| then Ok(src[off..off + n]) else Err(Io)
  }

  // ----- read caps -----

  const MAX_BOOT_FILE_BYTES: nat := 512 * 1024 * 1024
  const MAX_DECOMPRESSED_BLOCK_BYTES: nat := 16 * 1024 * 1024

  function CheckedFullReadLen(size: nat): Result<nat>
  {
    if size > MAX_BOOT_FILE_BYTES then Err(FileTooLarge) else Ok(size)
  }

  function CheckedBlockLen(size: nat): Result<nat>
  {
    if size > MAX_DECOMPRESSED_BLOCK_BYTES then Err(FileTooLarge) else Ok(size)
  }
}
