/** The gzip checksum (`crates/lamfold/src/stream.rs`): the table-driven CRC-32 is the
    bit-serial one, and tells apart messages that differ within four consecutive bytes
    (section 8 of RFC 1952).

    A `u32` is its 32 bits, lowest first, so that xor and shifts are bit by bit. */
module Crc32 {
  import opened Bytes

  function Constant(b: bool): (r: seq<bool>)
    ensures |r| == 32 && forall i :: 0 <= i < 32 ==> r[i] == b
  {
    seq(32, _ => b)
  }

  type Word = w: seq<bool> | |w| == 32 witness Constant(false)

  const ONES: Word := Constant(true)

  function Xor(a: Word, b: Word): (r: Word)
    ensures forall i :: 0 <= i < 32 ==> r[i] == (a[i] != b[i])
  {
    seq(32, i requires 0 <= i < 32 => a[i] != b[i])
  }

  /** `c >> n`. */
  function ShiftRight(c: Word, n: nat): (r: Word)
    ensures forall i :: 0 <= i < 32 ==> r[i] == (i + n < 32 && c[i + n])
  {
    seq(32, i requires 0 <= i < 32 => i + n < 32 && c[i + n])
  }

  /** `n` bits of a number, lowest first. */
  function Bits(v: nat, n: nat): (r: seq<bool>)
    ensures |r| == n
    decreases n, v
  {
    if n == 0 then [] else [v % 2 == 1] + Bits(v / 2, n - 1)
  }

  /** `0xedb8_8320` (`PolyValue`). */
  const POLY: Word := [
    false, false, false, false, false, true, false, false, true, true, false, false, false, false, false, true,
    false, false, false, true, true, true, false, true, true, false, true, true, false, true, true, true]

  function Value(bits: seq<bool>): nat
  {
    if bits == [] then 0 else (if bits[0] then 1 else 0) + 2 * Value(bits[1..])
  }

  function ByteWord(b: byte): Word
  {
    Bits(b, 32)
  }

  // ----- the bit-serial checksum -----

  /** One bit of the reflected division: `if c & 1 { POLY ^ (c >> 1) } else { c >> 1 }`. */
  function Step(c: Word): Word
  {
    if c[0] then Xor(POLY, ShiftRight(c, 1)) else ShiftRight(c, 1)
  }

  function Steps(c: Word, n: nat): Word
    decreases n, c
  {
    if n == 0 then c else Step(Steps(c, n - 1))
  }

  /** The register after a message, bit by bit. */
  function Register(c: Word, data: seq<byte>): Word
    decreases |data|
  {
    if data == [] then c else Register(Steps(Xor(c, ByteWord(data[0])), 8), data[1..])
  }

  /** The CRC-32 of a message. */
  function Crc(data: seq<byte>): Word
  {
    Xor(ONES, Register(ONES, data))
  }

  function Bit(b: bool): nat
  {
    if b then 1 else 0
  }

  /** Eight bits of a word, as a number. */
  function ByteOf(w: Word, i: nat): nat
    requires i + 8 <= 32
  {
    Bit(w[i]) + 2 * Bit(w[i + 1]) + 4 * Bit(w[i + 2]) + 8 * Bit(w[i + 3])
    + 16 * Bit(w[i + 4]) + 32 * Bit(w[i + 5]) + 64 * Bit(w[i + 6]) + 128 * Bit(w[i + 7])
  }

  lemma {:induction false} PolyValue()
    ensures ByteOf(POLY, 0) + 0x100 * ByteOf(POLY, 8) + 0x1_0000 * ByteOf(POLY, 16) + 0x100_0000 * ByteOf(POLY, 24) == 0xedb8_8320
  {
  }

  // ----- linearity -----

  lemma {:induction false} StepBits(c: Word)
    ensures forall i :: 0 <= i < 32 ==> Step(c)[i] == ((i < 31 && c[i + 1]) != (c[0] && POLY[i]))
  {
  }

  /** The step is linear over xor. */
  lemma {:induction false} StepLinear(x: Word, y: Word)
    ensures Step(Xor(x, y)) == Xor(Step(x), Step(y))
  {
    StepBits(x);
    StepBits(y);
    StepBits(Xor(x, y));
    assert Step(Xor(x, y)) == Xor(Step(x), Step(y));
  }

  lemma {:induction false} StepsLinear(x: Word, y: Word, n: nat)
    ensures Steps(Xor(x, y), n) == Xor(Steps(x, n), Steps(y, n))
  {
    if n > 0 {
      StepsLinear(x, y, n - 1);
      StepLinear(Steps(x, n - 1), Steps(y, n - 1));
    }
  }

  /** While the low bits are clear, steps only shift. */
  lemma {:induction false} StepsShift(c: Word, n: nat)
    requires n <= 32 && forall i :: 0 <= i < n ==> !c[i]
    ensures Steps(c, n) == ShiftRight(c, n)
  {
    if n == 0 {
      assert ShiftRight(c, 0) == c;
    } else {
      StepsShift(c, n - 1);
      assert !ShiftRight(c, n - 1)[0];
      assert ShiftRight(ShiftRight(c, n - 1), 1) == ShiftRight(c, n);
    }
  }

  // ----- the table -----

  /** `c & 0xff`. */
  function LowByte(c: Word): (r: Word)
    ensures forall i :: 0 <= i < 32 ==> r[i] == (i < 8 && c[i])
  {
    seq(32, i requires 0 <= i < 32 => i < 8 && c[i])
  }

  function AboveLowByte(c: Word): (r: Word)
    ensures forall i :: 0 <= i < 32 ==> r[i] == (i >= 8 && c[i])
  {
    seq(32, i requires 0 <= i < 32 => i >= 8 && c[i])
  }

  /** A byte's word has nothing above the byte. */
  lemma {:induction false} HighBitsClear(v: nat, n: nat, k: nat)
    requires v < Pow2(k) && k <= n
    ensures forall i :: k <= i < n ==> !Bits(v, n)[i]
    decreases n
  {
    if n > 0 {
      if k == 0 {
        HighBitsClear(0, n - 1, 0);
      } else {
        HighBitsClear(v / 2, n - 1, k - 1);
      }
      forall i | k <= i < n
        ensures !Bits(v, n)[i]
      {
        if i > 0 { assert Bits(v, n)[i] == Bits(v / 2, n - 1)[i - 1]; }
      }
    }
  }

  lemma {:induction false} ByteWordIsLow(b: byte)
    ensures forall i :: 8 <= i < 32 ==> !ByteWord(b)[i]
  {
    assert Pow2(8) == 256;
    HighBitsClear(b, 32, 8);
  }

  /** The table entry for the low byte, xored with the rest shifted, is the eight steps. */
  lemma {:induction false} TableIsSteps(c: Word, b: byte)
    ensures Xor(Steps(LowByte(Xor(c, ByteWord(b))), 8), ShiftRight(c, 8)) == Steps(Xor(c, ByteWord(b)), 8)
  {
    ByteWordIsLow(b);
    var x := Xor(c, ByteWord(b));
    assert x == Xor(LowByte(x), AboveLowByte(x));
    StepsLinear(LowByte(x), AboveLowByte(x), 8);
    StepsShift(AboveLowByte(x), 8);
    assert ShiftRight(AboveLowByte(x), 8) == ShiftRight(c, 8);
  }

  lemma {:induction false} ValueBelow(bits: seq<bool>)
    ensures Value(bits) < Pow2(|bits|)
  {
    if bits != [] { ValueBelow(bits[1..]); }
  }

  lemma {:induction false} BitsOfValue(bits: seq<bool>, n: nat)
    requires |bits| <= n
    ensures forall i :: 0 <= i < n ==> Bits(Value(bits), n)[i] == (i < |bits| && bits[i])
    decreases n
  {
    if n > 0 {
      var rest := if bits == [] then [] else bits[1..];
      BitsOfValue(rest, n - 1);
      assert Value(bits) / 2 == Value(rest);
      forall i | 0 <= i < n
        ensures Bits(Value(bits), n)[i] == (i < |bits| && bits[i])
      {
        if i > 0 { assert Bits(Value(bits), n)[i] == Bits(Value(rest), n - 1)[i - 1]; }
      }
    }
  }

  /** Entry `i` of the table. */
  function TableEntry(i: nat): Word
    requires i < 256
  {
    Steps(Bits(i, 32), 8)
  }

  /** `((c ^ b) & 0xff) as usize`. */
  function Index(c: Word): (i: nat)
    ensures i < 256 && TableEntry(i) == Steps(LowByte(c), 8)
  {
    ValueBelow(c[..8]);
    assert Pow2(8) == 256;
    BitsOfValue(c[..8], 32);
    assert Bits(Value(c[..8]), 32) == LowByte(c);
    Value(c[..8])
  }

  /** The inner loop of the constant `CRC32_TABLE`. */
  method EntryOf(start: Word) returns (c: Word)
    ensures c == Steps(start, 8)
  {
    c := start;
    var k := 0;
    while k < 8
      invariant 0 <= k <= 8 && c == Steps(start, k)
    {
      c := if c[0] then Xor(POLY, ShiftRight(c, 1)) else ShiftRight(c, 1);
      k := k + 1;
    }
  }

  method RowOf(i: nat, ghost entry: nat -> Word) returns (e: Word)
    requires i < 256 && forall i: nat {:trigger Bits(i, 32)} :: i < 256 ==> entry(i) == Steps(Bits(i, 32), 8)
    ensures e == entry(i)
  {
    e := EntryOf(Bits(i, 32));
  }

  /** The outer loop. */
  method Fill(table: array<Word>, ghost entry: nat -> Word)
    requires table.Length == 256
    requires forall i: nat {:trigger Bits(i, 32)} :: i < 256 ==> entry(i) == Steps(Bits(i, 32), 8)
    modifies table
    ensures forall i :: 0 <= i < 256 ==> table[i] == entry(i)
  {
    for i := 0 to 256
      invariant forall j :: 0 <= j < i ==> table[j] == entry(j)
    {
      var e := RowOf(i, entry);
      table[i] := e;
    }
  }

  /** `CRC32_TABLE`, computed. */
  method BuildTable() returns (table: array<Word>)
    ensures fresh(table) && table.Length == 256
    ensures forall i: nat {:trigger TableEntry(i)} :: i < 256 ==> table[i] == TableEntry(i)
  {
    table := new Word[256](_ => ONES);
    Fill(table, (i: nat) => if i < 256 then TableEntry(i) else ONES);
  }

  /** `crc32`: the table-driven fold is the bit-serial checksum. */
  method Compute(table: array<Word>, data: seq<byte>) returns (crc: Word)
    requires table.Length == 256 && forall i: nat {:trigger TableEntry(i)} :: i < 256 ==> table[i] == TableEntry(i)
    ensures crc == Crc(data)
  {
    var c: Word := ONES;
    assert data[0..] == data;
    for k := 0 to |data|
      invariant Register(c, data[k..]) == Register(ONES, data)
    {
      assert data[k..][1..] == data[k + 1..];
      TableIsSteps(c, data[k]);
      var i := Index(Xor(c, ByteWord(data[k])));
      assert table[i] == TableEntry(i);
      c := Xor(table[i], ShiftRight(c, 8));
    }
    crc := Xor(ONES, c);
  }

  // ----- what the checksum tells apart -----

  /** The words agree from bit `m` on. */
  ghost predicate AgreeFrom(a: Word, b: Word, m: nat)
  {
    forall i :: m <= i < 32 ==> a[i] == b[i]
  }

  ghost predicate AgreeBelow(a: Word, b: Word, m: nat)
  {
    forall i :: 0 <= i < m && i < 32 ==> a[i] == b[i]
  }

  /** The step can be undone: equal top bits were equal low bits. */
  lemma {:induction false} StepBack(a: Word, b: Word, m: nat)
    requires m < 32 && AgreeFrom(Step(a), Step(b), m)
    ensures a[0] == b[0] && AgreeFrom(a, b, m + 1)
  {
    StepBits(a);
    StepBits(b);
    assert Step(a)[31] == a[0] && Step(b)[31] == b[0];
    forall i | m + 1 <= i < 32
      ensures a[i] == b[i]
    {
      assert Step(a)[i - 1] == Step(b)[i - 1];
    }
  }

  /** While the low bits agree, a step moves the others down alike. */
  lemma {:induction false} StepAlike(a: Word, b: Word)
    requires a[0] == b[0]
    ensures forall i :: 0 <= i < 31 ==> (Step(a)[i] == Step(b)[i] <==> a[i + 1] == b[i + 1])
  {
    StepBits(a);
    StepBits(b);
  }

  lemma {:induction false} StepsAlike(a: Word, b: Word, n: nat)
    requires n <= 32 && AgreeBelow(a, b, n)
    ensures forall i :: 0 <= i < 32 - n ==> (Steps(a, n)[i] == Steps(b, n)[i] <==> a[i + n] == b[i + n])
  {
    if n > 0 {
      StepsAlike(a, b, n - 1);
      var x, y := Steps(a, n - 1), Steps(b, n - 1);
      assert x[0] == y[0] <==> a[0 + (n - 1)] == b[0 + (n - 1)];
      StepAlike(x, y);
      forall i | 0 <= i < 32 - n
        ensures Steps(a, n)[i] == Steps(b, n)[i] <==> a[i + n] == b[i + n]
      {
        assert x[i + 1] == y[i + 1] <==> a[i + 1 + (n - 1)] == b[i + 1 + (n - 1)];
      }
    }
  }

  /** Steps can be undone: if after `n` of them only the low `m` bits may differ, then before
      them the low `n` bits were the same, and only the next `m` may have differed. */
  lemma {:induction false} StepsBack(a: Word, b: Word, n: nat, m: nat)
    requires n + m <= 32 && AgreeFrom(Steps(a, n), Steps(b, n), m)
    ensures AgreeBelow(a, b, n) && AgreeFrom(a, b, n + m)
    decreases n
  {
    if n > 0 {
      StepBack(Steps(a, n - 1), Steps(b, n - 1), m);
      StepsBack(a, b, n - 1, m + 1);
      StepsAlike(a, b, n - 1);
      assert Steps(a, n - 1)[0] == Steps(b, n - 1)[0] <==> a[0 + (n - 1)] == b[0 + (n - 1)];
    }
  }

  lemma {:induction false} BitsInjective(v: nat, w: nat, n: nat)
    requires v < Pow2(n) && w < Pow2(n) && Bits(v, n) == Bits(w, n)
    ensures v == w
    decreases n
  {
    if n > 0 {
      assert Bits(v, n)[0] == Bits(w, n)[0];
      assert Bits(v, n)[1..] == Bits(v / 2, n - 1) && Bits(w, n)[1..] == Bits(w / 2, n - 1);
      BitsInjective(v / 2, w / 2, n - 1);
    }
  }

  lemma {:induction false} ByteWordInjective(x: byte, y: byte)
    requires AgreeBelow(ByteWord(x), ByteWord(y), 8)
    ensures x == y
  {
    ByteWordIsLow(x);
    ByteWordIsLow(y);
    assert ByteWord(x) == ByteWord(y);
    assert Pow2(8) == 256;
    Pow2Monotone(8, 32);
    BitsInjective(x, y, 32);
  }

  /** Two registers, each after at most four bytes, that agree above `m` bits: they were the
      same above as many bits more as the bytes have; and had they been the same, the bytes
      are, and so are the registers. */
  lemma {:induction false} BurstBack(c: Word, d: Word, x: seq<byte>, y: seq<byte>)
    requires |x| == |y| <= 4 && Register(c, x) == Register(d, y)
    ensures AgreeFrom(c, d, 8 * |x|)
    ensures c == d ==> x == y
    decreases |x|
  {
    if x != [] {
      var a, b := Xor(c, ByteWord(x[0])), Xor(d, ByteWord(y[0]));
      BurstBack(Steps(a, 8), Steps(b, 8), x[1..], y[1..]);
      StepsBack(a, b, 8, 8 * (|x| - 1));
      ByteWordIsLow(x[0]);
      ByteWordIsLow(y[0]);
      forall i | 8 * |x| <= i < 32
        ensures c[i] == d[i]
      {
        assert a[i] == b[i];
      }
      if c == d {
        forall i | 0 <= i < 8
          ensures ByteWord(x[0])[i] == ByteWord(y[0])[i]
        {
          assert a[i] == b[i];
        }
        ByteWordInjective(x[0], y[0]);
        assert x == [x[0]] + x[1..] && y == [y[0]] + y[1..];
      }
    }
  }

  lemma {:induction false} RegisterConcat(c: Word, x: seq<byte>, y: seq<byte>)
    ensures Register(c, x + y) == Register(Register(c, x), y)
    decreases |x|
  {
    if x == [] {
      assert x + y == y;
    } else {
      assert (x + y)[1..] == x[1..] + y;
      RegisterConcat(Steps(Xor(c, ByteWord(x[0])), 8), x[1..], y);
    }
  }

  /** The register never forgets: different registers stay different over the same bytes. */
  lemma {:induction false} RegisterInjective(c: Word, d: Word, data: seq<byte>)
    requires Register(c, data) == Register(d, data)
    ensures c == d
    decreases |data|
  {
    if data != [] {
      var a, b := Xor(c, ByteWord(data[0])), Xor(d, ByteWord(data[0]));
      RegisterInjective(Steps(a, 8), Steps(b, 8), data[1..]);
      StepsBack(a, b, 8, 0);
      forall i | 0 <= i < 32
        ensures c[i] == d[i]
      {
        assert a[i] == b[i];
      }
    }
  }

  /** Burst detection: messages that differ only within four consecutive bytes never share a
      checksum. */
  lemma {:induction false} BurstDetected(prefix: seq<byte>, x: seq<byte>, y: seq<byte>, suffix: seq<byte>)
    requires |x| == |y| <= 4 && x != y
    ensures Crc(prefix + x + suffix) != Crc(prefix + y + suffix)
  {
    var c := Register(ONES, prefix);
    RegisterConcat(ONES, prefix + x, suffix);
    RegisterConcat(ONES, prefix + y, suffix);
    RegisterConcat(ONES, prefix, x);
    RegisterConcat(ONES, prefix, y);
    var a, b := Register(ONES, prefix + x + suffix), Register(ONES, prefix + y + suffix);
    if Xor(ONES, a) == Xor(ONES, b) {
      XorOnesInjective(a, b);
      RegisterInjective(Register(c, x), Register(c, y), suffix);
      BurstBack(c, c, x, y);
    }
  }

  lemma {:induction false} XorOnesInjective(a: Word, b: Word)
    requires Xor(ONES, a) == Xor(ONES, b)
    ensures a == b
  {
    forall i | 0 <= i < 32
      ensures a[i] == b[i]
    {
      assert Xor(ONES, a)[i] == Xor(ONES, b)[i];
    }
  }
}
