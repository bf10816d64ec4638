/** What a CRC-32 is (section 8.1.1.6.2 of ITU-T V.42, to which section 8 of RFC 1952 refers):
    the bits of the message, the low bit of each byte first, and 32 zeros, the first 32 of them
    all complemented, are the coefficients of a polynomial over the field of two elements; the
    checksum is the complement of what is left of it after division by the generator. The
    checksum of `Crc32` is that one. */
module Crc32Division {
  import opened Bytes
  import opened Crc32

  /** x^32 + x^26 + x^23 + x^22 + x^16 + x^12 + x^11 + x^10 + x^8 + x^7 + x^5 + x^4 + x^2 + x + 1:
      whether the generator has the term `x^k`, for those below x^32. */
  predicate HasTerm(k: nat)
  {
    k in {26, 23, 22, 16, 12, 11, 10, 8, 7, 5, 4, 2, 1, 0}
  }

  /** One line of the long division: the first coefficient is struck out, by subtracting the
      generator from the first 33 if it is one. */
  function Line(p: seq<bool>): (r: seq<bool>)
    requires |p| > 32
    ensures |r| == |p| - 1
  {
    seq(|p| - 1, i requires 0 <= i < |p| - 1 => p[i + 1] != (p[0] && i < 32 && HasTerm(31 - i)))
  }

  /** What is left of `p`, whose coefficients are given from the highest power down. */
  function Remainder(p: seq<bool>): (r: seq<bool>)
    ensures |p| >= 32 ==> |r| == 32
    decreases |p|
  {
    if |p| <= 32 then p else Remainder(Line(p))
  }

  /** The bits of a byte, the lowest first. */
  function BitsOf(b: byte): (r: seq<bool>)
    ensures |r| == 8
  {
    seq(8, i requires 0 <= i < 8 => b as nat / Pow2(i) % 2 == 1)
  }

  function MessageBits(data: seq<byte>): (r: seq<bool>)
    ensures |r| == 8 * |data|
  {
    if data == [] then [] else BitsOf(data[0]) + MessageBits(data[1..])
  }

  function Clear(n: nat): (r: seq<bool>)
    ensures |r| == n && forall i :: 0 <= i < n ==> !r[i]
  {
    seq(n, _ => false)
  }

  /** The dividend: the first 32 bits complemented, 32 zeros behind. */
  function Dividend(data: seq<byte>): (r: seq<bool>)
    ensures |r| == 8 * |data| + 32
  {
    var bits := MessageBits(data) + Clear(32);
    seq(|bits|, i requires 0 <= i < |bits| => bits[i] != (i < 32))
  }

  function Complement(bits: seq<bool>): (r: seq<bool>)
    ensures |r| == |bits|
  {
    seq(|bits|, i requires 0 <= i < |bits| => !bits[i])
  }

  // ----- the register is the first 32 coefficients -----

  lemma {:induction false} PolyIsGenerator(i: nat)
    requires i < 32
    ensures POLY[i] <==> HasTerm(31 - i)
  {
  }

  /** `bits` with the register laid over its first 32. */
  function Over(c: Word, bits: seq<bool>): (r: seq<bool>)
    ensures |r| == |bits|
  {
    seq(|bits|, i requires 0 <= i < |bits| => bits[i] != (i < 32 && c[i]))
  }

  /** The register takes in one bit. */
  function Take(c: Word, b: bool): Word
  {
    Step(c[0 := c[0] != b])
  }

  lemma {:induction false} LineTakes(c: Word, bits: seq<bool>)
    requires |bits| > 32
    ensures Line(Over(c, bits)) == Over(Take(c, bits[0]), bits[1..])
  {
    var x: Word := c[0 := c[0] != bits[0]];
    StepBits(x);
    forall i | 0 <= i < |bits| - 1
      ensures Line(Over(c, bits))[i] == Over(Take(c, bits[0]), bits[1..])[i]
    {
      if i < 32 { PolyIsGenerator(i); }
    }
  }

  function TakeAll(c: Word, bits: seq<bool>): Word
    decreases |bits|
  {
    if bits == [] then c else TakeAll(Take(c, bits[0]), bits[1..])
  }

  /** Dividing by the generator is taking the bits in, one by one. */
  lemma {:induction false} RemainderTakes(c: Word, bits: seq<bool>, zeros: seq<bool>, all: seq<bool>)
    requires zeros == Clear(32) && all == bits + zeros
    ensures Remainder(Over(c, all)) == TakeAll(c, bits)
    decreases |bits|
  {
    if bits == [] {
      assert Over(c, all) == c;
    } else {
      assert all[1..] == bits[1..] + zeros;
      LineTakes(c, all);
      RemainderTakes(Take(c, bits[0]), bits[1..], zeros, all[1..]);
    }
  }

  // ----- a byte at a time -----

  /** Bits as a word. */
  function Padded(bits: seq<bool>): (r: Word)
    requires |bits| <= 32
    ensures forall i :: 0 <= i < 32 ==> r[i] == (i < |bits| && bits[i])
  {
    seq(32, i requires 0 <= i < 32 => i < |bits| && bits[i])
  }

  lemma {:induction false} StepFirst(c: Word, n: nat)
    ensures Steps(c, n + 1) == Steps(Step(c), n)
  {
    if n > 0 {
      StepFirst(c, n - 1);
      OneMore(c, Step(c), n);
    }
  }

  lemma {:induction false} OneMore(c: Word, d: Word, n: nat)
    requires n > 0 && Steps(c, n) == Steps(d, n - 1)
    ensures Steps(c, n + 1) == Steps(d, n)
  {
  }

  lemma {:induction false} TakeIsStep(c: Word, bits: seq<bool>)
    requires 0 < |bits| <= 32
    ensures Step(Xor(c, Padded(bits))) == Xor(Take(c, bits[0]), Padded(bits[1..]))
  {
    var first, rest: Word := c[0 := c[0] != bits[0]], Padded(bits)[0 := false];
    assert Xor(c, Padded(bits)) == Xor(first, rest);
    StepLinear(first, rest);
    StepBits(rest);
    assert Step(rest) == Padded(bits[1..]);
  }

  lemma {:induction false} StepsTake(c: Word, bits: seq<bool>)
    requires |bits| <= 32
    ensures Steps(Xor(c, Padded(bits)), |bits|) == TakeAll(c, bits)
    decreases |bits|
  {
    if bits == [] {
      assert Xor(c, Padded(bits)) == c;
    } else {
      StepFirst(Xor(c, Padded(bits)), |bits| - 1);
      TakeIsStep(c, bits);
      StepsTake(Take(c, bits[0]), bits[1..]);
    }
  }

  lemma {:induction false} BitsFrom(v: nat, n: nat, i: nat)
    requires i < n
    ensures Bits(v, n)[i] == (v / Pow2(i) % 2 == 1)
    decreases i
  {
    if i > 0 {
      BitsFrom(v / 2, n - 1, i - 1);
      assert Bits(v, n)[i] == Bits(v / 2, n - 1)[i - 1];
      DivTwice(v, Pow2(i - 1));
    }
  }

  lemma {:induction false} DivTwice(v: nat, d: nat)
    requires d > 0
    ensures v / 2 / d == v / (2 * d)
  {
    var q := v / 2 / d;
    DivBounds(v / 2, d);
    assert q * (2 * d) == 2 * (q * d);
    DivUnique(v, 2 * d, q);
  }

  lemma {:induction false} ByteWordIs(b: byte)
    ensures ByteWord(b) == Padded(BitsOf(b))
  {
    ByteWordIsLow(b);
    forall i | 0 <= i < 8
      ensures ByteWord(b)[i] == BitsOf(b)[i]
    {
      BitsFrom(b, 32, i);
    }
  }

  lemma {:induction false} TakeConcat(c: Word, a: seq<bool>, b: seq<bool>)
    ensures TakeAll(c, a + b) == TakeAll(TakeAll(c, a), b)
    decreases |a|
  {
    if a == [] {
      assert a + b == b;
    } else {
      assert (a + b)[1..] == a[1..] + b;
      TakeConcat(Take(c, a[0]), a[1..], b);
    }
  }

  lemma {:induction false} RegisterTakes(c: Word, data: seq<byte>)
    ensures Register(c, data) == TakeAll(c, MessageBits(data))
    decreases |data|
  {
    if data != [] {
      ByteWordIs(data[0]);
      StepsTake(c, BitsOf(data[0]));
      TakeConcat(c, BitsOf(data[0]), MessageBits(data[1..]));
      RegisterTakes(Steps(Xor(c, ByteWord(data[0])), 8), data[1..]);
    }
  }

  lemma {:induction false} DividendIs(data: seq<byte>, bits: seq<bool>)
    requires bits == MessageBits(data) + Clear(32)
    ensures Dividend(data) == Over(ONES, bits)
  {
  }

  lemma {:induction false} XorOnes(c: Word)
    ensures Xor(ONES, c) == Complement(c)
  {
  }

  /** The checksum of every message is the complement of the remainder. */
  lemma {:induction false} CrcIsRemainder(data: seq<byte>)
    ensures Crc(data) == Complement(Remainder(Dividend(data)))
  {
    var bits := MessageBits(data);
    RegisterTakes(ONES, data);
    RemainderTakes(ONES, bits, Clear(32), bits + Clear(32));
    DividendIs(data, bits + Clear(32));
    XorOnes(Register(ONES, data));
  }
}
