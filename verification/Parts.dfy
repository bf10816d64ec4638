/** Data in parts of equal size, the last one short: how many parts there are, what each holds,
    and which one a byte is in. Products and quotients are kept out of what uses this. */
module Parts {
  import opened Bytes
  import opened Windows

  /** The bytes of `n` parts of `size` bytes each. */
  function Room(n: nat, size: nat): nat
  {
    if n == 0 then 0 else Room(n - 1, size) + size
  }

  lemma {:induction false} RoomIs(n: nat, size: nat)
    ensures Room(n, size) == n * size
  {
    if n > 0 {
      RoomIs(n - 1, size);
      NextMultiple(n - 1, size);
    }
  }

  /** `n` parts of `size` bytes, and no fewer, hold `total` bytes. */
  ghost predicate JustHold(total: nat, size: nat, n: nat)
  {
    if n == 0 then total == 0 else Room(n - 1, size) < total <= Room(n, size)
  }

  lemma {:induction false} JustHeld(total: nat, size: nat, n: nat)
    requires size > 0 && JustHold(total, size, n)
    ensures CeilDiv(total, size) == n
  {
    RoomIs(n, size);
    if n > 0 {
      RoomIs(n - 1, size);
      NextMultiple(n - 1, size);
    }
    DivUnique(total + size - 1, size, n);
  }

  /** `n` parts are the whole ones of `total` bytes. */
  ghost predicate WholeIn(total: nat, size: nat, n: nat)
  {
    Room(n, size) <= total < Room(n, size) + size
  }

  lemma {:induction false} WholeOnes(total: nat, size: nat, n: nat)
    requires WholeIn(total, size, n)
    ensures size > 0 && total / size == n
  {
    RoomIs(n, size);
    DivUnique(total, size, n);
  }

  /** Part `i` of some data. */
  function Part(data: seq<byte>, size: nat, i: nat): seq<byte>
  {
    if Room(i, size) <= |data| then data[Room(i, size)..Min(Room(i, size) + size, |data|)] else []
  }

  lemma {:induction false} PartAt(data: seq<byte>, size: nat, p: nat, i: nat)
    requires size > 0 && p < |data| && i == p / size
    ensures p % size < |Part(data, size, i)| && Part(data, size, i)[p % size] == data[p]
  {
    DivBounds(p, size);
    RoomIs(i, size);
    assert p == Room(i, size) + p % size;
  }

  lemma {:induction false} PartHolds(total: nat, size: nat, n: nat, p: nat, i: nat)
    requires size > 0 && p < total <= Room(n, size) && i == p / size
    ensures 0 <= i < n
  {
    DivBounds(p, size);
    RoomIs(n, size);
    if i >= n { MulMonotone(size, n, i); }
  }

  // ----- data delivered -----

  /** What a caller gets of `data` at `off`: the window, and the rest of the buffer as it was. */
  ghost predicate Delivered(data: seq<byte>, off: nat, was: seq<byte>, now: seq<byte>, r: Result<nat>)
  {
    if off >= |data| then r == Ok(0) && now == was
    else
      var n := Min(|was|, |data| - off);
      r == Ok(n) && now == data[off..off + n] + was[n..]
  }

  /** A window read of known content delivers it. */
  lemma {:induction false} WindowDelivers(at: Content, data: seq<byte>, off: nat, n: nat, was: seq<byte>, now: seq<byte>, r: Result<nat>)
    requires IsContent(at, 0, data) && off < |data| && |was| == |now| && n == Min(|was|, |data| - off)
    requires WindowRead(at, off, n, r, now[..n]) && (n == 0 ==> r == Ok(0)) && forall i :: n <= i < |was| ==> now[i] == was[i]
    ensures Delivered(data, off, was, now, r)
  {
    forall q | off <= q < off + n
      ensures at(q) == Some(data[q])
    {
      assert data[q - 0] == data[q];
    }
    if r.Ok? {
      forall i | 0 <= i < n
        ensures now[i] == data[off + i]
      {
        assert at(off + i) == Some(now[..n][off + i - off]);
      }
      assert now == data[off..off + n] + was[n..];
    }
  }
}
