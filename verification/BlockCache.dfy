/** The decompressed-block cache (`crates/lamfold/src/cache.rs`): timestamps in a map, proved
    to keep a most-recently-used list for as long as the 64-bit tick has not wrapped, and to
    keep its byte accounting always. */
module BlockCache {
  import opened Bytes

  datatype Block = Block(key: nat, data: seq<byte>)

  /** Total size of a list of blocks. */
  function Size(list: seq<Block>): nat
  {
    if list == [] then 0 else |list[0].data| + Size(list[1..])
  }

  function KeyAt(list: seq<Block>, i: nat): nat
    requires i < |list|
  {
    list[i].key
  }

  ghost predicate Distinct(list: seq<Block>)
  {
    forall i: nat, j: nat :: i < j < |list| ==> KeyAt(list, i) != KeyAt(list, j)
  }

  // ----- the list: oldest first -----

  function Find(list: seq<Block>, key: nat): (r: Option<nat>)
    ensures r.Some? ==> r.value < |list| && list[r.value].key == key
    ensures r.None? ==> forall i :: 0 <= i < |list| ==> list[i].key != key
  {
    if list == [] then None
    else if list[|list| - 1].key == key then Some(|list| - 1)
    else Find(list[..|list| - 1], key)
  }

  function RemoveAt(list: seq<Block>, i: nat): seq<Block>
    requires i < |list|
  {
    list[..i] + list[i + 1..]
  }

  function Without(list: seq<Block>, key: nat): seq<Block>
  {
    match Find(list, key) case Some(i) => RemoveAt(list, i) case None => list
  }

  /** A block that is used becomes the newest. */
  function Touch(list: seq<Block>, key: nat): seq<Block>
  {
    match Find(list, key) case Some(i) => RemoveAt(list, i) + [list[i]] case None => list
  }

  /** Oldest blocks go, one by one, until `need` bytes fit. */
  function Evict(list: seq<Block>, need: nat, cap: nat): seq<Block>
  {
    if list == [] || Size(list) + need <= cap then list else Evict(list[1..], need, cap)
  }

  /** What `insert` does to the list. */
  function Put(list: seq<Block>, key: nat, data: seq<byte>, cap: nat): seq<Block>
  {
    if cap == 0 || |data| > cap then list
    else Evict(Without(list, key), |data|, cap) + [Block(key, data)]
  }

  lemma {:induction false} SizeConcat(a: seq<Block>, b: seq<Block>)
    ensures Size(a + b) == Size(a) + Size(b)
  {
    if a == [] {
      assert a + b == b;
    } else {
      assert (a + b)[1..] == a[1..] + b;
      SizeConcat(a[1..], b);
    }
  }

  lemma {:induction false} SizeRemoveAt(list: seq<Block>, i: nat)
    requires i < |list|
    ensures Size(list) == Size(RemoveAt(list, i)) + |list[i].data|
    ensures Size([list[i]]) == |list[i].data|
  {
    assert list == list[..i] + ([list[i]] + list[i + 1..]);
    SizeConcat(list[..i], [list[i]] + list[i + 1..]);
    SizeConcat([list[i]], list[i + 1..]);
    SizeConcat(list[..i], list[i + 1..]);
    assert [list[i]][1..] == [];
  }

  /** Eviction drops the fewest oldest blocks that make room: the rest is a suffix, it leaves
      room, and no longer suffix would. */
  lemma {:induction false} EvictIsShortest(list: seq<Block>, need: nat, cap: nat) returns (n: nat)
    requires need <= cap
    ensures n <= |list| && Evict(list, need, cap) == list[n..]
    ensures Size(list[n..]) + need <= cap
    ensures forall m :: 0 <= m < n ==> Size(list[m..]) + need > cap
    decreases |list|
  {
    if list == [] || Size(list) + need <= cap {
      assert list[0..] == list;
      n := 0;
    } else {
      var m := EvictIsShortest(list[1..], need, cap);
      n := m + 1;
      assert list[1..][n - 1..] == list[n..];
      forall m | 0 <= m < n
        ensures Size(list[m..]) + need > cap
      {
        if m == 0 { assert list[0..] == list; } else { assert list[1..][m - 1..] == list[m..]; }
      }
    }
  }

  // ----- the map -----

  datatype Entry = Entry(data: seq<byte>, last: nat)

  /** The list names the entries, each once. */
  ghost predicate Lists(list: seq<Block>, entries: map<nat, Entry>)
  {
    && Distinct(list)
    && (forall i: nat {:trigger KeyAt(list, i)} ::
          i < |list| ==> KeyAt(list, i) in entries && entries[KeyAt(list, i)].data == list[i].data)
    && (forall k {:trigger Find(list, k)} :: k in entries ==> Find(list, k).Some?)
  }

  /** Later in the list is later in time. */
  ghost predicate Ordered(list: seq<Block>, entries: map<nat, Entry>, tick: nat)
    requires Lists(list, entries)
  {
    && (forall i: nat, j: nat :: i < j < |list| ==> entries[KeyAt(list, i)].last < entries[KeyAt(list, j)].last)
    && (forall i: nat :: i < |list| ==> entries[KeyAt(list, i)].last <= tick)
  }

  lemma {:induction false} FindIsIndex(list: seq<Block>, i: nat)
    requires Distinct(list) && i < |list|
    ensures Find(list, KeyAt(list, i)) == Some(i)
    decreases |list|
  {
    var init := list[..|list| - 1];
    assert KeyAt(list, |list| - 1) == list[|list| - 1].key;
    if i < |list| - 1 {
      assert forall j: nat :: j < |init| ==> KeyAt(init, j) == KeyAt(list, j);
      FindIsIndex(init, i);
    }
  }

  lemma {:induction false} FindExists(list: seq<Block>, i: nat, key: nat)
    requires i < |list| && list[i].key == key
    ensures Find(list, key).Some?
  {
  }

  lemma {:induction false} KeysAfterRemove(list: seq<Block>, i: nat)
    requires i < |list|
    ensures forall j: nat :: j < |list| - 1 ==>
              KeyAt(RemoveAt(list, i), j) == KeyAt(list, if j < i then j else j + 1)
              && RemoveAt(list, i)[j] == list[if j < i then j else j + 1]
  {
  }

  lemma {:induction false} NotListed(list: seq<Block>, entries: map<nat, Entry>, key: nat)
    requires Lists(list, entries) && key !in entries
    ensures Find(list, key).None?
  {
    var found := Find(list, key);
    assert found.None? || KeyAt(list, found.value) in entries;
  }

  /** Removing a block from the list goes with removing its entry. */
  lemma {:induction false} RemoveLists(list: seq<Block>, entries: map<nat, Entry>, i: nat, key: nat)
    requires Lists(list, entries) && i < |list| && key == KeyAt(list, i)
    ensures Lists(RemoveAt(list, i), entries - {key})
  {
    KeysAfterRemove(list, i);
    forall k | k in entries - {key}
      ensures Find(RemoveAt(list, i), k).Some?
    {
      var j := Find(list, k).value;
      FindExists(RemoveAt(list, i), if j < i then j else j - 1, k);
    }
  }

  lemma {:induction false} RemoveOrdered(list: seq<Block>, entries: map<nat, Entry>, i: nat, key: nat, tick: nat)
    requires Lists(list, entries) && i < |list| && key == KeyAt(list, i) && Ordered(list, entries, tick)
    ensures Lists(RemoveAt(list, i), entries - {key}) && Ordered(RemoveAt(list, i), entries - {key}, tick)
  {
    RemoveLists(list, entries, i, key);
    KeysAfterRemove(list, i);
  }

  lemma {:induction false} KeysAfterAppend(list: seq<Block>, b: Block)
    ensures KeyAt(list + [b], |list|) == b.key
    ensures forall j: nat :: j < |list| ==> KeyAt(list + [b], j) == KeyAt(list, j) && (list + [b])[j] == list[j]
  {
  }

  /** A new newest block goes with a new entry. */
  lemma {:induction false} AppendLists(list: seq<Block>, entries: map<nat, Entry>, b: Block, e: Entry)
    requires Lists(list, entries) && b.key !in entries && e.data == b.data
    ensures Lists(list + [b], entries[b.key := e])
  {
    KeysAfterAppend(list, b);
    var more := entries[b.key := e];
    forall k | k in more
      ensures Find(list + [b], k).Some?
    {
      if k == b.key { FindExists(list + [b], |list|, k); } else { FindExists(list + [b], Find(list, k).value, k); }
    }
  }

  lemma {:induction false} AppendOrdered(list: seq<Block>, entries: map<nat, Entry>, b: Block, e: Entry, tick: nat)
    requires Lists(list, entries) && b.key !in entries && e.data == b.data
    requires Ordered(list, entries, tick) && tick < e.last
    ensures Lists(list + [b], entries[b.key := e]) && Ordered(list + [b], entries[b.key := e], e.last)
  {
    AppendLists(list, entries, b, e);
    KeysAfterAppend(list, b);
  }

  /** Touching a block goes with a new timestamp in its entry. */
  lemma {:induction false} TouchLists(list: seq<Block>, entries: map<nat, Entry>, key: nat, e: Entry)
    requires Lists(list, entries) && key in entries && e.data == entries[key].data
    ensures Lists(Touch(list, key), entries[key := e]) && Size(Touch(list, key)) == Size(list)
  {
    var i := Find(list, key).value;
    RemoveLists(list, entries, i, key);
    AppendLists(RemoveAt(list, i), entries - {key}, list[i], e);
    SizeRemoveAt(list, i);
    SizeConcat(RemoveAt(list, i), [list[i]]);
    assert (entries - {key})[key := e] == entries[key := e];
  }

  lemma {:induction false} TouchOrdered(list: seq<Block>, entries: map<nat, Entry>, key: nat, e: Entry, tick: nat)
    requires Lists(list, entries) && key in entries && e.data == entries[key].data
    requires Ordered(list, entries, tick) && tick < e.last
    ensures Lists(Touch(list, key), entries[key := e]) && Ordered(Touch(list, key), entries[key := e], e.last)
  {
    var i := Find(list, key).value;
    RemoveOrdered(list, entries, i, key, tick);
    AppendOrdered(RemoveAt(list, i), entries - {key}, list[i], e, tick);
    assert (entries - {key})[key := e] == entries[key := e];
  }

  lemma {:induction false} OldestIsEntry(list: seq<Block>, entries: map<nat, Entry>)
    requires Lists(list, entries) && list != []
    ensures entries.Keys != {}
  {
    assert KeyAt(list, 0) in entries;
  }

  /** The victim: the smallest timestamp, and of several the smallest key. */
  ghost predicate IsVictim(entries: map<nat, Entry>, key: nat)
  {
    && key in entries
    && forall k :: k in entries ==> entries[key].last < entries[k].last || (entries[key].last == entries[k].last && key <= k)
  }

  lemma {:induction false} VictimExists(entries: map<nat, Entry>) returns (key: nat)
    requires entries.Keys != {}
    ensures IsVictim(entries, key)
    decreases |entries.Keys|
  {
    var k :| k in entries;
    var rest := entries - {k};
    assert rest.Keys == entries.Keys - {k};
    if rest.Keys == {} {
      key := k;
      forall j | j in entries
        ensures j == k
      {
        assert j !in rest.Keys;
      }
    } else {
      var other := VictimExists(rest);
      assert other in rest && rest[other] == entries[other];
      key := if entries[k].last < entries[other].last || (entries[k].last == entries[other].last && k <= other) then k else other;
      forall j | j in entries
        ensures entries[key].last < entries[j].last || (entries[key].last == entries[j].last && key <= j)
      {
        if j != k { assert j in rest && rest[j] == entries[j]; }
      }
    }
  }

  /** In order, the victim is the oldest. */
  lemma {:induction false} VictimIsOldest(list: seq<Block>, entries: map<nat, Entry>, tick: nat, key: nat)
    requires Lists(list, entries) && Ordered(list, entries, tick) && IsVictim(entries, key)
    ensures list != [] && KeyAt(list, 0) == key
  {
    var i := Find(list, key).value;
    assert KeyAt(list, i) == key && KeyAt(list, 0) in entries;
  }

  /** The victim leaves the list and the map together; in order, it was the oldest. */
  lemma {:induction false} VictimLeaves(list: seq<Block>, entries: map<nat, Entry>, tick: nat, key: nat, ordered: bool) returns (i: nat)
    requires Lists(list, entries) && (ordered ==> Ordered(list, entries, tick)) && IsVictim(entries, key)
    ensures i < |list| && list[i].key == key && list[i].data == entries[key].data && (ordered ==> i == 0)
    ensures Lists(RemoveAt(list, i), entries - {key})
    ensures ordered ==> Ordered(RemoveAt(list, i), entries - {key}, tick)
  {
    i := Find(list, key).value;
    assert KeyAt(list, i) == key;
    if ordered {
      VictimIsOldest(list, entries, tick, key);
      FindIsIndex(list, 0);
      RemoveOrdered(list, entries, i, key, tick);
    }
    RemoveLists(list, entries, i, key);
  }

  // ----- the cache -----

  /** The choice of `evict_one`: `min_by_key`. */
  method PickVictim(entries: map<nat, Entry>) returns (victim: nat)
    requires entries.Keys != {}
    ensures IsVictim(entries, victim)
  {
    ghost var some := VictimExists(entries);
    victim :|
      && victim in entries
      && forall k :: k in entries ==>
           entries[victim].last < entries[k].last || (entries[victim].last == entries[k].last && victim <= k);
  }

  /** `BlockCache`. The list and the count of ticks are ghost: the source has neither. */
  class BlockCache {
    var entries: map<nat, Entry>
    var tick: nat
    const capBytes: nat
    var curBytes: nat
    ghost var list: seq<Block>
    ghost var turns: nat

    ghost predicate Valid()
      reads this
    {
      && Lists(list, entries)
      && curBytes == Size(list) <= capBytes
      && tick == turns % U64 && tick < U64
      && (turns < U64 ==> Ordered(list, entries, tick))
    }

    constructor (cap: nat)
      ensures Valid() && capBytes == cap && list == [] && turns == 0
    {
      entries, tick, capBytes, curBytes, list, turns := map[], 0, cap, 0, [], 0;
    }

    /** `tick.wrapping_add(1)`. */
    method Advance()
      requires tick == turns % U64 && tick < U64
      modifies `tick, `turns
      ensures turns == old(turns) + 1 && tick == turns % U64 && tick < U64
      ensures tick == if old(tick) + 1 == U64 then 0 else old(tick) + 1
    {
      tick, turns := if tick + 1 == U64 then 0 else tick + 1, turns + 1;
    }

    /** `get`: the block, which becomes the newest. */
    method Get(key: nat) returns (r: Option<seq<byte>>)
      requires Valid()
      modifies this
      ensures Valid() && turns == old(turns) + 1
      ensures list == Touch(old(list), key)
      ensures r == if key in old(entries) then Some(old(entries)[key].data) else None
      ensures entries.Keys == old(entries).Keys && forall k :: k in entries ==> entries[k].data == old(entries)[k].data
    {
      Advance();
      if key !in entries {
        NotListed(list, entries, key);
        return None;
      }
      var data := entries[key].data;
      TouchLists(list, entries, key, Entry(data, tick));
      if turns < U64 { TouchOrdered(list, entries, key, Entry(data, tick), tick - 1); }
      list := Touch(list, key);
      entries := entries[key := Entry(data, tick)];
      r := Some(data);
    }

    /** `evict_one`: the victim goes; in order, that is the oldest block. */
    method EvictOne() returns (freed: Option<nat>, ghost i: nat)
      requires Lists(list, entries) && (turns < U64 ==> Ordered(list, entries, tick))
      modifies `entries, `list
      ensures freed.None? <==> old(list) == []
      ensures freed.None? ==> entries == old(entries) && list == old(list)
      ensures freed.Some? ==>
                && i < |old(list)| && freed.value == |old(list)[i].data| && list == RemoveAt(old(list), i)
                && entries == old(entries) - {old(list)[i].key} && (turns < U64 ==> i == 0)
      ensures Lists(list, entries) && (turns < U64 ==> Ordered(list, entries, tick))
    {
      i := 0;
      if list != [] { OldestIsEntry(list, entries); }
      if entries.Keys == {} {
        return None, 0;
      }
      var victim := PickVictim(entries);
      i := VictimLeaves(list, entries, tick, victim, turns < U64);
      freed := Some(|entries[victim].data|);
      list := RemoveAt(list, i);
      entries := entries - {victim};
    }

    /** The eviction loop of `insert`: oldest first, until `need` bytes fit. There is always
        something to evict, so the arm that gives up is never taken. */
    method MakeRoom(need: nat)
      requires Valid() && need <= capBytes
      modifies `entries, `list, `curBytes
      ensures Valid() && curBytes + need <= capBytes
      ensures turns < U64 ==> list == Evict(old(list), need, capBytes)
      ensures entries.Keys <= old(entries).Keys && forall k :: k in entries ==> entries[k] == old(entries)[k]
    {
      while curBytes + need > capBytes
        invariant Valid()
        invariant turns < U64 ==> Evict(list, need, capBytes) == Evict(old(list), need, capBytes)
        invariant entries.Keys <= old(entries).Keys && forall k :: k in entries ==> entries[k] == old(entries)[k]
        decreases |list|
      {
        ghost var before := list;
        var freed, i := EvictOne();
        match freed
        case Some(n) =>
          SizeRemoveAt(before, i);
          assert i == 0 ==> RemoveAt(before, i) == before[1..];
          curBytes := curBytes - n;
        case None =>
          assert false;
          break;
      }
    }

    /** `insert`: kept unless it is larger than the whole cache, in place of any older data
        of its key, once the oldest blocks that must go have gone. */
    method Insert(key: nat, data: seq<byte>)
      requires Valid()
      modifies this
      ensures Valid() && turns == old(turns) + (if capBytes == 0 || |data| > capBytes then 0 else 1)
      ensures turns < U64 ==> list == Put(old(list), key, data, capBytes)
      ensures forall k :: k in entries ==>
                if k == key then entries[k].data == data || (k in old(entries) && entries[k] == old(entries)[k])
                else k in old(entries) && entries[k].data == old(entries)[k].data
    ensures if capBytes == 0 || |data| > capBytes then entries == old(entries) else key in entries && entries[key].data == data
    {
      if capBytes == 0 || |data| > capBytes { return; }
      Forget(key);
      ghost var kept := list;
      MakeRoom(|data|);
      ghost var room, was := list, tick;
      Advance();
      AppendLists(list, entries, Block(key, data), Entry(data, tick));
      if turns < U64 { AppendOrdered(list, entries, Block(key, data), Entry(data, tick), was); }
      SizeConcat(list, [Block(key, data)]);
      assert [Block(key, data)][1..] == [];
      curBytes := curBytes + |data|;
      list := list + [Block(key, data)];
      entries := entries[key := Entry(data, tick)];
    }

    /** `entries.remove(&key)`, and its bytes. */
    method Forget(key: nat)
      requires Valid()
      modifies `entries, `list, `curBytes
      ensures Valid() && list == Without(old(list), key) && entries == old(entries) - {key}
    {
      if key in entries {
        ghost var i := Find(list, key).value;
        assert KeyAt(list, i) == key;
        RemoveLists(list, entries, i, key);
        if turns < U64 { RemoveOrdered(list, entries, i, key, tick); }
        SizeRemoveAt(list, i);
        curBytes := curBytes - |entries[key].data|;
        list := RemoveAt(list, i);
        entries := entries - {key};
      } else {
        NotListed(list, entries, key);
        assert entries - {key} == entries;
      }
    }
  }

  // ----- runs -----

  datatype Call = Get(key: nat) | Insert(key: nat, data: seq<byte>)

  function Step(list: seq<Block>, call: Call, cap: nat): seq<Block>
  {
    match call
    case Get(key) => Touch(list, key)
    case Insert(key, data) => Put(list, key, data, cap)
  }

  /** The list after the first `n` calls, `step` being what one does. */
  function Replayed(step: (seq<Block>, Call) -> seq<Block>, list: seq<Block>, calls: seq<Call>, n: nat): seq<Block>
    requires n <= |calls|
  {
    if n == 0 then list else step(Replayed(step, list, calls, n - 1), calls[n - 1])
  }

  // ----- the list is in the order of last use -----

  /** A call that makes its key the newest, if it is held at all: a `get`, or an `insert` that is
      not declined. */
  predicate Uses(call: Call, key: nat, cap: nat)
  {
    call.key == key && (call.Insert? ==> 0 < cap && |call.data| <= cap)
  }

  /** The last of the first `n` calls that uses a key. */
  function LastUse(calls: seq<Call>, cap: nat, key: nat, n: nat): (r: int)
    requires n <= |calls|
    ensures r < n
  {
    if n == 0 then -1 else if Uses(calls[n - 1], key, cap) then n - 1 else LastUse(calls, cap, key, n - 1)
  }

  /** Keys further on were used later. */
  ghost predicate InOrder(list: seq<Block>, use: nat -> int)
  {
    forall i: nat, j: nat :: i < j < |list| ==> use(KeyAt(list, i)) < use(KeyAt(list, j))
  }

  lemma {:induction false} OrderWithout(list: seq<Block>, use: nat -> int, key: nat)
    requires InOrder(list, use)
    ensures InOrder(Without(list, key), use) && Find(Without(list, key), key).None?
  {
    var rest := Without(list, key);
    if Find(list, key).Some? {
      var k := Find(list, key).value;
      forall i: nat, j: nat | i < j < |rest|
        ensures use(KeyAt(rest, i)) < use(KeyAt(rest, j))
      {
        assert KeyAt(rest, i) == KeyAt(list, if i < k then i else i + 1) && KeyAt(rest, j) == KeyAt(list, if j < k then j else j + 1);
      }
      forall i: nat | i < |rest|
        ensures rest[i].key != key
      {
        var at := if i < k then i else i + 1;
        assert KeyAt(rest, i) == KeyAt(list, at) && KeyAt(list, k) == key && at != k;
      }
    }
  }

  lemma {:induction false} OrderAfter(list: seq<Block>, use: nat -> int, key: nat, n: nat)
    requires n <= |list| && InOrder(list, use) && Find(list, key).None?
    ensures InOrder(list[n..], use) && Find(list[n..], key).None?
  {
    var rest := list[n..];
    forall i: nat, j: nat | i < j < |rest|
      ensures use(KeyAt(rest, i)) < use(KeyAt(rest, j))
    {
      assert KeyAt(rest, i) == KeyAt(list, n + i) && KeyAt(rest, j) == KeyAt(list, n + j);
    }
  }

  lemma {:induction false} OrderAppended(list: seq<Block>, use: nat -> int, after: nat -> int, b: Block)
    requires InOrder(list, use) && Find(list, b.key).None?
    requires forall key: nat :: if key == b.key then after(key) > use(key) else after(b.key) > after(key) == use(key)
    ensures InOrder(list + [b], after)
  {
    forall i: nat, j: nat | i < j < |list + [b]|
      ensures after(KeyAt(list + [b], i)) < after(KeyAt(list + [b], j))
    {
      assert KeyAt(list + [b], i) == KeyAt(list, i);
      if j < |list| { assert KeyAt(list + [b], j) == KeyAt(list, j); }
    }
  }

  lemma {:induction false} OrderUnchanged(list: seq<Block>, use: nat -> int, after: nat -> int, key: nat)
    requires InOrder(list, use) && Find(list, key).None? && forall other: nat :: other != key ==> after(other) == use(other)
    ensures InOrder(list, after)
  {
  }

  /** Over any run from an empty cache, the list holds its keys in the order of their last use;
      so what eviction drops, which is the front of it, is what was used least recently. */
  lemma {:induction false} ListIsByUse(step: (seq<Block>, Call) -> seq<Block>, calls: seq<Call>, cap: nat, n: nat)
    requires n <= |calls| && forall l, k {:trigger Step(l, k, cap)} :: step(l, k) == Step(l, k, cap)
    ensures InOrder(Replayed(step, [], calls, n), (key: nat) => LastUse(calls, cap, key, n))
  {
    if n > 0 {
      ListIsByUse(step, calls, cap, n - 1);
      var list, call := Replayed(step, [], calls, n - 1), calls[n - 1];
      var use, after := (key: nat) => LastUse(calls, cap, key, n - 1), (key: nat) => LastUse(calls, cap, key, n);
      assert step(list, call) == Step(list, call, cap);
      StepKeepsOrder(list, call, cap, use, after, n - 1);
    }
  }

  lemma {:induction false} StepKeepsOrder(list: seq<Block>, call: Call, cap: nat, use: nat -> int, after: nat -> int, now: nat)
    requires InOrder(list, use) && forall key: nat :: use(key) < now
    requires forall key: nat :: after(key) == if Uses(call, key, cap) then now else use(key)
    ensures InOrder(Step(list, call, cap), after)
  {
    match call
    case Get(key) =>
      if Find(list, key).Some? {
        OrderWithout(list, use, key);
        OrderAppended(Without(list, key), use, after, list[Find(list, key).value]);
      } else {
        OrderUnchanged(list, use, after, key);
      }
    case Insert(key, data) =>
      if 0 < cap && |data| <= cap {
        OrderWithout(list, use, key);
        var n := EvictIsShortest(Without(list, key), |data|, cap);
        OrderAfter(Without(list, key), use, key, n);
        OrderAppended(Without(list, key)[n..], use, after, Block(key, data));
      }
  }

  // ----- runs of the cache -----

  /** What is cached is the block of its key. */
  ghost predicate Coherent(entries: map<nat, Entry>, block: nat -> seq<byte>)
  {
    forall k {:trigger block(k)} :: k in entries ==> entries[k].data == block(k)
  }

  /** An answer to a call: nothing, or the block that was asked for. */
  ghost predicate Right(call: Call, answer: Option<seq<byte>>, block: nat -> seq<byte>)
  {
    call.Get? && answer.Some? ==> answer.value == block(call.key)
  }

  /** A call that finds its block in the list. */
  predicate Hits(list: seq<Block>, call: Call)
  {
    call.Get? && Find(list, call.key).Some?
  }

  /** Call `i` is answered exactly when it finds its block in the list as it then is. */
  ghost predicate AnsweredIfHeld(step: (seq<Block>, Call) -> seq<Block>, list: seq<Block>, calls: seq<Call>, answers: seq<Option<seq<byte>>>, i: nat)
    requires i < |answers| <= |calls|
  {
    answers[i].Some? <==> Hits(Replayed(step, list, calls, i), calls[i])
  }

  method ReplayOne(c: BlockCache, call: Call, ghost block: nat -> seq<byte>, ghost step: (seq<Block>, Call) -> seq<Block>)
    returns (answer: Option<seq<byte>>)
    requires c.Valid() && Coherent(c.entries, block) && (call.Insert? ==> call.data == block(call.key))
    requires forall l, k {:trigger Step(l, k, c.capBytes)} :: step(l, k) == Step(l, k, c.capBytes)
    modifies c
    ensures c.Valid() && Coherent(c.entries, block) && Right(call, answer, block) && c.turns >= old(c.turns)
    ensures c.turns < U64 ==> c.list == step(old(c.list), call)
    ensures answer.Some? <==> Hits(old(c.list), call)
  {
    assert step(c.list, call) == Step(c.list, call, c.capBytes);
    match call
    case Get(key) =>
      assert block(key) == block(key);
      if key !in c.entries { NotListed(c.list, c.entries, key); }
      answer := c.Get(key);
    case Insert(key, data) =>
      c.Insert(key, data);
      answer := None;
  }

  /** Over any run of calls whose inserts carry their key's immutable block: a `get` answers
      that block or nothing; the bytes held never exceed the cap; and until the tick wraps
      the cache is the most-recently-used list, and a `get` answers whenever its key is in it. */
  method Replay(c: BlockCache, calls: seq<Call>, ghost block: nat -> seq<byte>, ghost step: (seq<Block>, Call) -> seq<Block>)
    returns (answers: seq<Option<seq<byte>>>)
    requires c.Valid() && Coherent(c.entries, block)
    requires forall i {:trigger calls[i]} :: 0 <= i < |calls| && calls[i].Insert? ==> calls[i].data == block(calls[i].key)
    requires forall l, k {:trigger Step(l, k, c.capBytes)} :: step(l, k) == Step(l, k, c.capBytes)
    modifies c
    ensures c.Valid() && Coherent(c.entries, block) && c.curBytes <= c.capBytes
    ensures |answers| == |calls| && forall i :: 0 <= i < |calls| ==> Right(calls[i], answers[i], block)
    ensures c.turns < U64 ==>
              && c.list == Replayed(step, old(c.list), calls, |calls|)
              && forall i: nat {:trigger AnsweredIfHeld(step, old(c.list), calls, answers, i)} ::
                   i < |calls| ==> AnsweredIfHeld(step, old(c.list), calls, answers, i)
  {
    answers := [];
    for n := 0 to |calls|
      invariant c.Valid() && Coherent(c.entries, block) && |answers| == n
      invariant forall i :: 0 <= i < n ==> Right(calls[i], answers[i], block)
      invariant c.turns < U64 ==>
                  && c.list == Replayed(step, old(c.list), calls, n)
                  && forall i: nat {:trigger AnsweredIfHeld(step, old(c.list), calls, answers, i)} ::
                       i < n ==> AnsweredIfHeld(step, old(c.list), calls, answers, i)
    {
      ghost var so := answers;
      var answer := ReplayOne(c, calls[n], block, step);
      answers := answers + [answer];
      forall i: nat {:trigger AnsweredIfHeld(step, old(c.list), calls, answers, i)} | i < n
        ensures AnsweredIfHeld(step, old(c.list), calls, answers, i) == AnsweredIfHeld(step, old(c.list), calls, so, i)
      {
        assert answers[i] == so[i];
      }
    }
  }
}
