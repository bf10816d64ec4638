/** What every frontend hands across (`crates/lamfold/src/frontend.rs`), and how a path is
    cut into components (`crates/lamfold/src/path.rs`). Names are byte strings. */
module Frontend {
  import opened Bytes

  datatype FileKind = Regular | Directory | Symlink | Other

  type Name = seq<byte>

  const SLASH: byte := 0x2f
  const DOT: Name := [0x2e]
  const DOTDOT: Name := [0x2e, 0x2e]

  /** One more byte of a path being split. */
  function PushByte(names: seq<Name>, b: byte): (r: seq<Name>)
    requires |names| > 0
    ensures |r| > 0
  {
    if b == SLASH then names + [[]] else names[..|names| - 1] + [names[|names| - 1] + [b]]
  }

  /** `path.split('/')`. */
  function Split(path: seq<byte>): (r: seq<Name>)
    ensures |r| > 0
  {
    if path == [] then [[]] else PushByte(Split(path[..|path| - 1]), path[|path| - 1])
  }

  /** Empty names and `.` are dropped. */
  function Kept(names: seq<Name>): seq<Name>
  {
    if names == [] then []
    else
      var init, last := Kept(names[..|names| - 1]), names[|names| - 1];
      if last == [] || last == DOT then init else init + [last]
  }

  function Components(path: seq<byte>): seq<Name>
  {
    Kept(Split(path))
  }

  lemma {:induction false} PushByteAfter(s: seq<Name>, t: seq<Name>, b: byte)
    requires |t| > 0
    ensures PushByte(s + t, b) == s + PushByte(t, b)
  {
    assert (s + t)[..|s + t| - 1] == s + t[..|t| - 1];
  }

  lemma {:induction false} SplitPush(p: seq<byte>, b: byte)
    ensures Split(p + [b]) == PushByte(Split(p), b)
  {
    assert (p + [b])[..|p|] == p;
  }

  lemma {:induction false} SplitJoins(p: seq<byte>, q: seq<byte>)
    ensures Split(p + [SLASH] + q) == Split(p) + Split(q)
    decreases |q|
  {
    if q == [] {
      assert p + [SLASH] + q == p + [SLASH];
      SplitPush(p, SLASH);
    } else {
      var init, last := q[..|q| - 1], q[|q| - 1];
      SplitJoins(p, init);
      assert p + [SLASH] + q == p + [SLASH] + init + [last];
      SplitPush(p + [SLASH] + init, last);
      PushByteAfter(Split(p), Split(init), last);
    }
  }

  lemma {:induction false} KeptDistributes(a: seq<Name>, b: seq<Name>)
    ensures Kept(a + b) == Kept(a) + Kept(b)
    decreases |b|
  {
    if b == [] {
      assert a + b == a;
    } else {
      assert (a + b)[..|a + b| - 1] == a + b[..|b| - 1];
      KeptDistributes(a, b[..|b| - 1]);
    }
  }

  /** Paths compose: joined by a slash, the components follow one another. */
  lemma {:induction false} ComponentsJoin(p: seq<byte>, q: seq<byte>)
    ensures Components(p + [SLASH] + q) == Components(p) + Components(q)
  {
    SplitJoins(p, q);
    KeptDistributes(Split(p), Split(q));
  }

  lemma {:induction false} KeptAreNames(names: seq<Name>)
    ensures forall c :: c in Kept(names) ==> c != [] && c != DOT && c in names
  {
    if names != [] {
      KeptAreNames(names[..|names| - 1]);
    }
  }

  lemma {:induction false} SplitHasNoSlash(path: seq<byte>)
    ensures forall c :: c in Split(path) ==> SLASH !in c
  {
    if path != [] { SplitHasNoSlash(path[..|path| - 1]); }
  }

  /** A component is never empty, never `.`, and holds no slash. */
  lemma {:induction false} ComponentsAreNames(path: seq<byte>)
    ensures forall c :: c in Components(path) ==> c != [] && c != DOT && SLASH !in c
  {
    KeptAreNames(Split(path));
    SplitHasNoSlash(path);
  }

  // ----- paths as they are written -----

  /** Names joined by slashes. */
  function Joined(names: seq<Name>): seq<byte>
    requires names != []
  {
    if |names| == 1 then names[0] else Joined(names[..|names| - 1]) + [0x2f] + names[|names| - 1]
  }

  lemma {:induction false} SplitOfOne(name: Name)
    requires 0x2f !in name
    ensures Split(name) == [name]
  {
    if name != [] {
      SplitOfOne(name[..|name| - 1]);
      assert name == name[..|name| - 1] + [name[|name| - 1]];
    }
  }

  /** Splitting undoes joining, of any names without a slash. */
  lemma {:induction false} SplitUndoesJoin(names: seq<Name>)
    requires names != [] && forall k :: 0 <= k < |names| ==> 0x2f !in names[k]
    ensures Split(Joined(names)) == names
  {
    var last := names[|names| - 1];
    SplitOfOne(last);
    if |names| > 1 {
      SplitUndoesJoin(names[..|names| - 1]);
      SplitJoins(Joined(names[..|names| - 1]), last);
      assert names == names[..|names| - 1] + [last];
    } else {
      assert names == [last];
    }
  }

  lemma {:induction false} JoinedPush(names: seq<Name>, b: byte)
    requires names != []
    ensures Joined(PushByte(names, b)) == Joined(names) + [b]
  {
    var init, last := names[..|names| - 1], names[|names| - 1];
    if b == 0x2f {
      assert (names + [[]])[..|names|] == names;
    } else {
      assert (init + [last + [b]])[..|names| - 1] == init;
    }
  }

  lemma {:induction false} JoinOfPushed(init: seq<byte>, names: seq<Name>, b: byte)
    requires names == Split(init) && Joined(names) == init
    ensures Joined(Split(init + [b])) == init + [b]
  {
    SplitPush(init, b);
    JoinedPush(names, b);
  }

  /** Joining undoes splitting, of any path. */
  lemma {:induction false} JoinUndoesSplit(path: seq<byte>)
    ensures Joined(Split(path)) == path
  {
    if path != [] {
      var init := path[..|path| - 1];
      JoinUndoesSplit(init);
      JoinOfPushed(init, Split(init), path[|path| - 1]);
      assert init + [path[|path| - 1]] == path;
    }
  }

  /** A name is kept in its place exactly when it is neither empty nor a single dot. */
  lemma {:induction false} KeptIff(before: seq<Name>, name: Name, after: seq<Name>)
    ensures Kept(before + [name] + after)
            == Kept(before) + (if name == [] || name == [0x2e] then [] else [name]) + Kept(after)
  {
    KeptDistributes(before + [name], after);
    assert (before + [name])[..|before|] == before;
  }

  /** A name that is kept, and holds no slash. */
  ghost predicate Proper(name: Name)
  {
    name != [] && name != [0x2e] && 0x2f !in name
  }

  lemma {:induction false} AllKept(names: seq<Name>)
    requires forall k :: 0 <= k < |names| ==> Proper(names[k])
    ensures Kept(names) == names
  {
    if names != [] {
      var init, last := names[..|names| - 1], names[|names| - 1];
      AllKept(init);
      assert Proper(last) && names == init + [last];
    }
  }

  lemma {:induction false} NothingKept()
    ensures Components([]) == []
  {
    assert Split([])[..0] == [];
  }

  lemma {:induction false} SlashBefore(none: seq<byte>, path: seq<byte>)
    requires none == []
    ensures none + [SLASH] + path == [SLASH] + path
  {
  }

  /** A slash before a path or behind it changes no component. */
  lemma {:induction false} OuterSlashes(path: seq<byte>)
    ensures Components([0x2f] + path) == Components(path) == Components(path + [0x2f])
  {
    NothingKept();
    SlashBefore([], path);
    ComponentsJoin([], path);
    ComponentsJoin(path, []);
  }

  /** A written path's components are its names. */
  lemma {:induction false} ComponentsOfJoined(names: seq<Name>)
    requires names != [] && forall k :: 0 <= k < |names| ==> Proper(names[k])
    ensures Components(Joined(names)) == names
  {
    SplitUndoesJoin(names);
    AllKept(names);
  }
}
