/** Resolving a path on any frontend (`crates/lamfold/src/path.rs`): a stack machine that
    follows symbolic links, proved equal to a recursive walk that says what a path means. */
module PathResolver {
  import opened Bytes
  import opened Frontend

  const MAX_SYMLINKS: nat := 16

  /** A frontend over immutable media: what its methods answer. A read returns the bytes it
      put at the front of the caller's buffer. */
  datatype Fs = Fs(
    root: nat,
    lookup: (nat, Name) -> Result<Option<nat>>,
    kind: nat -> Result<FileKind>,
    size: nat -> Result<nat>,
    readLink: nat -> Result<Option<seq<byte>>>,
    readAt: (nat, nat, nat) -> Result<seq<byte>>,
    utf8: seq<byte> -> bool)

  /** Where a walk stands: the node, and how many links it has followed. */
  datatype Place = Place(node: nat, links: nat)

  function IsAbsolute(path: seq<byte>): bool
  {
    |path| > 0 && path[0] == SLASH
  }

  /** What a link reads as, or why it cannot be followed. */
  function Target(fs: Fs, link: nat): Result<seq<byte>>
  {
    var target :- fs.readLink(link);
    if target.None? then Err(Corrupt)
    else if !fs.utf8(target.value) then Err(InvalidPath)
    else Ok(target.value)
  }

  /** One component: the child it names, and whether that is a link. */
  function Enter(fs: Fs, node: nat, name: Name): Result<(nat, bool)>
  {
    if name == DOTDOT then Err(InvalidPath)
    else
      var found :- fs.lookup(node, name);
      if found.None? then Err(NotFound)
      else
        var kind :- fs.kind(found.value);
        Ok((found.value, kind == Symlink))
  }

  // ----- what a path means -----

  /** Walk components `k..` from a place. A link is walked to its own end, from the root if
      its target is absolute, and the rest of the path goes on from there. */
  function Walk(fs: Fs, at: Place, comps: seq<Name>, k: nat): (r: Result<Place>)
    requires at.links <= MAX_SYMLINKS && k <= |comps|
    ensures r.Ok? ==> at.links <= r.value.links <= MAX_SYMLINKS
    decreases MAX_SYMLINKS - at.links, |comps| - k
  {
    if k == |comps| then Ok(at)
    else
      var (child, isLink) :- Enter(fs, at.node, comps[k]);
      if !isLink then Walk(fs, at.(node := child), comps, k + 1)
      else if at.links == MAX_SYMLINKS then Err(InvalidPath)
      else
        var target :- Target(fs, child);
        var end :- Walk(fs, Place(if IsAbsolute(target) then fs.root else at.node, at.links + 1), Components(target), 0);
        Walk(fs, end, comps, k + 1)
  }

  /** Walk one list and then another. */
  function WalkBoth(fs: Fs, at: Place, p: seq<Name>, k: nat, q: seq<Name>): Result<Place>
    requires at.links <= MAX_SYMLINKS && k <= |p|
  {
    var mid :- Walk(fs, at, p, k);
    Walk(fs, mid, q, 0)
  }

  /** A walk of two lists is a walk of one, and of the other from there, the count of links
      going on. */
  lemma {:induction false} WalkJoins(fs: Fs, at: Place, p: seq<Name>, k: nat, q: seq<Name>)
    requires at.links <= MAX_SYMLINKS && k <= |p|
    ensures Walk(fs, at, p + q, k) == WalkBoth(fs, at, p, k, q)
    decreases MAX_SYMLINKS - at.links, |p| - k
  {
    if k == |p| {
      WalkSuffix(fs, at, p, q, 0);
    } else {
      var step := Enter(fs, at.node, p[k]);
      if step.Ok? {
        var (child, isLink) := step.value;
        if !isLink {
          WalkJoins(fs, at.(node := child), p, k + 1, q);
        } else if at.links < MAX_SYMLINKS {
          var target := Target(fs, child);
          if target.Ok? {
            var from := if IsAbsolute(target.value) then fs.root else at.node;
            var end := Walk(fs, Place(from, at.links + 1), Components(target.value), 0);
            if end.Ok? { WalkJoins(fs, end.value, p, k + 1, q); }
          }
        }
      }
    }
  }

  /** What comes before the components still to walk does not matter. */
  lemma {:induction false} WalkSuffix(fs: Fs, at: Place, p: seq<Name>, q: seq<Name>, k: nat)
    requires at.links <= MAX_SYMLINKS && k <= |q|
    ensures Walk(fs, at, p + q, |p| + k) == Walk(fs, at, q, k)
    decreases MAX_SYMLINKS - at.links, |q| - k
  {
    if k < |q| {
      var step := Enter(fs, at.node, q[k]);
      if step.Ok? {
        var (child, isLink) := step.value;
        if !isLink {
          WalkSuffix(fs, at.(node := child), p, q, k + 1);
        } else if at.links < MAX_SYMLINKS {
          var target := Target(fs, child);
          if target.Ok? {
            var from := if IsAbsolute(target.value) then fs.root else at.node;
            var end := Walk(fs, Place(from, at.links + 1), Components(target.value), 0);
            if end.Ok? { WalkSuffix(fs, end.value, p, q, k + 1); }
          }
        }
      }
    }
  }

  /** What `resolve` returns. */
  function Resolved(fs: Fs, path: seq<byte>): Result<nat>
  {
    var end :- Walk(fs, Place(fs.root, 0), Components(path), 0);
    Ok(end.node)
  }

  /** Resolving `p/q` is resolving `q` from where `p` leads. */
  lemma {:induction false} ResolveJoins(fs: Fs, p: seq<byte>, q: seq<byte>)
    ensures Resolved(fs, p + [SLASH] + q)
            == (var mid :- Walk(fs, Place(fs.root, 0), Components(p), 0);
                var end :- Walk(fs, mid, Components(q), 0);
                Ok(end.node))
  {
    ComponentsJoin(p, q);
    WalkJoins(fs, Place(fs.root, 0), Components(p), 0, Components(q));
  }

  /** A walk ends where it began, at the root, or at something that is not a link. */
  lemma {:induction false} EndIsNoLink(fs: Fs, at: Place, comps: seq<Name>, k: nat)
    requires at.links <= MAX_SYMLINKS && k <= |comps|
    ensures var r := Walk(fs, at, comps, k);
            r.Ok? ==> r.value.node == at.node || r.value.node == fs.root
                      || (fs.kind(r.value.node).Ok? && fs.kind(r.value.node).value != Symlink)
    decreases MAX_SYMLINKS - at.links, |comps| - k
  {
    if k < |comps| {
      var step := Enter(fs, at.node, comps[k]);
      if step.Ok? {
        var (child, isLink) := step.value;
        if !isLink {
          EndIsNoLink(fs, at.(node := child), comps, k + 1);
        } else if at.links < MAX_SYMLINKS && Target(fs, child).Ok? {
          var target := Target(fs, child).value;
          var from := Place(if IsAbsolute(target) then fs.root else at.node, at.links + 1);
          EndIsNoLink(fs, from, Components(target), 0);
          var end := Walk(fs, from, Components(target), 0);
          if end.Ok? { EndIsNoLink(fs, end.value, comps, k + 1); }
        }
      }
    }
  }

  /** A link that names itself is refused, not followed forever. */
  lemma {:induction false} SelfLinkRefused(fs: Fs, at: Place, name: Name, link: nat, target: seq<byte>)
    requires at.links <= MAX_SYMLINKS && Enter(fs, at.node, name) == Ok((link, true))
    requires Target(fs, link) == Ok(target) && !IsAbsolute(target) && Components(target) == [name]
    ensures Walk(fs, at, [name], 0) == Err(InvalidPath)
    decreases MAX_SYMLINKS - at.links
  {
    if at.links < MAX_SYMLINKS { SelfLinkRefused(fs, at.(links := at.links + 1), name, link, target); }
  }

  // ----- the stack machine -----

  function Reversed(names: seq<Name>): (r: seq<Name>)
    ensures |r| == |names|
  {
    seq(|names|, k requires 0 <= k < |names| => names[|names| - 1 - k])
  }

  /** `push_components`: pushed in reverse, so that they pop left to right. */
  method PushComponents(path: seq<byte>, stack: seq<Name>) returns (r: seq<Name>)
    ensures r == stack + Reversed(Components(path))
  {
    var comps := Components(path);
    r := stack;
    for i := 0 to |comps|
      invariant r == stack + Reversed(comps)[..i]
    {
      assert Reversed(comps)[..i + 1] == Reversed(comps)[..i] + [comps[|comps| - 1 - i]];
      r := r + [comps[|comps| - 1 - i]];
    }
    assert Reversed(comps)[..|comps|] == Reversed(comps);
  }

  lemma {:induction false} PopHeld(stack: seq<Name>, comps: seq<Name>)
    requires stack == Reversed(comps) && comps != []
    ensures stack[|stack| - 1] == comps[0] && stack[..|stack| - 1] == Reversed(comps[1..])
  {
  }

  lemma {:induction false} PushHeld(rest: seq<Name>, comps: seq<Name>, more: seq<Name>)
    requires rest == Reversed(comps)
    ensures rest + Reversed(more) == Reversed(more + comps)
  {
  }

  /** Where the machine ends up, as a node. */
  function EndOf(r: Result<Place>): Result<nat>
  {
    var end :- r;
    Ok(end.node)
  }

  lemma {:induction false} WalkFrom(fs: Fs, at: Place, comps: seq<Name>, k: nat)
    requires at.links <= MAX_SYMLINKS && k <= |comps|
    ensures Walk(fs, at, comps, k) == Walk(fs, at, comps[k..], 0)
  {
    assert comps[..k] + comps[k..] == comps;
    WalkSuffix(fs, at, comps[..k], comps[k..], 0);
  }

  /** `resolve`, on any frontend, cyclic links included. */
  method Resolve(fs: Fs, path: seq<byte>) returns (r: Result<nat>)
    ensures r == Resolved(fs, path)
  {
    var node: nat := fs.root;
    var pending := PushComponents(path, []);
    var links: nat := 0;
    ghost var todo := Components(path);
    assert [] + Reversed(todo) == Reversed(todo);
    while pending != []
      invariant links <= MAX_SYMLINKS && pending == Reversed(todo)
      invariant EndOf(Walk(fs, Place(node, links), todo, 0)) == Resolved(fs, path)
      decreases MAX_SYMLINKS - links, |pending|
    {
      PopHeld(pending, todo);
      var comp := pending[|pending| - 1];
      pending := pending[..|pending| - 1];
      WalkFrom(fs, Place(node, links), todo, 0);
      var step := Enter(fs, node, comp);
      if step.Err? { return Err(step.error); }
      var (child, isLink) := step.value;
      if isLink {
        if links + 1 > MAX_SYMLINKS { return Err(InvalidPath); }
        var target := Target(fs, child);
        if target.Err? { return Err(target.error); }
        var from := if IsAbsolute(target.value) then fs.root else node;
        LinkUnfolds(fs, Place(node, links), todo, child, target.value);
        PushHeld(pending, todo[1..], Components(target.value));
        pending := PushComponents(target.value, pending);
        node, links, todo := from, links + 1, Components(target.value) + todo[1..];
      } else {
        ChildUnfolds(fs, Place(node, links), todo, child);
        node, todo := child, todo[1..];
      }
    }
    r := Ok(node);
  }

  lemma {:induction false} ChildUnfolds(fs: Fs, at: Place, todo: seq<Name>, child: nat)
    requires at.links <= MAX_SYMLINKS && todo != [] && Enter(fs, at.node, todo[0]) == Ok((child, false))
    ensures Walk(fs, at, todo, 0) == Walk(fs, at.(node := child), todo[1..], 0)
  {
    WalkFrom(fs, at.(node := child), todo, 1);
  }

  /** Pushing a link's components in front of the rest is walking the link, then the rest. */
  lemma {:induction false} LinkUnfolds(fs: Fs, at: Place, todo: seq<Name>, child: nat, target: seq<byte>)
    requires at.links < MAX_SYMLINKS && todo != [] && Enter(fs, at.node, todo[0]) == Ok((child, true))
    requires Target(fs, child) == Ok(target)
    ensures Walk(fs, at, todo, 0)
            == Walk(fs, Place(if IsAbsolute(target) then fs.root else at.node, at.links + 1), Components(target) + todo[1..], 0)
  {
    var from := Place(if IsAbsolute(target) then fs.root else at.node, at.links + 1);
    WalkJoins(fs, from, Components(target), 0, todo[1..]);
    var end := Walk(fs, from, Components(target), 0);
    if end.Ok? { WalkFrom(fs, end.value, todo, 1); }
  }

  // ----- what resolving a path is -----

  /** The way a path leads: into children, and through links, whose names come before what is
      left of the path. */
  datatype Way = Arrived | Into(child: nat, on: Way) | Through(link: nat, target: seq<byte>, on: Way)
  {
    function Links(): nat
    {
      match this
      case Arrived => 0
      case Into(_, on) => on.Links()
      case Through(_, _, on) => on.Links() + 1
    }
  }

  /** `way` leads from node `at` along `names` to `to`: no name is "..", and a link's target is
      walked from the root if it begins with a slash, from the link's own directory otherwise. */
  ghost predicate Leads(fs: Fs, way: Way, at: nat, names: seq<Name>, to: nat)
  {
    match way
    case Arrived => names == [] && at == to
    case Into(child, on) =>
      && names != [] && names[0] != [0x2e, 0x2e] && fs.lookup(at, names[0]) == Ok(Some(child))
      && fs.kind(child).Ok? && fs.kind(child).value != Symlink && Leads(fs, on, child, names[1..], to)
    case Through(link, target, on) =>
      && names != [] && names[0] != [0x2e, 0x2e] && fs.lookup(at, names[0]) == Ok(Some(link))
      && fs.kind(link) == Ok(Symlink) && fs.readLink(link) == Ok(Some(target)) && fs.utf8(target)
      && Leads(fs, on, if target != [] && target[0] == 0x2f then fs.root else at, Components(target) + names[1..], to)
  }

  lemma {:induction false} WalkLeads(fs: Fs, at: Place, names: seq<Name>) returns (way: Way)
    requires at.links <= 16 && Walk(fs, at, names, 0).Ok?
    ensures var end := Walk(fs, at, names, 0).value;
            Leads(fs, way, at.node, names, end.node) && at.links + way.Links() == end.links <= 16
    decreases 16 - at.links, |names|
  {
    if names == [] {
      way := Arrived;
    } else {
      var (child, isLink) := Enter(fs, at.node, names[0]).value;
      if !isLink {
        ChildUnfolds(fs, at, names, child);
        var on := WalkLeads(fs, at.(node := child), names[1..]);
        way := Into(child, on);
      } else {
        var target := Target(fs, child).value;
        LinkUnfolds(fs, at, names, child, target);
        var on := WalkLeads(fs, Place(if IsAbsolute(target) then fs.root else at.node, at.links + 1), Components(target) + names[1..]);
        way := Through(child, target, on);
      }
    }
  }

  lemma {:induction false} LeadsWalk(fs: Fs, way: Way, at: Place, names: seq<Name>, to: nat)
    requires Leads(fs, way, at.node, names, to) && at.links + way.Links() <= 16
    ensures Walk(fs, at, names, 0) == Ok(Place(to, at.links + way.Links()))
    decreases way
  {
    match way
    case Arrived =>
    case Into(child, on) =>
      LeadsWalk(fs, on, at.(node := child), names[1..], to);
      ChildUnfolds(fs, at, names, child);
    case Through(link, target, on) =>
      var from := Place(if IsAbsolute(target) then fs.root else at.node, at.links + 1);
      LeadsWalk(fs, on, from, Components(target) + names[1..], to);
      LinkUnfolds(fs, at, names, link, target);
  }

  /** A path resolves to a node if and only if a way of at most 16 links leads there from the
      root. */
  lemma {:induction false} ResolvedIffLeads(fs: Fs, path: seq<byte>, to: nat)
    ensures Resolved(fs, path) == Ok(to) <==>
            exists way :: Leads(fs, way, fs.root, Components(path), to) && way.Links() <= 16
  {
    if Resolved(fs, path) == Ok(to) {
      var way := WalkLeads(fs, Place(fs.root, 0), Components(path));
    }
    if way :| Leads(fs, way, fs.root, Components(path), to) && way.Links() <= 16 {
      LeadsWalk(fs, way, Place(fs.root, 0), Components(path), to);
    }
  }

  // ----- reading by path -----

  /** Reads of `node` are windows of `content`, possibly short, but empty only at its end. */
  ghost predicate ReadsFrom(fs: Fs, node: nat, content: seq<byte>)
  {
    forall off: nat, len: nat {:trigger fs.readAt(node, off, len)} ::
      var r := fs.readAt(node, off, len);
      r.Ok? ==> && |r.value| <= len && off + |r.value| <= Max(off, |content|)
                && (|r.value| > 0 ==> r.value == content[off..off + |r.value|])
                && (r.value == [] ==> len == 0 || off >= |content|)
  }

  /** What `read_path` answers for `node`: the content clipped to the size the frontend states,
      of at most 512 MiB, or the first error met. */
  ghost predicate ReadsPath(fs: Fs, node: nat, content: seq<byte>, r: Result<seq<byte>>)
  {
    if fs.kind(node).Err? then r == Err(fs.kind(node).error)
    else if fs.kind(node).value == Directory then r == Err(IsDirectory)
    else if fs.size(node).Err? then r == Err(fs.size(node).error)
    else if fs.size(node).value > 0x2000_0000 then r == Err(FileTooLarge)
    else ReadsUpTo(fs, node, fs.size(node).value, content, r)
  }

  ghost predicate ReadsUpTo(fs: Fs, node: nat, total: nat, content: seq<byte>, r: Result<seq<byte>>)
  {
    match r
    case Ok(data) => data == content[..Min(total, |content|)]
    case Err(e) => exists off: nat, len: nat {:trigger fs.readAt(node, off, len)} :: off + len == total && fs.readAt(node, off, len) == Err(e)
  }

  /** `read_path`: however short the frontend's reads are, the whole file. */
  method ReadPath(fs: Fs, path: seq<byte>, ghost content: seq<byte>) returns (r: Result<seq<byte>>)
    requires Resolved(fs, path).Ok? ==> ReadsFrom(fs, Resolved(fs, path).value, content)
    ensures if Resolved(fs, path).Ok? then ReadsPath(fs, Resolved(fs, path).value, content, r) else r == Err(Resolved(fs, path).error)
  {
    var found := Resolve(fs, path);
    if found.Err? { return Err(found.error); }
    var node := found.value;
    var kind := fs.kind(node);
    if kind.Err? { return Err(kind.error); }
    if kind.value == Directory { return Err(IsDirectory); }
    var size := fs.size(node);
    if size.Err? { return Err(size.error); }
    var total := CheckedFullReadLen(size.value);
    if total.Err? { return Err(total.error); }
    r := ReadWhole(fs, node, total.value, content);
  }

  /** The loop of `read_path`. */
  method ReadWhole(fs: Fs, node: nat, total: nat, ghost content: seq<byte>) returns (r: Result<seq<byte>>)
    requires ReadsFrom(fs, node, content)
    ensures ReadsUpTo(fs, node, total, content, r)
  {
    var out: seq<byte> := [];
    while |out| < total
      invariant |out| <= Min(total, |content|) && out == content[..|out|]
      decreases total - |out|
    {
      var got := fs.readAt(node, |out|, total - |out|);
      if got.Err? { return Err(got.error); }
      if got.value == [] { break; }
      assert content[..|out| + |got.value|] == content[..|out|] + content[|out|..|out| + |got.value|];
      out := out + got.value;
    }
    r := Ok(out);
  }
}
