/** The tree a cpio archive is folded into (`crates/lamfold-cpio/src/cpio.rs`): nodes in a
    vector, linked by index. `insert` is proved to update a map from paths to attributes. */
module CpioTree {
  import opened Bytes
  import opened Frontend

  /** `len` bytes at `off` of buffer `buf`. */
  datatype Span = Span(buf: nat, off: nat, len: nat)

  datatype Attrs = Attrs(kind: FileKind, mode: nat, data: Span)

  datatype Node = Node(attrs: Attrs, children: map<Name, nat>)

  const IMPLIED: Attrs := Attrs(Directory, 0x1ed, Span(0, 0, 0))

  const ROOT: seq<Node> := [Node(IMPLIED, map[])]

  // ----- paths -----

  ghost predicate Edge(nodes: seq<Node>, parent: nat, name: Name, child: nat)
  {
    parent < |nodes| && name in nodes[parent].children && nodes[parent].children[name] == child
  }

  ghost predicate HasParent(nodes: seq<Node>, c: nat)
  {
    exists i: nat, n :: Edge(nodes, i, n, c)
  }

  /** Node 0 is the root; every other node has exactly one incoming edge, from a node with
      a smaller id. */
  ghost predicate Tree(nodes: seq<Node>)
  {
    && |nodes| > 0
    && (forall i: nat, n, c: nat :: Edge(nodes, i, n, c) ==> i < c < |nodes|)
    && (forall i: nat, n, c: nat, j: nat, m :: Edge(nodes, i, n, c) && Edge(nodes, j, m, c) ==> i == j && n == m)
    && (forall c: nat :: 0 < c < |nodes| ==> HasParent(nodes, c))
  }

  function Child(nodes: seq<Node>, at: Option<nat>, name: Name): Option<nat>
  {
    if at.Some? && at.value < |nodes| && name in nodes[at.value].children then Some(nodes[at.value].children[name]) else None
  }

  /** The node a path of components leads to from the root. */
  function Lookup(nodes: seq<Node>, path: seq<Name>): Option<nat>
  {
    if path == [] then Some(0) else Child(nodes, Lookup(nodes, path[..|path| - 1]), path[|path| - 1])
  }

  lemma {:induction false} LookupInRange(nodes: seq<Node>, path: seq<Name>)
    requires Tree(nodes)
    ensures Lookup(nodes, path).Some? ==> Lookup(nodes, path).value < |nodes| && (path != [] ==> Lookup(nodes, path).value > 0)
  {
    if path != [] && Lookup(nodes, path).Some? {
      var parent := Lookup(nodes, path[..|path| - 1]).value;
      assert Edge(nodes, parent, path[|path| - 1], Lookup(nodes, path).value);
    }
  }

  /** One node, one path. */
  lemma {:induction false} OnePath(nodes: seq<Node>, p: seq<Name>, q: seq<Name>)
    requires Tree(nodes) && Lookup(nodes, p).Some? && Lookup(nodes, p) == Lookup(nodes, q)
    ensures p == q
    decreases |p|
  {
    LookupInRange(nodes, p);
    LookupInRange(nodes, q);
    if p != [] && q != [] {
      var k, i, j := Lookup(nodes, p).value, Lookup(nodes, p[..|p| - 1]).value, Lookup(nodes, q[..|q| - 1]).value;
      assert Edge(nodes, i, p[|p| - 1], k) && Edge(nodes, j, q[|q| - 1], k);
      OnePath(nodes, p[..|p| - 1], q[..|q| - 1]);
      assert p == p[..|p| - 1] + [p[|p| - 1]] && q == q[..|q| - 1] + [q[|q| - 1]];
    }
  }

  /** Every node is reached. */
  lemma {:induction false} EveryNodeHasAPath(nodes: seq<Node>, c: nat) returns (path: seq<Name>)
    requires Tree(nodes) && c < |nodes|
    ensures Lookup(nodes, path) == Some(c)
    decreases c
  {
    if c == 0 {
      path := [];
    } else {
      assert HasParent(nodes, c);
      var i: nat, n :| Edge(nodes, i, n, c);
      var init := EveryNodeHasAPath(nodes, i);
      path := init + [n];
      assert path[..|path| - 1] == init;
    }
  }

  /** The archive as a map from paths to attributes. */
  function View(nodes: seq<Node>, path: seq<Name>): Option<Attrs>
  {
    var id := Lookup(nodes, path);
    if id.Some? && id.value < |nodes| then Some(nodes[id.value].attrs) else None
  }

  // ----- insert -----

  /** An explicit record fills in a node that exists already, unless it is a directory. */
  function Refill(nodes: seq<Node>, id: nat, a: Attrs): seq<Node>
    requires id < |nodes|
  {
    nodes[id := nodes[id].(attrs := a)]
  }

  function AddChild(nodes: seq<Node>, parent: nat, name: Name, a: Attrs): seq<Node>
    requires parent < |nodes|
  {
    nodes[parent := nodes[parent].(children := nodes[parent].children[name := |nodes|])] + [Node(a, map[])]
  }

  /** The rest of `insert`, from node `cur` on; in a tree every child is a node. */
  function InsertFrom(nodes: seq<Node>, cur: nat, comps: seq<Name>, a: Attrs): seq<Node>
    decreases |comps|
  {
    if comps == [] || cur >= |nodes| then nodes
    else
      var last := |comps| == 1;
      if comps[0] in nodes[cur].children then
        var next := nodes[cur].children[comps[0]];
        InsertFrom(if last && a.kind != Directory && next < |nodes| then Refill(nodes, next, a) else nodes, next, comps[1..], a)
      else
        InsertFrom(AddChild(nodes, cur, comps[0], if last then a else IMPLIED), |nodes|, comps[1..], a)
  }

  function Insert(nodes: seq<Node>, path: seq<byte>, a: Attrs): seq<Node>
  {
    InsertFrom(nodes, 0, Components(path), a)
  }

  // ----- one step of insert -----

  lemma {:induction false} RefillKeepsPaths(nodes: seq<Node>, id: nat, a: Attrs, q: seq<Name>)
    requires id < |nodes|
    ensures Lookup(Refill(nodes, id, a), q) == Lookup(nodes, q)
  {
    if q != [] { RefillKeepsPaths(nodes, id, a, q[..|q| - 1]); }
  }

  lemma {:induction false} RefillKeepsTree(nodes: seq<Node>, id: nat, a: Attrs)
    requires Tree(nodes) && id < |nodes|
    ensures Tree(Refill(nodes, id, a))
  {
    var after := Refill(nodes, id, a);
    assert forall i: nat, n, c: nat :: Edge(after, i, n, c) <==> Edge(nodes, i, n, c);
    forall c: nat | 0 < c < |after|
      ensures HasParent(after, c)
    {
      assert HasParent(nodes, c);
      var i: nat, n :| Edge(nodes, i, n, c);
      assert Edge(after, i, n, c);
    }
  }

  lemma {:induction false} AddChildEdges(nodes: seq<Node>, parent: nat, name: Name, a: Attrs)
    requires Tree(nodes) && parent < |nodes| && name !in nodes[parent].children
    ensures forall i: nat, n, c: nat :: Edge(AddChild(nodes, parent, name, a), i, n, c)
                              <==> Edge(nodes, i, n, c) || (i == parent && n == name && c == |nodes|)
  {
  }

  lemma {:induction false} AddChildKeepsTree(nodes: seq<Node>, parent: nat, name: Name, a: Attrs)
    requires Tree(nodes) && parent < |nodes| && name !in nodes[parent].children
    ensures Tree(AddChild(nodes, parent, name, a))
  {
    AddChildEdges(nodes, parent, name, a);
    var after := AddChild(nodes, parent, name, a);
    forall c: nat | 0 < c < |after|
      ensures HasParent(after, c)
    {
      if c < |nodes| {
        assert HasParent(nodes, c);
        var i: nat, n :| Edge(nodes, i, n, c);
        assert Edge(after, i, n, c);
      } else {
        assert Edge(after, parent, name, c);
      }
    }
  }

  /** A new child adds its own path and no other. */
  lemma {:induction false} AddChildPaths(nodes: seq<Node>, p: seq<Name>, parent: nat, name: Name, a: Attrs, q: seq<Name>)
    requires Tree(nodes) && parent < |nodes| && name !in nodes[parent].children && Lookup(nodes, p) == Some(parent)
    ensures Lookup(AddChild(nodes, parent, name, a), q)
            == if q == p + [name] then Some(|nodes|) else Lookup(nodes, q)
  {
    if q != [] {
      var init, last := q[..|q| - 1], q[|q| - 1];
      AddChildPaths(nodes, p, parent, name, a, init);
      LookupInRange(nodes, init);
      assert q == init + [last];
      if init == p + [name] {
        NewPathIsNew(nodes, p, parent, name);
      } else if Lookup(nodes, init) == Some(parent) {
        OnePath(nodes, init, p);
      }
    } else {
      assert |p + [name]| > 0;
    }
    AddChildTarget(p, name, q);
  }

  lemma {:induction false} AddChildTarget(p: seq<Name>, name: Name, q: seq<Name>)
    ensures q == p + [name] <==> |q| == |p| + 1 && q[..|p|] == p && q[|p|] == name
  {
    if |q| == |p| + 1 && q[..|p|] == p && q[|p|] == name { assert q == q[..|p|] + [q[|p|]]; }
  }

  lemma {:induction false} NewPathIsNew(nodes: seq<Node>, p: seq<Name>, parent: nat, name: Name)
    requires parent < |nodes| && name !in nodes[parent].children && Lookup(nodes, p) == Some(parent)
    ensures Lookup(nodes, p + [name]).None?
  {
    assert (p + [name])[..|p|] == p;
  }

  // ----- what insert does to the map -----

  /** What a record at `target` makes of the attributes at path `q`: the target gets the
      record's, unless a directory record meets something there; prefixes that were missing
      become directories that all may read and search; every other path keeps what it had. */
  function Updated(was: Option<Attrs>, target: seq<Name>, a: Attrs, q: seq<Name>): Option<Attrs>
  {
    if q == target then if was.Some? && a.kind == Directory then was else Some(a)
    else if q < target && was.None? then Some(Attrs(Directory, 0x1ed, Span(0, 0, 0)))
    else was
  }

  ghost predicate Extends(nodes: seq<Node>, after: seq<Node>)
  {
    && |nodes| <= |after|
    && forall q :: Lookup(nodes, q).Some? ==> Lookup(after, q) == Lookup(nodes, q)
  }

  lemma {:induction false} RefillStays(nodes: seq<Node>, next: nat, a: Attrs)
    requires Tree(nodes) && next < |nodes|
    ensures Tree(Refill(nodes, next, a)) && Extends(nodes, Refill(nodes, next, a))
    ensures forall q :: Lookup(Refill(nodes, next, a), q) == Lookup(nodes, q)
  {
    RefillKeepsTree(nodes, next, a);
    forall q
      ensures Lookup(Refill(nodes, next, a), q) == Lookup(nodes, q)
    {
      RefillKeepsPaths(nodes, next, a, q);
    }
  }

  lemma {:induction false} AddChildStays(nodes: seq<Node>, p: seq<Name>, cur: nat, name: Name, b: Attrs)
    requires Tree(nodes) && cur < |nodes| && name !in nodes[cur].children && Lookup(nodes, p) == Some(cur)
    ensures Tree(AddChild(nodes, cur, name, b)) && Extends(nodes, AddChild(nodes, cur, name, b))
    ensures Lookup(AddChild(nodes, cur, name, b), p + [name]) == Some(|nodes|)
  {
    AddChildKeepsTree(nodes, cur, name, b);
    NewPathIsNew(nodes, p, cur, name);
    AddChildPaths(nodes, p, cur, name, b, p + [name]);
    forall q | Lookup(nodes, q).Some?
      ensures Lookup(AddChild(nodes, cur, name, b), q) == Lookup(nodes, q)
    {
      AddChildPaths(nodes, p, cur, name, b, q);
    }
  }

  lemma {:induction false} ChildLooksUp(nodes: seq<Node>, p: seq<Name>, cur: nat, name: Name)
    requires Tree(nodes) && cur < |nodes| && Lookup(nodes, p) == Some(cur) && name in nodes[cur].children
    ensures Lookup(nodes, p + [name]) == Some(nodes[cur].children[name]) && nodes[cur].children[name] < |nodes|
  {
    assert (p + [name])[..|p|] == p;
    LookupInRange(nodes, p + [name]);
  }

  lemma {:induction false} InsertStays(nodes: seq<Node>, p: seq<Name>, cur: nat, comps: seq<Name>, a: Attrs)
    requires Tree(nodes) && cur < |nodes| && Lookup(nodes, p) == Some(cur)
    ensures var after := InsertFrom(nodes, cur, comps, a); Tree(after) && Extends(nodes, after)
    decreases |comps|
  {
    if comps != [] {
      var last, p1 := |comps| == 1, p + [comps[0]];
      if comps[0] in nodes[cur].children {
        var next := nodes[cur].children[comps[0]];
        ChildLooksUp(nodes, p, cur, comps[0]);
        if last && a.kind != Directory {
          RefillStays(nodes, next, a);
          InsertStays(Refill(nodes, next, a), p1, next, comps[1..], a);
        } else {
          InsertStays(nodes, p1, next, comps[1..], a);
        }
      } else {
        var b := if last then a else IMPLIED;
        AddChildStays(nodes, p, cur, comps[0], b);
        InsertStays(AddChild(nodes, cur, comps[0], b), p1, |nodes|, comps[1..], a);
      }
    }
  }

  lemma {:induction false} RefillView(nodes: seq<Node>, next: nat, a: Attrs, q: seq<Name>)
    requires next < |nodes|
    ensures View(Refill(nodes, next, a), q) == if Lookup(nodes, q) == Some(next) then Some(a) else View(nodes, q)
  {
    RefillKeepsPaths(nodes, next, a, q);
  }

  lemma {:induction false} PrefixesOf(nodes: seq<Node>, p: seq<Name>, q: seq<Name>)
    requires Tree(nodes) && p != [] && Lookup(nodes, p).Some?
    ensures q < p ==> View(nodes, q).Some?
  {
    assert p == p[..|p| - 1] + [p[|p| - 1]];
    PrefixesExist(nodes, p[..|p| - 1], q, p[|p| - 1]);
  }

  /** The step that refills an existing target. */
  lemma {:induction false} RefillUpdates(nodes: seq<Node>, p: seq<Name>, next: nat, a: Attrs, q: seq<Name>)
    requires Tree(nodes) && next < |nodes| && p != [] && Lookup(nodes, p) == Some(next) && a.kind != Directory
    ensures View(Refill(nodes, next, a), q) == Updated(View(nodes, q), p, a, q)
  {
    RefillView(nodes, next, a, q);
    if q != p {
      if Lookup(nodes, q) == Some(next) { OnePath(nodes, q, p); }
      PrefixesOf(nodes, p, q);
    }
  }

  /** The step that adds the target, or a directory above it. */
  lemma {:induction false} AddChildUpdates(nodes: seq<Node>, p: seq<Name>, parent: nat, name: Name, b: Attrs, q: seq<Name>)
    requires Tree(nodes) && parent < |nodes| && name !in nodes[parent].children && Lookup(nodes, p) == Some(parent)
    ensures View(AddChild(nodes, parent, name, b), q) == if q == p + [name] then Some(b) else View(nodes, q)
    ensures View(nodes, p + [name]).None?
  {
    AddChildPaths(nodes, p, parent, name, b, q);
    NewPathIsNew(nodes, p, parent, name);
    LookupInRange(nodes, q);
  }

  lemma {:induction false} InsertUpdates(nodes: seq<Node>, p: seq<Name>, cur: nat, comps: seq<Name>, a: Attrs, q: seq<Name>)
    requires Tree(nodes) && cur < |nodes| && Lookup(nodes, p) == Some(cur)
    ensures View(InsertFrom(nodes, cur, comps, a), q)
            == if comps == [] then View(nodes, q) else Updated(View(nodes, q), p + comps, a, q)
    decreases |comps|
  {
    if comps != [] {
      var last, p1 := |comps| == 1, p + [comps[0]];
      assert p1[..|p|] == p && p1 + comps[1..] == p + comps;
      PrefixesExist(nodes, p, q, comps[0]);
      if comps[0] in nodes[cur].children {
        var next := nodes[cur].children[comps[0]];
        assert Edge(nodes, cur, comps[0], next);
        assert Lookup(nodes, p1) == Some(next);
        if last && a.kind != Directory {
          RefillUpdates(nodes, p1, next, a, q);
        } else {
          InsertUpdates(nodes, p1, next, comps[1..], a, q);
        }
      } else {
        var b := if last then a else IMPLIED;
        AddChildKeepsTree(nodes, cur, comps[0], b);
        AddChildUpdates(nodes, p, cur, comps[0], b, q);
        AddChildPaths(nodes, p, cur, comps[0], b, p1);
        InsertUpdates(AddChild(nodes, cur, comps[0], b), p1, |nodes|, comps[1..], a, q);
      }
    }
  }

  /** Below a node that exists, the prefixes of its path exist. */
  lemma {:induction false} PrefixesExist(nodes: seq<Node>, p: seq<Name>, q: seq<Name>, c: Name)
    requires Tree(nodes) && Lookup(nodes, p).Some?
    ensures q < p + [c] ==> View(nodes, q).Some?
    decreases |p|
  {
    if q < p + [c] {
      assert q <= p by { assert q == (p + [c])[..|q|] == p[..|q|]; }
      LookupInRange(nodes, p);
      if q != p {
        assert p == p[..|p| - 1] + [p[|p| - 1]];
        assert q < p by { assert |q| < |p|; }
        PrefixesExist(nodes, p[..|p| - 1], q, p[|p| - 1]);
      }
    }
  }

  /** `insert` refines an update of the path map, keeps the tree a tree, and moves nothing. */
  lemma {:induction false} InsertRefines(nodes: seq<Node>, path: seq<byte>, a: Attrs)
    requires Tree(nodes)
    ensures var after, target := Insert(nodes, path, a), Components(path);
            && Tree(after) && Extends(nodes, after)
            && (target == [] ==> after == nodes)
            && (target != [] ==> forall q :: View(after, q) == Updated(View(nodes, q), target, a, q))
  {
    var root: seq<Name>, target := [], Components(path);
    InsertStays(nodes, root, 0, target, a);
    forall q
      ensures target != [] ==> View(Insert(nodes, path, a), q) == Updated(View(nodes, q), target, a, q)
    {
      InsertUpdates(nodes, root, 0, target, a, q);
      assert root + target == target;
    }
  }

  lemma {:induction false} RootIsTree()
    ensures Tree(ROOT)
    ensures forall q :: View(ROOT, q) == if q == [] then Some(Attrs(Directory, 0x1ed, Span(0, 0, 0))) else None
  {
    forall q
      ensures View(ROOT, q) == if q == [] then Some(IMPLIED) else None
    {
      RootHasNoChildren(q);
    }
  }

  lemma {:induction false} RootHasNoChildren(q: seq<Name>)
    ensures Lookup(ROOT, q) == if q == [] then Some(0) else None
  {
    if q != [] { RootHasNoChildren(q[..|q| - 1]); }
  }

  // ----- spans -----

  predicate SpanIn(s: Span, buffers: seq<seq<byte>>)
  {
    s.buf < |buffers| && s.off + s.len <= |buffers[s.buf]|
  }

  ghost predicate SpansIn(nodes: seq<Node>, buffers: seq<seq<byte>>)
  {
    forall i :: 0 <= i < |nodes| ==> SpanIn(nodes[i].attrs.data, buffers)
  }

  lemma {:induction false} InsertKeepsSpans(nodes: seq<Node>, cur: nat, comps: seq<Name>, a: Attrs, buffers: seq<seq<byte>>)
    requires SpansIn(nodes, buffers) && SpanIn(a.data, buffers) && |buffers| > 0
    ensures SpansIn(InsertFrom(nodes, cur, comps, a), buffers)
    decreases |comps|
  {
    if comps != [] && cur < |nodes| {
      var last := |comps| == 1;
      if comps[0] in nodes[cur].children {
        var next := nodes[cur].children[comps[0]];
        var refilled := if last && a.kind != Directory && next < |nodes| then Refill(nodes, next, a) else nodes;
        InsertKeepsSpans(refilled, next, comps[1..], a, buffers);
      } else {
        InsertKeepsSpans(AddChild(nodes, cur, comps[0], if last then a else IMPLIED), |nodes|, comps[1..], a, buffers);
      }
    }
  }
}
