/** The scene side of `ConvertEditor`: where a component is placed, and the
    walk that finds or creates the nodes of its hierarchy path. */
module Scene {
  import opened Wrappers
  import opened Seqs
  import opened Psd

  datatype Vec2 = Vec2(x: real, y: real)

  const Zero := Vec2(0.0, 0.0)
  const Half := Vec2(0.5, 0.5)

  /** The centre of a document rectangle (origin top-left, y downwards). */
  function Centre(r: Rect): Vec2
  {
    Vec2(r.x as real + r.width as real / 2.0, r.y as real + r.height as real / 2.0)
  }

  /** The position given to a component: the rectangle's centre x, and the
      document height minus its centre y. */
  function Placement(r: Rect, docHeight: real): (p: Vec2)
    ensures p.x == Centre(r).x && p.y + Centre(r).y == docHeight
  {
    Vec2(Centre(r).x, docHeight - Centre(r).y)
  }

  /** Two components land on the same spot exactly when their rectangles
      share a centre. */
  lemma PlacementInjective(a: Rect, b: Rect, docHeight: real)
    ensures Placement(a, docHeight) == Placement(b, docHeight) <==> Centre(a) == Centre(b)
  {
  }

  /** The vertical axis is flipped: a rectangle higher up in the document
      is placed higher up in the scene, and horizontal order is kept. */
  lemma PlacementOrder(a: Rect, b: Rect, docHeight: real)
    ensures Centre(a).y < Centre(b).y <==> Placement(a, docHeight).y > Placement(b, docHeight).y
    ensures Centre(a).x < Centre(b).x <==> Placement(a, docHeight).x < Placement(b, docHeight).x
  {
  }

  /** The placement is the document's own frame flipped about its bottom
      edge, not a frame centred on the document: a rectangle centred at
      (100, 50) in a 200 by 100 document is placed at (100, 50). */
  lemma PlacementNotCentred()
    ensures Placement(Rect(90, 40, 20, 20), 100.0) == Vec2(100.0, 50.0)
  {
  }

  /** A node of the scene: its name, the index of its parent, its position,
      the anchors, pivot and size of its `RectTransform`, and its scale. */
  datatype Node = Node(
    name: string,
    parent: Option<nat>,
    position: Vec2,
    anchorMin: Vec2,
    anchorMax: Vec2,
    pivot: Vec2,
    sizeDelta: Vec2,
    scale: real)

  /** A node made by `CreateTransform` under `parent`: centred anchors and
      pivot, no offset from the parent (so at its position), no size, unit
      scale. */
  function Fresh(name: string, parent: nat, at: Vec2): Node
  {
    Node(name, Some(parent), at, Half, Half, Half, Zero, 1.0)
  }

  /** `Transform.Find` as an exact-name child lookup: the first child of
      `p`, in creation order, named `name`. */
  function Find(nodes: seq<Node>, p: nat, name: string): (r: Option<nat>)
    ensures r.Some? ==> r.value < |nodes| && nodes[r.value].parent == Some(p) && nodes[r.value].name == name
    ensures r.Some? ==> forall j :: 0 <= j < r.value ==> !(nodes[j].parent == Some(p) && nodes[j].name == name)
    ensures r.None? ==> forall j :: 0 <= j < |nodes| ==> !(nodes[j].parent == Some(p) && nodes[j].name == name)
  {
    FirstIndex((n: Node) => n.parent == Some(p) && n.name == name, nodes)
  }

  /** The node reached from `from` by looking up each segment in turn. */
  function Walk(nodes: seq<Node>, from: nat, segs: seq<string>): (r: Option<nat>)
    ensures r.Some? ==> r.value == from || r.value < |nodes|
    decreases segs
  {
    if segs == [] then Some(from)
    else match Find(nodes, from, segs[0])
      case None => None
      case Some(c) => Walk(nodes, c, segs[1..])
  }

  /** A child found before more nodes are added is still the one found. */
  lemma FindStable(nodes: seq<Node>, more: seq<Node>, p: nat, name: string)
    requires Find(nodes, p, name).Some?
    ensures Find(nodes + more, p, name) == Find(nodes, p, name)
  {
    var i := Find(nodes, p, name).value;
    var r := Find(nodes + more, p, name);
    assert (nodes + more)[i] == nodes[i];
  }

  /** A missing child added at the end is found there. */
  lemma FindAdded(nodes: seq<Node>, n: Node, p: nat)
    requires Find(nodes, p, n.name).None?
    requires n.parent == Some(p)
    ensures Find(nodes + [n], p, n.name) == Some(|nodes|)
  {
    var r := Find(nodes + [n], p, n.name);
    assert (nodes + [n])[|nodes|] == n;
  }

  /** A walk that succeeds keeps its target when nodes are added. */
  lemma {:induction false} WalkStable(nodes: seq<Node>, more: seq<Node>, from: nat, segs: seq<string>)
    requires Walk(nodes, from, segs).Some?
    ensures Walk(nodes + more, from, segs) == Walk(nodes, from, segs)
    decreases segs
  {
    if segs != [] {
      FindStable(nodes, more, from, segs[0]);
      WalkStable(nodes, more, Find(nodes, from, segs[0]).value, segs[1..]);
    }
  }

  /** Walking `a + b` is walking `a`, then `b` from where `a` ended. */
  lemma {:induction false} WalkAppend(nodes: seq<Node>, from: nat, a: seq<string>, b: seq<string>)
    ensures Walk(nodes, from, a + b)
         == match Walk(nodes, from, a)
            case None => None
            case Some(x) => Walk(nodes, x, b)
    decreases a
  {
    if a == [] {
      assert a + b == b;
    } else {
      assert (a + b)[1..] == a[1..] + b;
      assert (a + b)[0] == a[0];
      match Find(nodes, from, a[0]) {
        case None =>
        case Some(c) => WalkAppend(nodes, c, a[1..], b);
      }
    }
  }

  /** Walking one more segment is one more lookup. */
  lemma WalkSnoc(nodes: seq<Node>, from: nat, segs: seq<string>, s: string)
    ensures Walk(nodes, from, segs + [s])
         == match Walk(nodes, from, segs)
            case None => None
            case Some(x) => Find(nodes, x, s)
  {
    WalkAppend(nodes, from, segs, [s]);
    assert [s][1..] == [];
  }

  /** A walk that fails on a prefix fails. */
  lemma WalkFailsEarly(nodes: seq<Node>, from: nat, segs: seq<string>, i: nat)
    requires i <= |segs|
    requires Walk(nodes, from, segs[..i]).None?
    ensures Walk(nodes, from, segs).None?
  {
    assert segs == segs[..i] + segs[i..];
    WalkAppend(nodes, from, segs[..i], segs[i..]);
  }

  /** The scene under the canvas, as a list of nodes in creation order;
      node 0 is the root that `CreateGUI` makes. */
  class SceneTree {
    var nodes: seq<Node>

    /** Every parent was created before its children: the nodes form a
        tree rooted at node 0. */
    ghost predicate Valid()
      reads this
    {
      && |nodes| > 0
      && nodes[0].parent.None?
      && forall i :: 0 < i < |nodes| ==> nodes[i].parent.Some? && nodes[i].parent.value < i
    }

    /** The root object of a conversion, named after the document. */
    constructor(rootName: string, docSize: Vec2)
      ensures Valid()
      ensures nodes == [Node(rootName, None, Zero, Half, Half, Half, docSize, 1.0)]
    {
      nodes := [Node(rootName, None, Zero, Half, Half, Half, docSize, 1.0)];
    }

    /** `CreateTransform`: a fresh child of `parent` named `name`. */
    method CreateTransform(parent: nat, name: string) returns (t: nat)
      requires Valid() && parent < |nodes|
      modifies this
      ensures Valid()
      ensures t == |old(nodes)|
      ensures nodes == old(nodes) + [Fresh(name, parent, old(nodes)[parent].position)]
    {
      t := |nodes|;
      nodes := nodes + [Fresh(name, parent, nodes[parent].position)];
    }

    /** The loop of `GetOrCreateTransform`: follows `path` below
        `parent`, creating each missing segment. */
    method FindOrCreatePath(parent: nat, path: seq<string>) returns (root: nat)
      requires Valid() && parent < |nodes|
      modifies this
      ensures Valid() && root < |nodes|
      ensures old(nodes) <= nodes
      ensures Walk(nodes, parent, path) == Some(root)
      ensures Walk(old(nodes), parent, path).Some? ==> nodes == old(nodes)
      ensures Walk(old(nodes), parent, path).None? ==> root == |nodes| - 1
    {
      root := parent;
      for i := 0 to |path|
        invariant Valid() && root < |nodes|
        invariant old(nodes) <= nodes
        invariant Walk(nodes, parent, path[..i]) == Some(root)
        invariant Walk(old(nodes), parent, path[..i]).Some? ==> nodes == old(nodes)
        invariant Walk(old(nodes), parent, path[..i]).None? ==> root == |nodes| - 1
      {
        assert path[..i + 1] == path[..i] + [path[i]];
        WalkSnoc(old(nodes), parent, path[..i], path[i]);
        var t := Find(nodes, root, path[i]);
        if t.None? {
          ghost var before := nodes;
          var c := CreateTransform(root, path[i]);
          FindAdded(before, nodes[c], root);
          WalkStable(before, [nodes[c]], parent, path[..i]);
          t := Some(c);
        }
        WalkSnoc(nodes, parent, path[..i], path[i]);
        root := t.value;
      }
      assert path[..|path|] == path;
    }

    /** `GetOrCreateTransform`: walks the segments of `hierarchyPath`
        below `parent`, creating each missing one, then reuses the child
        `name` of the last one if it sits at `position` and otherwise
        creates a new one there, leaving any old one in place. */
    method GetOrCreateTransform(parent: nat, hierarchyPath: string, name: string, position: Vec2)
      returns (leaf: nat)
      requires Valid() && parent < |nodes|
      modifies this
      ensures Valid()
      ensures old(nodes) <= nodes
      ensures leaf < |nodes| && nodes[leaf].name == name && nodes[leaf].position == position
      ensures nodes[leaf].parent.Some?
      ensures Walk(nodes, parent, Split(hierarchyPath, '/')) == nodes[leaf].parent
      ensures var p := Walk(old(nodes), parent, Split(hierarchyPath, '/'));
        var found := if p.Some? then Find(old(nodes), p.value, name) else None;
        if found.Some? && old(nodes)[found.value].position == position
        then nodes == old(nodes) && leaf == found.value
        else leaf == |nodes| - 1
             && nodes[leaf] == Fresh(name, nodes[leaf].parent.value, position)
    {
      var path := Split(hierarchyPath, '/');
      var root := FindOrCreatePath(parent, path);
      if Walk(old(nodes), parent, path).None? {
        assert Find(nodes, root, name).None?;
      }

      var obj := Find(nodes, root, name);
      if obj.None? || nodes[obj.value].position != position {
        ghost var before := nodes;
        var c := CreateTransform(root, name);
        nodes := nodes[c := nodes[c].(position := position)];
        assert nodes == before + [Fresh(name, root, position)];
        WalkStable(before, [Fresh(name, root, position)], parent, path);
        leaf := c;
      } else {
        leaf := obj.value;
      }
    }
  }
}
