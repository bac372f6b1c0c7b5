/** The path-driven tree builder of src/formatter/Tree.ts and the position
    map exporter of src/formatter/layout.ts. The tree is one `Formattable`
    value held by the `Tree` object; a node that `addNode` hands back is
    named by its address, the child indices leading to it from the root,
    and the in-place updates of src/formatter/Node.ts are made through the
    tree at that address. */
module FormatterTree {
  import opened Wrappers
  import opened JsString
  import opened Types
  import opened Formatter
  import Utility
  import InitialState

  // ---------------------------------------------------------------------
  // Addresses.

  /** `at` leads from `root` through nodes only. */
  predicate IsAddress(root: Formattable, at: seq<nat>)
    decreases |at|
  {
    root.Node? && (|at| == 0 || (at[0] < |root.children| && IsAddress(root.children[at[0]], at[1..])))
  }

  /** The node at an address. */
  function NodeAt(root: Formattable, at: seq<nat>): (n: Formattable)
    requires IsAddress(root, at)
    ensures n.Node?
    decreases |at|
  {
    if |at| == 0 then root else NodeAt(root.children[at[0]], at[1..])
  }

  /** The tree with the node at `at` replaced by `n`; every node off that
      path is kept, and so is every node on it above `at` but for that one
      child. */
  function ReplaceAt(root: Formattable, at: seq<nat>, n: Formattable): (r: Formattable)
    requires IsAddress(root, at) && n.Node?
    ensures IsAddress(r, at) && NodeAt(r, at) == n
    ensures |at| > 0 ==> r.name == root.name && r.nodeLabel == root.nodeLabel && |r.children| == |root.children|
    ensures |at| == 0 ==> r == n
    decreases |at|
  {
    if |at| == 0 then n
    else
      var c := ReplaceAt(root.children[at[0]], at[1..], n);
      root.(children := root.children[at[0] := c])
  }

  lemma AddressSnoc(root: Formattable, at: seq<nat>, i: nat)
    requires IsAddress(root, at)
    ensures IsAddress(root, at + [i]) <==>
      i < |NodeAt(root, at).children| && NodeAt(root, at).children[i].Node?
    ensures IsAddress(root, at + [i]) ==> NodeAt(root, at + [i]) == NodeAt(root, at).children[i]
    decreases |at|
  {
    if |at| > 0 {
      assert (at + [i])[1..] == at[1..] + [i];
      AddressSnoc(root.children[at[0]], at[1..], i);
    }
  }

  lemma NodeAtCons(root: Formattable, i: nat, at: seq<nat>)
    requires root.Node? && i < |root.children| && IsAddress(root.children[i], at)
    ensures IsAddress(root, [i] + at) && NodeAt(root, [i] + at) == NodeAt(root.children[i], at)
  {
    assert ([i] + at)[1..] == at;
  }

  /** Replacing a child of the node at `at` is replacing that node. */
  lemma ReplaceChild(root: Formattable, at: seq<nat>, i: nat, c: Formattable)
    requires IsAddress(root, at + [i]) && c.Node?
    ensures IsAddress(root, at)
    ensures var n := NodeAt(root, at);
      i < |n.children| &&
      ReplaceAt(root, at + [i], c) == ReplaceAt(root, at, n.(children := n.children[i := c]))
    decreases |at|
  {
    if |at| > 0 {
      assert (at + [i])[1..] == at[1..] + [i];
      ReplaceChild(root.children[at[0]], at[1..], i, c);
    }
  }

  lemma ReplaceTwice(root: Formattable, at: seq<nat>, n1: Formattable, n2: Formattable)
    requires IsAddress(root, at) && n1.Node? && n2.Node?
    ensures ReplaceAt(ReplaceAt(root, at, n1), at, n2) == ReplaceAt(root, at, n2)
    decreases |at|
  {
    if |at| > 0 {
      ReplaceTwice(root.children[at[0]], at[1..], n1, n2);
    }
  }

  lemma ReplaceSame(root: Formattable, at: seq<nat>)
    requires IsAddress(root, at)
    ensures ReplaceAt(root, at, NodeAt(root, at)) == root
    decreases |at|
  {
    if |at| > 0 {
      ReplaceSame(root.children[at[0]], at[1..]);
    }
  }

  // ---------------------------------------------------------------------
  // Walking a path.

  /** The name a new node gets in `addNode`: no label, no children. */
  function NewNode(name: string): Formattable
  {
    Node(name, "", [])
  }

  /** The node in which a path segment is looked up or added, and the
      index of the child it leads to. */
  function StepInto(node: Formattable, name: string): (r: (Formattable, nat))
    requires node.Node?
    ensures r.0.Node? && r.0.name == node.name && r.0.nodeLabel == node.nodeLabel
    ensures r.1 < |r.0.children| && r.0.children[r.1].Node? && r.0.children[r.1].name == name
  {
    match FindChild(node.children, name)
    case Some(i) => (node, i)
    case None =>
      var added := AddChild(node, NewNode(name));
      (added, |added.children| - 1)
  }

  /** What the `addNode` loop does below `node`: each segment picks the
      first child node of that name, or a new one, and the walk goes on in
      it. The result is the new subtree and the address reached. */
  function Walk(node: Formattable, parts: seq<string>): (r: (Formattable, seq<nat>))
    requires node.Node?
    ensures r.0.Node? && r.0.name == node.name && r.0.nodeLabel == node.nodeLabel
    ensures |r.0.children| >= |node.children|
    ensures |r.1| == |parts| && IsAddress(r.0, r.1)
    decreases |parts|
  {
    if |parts| == 0 then (node, [])
    else
      var (n1, i) := StepInto(node, parts[0]);
      var (c, a) := Walk(n1.children[i], parts[1..]);
      var r := n1.(children := n1.children[i := c]);
      NodeAtCons(r, i, a);
      (r, [i] + a)
  }

  /** The address of an existing path of nodes, if every segment is there. */
  function Find(node: Formattable, parts: seq<string>): Option<seq<nat>>
    requires node.Node?
    decreases |parts|
  {
    if |parts| == 0 then Some([])
    else
      match FindChild(node.children, parts[0])
      case None => None
      case Some(i) =>
        match Find(node.children[i], parts[1..])
        case None => None
        case Some(a) => Some([i] + a)
  }

  /** The first child node of a name is determined by its position. */
  lemma FindChildIs(children: seq<Formattable>, name: string, i: nat)
    requires i < |children| && children[i].Node? && children[i].name == name
    requires forall j :: 0 <= j < i ==> !(children[j].Node? && children[j].name == name)
    ensures FindChild(children, name) == Some(i)
  {
  }

  /** A path that is there is walked without change. */
  lemma {:induction false} WalkFound(node: Formattable, parts: seq<string>)
    requires node.Node? && Find(node, parts).Some?
    ensures Walk(node, parts) == (node, Find(node, parts).value)
    decreases |parts|
  {
    if |parts| > 0 {
      var i := FindChild(node.children, parts[0]).value;
      WalkFound(node.children[i], parts[1..]);
      assert node.children[i := node.children[i]] == node.children;
    }
  }

  /** After the walk the whole path is there, and leads where the walk
      ended. */
  lemma {:induction false} WalkFinds(node: Formattable, parts: seq<string>)
    requires node.Node?
    ensures Find(Walk(node, parts).0, parts) == Some(Walk(node, parts).1)
    decreases |parts|
  {
    if |parts| > 0 {
      var (n1, i) := StepInto(node, parts[0]);
      var (c, a) := Walk(n1.children[i], parts[1..]);
      WalkFinds(n1.children[i], parts[1..]);
      var r := n1.(children := n1.children[i := c]);
      assert FindChild(n1.children, parts[0]) == Some(i) by {
        if FindChild(node.children, parts[0]).None? {
          FindChildIs(n1.children, parts[0], i);
        }
      }
      FindChildIs(r.children, parts[0], i);
    }
  }

  /** Walking from a node without children builds a fresh chain of nodes,
      and the last one has no children. */
  lemma {:induction false} WalkFresh(node: Formattable, parts: seq<string>)
    requires node.Node? && node.children == []
    ensures NodeAt(Walk(node, parts).0, Walk(node, parts).1).children == []
    decreases |parts|
  {
    if |parts| > 0 {
      var (n1, i) := StepInto(node, parts[0]);
      assert n1.children == [NewNode(parts[0])] && i == 0;
      var (c, a) := Walk(n1.children[i], parts[1..]);
      WalkFresh(n1.children[i], parts[1..]);
      var r := n1.(children := n1.children[i := c]);
      NodeAtCons(r, i, a);
    }
  }

  // ---------------------------------------------------------------------
  // Extensions: the same nodes by name, labels aside, possibly with more
  // items appended.

  /** `y` has the nodes of `x` at the same places under the same names,
      and whatever it has beyond the children of a node of `x` is not a
      node. */
  predicate Extends(x: Formattable, y: Formattable)
    decreases x
  {
    && x.Node? && y.Node? && x.name == y.name && |x.children| <= |y.children|
    && (forall j :: |x.children| <= j < |y.children| ==> !y.children[j].Node?)
    && forall j :: 0 <= j < |x.children| ==>
         && (x.children[j].Node? <==> y.children[j].Node?)
         && (x.children[j].Node? ==> Extends(x.children[j], y.children[j]))
  }

  lemma {:induction false} ExtendsRefl(x: Formattable)
    requires x.Node?
    ensures Extends(x, x)
    decreases x
  {
    forall j | 0 <= j < |x.children| && x.children[j].Node?
      ensures Extends(x.children[j], x.children[j])
    {
      ExtendsRefl(x.children[j]);
    }
  }

  /** Paths are found alike in a tree and in its extensions. */
  lemma {:induction false} ExtendsFind(x: Formattable, y: Formattable, parts: seq<string>)
    requires Extends(x, y)
    ensures Find(x, parts) == Find(y, parts)
    decreases |parts|
  {
    if |parts| > 0 {
      match FindChild(x.children, parts[0])
      case None =>
        forall k | 0 <= k < |y.children|
          ensures !(y.children[k].Node? && y.children[k].name == parts[0])
        {
          if k < |x.children| {
            assert !(x.children[k].Node? && x.children[k].name == parts[0]);
          }
        }
      case Some(i) =>
        FindChildIs(y.children, parts[0], i);
        ExtendsFind(x.children[i], y.children[i], parts[1..]);
    }
  }

  /** Setting a label anywhere extends the tree. */
  lemma {:induction false} RelabelExtends(root: Formattable, at: seq<nat>, l: string)
    requires IsAddress(root, at)
    ensures Extends(root, Relabel(root, at, l))
    decreases |at|
  {
    var r := Relabel(root, at, l);
    if |at| == 0 {
      ExtendsRefl(root);
    } else {
      RelabelExtends(root.children[at[0]], at[1..], l);
      forall j | 0 <= j < |root.children| && root.children[j].Node?
        ensures Extends(root.children[j], r.children[j])
      {
        if j != at[0] {
          ExtendsRefl(root.children[j]);
        }
      }
    }
  }

  /** Adding a property anywhere extends the tree. */
  lemma {:induction false} AddChildExtends(root: Formattable, at: seq<nat>, child: Formattable)
    requires IsAddress(root, at) && !child.Node?
    ensures Extends(root, AddChildTo(root, at, child))
    decreases |at|
  {
    var r := AddChildTo(root, at, child);
    if |at| == 0 {
      assert r.children == root.children + [child];
      forall j | 0 <= j < |root.children| && root.children[j].Node?
        ensures Extends(root.children[j], r.children[j])
      {
        ExtendsRefl(root.children[j]);
      }
    } else {
      AddChildExtends(root.children[at[0]], at[1..], child);
      assert AddChildTo(root.children[at[0]], at[1..], child) == r.children[at[0]];
      forall j | 0 <= j < |root.children| && root.children[j].Node?
        ensures Extends(root.children[j], r.children[j])
      {
        if j != at[0] {
          ExtendsRefl(root.children[j]);
        }
      }
    }
  }

  // ---------------------------------------------------------------------
  // `Tree.addNode` and the node updates.

  /** The segments `addNode` walks: the path split at `/`, the first piece
      dropped. */
  function Parts(path: string): seq<string>
  {
    Split(path, '/')[1..]
  }

  /** A node with its label set. */
  function WithLabel(node: Formattable, l: string): (r: Formattable)
    requires node.Node?
    ensures r.Node?
  {
    node.(nodeLabel := l)
  }

  /** The label set on the node at `at`. */
  function Relabel(root: Formattable, at: seq<nat>, l: string): (r: Formattable)
    requires IsAddress(root, at)
    ensures IsAddress(r, at) && NodeAt(r, at) == WithLabel(NodeAt(root, at), l)
  {
    ReplaceAt(root, at, WithLabel(NodeAt(root, at), l))
  }

  /** `addNode(path, label)`: the new tree and the address of the node. */
  function AddNodeOf(root: Formattable, path: string, l: string): (r: (Formattable, seq<nat>))
    requires root.Node?
    ensures IsAddress(r.0, r.1)
  {
    var (walked, at) := Walk(root, Parts(path));
    if l != "" then (Relabel(walked, at, l), at) else (walked, at)
  }

  /** `node.addChild(child)` on the node at `at`. */
  function AddChildTo(root: Formattable, at: seq<nat>, child: Formattable): (r: Formattable)
    requires IsAddress(root, at)
    ensures IsAddress(r, at)
  {
    ReplaceAt(root, at, AddChild(NodeAt(root, at), child))
  }

  /** `node.addSpacer()` on the node at `at`. */
  function AddSpacerTo(root: Formattable, at: seq<nat>): (r: Formattable)
    requires IsAddress(root, at)
    ensures IsAddress(r, at)
  {
    ReplaceAt(root, at, AddSpacer(NodeAt(root, at)))
  }

  /** `Tree`: the root node and everything under it. */
  class Tree {
    var root: Formattable

    predicate Valid()
      reads this
    {
      root.Node?
    }

    /** The root is the node `/`, without label or children. */
    constructor()
      ensures Valid() && root == Node("/", "", [])
    {
      root := Node("/", "", []);
    }

    /** `addNode(path, label)`: walks the segments of `path` from the root,
        reusing the first child node of each name and appending a new one
        otherwise, then labels the node reached when `label` is non-empty. */
    method AddNode(path: string, l: string) returns (at: seq<nat>)
      requires Valid()
      modifies this
      ensures Valid()
      ensures (root, at) == AddNodeOf(old(root), path, l)
    {
      ghost var start := root;
      var tree := root;
      var parts := Split(path, '/')[1..];
      at := [];
      assert parts == Parts(path) && NodeAt(tree, at) == start;
      assert WalkFrom(tree, at, parts) == Walk(start, parts) by {
        assert at + Walk(start, parts).1 == Walk(start, parts).1;
      }
      while |parts| > 0
        invariant IsAddress(tree, at)
        invariant Walk(start, Parts(path)) == WalkFrom(tree, at, parts)
        decreases |parts|
      {
        tree, at := WalkStep(tree, at, parts[0], parts);
        parts := parts[1..];
      }
      assert (tree, at) == Walk(start, Parts(path)) by {
        assert at + [] == at;
        ReplaceSame(tree, at);
        assert WalkFrom(tree, at, []) == (tree, at);
      }
      if l != "" {
        tree := Relabel(tree, at, l);
      }
      root := tree;
    }

    /** `node.addChild(child)` on the node at `at`. */
    method AddChildAt(at: seq<nat>, child: Formattable)
      requires Valid() && IsAddress(root, at)
      modifies this
      ensures Valid() && root == AddChildTo(old(root), at, child)
    {
      root := ReplaceAt(root, at, AddChild(NodeAt(root, at), child));
    }

    /** `node.addSpacer()` on the node at `at`. */
    method AddSpacerAt(at: seq<nat>)
      requires Valid() && IsAddress(root, at)
      modifies this
      ensures Valid() && root == AddSpacerTo(old(root), at)
    {
      root := ReplaceAt(root, at, AddSpacer(NodeAt(root, at)));
    }
  }

  /** One turn of the `addNode` loop: step into the first child node named
      `name` under the node at `at`, appending a new one when there is
      none. */
  method WalkStep(tree: Formattable, at: seq<nat>, name: string, ghost parts: seq<string>)
    returns (tree': Formattable, at': seq<nat>)
    requires IsAddress(tree, at) && |parts| > 0 && parts[0] == name
    ensures IsAddress(tree', at')
    ensures WalkFrom(tree, at, parts) == WalkFrom(tree', at', parts[1..])
  {
    var node := NodeAt(tree, at);
    var found := FindChild(node.children, name);
    if found.Some? {
      StepFound(tree, at, parts, found.value);
      tree', at' := tree, at + [found.value];
    } else {
      var added := AddChild(node, NewNode(name));
      var slot: nat := |added.children| - 1;
      StepAdded(tree, at, parts, added);
      tree', at' := ReplaceAt(tree, at, added), at + [slot];
    }
  }

  /** Where the `addNode` loop ends up from address `at` with `parts` still
      to walk: the tree with the walk done below `at`, and the address of
      the node reached. */
  function WalkFrom(root: Formattable, at: seq<nat>, parts: seq<string>): (Formattable, seq<nat>)
    requires IsAddress(root, at)
  {
    var w := Walk(NodeAt(root, at), parts);
    (ReplaceAt(root, at, w.0), at + w.1)
  }

  /** One turn of the `addNode` loop, when the segment is found: the walk
      from the node at `at` is the walk from the child found. */
  lemma StepFound(root: Formattable, at: seq<nat>, parts: seq<string>, i: nat)
    requires IsAddress(root, at) && |parts| > 0
    requires FindChild(NodeAt(root, at).children, parts[0]) == Some(i)
    ensures IsAddress(root, at + [i])
    ensures WalkFrom(root, at, parts) == WalkFrom(root, at + [i], parts[1..])
  {
    var n := NodeAt(root, at);
    AddressSnoc(root, at, i);
    assert NodeAt(root, at + [i]) == n.children[i];
    var w := Walk(n.children[i], parts[1..]);
    assert Walk(n, parts) == (n.(children := n.children[i := w.0]), [i] + w.1);
    ReplaceChild(root, at, i, w.0);
    Utility.AppendAssoc(at, [i], w.1);
  }

  /** One turn of the `addNode` loop, when the segment is added: the walk
      from the node at `at` is the walk from the new last child. */
  lemma StepAdded(root: Formattable, at: seq<nat>, parts: seq<string>, added: Formattable)
    requires IsAddress(root, at) && |parts| > 0
    requires FindChild(NodeAt(root, at).children, parts[0]).None?
    requires added == AddChild(NodeAt(root, at), NewNode(parts[0]))
    ensures IsAddress(ReplaceAt(root, at, added), at + [|added.children| - 1])
    ensures WalkFrom(root, at, parts) == WalkFrom(ReplaceAt(root, at, added), at + [|added.children| - 1], parts[1..])
  {
    var n := NodeAt(root, at);
    var root' := ReplaceAt(root, at, added);
    var i := |added.children| - 1;
    AddressSnoc(root', at, i);
    var w := Walk(added.children[i], parts[1..]);
    assert StepInto(n, parts[0]) == (added, i);
    assert Walk(n, parts) == (added.(children := added.children[i := w.0]), [i] + w.1);
    assert NodeAt(root', at + [i]) == added.children[i];
    ReplaceChild(root', at, i, w.0);
    ReplaceTwice(root, at, added, added.(children := added.children[i := w.0]));
    Utility.AppendAssoc(at, [i], w.1);
  }

  // ---------------------------------------------------------------------
  // Properties of `addNode`.

  /** `addNode` reaches the node named by the last segment along the whole
      path, which is then there; it labels that node when the label is
      non-empty, and with no segment it returns the root. */
  lemma AddNodeFacts(root: Formattable, path: string, l: string)
    requires root.Node?
    ensures var (r, at) := AddNodeOf(root, path, l);
      && |at| == |Parts(path)|
      && Find(r, Parts(path)) == Some(at)
      && (|Parts(path)| > 0 ==> NodeAt(r, at).name == Parts(path)[|Parts(path)| - 1])
      && (l != "" ==> NodeAt(r, at).nodeLabel == l)
      && (|Parts(path)| == 0 ==> at == [] && r.children == root.children)
  {
    var parts := Parts(path);
    var (walked, at) := Walk(root, parts);
    WalkFinds(root, parts);
    if l != "" {
      RelabelExtends(walked, at, l);
      ExtendsFind(walked, Relabel(walked, at, l), parts);
    }
    if |parts| > 0 {
      FindLast(walked, parts);
      if l != "" {
      }
    }
  }

  /** The node a found path leads to carries the last segment's name. */
  lemma {:induction false} FindLast(node: Formattable, parts: seq<string>)
    requires node.Node? && |parts| > 0 && Find(node, parts).Some?
    ensures IsAddress(node, Find(node, parts).value)
    ensures NodeAt(node, Find(node, parts).value).name == parts[|parts| - 1]
    decreases |parts|
  {
    var i := FindChild(node.children, parts[0]).value;
    var a := Find(node.children[i], parts[1..]).value;
    if |parts| == 1 {
      assert a == [];
      NodeAtCons(node, i, a);
    } else {
      FindLast(node.children[i], parts[1..]);
      NodeAtCons(node, i, a);
    }
  }

  /** An existing child of the segment's name is reused: when the whole
      path is there, `addNode` without a label changes nothing. */
  lemma AddNodeReuses(root: Formattable, path: string)
    requires root.Node? && Find(root, Parts(path)).Some?
    ensures AddNodeOf(root, path, "") == (root, Find(root, Parts(path)).value)
  {
    WalkFound(root, Parts(path));
  }

  /** Adding the same path twice gives the same node the second time and
      adds nothing. */
  lemma AddNodeTwice(root: Formattable, path: string, l: string)
    requires root.Node?
    ensures var (r, at) := AddNodeOf(root, path, l);
      AddNodeOf(r, path, l) == (r, at)
  {
    var parts := Parts(path);
    var (r, at) := AddNodeOf(root, path, l);
    AddNodeFacts(root, path, l);
    WalkFound(r, parts);
    if l != "" {
      assert WithLabel(NodeAt(r, at), l) == NodeAt(r, at);
      ReplaceSame(r, at);
    }
  }

  /** In a tree that is only a root, `addNode` reaches a node with no
      children. */
  lemma AddNodeFresh(root: Formattable, path: string, l: string)
    requires root.Node? && root.children == []
    ensures var (r, at) := AddNodeOf(root, path, l);
      NodeAt(r, at).children == []
  {
    WalkFresh(root, Parts(path));
  }

  /** A path written as `/` and its segments, none holding a `/`, walks
      exactly those segments. */
  lemma PartsOfPath(segments: seq<string>)
    requires |segments| >= 1
    requires forall i :: 0 <= i < |segments| ==> '/' !in segments[i]
    ensures Parts("/" + Join(segments, "/")) == segments
  {
    SplitJoin(segments, '/');
    SplitPrefix("", Join(segments, "/"), '/');
    assert "" + ['/'] + Join(segments, "/") == "/" + Join(segments, "/");
  }

  // ---------------------------------------------------------------------
  // `formatLayout`.

  /** `positions.filter((v) => v !== undefined)`: the assigned keys, in
      slot order. */
  function Defined(positions: seq<Option<int>>): (r: seq<int>)
    ensures |r| <= |positions|
    ensures forall v :: v in r <==> Some(v) in positions
  {
    if |positions| == 0 then []
    else
      var last := positions[|positions| - 1];
      var init := Defined(positions[..|positions| - 1]);
      assert positions == positions[..|positions| - 1] + [last];
      init + (if last.Some? then [last.value] else [])
  }

  /** The filter keeps the order of the slots. */
  lemma {:induction false} DefinedAppend(a: seq<Option<int>>, b: seq<Option<int>>)
    ensures Defined(a + b) == Defined(a) + Defined(b)
    decreases |b|
  {
    if |b| == 0 {
      assert a + b == a;
    } else {
      var init := b[..|b| - 1];
      var last := b[|b| - 1];
      var tail := if last.Some? then [last.value] else [];
      var ab := a + b;
      assert ab[..|ab| - 1] == a + init;
      assert ab[|ab| - 1] == last;
      assert Defined(ab) == Defined(a + init) + tail;
      assert Defined(b) == Defined(init) + tail;
      DefinedAppend(a, init);
      Utility.AppendAssoc(Defined(a), Defined(init), tail);
    }
  }

  /** How the `physical-layout` phandle prints: JavaScript writes a missing
      label as `undefined`. */
  function LayoutName(item: PositionMapItem): string
  {
    item.physicalLayout.GetOr("undefined")
  }

  const MAP_COMPATIBLE: string := "zmk,physical-layout-position-map"

  /** The tree after the position map node and its own properties. */
  function MapTree(pm: PositionMap): (r: (Formattable, seq<nat>))
    ensures IsAddress(r.0, r.1)
  {
    var (r0, at) := AddNodeOf(Node("/", "", []), pm.path, pm.nodeLabel.GetOr(""));
    var r1 := AddChildTo(r0, at, StringProperty("compatible", MAP_COMPATIBLE));
    if pm.complete then (AddChildTo(AddSpacerTo(r1, at), at, BooleanProperty("complete")), at)
    else (r1, at)
  }

  /** The nodes of one map item. */
  function ItemTree(root: Formattable, item: PositionMapItem): (r: Formattable)
    requires root.Node?
    ensures r.Node?
  {
    var (r0, at) := AddNodeOf(root, item.path, item.nodeLabel.GetOr(""));
    var r1 := AddChildTo(r0, at, PhandleProperty("physical-layout", LayoutName(item)));
    AddChildTo(r1, at, ArrayProperty("positions", Defined(item.positions), 0))
  }

  /** The nodes of the first items. */
  function ItemsTree(root: Formattable, items: seq<PositionMapItem>): (r: Formattable)
    requires root.Node?
    ensures r.Node?
  {
    if |items| == 0 then root else ItemTree(ItemsTree(root, items[..|items| - 1]), items[|items| - 1])
  }

  /** What `formatLayout` prints. */
  function FormatLayoutOf(state: EditState): string
  {
    ToString(ItemsTree(MapTree(state.positionMap).0, state.positionMap.children))
  }

  /** `formatLayout`: builds the tree of the position map and prints its
      root. */
  method FormatLayout(state: EditState) returns (r: string)
    ensures r == FormatLayoutOf(state)
  {
    var tree := new Tree();
    var pm := state.positionMap;
    var mapAt := tree.AddNode(pm.path, pm.nodeLabel.GetOr(""));
    tree.AddChildAt(mapAt, StringProperty("compatible", MAP_COMPATIBLE));
    if pm.complete {
      tree.AddSpacerAt(mapAt);
      tree.AddChildAt(mapAt, BooleanProperty("complete"));
    }
    ghost var mapTree := tree.root;
    assert mapTree == MapTree(pm).0;
    for k := 0 to |pm.children|
      invariant tree.Valid()
      invariant tree.root == ItemsTree(mapTree, pm.children[..k])
    {
      var item := pm.children[k];
      ghost var before := tree.root;
      var at := tree.AddNode(item.path, item.nodeLabel.GetOr(""));
      tree.AddChildAt(at, PhandleProperty("physical-layout", LayoutName(item)));
      tree.AddChildAt(at, ArrayProperty("positions", Defined(item.positions), 0));
      assert tree.root == ItemTree(before, item);
      ItemsTreeSnoc(mapTree, pm.children, k);
    }
    assert pm.children[..|pm.children|] == pm.children;
    r := ToString(tree.root);
  }

  lemma ItemsTreeSnoc(root: Formattable, items: seq<PositionMapItem>, k: nat)
    requires root.Node? && k < |items|
    ensures ItemsTree(root, items[..k + 1]) == ItemTree(ItemsTree(root, items[..k]), items[k])
  {
    assert items[..k + 1][..k] == items[..k];
  }

  // ---------------------------------------------------------------------
  // Properties of `formatLayout`.

  /** The map node holds `compatible`, then, when the map is complete, a
      spacer and `complete;`; nothing else is there before the items. */
  lemma MapNodeChildren(pm: PositionMap)
    ensures var (r, at) := MapTree(pm);
      NodeAt(r, at).children ==
        [StringProperty("compatible", MAP_COMPATIBLE)]
        + (if pm.complete then [Spacer, BooleanProperty("complete")] else [])
  {
    AddNodeFresh(Node("/", "", []), pm.path, pm.nodeLabel.GetOr(""));
  }

  /** An item adds, at the node of its path (found or made), its
      `physical-layout` phandle and then its `positions` array of the
      assigned keys, unpadded; the node carries the item's label when it
      has one. */
  lemma ItemNode(root: Formattable, item: PositionMapItem)
    requires root.Node?
    ensures var (r0, at) := AddNodeOf(root, item.path, item.nodeLabel.GetOr(""));
      var r := ItemTree(root, item);
      && IsAddress(r, at)
      && Find(r, Parts(item.path)) == Some(at)
      && NodeAt(r, at).children == NodeAt(r0, at).children
           + [PhandleProperty("physical-layout", LayoutName(item)), ArrayProperty("positions", Defined(item.positions), 0)]
      && (item.nodeLabel.GetOr("") != "" ==> NodeAt(r, at).nodeLabel == item.nodeLabel.value)
  {
    var l := item.nodeLabel.GetOr("");
    var (r0, at) := AddNodeOf(root, item.path, l);
    AddNodeFacts(root, item.path, l);
    var p := PhandleProperty("physical-layout", LayoutName(item));
    var q := ArrayProperty("positions", Defined(item.positions), 0);
    var r1 := AddChildTo(r0, at, p);
    var r := AddChildTo(r1, at, q);
    assert r == ItemTree(root, item);
    AddPropertyAt(r0, at, p);
    AddPropertyAt(r1, at, q);
    ExtendsFind(r0, r1, Parts(item.path));
    ExtendsFind(r1, r, Parts(item.path));
  }

  /** A property added at an address lands last among that node's children
      and leaves the rest of the tree as it was. */
  lemma AddPropertyAt(root: Formattable, at: seq<nat>, child: Formattable)
    requires IsAddress(root, at) && !child.Node?
    ensures var r := AddChildTo(root, at, child);
      && Extends(root, r)
      && NodeAt(r, at).children == NodeAt(root, at).children + [child]
      && NodeAt(r, at).nodeLabel == NodeAt(root, at).nodeLabel
  {
    AddChildExtends(root, at, child);
  }

  /** Only the position map is printed: the layouts do not change the
      output. */
  lemma LayoutsNotPrinted(state: EditState, layouts: seq<PhysicalLayout>)
    ensures FormatLayoutOf(state.(layouts := layouts)) == FormatLayoutOf(state)
  {
  }

  /** When every path holds a `/`, no label lands on the root, and the
      output starts with the root node `/ {`. */
  lemma OutputStartsWithRoot(state: EditState)
    requires '/' in state.positionMap.path
    requires forall i :: 0 <= i < |state.positionMap.children| ==> '/' in state.positionMap.children[i].path
    ensures |FormatLayoutOf(state)| >= 4 && FormatLayoutOf(state)[..4] == "/ {\n"
  {
    var pm := state.positionMap;
    RootKept(pm, |pm.children|);
    assert pm.children[..|pm.children|] == pm.children;
    RootText(ItemsTree(MapTree(pm).0, pm.children));
  }

  /** A state that `makeInitialState` builds from a devicetree import, whose
      layouts, map and items carry no paths, prints from the unlabelled root
      `/ {`: the map and its items are all filed under `/position_map`. */
  lemma ImportedStateStartsWithRoot(
    layouts: seq<PhysicalLayout>, positionMap: Option<ImportedPositionMap>,
    minKeyCount: (seq<PhysicalLayout>, PositionMap) -> int)
    requires forall i :: 0 <= i < |layouts| ==> layouts[i].path.None?
    requires positionMap.Some? ==> positionMap.value.path.None?
    requires positionMap.Some? ==> forall k :: 0 <= k < |positionMap.value.children| ==> positionMap.value.children[k].path.None?
    requires InitialState.InitialStateOf(Some(layouts), positionMap, minKeyCount).Ok?
    ensures var s := InitialState.InitialStateOf(Some(layouts), positionMap, minKeyCount).value;
      |FormatLayoutOf(s)| >= 4 && FormatLayoutOf(s)[..4] == "/ {\n"
  {
    InitialState.DevicetreeImportPaths(layouts, positionMap, minKeyCount);
    var s := InitialState.InitialStateOf(Some(layouts), positionMap, minKeyCount).value;
    assert s.positionMap.path[0] == '/';
    forall i | 0 <= i < |s.positionMap.children| ensures '/' in s.positionMap.children[i].path {
      assert s.positionMap.children[i].path[0] == '/';
    }
    OutputStartsWithRoot(s);
  }

  /** The text of the unlabelled root starts with `/ {`. */
  lemma RootText(root: Formattable)
    requires root.Node? && root.name == "/" && root.nodeLabel == ""
    ensures |ToString(root)| >= 4 && ToString(root)[..4] == "/ {\n"
  {
    assert Identifier("/", "") == "/";
    var head := "/" + " {\n";
    assert head == "/ {\n";
    var body := Utility.Indent(Join(ChildTexts(root.children), "\n"));
    assert ToString(root) == head + (body + "\n};");
  }

  /** The root keeps its name and its empty label while paths with a `/`
      are added. */
  lemma {:induction false} RootKept(pm: PositionMap, k: nat)
    requires k <= |pm.children|
    requires '/' in pm.path
    requires forall i :: 0 <= i < |pm.children| ==> '/' in pm.children[i].path
    ensures var r := ItemsTree(MapTree(pm).0, pm.children[..k]);
      r.name == "/" && r.nodeLabel == ""
    decreases k
  {
    var start := MapTree(pm).0;
    if k == 0 {
      assert ItemsTree(start, pm.children[..k]) == start;
      MapRoot(pm);
    } else {
      var prev := ItemsTree(start, pm.children[..k - 1]);
      assert prev.name == "/" && prev.nodeLabel == "" by {
        RootKept(pm, k - 1);
      }
      assert ItemsTree(start, pm.children[..k]) == ItemTree(prev, pm.children[k - 1]) by {
        ItemsTreeSnoc(start, pm.children, k - 1);
      }
      ItemRoot(prev, pm.children[k - 1]);
    }
  }

  /** The position map node lies below the root. */
  lemma MapRoot(pm: PositionMap)
    requires '/' in pm.path
    ensures MapTree(pm).0.name == "/" && MapTree(pm).0.nodeLabel == ""
  {
    AddNodeDeep(Node("/", "", []), pm.path, pm.nodeLabel.GetOr(""));
  }

  /** An item whose path holds a `/` lies below the root. */
  lemma ItemRoot(root: Formattable, item: PositionMapItem)
    requires root.Node? && '/' in item.path
    ensures ItemTree(root, item).name == root.name && ItemTree(root, item).nodeLabel == root.nodeLabel
  {
    AddNodeDeep(root, item.path, item.nodeLabel.GetOr(""));
  }

  /** A path with a `/` leads below the root, so the root keeps its name
      and label. */
  lemma AddNodeDeep(root: Formattable, path: string, l: string)
    requires root.Node? && '/' in path
    ensures var (r, at) := AddNodeOf(root, path, l);
      |at| > 0 && r.name == root.name && r.nodeLabel == root.nodeLabel
  {
    SplitCount(path, '/');
  }
}
