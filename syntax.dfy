/** The tree-sitter syntax tree the devicetree code walks, and the node
    helpers of src/parser/devicetree.ts that only navigate it:
    `getContainingNode`, `getChildNodes`, `getNodeName`, `getNodeLabel`,
    `getNodePath` and `getNodePathParts`. */
module Syntax {
  import opened Wrappers
  import opened JsString

  /** A row/column position in the source text (tree-sitter's `Point`). */
  datatype Point = Point(row: int, column: int)

  /** A syntax node: its grammar type (`kind`), its source text and extent,
      and its children in order. */
  datatype SyntaxNode = SyntaxNode(
    kind: string,
    text: string,
    startIndex: nat,
    endIndex: nat,
    startPosition: Point,
    endPosition: Point,
    children: seq<Child>)

  /** A child, with the grammar field it fills (if any) and whether it is a
      named node (punctuation such as `=` or `+` is not). */
  datatype Child = Child(field: Option<string>, named: bool, node: SyntaxNode)

  /** A node together with its ancestors, root first and parent last: what
      `node.parent` walks through. */
  datatype Located = Located(node: SyntaxNode, ancestors: seq<SyntaxNode>)

  /** The first child filling field `f` of the given children. */
  function FieldOf(children: seq<Child>, f: string): (r: Option<SyntaxNode>)
    ensures r.Some? <==> exists i :: 0 <= i < |children| && children[i].field == Some(f)
    ensures r.Some? ==> exists i :: (0 <= i < |children| && children[i].field == Some(f) && children[i].node == r.value
      && forall j :: 0 <= j < i ==> children[j].field != Some(f))
  {
    if |children| == 0 then None
    else if children[0].field == Some(f) then Some(children[0].node)
    else
      var r := FieldOf(children[1..], f);
      assert forall i :: 1 <= i < |children| ==> children[i] == children[1..][i - 1];
      r
  }

  /** `node.childForFieldName(f)`. */
  function ChildForFieldName(node: SyntaxNode, f: string): (r: Option<SyntaxNode>)
    ensures r.Some? ==> exists i :: 0 <= i < |node.children| && node.children[i].node == r.value
  {
    FieldOf(node.children, f)
  }

  /** The named nodes among the given children, in order. */
  function NamedOf(children: seq<Child>): (r: seq<SyntaxNode>)
    ensures |r| <= |children|
    ensures forall k :: 0 <= k < |r| ==> exists i :: 0 <= i < |children| && children[i].named && children[i].node == r[k]
  {
    if |children| == 0 then []
    else
      var rest := NamedOf(children[1..]);
      assert forall i :: 1 <= i < |children| ==> children[i] == children[1..][i - 1];
      if children[0].named then [children[0].node] + rest else rest
  }

  /** `node.namedChildren`. */
  function NamedChildren(node: SyntaxNode): (r: seq<SyntaxNode>)
    ensures forall k :: 0 <= k < |r| ==> exists i :: 0 <= i < |node.children| && node.children[i].node == r[k]
  {
    NamedOf(node.children)
  }

  /** The node filling field `f` followed by its named siblings: the chain a
      loop over `nextNamedSibling` visits, starting at that field. */
  function FieldChain(node: SyntaxNode, f: string): (r: seq<SyntaxNode>)
    ensures r == [] <==> ChildForFieldName(node, f).None?
    ensures r != [] ==> r[0] == ChildForFieldName(node, f).value
  {
    FieldChainOf(node.children, f)
  }

  function FieldChainOf(children: seq<Child>, f: string): (r: seq<SyntaxNode>)
    ensures r == [] <==> FieldOf(children, f).None?
    ensures r != [] ==> r[0] == FieldOf(children, f).value
  {
    if |children| == 0 then []
    else if children[0].field == Some(f) then [children[0].node] + NamedOf(children[1..])
    else FieldChainOf(children[1..], f)
  }

  /** `getChildNodes`: the named children of type `node`. */
  function ChildNodes(node: SyntaxNode): (r: seq<SyntaxNode>)
    ensures forall k :: 0 <= k < |r| ==> r[k].kind == "node" && r[k] in NamedChildren(node)
    ensures forall x :: x in NamedChildren(node) && x.kind == "node" ==> x in r
  {
    var named := NamedChildren(node);
    FilterKind(named, "node")
  }

  function FilterKind(nodes: seq<SyntaxNode>, kind: string): (r: seq<SyntaxNode>)
    ensures forall k :: 0 <= k < |r| ==> r[k].kind == kind && r[k] in nodes
    ensures forall x :: x in nodes && x.kind == kind ==> x in r
  {
    if |nodes| == 0 then []
    else
      var rest := FilterKind(nodes[1..], kind);
      assert forall x :: x in nodes[1..] ==> x in nodes;
      assert forall x :: x in nodes ==> x == nodes[0] || x in nodes[1..];
      if nodes[0].kind == kind then [nodes[0]] + rest else rest
  }

  /** `node.parent`, for a located node. */
  function Parent(loc: Located): Option<Located>
  {
    if |loc.ancestors| == 0 then None
    else Some(Located(loc.ancestors[|loc.ancestors| - 1], loc.ancestors[..|loc.ancestors| - 1]))
  }

  /** How far a (possibly absent) located node is from the top. */
  function Depth(loc: Option<Located>): nat
  {
    if loc.None? then 0 else |loc.value.ancestors| + 1
  }

  /** The located node itself and all its ancestors, root first. */
  function Lineage(loc: Located): seq<SyntaxNode>
  {
    loc.ancestors + [loc.node]
  }

  /** What `getContainingNode` returns: the nearest of the node and its
      ancestors whose type is `node`. */
  function ContainingNode(loc: Option<Located>): (r: Option<Located>)
    ensures r.Some? ==> loc.Some? && r.value.node.kind == "node" && Depth(r) <= Depth(loc)
    decreases Depth(loc)
  {
    if loc.None? then None
    else if loc.value.node.kind == "node" then loc
    else ContainingNode(Parent(loc.value))
  }

  /** `getContainingNode`: climbs through parents until a `node` or the top. */
  method GetContainingNode(start: Option<Located>) returns (r: Option<Located>)
    ensures r == ContainingNode(start)
  {
    r := start;
    while r.Some? && r.value.node.kind != "node"
      invariant ContainingNode(r) == ContainingNode(start)
      decreases Depth(r)
    {
      r := Parent(r.value);
    }
  }

  /** The index of the last `node` in a lineage, if any. */
  function LastNodeIndex(line: seq<SyntaxNode>): (r: Option<nat>)
    ensures r.None? <==> forall k :: 0 <= k < |line| ==> line[k].kind != "node"
    ensures r.Some? ==> (r.value < |line| && line[r.value].kind == "node"
      && forall m :: r.value < m < |line| ==> line[m].kind != "node")
  {
    if |line| == 0 then None
    else if line[|line| - 1].kind == "node" then Some(|line| - 1)
    else LastNodeIndex(line[..|line| - 1])
  }

  /** The containing node is the last `node` of the lineage, located by the
      part of the lineage before it. */
  lemma {:induction false} ContainingNodeIsLastNode(loc: Located)
    ensures var line := Lineage(loc);
      ContainingNode(Some(loc)) == match LastNodeIndex(line)
        case None => None
        case Some(k) => Some(Located(line[k], line[..k]))
    decreases |loc.ancestors|
  {
    var line := Lineage(loc);
    assert line[..|line| - 1] == loc.ancestors;
    if loc.node.kind != "node" && |loc.ancestors| > 0 {
      var p := Parent(loc).value;
      ContainingNodeIsLastNode(p);
      assert Lineage(p) == loc.ancestors;
      var k := LastNodeIndex(loc.ancestors);
      if k.Some? {
        assert line[..k.value] == loc.ancestors[..k.value];
      }
    }
  }

  /** `getNodeName`: the text of the node's `name` field, or `''`. */
  function NodeName(node: Option<SyntaxNode>): string
  {
    if node.None? then ""
    else match ChildForFieldName(node.value, "name")
      case Some(n) => n.text
      case None => ""
  }

  /** `getNodeLabel`: the text of the node's `label` field, or `''`. */
  function NodeLabel(node: Option<SyntaxNode>): string
  {
    if node.None? then ""
    else match ChildForFieldName(node.value, "label")
      case Some(n) => n.text
      case None => ""
  }

  /** `getNodePathParts`: the names of the devicetree nodes enclosing the
      given syntax node, outermost first. */
  function NodePathParts(loc: Option<Located>): seq<string>
    decreases Depth(loc)
  {
    var dt := ContainingNode(loc);
    if dt.None? then [] else NodePathParts(Parent(dt.value)) + [NodeName(Some(dt.value.node))]
  }

  /** The names of the `node`-typed entries of a lineage, in order: what the
      path of a node consists of. */
  function DevicetreeNames(line: seq<SyntaxNode>): seq<string>
  {
    if |line| == 0 then []
    else
      var last := line[|line| - 1];
      DevicetreeNames(line[..|line| - 1]) + (if last.kind == "node" then [NodeName(Some(last))] else [])
  }

  /** The path parts are the names of the devicetree nodes among the node and
      its ancestors, root first; intermediate syntax nodes contribute
      nothing. */
  lemma {:induction false} NodePathPartsAreNames(loc: Located)
    ensures NodePathParts(Some(loc)) == DevicetreeNames(Lineage(loc))
    decreases |loc.ancestors|, 1
  {
    var line := Lineage(loc);
    assert line[..|line| - 1] == loc.ancestors;
    if loc.node.kind == "node" {
      AncestorNames(loc);
    } else if |loc.ancestors| == 0 {
      assert DevicetreeNames(line) == DevicetreeNames([]) + [];
    } else {
      var p := Parent(loc).value;
      NodePathPartsAreNames(p);
      assert Lineage(p) == loc.ancestors;
    }
  }

  /** Above a devicetree node, the path parts are those of its ancestors. */
  lemma {:induction false} AncestorNames(loc: Located)
    ensures NodePathParts(Parent(loc)) == DevicetreeNames(loc.ancestors)
    decreases |loc.ancestors|, 0
  {
    if |loc.ancestors| > 0 {
      var p := Parent(loc).value;
      NodePathPartsAreNames(p);
      assert Lineage(p) == loc.ancestors;
    }
  }

  /** How `getNodePath` joins its parts. */
  function PathFromParts(parts: seq<string>): string
  {
    if |parts| == 0 then ""
    else if |parts| == 1 then parts[0]
    else
      var path := Join(parts, "/");
      if parts[0] == "/" then path[1..] else path
  }

  /** `getNodePath`. */
  function NodePath(loc: Option<Located>): string
  {
    PathFromParts(NodePathParts(loc))
  }

  /** Under the root node `/`, the path is `/` followed by the other names
      joined with `/` (never `//`); otherwise the names are simply joined. */
  lemma PathFromPartsFacts(parts: seq<string>)
    ensures |parts| == 0 ==> PathFromParts(parts) == ""
    ensures |parts| == 1 ==> PathFromParts(parts) == parts[0]
    ensures |parts| >= 2 && parts[0] == "/" ==> PathFromParts(parts) == "/" + Join(parts[1..], "/")
    ensures |parts| >= 2 && parts[0] != "/" ==> PathFromParts(parts) == Join(parts, "/")
  {
    if |parts| >= 2 && parts[0] == "/" {
      var rest := Join(parts[1..], "/");
      assert Join(parts, "/") == "/" + "/" + rest;
      assert ("/" + "/" + rest)[1..] == "/" + rest;
    }
  }

  /** The root `/` with a child `foo` gives `/foo`. */
  lemma RootChildPath()
    ensures PathFromParts(["/", "foo"]) == "/foo"
  {
    PathFromPartsFacts(["/", "foo"]);
  }
}
