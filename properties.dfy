/** Property selection and fragment merging of src/parser/devicetree.ts:
    `getProperty` ("the last occurrence wins"), `findBySameNode` (every
    fragment of one devicetree node, in source order) and `getPropertyValue`.
    The tree-sitter queries these functions run are inputs: a property
    query maps a syntax node and a property name to the matches in its
    subtree, in query order; the node query is the list of every located
    `node` of the tree. */
module DevicetreeProperties {
  import opened Wrappers
  import opened Syntax
  import opened Errors
  import opened Sorting
  import opened DevicetreeValues

  /** What `Devicetree.query(...).matches(node)` captures as `@prop` for a
      property name. */
  type PropertyQuery = (SyntaxNode, string) -> seq<Located>

  /** The node a located syntax node belongs to (`getContainingNode`). */
  predicate OwnedBy(prop: Located, node: Located)
  {
    ContainingNode(Some(prop)) == Some(node)
  }

  /** `props.filter((prop) => getContainingNode(prop)?.equals(node))`. */
  function OwnProperties(props: seq<Located>, node: Located): (r: seq<Located>)
    ensures forall k :: 0 <= k < |r| ==> OwnedBy(r[k], node) && r[k] in props
    ensures forall p :: p in props && OwnedBy(p, node) ==> p in r
  {
    if |props| == 0 then []
    else
      var rest := OwnProperties(props[1..], node);
      assert forall p :: p in props ==> p == props[0] || p in props[1..];
      if OwnedBy(props[0], node) then [props[0]] + rest else rest
  }

  /** The sort key of the descending comparator `b.startIndex - a.startIndex`. */
  function Descending(p: Located): int
  {
    -(p.node.startIndex as int)
  }

  /** The sort key of the ascending comparator `a.startIndex - b.startIndex`. */
  function Ascending(p: Located): int
  {
    p.node.startIndex as int
  }

  /** What `getProperty` returns for one node: the head of its own matches
      sorted by descending start, or nothing. */
  function LastProperty(props: seq<Located>, node: Located): Option<Located>
  {
    var own := OwnProperties(props, node);
    if |own| == 0 then None else Some(SortBy(own, Descending)[0])
  }

  /** `getProperty(node, name)` for a single node: filters the matches to
      the node's own properties, sorts them in place by descending start
      and takes the first. */
  method GetProperty(query: PropertyQuery, node: Located, name: string) returns (r: Option<Located>)
    ensures r == LastProperty(query(node.node, name), node)
  {
    var own := OwnProperties(query(node.node, name), node);
    var a := new Located[|own|](i requires 0 <= i < |own| => own[i]);
    assert a[..] == own;
    InsertionSort(a, Descending);
    if a.Length == 0 {
      r := None;
    } else {
      r := Some(a[0]);
    }
  }

  /** The head of a sequence sorted by descending start is one of its
      elements, starts after every other one, and is the first of those
      starting at the same place. */
  lemma DescendingHead(own: seq<Located>)
    requires |own| > 0
    ensures var p := SortBy(own, Descending)[0];
      && p in own
      && (forall q :: q in own ==> q.node.startIndex <= p.node.startIndex)
      && own[FirstLeast(own, Descending)] == p
      && (forall j :: 0 <= j < FirstLeast(own, Descending) ==> own[j].node.startIndex < p.node.startIndex)
  {
    SortByHead(own, Descending);
    var k := FirstLeast(own, Descending);
    forall q | q in own
      ensures q.node.startIndex <= own[k].node.startIndex
    {
      var i :| 0 <= i < |own| && own[i] == q;
      assert Descending(own[k]) <= Descending(own[i]);
    }
    forall j | 0 <= j < k
      ensures own[j].node.startIndex < own[k].node.startIndex
    {
      assert Descending(own[k]) < Descending(own[j]);
    }
  }

  /** There is no property exactly when no match belongs to the node. */
  lemma LastPropertyNone(props: seq<Located>, node: Located)
    ensures LastProperty(props, node).None? <==> forall p :: p in props ==> !OwnedBy(p, node)
  {
    var own := OwnProperties(props, node);
    if |own| > 0 {
      assert own[0] in props && OwnedBy(own[0], node);
    }
  }

  /** The last occurrence wins: the selected property is a match that
      belongs to the node and starts after every other property of the node
      among the matches; of several starting at the same place it is the
      first match. */
  lemma LastPropertySome(props: seq<Located>, node: Located)
    requires LastProperty(props, node).Some?
    ensures var own := OwnProperties(props, node);
      var p := LastProperty(props, node).value;
      && p in props && OwnedBy(p, node)
      && (forall q :: q in props && OwnedBy(q, node) ==> q.node.startIndex <= p.node.startIndex)
      && own[FirstLeast(own, Descending)] == p
      && (forall j :: 0 <= j < FirstLeast(own, Descending) ==> own[j].node.startIndex < p.node.startIndex)
  {
    var own := OwnProperties(props, node);
    DescendingHead(own);
    var p := SortBy(own, Descending)[0];
    assert LastProperty(props, node).value == p;
    forall q | q in props && OwnedBy(q, node)
      ensures q.node.startIndex <= p.node.startIndex
    {
      assert q in own;
    }
  }

  /** The last of the results that are present. */
  function LastFound<T>(rs: seq<Option<T>>): Option<T>
  {
    if |rs| == 0 then None
    else if rs[|rs| - 1].Some? then rs[|rs| - 1]
    else LastFound(rs[..|rs| - 1])
  }

  /** There is none exactly when every result is absent; otherwise it is a
      result with none present after it. */
  lemma {:induction false} LastFoundFacts<T>(rs: seq<Option<T>>)
    ensures LastFound(rs).None? <==> forall k :: 0 <= k < |rs| ==> rs[k].None?
    ensures LastFound(rs).Some? ==>
      exists k :: 0 <= k < |rs| && LastFound(rs) == rs[k] && forall j :: k < j < |rs| ==> rs[j].None?
    decreases |rs|
  {
    if |rs| > 0 {
      var init := rs[..|rs| - 1];
      LastFoundFacts(init);
      assert forall k :: 0 <= k < |init| ==> init[k] == rs[k];
      if rs[|rs| - 1].None? && LastFound(init).Some? {
        var k :| 0 <= k < |init| && LastFound(init) == init[k] && forall j :: k < j < |init| ==> init[j].None?;
        assert forall j :: k < j < |rs| ==> rs[j].None?;
      }
    }
  }

  /** The selection of every node of a list, in order. */
  function Selections(query: PropertyQuery, nodes: seq<Located>, name: string): (r: seq<Option<Located>>)
    ensures |r| == |nodes|
    ensures forall i :: 0 <= i < |nodes| ==> r[i] == LastProperty(query(nodes[i].node, name), nodes[i])
  {
    seq(|nodes|, i requires 0 <= i < |nodes| => LastProperty(query(nodes[i].node, name), nodes[i]))
  }

  /** What `getProperty` returns for a list of nodes: the last of their
      selections that is not null. */
  function PropertyOfAll(query: PropertyQuery, nodes: seq<Located>, name: string): Option<Located>
  {
    LastFound(Selections(query, nodes, name))
  }

  /** `getProperty(nodes, name)`: the property of every node, keeping the
      last one found. */
  method GetPropertyOfAll(query: PropertyQuery, nodes: seq<Located>, name: string) returns (r: Option<Located>)
    ensures r == PropertyOfAll(query, nodes, name)
  {
    ghost var selections := Selections(query, nodes, name);
    r := None;
    for i := 0 to |nodes|
      invariant r == LastFound(selections[..i])
    {
      assert selections[..i + 1][..i] == selections[..i];
      var p := GetProperty(query, nodes[i], name);
      if p.Some? {
        r := p;
      }
    }
    assert selections[..|nodes|] == selections;
  }

  // ---------------------------------------------------------------------
  // Fragments of one node.

  /** `findByPath`: the `node`s whose path is the given one; an empty path
      finds nothing. */
  function FindByPath(allNodes: seq<Located>, path: string): (r: seq<Located>)
    ensures path == "" ==> r == []
    ensures path != "" ==> forall p :: p in r <==> p in allNodes && NodePath(Some(p)) == path
  {
    if path == "" then [] else PathFilter(allNodes, path)
  }

  function PathFilter(nodes: seq<Located>, path: string): (r: seq<Located>)
    ensures forall p :: p in r <==> p in nodes && NodePath(Some(p)) == path
  {
    if |nodes| == 0 then []
    else
      var rest := PathFilter(nodes[1..], path);
      assert forall p :: p in nodes <==> p == nodes[0] || p in nodes[1..];
      if NodePath(Some(nodes[0])) == path then [nodes[0]] + rest else rest
  }

  /** `findByReference`: the nodes the reference query finds for a label; an
      empty label finds nothing. */
  function FindByReference(referencing: string -> seq<Located>, nodeLabel: string): (r: seq<Located>)
    ensures nodeLabel == "" ==> r == []
    ensures nodeLabel != "" ==> r == referencing(nodeLabel)
  {
    if nodeLabel == "" then [] else referencing(nodeLabel)
  }

  /** The fragments `findBySameNode` collects, before sorting. */
  function Fragments(allNodes: seq<Located>, referencing: string -> seq<Located>, node: Located): seq<Located>
  {
    FindByPath(allNodes, NodePath(Some(node))) + FindByReference(referencing, NodeLabel(Some(node.node)))
  }

  /** `findBySameNode`: the fragments by path, then those by reference,
      sorted in place by ascending start. */
  method FindBySameNode(allNodes: seq<Located>, referencing: string -> seq<Located>, node: Located)
    returns (r: seq<Located>)
    ensures r == SortBy(Fragments(allNodes, referencing, node), Ascending)
  {
    var path := NodePath(Some(node));
    var nodeLabel := NodeLabel(Some(node.node));
    var found := FindByPath(allNodes, path) + FindByReference(referencing, nodeLabel);
    var a := new Located[|found|](i requires 0 <= i < |found| => found[i]);
    assert a[..] == found;
    InsertionSort(a, Ascending);
    r := a[..];
  }

  /** The fragments come out in source order and are exactly those found by
      path and by reference (as a multiset), and the node itself is among
      them when the node query lists it and its path is not empty. */
  lemma SameNodeFacts(allNodes: seq<Located>, referencing: string -> seq<Located>, node: Located)
    ensures var r := SortBy(Fragments(allNodes, referencing, node), Ascending);
      && (forall i, j :: 0 <= i < j < |r| ==> r[i].node.startIndex <= r[j].node.startIndex)
      && multiset(r) == multiset(FindByPath(allNodes, NodePath(Some(node))))
           + multiset(FindByReference(referencing, NodeLabel(Some(node.node))))
      && (node in allNodes && NodePath(Some(node)) != "" ==> node in r)
  {
    var f := Fragments(allNodes, referencing, node);
    var r := SortBy(f, Ascending);
    SortBySorted(f, Ascending);
    forall i, j | 0 <= i < j < |r|
      ensures r[i].node.startIndex <= r[j].node.startIndex
    {
      assert Ascending(r[i]) <= Ascending(r[j]);
    }
    if node in allNodes && NodePath(Some(node)) != "" {
      assert node in FindByPath(allNodes, NodePath(Some(node)));
      assert node in multiset(f);
      assert node in multiset(r);
    }
  }

  // ---------------------------------------------------------------------
  // Typed property values.

  /** The node or nodes a property is looked up on. */
  datatype Target = OneNode(node: Located) | AllOf(nodes: seq<Located>)

  /** `ValueType`. */
  datatype ValueType = Bool | Int | Str | StringArray | Array | Phandle | Phandles | PhandleArray

  /** What `getPropertyValue` returns. */
  datatype PropertyValue =
    | Null
    | Flag(present: bool)
    | Number(n: int)
    | Text(s: string)
    | Numbers(ns: seq<int>)
    | Cells(cells: seq<SyntaxNode>)

  /** `getProperty` on a node or a list of nodes. */
  function PropertyOf(query: PropertyQuery, target: Target, name: string): Option<Located>
  {
    match target
    case OneNode(n) => LastProperty(query(n.node, name), n)
    case AllOf(ns) => PropertyOfAll(query, ns, name)
  }

  /** The decoded value of a selected property. */
  function ValueOf(prop: Option<Located>, t: ValueType): Result<PropertyValue, Error>
  {
    if t == Bool then Ok(Flag(prop.Some?))
    else if prop.None? then Ok(Null)
    else
      match ChildForFieldName(prop.value.node, "value")
      case None => Ok(Null)
      case Some(value) =>
        match t
        case Int => (match ParseNumber(value) case Ok(n) => Ok(Number(n)) case Err(e) => Err(e))
        case Str => (match ParseString(value) case Ok(s) => Ok(Text(s)) case Err(e) => Err(e))
        case Phandle => (match ParsePhandle(value) case Ok(s) => Ok(Text(s)) case Err(e) => Err(e))
        case StringArray => Err(PlainError("Not implemented"))
        case Phandles => Err(PlainError("Not implemented"))
        case Array =>
          (match ArrayOf(FieldChain(prop.value.node, "value")) case Ok(ns) => Ok(Numbers(ns)) case Err(e) => Err(e))
        case PhandleArray => Ok(Cells(PhandleArrayOf(FieldChain(prop.value.node, "value"))))
  }

  /** `getPropertyValue(node, name, type)`. */
  method GetPropertyValue(query: PropertyQuery, target: Target, name: string, t: ValueType)
    returns (r: Result<PropertyValue, Error>)
    ensures r == ValueOf(PropertyOf(query, target, name), t)
  {
    var prop: Option<Located>;
    match target {
      case OneNode(n) => prop := GetProperty(query, n, name);
      case AllOf(ns) => prop := GetPropertyOfAll(query, ns, name);
    }
    if t == Bool {
      return Ok(Flag(prop.Some?));
    }
    if prop.None? {
      return Ok(Null);
    }
    var value := ChildForFieldName(prop.value.node, "value");
    if value.None? {
      return Ok(Null);
    }
    var chain := FieldChain(prop.value.node, "value");
    match t {
      case Int =>
        var n :- ParseNumber(value.value);
        r := Ok(Number(n));
      case Str =>
        var s :- ParseString(value.value);
        r := Ok(Text(s));
      case Phandle =>
        var s :- ParsePhandle(value.value);
        r := Ok(Text(s));
      case StringArray => r := Err(PlainError("Not implemented"));
      case Phandles => r := Err(PlainError("Not implemented"));
      case Array =>
        var ns :- ParseArray(chain);
        r := Ok(Numbers(ns));
      case PhandleArray =>
        var cells := ParsePhandleArray(chain);
        r := Ok(Cells(cells));
    }
  }

  /** A boolean property is its presence; any other type of an absent
      property, or of one without a value, is `null`. */
  lemma ValueOfFacts(prop: Option<Located>, t: ValueType)
    ensures ValueOf(prop, Bool) == Ok(Flag(prop.Some?))
    ensures t != Bool && prop.None? ==> ValueOf(prop, t) == Ok(Null)
    ensures t != Bool && prop.Some? && ChildForFieldName(prop.value.node, "value").None? ==>
      ValueOf(prop, t) == Ok(Null)
  {
  }

  /** String arrays and phandle lists are not implemented, whatever the
      value. */
  lemma ValueOfUnimplemented(prop: Option<Located>)
    requires prop.Some? && ChildForFieldName(prop.value.node, "value").Some?
    ensures ValueOf(prop, StringArray) == Err(PlainError("Not implemented"))
    ensures ValueOf(prop, Phandles) == Err(PlainError("Not implemented"))
  {
  }

  /** A number property is the number its value evaluates to, and fails
      exactly when the evaluation does. */
  lemma ValueOfNumber(prop: Option<Located>)
    requires prop.Some? && ChildForFieldName(prop.value.node, "value").Some?
    ensures var value := ChildForFieldName(prop.value.node, "value").value;
      && (ValueOf(prop, Int).Ok? <==> ParseNumber(value).Ok?)
      && (ParseNumber(value).Ok? ==> ValueOf(prop, Int) == Ok(Number(ParseNumber(value).value)))
  {
  }

  /** A phandle property is the label its value references. */
  lemma ValueOfPhandle(prop: Option<Located>)
    requires prop.Some? && ChildForFieldName(prop.value.node, "value").Some?
    ensures var value := ChildForFieldName(prop.value.node, "value").value;
      ParsePhandle(value).Ok? ==> ValueOf(prop, Phandle) == Ok(Text(ParsePhandle(value).value))
  {
    var value := ChildForFieldName(prop.value.node, "value").value;
    assert ValueOf(prop, Phandle) == (match ParsePhandle(value) case Ok(s) => Ok(Text(s)) case Err(e) => Err(e));
  }

  /** A phandle-array property starts at the value and runs through its
      siblings. */
  lemma ValueOfPhandleArray(prop: Option<Located>)
    requires prop.Some? && ChildForFieldName(prop.value.node, "value").Some?
    ensures var chain := FieldChain(prop.value.node, "value");
      && chain[0] == ChildForFieldName(prop.value.node, "value").value
      && ValueOf(prop, PhandleArray) == Ok(Cells(PhandleArrayOf(chain)))
  {
  }
}
