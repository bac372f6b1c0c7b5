/** The layout extractor of src/parser/layout.ts: physical layouts and the
    position map read out of a devicetree, through the property selection
    and value decoder of the devicetree module. Key measures stay in the
    hundredths the devicetree stores (see `Types.KeyAttributes`). */
module LayoutParser {
  import opened Wrappers
  import opened Syntax
  import opened Errors
  import opened Types
  import opened Sorting
  import opened DevicetreeValues
  import opened DevicetreeProperties
  import Utility

  /** The tree-sitter queries the extractor depends on: the property query,
      every located `node` of the tree, and the nodes whose name references
      a label. */
  datatype Queries = Queries(
    properties: PropertyQuery,
    allNodes: seq<Located>,
    referencing: string -> seq<Located>)

  /** What `parseLayouts` returns. */
  datatype LayoutParseResult = LayoutParseResult(layouts: seq<PhysicalLayout>, positionMap: Option<ImportedPositionMap>)

  // ---------------------------------------------------------------------
  // Lists of results.

  /** `xs.map(f)` for an `f` that may throw: every result, or the first
      error. */
  function MapAll<T, U>(f: T -> Result<U, Error>, xs: seq<T>): (r: Result<seq<U>, Error>)
    ensures r.Ok? ==> |r.value| == |xs|
  {
    if |xs| == 0 then Ok([])
    else
      match f(xs[0])
      case Err(e) => Err(e)
      case Ok(y) =>
        match MapAll(f, xs[1..])
        case Err(e) => Err(e)
        case Ok(ys) => Ok([y] + ys)
  }

  /** Results computed so far, in front of those still to come. */
  function Prepend<U>(done: seq<U>, rest: Result<seq<U>, Error>): Result<seq<U>, Error>
  {
    match rest
    case Err(e) => Err(e)
    case Ok(ys) => Ok(done + ys)
  }

  lemma PrependNothing<U>(rest: Result<seq<U>, Error>)
    ensures Prepend([], rest) == rest
  {
    if rest.Ok? {
      assert [] + rest.value == rest.value;
    }
  }

  lemma MapAllStep<T, U>(f: T -> Result<U, Error>, xs: seq<T>, i: nat, done: seq<U>)
    requires i < |xs|
    ensures f(xs[i]).Err? ==> Prepend(done, MapAll(f, xs[i..])) == Err(f(xs[i]).error)
    ensures f(xs[i]).Ok? ==>
      Prepend(done, MapAll(f, xs[i..])) == Prepend(done + [f(xs[i]).value], MapAll(f, xs[i + 1..]))
  {
    assert xs[i..][0] == xs[i];
    assert xs[i..][1..] == xs[i + 1..];
    if f(xs[i]).Ok? && MapAll(f, xs[i + 1..]).Ok? {
      var y := f(xs[i]).value;
      var ys := MapAll(f, xs[i + 1..]).value;
      assert MapAll(f, xs[i..]) == Ok([y] + ys);
      assert done + ([y] + ys) == (done + [y]) + ys;
    }
  }

  /** A mapped list succeeds with one result per input, in order, exactly
      when every input succeeds. */
  lemma {:induction false} MapAllFacts<T, U>(f: T -> Result<U, Error>, xs: seq<T>)
    ensures MapAll(f, xs).Ok? <==> forall i :: 0 <= i < |xs| ==> f(xs[i]).Ok?
    ensures MapAll(f, xs).Ok? ==>
      |MapAll(f, xs).value| == |xs| && forall i :: 0 <= i < |xs| ==> f(xs[i]) == Ok(MapAll(f, xs).value[i])
    decreases |xs|
  {
    if |xs| > 0 {
      MapAllFacts(f, xs[1..]);
      assert forall i :: 1 <= i < |xs| ==> xs[1..][i - 1] == xs[i];
    }
  }

  // ---------------------------------------------------------------------
  // Key attributes.

  /** The number of cells of one key (`KEY_ATTRS_SIZE`). */
  const KEY_ATTRS_SIZE: int := 8

  /** Reading a cell past the end of a short group: the destructured
      variable is `undefined`, and the decoder fails reading its `type`. */
  const MISSING_CELL: Error := PlainError("Cannot read properties of undefined (reading 'type')")

  /** One key: the phandle `&key_physical_attrs`, then width, height, x, y,
      rotation, rx and ry, decoded in that order; a cell missing from a
      short group fails once the cells before it have decoded. */
  function KeyGroup(group: seq<SyntaxNode>): Result<KeyAttributes, Error>
  {
    if |group| == 0 then Err(MISSING_CELL)
    else
      var target :- ParsePhandle(group[0]);
      if target != "key_physical_attrs" then Err(NodeError(group[0], "Expected &key_physical_attrs"))
      else
        var ns :- MapAll(ParseNumber, group[1..]);
        if |ns| < 7 then Err(MISSING_CELL)
        else Ok(KeyAttributes(ns[0], ns[1], ns[2], ns[3], ns[4], ns[5], ns[6]))
  }

  /** What `parseKeyAttributesArray` returns: one key per group of eight
      cells. */
  function KeyAttributesOf(keys: seq<SyntaxNode>): Result<seq<KeyAttributes>, Error>
  {
    MapAll(KeyGroup, Utility.ChunksOf(keys, KEY_ATTRS_SIZE))
  }

  /** `parseKeyAttributesArray`: steps through the cells eight at a time. */
  method ParseKeyAttributesArray(keys: seq<SyntaxNode>) returns (r: Result<seq<KeyAttributes>, Error>)
    ensures r == KeyAttributesOf(keys)
  {
    var result: seq<KeyAttributes> := [];
    var i := 0;
    assert Utility.From(keys, 0) == keys;
    PrependNothing(KeyAttributesOf(keys));
    while i < |keys|
      invariant 0 <= i
      invariant KeyAttributesOf(keys) == Prepend(result, MapAll(KeyGroup, Utility.ChunksOf(Utility.From(keys, i), KEY_ATTRS_SIZE)))
      decreases |keys| - i
    {
      var end := if i + KEY_ATTRS_SIZE < |keys| then i + KEY_ATTRS_SIZE else |keys|;
      var group := keys[i..end];
      Utility.ChunksStep(keys, i, KEY_ATTRS_SIZE);
      var chunks := Utility.ChunksOf(Utility.From(keys, i), KEY_ATTRS_SIZE);
      MapAllStep(KeyGroup, chunks, 0, result);
      assert chunks[0..] == chunks && chunks[0] == group;
      var key := KeyGroup(group);
      if key.Err? {
        return Err(key.error);
      }
      result := result + [key.value];
      i := i + KEY_ATTRS_SIZE;
    }
    assert Utility.From(keys, i) == [];
    assert result + [] == result;
    r := Ok(result);
  }

  /** Keys come in groups of eight cells, the last one possibly shorter, so
      there are ceil(n / 8) keys and key `k` is decoded from cells `8k` to
      `8k + 7`. */
  lemma KeyCount(keys: seq<SyntaxNode>)
    requires KeyAttributesOf(keys).Ok?
    ensures var r := KeyAttributesOf(keys).value;
      && (|r| - 1) * 8 < |keys| <= |r| * 8
      && forall k :: 0 <= k < |r| ==> KeyGroup(Utility.ChunksOf(keys, 8)[k]) == Ok(r[k])
  {
    Utility.ChunksProperties(keys, 8);
    MapAllFacts(KeyGroup, Utility.ChunksOf(keys, 8));
  }

  /** A group fails at its first cell when that is not the phandle
      `key_physical_attrs`; a well-formed group gives each decoded cell to
      its field, in order. */
  lemma KeyGroupFacts(group: seq<SyntaxNode>)
    requires 0 < |group| <= 8
    ensures ParsePhandle(group[0]).Ok? && ParsePhandle(group[0]).value != "key_physical_attrs" ==>
      KeyGroup(group) == Err(NodeError(group[0], "Expected &key_physical_attrs"))
    ensures KeyGroup(group).Ok? ==>
      var key := KeyGroup(group).value;
      && |group| == 8
      && ParsePhandle(group[0]) == Ok("key_physical_attrs")
      && ParseNumber(group[1]) == Ok(key.width) && ParseNumber(group[2]) == Ok(key.height)
      && ParseNumber(group[3]) == Ok(key.x) && ParseNumber(group[4]) == Ok(key.y)
      && ParseNumber(group[5]) == Ok(key.rotation)
      && ParseNumber(group[6]) == Ok(key.rx) && ParseNumber(group[7]) == Ok(key.ry)
  {
    if KeyGroup(group).Ok? {
      var cells := group[1..];
      MapAllFacts(ParseNumber, cells);
      assert forall k :: 1 <= k < |group| ==> group[k] == cells[k - 1];
    }
  }

  // ---------------------------------------------------------------------
  // Physical layouts.

  /** What `parsePhysicalLayout` returns: properties are read across every
      fragment of the node, missing ones default to `''` and `[]`. */
  function PhysicalLayoutOf(q: Queries, node: Located): Result<PhysicalLayout, Error>
  {
    var nodes := SortBy(Fragments(q.allNodes, q.referencing, node), Ascending);
    var displayName :- ValueOf(PropertyOf(q.properties, AllOf(nodes), "display-name"), Str);
    var keys :- ValueOf(PropertyOf(q.properties, AllOf(nodes), "keys"), PhandleArray);
    var transform :- ValueOf(PropertyOf(q.properties, AllOf(nodes), "transform"), Phandle);
    var kscan :- ValueOf(PropertyOf(q.properties, AllOf(nodes), "kscan"), Phandle);
    var attributes :- KeyAttributesOf(if keys.Cells? then keys.cells else []);
    Ok(PhysicalLayout(
      Some(NodeName(Some(node.node))),
      None,
      Some(NodeLabel(Some(node.node))),
      if displayName.Text? then displayName.s else "",
      attributes,
      if transform.Text? then transform.s else "",
      if kscan.Text? then kscan.s else ""))
  }

  /** `parsePhysicalLayout`. */
  method ParsePhysicalLayout(q: Queries, node: Located) returns (r: Result<PhysicalLayout, Error>)
    ensures r == PhysicalLayoutOf(q, node)
  {
    var nodes := FindBySameNode(q.allNodes, q.referencing, node);
    var displayName :- GetPropertyValue(q.properties, AllOf(nodes), "display-name", Str);
    var keys :- GetPropertyValue(q.properties, AllOf(nodes), "keys", PhandleArray);
    var transform :- GetPropertyValue(q.properties, AllOf(nodes), "transform", Phandle);
    var kscan :- GetPropertyValue(q.properties, AllOf(nodes), "kscan", Phandle);
    var attributes :- ParseKeyAttributesArray(if keys.Cells? then keys.cells else []);
    r := Ok(PhysicalLayout(
      Some(NodeName(Some(node.node))),
      None,
      Some(NodeLabel(Some(node.node))),
      if displayName.Text? then displayName.s else "",
      attributes,
      if transform.Text? then transform.s else "",
      if kscan.Text? then kscan.s else ""));
  }

  /** A layout is named by its node's name, has no path, and takes its
      node's label (`''` when it has none); a property that no fragment sets
      leaves its field at the default. */
  lemma PhysicalLayoutDefaults(q: Queries, node: Located)
    requires PhysicalLayoutOf(q, node).Ok?
    ensures var l := PhysicalLayoutOf(q, node).value;
      var nodes := SortBy(Fragments(q.allNodes, q.referencing, node), Ascending);
      && l.name == Some(NodeName(Some(node.node))) && l.path.None?
      && l.nodeLabel == Some(NodeLabel(Some(node.node)))
      && (PropertyOfAll(q.properties, nodes, "display-name").None? ==> l.displayName == "")
      && (PropertyOfAll(q.properties, nodes, "keys").None? ==> l.keys == [])
      && (PropertyOfAll(q.properties, nodes, "transform").None? ==> l.transform == "")
      && (PropertyOfAll(q.properties, nodes, "kscan").None? ==> l.kscan == "")
  {
    var nodes := SortBy(Fragments(q.allNodes, q.referencing, node), Ascending);
    var displayName := ValueOf(PropertyOf(q.properties, AllOf(nodes), "display-name"), Str);
    var keys := ValueOf(PropertyOf(q.properties, AllOf(nodes), "keys"), PhandleArray);
    var transform := ValueOf(PropertyOf(q.properties, AllOf(nodes), "transform"), Phandle);
    var kscan := ValueOf(PropertyOf(q.properties, AllOf(nodes), "kscan"), Phandle);
    assert displayName.Ok? && keys.Ok? && transform.Ok? && kscan.Ok?;
    var attributes := KeyAttributesOf(if keys.value.Cells? then keys.value.cells else []);
    assert attributes.Ok?;
    var l := PhysicalLayoutOf(q, node).value;
    assert l.displayName == if displayName.value.Text? then displayName.value.s else "";
    assert l.keys == attributes.value;
    assert l.transform == if transform.value.Text? then transform.value.s else "";
    assert l.kscan == if kscan.value.Text? then kscan.value.s else "";
    assert KeyAttributesOf([]) == Ok([]);
  }

  // ---------------------------------------------------------------------
  // The position map.

  /** A child syntax node, located under its parent. */
  function Under(parent: Located, child: SyntaxNode): Located
  {
    Located(child, parent.ancestors + [parent.node])
  }

  /** What `parsePositionMapItem` returns: the phandle of `physical-layout`
      (or `''`) and the array `positions` (or `[]`). */
  function PositionMapItemOf(q: Queries, item: Located): Result<ImportedMapItem, Error>
  {
    var layout :- ValueOf(PropertyOf(q.properties, OneNode(item), "physical-layout"), Phandle);
    var positions :- ValueOf(PropertyOf(q.properties, OneNode(item), "positions"), Array);
    var slots := if positions.Numbers? then positions.ns else [];
    Ok(ImportedMapItem(
      Some(NodeName(Some(item.node))),
      None,
      Some(NodeLabel(Some(item.node))),
      Some(if layout.Text? then layout.s else ""),
      seq(|slots|, i requires 0 <= i < |slots| => Some(slots[i]))))
  }

  /** `parsePositionMapItem`. */
  method ParsePositionMapItem(q: Queries, item: Located) returns (r: Result<ImportedMapItem, Error>)
    ensures r == PositionMapItemOf(q, item)
  {
    var layout :- GetPropertyValue(q.properties, OneNode(item), "physical-layout", Phandle);
    var positions :- GetPropertyValue(q.properties, OneNode(item), "positions", Array);
    var slots := if positions.Numbers? then positions.ns else [];
    r := Ok(ImportedMapItem(
      Some(NodeName(Some(item.node))),
      None,
      Some(NodeLabel(Some(item.node))),
      Some(if layout.Text? then layout.s else ""),
      seq(|slots|, i requires 0 <= i < |slots| => Some(slots[i]))));
  }

  /** An item is named by its node's name and has no path; its layout is the phandle of its own last `physical-layout`
      property, or `''` without one; its slots are the decoded `positions`,
      every one of them filled, or none without the property. */
  lemma PositionMapItemFacts(q: Queries, item: Located)
    requires PositionMapItemOf(q, item).Ok?
    ensures var it := PositionMapItemOf(q, item).value;
      var layoutProp := LastProperty(q.properties(item.node, "physical-layout"), item);
      var positionsProp := LastProperty(q.properties(item.node, "positions"), item);
      && it.name == Some(NodeName(Some(item.node))) && it.path.None?
      && it.nodeLabel == Some(NodeLabel(Some(item.node)))
      && it.physicalLayout.Some?
      && (layoutProp.None? ==> it.physicalLayout == Some(""))
      && (positionsProp.None? ==> it.positions == [])
      && (forall i :: 0 <= i < |it.positions| ==> it.positions[i].Some?)
      && (positionsProp.Some? && ChildForFieldName(positionsProp.value.node, "value").Some? ==>
            && ArrayOf(FieldChain(positionsProp.value.node, "value")).Ok?
            && |it.positions| == |ArrayOf(FieldChain(positionsProp.value.node, "value")).value|)
  {
  }

  /** `parsePositionMapItem` on a child node of the map. */
  function ItemParser(q: Queries, m: Located): SyntaxNode -> Result<ImportedMapItem, Error>
  {
    (c: SyntaxNode) => PositionMapItemOf(q, Under(m, c))
  }

  /** What `parsePositionMap` returns: `complete` is whether the map has
      that property, and there is one item per child node, in order. */
  function PositionMapOf(q: Queries, m: Located): Result<ImportedPositionMap, Error>
  {
    var complete := LastProperty(q.properties(m.node, "complete"), m).Some?;
    var children :- MapAll(ItemParser(q, m), ChildNodes(m.node));
    Ok(ImportedPositionMap(Some(NodeName(Some(m.node))), None, Some(NodeLabel(Some(m.node))), complete, children))
  }

  /** `parsePositionMap`. */
  method ParsePositionMap(q: Queries, m: Located) returns (r: Result<ImportedPositionMap, Error>)
    ensures r == PositionMapOf(q, m)
  {
    var completeValue := GetPropertyValue(q.properties, OneNode(m), "complete", Bool);
    assert completeValue == Ok(Flag(LastProperty(q.properties(m.node, "complete"), m).Some?));
    var complete := completeValue.Ok? && completeValue.value.Flag? && completeValue.value.present;
    var children :- ParsePositionMapItems(q, m, ChildNodes(m.node));
    r := Ok(ImportedPositionMap(Some(NodeName(Some(m.node))), None, Some(NodeLabel(Some(m.node))), complete, children));
  }

  /** `children.map(parsePositionMapItem)`. */
  method ParsePositionMapItems(q: Queries, m: Located, nodes: seq<SyntaxNode>)
    returns (r: Result<seq<ImportedMapItem>, Error>)
    ensures r == MapAll(ItemParser(q, m), nodes)
  {
    ghost var f := ItemParser(q, m);
    var children: seq<ImportedMapItem> := [];
    assert nodes[0..] == nodes;
    PrependNothing(MapAll(f, nodes));
    for i := 0 to |nodes|
      invariant MapAll(f, nodes) == Prepend(children, MapAll(f, nodes[i..]))
    {
      MapAllStep(f, nodes, i, children);
      var item := ParsePositionMapItem(q, Under(m, nodes[i]));
      assert item == f(nodes[i]);
      if item.Err? {
        return Err(item.error);
      }
      children := children + [item.value];
    }
    assert nodes[|nodes|..] == [];
    assert children + [] == children;
    r := Ok(children);
  }

  /** The map is complete exactly when it has its own `complete` property,
      and it holds one item per child node, in order. */
  lemma PositionMapFacts(q: Queries, m: Located)
    requires PositionMapOf(q, m).Ok?
    ensures var pm := PositionMapOf(q, m).value;
      var nodes := ChildNodes(m.node);
      && (pm.complete <==> exists p :: p in q.properties(m.node, "complete") && OwnedBy(p, m))
      && |pm.children| == |nodes|
      && forall i :: 0 <= i < |nodes| ==> PositionMapItemOf(q, Under(m, nodes[i])) == Ok(pm.children[i])
  {
    LastPropertyNone(q.properties(m.node, "complete"), m);
    MapAllFacts(ItemParser(q, m), ChildNodes(m.node));
  }

  /** The map is named by its node's name and its label, and has no path;
      neither has any of its items. */
  lemma PositionMapNames(q: Queries, m: Located)
    requires PositionMapOf(q, m).Ok?
    ensures var pm := PositionMapOf(q, m).value;
      && pm.name == Some(NodeName(Some(m.node))) && pm.path.None?
      && pm.nodeLabel == Some(NodeLabel(Some(m.node)))
      && forall i :: 0 <= i < |pm.children| ==> pm.children[i].path.None?
  {
    var pm := PositionMapOf(q, m).value;
    var nodes := ChildNodes(m.node);
    MapAllFacts(ItemParser(q, m), nodes);
    forall i | 0 <= i < |pm.children| ensures pm.children[i].path.None? {
      assert ItemParser(q, m)(nodes[i]) == Ok(pm.children[i]);
    }
  }

  // ---------------------------------------------------------------------
  // The whole file.

  /** `parsePhysicalLayout` on a layout match. */
  function LayoutParser(q: Queries): Located -> Result<PhysicalLayout, Error>
  {
    (n: Located) => PhysicalLayoutOf(q, n)
  }

  /** What `parseLayouts` returns, given the `zmk,physical-layout` and the
      `zmk,physical-layout-position-map` matches. */
  function LayoutsOf(q: Queries, layouts: seq<Located>, positionMaps: seq<Located>): Result<LayoutParseResult, Error>
  {
    var parsed :- MapAll(LayoutParser(q), layouts);
    if |positionMaps| == 0 then Ok(LayoutParseResult(parsed, None))
    else
      var m :- PositionMapOf(q, positionMaps[0]);
      Ok(LayoutParseResult(parsed, Some(m)))
  }

  /** `parseLayouts`, from the compatible matches on. */
  method ParseLayouts(q: Queries, layouts: seq<Located>, positionMaps: seq<Located>)
    returns (r: Result<LayoutParseResult, Error>)
    ensures r == LayoutsOf(q, layouts, positionMaps)
  {
    var parsed :- ParsePhysicalLayouts(q, layouts);
    if |positionMaps| == 0 {
      return Ok(LayoutParseResult(parsed, None));
    }
    var m :- ParsePositionMap(q, positionMaps[0]);
    r := Ok(LayoutParseResult(parsed, Some(m)));
  }

  /** `layouts.map((n) => parsePhysicalLayout(root, n))`. */
  method ParsePhysicalLayouts(q: Queries, layouts: seq<Located>) returns (r: Result<seq<PhysicalLayout>, Error>)
    ensures r == MapAll(LayoutParser(q), layouts)
  {
    ghost var f := LayoutParser(q);
    var parsed: seq<PhysicalLayout> := [];
    assert layouts[0..] == layouts;
    PrependNothing(MapAll(f, layouts));
    for i := 0 to |layouts|
      invariant MapAll(f, layouts) == Prepend(parsed, MapAll(f, layouts[i..]))
    {
      MapAllStep(f, layouts, i, parsed);
      var layout := ParsePhysicalLayout(q, layouts[i]);
      assert layout == f(layouts[i]);
      if layout.Err? {
        return Err(layout.error);
      }
      parsed := parsed + [layout.value];
    }
    assert layouts[|layouts|..] == [];
    assert parsed + [] == parsed;
    r := Ok(parsed);
  }

  /** One layout per layout match, in match order; the position map is the
      first map match's, and absent without one. */
  lemma LayoutsFacts(q: Queries, layouts: seq<Located>, positionMaps: seq<Located>)
    requires LayoutsOf(q, layouts, positionMaps).Ok?
    ensures var r := LayoutsOf(q, layouts, positionMaps).value;
      && |r.layouts| == |layouts|
      && (forall i :: 0 <= i < |layouts| ==> PhysicalLayoutOf(q, layouts[i]) == Ok(r.layouts[i]))
      && (r.positionMap.None? <==> |positionMaps| == 0)
      && (|positionMaps| > 0 ==> PositionMapOf(q, positionMaps[0]) == Ok(r.positionMap.value))
  {
    var parsed := MapAll(LayoutParser(q), layouts);
    assert parsed.Ok?;
    var r := LayoutsOf(q, layouts, positionMaps).value;
    assert r.layouts == parsed.value;
    forall i | 0 <= i < |layouts| ensures PhysicalLayoutOf(q, layouts[i]) == Ok(parsed.value[i]) {
      MapAllFacts(LayoutParser(q), layouts);
      assert LayoutParser(q)(layouts[i]) == PhysicalLayoutOf(q, layouts[i]);
    }
  }
}
