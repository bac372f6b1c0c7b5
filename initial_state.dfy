/** The import-time normalisation `makeInitialState` of
    src/ContextProviders.tsx: every layout gets a label, the position map
    gets a path, and exactly one item per layout, in layout order, each with
    a path of its own. */
module InitialState {
  import opened Wrappers
  import opened Types
  import opened JsString
  import opened Errors
  import PositionMapEditor

  /** `path.split('/').pop()`. */
  function LastSegment(path: string): string
  {
    var parts := Split(path, '/');
    parts[|parts| - 1]
  }

  /** What reading `split` of an absent `path` throws. */
  const NO_PATH: Error := PlainError("Cannot read properties of undefined (reading 'split')")

  /** The label a layout gets, `label || path.split('/').pop() || layout_<i>`:
      its own if non-empty; else, when it has a path, the last segment of the
      path if non-empty, else `layout_<i>`. A layout with neither a label
      nor a path makes reading `path.split` throw. */
  function DefaultLabel(layout: PhysicalLayout, i: int): Result<string, Error>
  {
    if layout.nodeLabel.Some? && layout.nodeLabel.value != "" then Ok(layout.nodeLabel.value)
    else if layout.path.None? then Err(NO_PATH)
    else if LastSegment(layout.path.value) != "" then Ok(LastSegment(layout.path.value))
    else Ok("layout_" + IntToString(i))
  }

  /** A layout that can be given a label: it has a non-empty one, or a path. */
  predicate Labellable(layout: PhysicalLayout)
  {
    (layout.nodeLabel.Some? && layout.nodeLabel.value != "") || layout.path.Some?
  }

  /** The `layouts.map(...)` that fills in missing labels. */
  function LabelledLayouts(layouts: seq<PhysicalLayout>): Result<seq<PhysicalLayout>, Error>
  {
    if forall i :: 0 <= i < |layouts| ==> DefaultLabel(layouts[i], i).Ok? then
      Ok(seq(|layouts|, i requires 0 <= i < |layouts| => layouts[i].(nodeLabel := Some(DefaultLabel(layouts[i], i).value))))
    else Err(NO_PATH)
  }

  /** The map throws exactly when some layout has neither a label nor a
      path. Otherwise every layout keeps everything but its label, and ends
      up with a non-empty label: its own when it had one, otherwise one
      taken from its path. */
  lemma LabelledLayoutsFacts(layouts: seq<PhysicalLayout>)
    ensures LabelledLayouts(layouts).Err? <==> exists i :: 0 <= i < |layouts| && !Labellable(layouts[i])
    ensures LabelledLayouts(layouts).Err? ==> LabelledLayouts(layouts).error == NO_PATH
    ensures LabelledLayouts(layouts).Ok? ==>
      var r := LabelledLayouts(layouts).value;
      && |r| == |layouts|
      && forall i :: 0 <= i < |r| ==>
           && r[i].(nodeLabel := layouts[i].nodeLabel) == layouts[i]
           && r[i].nodeLabel.Some? && r[i].nodeLabel.value != ""
           && (layouts[i].nodeLabel.Some? && layouts[i].nodeLabel.value != "" ==> r[i].nodeLabel == layouts[i].nodeLabel)
  {
    if exists i :: 0 <= i < |layouts| && !Labellable(layouts[i]) {
      var i :| 0 <= i < |layouts| && !Labellable(layouts[i]);
      assert DefaultLabel(layouts[i], i).Err?;
    }
  }

  /** A layout with a path but without a label takes the text after the last
      `/` of its path (the whole path when it has no `/`), provided that text
      is not empty, and `layout_<i>` otherwise. */
  lemma PathLabel(layout: PhysicalLayout, i: int)
    requires layout.nodeLabel.None? || layout.nodeLabel == Some("")
    requires layout.path.Some?
    ensures DefaultLabel(layout, i).Ok?
    ensures var path := layout.path.value;
      var given := DefaultLabel(layout, i).value;
      && (given == LastSegment(path) || given == "layout_" + IntToString(i))
      && (LastSegment(path) != "" ==>
            && '/' !in given && |given| <= |path| && path[|path| - |given|..] == given
            && ('/' in path ==> path[|path| - |given| - 1] == '/')
            && ('/' !in path ==> given == path))
  {
    var path := layout.path.value;
    var given := DefaultLabel(layout, i).value;
    var parts := Split(path, '/');
    assert LastPiece(path, '/', LastSegment(path)) by {
      SplitLast(path, '/');
    }
    if LastSegment(path) != "" {
      assert given == LastSegment(path);
      assert '/' !in parts[|parts| - 1];
    }
  }

  /** The map header: `path ?? '/position_map'`, `label ?? ''` and
      `complete ?? false` of the imported map. */
  function MapHeader(positionMap: Option<ImportedPositionMap>): (r: PositionMap)
    ensures r.children == []
    ensures positionMap.None? || positionMap.value.path.None? ==> r.path == "/position_map"
    ensures positionMap.Some? && positionMap.value.path.Some? ==> r.path == positionMap.value.path.value
    ensures positionMap.None? ==> r.nodeLabel == Some("") && !r.complete
    ensures positionMap.Some? ==>
      r.complete == positionMap.value.complete && r.nodeLabel == Some(positionMap.value.nodeLabel.GetOr(""))
  {
    match positionMap
    case None => PositionMap("/position_map", Some(""), false, [])
    case Some(m) => PositionMap(m.path.GetOr("/position_map"), Some(m.nodeLabel.GetOr("")), m.complete, [])
  }

  /** A possibly absent label inside a template string. */
  function LabelText(given: Option<string>): string
  {
    match given
    case None => "undefined"
    case Some(s) => s
  }

  /** `positionMap?.children.find((map) => map.physicalLayout === layout.label)`:
      the first imported item whose `physicalLayout` is the label (an absent
      label matches an absent one). */
  function FindExisting(children: seq<ImportedMapItem>, layoutLabel: Option<string>): (r: Option<ImportedMapItem>)
    ensures r.None? <==> forall i :: 0 <= i < |children| ==> children[i].physicalLayout != layoutLabel
    ensures r.Some? ==> exists i :: (0 <= i < |children| && children[i] == r.value
      && r.value.physicalLayout == layoutLabel
      && forall j :: 0 <= j < i ==> children[j].physicalLayout != layoutLabel)
  {
    if |children| == 0 then None
    else if children[0].physicalLayout == layoutLabel then Some(children[0])
    else
      var r := FindExisting(children[1..], layoutLabel);
      assert forall i :: 1 <= i < |children| ==> children[i] == children[1..][i - 1];
      r
  }

  /** The item `makeInitialState` starts from for a layout: filed under the
      map's path and the layout's label, unlabelled and empty. */
  function DefaultItem(layout: PhysicalLayout, mapPath: string): PositionMapItem
  {
    PositionMapItem(mapPath + "/" + LabelText(layout.nodeLabel), Some(""), layout.nodeLabel, [])
  }

  /** `{ ...defaults, ...item }`: every property the imported item has
      replaces the default one. The item's `name` comes along in the source
      too, but nothing reads it, and the edit state's items have no such
      field. */
  function Spread(defaults: PositionMapItem, item: ImportedMapItem): PositionMapItem
  {
    PositionMapItem(
      item.path.GetOr(defaults.path),
      if item.nodeLabel.Some? then item.nodeLabel else defaults.nodeLabel,
      if item.physicalLayout.Some? then item.physicalLayout else defaults.physicalLayout,
      item.positions)
  }

  /** The item pushed for one layout: the default item, overridden by the
      first imported item with the same `physicalLayout` when there is one. */
  function InitialItem(layout: PhysicalLayout, positionMap: Option<ImportedPositionMap>, mapPath: string): PositionMapItem
  {
    var existing := if positionMap.None? then None
      else FindExisting(positionMap.value.children, layout.nodeLabel);
    match existing
    case Some(item) => Spread(DefaultItem(layout, mapPath), item)
    case None => DefaultItem(layout, mapPath)
  }

  /** The children `makeInitialState` pushes, one per input layout. */
  function InitialItems(layouts: seq<PhysicalLayout>, positionMap: Option<ImportedPositionMap>, mapPath: string): seq<PositionMapItem>
  {
    seq(|layouts|, i requires 0 <= i < |layouts| => InitialItem(layouts[i], positionMap, mapPath))
  }

  /** What `makeInitialState(layouts, positionMap)` returns, or throws.
      `minKeyCount` stands for `getMinKeyCount`, which src/utility.ts does
      not define. */
  function InitialStateOf(
    layouts: Option<seq<PhysicalLayout>>,
    positionMap: Option<ImportedPositionMap>,
    minKeyCount: (seq<PhysicalLayout>, PositionMap) -> int): Result<EditState, Error>
  {
    var ls := layouts.GetOr([]);
    var newLayouts :- LabelledLayouts(ls);
    var header := MapHeader(positionMap);
    var newMap := header.(children := InitialItems(ls, positionMap, header.path));
    Ok(EditState(newLayouts, newMap, minKeyCount(newLayouts, newMap)))
  }

  /** `makeInitialState(layouts, positionMap)`: label the layouts, then push
      one item per layout. */
  method MakeInitialState(
    layouts: Option<seq<PhysicalLayout>>,
    positionMap: Option<ImportedPositionMap>,
    minKeyCount: (seq<PhysicalLayout>, PositionMap) -> int)
    returns (r: Result<EditState, Error>)
    ensures r == InitialStateOf(layouts, positionMap, minKeyCount)
  {
    var ls := layouts.GetOr([]);
    var newLayouts :- LabelledLayouts(ls);
    var newMap := MapHeader(positionMap);
    var children: seq<PositionMapItem> := [];
    for i := 0 to |ls|
      invariant children == InitialItems(ls[..i], positionMap, newMap.path)
    {
      var existing := if positionMap.None? then None
        else FindExisting(positionMap.value.children, ls[i].nodeLabel);
      var defaults := PositionMapItem(newMap.path + "/" + LabelText(ls[i].nodeLabel), Some(""), ls[i].nodeLabel, []);
      var item := match existing
        case Some(found) => Spread(defaults, found)
        case None => defaults;
      children := children + [item];
    }
    assert ls[..|ls|] == ls;
    newMap := newMap.(children := children);
    r := Ok(EditState(newLayouts, newMap, minKeyCount(newLayouts, newMap)));
  }

  /** A layout without a label and without a path, as the devicetree
      importer builds an unlabelled layout, makes `makeInitialState` throw. */
  lemma UnlabelledImportFails(
    layouts: seq<PhysicalLayout>, i: nat, positionMap: Option<ImportedPositionMap>,
    minKeyCount: (seq<PhysicalLayout>, PositionMap) -> int)
    requires i < |layouts| && layouts[i].path.None?
    requires layouts[i].nodeLabel.None? || layouts[i].nodeLabel == Some("")
    ensures InitialStateOf(Some(layouts), positionMap, minKeyCount) == Err(NO_PATH)
  {
    LabelledLayoutsFacts(layouts);
    assert !Labellable(layouts[i]);
  }

  /** An item that is the default item of a layout overridden by an imported
      item whose `physicalLayout` is that layout's label. */
  predicate FromImported(item: PositionMapItem, layout: PhysicalLayout, positionMap: ImportedPositionMap, mapPath: string)
  {
    exists k :: 0 <= k < |positionMap.children|
      && positionMap.children[k].physicalLayout == layout.nodeLabel
      && item == Spread(DefaultItem(layout, mapPath), positionMap.children[k])
  }

  /** One item per layout, in layout order: item `i` names the label layout
      `i` had before defaulting, and it is either the default item or the
      default item overridden by an imported item with that label. Imported
      items that match no layout are dropped. */
  lemma {:induction false} InitialItemsFacts(layouts: seq<PhysicalLayout>, positionMap: Option<ImportedPositionMap>, mapPath: string)
    ensures var r := InitialItems(layouts, positionMap, mapPath);
      && |r| == |layouts|
      && forall i :: 0 <= i < |r| ==>
           && r[i].physicalLayout == layouts[i].nodeLabel
           && (r[i] == DefaultItem(layouts[i], mapPath)
               || (positionMap.Some? && FromImported(r[i], layouts[i], positionMap.value, mapPath)))
  {
    var r := InitialItems(layouts, positionMap, mapPath);
    forall i | 0 <= i < |r|
      ensures r[i].physicalLayout == layouts[i].nodeLabel
      ensures r[i] == DefaultItem(layouts[i], mapPath)
               || (positionMap.Some? && FromImported(r[i], layouts[i], positionMap.value, mapPath))
    {
      if positionMap.Some? {
        var found := FindExisting(positionMap.value.children, layouts[i].nodeLabel);
        if found.Some? {
          var k :| 0 <= k < |positionMap.value.children| && positionMap.value.children[k] == found.value
            && found.value.physicalLayout == layouts[i].nodeLabel;
          assert r[i] == Spread(DefaultItem(layouts[i], mapPath), positionMap.value.children[k]);
        }
      }
    }
  }

  /** The first imported item whose `physicalLayout` names a layout's label
      supplies that layout's item: its label (or `''`), its positions, and
      its path when it has one. Without a path, as the devicetree importer
      leaves it, the item is filed under `<mapPath>/<label>`. */
  lemma KeepsExistingItem(layouts: seq<PhysicalLayout>, positionMap: ImportedPositionMap, mapPath: string, i: nat, k: nat)
    requires i < |layouts| && k < |positionMap.children|
    requires positionMap.children[k].physicalLayout == layouts[i].nodeLabel
    requires forall j :: 0 <= j < k ==> positionMap.children[j].physicalLayout != layouts[i].nodeLabel
    ensures var item := positionMap.children[k];
      var r := InitialItems(layouts, Some(positionMap), mapPath)[i];
      && r.path == (if item.path.Some? then item.path.value else mapPath + "/" + LabelText(layouts[i].nodeLabel))
      && r.nodeLabel == (if item.nodeLabel.Some? then item.nodeLabel else Some(""))
      && r.physicalLayout == layouts[i].nodeLabel
      && r.positions == item.positions
  {
    var found := FindExisting(positionMap.children, layouts[i].nodeLabel);
    var k' :| 0 <= k' < |positionMap.children| && positionMap.children[k'] == found.value
      && found.value.physicalLayout == layouts[i].nodeLabel
      && forall j :: 0 <= j < k' ==> positionMap.children[j].physicalLayout != layouts[i].nodeLabel;
    assert !(k < k');
  }

  /** An item built for a layout from imported items without paths is filed
      under the map's path and the layout's label. */
  lemma InitialItemPath(layout: PhysicalLayout, positionMap: Option<ImportedPositionMap>, mapPath: string)
    requires positionMap.Some? ==> forall k :: 0 <= k < |positionMap.value.children| ==> positionMap.value.children[k].path.None?
    ensures InitialItem(layout, positionMap, mapPath).path == mapPath + "/" + LabelText(layout.nodeLabel)
  {
    if positionMap.Some? {
      var found := FindExisting(positionMap.value.children, layout.nodeLabel);
      if found.Some? {
        var k :| 0 <= k < |positionMap.value.children| && positionMap.value.children[k] == found.value;
        assert found.value.path.None?;
      }
    }
  }

  /** After a devicetree import, whose layouts, map and items carry no
      paths: the layouts keep their labels, the map is filed at
      `/position_map`, and the item of each layout at
      `/position_map/<label>`, whatever the devicetree calls their nodes. */
  lemma DevicetreeImportPaths(
    layouts: seq<PhysicalLayout>, positionMap: Option<ImportedPositionMap>,
    minKeyCount: (seq<PhysicalLayout>, PositionMap) -> int)
    requires forall i :: 0 <= i < |layouts| ==> layouts[i].path.None?
    requires positionMap.Some? ==> positionMap.value.path.None?
    requires positionMap.Some? ==> forall k :: 0 <= k < |positionMap.value.children| ==> positionMap.value.children[k].path.None?
    requires InitialStateOf(Some(layouts), positionMap, minKeyCount).Ok?
    ensures var s := InitialStateOf(Some(layouts), positionMap, minKeyCount).value;
      && s.layouts == layouts
      && s.positionMap.path == "/position_map"
      && |s.positionMap.children| == |layouts|
      && forall i :: 0 <= i < |layouts| ==>
           && layouts[i].nodeLabel.Some?
           && s.positionMap.children[i].path == "/position_map/" + layouts[i].nodeLabel.value
  {
    LabelledLayoutsFacts(layouts);
    var s := InitialStateOf(Some(layouts), positionMap, minKeyCount).value;
    var ls := LabelledLayouts(layouts).value;
    forall i | 0 <= i < |layouts| ensures ls[i] == layouts[i] {
      assert Labellable(layouts[i]);
    }
    forall i | 0 <= i < |layouts|
      ensures s.positionMap.children[i].path == "/position_map/" + LabelText(layouts[i].nodeLabel)
    {
      InitialItemPath(layouts[i], positionMap, "/position_map");
    }
  }

  /** Matching uses the label from before defaulting. When no layout has a
      label, every one has a path and no map was imported, every layout does
      get a label (for `/default`, the label `default`), yet every item is
      filed under `<mapPath>/undefined` with no `physicalLayout`, so the
      editor finds no item for any layout. */
  lemma {:induction false} UnlabelledLayoutsHaveNoItem(layouts: seq<PhysicalLayout>, mapPath: string)
    requires forall j :: 0 <= j < |layouts| ==> layouts[j].nodeLabel.None? && layouts[j].path.Some?
    ensures LabelledLayouts(layouts).Ok?
    ensures var ls := LabelledLayouts(layouts).value;
      var items := InitialItems(layouts, None, mapPath);
      forall i :: 0 <= i < |layouts| ==>
        && ls[i].nodeLabel.Some?
        && items[i] == PositionMapItem(mapPath + "/undefined", Some(""), None, [])
        && PositionMapEditor.FindPositionMap(items, ls[i].nodeLabel).None?
  {
    LabelledLayoutsFacts(layouts);
    var ls := LabelledLayouts(layouts).value;
    var items := InitialItems(layouts, None, mapPath);
    forall i | 0 <= i < |layouts|
      ensures PositionMapEditor.FindPositionMap(items, ls[i].nodeLabel).None?
    {
      assert forall j :: 0 <= j < |items| ==> items[j].physicalLayout.None?;
    }
  }

  /** The label a layout at `/default` without one gets. */
  lemma DefaultLabelExample()
    ensures DefaultLabel(PhysicalLayout(None, Some("/default"), None, "", [], "", ""), 0) == Ok("default")
  {
    assert LastSegment("/default") == "default" by {
      SplitNoSeparator("default", '/');
      SplitPrefix("", "default", '/');
      assert "" + ['/'] + "default" == "/default";
    }
    assert "default" != "" by { assert |"default"| == 7; }
  }
}
