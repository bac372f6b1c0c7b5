/** The position-map editor of src/PositionMapPage.tsx: lookups, the
    swap-based key assignment, adding, removing and clearing rows, and the
    selected-row adjustment after a row is deleted. */
module PositionMapEditor {
  import opened Wrappers
  import opened Types

  /** `findPositionMap`: the first map item whose `physicalLayout` is
      `layoutLabel` (compared with `===`, so an absent label matches an absent
      one). */
  function FindPositionMap(children: seq<PositionMapItem>, layoutLabel: Option<string>): (r: Option<PositionMapItem>)
    ensures r.None? <==> forall i :: 0 <= i < |children| ==> children[i].physicalLayout != layoutLabel
    ensures r.Some? ==> exists i :: (0 <= i < |children| && children[i] == r.value
      && r.value.physicalLayout == layoutLabel
      && forall j :: 0 <= j < i ==> children[j].physicalLayout != layoutLabel)
  {
    if |children| == 0 then None
    else if children[0].physicalLayout == layoutLabel then Some(children[0])
    else
      var r := FindPositionMap(children[1..], layoutLabel);
      assert forall i :: 1 <= i < |children| ==> children[i] == children[1..][i - 1];
      r
  }

  /** `findLayout`: the first layout with the label `layoutLabel`. */
  function FindLayout(layouts: seq<PhysicalLayout>, layoutLabel: string): (r: Option<PhysicalLayout>)
    ensures r.None? <==> forall i :: 0 <= i < |layouts| ==> layouts[i].nodeLabel != Some(layoutLabel)
    ensures r.Some? ==> exists i :: (0 <= i < |layouts| && layouts[i] == r.value
      && r.value.nodeLabel == Some(layoutLabel)
      && forall j :: 0 <= j < i ==> layouts[j].nodeLabel != Some(layoutLabel))
  {
    if |layouts| == 0 then None
    else if layouts[0].nodeLabel == Some(layoutLabel) then Some(layouts[0])
    else
      var r := FindLayout(layouts[1..], layoutLabel);
      assert forall i :: 1 <= i < |layouts| ==> layouts[i] == layouts[1..][i - 1];
      r
  }

  /** `count` empty slots. */
  function Nones(count: nat): (r: seq<Option<int>>)
    ensures |r| == count && forall i :: 0 <= i < count ==> r[i] == None
  {
    seq(count, _ => None)
  }

  /** The copy of `positions` that `assignPositionMapKey` pads with empty
      slots until slot `mapIndex` exists. */
  function Padded(positions: seq<Option<int>>, mapIndex: int): seq<Option<int>>
  {
    if mapIndex < |positions| then positions else positions + Nones(mapIndex + 1 - |positions|)
  }

  /** The padding loop: `push(undefined)` while the copy is too short for
      slot `mapIndex`. */
  method PadPositions(positions: seq<Option<int>>, mapIndex: int) returns (resized: seq<Option<int>>)
    ensures resized == Padded(positions, mapIndex)
  {
    resized := positions;
    assert positions + Nones(0) == positions;
    while |resized| <= mapIndex
      invariant |positions| <= |resized|
      invariant mapIndex >= |positions| ==> |resized| <= mapIndex + 1
      invariant mapIndex < |positions| ==> resized == positions
      invariant resized == positions + Nones(|resized| - |positions|)
      decreases mapIndex - |resized|
    {
      resized := resized + [None];
      assert Nones(|resized| - |positions|) == Nones(|resized| - 1 - |positions|) + [None];
    }
  }

  /** The value slot `mapIndex` held before the assignment (`resized[mapIndex]`,
      which JavaScript reads as `undefined` outside the array). */
  function SlotValue(resized: seq<Option<int>>, mapIndex: int): Option<int>
  {
    if 0 <= mapIndex < |resized| then resized[mapIndex] else None
  }

  /** The `resized.map(...)` step: slot `mapIndex` toggles between `keyIndex`
      and nothing; any other slot holding `keyIndex` takes the old value of
      slot `mapIndex`. */
  function AssignedPositions(resized: seq<Option<int>>, mapIndex: int, keyIndex: int): seq<Option<int>>
  {
    seq(|resized|, i requires 0 <= i < |resized| =>
      if i == mapIndex then (if resized[i] == Some(keyIndex) then None else Some(keyIndex))
      else if resized[i] == Some(keyIndex) then SlotValue(resized, mapIndex)
      else resized[i])
  }

  /** One map item after `assignPositionMapKey(_, layout, mapIndex, keyIndex)`. */
  function AssignItem(item: PositionMapItem, layout: string, mapIndex: int, keyIndex: int): PositionMapItem
  {
    if item.physicalLayout != Some(layout) then item
    else item.(positions := AssignedPositions(Padded(item.positions, mapIndex), mapIndex, keyIndex))
  }

  /** `assignPositionMapKey`, as a value. */
  function AssignedMap(positionMap: PositionMap, layout: string, mapIndex: int, keyIndex: int): PositionMap
  {
    positionMap.(children := seq(|positionMap.children|, i requires 0 <= i < |positionMap.children| =>
      AssignItem(positionMap.children[i], layout, mapIndex, keyIndex)))
  }

  /** `assignPositionMapKey`: maps over the items, padding a copy of the
      matching items' positions before assigning. */
  method AssignPositionMapKey(positionMap: PositionMap, layout: string, mapIndex: int, keyIndex: int)
    returns (r: PositionMap)
    ensures r == AssignedMap(positionMap, layout, mapIndex, keyIndex)
  {
    var children: seq<PositionMapItem> := [];
    for i := 0 to |positionMap.children|
      invariant |children| == i
      invariant forall j :: 0 <= j < i ==>
        children[j] == AssignItem(positionMap.children[j], layout, mapIndex, keyIndex)
    {
      var item := positionMap.children[i];
      if item.physicalLayout != Some(layout) {
        children := children + [item];
      } else {
        var resized := PadPositions(item.positions, mapIndex);
        var positions := AssignedPositions(resized, mapIndex, keyIndex);
        children := children + [item.(positions := positions)];
      }
    }
    r := positionMap.(children := children);
  }

  /** No key index is held by two slots of one item. */
  predicate NoDuplicates(positions: seq<Option<int>>)
  {
    forall i, j :: 0 <= i < j < |positions| && positions[i].Some? ==> positions[i] != positions[j]
  }

  /** Assignment touches only the items of `layout` and the map's own fields
      stay as they were. */
  lemma AssignKeepsOtherItems(positionMap: PositionMap, layout: string, mapIndex: int, keyIndex: int)
    ensures var r := AssignedMap(positionMap, layout, mapIndex, keyIndex);
      && r.path == positionMap.path && r.nodeLabel == positionMap.nodeLabel && r.complete == positionMap.complete
      && |r.children| == |positionMap.children|
      && forall i :: 0 <= i < |r.children| ==>
           var old_ := positionMap.children[i];
           && r.children[i].path == old_.path && r.children[i].nodeLabel == old_.nodeLabel
           && r.children[i].physicalLayout == old_.physicalLayout
           && (old_.physicalLayout != Some(layout) ==> r.children[i] == old_)
  {
  }

  /** The padded copy is long enough for slot `mapIndex`, keeps every old slot
      and adds only empty ones. */
  lemma PaddedFacts(positions: seq<Option<int>>, mapIndex: int)
    ensures var p := Padded(positions, mapIndex);
      && |p| == (if mapIndex + 1 > |positions| then mapIndex + 1 else |positions|)
      && p[..|positions|] == positions
      && forall i :: |positions| <= i < |p| ==> p[i] == None
  {
  }

  /** The new positions of the assigned item: as long as the padded copy, and
      slot by slot either a toggle at `mapIndex`, a swap where `keyIndex` was,
      or unchanged. */
  lemma AssignSlots(item: PositionMapItem, layout: string, mapIndex: int, keyIndex: int)
    requires item.physicalLayout == Some(layout) && mapIndex >= 0
    ensures var resized := Padded(item.positions, mapIndex);
      var p := AssignItem(item, layout, mapIndex, keyIndex).positions;
      && |p| == (if mapIndex + 1 > |item.positions| then mapIndex + 1 else |item.positions|)
      && (resized[mapIndex] == Some(keyIndex) ==> p[mapIndex] == None)
      && (resized[mapIndex] != Some(keyIndex) ==> p[mapIndex] == Some(keyIndex))
      && forall j :: 0 <= j < |p| && j != mapIndex ==>
           p[j] == (if resized[j] == Some(keyIndex) then resized[mapIndex] else resized[j])
  {
  }

  /** When slot `mapIndex` already held `keyIndex`, assigning it again clears
      the slot (toggle off). */
  lemma AssignTogglesOff(item: PositionMapItem, layout: string, mapIndex: nat, keyIndex: int)
    requires item.physicalLayout == Some(layout)
    requires mapIndex < |item.positions| && item.positions[mapIndex] == Some(keyIndex)
    ensures AssignItem(item, layout, mapIndex, keyIndex).positions[mapIndex] == None
  {
  }

  /** With no duplicate before, assignment is a swap: slot `mapIndex` gets
      `keyIndex`, and the one slot `j` that held it (if any) gets the value
      slot `mapIndex` had; nothing else moves. */
  lemma {:induction false} AssignIsSwap(item: PositionMapItem, layout: string, mapIndex: nat, keyIndex: int, j: nat)
    requires item.physicalLayout == Some(layout)
    requires NoDuplicates(item.positions)
    requires j < |item.positions| && j != mapIndex && item.positions[j] == Some(keyIndex)
    ensures var resized := Padded(item.positions, mapIndex);
      AssignItem(item, layout, mapIndex, keyIndex).positions
        == resized[mapIndex := Some(keyIndex)][j := resized[mapIndex]]
  {
    var resized := Padded(item.positions, mapIndex);
    var p := AssignItem(item, layout, mapIndex, keyIndex).positions;
    var q := resized[mapIndex := Some(keyIndex)][j := resized[mapIndex]];
    assert resized[j] == Some(keyIndex);
    assert resized[mapIndex] != Some(keyIndex) by {
      if mapIndex < |item.positions| {
        if j < mapIndex {
          assert item.positions[j] != item.positions[mapIndex];
        } else {
          assert item.positions[mapIndex] != item.positions[j];
        }
      }
    }
    forall k | 0 <= k < |p|
      ensures p[k] == q[k]
    {
      if k != mapIndex && k != j && k < |item.positions| {
        if k < j {
          assert item.positions[k] != item.positions[j];
        } else {
          assert item.positions[j] != item.positions[k];
        }
      }
    }
  }

  /** The headline invariant: if no key index appears twice in an item before
      an assignment, none appears twice after it. */
  lemma {:induction false} AssignKeepsNoDuplicates(item: PositionMapItem, layout: string, mapIndex: int, keyIndex: int)
    requires NoDuplicates(item.positions)
    ensures NoDuplicates(AssignItem(item, layout, mapIndex, keyIndex).positions)
  {
    if item.physicalLayout == Some(layout) {
      var resized := Padded(item.positions, mapIndex);
      PaddedNoDuplicates(item.positions, mapIndex);
      var p := AssignedPositions(resized, mapIndex, keyIndex);
      forall a, b | 0 <= a < b < |p| && p[a].Some?
        ensures p[a] != p[b]
      {
        // Values that came from elsewhere: either keyIndex (only at mapIndex)
        // or the old value of mapIndex (only where keyIndex was, at most once).
        var previous := SlotValue(resized, mapIndex);
        if a == mapIndex || b == mapIndex {
          var other := if a == mapIndex then b else a;
          assert 0 <= mapIndex < |resized|;
          if resized[other] == Some(keyIndex) {
            assert p[other] == previous == resized[mapIndex];
          }
        } else if resized[a] == Some(keyIndex) {
          assert resized[a] != resized[b];
        }
      }
    }
  }

  lemma PaddedNoDuplicates(positions: seq<Option<int>>, mapIndex: int)
    requires NoDuplicates(positions)
    ensures NoDuplicates(Padded(positions, mapIndex))
  {
  }

  /** Assigning to every item of a map keeps every item free of duplicates. */
  lemma AssignMapKeepsNoDuplicates(positionMap: PositionMap, layout: string, mapIndex: int, keyIndex: int)
    requires forall i :: 0 <= i < |positionMap.children| ==> NoDuplicates(positionMap.children[i].positions)
    ensures var r := AssignedMap(positionMap, layout, mapIndex, keyIndex);
      forall i :: 0 <= i < |r.children| ==> NoDuplicates(r.children[i].positions)
  {
    var r := AssignedMap(positionMap, layout, mapIndex, keyIndex);
    forall i | 0 <= i < |r.children|
      ensures NoDuplicates(r.children[i].positions)
    {
      AssignKeepsNoDuplicates(positionMap.children[i], layout, mapIndex, keyIndex);
    }
  }

  /** `addPositionMapIndex`: one more empty slot at the end of every item. */
  function AddPositionMapIndex(positionMap: PositionMap): (r: PositionMap)
    ensures r.path == positionMap.path && r.nodeLabel == positionMap.nodeLabel && r.complete == positionMap.complete
    ensures |r.children| == |positionMap.children|
    ensures forall i :: 0 <= i < |r.children| ==>
      var before := positionMap.children[i].positions;
      var after := r.children[i].positions;
      && |after| == |before| + 1 && after[..|before|] == before && after[|before|] == None
      && r.children[i].(positions := before) == positionMap.children[i]
  {
    positionMap.(children := seq(|positionMap.children|, i requires 0 <= i < |positionMap.children| =>
      positionMap.children[i].(positions := positionMap.children[i].positions + [None])))
  }

  /** The start index `splice(index, 1)` uses: negative counts from the end,
      and both ends are clamped to the array. */
  function SpliceStart(length: nat, index: int): nat
  {
    if index < 0 then (if length + index < 0 then 0 else length + index)
    else if index > length then length
    else index
  }

  /** A copy of `positions` after `splice(index, 1)`. */
  function Spliced(positions: seq<Option<int>>, index: int): seq<Option<int>>
  {
    var start := SpliceStart(|positions|, index);
    if start < |positions| then positions[..start] + positions[start + 1..] else positions
  }

  /** `removePositionMapIndex`: every item loses slot `index`. */
  function RemovePositionMapIndex(positionMap: PositionMap, index: int): (r: PositionMap)
    ensures r.path == positionMap.path && r.nodeLabel == positionMap.nodeLabel && r.complete == positionMap.complete
    ensures |r.children| == |positionMap.children|
    ensures forall i :: 0 <= i < |r.children| ==>
      r.children[i].(positions := positionMap.children[i].positions) == positionMap.children[i]
  {
    positionMap.(children := seq(|positionMap.children|, i requires 0 <= i < |positionMap.children| =>
      positionMap.children[i].(positions := Spliced(positionMap.children[i].positions, index))))
  }

  /** With `0 <= index < length` exactly slot `index` goes and later slots
      move down by one; with `index >= length` nothing changes. */
  lemma RemoveSlot(positionMap: PositionMap, index: nat, i: nat)
    requires i < |positionMap.children|
    ensures var before := positionMap.children[i].positions;
      var after := RemovePositionMapIndex(positionMap, index).children[i].positions;
      && (index >= |before| ==> after == before)
      && (index < |before| ==>
            && |after| == |before| - 1
            && (forall j :: 0 <= j < index ==> after[j] == before[j])
            && (forall j :: index <= j < |after| ==> after[j] == before[j + 1]))
  {
  }

  /** A negative index counts from the end, as `splice` does: `-1` removes
      the last slot. */
  lemma RemoveFromEnd(positionMap: PositionMap, i: nat)
    requires i < |positionMap.children| && |positionMap.children[i].positions| > 0
    ensures var before := positionMap.children[i].positions;
      RemovePositionMapIndex(positionMap, -1).children[i].positions == before[..|before| - 1]
  {
  }

  /** Adding a row and then removing that same row (the common length of the
      items) gives back the map. */
  lemma RemoveAfterAdd(positionMap: PositionMap, length: nat)
    requires forall i :: 0 <= i < |positionMap.children| ==> |positionMap.children[i].positions| == length
    ensures RemovePositionMapIndex(AddPositionMapIndex(positionMap), length) == positionMap
  {
    var r := RemovePositionMapIndex(AddPositionMapIndex(positionMap), length);
    assert |r.children| == |positionMap.children|;
    forall i | 0 <= i < |r.children|
      ensures r.children[i] == positionMap.children[i]
    {
      var before := positionMap.children[i].positions;
      assert Spliced(before + [None], length) == before;
    }
  }

  /** `resetPositionMap`: every item keeps its identity and loses its
      positions. */
  function ResetPositionMap(positionMap: PositionMap): (r: PositionMap)
    ensures r.path == positionMap.path && r.nodeLabel == positionMap.nodeLabel && r.complete == positionMap.complete
    ensures |r.children| == |positionMap.children|
    ensures forall i :: 0 <= i < |r.children| ==>
      r.children[i].positions == [] && r.children[i].(positions := positionMap.children[i].positions) == positionMap.children[i]
  {
    positionMap.(children := seq(|positionMap.children|, i requires 0 <= i < |positionMap.children| =>
      positionMap.children[i].(positions := [])))
  }

  /** Resetting twice is resetting once. */
  lemma ResetIdempotent(positionMap: PositionMap)
    ensures ResetPositionMap(ResetPositionMap(positionMap)) == ResetPositionMap(positionMap)
  {
  }

  /** The selected row after row `index` is deleted (src/PositionMapPage.tsx,
      `deleteRow`): rows after it move up by one. */
  function AdjustSelection(selected: Option<int>, index: int): Option<int>
  {
    match selected
    case None => None
    case Some(i) => Some(i - (if i > index then 1 else 0))
  }

  /** After deleting row `index`, the adjusted selection still points at the
      slot that was selected, in every item. */
  lemma AdjustSelectionFollowsRow(positionMap: PositionMap, index: nat, selected: nat, i: nat)
    requires i < |positionMap.children|
    requires selected != index && selected < |positionMap.children[i].positions|
    ensures var after := RemovePositionMapIndex(positionMap, index).children[i].positions;
      var s := AdjustSelection(Some(selected), index).value;
      0 <= s < |after| && after[s] == positionMap.children[i].positions[selected]
  {
    RemoveSlot(positionMap, index, i);
  }
}
