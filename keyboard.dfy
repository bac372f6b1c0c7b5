/** The key-grid helpers of src/keyboard/Keyboard.tsx: the position map slot
    a drawn key sits in, whether that slot is the selected (or hovered)
    one, and the key indices the map counts that the layout does not draw. */
module Keyboard {
  import opened Wrappers
  import opened Types

  /** `positions.indexOf(index)`: the first slot holding `index`, or -1. */
  function IndexOf(positions: seq<Option<int>>, index: int): (r: int)
    ensures -1 <= r < |positions|
    ensures r >= 0 ==> positions[r] == Some(index)
    ensures r >= 0 ==> forall j :: 0 <= j < r ==> positions[j] != Some(index)
    ensures r == -1 <==> Some(index) !in positions
  {
    if |positions| == 0 then -1
    else if positions[0] == Some(index) then 0
    else
      var k := IndexOf(positions[1..], index);
      assert positions == [positions[0]] + positions[1..];
      if k < 0 then -1 else k + 1
  }

  /** `getMapIndex(index, positionMap)`: nothing when the key index or the
      map item is missing; otherwise the first slot that holds the key, if
      any. */
  function GetMapIndex(index: Option<int>, item: Option<PositionMapItem>): (r: Option<nat>)
    ensures r.None? <==> index.None? || item.None? || Some(index.value) !in item.value.positions
    ensures r.Some? ==> r.value < |item.value.positions| && item.value.positions[r.value] == index
    ensures r.Some? ==> forall j :: 0 <= j < r.value ==> item.value.positions[j] != index
  {
    if index.None? || item.None? then None
    else
      var m := IndexOf(item.value.positions, index.value);
      if m >= 0 then Some(m) else None
  }

  /** `getSelected(mapIndex, selectedMapIndex)`: a key is selected when a
      slot is selected and the key sits in that slot; a key in no slot is
      never selected. */
  function GetSelected(mapIndex: Option<int>, selectedMapIndex: Option<int>): (r: bool)
    ensures r <==> selectedMapIndex.Some? && mapIndex.Some? && mapIndex.value == selectedMapIndex.value
  {
    selectedMapIndex.Some? && mapIndex == selectedMapIndex
  }

  /** In an item without duplicates, the slot a key is looked up in is the
      slot that holds it. */
  lemma MapIndexOfSlot(item: PositionMapItem, slot: nat, key: int)
    requires slot < |item.positions| && item.positions[slot] == Some(key)
    requires forall i, j :: 0 <= i < j < |item.positions| && item.positions[i].Some? ==> item.positions[i] != item.positions[j]
    ensures GetMapIndex(Some(key), Some(item)) == Some(slot)
  {
    assert item.positions[slot] in item.positions;
  }

  /** At most one key is drawn selected: two keys whose slots are both the
      selected one are the same key. */
  lemma OneKeySelected(item: Option<PositionMapItem>, selected: Option<int>, a: int, b: int)
    requires GetSelected(GetMapIndex(Some(a), item), selected)
    requires GetSelected(GetMapIndex(Some(b), item), selected)
    ensures a == b
  {
    var m := GetMapIndex(Some(a), item).value;
    assert m == GetMapIndex(Some(b), item).value;
  }

  /** The number of extra keys: `max(0, (keyCount ?? 0) - keys.length)`. */
  function ExtraCount(keyCount: Option<int>, keysLength: nat): nat
  {
    var diff := keyCount.GetOr(0) - keysLength;
    if diff > 0 then diff else 0
  }

  /** `extraKeys`: the key indices from `keys.length` on, as many as the key
      count exceeds the number of drawn keys. */
  function ExtraKeys(keyCount: Option<int>, keysLength: nat): (r: seq<int>)
    ensures |r| == ExtraCount(keyCount, keysLength)
    ensures forall i :: 0 <= i < |r| ==> r[i] == keysLength + i
  {
    seq(ExtraCount(keyCount, keysLength), i requires 0 <= i < ExtraCount(keyCount, keysLength) => keysLength + i)
  }

  /** The drawn keys and the extra keys together are the indices below the
      larger of the key count and the number of drawn keys, each once: no
      extra key is a drawn one, and the extra keys ascend. */
  lemma ExtraKeysCover(keyCount: Option<int>, keysLength: nat)
    ensures var extra := ExtraKeys(keyCount, keysLength);
      var top := if keyCount.GetOr(0) > keysLength then keyCount.GetOr(0) else keysLength;
      && (forall k :: k in extra <==> keysLength <= k < top)
      && (forall i, j :: 0 <= i < j < |extra| ==> extra[i] < extra[j])
  {
    var extra := ExtraKeys(keyCount, keysLength);
    var top := if keyCount.GetOr(0) > keysLength then keyCount.GetOr(0) else keysLength;
    forall k | keysLength <= k < top ensures k in extra {
      assert extra[k - keysLength] == k;
    }
  }

  /** Without a key count there is nothing extra to draw. */
  lemma NoKeyCountNoExtra(keysLength: nat)
    ensures ExtraKeys(None, keysLength) == []
  {
  }
}
