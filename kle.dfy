/** The Keyboard Layout Editor importer of src/parser/kle.ts: the cursor
    state machine that turns the rows of a KLE layout (already parsed from
    JSON) into key positions. Coordinates are JavaScript numbers, modelled
    as reals. */
module Kle {
  import opened Wrappers
  import opened Errors

  /** One key: position, size, rotation and rotation origin (`KleKey`). */
  datatype KleKey = KleKey(x: real, y: real, w: real, h: real, r: real, rx: real, ry: real)

  /** `KleKeyboard`. */
  datatype KleKeyboard = KleKeyboard(name: string, keys: seq<KleKey>)

  /** What `parseKleKeyboard` throws: a row that is not an array, or a row
      item that is neither a key label nor a key object. */
  datatype KleError = NotAnArray(row: JsValue) | NotAKeyObject(item: JsValue)

  /** The cursor's starting value. */
  const START: KleKey := KleKey(0.0, 0.0, 1.0, 1.0, 0.0, 0.0, 0.0)

  /** `typeof v === 'object' && v !== null`. */
  predicate IsObject(v: JsValue)
  {
    v.JsObject? || v.JsArray?
  }

  /** `'f' in v && typeof v.f !== 'number'` fails the field check; arrays
      hold no property of these names. */
  predicate NumberIfPresent(v: JsValue, f: string)
  {
    v.JsObject? && f in v.properties ==> v.properties[f].JsNumber?
  }

  /** `isMetadata`: an object whose `name`, if present, is a string. */
  predicate IsMetadata(v: JsValue)
  {
    IsObject(v) && (v.JsObject? && "name" in v.properties ==> v.properties["name"].JsString?)
  }

  /** `isKeyItem`: an object whose every present field among `x`, `y`, `w`,
      `h`, `r`, `rx` and `ry` is a number. */
  predicate IsKeyItem(v: JsValue)
  {
    && IsObject(v)
    && NumberIfPresent(v, "x") && NumberIfPresent(v, "y")
    && NumberIfPresent(v, "w") && NumberIfPresent(v, "h")
    && NumberIfPresent(v, "r") && NumberIfPresent(v, "rx") && NumberIfPresent(v, "ry")
  }

  /** The numeric field `f` of a key item, if present. */
  function Field(v: JsValue, f: string): Option<real>
  {
    if v.JsObject? && f in v.properties && v.properties[f].JsNumber? then Some(v.properties[f].n) else None
  }

  /** The cursor and the keys placed so far. */
  datatype KleState = KleState(current: KleKey, keys: seq<KleKey>)

  /** A key object moves and resizes the cursor: `r`, then `rx` (which also
      moves the cursor to the rotation origin), then `ry`, then the offsets
      and the size of the next key. */
  function ApplyKeyObject(c: KleKey, obj: JsValue): KleKey
  {
    var c1 := match Field(obj, "r") case Some(r) => c.(r := r) case None => c;
    var c2 := match Field(obj, "rx") case Some(rx) => c1.(rx := rx, x := rx, y := c1.ry) case None => c1;
    var c3 := match Field(obj, "ry") case Some(ry) => c2.(y := ry, ry := ry) case None => c2;
    c3.(x := c3.x + Field(obj, "x").GetOr(0.0),
        y := c3.y + Field(obj, "y").GetOr(0.0),
        w := Field(obj, "w").GetOr(1.0),
        h := Field(obj, "h").GetOr(1.0))
  }

  /** One item of a row: a string places a key at the cursor and steps
      right past it; a key object updates the cursor; anything else fails. */
  function ItemStep(st: KleState, obj: JsValue): Result<KleState, KleError>
  {
    if obj.JsString? then
      var c := st.current;
      Ok(KleState(c.(x := c.x + c.w, w := 1.0, h := 1.0), st.keys + [c]))
    else if IsKeyItem(obj) then Ok(st.(current := ApplyKeyObject(st.current, obj)))
    else Err(NotAKeyObject(obj))
  }

  /** The items of a row, in order. */
  function ItemsFold(st: KleState, items: seq<JsValue>): Result<KleState, KleError>
  {
    if |items| == 0 then Ok(st)
    else
      match ItemsFold(st, items[..|items| - 1])
      case Err(e) => Err(e)
      case Ok(s) => ItemStep(s, items[|items| - 1])
  }

  /** After a row: the next line, back at the rotation origin's x. */
  function EndRow(st: KleState): KleState
  {
    st.(current := st.current.(y := st.current.y + 1.0, x := st.current.rx))
  }

  /** The rows, in order. */
  function RowsFold(st: KleState, rows: seq<JsValue>): Result<KleState, KleError>
  {
    if |rows| == 0 then Ok(st)
    else
      match RowsFold(st, rows[..|rows| - 1])
      case Err(e) => Err(e)
      case Ok(s) =>
        var row := rows[|rows| - 1];
        if !row.JsArray? then Err(NotAnArray(row))
        else
          match ItemsFold(s, row.items)
          case Err(e) => Err(e)
          case Ok(s') => Ok(EndRow(s'))
  }

  /** Whether the first element is metadata rather than a row. */
  predicate HasMetadata(data: seq<JsValue>)
  {
    |data| > 0 && !data[0].JsArray?
  }

  /** The rows: everything after the metadata. */
  function Rows(data: seq<JsValue>): seq<JsValue>
  {
    if HasMetadata(data) then data[1..] else data
  }

  /** The keyboard's name: the metadata's non-empty `name`, or `''`. */
  function MetaName(data: seq<JsValue>): string
  {
    if HasMetadata(data) && IsMetadata(data[0]) && data[0].JsObject? && "name" in data[0].properties
      && data[0].properties["name"].JsString? && data[0].properties["name"].s != ""
    then data[0].properties["name"].s
    else ""
  }

  /** What `parseKleKeyboard` returns. */
  function KleKeyboardOf(data: seq<JsValue>): Result<KleKeyboard, KleError>
  {
    match RowsFold(KleState(START, []), Rows(data))
    case Err(e) => Err(e)
    case Ok(st) => Ok(KleKeyboard(MetaName(data), st.keys))
  }

  /** `parseKleKeyboard`: drops leading metadata, then walks the rows and
      their items, moving the cursor and pushing keys. */
  method ParseKleKeyboard(data: seq<JsValue>) returns (r: Result<KleKeyboard, KleError>)
    ensures r == KleKeyboardOf(data)
  {
    var name := "";
    var keys: seq<KleKey> := [];
    var current := START;
    var rows := data;
    if |rows| > 0 && !rows[0].JsArray? {
      var meta := rows[0];
      rows := rows[1..];
      if IsMetadata(meta) && meta.JsObject? && "name" in meta.properties {
        var given := meta.properties["name"];
        if given.JsString? && given.s != "" {
          name := given.s;
        }
      }
    }
    assert rows == Rows(data) && name == MetaName(data);
    for i := 0 to |rows|
      invariant RowsFold(KleState(START, []), rows[..i]) == Ok(KleState(current, keys))
    {
      var row := rows[i];
      assert rows[..i + 1][..i] == rows[..i];
      if !row.JsArray? {
        RowsErrorStays(KleState(START, []), rows, i + 1);
        return Err(NotAnArray(row));
      }
      var walked := ParseRow(KleState(current, keys), row.items);
      if walked.Err? {
        RowsErrorStays(KleState(START, []), rows, i + 1);
        return Err(walked.error);
      }
      current, keys := walked.value.current, walked.value.keys;
      current := current.(y := current.y + 1.0);
      current := current.(x := current.rx);
      assert KleState(current, keys) == EndRow(walked.value);
    }
    assert rows[..|rows|] == rows;
    r := Ok(KleKeyboard(name, keys));
  }

  /** The inner loop of `parseKleKeyboard` over one row's items: a string
      pushes a key at the cursor and steps right; a key object updates the
      cursor; anything else stops the parse. */
  method ParseRow(st: KleState, items: seq<JsValue>) returns (r: Result<KleState, KleError>)
    ensures r == ItemsFold(st, items)
  {
    var current, keys := st.current, st.keys;
    for j := 0 to |items|
      invariant ItemsFold(st, items[..j]) == Ok(KleState(current, keys))
    {
      ghost var before := KleState(current, keys);
      var obj := items[j];
      assert items[..j + 1][..j] == items[..j];
      if obj.JsString? {
        var key := current;
        keys := keys + [key];
        current := current.(x := current.x + current.w);
        current := current.(w := 1.0, h := 1.0);
      } else if IsKeyItem(obj) {
        current := ApplyKeyObject(current, obj);
      } else {
        ItemsErrorStays(st, items, j + 1);
        return Err(NotAKeyObject(obj));
      }
      assert ItemStep(before, obj) == Ok(KleState(current, keys));
    }
    assert items[..|items|] == items;
    r := Ok(KleState(current, keys));
  }

  /** Once an item fails, the whole row fails the same way. */
  lemma {:induction false} ItemsErrorStays(st: KleState, items: seq<JsValue>, n: nat)
    requires n <= |items| && ItemsFold(st, items[..n]).Err?
    ensures ItemsFold(st, items) == ItemsFold(st, items[..n])
    decreases |items| - n
  {
    if n < |items| {
      assert items[..n + 1][..n] == items[..n];
      ItemsErrorStays(st, items, n + 1);
    } else {
      assert items[..n] == items;
    }
  }

  /** Once a row fails, the whole keyboard fails the same way. */
  lemma {:induction false} RowsErrorStays(st: KleState, rows: seq<JsValue>, n: nat)
    requires n <= |rows| && RowsFold(st, rows[..n]).Err?
    ensures RowsFold(st, rows) == RowsFold(st, rows[..n])
    decreases |rows| - n
  {
    if n < |rows| {
      assert rows[..n + 1][..n] == rows[..n];
      RowsErrorStays(st, rows, n + 1);
    } else {
      assert rows[..n] == rows;
    }
  }

  // ---------------------------------------------------------------------
  // Properties.

  /** How many items of a list are key labels. */
  function StringCount(items: seq<JsValue>): nat
  {
    if |items| == 0 then 0
    else StringCount(items[..|items| - 1]) + (if items[|items| - 1].JsString? then 1 else 0)
  }

  /** A row places one key per label and no other. */
  lemma {:induction false} ItemsKeyCount(st: KleState, items: seq<JsValue>)
    requires ItemsFold(st, items).Ok?
    ensures |ItemsFold(st, items).value.keys| == |st.keys| + StringCount(items)
    ensures ItemsFold(st, items).value.keys[..|st.keys|] == st.keys
    decreases |items|
  {
    if |items| > 0 {
      var init := items[..|items| - 1];
      ItemsKeyCount(st, init);
      var s := ItemsFold(st, init).value;
      if items[|items| - 1].JsString? {
        assert (s.keys + [s.current])[..|st.keys|] == s.keys[..|st.keys|];
      }
    }
  }

  /** How many key labels the rows hold together. */
  function RowsStringCount(rows: seq<JsValue>): nat
  {
    if |rows| == 0 then 0
    else
      var row := rows[|rows| - 1];
      RowsStringCount(rows[..|rows| - 1]) + (if row.JsArray? then StringCount(row.items) else 0)
  }

  /** The keyboard holds exactly one key per key label of its rows. */
  lemma {:induction false} RowsKeyCount(st: KleState, rows: seq<JsValue>)
    requires RowsFold(st, rows).Ok?
    ensures |RowsFold(st, rows).value.keys| == |st.keys| + RowsStringCount(rows)
    decreases |rows|
  {
    if |rows| > 0 {
      var init := rows[..|rows| - 1];
      RowsKeyCount(st, init);
      var s := RowsFold(st, init).value;
      ItemsKeyCount(s, rows[|rows| - 1].items);
    }
  }

  /** The number of keys is the number of key labels. */
  lemma KeyboardKeyCount(data: seq<JsValue>)
    requires KleKeyboardOf(data).Ok?
    ensures |KleKeyboardOf(data).value.keys| == RowsStringCount(Rows(data))
  {
    RowsKeyCount(KleState(START, []), Rows(data));
  }

  /** A label places a key equal to the cursor, then moves the cursor right
      by that key's width and resets the next key's size to 1 x 1. */
  lemma LabelStep(st: KleState, s: string)
    ensures var next := ItemStep(st, JsString(s));
      && next.Ok?
      && next.value.keys == st.keys + [st.current]
      && next.value.current.x == st.current.x + st.current.w
      && next.value.current.w == 1.0 && next.value.current.h == 1.0
      && next.value.current.y == st.current.y && next.value.current.r == st.current.r
      && next.value.current.rx == st.current.rx && next.value.current.ry == st.current.ry
  {
  }

  /** A key object places no key. It sets `r`; `rx` moves the cursor to
      (`rx`, old `ry`) before `ry` sets both `y` and `ry`; the offsets `x`
      and `y` are then added; the next key's size is `w` and `h`, 1 when
      absent. Without `rx` and `ry` only the offsets move the cursor. */
  lemma KeyObjectStep(st: KleState, obj: JsValue)
    requires IsKeyItem(obj)
    ensures var next := ItemStep(st, obj);
      var c := st.current;
      var dx := Field(obj, "x").GetOr(0.0);
      var dy := Field(obj, "y").GetOr(0.0);
      && next.Ok? && next.value.keys == st.keys
      && next.value.current.r == Field(obj, "r").GetOr(c.r)
      && next.value.current.rx == Field(obj, "rx").GetOr(c.rx)
      && next.value.current.ry == Field(obj, "ry").GetOr(c.ry)
      && next.value.current.w == Field(obj, "w").GetOr(1.0)
      && next.value.current.h == Field(obj, "h").GetOr(1.0)
      && next.value.current.x == (if Field(obj, "rx").Some? then Field(obj, "rx").value else c.x) + dx
      && next.value.current.y == (if Field(obj, "ry").Some? then Field(obj, "ry").value
                                  else if Field(obj, "rx").Some? then c.ry else c.y) + dy
  {
  }

  /** Anything other than a label or a key object is refused; an array in a
      row counts as a key object with no fields, and leaves the cursor where
      it is with a 1 x 1 size. */
  lemma OtherItems(st: KleState, obj: JsValue)
    ensures !obj.JsString? && !IsKeyItem(obj) ==> ItemStep(st, obj) == Err(NotAKeyObject(obj))
    ensures obj.JsNumber? || obj.JsNull? || obj.JsBoolean? || obj.JsUndefined? ==> ItemStep(st, obj).Err?
    ensures obj.JsArray? ==> ItemStep(st, obj) == Ok(st.(current := st.current.(w := 1.0, h := 1.0)))
  {
  }

  /** `isKeyItem` holds exactly for non-null objects whose present fields
      among `x`, `y`, `w`, `h`, `r`, `rx`, `ry` are numbers. */
  lemma KeyItemFacts(v: JsValue)
    ensures IsKeyItem(v) <==>
      ((v.JsObject? || v.JsArray?) && forall f :: f in ["x", "y", "w", "h", "r", "rx", "ry"] ==> NumberIfPresent(v, f))
    ensures v.JsObject? && "x" in v.properties && v.properties["x"].JsString? ==> !IsKeyItem(v)
  {
  }

  /** A row that is not an array fails the whole keyboard when reached. */
  lemma NotARowFails(st: KleState, rows: seq<JsValue>)
    requires |rows| > 0 && !rows[|rows| - 1].JsArray?
    requires RowsFold(st, rows[..|rows| - 1]).Ok?
    ensures RowsFold(st, rows) == Err(NotAnArray(rows[|rows| - 1]))
  {
  }

  /** The end of a row moves the cursor down one line and back to the
      rotation origin's `x`; nothing else changes. */
  lemma EndRowFacts(st: KleState)
    ensures EndRow(st).keys == st.keys
    ensures EndRow(st).current == st.current.(y := st.current.y + 1.0, x := st.current.rx)
  {
  }

  /** Leading metadata is always dropped; its name, when a non-empty
      string, names the keyboard. */
  lemma MetadataFacts(data: seq<JsValue>, rest: seq<JsValue>, name: string)
    requires |data| > 0 && data[0] == JsObject(map["name" := JsString(name)]) && data[1..] == rest
    ensures Rows(data) == rest
    ensures MetaName(data) == name
  {
  }

  /** A row of two labels places two unit keys side by side on the first
      line, from the origin. */
  lemma TwoKeysExample()
    ensures KleKeyboardOf([JsArray([JsString("a"), JsString("b")])]) ==
      Ok(KleKeyboard("", [START, START.(x := 1.0)]))
  {
    var items := [JsString("a"), JsString("b")];
    assert items[..1] == [JsString("a")];
    assert items[..1][..0] == [];
    var s0 := KleState(START, []);
    assert ItemsFold(s0, items[..1][..0]) == Ok(s0);
    assert [] + [START] == [START];
    assert ItemStep(s0, JsString("a")) == Ok(KleState(START.(x := 1.0), [START]));
    var s1 := KleState(START.(x := 1.0), [START]);
    assert ItemsFold(s0, items[..1]) == Ok(s1);
    assert [START] + [START.(x := 1.0)] == [START, START.(x := 1.0)];
    assert ItemStep(s1, JsString("b")) == Ok(KleState(START.(x := 2.0), [START, START.(x := 1.0)]));
    assert ItemsFold(KleState(START, []), items) == Ok(KleState(START.(x := 2.0), [START, START.(x := 1.0)]));
    var rows := [JsArray(items)];
    assert rows[..0] == [];
  }
}
