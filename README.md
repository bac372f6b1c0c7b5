# zmk-layout-helper, core model in Dafny

This project models the core of zmk-layout-helper, a web tool that reads
the physical layouts and the position map of a ZMK keyboard from its
devicetree source, lets the user assign keys of each layout to slots of
the position map, and prints the edited position map back as devicetree
text. It models:

- the position-map editor of `PositionMapPage.tsx`: finding the map and
  the layout, assigning a key to a slot (toggle off, or swap with the slot
  that held it), adding, removing and resetting slots, and the selected-row
  adjustment (`PositionMapEditor`);
- `makeInitialState`, which builds the editor's state from the parsed
  layouts and map (`InitialState`);
- the devicetree queries and value decoding of `parser/devicetree.ts`:
  the containing node, node names, labels and paths, property lookup
  across the fragments of a node, type checks, the integer-expression
  evaluator with JavaScript's operators (32-bit bitwise and shifts
  included), strings, phandles and cell arrays (`Syntax`,
  `DevicetreeProperties`, `DevicetreeValues`);
- the layout extractor of `parser/layout.ts`, from the query matches to
  `PhysicalLayout`, `KeyAttributes`, `PositionMap` and `PositionMapItem`
  values (`LayoutParser`);
- the Keyboard Layout Editor importer and the QMK name helpers
  (`Kle`, `Qmk`);
- byte-offset to line/column mapping, range printing and the error record
  (`Positions`, `Errors`);
- the helpers of `utility.ts` (`Utility`) and the JavaScript string
  operations they rely on (`JsString`), and `Array.prototype.sort` by a
  numeric key (`Sorting`);
- the devicetree formatter: every property kind's text, node printing,
  the tree that `formatLayout` builds through `Tree.addNode`, and the
  whole `formatLayout` output (`Formatter`, `FormatterTree`);
- the key-grid helpers of `Keyboard.tsx`: a key's map slot, whether it is
  selected, and the extra key indices (`Keyboard`).

Shared records are in `Types`, `Option` and `Result` in `Wrappers`.
Where the source changes objects in place (the formatter's `Tree` and its
nodes, the loops of `addNode`, `keystr`, `getLineBreakIndices` and the
sort), the model has a class or a method with a loop, proved against a
function that states the result; the rest is functions and lemmas.

Where the code and the shapes it declares disagree, the model follows the
code. The devicetree importer names its records by `name` and gives them no
`path`. `makeInitialState`, the editor and the formatter read `path`, so the
model keeps the importer's records (`ImportedPositionMap`,
`ImportedMapItem`, and `PhysicalLayout` with an optional `path`) apart from
the edit state's. After an import the map is always filed at
`/position_map` and each item at `/position_map/<label>`. An unlabelled
layout from a devicetree makes `makeInitialState` throw, since it has no
`path` to split. The parser's error records carry the node's start and end
points.

## Model

| member | source | states |
|---|---|---|
| PositionMapEditor.FindPositionMap | src/PositionMapPage.tsx:472-474 | nothing exactly when no item names the layout; otherwise the first item whose `physicalLayout` is the label |
| PositionMapEditor.FindLayout | src/PositionMapPage.tsx:476-478 | nothing exactly when no layout carries the label; otherwise the first one that does |
| PositionMapEditor.PadPositions | src/PositionMapPage.tsx:493-496 | the `push(undefined)` loop returns the padded copy `Padded(positions, mapIndex)` |
| PositionMapEditor.PaddedFacts | src/PositionMapPage.tsx:493-496 | the padded copy has length max(mapIndex + 1, old length), keeps the old slots as a prefix and adds only empty slots |
| PositionMapEditor.AssignPositionMapKey | src/PositionMapPage.tsx:480-513 | the method (loop over the items, padding, slot map) computes `AssignedMap` |
| PositionMapEditor.AssignKeepsOtherItems | src/PositionMapPage.tsx:487-492 | the map's path, label and `complete` stay; every item keeps its identity and layout; items of other layouts are unchanged |
| PositionMapEditor.AssignSlots | src/PositionMapPage.tsx:498-508 | slot `mapIndex` toggles between `keyIndex` and empty; a slot that held `keyIndex` takes the old value of slot `mapIndex`; every other slot is kept |
| PositionMapEditor.AssignTogglesOff | src/PositionMapPage.tsx:499-501 | assigning a key to the slot that already holds it clears the slot |
| PositionMapEditor.AssignIsSwap | src/PositionMapPage.tsx:498-508 | in an item without duplicates, assignment swaps the contents of slot `mapIndex` and the slot that held `keyIndex` |
| PositionMapEditor.AssignKeepsNoDuplicates | src/PositionMapPage.tsx:480-513 | an item with no key index in two slots keeps that property after any assignment |
| PositionMapEditor.PaddedNoDuplicates | src/PositionMapPage.tsx:493-496 | padding with empty slots adds no duplicate |
| PositionMapEditor.AssignMapKeepsNoDuplicates | src/PositionMapPage.tsx:480-513 | over a whole map, assignment keeps every item free of duplicates |
| PositionMapEditor.AddPositionMapIndex | src/PositionMapPage.tsx:515-525 | every item keeps its identity and gets exactly one more, empty, slot at the end; the map's own fields stay |
| PositionMapEditor.RemovePositionMapIndex | src/PositionMapPage.tsx:527-540 | every item keeps its identity and its positions become the `splice(index, 1)` of the old ones; the map's own fields stay |
| PositionMapEditor.RemoveSlot | src/PositionMapPage.tsx:527-540 | for `0 <= index < length` exactly slot `index` goes and later slots move down one; an index past the end changes nothing |
| PositionMapEditor.RemoveFromEnd | src/PositionMapPage.tsx:531-532 | index -1 removes the last slot, as `splice` counts negative indices from the end |
| PositionMapEditor.RemoveAfterAdd | src/PositionMapPage.tsx:515-540 | adding a row and removing that row again gives back the map |
| PositionMapEditor.ResetPositionMap | src/PositionMapPage.tsx:542-552 | every item keeps everything but its positions, which become empty; the map's own fields stay |
| PositionMapEditor.ResetIdempotent | src/PositionMapPage.tsx:542-552 | resetting twice is resetting once |
| PositionMapEditor.AdjustSelectionFollowsRow | src/PositionMapPage.tsx:121-128 | after row `index` is deleted, the selection adjusted by `i - (i > index ? 1 : 0)` points at the same slot contents in every item |
| InitialState.LabelledLayoutsFacts | src/ContextProviders.tsx:78-84 | labelling throws exactly when some layout has neither a label nor a path; otherwise every layout keeps all but its label and ends up with a non-empty label, its own when it had one |
| InitialState.PathLabel | src/ContextProviders.tsx:82 | a layout with a path but no label is labelled with the text after the last `/` of its path (all of it without a `/`) when that is non-empty, else `layout_<i>` |
| InitialState.DefaultLabelExample | src/ContextProviders.tsx:82 | the layout at `/default` without a label is labelled `default` |
| InitialState.UnlabelledImportFails | src/ContextProviders.tsx:79-84 | a layout with neither a label nor a path, which is how the devicetree importer builds an unlabelled layout, makes `makeInitialState` throw reading `split` of `undefined` |
| InitialState.MapHeader | src/ContextProviders.tsx:86-91 | the new map has no children; its path is the imported map's path, or `/position_map` when there is no imported map or it has no path; its label and `complete` are the imported map's, or `''` and `false` |
| InitialState.MakeInitialState | src/ContextProviders.tsx:75-114 | the method throws as labelling does, and otherwise its loop yields the labelled layouts, the map header with one pushed item per input layout, and the key count of those two (`InitialStateOf`) |
| InitialState.FindExisting | src/ContextProviders.tsx:96 | the first imported item whose `physicalLayout` is the layout's label, compared with `===`; none exactly when no item has it |
| InitialState.InitialItemsFacts | src/ContextProviders.tsx:95-106 | one item per layout, in layout order, naming the layout's label from before defaulting; each is the default item under `<mapPath>/<label>`, or that item overridden by an imported item with the label |
| InitialState.KeepsExistingItem | src/ContextProviders.tsx:96-105 | the first imported item whose `physicalLayout` is the layout's label gives the pushed item its positions and its label (`''` without one), and its path only when it has one; an item without a path is filed under `<mapPath>/<label>` |
| InitialState.InitialItemPath | src/ContextProviders.tsx:98-104 | when no imported item has a path, the pushed item is filed under the map's path and the layout's label |
| InitialState.DevicetreeImportPaths | src/ContextProviders.tsx:75-105 | after a devicetree import, where nothing has a path, the layouts keep their labels, the map is filed at `/position_map` and the item of each layout at `/position_map/<label>`, whatever the devicetree calls the nodes |
| InitialState.UnlabelledLayoutsHaveNoItem | src/ContextProviders.tsx:78-106 | with layouts that have paths but no labels and no imported map, every layout gets a label but every item is `<mapPath>/undefined` with no `physicalLayout`, so no layout finds its item |
| Syntax.ChildNodes | src/parser/devicetree.ts:124-126 | exactly the named children of type `node`, each of them among the named children |
| Syntax.ContainingNode | src/parser/devicetree.ts:114-119 | a result, when there is one, is of type `node` and no deeper than the start |
| Syntax.GetContainingNode | src/parser/devicetree.ts:114-119 | the `while` loop through `parent` returns `ContainingNode(start)` |
| Syntax.ContainingNodeIsLastNode | src/parser/devicetree.ts:114-119 | the containing node is the last `node`-typed entry of the node's lineage (itself and its ancestors), nothing when there is none |
| Syntax.NodePathPartsAreNames | src/parser/devicetree.ts:163-173 | the path parts are the names of the `node`-typed entries of the lineage, root first; intermediate syntax nodes add nothing |
| Syntax.AncestorNames | src/parser/devicetree.ts:163-173 | the parts above a node are the names of the devicetree nodes among its ancestors |
| Syntax.PathFromPartsFacts | src/parser/devicetree.ts:145-161 | no parts give `''`, one part gives itself, under `/` the path is `/` and the other names joined with `/` (never `//`), otherwise the names joined with `/` |
| Syntax.RootChildPath | src/parser/devicetree.ts:145-161 | the parts `/`, `foo` give the path `/foo` |
| DevicetreeProperties.OwnProperties | src/parser/devicetree.ts:192-194 | exactly the matched properties whose containing node is the given node, each one of the matches |
| DevicetreeProperties.GetProperty | src/parser/devicetree.ts:188-198 | filtering the query's matches to the node's own properties, sorting a copy by descending start and taking the first gives `LastProperty` |
| DevicetreeProperties.DescendingHead | src/parser/devicetree.ts:196-198 | the head of the descending sort is one of the properties, starts at or after every other one, and is the earliest-listed of those sharing its start |
| DevicetreeProperties.LastPropertyNone | src/parser/devicetree.ts:192-198 | the result is null exactly when no match belongs to the node |
| DevicetreeProperties.LastPropertySome | src/parser/devicetree.ts:175-198 | the last instance wins: the property returned belongs to the node, no property of the node starts after it, and among those starting at the same place it is the first listed |
| DevicetreeProperties.LastFoundFacts | src/parser/devicetree.ts:184-185 | the last non-null result is null exactly when every result is null, and otherwise is some result with only nulls after it |
| DevicetreeProperties.Selections | src/parser/devicetree.ts:184 | one selection per node of the list, in order, each the single-node selection of that node |
| DevicetreeProperties.GetPropertyOfAll | src/parser/devicetree.ts:183-186 | the loop over the list keeps the last non-null property of its nodes, that is `LastFound` of the selections |
| DevicetreeProperties.FindByPath | src/parser/devicetree.ts:68-79 | an empty path finds nothing; otherwise a node is found exactly when it is a `node` listed by the query whose path equals the given one |
| DevicetreeProperties.PathFilter | src/parser/devicetree.ts:78 | keeps exactly the listed nodes whose path is the given one |
| DevicetreeProperties.FindByReference | src/parser/devicetree.ts:84-98 | an empty label finds nothing; otherwise the nodes the reference query lists for that label |
| DevicetreeProperties.FindBySameNode | src/parser/devicetree.ts:104-109 | the nodes found by path followed by those found by reference, sorted in place by ascending start |
| DevicetreeProperties.SameNodeFacts | src/parser/devicetree.ts:100-109 | the fragments come out in source order, are exactly (as a multiset) those found by path and by label, and include the node itself when it is listed and has a path |
| DevicetreeProperties.GetPropertyValue | src/parser/devicetree.ts:258-300 | selects the property of the node or list, then decodes its `value` field by type, as `ValueOf` of that selection |
| DevicetreeProperties.ValueOfFacts | src/parser/devicetree.ts:263-274 | `bool` is whether the property is set; for any other type a missing property or a property without a value is null |
| DevicetreeProperties.ValueOfUnimplemented | src/parser/devicetree.ts:286-290 | `string-array` and `phandles` fail with "Not implemented" whenever the property has a value |
| DevicetreeProperties.ValueOfNumber | src/parser/devicetree.ts:277-278 | an `int` property succeeds exactly when its value parses as a number, and is then that number |
| DevicetreeProperties.ValueOfPhandle | src/parser/devicetree.ts:283-284 | a `phandle` property whose value parses is the referenced label |
| DevicetreeProperties.ValueOfPhandleArray | src/parser/devicetree.ts:295-296 | a `phandle-array` property is the cells collected from the value and its following siblings |
| DevicetreeValues.ExpectType | src/parser/devicetree.ts:302-306 | no error exactly when the node's type is one of those expected; the error otherwise is a parse error at the node's position |
| DevicetreeValues.FirstNonComment | src/parser/devicetree.ts:309-312 | nothing exactly when every node is a comment; otherwise the index of a non-comment node preceded only by comments |
| DevicetreeValues.FirstCell | src/parser/devicetree.ts:308-317 | a cell found is one of the node's children |
| DevicetreeValues.GetFirstCell | src/parser/devicetree.ts:308-317 | the loop that skips comments from the first named child returns `FirstCell` |
| DevicetreeValues.FirstNonCommentAt | src/parser/devicetree.ts:310-312 | where the skipping loop stops determines the first non-comment index: past the end means none |
| DevicetreeValues.FirstCellFacts | src/parser/devicetree.ts:308-317 | the first cell fails with "Expected a value" exactly when every named child is a comment; otherwise it is the first named non-comment child |
| DevicetreeValues.ToUint32 | src/parser/devicetree.ts:456-477 | the unsigned 32-bit form of a value: in `[0, 2^32)` and equal to the value modulo 2^32 |
| DevicetreeValues.ToInt32 | src/parser/devicetree.ts:456-477 | the signed 32-bit form of a value, in `[-2^31, 2^31)` and congruent to it modulo `2^32` |
| DevicetreeValues.ToInt32Identity | src/parser/devicetree.ts:418-419 | a value already in the signed 32-bit range is left alone |
| DevicetreeValues.UnaryFacts | src/parser/devicetree.ts:415-426 | `!` gives 1 exactly for 0 and 0 otherwise; `~` is a 32-bit value and twice applied gives the 32-bit form; `-` is its own inverse; `+` is the identity; any other operator is unknown |
| DevicetreeValues.EqualityFacts | src/parser/devicetree.ts:462-465 | `==` and `!=` give 1 exactly when the relation holds |
| DevicetreeValues.OrderFacts | src/parser/devicetree.ts:466-473 | `<`, `<=`, `>` and `>=` give 1 exactly when the relation holds |
| DevicetreeValues.ComparisonValues | src/parser/devicetree.ts:462-473 | comparisons give only 0 or 1 |
| DevicetreeValues.LogicalFacts | src/parser/devicetree.ts:452-455 | `||` gives the left value when it is non-zero and the right one otherwise; `&&` gives the right value when the left is non-zero and 0 otherwise |
| DevicetreeValues.DivisionFacts | src/parser/devicetree.ts:448-449 | `/` gives an integer exactly when the divisor is non-zero and divides the dividend, and the quotient times the divisor is then the dividend |
| DevicetreeValues.RemainderFacts | src/parser/devicetree.ts:450-451 | `%` by zero is not a number; otherwise it is the remainder truncated toward zero |
| DevicetreeValues.TruncRemFacts | src/parser/devicetree.ts:450-451 | the truncated remainder and quotient recompose the dividend, the remainder is smaller than the divisor in magnitude and carries the dividend's sign |
| DevicetreeValues.ShiftRightBounds | src/parser/devicetree.ts:476-477 | an arithmetic right shift keeps the sign and never moves away from 0 |
| DevicetreeValues.BitwiseRange | src/parser/devicetree.ts:456-461 | `|`, `^`, `&`, `<<` and `>>` always give a signed 32-bit value |
| DevicetreeValues.DecimalLiteral | src/parser/devicetree.ts:337-338 | the decimal text of a natural number reads back as that number |
| DevicetreeValues.HexLiteral | src/parser/devicetree.ts:337-338 | the hexadecimal literal `0x10` reads as sixteen |
| DevicetreeValues.ParseNumberTypes | src/parser/devicetree.ts:323-324 | only integer literals, unary and binary expressions and cell groups are numbers; any other type fails with "Expected ... but got <type>" at that node |
| DevicetreeValues.CellGroupValue | src/parser/devicetree.ts:326-327 | a cell group is the number of its first non-comment cell, and fails with "Expected a value" when it has none |
| DevicetreeValues.ExpressionValue | src/parser/devicetree.ts:429-481 | with operands that evaluate, a binary expression is its operator applied to their values, and an unknown operator fails with `Invalid operator "<op>"` |
| DevicetreeValues.ParseStringRoundTrip | src/parser/devicetree.ts:344-349 | a string literal `"v"` decodes to `v` |
| DevicetreeValues.QuotedTrimmed | src/parser/devicetree.ts:347 | trimming a quoted text changes nothing |
| DevicetreeValues.QuotedInner | src/parser/devicetree.ts:348 | the substring between the quotes is the quoted text |
| DevicetreeValues.PhandleFacts | src/parser/devicetree.ts:354-367 | a reference decodes to its label text, one without a label fails with "Expected a phandle", a cell group decodes as its first cell, and only those two types decode |
| DevicetreeValues.ParseArray | src/parser/devicetree.ts:373-385 | the walk over the sibling chain returns `ArrayOf` the chain, stopping at the first error |
| DevicetreeValues.ArrayErrorStays | src/parser/devicetree.ts:378-380 | once a prefix of the chain fails, the whole chain fails with the same error |
| DevicetreeValues.ArraySkipsOthers | src/parser/devicetree.ts:378-380 | siblings that are not cell groups contribute nothing to the array |
| DevicetreeValues.FilterKindLast | src/parser/devicetree.ts:378 | filtering by type a chain ending in a node filters the rest and keeps that node when it is of the type |
| DevicetreeValues.FilterKindSnoc | src/parser/devicetree.ts:378 | filtering a chain with a node appended is the filtered chain, plus the node when it is of the type |
| DevicetreeValues.ArrayAppend | src/parser/devicetree.ts:373-385 | the array of two chains one after the other is the first array followed by the second |
| DevicetreeValues.CellFoldAppend | src/parser/devicetree.ts:377-382 | decoding the cell groups of two chains one after the other concatenates the two decodings |
| DevicetreeValues.ParsePhandleArray | src/parser/devicetree.ts:391-403 | the walk over the sibling chain returns `PhandleArrayOf` the chain: the named children of every cell group, in order |
| DevicetreeValues.PhandleArraySkipsOthers | src/parser/devicetree.ts:396-398 | siblings that are not cell groups contribute nothing to the phandle array |
| LayoutParser.MapAll | src/parser/layout.ts:33 | a mapped list that succeeds has one result per input |
| LayoutParser.PrependNothing | src/parser/layout.ts:62-85 | putting no results in front of an outcome leaves it unchanged |
| LayoutParser.MapAllStep | src/parser/layout.ts:62-85 | mapping the rest of a list from one element on fails with that element's error, or continues with its result appended to those so far |
| LayoutParser.MapAllFacts | src/parser/layout.ts:33 | a mapped list succeeds exactly when every element does, and then holds each element's result at the element's index |
| LayoutParser.ParseKeyAttributesArray | src/parser/layout.ts:59-86 | stepping through the cells eight at a time returns `KeyAttributesOf` the cells: one key per group, or the first group's error |
| LayoutParser.KeyCount | src/parser/layout.ts:64-68 | decoded keys number ceil(n / 8) for n cells, and key `k` is decoded from the `k`-th group of eight cells |
| LayoutParser.KeyGroupFacts | src/parser/layout.ts:65-82 | a group whose first cell references anything but `key_physical_attrs` fails with "Expected &key_physical_attrs" at that cell; a decoded key comes from a full group of eight, its phandle first and then width, height, x, y, rotation, rx and ry in order |
| LayoutParser.ParsePhysicalLayout | src/parser/layout.ts:38-57 | reads `display-name`, `keys`, `transform` and `kscan` across the node's fragments and decodes the keys, as `PhysicalLayoutOf` |
| LayoutParser.PhysicalLayoutDefaults | src/parser/layout.ts:42-56 | a layout is named by its node's name, has no path, takes its node's label, and each property no fragment sets leaves its field at `''` or `[]` |
| LayoutParser.ParsePositionMapItem | src/parser/layout.ts:100-107 | reads `physical-layout` and `positions` of the item node, as `PositionMapItemOf` |
| LayoutParser.PositionMapItemFacts | src/parser/layout.ts:100-107 | an item is named by its node's name and label and has no path; it always has a layout reference, `''` without the property; without `positions` it has no slots; every slot is filled, one per decoded number |
| LayoutParser.ParsePositionMap | src/parser/layout.ts:88-98 | reads `complete` and parses every child node, as `PositionMapOf` |
| LayoutParser.ParsePositionMapItems | src/parser/layout.ts:96 | the loop over the child nodes returns the mapped list of their items, or the first error |
| LayoutParser.PositionMapFacts | src/parser/layout.ts:88-98 | the map is complete exactly when one of its own properties is `complete`, and holds one item per child node, in order |
| LayoutParser.PositionMapNames | src/parser/layout.ts:88-107 | the map is named by its node's name and label and has no path, and neither has any of its items |
| LayoutParser.ParseLayouts | src/parser/layout.ts:25-36 | given the compatible matches, returns `LayoutsOf` them |
| LayoutParser.ParsePhysicalLayouts | src/parser/layout.ts:33 | the loop over the layout matches returns the mapped list of their layouts, or the first error |
| LayoutParser.LayoutsFacts | src/parser/layout.ts:25-36 | one layout per layout match, in match order; the position map is the first map match's, and absent exactly when there is no map match |
| Kle.ParseKleKeyboard | src/parser/kle.ts:64-118 | dropping leading metadata and walking rows and items with the cursor returns `KleKeyboardOf` the data: the metadata name and the keys placed, or the first error |
| Kle.ParseRow | src/parser/kle.ts:82-111 | the walk over one row's items returns the fold of the item steps, or the first error |
| Kle.ItemsErrorStays | src/parser/kle.ts:108-110 | once an item of a row fails, the whole row fails with the same error |
| Kle.RowsErrorStays | src/parser/kle.ts:78-80 | once a row fails, the whole keyboard fails with the same error |
| Kle.ItemsKeyCount | src/parser/kle.ts:82-111 | a row adds one key per label and keeps the keys placed before it |
| Kle.RowsKeyCount | src/parser/kle.ts:77-115 | the rows add one key per label they hold together |
| Kle.KeyboardKeyCount | src/parser/kle.ts:64-118 | the keyboard holds exactly one key per label of its rows |
| Kle.LabelStep | src/parser/kle.ts:83-89 | a label places a key equal to the cursor, moves the cursor right by its width and resets the size to 1 x 1; nothing else moves |
| Kle.KeyObjectStep | src/parser/kle.ts:90-107 | a key object places no key; `r` sets the rotation; `rx` moves the cursor to (`rx`, old `ry`) before `ry` sets `y` and `ry`; then the offsets are added and the size becomes `w` x `h`, 1 when absent |
| Kle.OtherItems | src/parser/kle.ts:108-110 | anything that is neither a label nor a key object fails with "Expected key object"; numbers, null, booleans and undefined always fail; an array counts as an empty key object |
| Kle.KeyItemFacts | src/parser/kle.ts:146-174 | `isKeyItem` holds exactly for non-null objects whose present fields among `x`, `y`, `w`, `h`, `r`, `rx` and `ry` are numbers, so a string `x` refuses it |
| Kle.NotARowFails | src/parser/kle.ts:78-80 | a row that is not an array fails the keyboard with "Expected an array" once reached |
| Kle.EndRowFacts | src/parser/kle.ts:113-114 | the end of a row moves the cursor down one line and back to the rotation origin's `x`, and changes nothing else |
| Kle.MetadataFacts | src/parser/kle.ts:68-75 | leading metadata is dropped from the rows and its string `name` names the keyboard |
| Kle.TwoKeysExample | src/parser/kle.ts:64-118 | a row of two labels gives two unit keys side by side from the origin |
| Qmk.NodeName | src/parser/qmk.ts:27-29 | the node name is trimmed, has no capital letter, and uses only characters of the lower-cased key |
| Qmk.LowerHasNoUpper | src/parser/qmk.ts:28 | lower-casing leaves no capital letter |
| Qmk.LowerOfLower | src/parser/qmk.ts:28 | lower-casing a string without capitals changes nothing |
| Qmk.NodeNameIdempotent | src/parser/qmk.ts:27-29 | naming a node name again gives the same name |
| Qmk.StripPrefix | src/parser/qmk.ts:33 | a key starting with `LAYOUT_` is that prefix followed by the result; any other key is kept |
| Qmk.DisplayName | src/parser/qmk.ts:31-36 | the display name holds no underscore and is trimmed |
| Qmk.DisplayNameKeeps | src/parser/qmk.ts:31-36 | a key without the prefix, without underscores and already trimmed is its own display name |
| Qmk.DisplayNameStripsOnce | src/parser/qmk.ts:33-34 | only the first `LAYOUT_` is removed; a second one stays as `LAYOUT ` |
| Qmk.DisplayNameInnerPrefix | src/parser/qmk.ts:33 | `LAYOUT_` after the first character is not removed, only spaced |
| Positions.DigitsHaveNo | src/parser/position.ts:9-11 | the decimal text of a number holds no character other than digits |
| Positions.PositionTextParts | src/parser/position.ts:9-11 | a non-negative position prints as its line and column separated by the text's only `:` |
| Positions.RangeTextParts | src/parser/position.ts:20-30 | a one-character range prints as its start alone, a range within one line as the start and the end column, any other range as start and end, each split unambiguously at `-` |
| Positions.IndexOf | src/parser/position.ts:52 | the first index at or after the start holding the character, or -1 exactly when there is none |
| Positions.BreaksFromIndexOf | src/parser/position.ts:52-55 | jumping to the next `\n` skips no break: the table from a point is that break followed by the table after it |
| Positions.GetLineBreakIndices | src/parser/position.ts:48-58 | the `indexOf` loop returns `LineBreaks` of the text |
| Positions.BreaksFromFacts | src/parser/position.ts:48-58 | the table from a point holds exactly the `\n` indices at or after it, strictly increasing |
| Positions.LineBreaksFacts | src/parser/position.ts:48-58 | the break table holds exactly the indices of `\n` in the text, strictly increasing |
| Positions.FindLine | src/parser/position.ts:65 | the first break after the index, or -1 exactly when no break lies after it |
| Positions.BreaksUpToPrefix | src/parser/position.ts:65-72 | in an increasing table, the line of the first break after the index is the number of breaks at or before it |
| Positions.IndexToPositionFacts | src/parser/position.ts:60-73 | without breaks every index is at 0:0; at or after the last break it is on line `number of breaks`, column 0; otherwise the line is the number of breaks at or before the index and the column counts from the previous break, or from 0 on the first line, never negative |
| Positions.NodeRangesCompose | src/parser/position.ts:33-46 | a node's range depends on that node alone: ranges of concatenated lists concatenate, and each entry is that node's `getNodeRange` |
| Errors.IsPointOnSites | src/parser/error.ts:32-41 | `isPoint` recognises every point and no syntax node, so the constructor's two forms are told apart |
| Errors.IsPointRejects | src/parser/error.ts:32-41 | `isPoint` rejects non-objects and objects whose `row` is not a number, and accepts only objects with numeric `row` and `column` |
| Errors.NewParseError | src/parser/error.ts:13-29 | from a node the error takes the node's start and end positions; from a start point it takes the given points, and without an end it is the plain error `Invalid value for "end"` |
| Errors.NodeError | src/parser/error.ts:25-27 | the error raised at a node is a parse error with that message, spanning the node |
| Utility.MaxValue | src/utility.ts:4-6 | the result is at least `initial` and every callback value, and is `initial` or one of those values |
| Utility.Dtnum | src/utility.ts:11-14 | width 0 gives the plain text; otherwise the text ends the result, which is exactly `width` long when the text is shorter and the text itself when not |
| Utility.DecimalRoundTrip | src/utility.ts:12 | the decimal text of a natural number reads back as that number |
| Utility.DtTextRoundTrip | src/utility.ts:11-12 | what `dtnum` prints, digits or `(-digits)`, reads back as the same number |
| Utility.NegativeText | src/utility.ts:12 | a negative number prints as `(-digits)` |
| Utility.NegativeTextRoundTrip | src/utility.ts:12 | a negative number's text reads back as that number |
| Utility.NegativeTextReads | src/utility.ts:12 | `(-digits)` reads as the negated digits |
| Utility.DtnumPadding | src/utility.ts:13 | what `dtnum` adds in front of the text is spaces only |
| Utility.PrefixLines | src/utility.ts:24 | one line out per line in; empty lines stay empty, the others get the prefix |
| Utility.IndentLines | src/utility.ts:19-26 | with a prefix free of line breaks, the indented text has the same lines: empty ones empty, the others behind the repeated prefix |
| Utility.RepeatNoChar | src/utility.ts:20 | repeating a prefix introduces no character it lacks |
| Utility.ChunksProperties | src/utility.ts:28-46 | a non-positive size gives the whole list as one chunk; the chunks put back together are the list; with a positive size there are ceil(n / size) of them, none for an empty list, every one full except the last, which is never empty |
| Utility.ChunksFlatten | src/utility.ts:34-46 | the chunks put back together are the list |
| Utility.ChunksCount | src/utility.ts:41-43 | there are ceil(n / size) chunks |
| Utility.CountStep | src/utility.ts:41-43 | one more chunk covers `size` more items |
| Utility.ChunksSizes | src/utility.ts:41-43 | every chunk but the last holds `size` items, the last between one and `size` |
| Utility.ChunksStep | src/utility.ts:41-43 | the chunks from index `i` are the slice at `i` followed by the chunks from `i + size` |
| Utility.ChunksFromRest | src/utility.ts:41-43 | what the loop still pushes from index `i` is the chunks of the rest of the list |
| Utility.Chunks | src/utility.ts:34-46 | the loop pushing slices returns `ChunksOf` the list |
| JsString.Split | src/utility.ts:23 | at least one piece, none holding the separator |
| JsString.JoinSplit | src/utility.ts:22-25 | joining the pieces of a split with the separator gives the text back |
| JsString.SplitJoin | src/utility.ts:22-25 | splitting the join of separator-free pieces gives the pieces back |
| JsString.PadStart | src/utility.ts:13 | a text at least `width` long is kept; a shorter one ends a result exactly `width` long |
| JsString.IntToString | src/utility.ts:12 | a negative number prints as `-` and its magnitude's digits, a non-negative one as its digits |
| JsString.TrimFacts | src/parser/qmk.ts:28 | trimming gives a trimmed text made of the text's characters, and leaves a trimmed text alone |
| JsString.ToLower | src/parser/qmk.ts:28 | lower-casing maps each character and keeps the length |
| JsString.ReplaceAll | src/parser/qmk.ts:34 | every occurrence of the character is replaced and nothing else changes |
| JsString.Substring | src/parser/devicetree.ts:348 | `substring` takes the characters between the two indices clamped to the text |
| JsString.SubstringFacts | src/parser/devicetree.ts:348 | dropping the first and last character of a text of two or more, the whole text when it has one, nothing when empty |
| Sorting.InsertionSort | src/parser/devicetree.ts:197 | sorts the array in place by the key, leaving `SortBy` of its old contents |
| Sorting.SortBySorted | src/parser/devicetree.ts:108 | the sorted list is ordered by the key and a permutation of the input |
| Sorting.SortByHead | src/parser/devicetree.ts:197-198 | the head of the sorted list is the earliest element with the least key, as a stable sort gives |
| Sorting.InsertPermutes | src/parser/devicetree.ts:197 | inserting adds exactly the element |
| Sorting.InsertSorted | src/parser/devicetree.ts:197 | inserting into a sorted list keeps it sorted |
| Formatter.GetIndent | src/formatter/Formattable.ts:5-7 | the indent is `indentSize` spaces, four when none is given |
| Formatter.GetIndentDefaults | src/formatter/Formattable.ts:5-7 | no size gives four spaces, size 0 gives none |
| Formatter.StringPropertyText | src/formatter/StringProperty.ts:9-11 | the text is the name, ` = "`, the value and `";`, in that order |
| Formatter.StringPropertyInjective | src/formatter/StringProperty.ts:9-11 | two string properties of the same name print alike only when their values are equal |
| Formatter.BooleanPropertyText | src/formatter/BooleanProperty.ts:6-8 | the text is the name and `;`, with no `=` unless the name has one |
| Formatter.PhandlePropertyText | src/formatter/PhandleProperty.ts:17-19 | the text is the name, ` = <&`, the label and `>;` |
| Formatter.PhandlePropertyInjective | src/formatter/PhandleProperty.ts:17-19 | two phandle properties of the same name print alike only when their labels are equal |
| Formatter.NumberTexts | src/formatter/ArrayProperty.ts:5 | one `dtnum` text per value, each padded to `digits` |
| Formatter.FormatRow | src/formatter/ArrayProperty.ts:4-6 | the row is the padded numbers joined with single spaces between `<` and `>` |
| Formatter.MaxDigits | src/formatter/ArrayProperty.ts:52-54 | `ceil(log10(m))` for a whole `m >= 1`: the least `d` with `10^d >= m` |
| Formatter.MaxDigitsExamples | src/formatter/ArrayProperty.ts:52-54 | 1 gives 0, 9 and 10 give 1, 11 and 100 give 2, 101 gives 3: an exact power of ten gets one column fewer than its digits |
| Formatter.Maximum | src/formatter/ArrayProperty.ts:53 | the largest value: at least every value and one of them |
| Formatter.Digits | src/formatter/ArrayProperty.ts:35 | no padding without columns; otherwise `maxDigits` of the largest value when it is at least 1 |
| Formatter.RowTexts | src/formatter/ArrayProperty.ts:46 | one formatted row per chunk, each with the same padding |
| Formatter.BlockRows | src/formatter/ArrayProperty.ts:44-47 | each item on its own line behind the prefix, the first after `= ` and the others after `, ` |
| Formatter.BlockBody | src/formatter/ArrayProperty.ts:45-46 | the item lines joined are the items joined with a line break, the prefix and `, `, after the prefix and `= ` |
| Formatter.BlockJoin | src/formatter/ArrayProperty.ts:43-48 | the block is its lines joined: head, item lines, closing `;` |
| Formatter.BlockSplits | src/formatter/ArrayProperty.ts:43-48 | with one-line head, prefix and items, splitting the block at line breaks gives back the head, one line per item and the closing line |
| Formatter.RowNoNewline | src/formatter/ArrayProperty.ts:4-6 | a formatted row is one line |
| Formatter.DtnumNoNewline | src/utility.ts:11-14 | a `dtnum` text is one line |
| Formatter.DtTextChars | src/utility.ts:12 | a number's text holds only digits, `(`, `-` and `)` |
| Formatter.DtnumChars | src/utility.ts:11-14 | a padded number's text holds only those characters and spaces |
| Formatter.ArrayTextForms | src/formatter/ArrayProperty.ts:32-49 | values that fit in `numColumns` print on one line; more print as the block of rows of `numColumns` values; without columns a non-empty array is one unpadded row in the block and an empty one prints `name = <>;` |
| Formatter.ArrayTextLines | src/formatter/ArrayProperty.ts:41-48 | the multi-line form is, line by line, the name, one row per chunk of at most `numColumns` values, and the closing `;` |
| Formatter.RowRoundTrip | src/formatter/ArrayProperty.ts:4-6 | an unpadded non-empty row gives its values back when the text between the brackets is split at spaces and each piece read |
| Formatter.NoSpaceInDtText | src/utility.ts:12 | a number's text holds no space |
| Formatter.ReadAll | src/formatter/ArrayProperty.ts:5 | reading back the unpadded texts of a row gives the row |
| Formatter.KeyFieldFacts | src/formatter/KeyAttributesProperty.ts:11-12 | a field is the number's `dtnum` text behind as many spaces as its column needs, never cut short |
| Formatter.KeyFieldNoNewline | src/formatter/KeyAttributesProperty.ts:11-12 | a field is one line |
| Formatter.KeyFields | src/formatter/KeyAttributesProperty.ts:6-13 | one field per measure, each padded to its column width 3, 3, 4, 4, 7, 6 or 6 |
| Formatter.KeyStrNoNewline | src/formatter/KeyAttributesProperty.ts:5-18 | one-line pieces and fields make one line |
| Formatter.KeyStr | src/formatter/KeyAttributesProperty.ts:5-18 | the loop returns the template pieces with the padded fields in between, `KeyStrOf` |
| Formatter.KeyStrSeven | src/formatter/KeyAttributesProperty.ts:8-15 | seven fields between eight pieces, alternating, first piece first |
| Formatter.KeyItemFields | src/formatter/KeyAttributesProperty.ts:27 | a key prints as `<&key_physical_attrs W H X Y ROT RX RY>`, its measures in that order, padded to 3, 3, 4, 4, 7, 6 and 6 columns |
| Formatter.KeyItems | src/formatter/KeyAttributesProperty.ts:24-28 | one item per key, in key order |
| Formatter.KeyItemNoNewline | src/formatter/KeyAttributesProperty.ts:27 | a key item is one line |
| Formatter.PiecesOneLine | src/formatter/KeyAttributesProperty.ts:27 | the template pieces are one line each |
| Formatter.HeaderOneLine | src/formatter/KeyAttributesProperty.ts:32 | the header is one line |
| Formatter.KeyAttributesLines | src/formatter/KeyAttributesProperty.ts:23-37 | the `keys` property is, line by line, the header, the first key after `    = `, every other key after `    , ` in key order, and `    ;` |
| Formatter.BlockFourSpaces | src/formatter/KeyAttributesProperty.ts:29-35 | a block with a four-space prefix is the key property's layout |
| Formatter.ChildTexts | src/formatter/Node.ts:19 | one text per child, each its `toString()` |
| Formatter.EmptyNodeText | src/formatter/Node.ts:13-25 | a node without children prints an empty line between its braces |
| Formatter.NodeLines | src/formatter/Node.ts:13-25 | a node whose children print on one line each is, line by line, the identifier and `{`, each child behind four spaces (an empty child as an empty line), and `};` |
| Formatter.ChildTextsOneLine | src/formatter/Node.ts:19 | one-line children give one-line texts |
| Formatter.BodySplits | src/formatter/Node.ts:21-24 | the lines of a node's text split apart again unchanged |
| Formatter.NodeTextJoin | src/formatter/Node.ts:13-25 | a node's text is its identifier line, indented child lines and closing line, joined |
| Formatter.BodyLines | src/formatter/Node.ts:21-24 | indenting the joined children is joining the indented children |
| Formatter.IndentJoined | src/formatter/Node.ts:23 | indenting one-line texts joined by line breaks indents each one |
| Formatter.JoinFramed | src/formatter/Node.ts:21-24 | joining a first line, the body lines and `};` puts line breaks between them |
| Formatter.FramedText | src/formatter/Node.ts:21-24 | the braces around a body regroup into separate lines |
| Formatter.FindChild | src/formatter/Node.ts:27-31 | the index of the first `Node` child with that name; none exactly when no `Node` child has it; properties and spacers never match |
| Formatter.AddSpacer | src/formatter/Node.ts:41-43 | the node keeps its name and label and gains a spacer last |
| Formatter.AddChildFacts | src/formatter/Node.ts:33-39 | the node keeps its name, label and children and gains the child last; a spacer goes in front exactly when a node is added to a node that has children |
| FormatterTree.NodeAt | src/formatter/Tree.ts:9-33 | an address leads to a node |
| FormatterTree.ReplaceAt | src/formatter/Node.ts:33-43 | after replacing the node at an address the address leads to the new node, and above it the names, labels and child counts stay |
| FormatterTree.AddressSnoc | src/formatter/Tree.ts:16-22 | one more step is an address exactly when it picks a node child, and leads to that child |
| FormatterTree.NodeAtCons | src/formatter/Tree.ts:16-22 | an address inside a child, behind that child's index, is an address of the parent leading to the same node |
| FormatterTree.ReplaceChild | src/formatter/Node.ts:33-43 | replacing a child of a node is replacing that node with the child swapped |
| FormatterTree.ReplaceTwice | src/formatter/Node.ts:33-43 | the second replacement at an address wins |
| FormatterTree.ReplaceSame | src/formatter/Node.ts:33-43 | putting a node back where it was changes nothing |
| FormatterTree.StepInto | src/formatter/Tree.ts:14-23 | the node keeps its name and label and has, at the index returned, a child node of the segment's name: the first one found, or a new one appended |
| FormatterTree.Walk | src/formatter/Tree.ts:13-26 | the walk keeps the node's name and label, removes no child, and reaches an address one step per segment |
| FormatterTree.FindChildIs | src/formatter/Node.ts:27-31 | a child node of the name with none before it is the one `findChild` returns |
| FormatterTree.WalkFound | src/formatter/Tree.ts:16-18 | a path that is all there is walked without any change, to its address |
| FormatterTree.WalkFinds | src/formatter/Tree.ts:13-26 | after the walk the whole path is there and leads to where the walk ended |
| FormatterTree.WalkFresh | src/formatter/Tree.ts:19-23 | walking from a node with no children builds a chain of new nodes, the last without children |
| FormatterTree.ExtendsRefl | src/formatter/Node.ts:33-39 | a tree extends itself |
| FormatterTree.ExtendsFind | src/formatter/Node.ts:27-31 | paths are found alike in a tree and in a tree that extends it |
| FormatterTree.RelabelExtends | src/formatter/Tree.ts:28-30 | setting a label anywhere keeps every node at its place and name |
| FormatterTree.AddChildExtends | src/formatter/Node.ts:33-39 | adding a property anywhere keeps every node at its place and name |
| FormatterTree.WithLabel | src/formatter/Tree.ts:29 | the node with its label set is still a node |
| FormatterTree.Relabel | src/formatter/Tree.ts:28-30 | the node at the address now carries the label, nothing else of it changes |
| FormatterTree.AddNodeOf | src/formatter/Tree.ts:9-33 | `addNode` hands back an address of the new tree |
| FormatterTree.AddChildTo | src/formatter/Node.ts:33-39 | after `addChild` on the node at an address the address still leads to a node |
| FormatterTree.AddSpacerTo | src/formatter/Node.ts:41-43 | after `addSpacer` on the node at an address the address still leads to a node |
| FormatterTree.Tree.constructor | src/formatter/Tree.ts:7 | the root is the node `/`, without label or children |
| FormatterTree.Tree.AddNode | src/formatter/Tree.ts:9-33 | the segment loop leaves the root and returns the address given by `AddNodeOf` of the old root |
| FormatterTree.Tree.AddChildAt | src/formatter/Node.ts:33-39 | the root becomes `AddChildTo` of the old root at that address |
| FormatterTree.Tree.AddSpacerAt | src/formatter/Node.ts:41-43 | the root becomes `AddSpacerTo` of the old root at that address |
| FormatterTree.WalkStep | src/formatter/Tree.ts:14-25 | one turn of the loop leaves the rest of the walk unchanged: from the new address the remaining segments end where the whole walk would |
| FormatterTree.StepFound | src/formatter/Tree.ts:16-18 | when the segment is found, the walk continues from that child |
| FormatterTree.StepAdded | src/formatter/Tree.ts:19-23 | when the segment is missing, the walk continues from the new last child |
| FormatterTree.AddNodeFacts | src/formatter/Tree.ts:9-33 | `addNode` reaches, one step per segment, the node named by the last segment, with the whole path then there; it labels that node when the label is non-empty; without segments it returns the root and adds nothing |
| FormatterTree.FindLast | src/formatter/Tree.ts:13-26 | a found path leads to a node named by its last segment |
| FormatterTree.AddNodeReuses | src/formatter/Tree.ts:16-18 | when the whole path is there, `addNode` without a label changes nothing and returns its node |
| FormatterTree.AddNodeTwice | src/formatter/Tree.ts:9-33 | adding the same path twice returns the same node the second time and changes nothing |
| FormatterTree.AddNodeFresh | src/formatter/Tree.ts:19-23 | in a tree that is only a root, the node `addNode` reaches has no children |
| FormatterTree.PartsOfPath | src/formatter/Tree.ts:11 | a path `/a/b/...` whose segments hold no `/` walks exactly those segments |
| FormatterTree.Defined | src/formatter/layout.ts:47 | the filter keeps exactly the assigned keys, and never more entries than slots |
| FormatterTree.DefinedAppend | src/formatter/layout.ts:47 | the filter keeps the slot order: filtering two slot lists one after the other concatenates their filters |
| FormatterTree.MapTree | src/formatter/layout.ts:29-37 | the tree after the map node and its own properties has the map node at the address returned |
| FormatterTree.ItemTree | src/formatter/layout.ts:40-49 | the tree after one item is still rooted at a node |
| FormatterTree.ItemsTree | src/formatter/layout.ts:39-50 | the tree after the items is still rooted at a node |
| FormatterTree.FormatLayout | src/formatter/layout.ts:8-53 | building the tree of the position map through the `Tree` object and printing its root gives `FormatLayoutOf` the state |
| FormatterTree.ItemsTreeSnoc | src/formatter/layout.ts:39-50 | one more turn of the item loop adds that item's nodes to the tree so far |
| FormatterTree.MapNodeChildren | src/formatter/layout.ts:29-37 | the map node holds `compatible` and, when the map is complete, a spacer and `complete;`; nothing else before the items |
| FormatterTree.ItemNode | src/formatter/layout.ts:40-49 | an item adds, at the node of its path (found or made), its `physical-layout` phandle and then its `positions` array of assigned keys, unpadded, and labels the node when it has a label |
| FormatterTree.AddPropertyAt | src/formatter/Node.ts:33-39 | a property added at an address lands last among that node's children, keeps its label, and leaves every other node as it was |
| FormatterTree.LayoutsNotPrinted | src/formatter/layout.ts:11-27 | only the position map is printed: the physical layouts do not change the output |
| FormatterTree.OutputStartsWithRoot | src/formatter/layout.ts:8-53 | when every path holds a `/`, the output starts with the unlabelled root `/ {` |
| FormatterTree.ImportedStateStartsWithRoot | src/formatter/layout.ts:29-52 | a state `makeInitialState` builds from a devicetree import prints from the unlabelled root `/ {`, its map and items all being filed under `/position_map` |
| FormatterTree.RootText | src/formatter/Node.ts:13-25 | the unlabelled root prints first `/ {` and a line break |
| FormatterTree.RootKept | src/formatter/layout.ts:39-50 | items whose paths hold a `/` leave the root's name and empty label alone |
| FormatterTree.MapRoot | src/formatter/layout.ts:29 | a map path with a `/` leaves the root's name and empty label alone |
| FormatterTree.ItemRoot | src/formatter/layout.ts:40 | an item path with a `/` leaves the root's name and label alone |
| FormatterTree.AddNodeDeep | src/formatter/Tree.ts:9-33 | a path with a `/` leads below the root, so the root keeps its name and label |
| Keyboard.IndexOf | src/keyboard/Keyboard.tsx:167 | the first slot holding the key, or -1 exactly when no slot holds it |
| Keyboard.GetMapIndex | src/keyboard/Keyboard.tsx:159-169 | no slot exactly when the key index or the map item is missing or no slot holds the key; otherwise the first slot that holds it |
| Keyboard.GetSelected | src/keyboard/Keyboard.tsx:171-176 | a key is selected exactly when a slot is selected and the key sits in that slot |
| Keyboard.MapIndexOfSlot | src/keyboard/Keyboard.tsx:159-169 | in an item whose assigned keys are distinct, a key's map index is the slot holding it |
| Keyboard.OneKeySelected | src/keyboard/Keyboard.tsx:159-176 | two keys both drawn selected are the same key |
| Keyboard.ExtraKeys | src/keyboard/Keyboard.tsx:63-67 | as many extra keys as the key count exceeds the drawn keys (none when it does not), numbered on from the drawn keys |
| Keyboard.ExtraKeysCover | src/keyboard/Keyboard.tsx:63-67 | the extra keys are exactly the indices from the number of drawn keys up to the key count, ascending |
| Keyboard.NoKeyCountNoExtra | src/keyboard/Keyboard.tsx:64 | without a key count there are no extra keys |

## Left out

- JavaScript numbers in the devicetree evaluator are integers: a `/` or `%` whose JavaScript result is not an integer (a fraction, `NaN`, `Infinity`, division by zero) and a literal that `Number` reads as `NaN` give an `Unrepresentable` error instead of the non-integer number, since integers are all a devicetree cell can hold.
- JavaScript numbers are doubles, exact only up to 2^53; the model's integers are exact at any size, so `Number` of a long hexadecimal literal and sums or products beyond 2^53 are not rounded before the bitwise operators apply ToInt32.
- Numbers in the KLE importer are reals: floating-point rounding is not modelled.
- `Number(text)` is modelled for decimal digits and `0x`/`0X` hexadecimal only; the other literal forms `Number` accepts (exponents, `0o`, `0b`, fractions, surrounding whitespace) are read as `NaN`.
- Byte offsets and string indices are both indices into a sequence of characters: the difference between tree-sitter's byte offsets and JavaScript's UTF-16 indices is not modelled.
- `getMinKeyCount` is not defined in `utility.ts`; `makeInitialState` takes it as a function parameter.
- `lpad` is not defined in `utility.ts`; it is modelled as `String.prototype.padStart` with spaces (`JsString.PadStart`).
- The tree-sitter parser and its queries are foreign code: their matches are parameters (a function from a node and a name to the located matches), and syntax nodes are values, so node identity is value equality.
- A key group shorter than eight cells makes the source throw a `TypeError` while reading a missing cell; the model returns the same message as a plain error (`LayoutParser.MISSING_CELL`).
- String literals are decoded by dropping the quotes only; escape sequences are kept as written, as in the source.
- `String.prototype.toLowerCase` is modelled for ASCII letters only; other letters are kept as they are.
- Formatter nodes are values inside one `Tree` object, addressed by index paths from the root; the aliasing of `Node` objects shared between the tree and the callers of `addNode` is replaced by those addresses.
- The `name` an imported position map item carries into the edit state through the spread is never read there, and the edit state's items do not keep it.
- `Math.round(v * 100) / 100` on a value stored in hundredths is the identity and is not written out.
- `KeyAttributesProperty` reads `position` and `origin` fields that `KeyAttributes` does not declare; the model prints the declared `x`, `y`, `rx` and `ry` fields in their place.
- The KLE importer's error messages are modelled as error kinds, not as the exact text of the thrown `Error`.
- JSON parsing (`parseQmkJson`, the JSON reading before `parseKleKeyboard`) is not part of this model: the importers start from already parsed values.
- The drawing, sizes, colours and geometry of `Keyboard.tsx` are not part of this model.
- `formatLayout` does not print the physical layouts (that code is commented out in the source), so neither does the model; `FormatterTree.LayoutsNotPrinted` states it.
- `Array.prototype.sort` with a numeric comparator is modelled as a stable insertion sort (`Sorting.InsertionSort`); the engine's own algorithm is not modelled, only its stable result.
- Syntax.NodeName and Syntax.NodeLabel have no contract of their own; `Syntax.NodePathPartsAreNames` and `Syntax.AncestorNames` state what the path is made of.
- React state, hooks, components and event handling around the editor operations are not part of this model.
