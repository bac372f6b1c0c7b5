/** The domain model shared by the importers, the editor and the formatter
    (src/types.ts). A record names its devicetree node and carries an
    optional `label` (`nodeLabel` here, since `label` is a Dafny keyword).
    The devicetree importer names a record by its node's `name`; the edit
    state's position map and its items are named by a `path`, which
    `makeInitialState` supplies. A field an importer may leave out is an
    `Option`, with `None` for a property the object does not have. */
module Types {
  import opened Wrappers

  /** One physical key. The devicetree source stores every measure in
      hundredths of a key unit; the model keeps that integer encoding, so
      `x = 150` is one and a half units. */
  datatype KeyAttributes = KeyAttributes(
    width: int, height: int, x: int, y: int, rotation: int, rx: int, ry: int)

  /** A physical layout: the importer's record, kept as it is in the edit
      state apart from its label. No importer in the model gives it a
      `path`. */
  datatype PhysicalLayout = PhysicalLayout(
    name: Option<string>,
    path: Option<string>,
    nodeLabel: Option<string>,
    displayName: string,
    keys: seq<KeyAttributes>,
    transform: string,
    kscan: string)

  /** One item of the position map: slot `i` holds the index of a key of the
      physical layout labelled `physicalLayout`, or nothing. The parser always
      gives `physicalLayout` a string; only the import normalisation can copy
      an absent layout label into it. */
  datatype PositionMapItem = PositionMapItem(
    path: string,
    nodeLabel: Option<string>,
    physicalLayout: Option<string>,
    positions: seq<Option<int>>)

  /** The edit state's position map. */
  datatype PositionMap = PositionMap(
    path: string,
    nodeLabel: Option<string>,
    complete: bool,
    children: seq<PositionMapItem>)

  /** A position map item as an importer returns it: the devicetree importer
      sets its `name`, its label, its `physicalLayout` and its `positions`,
      and no `path`. */
  datatype ImportedMapItem = ImportedMapItem(
    name: Option<string>,
    path: Option<string>,
    nodeLabel: Option<string>,
    physicalLayout: Option<string>,
    positions: seq<Option<int>>)

  /** A position map as an importer returns it. */
  datatype ImportedPositionMap = ImportedPositionMap(
    name: Option<string>,
    path: Option<string>,
    nodeLabel: Option<string>,
    complete: bool,
    children: seq<ImportedMapItem>)

  /** What the editor works on between two imports. */
  datatype EditState = EditState(
    layouts: seq<PhysicalLayout>,
    positionMap: PositionMap,
    keyCount: int)
}
