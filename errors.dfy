/** The parse error record of src/parser/error.ts and the errors the
    devicetree decoder raises. */
module Errors {
  import opened Wrappers
  import opened Syntax

  /** What a failed operation throws: a `ParseError` that locates the
      problem in the source, a plain `Error`, or (`Unrepresentable`) a number
      the integer model cannot hold, where JavaScript would carry on with a
      fraction, `NaN` or an infinity. */
  datatype Error =
    | ParseError(message: string, startPosition: Point, endPosition: Point)
    | PlainError(message: string)
    | Unrepresentable(message: string)

  /** The JavaScript values `isPoint` may be handed. */
  datatype JsValue =
    | JsUndefined
    | JsNull
    | JsBoolean(b: bool)
    | JsNumber(n: real)
    | JsString(s: string)
    | JsArray(items: seq<JsValue>)
    | JsObject(properties: map<string, JsValue>)

  /** `isPoint`: a non-null object with numeric `row` and `column`. */
  predicate IsPoint(v: JsValue)
  {
    && v.JsObject?
    && "row" in v.properties && v.properties["row"].JsNumber?
    && "column" in v.properties && v.properties["column"].JsNumber?
  }

  /** A point as a JavaScript object. */
  function PointValue(p: Point): JsValue
  {
    JsObject(map["row" := JsNumber(p.row as real), "column" := JsNumber(p.column as real)])
  }

  /** The second argument of the constructor: a syntax node or a start point. */
  datatype Site = AtNode(node: SyntaxNode) | AtPoint(start: Point)

  /** A syntax node as a JavaScript object: it exposes its type and its
      positions, not a `row` or a `column`. */
  function SiteValue(site: Site): JsValue
  {
    match site
    case AtPoint(p) => PointValue(p)
    case AtNode(n) => JsObject(map[
      "type" := JsString(n.kind),
      "startIndex" := JsNumber(n.startIndex as real),
      "endIndex" := JsNumber(n.endIndex as real),
      "startPosition" := PointValue(n.startPosition),
      "endPosition" := PointValue(n.endPosition)])
  }

  /** Every point is recognised, and no syntax node is. */
  lemma IsPointOnSites(site: Site)
    ensures IsPoint(SiteValue(site)) <==> site.AtPoint?
  {
    if site.AtNode? {
      assert "row" !in SiteValue(site).properties;
    }
  }

  /** `isPoint` rejects `null`, non-objects and objects missing a numeric
      `row` or `column`. */
  lemma IsPointRejects(v: JsValue)
    ensures !v.JsObject? ==> !IsPoint(v)
    ensures v.JsObject? && "row" in v.properties && v.properties["row"].JsString? ==> !IsPoint(v)
    ensures IsPoint(v) ==> exists r: real, c: real :: v.properties["row"] == JsNumber(r) && v.properties["column"] == JsNumber(c)
  {
    if IsPoint(v) {
      var r := v.properties["row"].n;
      var c := v.properties["column"].n;
      assert v.properties["row"] == JsNumber(r) && v.properties["column"] == JsNumber(c);
    }
  }

  /** `new ParseError(message, nodeOrStart, end)`: the error that results,
      which is the constructor's own `Invalid value for "end"` when a start
      point comes without an end. */
  function NewParseError(message: string, nodeOrStart: Site, end: Option<Point>): (r: Error)
    ensures nodeOrStart.AtNode? ==>
      r == ParseError(message, nodeOrStart.node.startPosition, nodeOrStart.node.endPosition)
    ensures nodeOrStart.AtPoint? && end.None? ==> r == PlainError("Invalid value for \"end\"")
    ensures nodeOrStart.AtPoint? && end.Some? ==> r == ParseError(message, nodeOrStart.start, end.value)
  {
    IsPointOnSites(nodeOrStart);
    if IsPoint(SiteValue(nodeOrStart)) then
      if end.None? then PlainError("Invalid value for \"end\"")
      else ParseError(message, nodeOrStart.start, end.value)
    else
      ParseError(message, nodeOrStart.node.startPosition, nodeOrStart.node.endPosition)
  }

  /** The error the devicetree decoder raises at a syntax node. */
  function NodeError(node: SyntaxNode, message: string): (r: Error)
    ensures r.ParseError? && r.message == message
    ensures r.startPosition == node.startPosition && r.endPosition == node.endPosition
  {
    NewParseError(message, AtNode(node), None)
  }
}
