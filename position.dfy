/** Error positions of src/parser/position.ts: the table of line breaks,
    the mapping from a text index to a line and column, and how positions and
    ranges print. */
module Positions {
  import opened Wrappers
  import opened JsString
  import opened Syntax

  /** A line and a column. */
  datatype Position = Position(line: int, column: int)

  /** A start and an end position. */
  datatype Range = Range(start: Position, end: Position)

  /** `Position.toString`: `line:column`. */
  function PositionText(p: Position): string
  {
    IntToString(p.line) + ":" + IntToString(p.column)
  }

  /** `Range.toString`. */
  function RangeText(r: Range): string
  {
    if r.start.line == r.end.line then
      if r.start.column == r.end.column - 1 then PositionText(r.start)
      else IntToString(r.start.line) + ":" + IntToString(r.start.column) + "-" + IntToString(r.end.column)
    else PositionText(r.start) + "-" + PositionText(r.end)
  }

  lemma DigitsHaveNo(n: nat, c: char)
    requires !IsDigit(c)
    ensures c !in NatToString(n)
  {
    var s := NatToString(n);
    forall k | 0 <= k < |s|
      ensures s[k] != c
    {
      assert IsDigit(s[k]);
    }
  }

  /** A position prints as its line and its column, separated by the one
      `:` of the text. */
  lemma PositionTextParts(p: Position)
    requires p.line >= 0 && p.column >= 0
    ensures Split(PositionText(p), ':') == [NatToString(p.line), NatToString(p.column)]
  {
    DigitsHaveNo(p.line, ':');
    DigitsHaveNo(p.column, ':');
    SplitJoin([NatToString(p.line), NatToString(p.column)], ':');
  }

  /** For non-negative positions the range text reads back unambiguously at
      its `-`: a one-character range prints as its start alone (no `-`), a
      range within one line as the start and the end column, any other range
      as the start and the end. */
  lemma RangeTextParts(r: Range)
    requires r.start.line >= 0 && r.start.column >= 0 && r.end.line >= 0 && r.end.column >= 0
    ensures r.start.line == r.end.line && r.start.column == r.end.column - 1 ==>
      RangeText(r) == PositionText(r.start) && Split(RangeText(r), '-') == [PositionText(r.start)]
    ensures r.start.line == r.end.line && r.start.column != r.end.column - 1 ==>
      Split(RangeText(r), '-') == [PositionText(r.start), NatToString(r.end.column)]
    ensures r.start.line != r.end.line ==>
      Split(RangeText(r), '-') == [PositionText(r.start), PositionText(r.end)]
  {
    DigitsHaveNo(r.start.line, '-');
    DigitsHaveNo(r.start.column, '-');
    DigitsHaveNo(r.end.line, '-');
    DigitsHaveNo(r.end.column, '-');
    var a := PositionText(r.start);
    var b := PositionText(r.end);
    assert a == NatToString(r.start.line) + ":" + NatToString(r.start.column);
    assert b == NatToString(r.end.line) + ":" + NatToString(r.end.column);
    assert '-' !in a && '-' !in b;
    if r.start.line == r.end.line {
      if r.start.column == r.end.column - 1 {
        SplitNoSeparator(a, '-');
      } else {
        assert RangeText(r) == a + "-" + NatToString(r.end.column);
        SplitJoin([a, NatToString(r.end.column)], '-');
      }
    } else {
      assert RangeText(r) == a + "-" + b;
      SplitJoin([a, b], '-');
    }
  }

  /** `text.indexOf(c, from)`: the first index at or after `from` holding
      `c`, or -1. */
  function IndexOf(text: string, c: char, from: nat): (r: int)
    ensures r == -1 || (from <= r < |text| && text[r] == c)
    ensures r == -1 ==> forall k :: from <= k < |text| ==> text[k] != c
    ensures r != -1 ==> forall k :: from <= k < r ==> text[k] != c
    decreases |text| - from
  {
    if from >= |text| then -1
    else if text[from] == c then from
    else IndexOf(text, c, from + 1)
  }

  /** The indices of `\n` at or after `from`, in order. */
  function BreaksFrom(text: string, from: nat): seq<int>
    decreases |text| - from
  {
    if from >= |text| then []
    else if text[from] == '\n' then [from as int] + BreaksFrom(text, from + 1)
    else BreaksFrom(text, from + 1)
  }

  /** The line-break table of a text. */
  function LineBreaks(text: string): seq<int>
  {
    BreaksFrom(text, 0)
  }

  /** Skipping to the next `\n` skips no break. */
  lemma {:induction false} BreaksFromIndexOf(text: string, from: nat)
    ensures var i := IndexOf(text, '\n', from);
      && (i == -1 ==> BreaksFrom(text, from) == [])
      && (i != -1 ==> BreaksFrom(text, from) == [i] + BreaksFrom(text, i + 1))
    decreases |text| - from
  {
    if from < |text| && text[from] != '\n' {
      BreaksFromIndexOf(text, from + 1);
    }
  }

  /** `getLineBreakIndices`: repeated `indexOf("\n", index)`, pushing each
      hit and searching again just after it. */
  method GetLineBreakIndices(text: string) returns (breaks: seq<int>)
    ensures breaks == LineBreaks(text)
  {
    breaks := [];
    var index := IndexOf(text, '\n', 0);
    BreaksFromIndexOf(text, 0);
    while index >= 0
      invariant index == -1 || 0 <= index < |text|
      invariant index == -1 ==> breaks == LineBreaks(text)
      invariant index != -1 ==> breaks + [index] + BreaksFrom(text, index + 1) == LineBreaks(text)
      decreases if index < 0 then 0 else |text| + 1 - index
    {
      breaks := breaks + [index];
      var next := IndexOf(text, '\n', index + 1);
      BreaksFromIndexOf(text, index + 1);
      index := next;
    }
  }

  predicate StrictlyIncreasing(s: seq<int>)
  {
    forall i, j :: 0 <= i < j < |s| ==> s[i] < s[j]
  }

  /** The table holds exactly the indices of `\n` at or after `from`, in
      strictly increasing order. */
  lemma {:induction false} BreaksFromFacts(text: string, from: nat)
    ensures var b := BreaksFrom(text, from);
      && StrictlyIncreasing(b)
      && (forall i :: 0 <= i < |b| ==> from <= b[i] < |text| && text[b[i]] == '\n')
      && (forall k :: from <= k < |text| && text[k] == '\n' ==> k in b)
    decreases |text| - from
  {
    if from < |text| {
      BreaksFromFacts(text, from + 1);
    }
  }

  /** `getLineBreakIndices` returns, in strictly increasing order, exactly
      the indices of `\n` in the text. */
  lemma LineBreaksFacts(text: string)
    ensures var b := LineBreaks(text);
      && StrictlyIncreasing(b)
      && (forall i :: 0 <= i < |b| ==> 0 <= b[i] < |text| && text[b[i]] == '\n')
      && (forall k :: 0 <= k < |text| && text[k] == '\n' ==> k in b)
  {
    BreaksFromFacts(text, 0);
  }

  /** `lineBreaks.findIndex((lineBreak) => index < lineBreak)`. */
  function FindLine(breaks: seq<int>, index: int): (r: int)
    ensures -1 <= r < |breaks|
    ensures r == -1 <==> forall i :: 0 <= i < |breaks| ==> !(index < breaks[i])
    ensures r >= 0 ==> index < breaks[r] && forall i :: 0 <= i < r ==> !(index < breaks[i])
  {
    if |breaks| == 0 then -1
    else if index < breaks[0] then 0
    else
      var r := FindLine(breaks[1..], index);
      assert forall i :: 1 <= i < |breaks| ==> breaks[i] == breaks[1..][i - 1];
      if r == -1 then -1 else r + 1
  }

  /** `indexToPosition(index, lineBreaks)`. */
  function IndexToPosition(index: int, breaks: seq<int>): Position
  {
    if |breaks| > 0 && index >= breaks[|breaks| - 1] then Position(|breaks|, 0)
    else
      var line := FindLine(breaks, index);
      if line < 0 then Position(0, 0)
      else
        var lineStart := if line > 0 then breaks[line - 1] else 0;
        Position(line, index - lineStart)
  }

  /** How many breaks lie at or before `index`. */
  function BreaksUpTo(breaks: seq<int>, index: int): nat
  {
    if |breaks| == 0 then 0
    else BreaksUpTo(breaks[..|breaks| - 1], index) + (if breaks[|breaks| - 1] <= index then 1 else 0)
  }

  lemma {:induction false} BreaksUpToPrefix(breaks: seq<int>, index: int, line: nat)
    requires StrictlyIncreasing(breaks)
    requires line <= |breaks|
    requires forall i :: 0 <= i < line ==> breaks[i] <= index
    requires line < |breaks| ==> index < breaks[line]
    ensures BreaksUpTo(breaks, index) == line
    decreases |breaks|
  {
    if |breaks| > line {
      var init := breaks[..|breaks| - 1];
      BreaksUpToPrefix(init, index, line);
      assert breaks[line] <= breaks[|breaks| - 1] by {
        if line < |breaks| - 1 {
        }
      }
    } else if |breaks| > 0 {
      var init := breaks[..|breaks| - 1];
      BreaksUpToPrefix(init, index, line - 1);
    }
  }

  /** For a strictly increasing table: an index at or after the last break
      is on line `number of breaks`, column 0; with no breaks every index is
      at (0, 0); otherwise the line is the number of breaks at or before the
      index and the column counts from the previous break (from the start of
      the text on line 0), so it is never negative. */
  lemma IndexToPositionFacts(index: int, breaks: seq<int>)
    requires StrictlyIncreasing(breaks)
    ensures var p := IndexToPosition(index, breaks);
      && (|breaks| == 0 ==> p == Position(0, 0))
      && (|breaks| > 0 && index >= breaks[|breaks| - 1] ==> p == Position(|breaks|, 0))
      && (|breaks| > 0 && index < breaks[|breaks| - 1] ==>
            && p.line == BreaksUpTo(breaks, index) < |breaks|
            && (p.line == 0 ==> p.column == index)
            && (p.line > 0 ==> p.column == index - breaks[p.line - 1] >= 0))
  {
    if |breaks| > 0 && index < breaks[|breaks| - 1] {
      var line := FindLine(breaks, index);
      BreaksUpToPrefix(breaks, index, line);
    }
  }

  /** `getNodeRanges`: one range per node, from one shared break table. */
  function NodeRanges(text: string, nodes: seq<SyntaxNode>): seq<Range>
  {
    var breaks := LineBreaks(text);
    seq(|nodes|, i requires 0 <= i < |nodes| =>
      Range(IndexToPosition(nodes[i].startIndex, breaks), IndexToPosition(nodes[i].endIndex, breaks)))
  }

  /** `getNodeRange`. */
  function NodeRange(text: string, node: SyntaxNode): Range
  {
    NodeRanges(text, [node])[0]
  }

  /** Each node's range depends on that node alone: ranges of a
      concatenation are the concatenated ranges, so every entry equals the
      node's own `getNodeRange`. */
  lemma NodeRangesCompose(text: string, a: seq<SyntaxNode>, b: seq<SyntaxNode>)
    ensures NodeRanges(text, a + b) == NodeRanges(text, a) + NodeRanges(text, b)
    ensures forall i :: 0 <= i < |a| ==> NodeRanges(text, a)[i] == NodeRange(text, a[i])
  {
  }
}
