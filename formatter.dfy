/** The devicetree text formatter of src/formatter/: the closed set of
    output items (`Formattable`) and how each renders. */
module Formatter {
  import opened Wrappers
  import opened JsString
  import opened Utility
  import opened Types

  /** `getIndent(indentSize)`: `indentSize` spaces, four when absent. */
  function GetIndent(indentSize: Option<nat>): (r: string)
    ensures |r| == indentSize.GetOr(4)
    ensures forall i :: 0 <= i < |r| ==> r[i] == ' '
  {
    RepeatSpaces(indentSize.GetOr(4));
    Repeat(" ", indentSize.GetOr(4))
  }

  lemma GetIndentDefaults()
    ensures GetIndent(None) == "    "
    ensures GetIndent(Some(0)) == ""
  {
    assert |GetIndent(None)| == 4;
  }

  /** What a devicetree node can hold. A `Node` keeps its children in
      order; `nodeLabel` is `''` when the node has no label. */
  datatype Formattable =
    | StringProperty(name: string, value: string)
    | BooleanProperty(name: string)
    | PhandleProperty(name: string, target: string)
    | ArrayProperty(name: string, values: seq<int>, numColumns: int)
    | KeyAttributesProperty(keys: seq<KeyAttributes>)
    | Spacer
    | Node(name: string, nodeLabel: string, children: seq<Formattable>)

  // ---------------------------------------------------------------------
  // Single-line properties.

  /** `StringProperty.toString`: `name = "value";`, the value verbatim. */
  function StringPropertyText(name: string, value: string): (r: string)
    ensures |r| == |name| + |value| + 6
    ensures r[..|name|] == name && r[|name|..|name| + 4] == " = \""
    ensures r[|name| + 4..|r| - 2] == value && r[|r| - 2..] == "\";"
  {
    name + " = \"" + value + "\";"
  }

  /** `BooleanProperty.toString`: the name and a semicolon, nothing else. */
  function BooleanPropertyText(name: string): (r: string)
    ensures |r| == |name| + 1 && r[..|name|] == name && r[|name|] == ';'
    ensures '=' !in name ==> '=' !in r
  {
    name + ";"
  }

  /** `PhandleProperty.toString`: `name = <&label>;`. */
  function PhandlePropertyText(name: string, target: string): (r: string)
    ensures |r| == |name| + |target| + 7
    ensures r[..|name|] == name && r[|name|..|name| + 5] == " = <&"
    ensures r[|name| + 5..|r| - 2] == target && r[|r| - 2..] == ">;"
  {
    name + " = <&" + target + ">;"
  }

  /** Two string properties with the same name print alike only when their
      values are equal: the text gives the value back. */
  lemma StringPropertyInjective(name: string, a: string, b: string)
    requires StringPropertyText(name, a) == StringPropertyText(name, b)
    ensures a == b
  {
    var t := StringPropertyText(name, a);
    assert a == t[|name| + 4..|t| - 2];
  }

  /** The same for phandle properties and their labels. */
  lemma PhandlePropertyInjective(name: string, a: string, b: string)
    requires PhandlePropertyText(name, a) == PhandlePropertyText(name, b)
    ensures a == b
  {
    var t := PhandlePropertyText(name, a);
    assert a == t[|name| + 5..|t| - 2];
  }

  // ---------------------------------------------------------------------
  // Array properties.

  /** The `dtnum` texts of a row, each padded to `digits`. */
  function NumberTexts(row: seq<int>, digits: int): (r: seq<string>)
    ensures |r| == |row|
    ensures forall i :: 0 <= i < |row| ==> r[i] == Dtnum(row[i], digits)
  {
    seq(|row|, i requires 0 <= i < |row| => Dtnum(row[i], digits))
  }

  /** `formatRow`: the numbers between angle brackets, separated by single
      spaces. */
  function FormatRow(row: seq<int>, digits: int): (r: string)
    ensures |r| >= 2 && r[0] == '<' && r[|r| - 1] == '>'
    ensures r[1..|r| - 1] == Join(NumberTexts(row, digits), " ")
  {
    "<" + Join(NumberTexts(row, digits), " ") + ">"
  }

  function Pow10(d: nat): (r: nat)
    ensures r >= 1
  {
    if d == 0 then 1 else 10 * Pow10(d - 1)
  }

  /** `Math.ceil(Math.log10(m))` for a whole number `m >= 1`: the fewest
      decimal digits `d` with `10^d >= m`. */
  function MaxDigits(m: int): (d: nat)
    requires m >= 1
    ensures Pow10(d) >= m
    ensures d == 0 || Pow10(d - 1) < m
    decreases m
  {
    if m <= 1 then 0 else 1 + MaxDigits((m + 9) / 10)
  }

  lemma MaxDigitsExamples()
    ensures MaxDigits(1) == 0 && MaxDigits(9) == 1 && MaxDigits(10) == 1
    ensures MaxDigits(11) == 2 && MaxDigits(100) == 2 && MaxDigits(101) == 3
  {
    assert MaxDigits(2) == 1;
    assert MaxDigits(11) == 1 + MaxDigits(2);
    assert MaxDigits(101) == 1 + MaxDigits(11);
    assert MaxDigits(100) == 1 + MaxDigits(10);
  }

  /** `Math.max(...values)` of a non-empty list. */
  function Maximum(values: seq<int>): (m: int)
    requires |values| > 0
    ensures forall i :: 0 <= i < |values| ==> values[i] <= m
    ensures exists i :: 0 <= i < |values| && values[i] == m
  {
    if |values| == 1 then values[0]
    else
      var rest := Maximum(values[1..]);
      assert forall i :: 1 <= i < |values| ==> values[i] == values[1..][i - 1];
      if values[0] >= rest then values[0] else rest
  }

  /** The padding width of an array property: none without columns,
      otherwise `maxDigits` of the whole array. When the largest value is
      below 1, JavaScript computes -Infinity or NaN here, and `dtnum` then
      pads nothing, exactly as with width 0. */
  function Digits(values: seq<int>, numColumns: int): (d: nat)
    ensures numColumns == 0 ==> d == 0
    ensures numColumns != 0 && |values| > 0 && Maximum(values) >= 1 ==>
      Pow10(d) >= Maximum(values) && (d == 0 || Pow10(d - 1) < Maximum(values))
  {
    if numColumns == 0 then 0
    else if |values| > 0 && Maximum(values) >= 1 then MaxDigits(Maximum(values))
    else 0
  }

  /** The rows of a multi-line array property. */
  function RowTexts(rows: seq<seq<int>>, digits: int): (r: seq<string>)
    ensures |r| == |rows|
    ensures forall i :: 0 <= i < |rows| ==> r[i] == FormatRow(rows[i], digits)
  {
    seq(|rows|, i requires 0 <= i < |rows| => FormatRow(rows[i], digits))
  }

  /** `ArrayProperty.toString(indentSize)`: one line when the values fit in
      `numColumns`; otherwise the name alone, then the rows of `numColumns`
      values, the first after `= ` and the others after `, `, then `;`. */
  function ArrayText(name: string, values: seq<int>, numColumns: int, indentSize: Option<nat>): string
  {
    var prefix := GetIndent(indentSize);
    var digits := Digits(values, numColumns);
    if |values| <= numColumns then name + " = " + FormatRow(values, digits) + ";"
    else
      var rows := ChunksOf(values, numColumns);
      name + "\n" + prefix + "= " + Join(RowTexts(rows, digits), "\n" + prefix + ", ") + "\n" + prefix + ";"
  }

  /** The shape shared by the multi-line array and key properties. */
  function Block(head: string, items: seq<string>, prefix: string): string
  {
    head + "\n" + prefix + "= " + Join(items, "\n" + prefix + ", ") + "\n" + prefix + ";"
  }

  /** The item lines of a block: the first item after `= `, each other
      item after `, `, all indented. */
  function BlockRows(items: seq<string>, prefix: string): (r: seq<string>)
    ensures |r| == |items|
    ensures forall i :: 0 <= i < |items| ==> r[i] == prefix + (if i == 0 then "= " else ", ") + items[i]
  {
    seq(|items|, i requires 0 <= i < |items| => prefix + (if i == 0 then "= " else ", ") + items[i])
  }

  /** The lines of a block: the head, the item lines and the closing `;`,
      indented. */
  function BlockLines(head: string, items: seq<string>, prefix: string): (r: seq<string>)
  {
    [head] + BlockRows(items, prefix) + [prefix + ";"]
  }

  /** The item lines joined with line breaks are the text between the head
      and the closing line. */
  lemma BlockBody(items: seq<string>, prefix: string)
    requires |items| >= 1
    ensures Join(BlockRows(items, prefix), "\n") == prefix + "= " + Join(items, "\n" + prefix + ", ")
  {
    var rows := BlockRows(items, prefix);
    var p := prefix + ", ";
    JoinSep(items, "\n", p);
    var pr := PrefixRest(items, p);
    assert rows == [(prefix + "= ") + pr[0]] + pr[1..];
    JoinHeadPrefix(prefix + "= ", pr, "\n");
    assert "\n" + prefix + ", " == "\n" + p;
  }

  /** The block is its lines joined with line breaks. */
  lemma BlockJoin(head: string, items: seq<string>, prefix: string)
    requires |items| >= 1
    ensures Join(BlockLines(head, items, prefix), "\n") == Block(head, items, prefix)
  {
    var rows := BlockRows(items, prefix);
    BlockBody(items, prefix);
    JoinCons(head, rows, "\n");
    JoinSnoc([head] + rows, prefix + ";", "\n");
  }

  /** `Block` splits into its lines when no piece holds a line break. */
  lemma BlockSplits(head: string, items: seq<string>, prefix: string)
    requires |items| >= 1
    requires '\n' !in head && '\n' !in prefix
    requires forall i :: 0 <= i < |items| ==> '\n' !in items[i]
    ensures Split(Block(head, items, prefix), '\n') == BlockLines(head, items, prefix)
  {
    var lines := BlockLines(head, items, prefix);
    BlockJoin(head, items, prefix);
    forall i | 0 <= i < |lines| ensures '\n' !in lines[i] {
      if 0 < i < |lines| - 1 {
        assert lines[i] == BlockRows(items, prefix)[i - 1];
      }
    }
    SplitJoin(lines, '\n');
  }

  /** A row holds no line break: only digits, signs, parentheses, spaces and
      angle brackets. */
  lemma RowNoNewline(row: seq<int>, digits: int)
    ensures '\n' !in FormatRow(row, digits)
  {
    var texts := NumberTexts(row, digits);
    var body := Join(texts, " ");
    assert '\n' !in body by {
      forall i | 0 <= i < |texts| ensures '\n' !in texts[i] {
        DtnumNoNewline(row[i], digits);
      }
      JoinNoChar(texts, " ", '\n');
    }
    BracketedNoChar(body, '\n');
  }

  lemma BracketedNoChar(body: string, c: char)
    requires c !in body && c != '<' && c != '>'
    ensures c !in "<" + body + ">"
  {
  }

  lemma DtnumNoNewline(value: int, width: int)
    ensures '\n' !in Dtnum(value, width)
  {
    DtnumChars(value, width);
  }

  /** The characters of a number's devicetree text, padding aside. */
  predicate NumberChar(c: char)
  {
    IsDigit(c) || c == '(' || c == '-' || c == ')'
  }

  /** A number's text is digits, `(`, `-` and `)`. */
  lemma DtTextChars(value: int)
    ensures var t := DtText(value); forall i :: 0 <= i < |t| ==> NumberChar(t[i])
  {
    var t := DtText(value);
    var d := NatToString(if value < 0 then -value else value);
    if value < 0 {
      assert t == "(-" + d + ")";
      forall i | 0 <= i < |t| ensures NumberChar(t[i]) {
        if 2 <= i < |t| - 1 {
          assert t[i] == d[i - 2];
        }
      }
    } else {
      assert t == d;
    }
  }

  /** `dtnum` writes digits, `(`, `-`, `)` and padding spaces only. */
  lemma DtnumChars(value: int, width: int)
    ensures var r := Dtnum(value, width); forall i :: 0 <= i < |r| ==> NumberChar(r[i]) || r[i] == ' '
  {
    var text := DtText(value);
    DtTextChars(value);
    DtnumPadding(value, width);
    var r := Dtnum(value, width);
    var pad := |r| - |text|;
    assert r[pad..] == text;
    forall i | pad <= i < |r| ensures NumberChar(r[i]) {
      assert r[i] == r[pad..][i - pad];
    }
  }

  /** An array property prints on one line when its values fit in
      `numColumns`; otherwise it prints the block of rows of `numColumns`
      values. Without columns a non-empty array gives one row in the
      block, unpadded; an empty one gives `name = <>;`. */
  lemma ArrayTextForms(name: string, values: seq<int>, numColumns: int, indentSize: Option<nat>)
    ensures |values| <= numColumns ==>
      ArrayText(name, values, numColumns, indentSize) == name + " = " + FormatRow(values, Digits(values, numColumns)) + ";"
    ensures |values| > numColumns ==>
      ArrayText(name, values, numColumns, indentSize) ==
      Block(name, RowTexts(ChunksOf(values, numColumns), Digits(values, numColumns)), GetIndent(indentSize))
    ensures numColumns == 0 && |values| > 0 ==>
      ArrayText(name, values, numColumns, indentSize) == Block(name, [FormatRow(values, 0)], GetIndent(indentSize))
    ensures numColumns == 0 && |values| == 0 ==> ArrayText(name, values, numColumns, indentSize) == name + " = <>;"
  {
    if numColumns == 0 && |values| > 0 {
      ChunksProperties(values, 0);
      assert RowTexts(ChunksOf(values, 0), 0) == [FormatRow(values, 0)];
    }
    if numColumns == 0 && |values| == 0 {
      assert FormatRow(values, 0) == "<>";
    }
  }

  /** The multi-line form, line by line: the name, then one line per row of
      at most `numColumns` values, then the closing `;`. */
  lemma ArrayTextLines(name: string, values: seq<int>, numColumns: int, indentSize: Option<nat>)
    requires |values| > numColumns && '\n' !in name
    ensures var rows := ChunksOf(values, numColumns);
      |rows| >= 1 &&
      Split(ArrayText(name, values, numColumns, indentSize), '\n') ==
      BlockLines(name, RowTexts(rows, Digits(values, numColumns)), GetIndent(indentSize))
  {
    ChunksProperties(values, numColumns);
    var rows := ChunksOf(values, numColumns);
    var digits := Digits(values, numColumns);
    var texts := RowTexts(rows, digits);
    forall i | 0 <= i < |texts| ensures '\n' !in texts[i] {
      RowNoNewline(rows[i], digits);
    }
    var prefix := GetIndent(indentSize);
    assert '\n' !in prefix by {
      forall k | 0 <= k < |prefix| ensures prefix[k] != '\n' { }
    }
    ArrayTextForms(name, values, numColumns, indentSize);
    BlockSplits(name, texts, prefix);
  }

  /** Reads back an unpadded row: the values between the brackets. */
  function ReadNumbers(texts: seq<string>): Option<seq<int>>
  {
    if |texts| == 0 then Some([])
    else
      var head := ReadDtText(texts[0]);
      var tail := ReadNumbers(texts[1..]);
      if head.Some? && tail.Some? then Some([head.value] + tail.value) else None
  }

  /** An unpadded non-empty row gives its values back: split at the spaces
      between the brackets and read each piece. */
  lemma RowRoundTrip(row: seq<int>)
    requires |row| > 0
    ensures var t := FormatRow(row, 0);
      ReadNumbers(Split(t[1..|t| - 1], ' ')) == Some(row)
  {
    var texts := NumberTexts(row, 0);
    forall i | 0 <= i < |texts| ensures ' ' !in texts[i] {
      NoSpaceInDtText(row[i]);
    }
    SplitJoin(texts, ' ');
    ReadAll(row);
  }

  lemma NoSpaceInDtText(value: int)
    ensures ' ' !in DtText(value)
  {
    DtTextChars(value);
  }

  lemma {:induction false} ReadAll(row: seq<int>)
    ensures ReadNumbers(NumberTexts(row, 0)) == Some(row)
    decreases |row|
  {
    if |row| > 0 {
      var texts := NumberTexts(row, 0);
      assert ReadNumbers(texts[1..]) == Some(row[1..]) by {
        assert texts[1..] == NumberTexts(row[1..], 0);
        ReadAll(row[1..]);
      }
      assert ReadDtText(texts[0]) == Some(row[0]) by {
        assert texts[0] == DtText(row[0]);
        DtTextRoundTrip(row[0]);
      }
      assert [row[0]] + row[1..] == row;
    }
  }

  // ---------------------------------------------------------------------
  // Key attributes.

  /** The column widths of `keystr`. */
  const KEY_WIDTHS: seq<int> := [3, 3, 4, 4, 7, 6, 6]

  /** The literal pieces of the key template, around its seven fields. */
  const KEY_PIECES: seq<string> := ["<&key_physical_attrs ", " ", " ", " ", " ", " ", " ", ">"]

  /** One field: the `dtnum` text left-padded to its column. The measures
      are already whole hundredths, so `Math.round(v * 100)` is the stored
      value itself. */
  function KeyField(value: int, width: int): string
  {
    PadStart(Dtnum(value), width)
  }

  /** A field ends with the number's `dtnum` text, after as many spaces as
      its column needs, and is never cut short. */
  lemma KeyFieldFacts(value: int, width: int)
    ensures var r := KeyField(value, width);
      && |r| == (if |DtText(value)| < width then width else |DtText(value)|)
      && r[|r| - |DtText(value)|..] == DtText(value)
      && forall i :: 0 <= i < |r| - |DtText(value)| ==> r[i] == ' '
  {
    var text := DtText(value);
    assert Dtnum(value) == text;
    if |text| < width {
      RepeatSpaces(width - |text|);
      assert KeyField(value, width) == Repeat(" ", width - |text|) + text;
    }
  }

  /** A field is one line. */
  lemma KeyFieldNoNewline(value: int, width: int)
    ensures '\n' !in KeyField(value, width)
  {
    var text := DtText(value);
    assert Dtnum(value) == text;
    DtTextChars(value);
    assert '\n' !in text;
    if |text| < width {
      RepeatNoChar(" ", width - |text|, '\n');
      assert KeyField(value, width) == Repeat(" ", width - |text|) + text;
    }
  }

  /** Each measure formatted for its column. */
  function KeyFields(args: seq<int>): (r: seq<string>)
    requires |args| <= |KEY_WIDTHS|
    ensures |r| == |args|
    ensures forall i :: 0 <= i < |args| ==> r[i] == KeyField(args[i], KEY_WIDTHS[i])
  {
    seq(|args|, i requires 0 <= i < |args| => KeyField(args[i], KEY_WIDTHS[i]))
  }

  /** What `keystr` has built after its first `n` fields: the pieces with
      the formatted fields in between. */
  function KeyStrOf(pieces: seq<string>, fields: seq<string>, n: nat): string
    requires |pieces| == |fields| + 1 && n <= |fields|
  {
    if n == 0 then pieces[0]
    else KeyStrOf(pieces, fields, n - 1) + fields[n - 1] + pieces[n]
  }

  /** With one-line pieces and fields, `keystr` gives one line. */
  lemma {:induction false} KeyStrNoNewline(pieces: seq<string>, fields: seq<string>, n: nat)
    requires |pieces| == |fields| + 1 && n <= |fields|
    requires forall i :: 0 <= i < |pieces| ==> '\n' !in pieces[i]
    requires forall i :: 0 <= i < |fields| ==> '\n' !in fields[i]
    ensures '\n' !in KeyStrOf(pieces, fields, n)
    decreases n
  {
    if n > 0 {
      KeyStrNoNewline(pieces, fields, n - 1);
      assert '\n' !in fields[n - 1] && '\n' !in pieces[n];
    }
  }

  /** `keystr`: the template's pieces with each field, padded to its
      column, in between. */
  method KeyStr(pieces: seq<string>, args: seq<int>) returns (r: string)
    requires |pieces| == |args| + 1 && |args| <= |KEY_WIDTHS|
    ensures r == KeyStrOf(pieces, KeyFields(args), |args|)
  {
    r := pieces[0];
    for i := 0 to |args|
      invariant r == KeyStrOf(pieces, KeyFields(args), i)
    {
      var padded := KeyField(args[i], KEY_WIDTHS[i]);
      r := r + padded + pieces[i + 1];
    }
  }

  /** The seven measures of a key, in the template's order. */
  function KeyArgs(k: KeyAttributes): seq<int>
  {
    [k.width, k.height, k.x, k.y, k.rotation, k.rx, k.ry]
  }

  /** One item of the `keys` property. */
  function KeyItem(k: KeyAttributes): string
  {
    KeyStrOf(KEY_PIECES, KeyFields(KeyArgs(k)), 7)
  }

  /** Seven fields between eight pieces, written out. */
  lemma KeyStrSeven(p: seq<string>, f: seq<string>)
    requires |p| == 8 && |f| == 7
    ensures KeyStrOf(p, f, 7) == p[0] + f[0] + p[1] + f[1] + p[2] + f[2] + p[3] + f[3] + p[4] + f[4] + p[5] + f[5] + p[6] + f[6] + p[7]
  {
    assert KeyStrOf(p, f, 1) == p[0] + f[0] + p[1];
    assert KeyStrOf(p, f, 2) == p[0] + f[0] + p[1] + f[1] + p[2];
    assert KeyStrOf(p, f, 3) == p[0] + f[0] + p[1] + f[1] + p[2] + f[2] + p[3];
    assert KeyStrOf(p, f, 4) == p[0] + f[0] + p[1] + f[1] + p[2] + f[2] + p[3] + f[3] + p[4];
    assert KeyStrOf(p, f, 5) == p[0] + f[0] + p[1] + f[1] + p[2] + f[2] + p[3] + f[3] + p[4] + f[4] + p[5];
    assert KeyStrOf(p, f, 6) == p[0] + f[0] + p[1] + f[1] + p[2] + f[2] + p[3] + f[3] + p[4] + f[4] + p[5] + f[5] + p[6];
  }

  /** An item is `<&key_physical_attrs W H X Y ROT RX RY>`, the fields in
      that order, padded to 3, 3, 4, 4, 7, 6 and 6 columns. */
  lemma KeyItemFields(k: KeyAttributes)
    ensures KeyItem(k) == "<&key_physical_attrs " + KeyField(k.width, 3) + " " + KeyField(k.height, 3)
      + " " + KeyField(k.x, 4) + " " + KeyField(k.y, 4) + " " + KeyField(k.rotation, 7)
      + " " + KeyField(k.rx, 6) + " " + KeyField(k.ry, 6) + ">"
  {
    var a := KeyArgs(k);
    var f := KeyFields(a);
    var p := KEY_PIECES;
    KeyStrSeven(p, f);
    assert p[0] == "<&key_physical_attrs " && p[7] == ">";
    assert p[1] == " " && p[2] == " " && p[3] == " " && p[4] == " " && p[5] == " " && p[6] == " ";
    assert f[0] == KeyField(k.width, 3) && f[1] == KeyField(k.height, 3);
    assert f[2] == KeyField(k.x, 4) && f[3] == KeyField(k.y, 4);
    assert f[4] == KeyField(k.rotation, 7);
    assert f[5] == KeyField(k.rx, 6) && f[6] == KeyField(k.ry, 6);
  }

  /** The header line of the `keys` property. */
  const KEYS_HEADER: string :=
    "keys  //" + "                     w" + "   h" + "    x" + "    y" + "     rot" + "     rx" + "     ry"

  function KeyItems(keys: seq<KeyAttributes>): (r: seq<string>)
    ensures |r| == |keys|
    ensures forall i :: 0 <= i < |keys| ==> r[i] == KeyItem(keys[i])
  {
    seq(|keys|, i requires 0 <= i < |keys| => KeyItem(keys[i]))
  }

  /** `KeyAttributesProperty.toString`. */
  function KeyAttributesText(keys: seq<KeyAttributes>): string
  {
    KEYS_HEADER + "\n    = " + Join(KeyItems(keys), "\n    , ") + "\n    ;"
  }

  /** A key item is one line. */
  lemma KeyItemNoNewline(k: KeyAttributes)
    ensures '\n' !in KeyItem(k)
  {
    PiecesOneLine();
    var f := KeyFields(KeyArgs(k));
    forall i | 0 <= i < 7 ensures '\n' !in f[i] {
      KeyFieldNoNewline(KeyArgs(k)[i], KEY_WIDTHS[i]);
    }
    KeyStrNoNewline(KEY_PIECES, f, 7);
  }

  lemma PiecesOneLine()
    ensures forall i :: 0 <= i < |KEY_PIECES| ==> '\n' !in KEY_PIECES[i]
  {
    var first := KEY_PIECES[0];
    assert forall j :: 0 <= j < |first| ==> first[j] != '\n';
  }

  lemma HeaderOneLine()
    ensures '\n' !in KEYS_HEADER
  {
    assert '\n' !in "keys  //" && '\n' !in "                     w";
    assert '\n' !in "   h" && '\n' !in "    x" && '\n' !in "    y";
    assert '\n' !in "     rot" && '\n' !in "     rx" && '\n' !in "     ry";
  }

  /** The `keys` property line by line: the header, the first key after
      `    = `, every other key after `    , `, in key order, then `    ;`. */
  lemma KeyAttributesLines(keys: seq<KeyAttributes>)
    requires |keys| > 0
    ensures Split(KeyAttributesText(keys), '\n') == BlockLines(KEYS_HEADER, KeyItems(keys), "    ")
  {
    var items := KeyItems(keys);
    assert forall i :: 0 <= i < |items| ==> '\n' !in items[i] by {
      forall i | 0 <= i < |items| ensures '\n' !in items[i] {
        KeyItemNoNewline(keys[i]);
      }
    }
    assert '\n' !in KEYS_HEADER && '\n' !in "    " by {
      HeaderOneLine();
    }
    BlockFourSpaces(KEYS_HEADER, items);
    BlockSplits(KEYS_HEADER, items, "    ");
  }

  /** A block indented by four spaces, written out. */
  lemma BlockFourSpaces(head: string, items: seq<string>)
    ensures Block(head, items, "    ") == head + "\n    = " + Join(items, "\n    , ") + "\n    ;"
  {
    assert "\n    = " == "\n" + "    " + "= ";
    assert "\n    , " == "\n" + "    " + ", ";
    assert "\n    ;" == "\n" + "    " + ";";
  }

  // ---------------------------------------------------------------------
  // Nodes.

  /** `label: name` when the label is non-empty, else the name. */
  function Identifier(name: string, nodeLabel: string): string
  {
    if nodeLabel != "" then nodeLabel + ": " + name else name
  }

  /** `toString()` of every item, called without an indent size. */
  function ToString(f: Formattable): string
    decreases f
  {
    match f
    case StringProperty(name, value) => StringPropertyText(name, value)
    case BooleanProperty(name) => BooleanPropertyText(name)
    case PhandleProperty(name, target) => PhandlePropertyText(name, target)
    case ArrayProperty(name, values, numColumns) => ArrayText(name, values, numColumns, None)
    case KeyAttributesProperty(keys) => KeyAttributesText(keys)
    case Spacer => ""
    case Node(name, nodeLabel, children) =>
      Identifier(name, nodeLabel) + " {\n" + Indent(Join(ChildTexts(children), "\n")) + "\n};"
  }

  /** The texts of a node's children, one per child. */
  function ChildTexts(children: seq<Formattable>): (r: seq<string>)
    ensures |r| == |children|
    ensures forall i :: 0 <= i < |children| ==> r[i] == ToString(children[i])
    decreases children
  {
    if |children| == 0 then [] else [ToString(children[0])] + ChildTexts(children[1..])
  }

  /** A node with no children prints an empty line between its braces. */
  lemma EmptyNodeText(name: string, nodeLabel: string)
    ensures ToString(Node(name, nodeLabel, [])) == Identifier(name, nodeLabel) + " {\n\n};"
  {
    assert Split("", '\n') == [""];
    assert Indent("") == "";
  }

  /** A node whose children each print on one line prints line by line:
      the identifier and `{`, then each child indented by four spaces (a
      spacer, or any child that prints nothing, as an empty unindented
      line), then `};`. */
  lemma NodeLines(name: string, nodeLabel: string, children: seq<Formattable>)
    requires |children| > 0
    requires '\n' !in Identifier(name, nodeLabel)
    requires forall i :: 0 <= i < |children| ==> '\n' !in ToString(children[i])
    ensures Split(ToString(Node(name, nodeLabel, children)), '\n') ==
      [Identifier(name, nodeLabel) + " {"] + PrefixLines(ChildTexts(children), "    ") + ["};"]
  {
    var lines := [Identifier(name, nodeLabel) + " {"] + PrefixLines(ChildTexts(children), "    ") + ["};"];
    assert ToString(Node(name, nodeLabel, children)) == Join(lines, "\n") by {
      NodeTextJoin(name, nodeLabel, children);
    }
    assert Split(Join(lines, "\n"), '\n') == lines by {
      ChildTextsOneLine(children);
      BodySplits(Identifier(name, nodeLabel), ChildTexts(children));
    }
  }

  lemma ChildTextsOneLine(children: seq<Formattable>)
    requires forall i :: 0 <= i < |children| ==> '\n' !in ToString(children[i])
    ensures forall i :: 0 <= i < |children| ==> '\n' !in ChildTexts(children)[i]
  {
  }

  /** The lines of a node's text split apart again. */
  lemma BodySplits(id: string, texts: seq<string>)
    requires '\n' !in id
    requires forall i :: 0 <= i < |texts| ==> '\n' !in texts[i]
    ensures var lines := [id + " {"] + PrefixLines(texts, "    ") + ["};"];
      Split(Join(lines, "\n"), '\n') == lines
  {
    var mapped := PrefixLines(texts, "    ");
    var lines := [id + " {"] + mapped + ["};"];
    forall i | 0 <= i < |lines| ensures '\n' !in lines[i] {
      if 0 < i < |lines| - 1 {
        assert lines[i] == mapped[i - 1];
      }
    }
    SplitJoin(lines, '\n');
  }

  /** A node's text is its lines joined: the identifier line, the indented
      children, the closing line. */
  lemma NodeTextJoin(name: string, nodeLabel: string, children: seq<Formattable>)
    requires |children| > 0
    requires forall i :: 0 <= i < |children| ==> '\n' !in ToString(children[i])
    ensures ToString(Node(name, nodeLabel, children))
      == Join([Identifier(name, nodeLabel) + " {"] + PrefixLines(ChildTexts(children), "    ") + ["};"], "\n")
  {
    ChildTextsOneLine(children);
    BodyLines(Identifier(name, nodeLabel), ChildTexts(children));
  }

  /** The text of a node with these child texts, as lines. */
  lemma BodyLines(id: string, texts: seq<string>)
    requires |texts| > 0
    requires forall i :: 0 <= i < |texts| ==> '\n' !in texts[i]
    ensures id + " {\n" + Indent(Join(texts, "\n")) + "\n};"
      == Join([id + " {"] + PrefixLines(texts, "    ") + ["};"], "\n")
  {
    var mapped := PrefixLines(texts, "    ");
    IndentJoined(texts);
    JoinFramed(id + " {", mapped);
    FramedText(id, Join(mapped, "\n"));
  }

  /** Indenting one-line texts joined with line breaks indents each. */
  lemma IndentJoined(texts: seq<string>)
    requires |texts| > 0
    requires forall i :: 0 <= i < |texts| ==> '\n' !in texts[i]
    ensures Indent(Join(texts, "\n")) == Join(PrefixLines(texts, "    "), "\n")
  {
    SplitJoin(texts, '\n');
    assert Repeat("    ", 1) == "    ";
  }

  /** Lines between a first and a last one, joined. */
  lemma JoinFramed(head: string, lines: seq<string>)
    requires |lines| > 0
    ensures Join([head] + lines + ["};"], "\n") == head + "\n" + Join(lines, "\n") + "\n" + "};"
  {
    JoinCons(head, lines, "\n");
    JoinSnoc([head] + lines, "};", "\n");
  }

  /** The braces around a node's body, regrouped. */
  lemma FramedText(id: string, body: string)
    ensures id + " {\n" + body + "\n};" == id + " {" + "\n" + body + "\n" + "};"
  {
    assert " {\n" == " {" + "\n";
    assert "\n};" == "\n" + "};";
  }

  /** `findChild(children, name)`: the index of the first `Node` child with
      that name; properties and spacers never match. */
  function FindChild(children: seq<Formattable>, name: string): (r: Option<nat>)
    ensures r.Some? ==> r.value < |children| && children[r.value].Node? && children[r.value].name == name
    ensures r.Some? ==> forall j :: 0 <= j < r.value ==> !(children[j].Node? && children[j].name == name)
    ensures r.None? ==> forall j :: 0 <= j < |children| ==> !(children[j].Node? && children[j].name == name)
  {
    if |children| == 0 then None
    else if children[0].Node? && children[0].name == name then Some(0)
    else
      match FindChild(children[1..], name)
      case None => None
      case Some(k) => Some(k + 1)
  }

  /** `addChild`: a `Node` child that is not the first child gets a spacer
      in front of it; every child goes last. */
  function AddChild(node: Formattable, child: Formattable): (r: Formattable)
    requires node.Node?
  {
    var spacer := if child.Node? && |node.children| > 0 then [Spacer] else [];
    node.(children := node.children + spacer + [child])
  }

  /** `addSpacer`. */
  function AddSpacer(node: Formattable): (r: Formattable)
    requires node.Node?
    ensures r.Node? && r.name == node.name && r.nodeLabel == node.nodeLabel
    ensures r.children == node.children + [Spacer]
  {
    node.(children := node.children + [Spacer])
  }

  /** `addChild` keeps the node's name, label and children and appends the
      new child last; the children grow by two exactly when a node is added
      to a node that already had children, the extra one a spacer just in
      front of it, and by one otherwise. */
  lemma AddChildFacts(node: Formattable, child: Formattable)
    requires node.Node?
    ensures var r := AddChild(node, child);
      && r.Node? && r.name == node.name && r.nodeLabel == node.nodeLabel
      && r.children[..|node.children|] == node.children
      && r.children[|r.children| - 1] == child
      && (child.Node? && |node.children| > 0 <==> |r.children| == |node.children| + 2)
      && (|r.children| == |node.children| + 2 ==> r.children[|r.children| - 2] == Spacer)
      && (|r.children| == |node.children| + 2 || |r.children| == |node.children| + 1)
  {
  }
}
