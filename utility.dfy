/** Helpers of src/utility.ts: `maxValue`, `dtnum`, `indent` and `chunks`. */
module Utility {
  import opened JsString
  import opened Wrappers

  /** `maxValue(items, callback, initial)`: a left fold of `Math.max` over the
      callback's values, starting from `initial`. */
  function MaxValue<T>(items: seq<T>, callback: T -> int, initial: int): (r: int)
    ensures r >= initial
    ensures forall i :: 0 <= i < |items| ==> callback(items[i]) <= r
    ensures r == initial || exists i :: 0 <= i < |items| && r == callback(items[i])
  {
    if |items| == 0 then initial
    else
      var next := if callback(items[0]) > initial then callback(items[0]) else initial;
      var r := MaxValue(items[1..], callback, next);
      assert forall i :: 1 <= i < |items| ==> items[i] == items[1..][i - 1];
      r
  }

  /** The text `dtnum` prints before padding: a negative number in
      parentheses, as devicetree requires for negative literals. */
  function DtText(value: int): string
  {
    if value < 0 then "(" + IntToString(value) + ")" else IntToString(value)
  }

  /** `dtnum(value, width)`: the devicetree text of `value`, left-padded with
      spaces to `width` when `width` is non-zero. */
  function Dtnum(value: int, width: int := 0): (r: string)
    ensures width == 0 ==> r == DtText(value)
    ensures |r| >= |DtText(value)| && r[|r| - |DtText(value)|..] == DtText(value)
    ensures width != 0 && |DtText(value)| < width ==> |r| == width
    ensures |DtText(value)| >= width ==> r == DtText(value)
  {
    var text := DtText(value);
    if width != 0 then PadStart(text, width) else text
  }

  /** Reads back a run of decimal digits. */
  function DecimalValue(s: string): nat
    requires AllDigits(s)
  {
    if |s| == 0 then 0 else DecimalValue(s[..|s| - 1]) * 10 + (s[|s| - 1] as int - '0' as int)
  }

  /** Reads back the text that `dtnum` prints: digits, or `(-digits)`. */
  function ReadDtText(s: string): Option<int>
  {
    if |s| >= 1 && AllDigits(s) then Some(DecimalValue(s))
    else if |s| >= 4 && s[0] == '(' && s[1] == '-' && s[|s| - 1] == ')' && AllDigits(s[2..|s| - 1])
    then Some(0 - DecimalValue(s[2..|s| - 1]))
    else None
  }

  lemma {:induction false} DecimalRoundTrip(n: nat)
    ensures DecimalValue(NatToString(n)) == n
  {
    if n >= 10 {
      var s := NatToString(n);
      assert DecimalValue(s[..|s| - 1]) == n / 10 by {
        assert s[..|s| - 1] == NatToString(n / 10);
        DecimalRoundTrip(n / 10);
      }
      assert s[|s| - 1] as int - '0' as int == n % 10 by {
        assert s[|s| - 1] == Digit(n % 10);
      }
    }
  }

  /** What `dtnum` prints reads back as the same number. */
  lemma DtTextRoundTrip(value: int)
    ensures ReadDtText(DtText(value)) == Some(value)
  {
    if value < 0 {
      NegativeTextRoundTrip(-value);
    } else {
      DecimalRoundTrip(value);
    }
  }

  lemma NegativeText(n: nat)
    requires n > 0
    ensures DtText(-(n as int)) == "(-" + NatToString(n) + ")"
  {
    var digits := NatToString(n);
    assert IntToString(-(n as int)) == "-" + digits;
    assert "(" + ("-" + digits) + ")" == "(-" + digits + ")";
  }

  lemma NegativeTextRoundTrip(n: nat)
    requires n > 0
    ensures ReadDtText(DtText(-(n as int))) == Some(-(n as int))
  {
    var digits := NatToString(n);
    NegativeText(n);
    NegativeTextReads(digits);
    DecimalRoundTrip(n);
  }

  lemma NegativeTextReads(digits: string)
    requires |digits| >= 1 && AllDigits(digits)
    ensures ReadDtText("(-" + digits + ")") == Some(0 - DecimalValue(digits))
  {
    var text := "(-" + digits + ")";
    assert |text| >= 4 && text[0] == '(' && text[1] == '-' && text[|text| - 1] == ')';
    assert text[2..|text| - 1] == digits;
    assert !AllDigits(text) by { assert !IsDigit(text[0]); }
  }

  /** The padding `dtnum` adds is spaces only, in front of the text. */
  lemma DtnumPadding(value: int, width: int)
    ensures var r := Dtnum(value, width);
      forall i :: 0 <= i < |r| - |DtText(value)| ==> r[i] == ' '
  {
    var text := DtText(value);
    if width != 0 && |text| < width {
      RepeatSpaces(width - |text|);
      assert Dtnum(value, width) == Repeat(" ", width - |text|) + text;
    }
  }

  /** `indent(text, level, prefix)`: every non-empty line gets `prefix`
      repeated `level` times in front; empty lines stay empty. */
  function Indent(text: string, level: nat := 1, prefix: string := "    "): (r: string)
  {
    Join(PrefixLines(Split(text, '\n'), Repeat(prefix, level)), "\n")
  }

  /** Each line with the prefix in front, the empty ones left empty. */
  function PrefixLines(lines: seq<string>, p: string): (r: seq<string>)
    ensures |r| == |lines|
    ensures forall i :: 0 <= i < |lines| ==> r[i] == if lines[i] == "" then "" else p + lines[i]
  {
    seq(|lines|, i requires 0 <= i < |lines| => if lines[i] == "" then "" else p + lines[i])
  }

  /** `indent` keeps the lines (when the prefix has no line break): the same
      number, empty ones empty, the others prefixed. */
  lemma IndentLines(text: string, level: nat, prefix: string)
    requires '\n' !in prefix
    ensures var lines := Split(text, '\n');
      var out := Split(Indent(text, level, prefix), '\n');
      && |out| == |lines|
      && forall i :: 0 <= i < |lines| ==>
           out[i] == if lines[i] == "" then "" else Repeat(prefix, level) + lines[i]
  {
    var p := Repeat(prefix, level);
    RepeatNoChar(prefix, level, '\n');
    SplitJoin(PrefixLines(Split(text, '\n'), p), '\n');
  }

  lemma {:induction false} RepeatNoChar(s: string, n: nat, c: char)
    requires c !in s
    ensures c !in Repeat(s, n)
  {
    if n > 0 {
      RepeatNoChar(s, n - 1, c);
    }
  }

  /** All the items of a list of lists, in order. */
  function Flatten<T>(xss: seq<seq<T>>): seq<T>
  {
    if |xss| == 0 then [] else xss[0] + Flatten(xss[1..])
  }

  /** The chunks `chunks(items, size)` returns. */
  function ChunksOf<T>(items: seq<T>, size: int): (r: seq<seq<T>>)
    decreases |items|
  {
    if size <= 0 then [items]
    else if |items| == 0 then []
    else if |items| <= size then [items]
    else [items[..size]] + ChunksOf(items[size..], size)
  }

  /** `chunks` cuts the list into consecutive pieces of `size` items, the
      last one shorter but never empty, so that there are ceil(n / size) of
      them; it puts the whole list in one chunk when `size` is not positive. */
  lemma ChunksProperties<T>(items: seq<T>, size: int)
    ensures size <= 0 ==> ChunksOf(items, size) == [items]
    ensures Flatten(ChunksOf(items, size)) == items
    ensures size > 0 ==>
      var r := ChunksOf(items, size);
      && (|items| == 0 <==> |r| == 0)
      && (|r| - 1) * size < |items| <= |r| * size
      && (forall k :: 0 <= k < |r| - 1 ==> |r[k]| == size)
      && (|r| > 0 ==> 0 < |r[|r| - 1]| <= size)
  {
    ChunksFlatten(items, size);
    if size > 0 {
      ChunksCount(items, size);
      ChunksSizes(items, size);
    }
  }

  /** The chunks, put back together, are the list. */
  lemma {:induction false} ChunksFlatten<T>(items: seq<T>, size: int)
    ensures Flatten(ChunksOf(items, size)) == items
    decreases |items|
  {
    if size > 0 && |items| > size {
      ChunksFlatten(items[size..], size);
      var r := ChunksOf(items, size);
      assert r[1..] == ChunksOf(items[size..], size);
      assert items == items[..size] + items[size..];
    } else if size <= 0 || |items| > 0 {
      assert Flatten([items]) == items + Flatten([items][1..]);
    }
  }

  /** There are ceil(n / size) chunks, none when the list is empty. */
  lemma {:induction false} ChunksCount<T>(items: seq<T>, size: int)
    requires size > 0
    ensures var n := |ChunksOf(items, size)|;
      && (|items| == 0 <==> n == 0)
      && (n - 1) * size < |items| <= n * size
    decreases |items|
  {
    if |items| > size {
      ChunksCount(items[size..], size);
      var m := |ChunksOf(items[size..], size)|;
      assert |ChunksOf(items, size)| == m + 1;
      CountStep(|items| - size, m, size);
    }
  }

  /** One more chunk of `size` items keeps the count's bounds. */
  lemma CountStep(rest: int, m: int, size: int)
    requires (m - 1) * size < rest <= m * size
    ensures m * size < rest + size <= (m + 1) * size
  {
  }

  /** Every chunk but the last holds `size` items; the last one holds
      between one and `size`. */
  lemma {:induction false} ChunksSizes<T>(items: seq<T>, size: int)
    requires size > 0
    ensures var r := ChunksOf(items, size);
      && (forall k :: 0 <= k < |r| - 1 ==> |r[k]| == size)
      && (|r| > 0 ==> 0 < |r[|r| - 1]| <= size)
    decreases |items|
  {
    if |items| > size {
      ChunksSizes(items[size..], size);
      var r := ChunksOf(items, size);
      var r' := ChunksOf(items[size..], size);
      assert r == [items[..size]] + r';
      assert |r'| > 0;
      forall k | 0 <= k < |r| - 1 ensures |r[k]| == size {
        if k > 0 {
          assert r[k] == r'[k - 1];
        }
      }
    }
  }

  /** What is left of the list from index `i` on (nothing past its end). */
  function From<T>(items: seq<T>, i: nat): seq<T>
  {
    if i >= |items| then [] else items[i..]
  }

  /** One step of the `chunks` loop: the chunks from index `i` on are the
      slice at `i` followed by the chunks from `i + size` on. */
  lemma ChunksStep<T>(items: seq<T>, i: nat, size: int)
    requires size > 0 && i < |items|
    ensures var end := if i + size < |items| then i + size else |items|;
      ChunksOf(From(items, i), size) == [items[i..end]] + ChunksOf(From(items, i + size), size)
  {
    var rest := From(items, i);
    assert rest == items[i..];
    if |rest| > size {
      assert rest[size..] == From(items, i + size);
      assert rest[..size] == items[i..i + size];
      assert ChunksOf(rest, size) == [rest[..size]] + ChunksOf(rest[size..], size);
    } else {
      assert From(items, i + size) == [];
      assert ChunksOf(rest, size) == [rest];
      assert ChunksOf(From(items, i + size), size) == [];
      assert rest == items[i..|items|];
    }
  }

  /** The chunks the loop still has to push once it is at index `i`. */
  function ChunksFrom<T>(items: seq<T>, i: nat, size: int): seq<seq<T>>
    requires size > 0
    decreases |items| - i
  {
    if i >= |items| then []
    else
      var end := if i + size < |items| then i + size else |items|;
      [items[i..end]] + ChunksFrom(items, i + size, size)
  }

  /** What is left to push from index `i` is the chunks of the rest. */
  lemma {:induction false} ChunksFromRest<T>(items: seq<T>, i: nat, size: int)
    requires size > 0
    ensures ChunksFrom(items, i, size) == ChunksOf(From(items, i), size)
    decreases |items| - i
  {
    if i < |items| {
      var end := if i + size < |items| then i + size else |items|;
      var later := ChunksFrom(items, i + size, size);
      assert ChunksFrom(items, i, size) == [items[i..end]] + later;
      ChunksFromRest(items, i + size, size);
      ChunksStep(items, i, size);
    }
  }

  lemma AppendAssoc<T>(a: seq<T>, b: seq<T>, c: seq<T>)
    ensures a + (b + c) == (a + b) + c
  {
  }

  /** `chunks(items, size)`, the loop of the source: slices of `size` items
      pushed in order. */
  method Chunks<T>(items: seq<T>, size: int) returns (r: seq<seq<T>>)
    ensures r == ChunksOf(items, size)
  {
    if size <= 0 {
      return [items];
    }
    r := [];
    var i: nat := 0;
    ChunksFromRest(items, 0, size);
    assert From(items, 0) == items;
    while i < |items|
      invariant r + ChunksFrom(items, i, size) == ChunksOf(items, size)
      decreases |items| - i
    {
      var end := if i + size < |items| then i + size else |items|;
      AppendAssoc(r, [items[i..end]], ChunksFrom(items, i + size, size));
      r := r + [items[i..end]];
      i := i + size;
    }
    assert r + [] == r;
  }
}
