/** The JavaScript string built-ins the source relies on (`split`, `join`,
    `repeat`, `padStart`, `trim`, `toLowerCase`, `replace`, number-to-text),
    defined on `seq<char>` with the facts the rest of the model needs. */
module JsString {

  /** `s.split(c)` for a one-character separator: never empty, and no piece
      contains the separator. */
  function Split(s: string, c: char): (r: seq<string>)
    ensures |r| >= 1
    ensures forall i :: 0 <= i < |r| ==> c !in r[i]
    decreases |s|
  {
    if |s| == 0 then [""]
    else if s[0] == c then [""] + Split(s[1..], c)
    else
      var rest := Split(s[1..], c);
      [[s[0]] + rest[0]] + rest[1..]
  }

  /** `parts.join(sep)`. */
  function Join(parts: seq<string>, sep: string): string
  {
    if |parts| == 0 then ""
    else if |parts| == 1 then parts[0]
    else parts[0] + sep + Join(parts[1..], sep)
  }

  /** Splitting and joining again with the same character gives back the text. */
  lemma {:induction false} JoinSplit(s: string, c: char)
    ensures Join(Split(s, c), [c]) == s
    decreases |s|
  {
    if |s| == 0 {
    } else if s[0] == c {
      JoinSplit(s[1..], c);
      assert s == [c] + s[1..];
    } else {
      JoinSplit(s[1..], c);
      var rest := Split(s[1..], c);
      if |rest| == 1 {
        assert s == [s[0]] + s[1..];
      } else {
        assert Join(rest, [c]) == rest[0] + [c] + Join(rest[1..], [c]);
        assert s == [s[0]] + s[1..];
      }
    }
  }

  /** Joining pieces that do not contain the separator and splitting again
      gives back the pieces. */
  lemma {:induction false} SplitJoin(parts: seq<string>, c: char)
    requires |parts| >= 1
    requires forall i :: 0 <= i < |parts| ==> c !in parts[i]
    ensures Split(Join(parts, [c]), c) == parts
    decreases |parts|
  {
    if |parts| == 1 {
      SplitNoSeparator(parts[0], c);
    } else {
      SplitJoin(parts[1..], c);
      SplitPrefix(parts[0], Join(parts[1..], [c]), c);
    }
  }

  lemma {:induction false} SplitNoSeparator(s: string, c: char)
    requires c !in s
    ensures Split(s, c) == [s]
    decreases |s|
  {
    if |s| > 0 {
      SplitNoSeparator(s[1..], c);
      assert s == [s[0]] + s[1..];
    }
  }

  lemma {:induction false} SplitPrefix(a: string, b: string, c: char)
    requires c !in a
    ensures Split(a + [c] + b, c) == [a] + Split(b, c)
    decreases |a|
  {
    if |a| == 0 {
      assert a + [c] + b == [c] + b;
      assert ([c] + b)[1..] == b;
    } else {
      SplitPrefix(a[1..], b, c);
      assert (a + [c] + b)[1..] == a[1..] + [c] + b;
      assert [a[0]] + a[1..] == a;
    }
  }

  /** The last piece of `s.split(c)` (what `pop()` returns) is the text after
      the last `c`, or the whole text when there is no `c`. */
  lemma {:induction false} SplitLast(s: string, c: char)
    ensures var r := Split(s, c); LastPiece(s, c, r[|r| - 1])
    decreases |s|, 1
  {
    if |s| > 0 {
      if s[0] == c {
        LastAfterSeparator(s, c);
      } else if c in s[1..] {
        LastAfterOther(s, c);
      } else {
        LastWithoutSeparator(s, c);
      }
    }
  }

  /** A leading separator leaves the last piece as it was. */
  lemma {:induction false} LastAfterSeparator(s: string, c: char)
    requires |s| > 0 && s[0] == c
    ensures var r := Split(s, c); LastPiece(s, c, r[|r| - 1])
    decreases |s|, 0
  {
    SplitLast(s[1..], c);
    var rest := Split(s[1..], c);
    var r := Split(s, c);
    assert r[|r| - 1] == rest[|rest| - 1] by { assert r == [""] + rest; }
    ShiftPiece(s, c, rest[|rest| - 1]);
  }

  /** A leading character before a later separator leaves the last piece as
      it was. */
  lemma {:induction false} LastAfterOther(s: string, c: char)
    requires |s| > 0 && s[0] != c && c in s[1..]
    ensures var r := Split(s, c); LastPiece(s, c, r[|r| - 1])
    decreases |s|, 0
  {
    SplitLast(s[1..], c);
    var rest := Split(s[1..], c);
    var r := Split(s, c);
    assert |rest| > 1 by { SplitCount(s[1..], c); }
    assert r[|r| - 1] == rest[|rest| - 1] by { assert r == [[s[0]] + rest[0]] + rest[1..]; }
    ShiftPiece(s, c, rest[|rest| - 1]);
  }

  /** Without a separator the whole text is the last piece. */
  lemma LastWithoutSeparator(s: string, c: char)
    requires |s| > 0 && s[0] != c && c !in s[1..]
    ensures var r := Split(s, c); LastPiece(s, c, r[|r| - 1])
  {
    assert c !in s by { assert s == [s[0]] + s[1..]; }
    SplitNoSeparator(s, c);
  }

  /** `last` is the text after the last `c` of `s`, or all of `s` when it
      has no `c`. */
  predicate LastPiece(s: string, c: char, last: string)
  {
    && |last| <= |s| && last == s[|s| - |last|..]
    && (c in s ==> |last| < |s| && s[|s| - |last| - 1] == c)
    && (c !in s ==> last == s)
  }

  /** The last piece of the text after the first character is the last
      piece of the whole text when the text holds `c` somewhere. */
  lemma ShiftPiece(s: string, c: char, last: string)
    requires |s| > 0 && LastPiece(s[1..], c, last)
    requires s[0] == c || c in s[1..]
    ensures LastPiece(s, c, last)
  {
    var tail := s[1..];
    assert c in s by {
      if s[0] == c { assert s[0] in s; } else { var k :| 0 <= k < |tail| && tail[k] == c; assert s[k + 1] == c; }
    }
    assert last == s[|s| - |last|..] by {
      assert tail[|tail| - |last|..] == s[|s| - |last|..];
    }
    if c in tail {
      assert s[|s| - |last| - 1] == tail[|tail| - |last| - 1];
    } else {
      assert last == tail;
    }
  }

  /** The text holds the separator exactly when it splits into two pieces or
      more. */
  lemma {:induction false} SplitCount(s: string, c: char)
    ensures c in s <==> |Split(s, c)| >= 2
    decreases |s|
  {
    if |s| > 0 {
      SplitCount(s[1..], c);
      assert c in s <==> s[0] == c || c in s[1..];
    }
  }

  /** `s.repeat(n)`. */
  function Repeat(s: string, n: nat): (r: string)
    ensures |r| == n * |s|
  {
    if n == 0 then "" else s + Repeat(s, n - 1)
  }

  lemma {:induction false} RepeatSpaces(n: nat)
    ensures forall i :: 0 <= i < |Repeat(" ", n)| ==> Repeat(" ", n)[i] == ' '
  {
    if n > 0 {
      RepeatSpaces(n - 1);
    }
  }

  /** `s.padStart(width)`: spaces on the left up to `width`; never shortens. */
  function PadStart(s: string, width: int): (r: string)
    ensures |s| >= width ==> r == s
    ensures |s| < width ==> |r| == width
    ensures |r| >= |s| && r[|r| - |s|..] == s
  {
    if |s| >= width then s else Repeat(" ", width - |s|) + s
  }

  /** The decimal digit for 0..9. */
  function Digit(d: nat): char
    requires d < 10
  {
    "0123456789"[d]
  }

  predicate IsDigit(c: char)
  {
    '0' <= c <= '9'
  }

  /** A text made of decimal digits only. */
  predicate AllDigits(s: string)
  {
    forall i :: 0 <= i < |s| ==> IsDigit(s[i])
  }

  /** `n.toString()` for a non-negative integer. */
  function NatToString(n: nat): (r: string)
    ensures |r| >= 1 && AllDigits(r)
  {
    if n < 10 then [Digit(n)] else NatToString(n / 10) + [Digit(n % 10)]
  }

  /** `n.toString()` for any integer. */
  function IntToString(n: int): (r: string)
    ensures n < 0 ==> r == "-" + NatToString(-n)
    ensures n >= 0 ==> r == NatToString(n)
  {
    if n < 0 then "-" + NatToString(-n) else NatToString(n)
  }

  /** The characters JavaScript's `trim` removes: WhiteSpace and
      LineTerminator of ECMA-262, section 12.2 and 12.3. */
  predicate IsWhitespace(c: char)
  {
    c == '\t' || c == '\n' || c == '\U{000B}' || c == '\U{000C}' || c == '\r' || c == ' '
    || c == '\U{00A0}' || c == '\U{1680}' || ('\U{2000}' <= c <= '\U{200A}')
    || c == '\U{2028}' || c == '\U{2029}' || c == '\U{202F}' || c == '\U{205F}'
    || c == '\U{3000}' || c == '\U{FEFF}'
  }

  function TrimStart(s: string): (r: string)
    ensures |r| <= |s| && r == s[|s| - |r|..]
    ensures r == [] || !IsWhitespace(r[0])
  {
    if |s| > 0 && IsWhitespace(s[0]) then TrimStart(s[1..]) else s
  }

  function TrimEnd(s: string): (r: string)
    ensures |r| <= |s| && r == s[..|r|]
    ensures r == [] || !IsWhitespace(r[|r| - 1])
  {
    if |s| > 0 && IsWhitespace(s[|s| - 1]) then TrimEnd(s[..|s| - 1]) else s
  }

  /** `s.trim()`. */
  function Trim(s: string): (r: string)
  {
    TrimEnd(TrimStart(s))
  }

  /** A string with no whitespace at either end. */
  predicate IsTrimmed(s: string)
  {
    s == [] || (!IsWhitespace(s[0]) && !IsWhitespace(s[|s| - 1]))
  }

  /** `trim` leaves no whitespace at either end, keeps the characters in
      between, and changes nothing that is already trimmed. */
  lemma TrimFacts(s: string)
    ensures IsTrimmed(Trim(s))
    ensures forall c :: c in Trim(s) ==> c in s
    ensures IsTrimmed(s) ==> Trim(s) == s
  {
    var t := TrimStart(s);
    var r := TrimEnd(t);
    if r != [] {
      assert r[0] == t[0];
    }
    forall c | c in r ensures c in s {
      var k :| 0 <= k < |r| && r[k] == c;
      assert t[k] == c;
      assert s[|s| - |t| + k] == c;
    }
  }

  /** `String.prototype.toLowerCase` on one ASCII character. */
  function LowerChar(c: char): char
  {
    if 'A' <= c <= 'Z' then (c as int + 32) as char else c
  }

  /** `s.toLowerCase()` restricted to ASCII letters. */
  function ToLower(s: string): (r: string)
    ensures |r| == |s|
    ensures forall i :: 0 <= i < |s| ==> r[i] == LowerChar(s[i])
  {
    seq(|s|, i requires 0 <= i < |s| => LowerChar(s[i]))
  }

  /** `s.replace(/x/g, y)` for single characters. */
  function ReplaceAll(s: string, x: char, y: char): (r: string)
    ensures |r| == |s|
    ensures forall i :: 0 <= i < |s| ==> r[i] == (if s[i] == x then y else s[i])
  {
    seq(|s|, i requires 0 <= i < |s| => if s[i] == x then y else s[i])
  }

  /** `s.substring(start, end)`: both bounds clamped to the string, and
      swapped when the start comes after the end. */
  function Substring(s: string, start: int, end: int): (r: string)
    ensures var a := Clamp(start, |s|); var b := Clamp(end, |s|);
      r == if a <= b then s[a..b] else s[b..a]
  {
    var a := Clamp(start, |s|);
    var b := Clamp(end, |s|);
    if a <= b then s[a..b] else s[b..a]
  }

  function Clamp(i: int, n: nat): (r: nat)
    ensures r <= n
  {
    if i < 0 then 0 else if i > n then n else i
  }

  /** Within bounds `substring` is the slice; with its bounds crossed it is
      the slice between them, so a one-character string stays whole. */
  lemma SubstringFacts(s: string)
    ensures |s| >= 2 ==> Substring(s, 1, |s| - 1) == s[1..|s| - 1]
    ensures |s| == 1 ==> Substring(s, 1, |s| - 1) == s
    ensures |s| == 0 ==> Substring(s, 1, |s| - 1) == ""
  {
  }

  /** Joining `x` in front of a non-empty list puts `x` and a separator in
      front of the joined list. */
  lemma JoinCons(x: string, parts: seq<string>, sep: string)
    requires |parts| >= 1
    ensures Join([x] + parts, sep) == x + sep + Join(parts, sep)
  {
    assert ([x] + parts)[1..] == parts;
  }

  /** Joining with `y` at the end puts a separator and `y` after the joined
      list. */
  lemma {:induction false} JoinSnoc(parts: seq<string>, y: string, sep: string)
    requires |parts| >= 1
    ensures Join(parts + [y], sep) == Join(parts, sep) + sep + y
    decreases |parts|
  {
    if |parts| > 1 {
      JoinSnoc(parts[1..], y, sep);
      assert (parts + [y])[1..] == parts[1..] + [y];
    } else {
      assert (parts + [y])[1..] == [y];
    }
  }

  /** A prefix on the first piece is a prefix of the whole join. */
  lemma JoinHeadPrefix(p: string, parts: seq<string>, sep: string)
    requires |parts| >= 1
    ensures Join([p + parts[0]] + parts[1..], sep) == p + Join(parts, sep)
  {
    if |parts| > 1 {
      assert ([p + parts[0]] + parts[1..])[1..] == parts[1..];
    }
  }

  /** Every piece after the first with `p` in front. */
  function PrefixRest(parts: seq<string>, p: string): (r: seq<string>)
    ensures |r| == |parts|
    ensures |parts| > 0 ==> r[0] == parts[0]
    ensures forall i :: 1 <= i < |parts| ==> r[i] == p + parts[i]
  {
    if |parts| == 0 then [] else [parts[0]] + seq(|parts| - 1, i requires 0 <= i < |parts| - 1 => p + parts[i + 1])
  }

  /** A separator `c + p` is a separator `c` followed by `p` on every piece
      but the first. */
  lemma {:induction false} JoinSep(parts: seq<string>, c: string, p: string)
    ensures Join(parts, c + p) == Join(PrefixRest(parts, p), c)
    decreases |parts|
  {
    if |parts| > 1 {
      var rest := parts[1..];
      var pr := PrefixRest(rest, p);
      var whole := PrefixRest(parts, p);
      var tail := Join(rest, c + p);
      assert tail == Join(pr, c) by {
        JoinSep(rest, c, p);
      }
      assert Join(whole[1..], c) == p + Join(pr, c) by {
        assert whole[1..] == [p + pr[0]] + pr[1..];
        JoinHeadPrefix(p, pr, c);
      }
      assert Join(parts, c + p) == parts[0] + (c + p) + tail;
      assert Join(whole, c) == parts[0] + c + Join(whole[1..], c);
      assert parts[0] + (c + p) + tail == parts[0] + c + (p + tail);
    }
  }

  /** A character in neither the pieces nor the separator is not in the join. */
  lemma {:induction false} JoinNoChar(parts: seq<string>, sep: string, c: char)
    requires c !in sep
    requires forall i :: 0 <= i < |parts| ==> c !in parts[i]
    ensures c !in Join(parts, sep)
    decreases |parts|
  {
    if |parts| > 1 {
      JoinNoChar(parts[1..], sep, c);
    }
  }
}
