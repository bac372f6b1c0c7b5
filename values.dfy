/** The property-value decoder of src/parser/devicetree.ts: type checks,
    the first cell of a cell group, the integer-expression evaluator
    (`parseNumber` and the unary and binary evaluators), string and phandle
    decoding, and the flattening of `<...>` cell groups into arrays
    (section 6.3 of the Devicetree Specification, property values). */
module DevicetreeValues {
  import opened Wrappers
  import opened JsString
  import opened Syntax
  import opened Errors
  import Utility

  /** `expectType(node, ...types)`: nothing when the node's type is listed,
      otherwise the error naming the expected and the actual type. */
  function ExpectType(node: SyntaxNode, types: seq<string>): (r: Option<Error>)
    ensures r.None? <==> node.kind in types
    ensures r.Some? ==> (r.value.ParseError? && r.value.startPosition == node.startPosition
      && r.value.endPosition == node.endPosition)
  {
    if node.kind in types then None
    else Some(NodeError(node, "Expected " + Join(types, " | ") + " but got " + node.kind))
  }

  /** A comment among the named children of a cell group. */
  predicate IsComment(n: SyntaxNode)
  {
    n.kind == "comment"
  }

  /** The first of the nodes that is not a comment. */
  function FirstNonComment(nodes: seq<SyntaxNode>): (r: Option<nat>)
    ensures r.None? <==> forall i :: 0 <= i < |nodes| ==> IsComment(nodes[i])
    ensures r.Some? ==> (r.value < |nodes| && !IsComment(nodes[r.value])
      && forall i :: 0 <= i < r.value ==> IsComment(nodes[i]))
  {
    if |nodes| == 0 then None
    else if !IsComment(nodes[0]) then Some(0)
    else
      var r := FirstNonComment(nodes[1..]);
      assert forall i :: 1 <= i < |nodes| ==> nodes[i] == nodes[1..][i - 1];
      if r.None? then None else Some(r.value + 1)
  }

  /** What `getFirstCell` returns: the first named child that is not a
      comment, or the error "Expected a value". */
  function FirstCell(node: SyntaxNode): (r: Result<SyntaxNode, Error>)
    ensures r.Ok? ==> exists i :: 0 <= i < |node.children| && node.children[i].node == r.value
  {
    var named := NamedChildren(node);
    match FirstNonComment(named)
    case None => Err(NodeError(node, "Expected a value"))
    case Some(i) => Ok(named[i])
  }

  /** `getFirstCell`: starts at the first named child and moves to the next
      named sibling while the current one is a comment. */
  method GetFirstCell(node: SyntaxNode) returns (r: Result<SyntaxNode, Error>)
    ensures r == FirstCell(node)
  {
    var named := NamedChildren(node);
    var i := 0;
    while i < |named| && IsComment(named[i])
      invariant 0 <= i <= |named|
      invariant forall k :: 0 <= k < i ==> IsComment(named[k])
    {
      i := i + 1;
    }
    FirstNonCommentAt(named, i);
    if i == |named| {
      r := Err(NodeError(node, "Expected a value"));
    } else {
      r := Ok(named[i]);
    }
  }

  /** The index the `getFirstCell` loop stops at is the first non-comment. */
  lemma FirstNonCommentAt(nodes: seq<SyntaxNode>, i: nat)
    requires i <= |nodes| && forall k :: 0 <= k < i ==> IsComment(nodes[k])
    requires i < |nodes| ==> !IsComment(nodes[i])
    ensures FirstNonComment(nodes) == if i == |nodes| then None else Some(i)
  {
  }

  /** The first cell is a named, non-comment child preceded only by
      comments; there is none exactly when every named child is a comment. */
  lemma FirstCellFacts(node: SyntaxNode)
    ensures var named := NamedChildren(node);
      && (FirstCell(node).Err? <==> forall i :: 0 <= i < |named| ==> IsComment(named[i]))
      && (FirstCell(node).Err? ==> FirstCell(node).error == NodeError(node, "Expected a value"))
      && (FirstCell(node).Ok? ==> exists k :: (0 <= k < |named| && named[k] == FirstCell(node).value
            && !IsComment(named[k]) && forall i :: 0 <= i < k ==> IsComment(named[i])))
  {
  }

  // ---------------------------------------------------------------------
  // 32-bit integer conversions of the bitwise operators (ECMA-262, ToInt32
  // and ToUint32).

  const TWO_32: int := 0x1_0000_0000
  const TWO_31: int := 0x8000_0000

  /** ECMA-262 ToUint32 on an integer: the value modulo 2^32. */
  function ToUint32(v: int): (r: int)
    ensures 0 <= r < TWO_32
    ensures (r - v) % TWO_32 == 0
  {
    v % TWO_32
  }

  function ToInt32(v: int): (r: int)
    ensures -TWO_31 <= r < TWO_31
    ensures (r - v) % TWO_32 == 0
  {
    var u := ToUint32(v);
    if u >= TWO_31 then u - TWO_32 else u
  }

  /** ToInt32 leaves 32-bit values alone. */
  lemma ToInt32Identity(v: int)
    requires -TWO_31 <= v < TWO_31
    ensures ToInt32(v) == v
  {
  }

  function Pow2(n: nat): (r: nat)
    ensures r >= 1
  {
    if n == 0 then 1 else 2 * Pow2(n - 1)
  }

  /** A bitwise operator on the two's-complement 32-bit forms. */
  function Bitwise(op: string, a: int, b: int): int
    requires op in {"|", "^", "&"}
  {
    var x := ToUint32(a) as bv32;
    var y := ToUint32(b) as bv32;
    var z := if op == "|" then x | y else if op == "^" then x ^ y else x & y;
    ToInt32(z as int)
  }

  // ---------------------------------------------------------------------
  // Operators.

  /** `unary op` applied to a value, or nothing for an unknown operator. */
  function ApplyUnary(op: string, v: int): Option<int>
  {
    if op == "!" then Some(if v == 0 then 1 else 0)
    else if op == "~" then Some(-ToInt32(v) - 1)
    else if op == "-" then Some(-v)
    else if op == "+" then Some(v)
    else None
  }

  /** `!v` is 1 exactly when `v` is 0 and 0 otherwise; `~` is the 32-bit
      complement, so applying it twice gives the 32-bit form of `v`; `-`
      negates and `+` is the identity; no other operator is known. */
  lemma UnaryFacts(v: int)
    ensures ApplyUnary("!", v) == Some(1) <==> v == 0
    ensures ApplyUnary("!", v) == Some(0) <==> v != 0
    ensures -TWO_31 <= ApplyUnary("~", v).value < TWO_31
    ensures ApplyUnary("~", ApplyUnary("~", v).value) == Some(ToInt32(v))
    ensures ApplyUnary("-", ApplyUnary("-", v).value) == Some(v)
    ensures ApplyUnary("+", v) == Some(v)
    ensures forall op :: op !in {"!", "~", "-", "+"} ==> ApplyUnary(op, v).None?
  {
    ToInt32Identity(-ToInt32(v) - 1);
  }

  /** The outcome of a binary operator: a value, a value the integer model
      cannot hold (a fraction, `NaN` or an infinity), or an unknown operator. */
  datatype BinaryOutcome = Value(v: int) | NotInteger | UnknownOperator

  /** JavaScript's `%`: the remainder of the division truncated toward zero,
      with the sign of the dividend. */
  function TruncRem(a: int, b: int): int
    requires b != 0
  {
    var m := if b < 0 then -b else b;
    if a >= 0 then a % m else -((-a) % m)
  }

  /** `left op right`, on values already evaluated. */
  function ApplyBinary(op: string, a: int, b: int): BinaryOutcome
  {
    if op == "+" then Value(a + b)
    else if op == "-" then Value(a - b)
    else if op == "*" then Value(a * b)
    else if op == "/" then (if b != 0 && a % b == 0 then Value(a / b) else NotInteger)
    else if op == "%" then (if b != 0 then Value(TruncRem(a, b)) else NotInteger)
    else if op == "||" then Value(if a != 0 then a else b)
    else if op == "&&" then Value(if a != 0 then b else a)
    else if op == "|" || op == "^" || op == "&" then Value(Bitwise(op, a, b))
    else if op == "==" then Value(if a == b then 1 else 0)
    else if op == "!=" then Value(if a != b then 1 else 0)
    else if op == ">" then Value(if a > b then 1 else 0)
    else if op == ">=" then Value(if a >= b then 1 else 0)
    else if op == "<=" then Value(if a <= b then 1 else 0)
    else if op == "<" then Value(if a < b then 1 else 0)
    else if op == "<<" then Value(ToInt32(ToInt32(a) * Pow2(ToUint32(b) % 32)))
    else if op == ">>" then Value(ToInt32(a) / Pow2(ToUint32(b) % 32))
    else UnknownOperator
  }

  /** Equality tests yield 1 exactly when they hold. */
  lemma EqualityFacts(a: int, b: int)
    ensures ApplyBinary("==", a, b) == Value(1) <==> a == b
    ensures ApplyBinary("!=", a, b) == Value(1) <==> a != b
  {
  }

  /** Order comparisons yield 1 exactly when they hold. */
  lemma OrderFacts(a: int, b: int)
    ensures ApplyBinary("<", a, b) == Value(1) <==> a < b
    ensures ApplyBinary("<=", a, b) == Value(1) <==> a <= b
    ensures ApplyBinary(">", a, b) == Value(1) <==> a > b
    ensures ApplyBinary(">=", a, b) == Value(1) <==> a >= b
  {
  }

  /** Comparisons yield nothing but 0 and 1. */
  lemma ComparisonValues(a: int, b: int)
    ensures forall op :: op in {"==", "!=", "<", "<=", ">", ">="} ==>
      ApplyBinary(op, a, b) == Value(0) || ApplyBinary(op, a, b) == Value(1)
  {
  }

  /** `a || b` is `a` when `a` is non-zero and `b` otherwise; `a && b` is `b`
      when `a` is non-zero and `a` (that is, 0) otherwise. */
  lemma LogicalFacts(a: int, b: int)
    ensures a != 0 ==> ApplyBinary("||", a, b) == Value(a) && ApplyBinary("&&", a, b) == Value(b)
    ensures a == 0 ==> ApplyBinary("||", a, b) == Value(b) && ApplyBinary("&&", a, b) == Value(0)
  {
  }

  /** Division yields a value only when it is exact, and then multiplying
      back gives the dividend. */
  lemma DivisionFacts(a: int, b: int)
    ensures ApplyBinary("/", a, b).Value? <==> b != 0 && a % b == 0
    ensures ApplyBinary("/", a, b).Value? ==> ApplyBinary("/", a, b).v * b == a
  {
    if b != 0 && a % b == 0 {
      var q := a / b;
      assert a == b * q + a % b;
      assert ApplyBinary("/", a, b) == Value(q);
    }
  }

  /** The quotient JavaScript's `%` implies: truncated toward zero. */
  function TruncQuot(a: int, b: int): int
    requires b != 0
  {
    var m := if b < 0 then -b else b;
    var n := if a < 0 then -a else a;
    if (a >= 0) == (b > 0) then n / m else -(n / m)
  }

  /** `%` by zero is `NaN`; otherwise it is the truncated remainder. */
  lemma RemainderFacts(a: int, b: int)
    ensures b == 0 ==> ApplyBinary("%", a, b) == NotInteger
    ensures b != 0 ==> ApplyBinary("%", a, b) == Value(TruncRem(a, b))
  {
    if b != 0 {
      assert ApplyBinary("%", a, b) == Value(TruncRem(a, b));
    }
  }

  /** The remainder completes the truncated quotient to the dividend, is
      smaller than the divisor and carries the dividend's sign. */
  lemma TruncRemFacts(a: int, b: int)
    requires b != 0
    ensures var r := TruncRem(a, b);
      && a == b * TruncQuot(a, b) + r
      && (if b < 0 then -b else b) > (if r < 0 then -r else r)
      && (a >= 0 ==> r >= 0) && (a <= 0 ==> r <= 0)
  {
    var m := if b < 0 then -b else b;
    var n := if a < 0 then -a else a;
    var q, rr := n / m, n % m;
    assert n == m * q + rr && 0 <= rr < m;
    assert TruncQuot(a, b) == if (a >= 0) == (b > 0) then q else -q;
    assert TruncRem(a, b) == if a >= 0 then rr else -rr;
    SignedParts(a, b, q, rr);
  }

  /** The signs put back on the quotient and remainder of the magnitudes. */
  lemma SignedParts(a: int, b: int, q: int, rr: int)
    requires b != 0
    requires (if a < 0 then -a else a) == (if b < 0 then -b else b) * q + rr
    ensures a == b * (if (a >= 0) == (b > 0) then q else -q) + (if a >= 0 then rr else -rr)
  {
    MulNeg(b, q);
    MulNeg(-b, q);
  }

  lemma MulNeg(x: int, y: int)
    ensures x * -y == -(x * y) && -x * y == -(x * y)
  {
  }

  /** `a >> s` on a 32-bit value: the floor of the quotient by `2^s`, which
      stays between the value and 0. */
  lemma ShiftRightBounds(t: int, p: int)
    requires p >= 1
    ensures t >= 0 ==> 0 <= t / p <= t
    ensures t < 0 ==> t <= t / p < 0
  {
    var q, r := t / p, t % p;
    assert t == p * q + r && 0 <= r < p;
    QuotientBounds(t, p, q, r);
  }

  /** A quotient by a positive divisor lies between the dividend and 0. */
  lemma QuotientBounds(t: int, p: int, q: int, r: int)
    requires p >= 1 && t == p * q + r && 0 <= r < p
    ensures t >= 0 ==> 0 <= q <= t
    ensures t < 0 ==> t <= q < 0
  {
    if q < 0 {
      MulMono(p, q, -1);
      if q < t {
        MulMono(p, q + 1, t);
        MulMono(-t, 1, p);
      }
    } else {
      MulMono(q, 1, p);
    }
  }

  lemma MulMono(p: int, x: int, y: int)
    requires p >= 0 && x <= y
    ensures p * x <= p * y
  {
    assert p * y - p * x == p * (y - x);
  }

  /** The bitwise and shift operators always give a 32-bit signed value. */
  lemma BitwiseRange(op: string, a: int, b: int)
    requires op in {"|", "^", "&", "<<", ">>"}
    ensures ApplyBinary(op, a, b).Value?
    ensures -TWO_31 <= ApplyBinary(op, a, b).v < TWO_31
  {
    if op == ">>" {
      var p := Pow2(ToUint32(b) % 32);
      ShiftRightBounds(ToInt32(a), p);
      assert ApplyBinary(op, a, b) == Value(ToInt32(a) / p);
    }
  }

  // ---------------------------------------------------------------------
  // Number literals.

  function HexDigit(c: char): Option<nat>
  {
    if '0' <= c <= '9' then Some(c as int - '0' as int)
    else if 'a' <= c <= 'f' then Some(c as int - 'a' as int + 10)
    else if 'A' <= c <= 'F' then Some(c as int - 'A' as int + 10)
    else None
  }

  predicate AllHex(s: string)
  {
    forall i :: 0 <= i < |s| ==> HexDigit(s[i]).Some?
  }

  function HexValue(s: string): nat
    requires AllHex(s)
  {
    if |s| == 0 then 0 else HexValue(s[..|s| - 1]) * 16 + HexDigit(s[|s| - 1]).value
  }

  /** `Number(text)` for the text of an `integer_literal`: decimal digits,
      or `0x`/`0X` and hexadecimal digits. Any other text is `NaN`, which the
      integer model does not carry. */
  function NumberFromText(node: SyntaxNode): Result<int, Error>
  {
    var text := node.text;
    if |text| >= 1 && AllDigits(text) then Ok(Utility.DecimalValue(text))
    else if |text| >= 3 && text[0] == '0' && (text[1] == 'x' || text[1] == 'X') && AllHex(text[2..])
    then Ok(HexValue(text[2..]))
    else Err(Unrepresentable("Number(\"" + text + "\") is NaN"))
  }

  /** A decimal literal reads back as the number it prints. */
  lemma DecimalLiteral(node: SyntaxNode, n: nat)
    requires node.text == NatToString(n)
    ensures NumberFromText(node) == Ok(n)
  {
    Utility.DecimalRoundTrip(n);
  }

  /** `0x10` is sixteen. */
  lemma HexLiteral(node: SyntaxNode)
    requires node.text == "0x10"
    ensures NumberFromText(node) == Ok(16)
  {
    assert !IsDigit(node.text[1]);
    assert node.text[2..] == "10";
    assert "10"[..1] == "1";
    assert "1"[..0] == "";
  }

  // ---------------------------------------------------------------------
  // The evaluator.

  const NUMBER_TYPES: seq<string> := ["integer_literal", "unary_expression", "binary_expression", "integer_cells"]

  /** `parseNumber`: a literal, a cell group (its first cell), or an
      expression. */
  function ParseNumber(node: SyntaxNode): Result<int, Error>
    decreases node, 2
  {
    match ExpectType(node, NUMBER_TYPES)
    case Some(e) => Err(e)
    case None =>
      if node.kind == "integer_cells" then
        match FirstCell(node)
        case Err(e) => Err(e)
        case Ok(cell) => ParseNumber(cell)
      else if node.kind == "unary_expression" then EvaluateUnary(node)
      else if node.kind == "binary_expression" then EvaluateBinary(node)
      else NumberFromText(node)
  }

  /** `evaluateUnaryExpression`. */
  function EvaluateUnary(node: SyntaxNode): Result<int, Error>
    decreases node, 1
  {
    var operator := ChildForFieldName(node, "operator");
    var argument := ChildForFieldName(node, "argument");
    if operator.None? || argument.None? then Err(NodeError(node, "Invalid unary expression"))
    else
      match ParseNumber(argument.value)
      case Err(e) => Err(e)
      case Ok(value) =>
        match ApplyUnary(operator.value.text, value)
        case Some(v) => Ok(v)
        case None => Err(NodeError(node, "Invalid operator \"" + operator.value.text + "\""))
  }

  /** `evaluateBinaryExpression`: the left operand, then the right one, then
      the operator. */
  function EvaluateBinary(node: SyntaxNode): Result<int, Error>
    decreases node, 1
  {
    var operator := ChildForFieldName(node, "operator");
    var left := ChildForFieldName(node, "left");
    var right := ChildForFieldName(node, "right");
    if operator.None? || left.None? || right.None? then Err(NodeError(node, "Invalid binary expression"))
    else
      match ParseNumber(left.value)
      case Err(e) => Err(e)
      case Ok(value1) =>
        match ParseNumber(right.value)
        case Err(e) => Err(e)
        case Ok(value2) =>
          match ApplyBinary(operator.value.text, value1, value2)
          case Value(v) => Ok(v)
          case NotInteger => Err(Unrepresentable(IntToString(value1) + " " + operator.value.text + " " + IntToString(value2) + " is not an integer"))
          case UnknownOperator => Err(NodeError(node, "Invalid operator \"" + operator.value.text + "\""))
  }

  /** Only the four number types are accepted; any other type is the
      "Expected ... but got <type>" error at that node. */
  lemma ParseNumberTypes(node: SyntaxNode)
    ensures ParseNumber(node).Ok? ==> node.kind in NUMBER_TYPES
    ensures node.kind !in NUMBER_TYPES ==> ParseNumber(node) == Err(NodeError(node,
      "Expected " + Join(NUMBER_TYPES, " | ") + " but got " + node.kind))
  {
  }

  /** A cell group evaluates to its first non-comment cell, and fails with
      "Expected a value" when it has none. */
  lemma CellGroupValue(node: SyntaxNode)
    requires node.kind == "integer_cells"
    ensures FirstCell(node).Ok? ==> ParseNumber(node) == ParseNumber(FirstCell(node).value)
    ensures FirstCell(node).Err? ==> ParseNumber(node) == Err(NodeError(node, "Expected a value"))
  {
  }

  /** An expression evaluates its operands and applies its operator: with a
      known operator and operands that evaluate, the expression's value is
      the operator applied to theirs. */
  lemma ExpressionValue(node: SyntaxNode, op: SyntaxNode, l: SyntaxNode, r: SyntaxNode, a: int, b: int)
    requires node.kind == "binary_expression"
    requires ChildForFieldName(node, "operator") == Some(op)
    requires ChildForFieldName(node, "left") == Some(l) && ChildForFieldName(node, "right") == Some(r)
    requires ParseNumber(l) == Ok(a) && ParseNumber(r) == Ok(b)
    ensures ApplyBinary(op.text, a, b).Value? ==> ParseNumber(node) == Ok(ApplyBinary(op.text, a, b).v)
    ensures ApplyBinary(op.text, a, b).UnknownOperator? ==>
      ParseNumber(node) == Err(NodeError(node, "Invalid operator \"" + op.text + "\""))
  {
    assert ParseNumber(node) == EvaluateBinary(node) by {
      assert ExpectType(node, NUMBER_TYPES).None?;
    }
  }

  // ---------------------------------------------------------------------
  // Strings and phandles.

  /** `parseString`: the trimmed text without its first and last character
      (the quotes). */
  function ParseString(node: SyntaxNode): Result<string, Error>
  {
    match ExpectType(node, ["string_literal"])
    case Some(e) => Err(e)
    case None =>
      var text := Trim(node.text);
      Ok(Substring(text, 1, |text| - 1))
  }

  /** A string literal `"v"` decodes to `v`, whatever `v` holds (no escape
      processing). */
  lemma ParseStringRoundTrip(node: SyntaxNode, v: string)
    requires node.kind == "string_literal" && node.text == "\"" + v + "\""
    ensures ParseString(node) == Ok(v)
  {
    QuotedTrimmed(node.text);
    QuotedInner(node.text, v);
  }

  /** A quoted text has no whitespace to trim. */
  lemma QuotedTrimmed(t: string)
    requires |t| >= 2 && t[0] == '"' && t[|t| - 1] == '"'
    ensures Trim(t) == t
  {
    assert !IsWhitespace('"');
    TrimFacts(t);
  }

  /** Between the quotes of `"v"` lies `v`. */
  lemma QuotedInner(t: string, v: string)
    requires t == "\"" + v + "\""
    ensures Substring(t, 1, |t| - 1) == v
  {
    SubstringFacts(t);
    assert t[1..|t| - 1] == v;
  }

  /** `parsePhandle`: the label of a reference, looking through a cell
      group to its first cell. */
  function ParsePhandle(node: SyntaxNode): Result<string, Error>
    decreases node
  {
    match ExpectType(node, ["reference", "integer_cells"])
    case Some(e) => Err(e)
    case None =>
      if node.kind == "integer_cells" then
        match FirstCell(node)
        case Err(e) => Err(e)
        case Ok(cell) => ParsePhandle(cell)
      else
        match ChildForFieldName(node, "label")
        case None => Err(NodeError(node, "Expected a phandle"))
        case Some(target) => Ok(target.text)
  }

  /** A reference `&l` decodes to `l`, also inside `<...>`; a reference
      without a label is the error "Expected a phandle". */
  lemma PhandleFacts(node: SyntaxNode)
    ensures node.kind == "reference" && ChildForFieldName(node, "label").Some? ==>
      ParsePhandle(node) == Ok(ChildForFieldName(node, "label").value.text)
    ensures node.kind == "reference" && ChildForFieldName(node, "label").None? ==>
      ParsePhandle(node) == Err(NodeError(node, "Expected a phandle"))
    ensures node.kind == "integer_cells" && FirstCell(node).Ok? ==>
      ParsePhandle(node) == ParsePhandle(FirstCell(node).value)
    ensures ParsePhandle(node).Ok? ==> node.kind in ["reference", "integer_cells"]
  {
  }

  // ---------------------------------------------------------------------
  // Arrays.

  /** `nodes.map(parseNumber)`: every value, or the first error. */
  function NumbersOf(nodes: seq<SyntaxNode>): Result<seq<int>, Error>
  {
    if |nodes| == 0 then Ok([])
    else
      match ParseNumber(nodes[0])
      case Err(e) => Err(e)
      case Ok(v) =>
        match NumbersOf(nodes[1..])
        case Err(e) => Err(e)
        case Ok(vs) => Ok([v] + vs)
  }

  /** What `parseArray` returns for a node and its following named
      siblings: the values of the named children of every `integer_cells`
      among them, in order; other siblings are skipped. */
  function ArrayOf(chain: seq<SyntaxNode>): Result<seq<int>, Error>
  {
    CellFold(chain, CellValues)
  }

  /** The values of one cell group's named children. */
  function CellValues(node: SyntaxNode): Result<seq<int>, Error>
  {
    NumbersOf(NamedChildren(node))
  }

  /** The chain's cell groups decoded by `decode` and concatenated, or the
      first error. */
  function CellFold(chain: seq<SyntaxNode>, decode: SyntaxNode -> Result<seq<int>, Error>): Result<seq<int>, Error>
  {
    if |chain| == 0 then Ok([])
    else
      var last := chain[|chain| - 1];
      match CellFold(chain[..|chain| - 1], decode)
      case Err(e) => Err(e)
      case Ok(vs) =>
        if last.kind != "integer_cells" then Ok(vs)
        else
          match decode(last)
          case Err(e) => Err(e)
          case Ok(ws) => Ok(vs + ws)
  }

  /** `parseArray`: walks the sibling chain, appending the values of each
      cell group. */
  method ParseArray(chain: seq<SyntaxNode>) returns (r: Result<seq<int>, Error>)
    ensures r == ArrayOf(chain)
  {
    var result: seq<int> := [];
    var i := 0;
    while i < |chain|
      invariant 0 <= i <= |chain|
      invariant ArrayOf(chain[..i]) == Ok(result)
    {
      assert chain[..i + 1][..i] == chain[..i];
      var node := chain[i];
      if node.kind == "integer_cells" {
        var values := NumbersOf(NamedChildren(node));
        if values.Err? {
          ArrayErrorStays(chain, i + 1);
          return values.PropagateFailure();
        }
        result := result + values.value;
      }
      i := i + 1;
    }
    assert chain[..|chain|] == chain;
    r := Ok(result);
  }

  /** Once a prefix of the chain fails, the whole chain fails the same way. */
  lemma {:induction false} ArrayErrorStays(chain: seq<SyntaxNode>, n: nat)
    requires n <= |chain| && ArrayOf(chain[..n]).Err?
    ensures ArrayOf(chain) == ArrayOf(chain[..n])
    decreases |chain| - n
  {
    if n < |chain| {
      assert chain[..n + 1][..n] == chain[..n];
      ArrayErrorStays(chain, n + 1);
    } else {
      assert chain[..n] == chain;
    }
  }

  /** Siblings that are not cell groups contribute nothing: the array of a
      chain is the array of its cell groups alone. */
  lemma {:induction false} ArraySkipsOthers(chain: seq<SyntaxNode>)
    ensures ArrayOf(chain) == ArrayOf(FilterKind(chain, "integer_cells"))
    decreases |chain|
  {
    if |chain| > 0 {
      var init := chain[..|chain| - 1];
      var last := chain[|chain| - 1];
      ArraySkipsOthers(init);
      FilterKindLast(chain, "integer_cells");
      var f := FilterKind(init, "integer_cells");
      if last.kind == "integer_cells" {
        var g := f + [last];
        assert g[..|g| - 1] == f && g[|g| - 1] == last;
      } else {
        assert f + [] == f;
        if ArrayOf(init).Ok? {
          assert ArrayOf(chain) == ArrayOf(init);
        }
      }
    }
  }

  lemma FilterKindLast(s: seq<SyntaxNode>, kind: string)
    requires |s| > 0
    ensures FilterKind(s, kind) == FilterKind(s[..|s| - 1], kind) + (if s[|s| - 1].kind == kind then [s[|s| - 1]] else [])
  {
    FilterKindSnoc(s[..|s| - 1], s[|s| - 1], kind);
    assert s == s[..|s| - 1] + [s[|s| - 1]];
  }

  lemma {:induction false} FilterKindSnoc(nodes: seq<SyntaxNode>, x: SyntaxNode, kind: string)
    ensures FilterKind(nodes + [x], kind) == FilterKind(nodes, kind) + (if x.kind == kind then [x] else [])
    decreases |nodes|
  {
    if |nodes| == 0 {
      assert [x][1..] == [];
    } else {
      FilterKindSnoc(nodes[1..], x, kind);
      assert (nodes + [x])[1..] == nodes[1..] + [x];
    }
  }

  /** The array of two chains one after the other is the first array
      followed by the second. */
  lemma ArrayAppend(a: seq<SyntaxNode>, b: seq<SyntaxNode>)
    requires ArrayOf(a).Ok? && ArrayOf(b).Ok?
    ensures ArrayOf(a + b) == Ok(ArrayOf(a).value + ArrayOf(b).value)
  {
    CellFoldAppend(a, b, CellValues);
  }

  lemma {:induction false} CellFoldAppend(a: seq<SyntaxNode>, b: seq<SyntaxNode>, decode: SyntaxNode -> Result<seq<int>, Error>)
    requires CellFold(a, decode).Ok? && CellFold(b, decode).Ok?
    ensures CellFold(a + b, decode) == Ok(CellFold(a, decode).value + CellFold(b, decode).value)
    decreases |b|
  {
    if |b| == 0 {
      assert a + b == a;
      assert CellFold(a, decode).value + [] == CellFold(a, decode).value;
    } else {
      var init, last := b[..|b| - 1], b[|b| - 1];
      var ab := a + b;
      assert ab[..|ab| - 1] == a + init && ab[|ab| - 1] == last;
      assert CellFold(init, decode).Ok?;
      CellFoldAppend(a, init, decode);
      var A := CellFold(a, decode).value;
      var I := CellFold(init, decode).value;
      if last.kind == "integer_cells" {
        var ws := decode(last).value;
        assert CellFold(b, decode) == Ok(I + ws);
        assert CellFold(ab, decode) == Ok((A + I) + ws);
        Utility.AppendAssoc(A, I, ws);
      } else {
        assert CellFold(b, decode) == Ok(I);
      }
    }
  }

  /** What `parsePhandleArray` returns: the named children of every cell
      group in the chain, in order. */
  function PhandleArrayOf(chain: seq<SyntaxNode>): seq<SyntaxNode>
  {
    if |chain| == 0 then []
    else
      var last := chain[|chain| - 1];
      PhandleArrayOf(chain[..|chain| - 1]) + (if last.kind == "integer_cells" then NamedChildren(last) else [])
  }

  /** `parsePhandleArray`: walks the sibling chain, appending the named
      children of each cell group. */
  method ParsePhandleArray(chain: seq<SyntaxNode>) returns (r: seq<SyntaxNode>)
    ensures r == PhandleArrayOf(chain)
  {
    r := [];
    var i := 0;
    while i < |chain|
      invariant 0 <= i <= |chain|
      invariant r == PhandleArrayOf(chain[..i])
    {
      assert chain[..i + 1][..i] == chain[..i];
      if chain[i].kind == "integer_cells" {
        r := r + NamedChildren(chain[i]);
      }
      i := i + 1;
    }
    assert chain[..|chain|] == chain;
  }

  /** Siblings that are not cell groups contribute nothing: the phandle
      array of a chain is that of its cell groups alone. */
  lemma {:induction false} PhandleArraySkipsOthers(chain: seq<SyntaxNode>)
    ensures PhandleArrayOf(chain) == PhandleArrayOf(FilterKind(chain, "integer_cells"))
    decreases |chain|
  {
    if |chain| > 0 {
      var init := chain[..|chain| - 1];
      var last := chain[|chain| - 1];
      PhandleArraySkipsOthers(init);
      FilterKindLast(chain, "integer_cells");
      var f := FilterKind(init, "integer_cells");
      if last.kind == "integer_cells" {
        var g := f + [last];
        assert g[..|g| - 1] == f && g[|g| - 1] == last;
      } else {
        assert f + [] == f;
        assert PhandleArrayOf(chain) == PhandleArrayOf(init) + [];
        assert PhandleArrayOf(init) + [] == PhandleArrayOf(init);
      }
    }
  }
}
