/** The formula evaluator of use-cell.ts: four mutually recursive tiers, one per operator,
    each splitting its text with `split` and folding the values of the chunks. */
module Formula {
  import opened JsNumber
  import Splitter
  import Grid
  import Text
  import Decimal

  /** The evaluator as the code has it (`AsWritten`) or corrected (`Intended`). As
      written, a factor of a product that opens with '(' is unwrapped and divided and any
      other is coerced whole, so a top-level `/` is never divided; and a leading '-'
      subtracts from the empty product 1. Intended, every factor goes whole to the
      division tier, and the empty text before a leading '-' counts as 0. */
  datatype Routing = AsWritten | Intended

  /** The binary operation of one tier. */
  function Apply(op: Splitter.Operator, x: JsValue, y: JsValue): (r: JsValue)
    ensures r.Num?
    ensures x.Undefined? || y.Undefined? ==> r == Num(NaN)
  {
    match op
    case Plus => JsAdd(x, y)
    case Minus => JsSub(x, y)
    case Times => JsMul(x, y)
    case Divide => JsDiv(x, y)
  }

  /** `vs.reduce((accumulator, current) => accumulator op current, acc)`. */
  function Fold(op: Splitter.Operator, acc: JsValue, vs: seq<JsValue>): (r: JsValue)
    ensures vs == [] ==> r == acc
    ensures vs != [] ==> r.Num?
    decreases |vs|
  {
    if vs == [] then acc else Fold(op, Apply(op, acc, vs[0]), vs[1..])
  }

  /** `numbers[0]`: `undefined` for an empty list. */
  function First(vs: seq<JsValue>): JsValue {
    if vs == [] then Undefined else vs[0]
  }

  /** `numbers.slice(1)`. */
  function Rest(vs: seq<JsValue>): seq<JsValue> {
    if vs == [] then [] else vs[1..]
  }

  /** `numberString.substr(1, numberString.length - 2)`: the text without its first and
      last code point, whatever they are; "" when there are fewer than two. Strings here
      are sequences of code points, where JavaScript counts UTF-16 code units. */
  function Unwrap(c: string): (u: string)
    ensures |c| >= 1 ==> |u| < |c|
    ensures |c| >= 2 ==> c == [c[0]] + u + [c[|c| - 1]]
    ensures |c| < 2 ==> u == ""
  {
    if |c| >= 2 then c[1..|c| - 1] else ""
  }

  predicate OpensGroup(c: string) {
    |c| > 0 && c[0] == '('
  }

  /** `parsePlusExpression`: the sum of the minus-chunks, folded from 0. */
  function Plus(rt: Runtime, ro: Routing, s: string): (v: JsValue)
    ensures v.Num?
    ensures s == [] ==> v == Num(Finite(0.0))
    decreases |s|, 5
  {
    var chunks := Splitter.SplitChunks(s, Splitter.Plus);
    var numbers := seq(|chunks|, i requires 0 <= i < |chunks| => Minus(rt, ro, chunks[i]));
    Fold(Splitter.Plus, Num(Finite(0.0)), numbers)
  }

  /** `parseMinusExpression`: the first product-chunk minus the others, left to right. */
  function Minus(rt: Runtime, ro: Routing, s: string): (v: JsValue)
    ensures v.Undefined? <==> s == []
    decreases |s|, 4
  {
    var chunks := Splitter.SplitChunks(s, Splitter.Minus);
    var numbers := seq(|chunks|, i requires 0 <= i < |chunks| => Mult(rt, ro, chunks[i]));
    Fold(Splitter.Minus, MinuendOf(ro, chunks, numbers), Rest(numbers))
  }

  /** `numbers[0]`, the value subtracted from; intended, 0 in front of a leading '-'. */
  function MinuendOf(ro: Routing, chunks: seq<string>, numbers: seq<JsValue>): JsValue {
    if ro == Intended && |chunks| > 0 && chunks[0] == "" then Num(Finite(0.0)) else First(numbers)
  }

  /** `parseMultiplicationExpression`: the product of the factors, folded from 1. */
  function Mult(rt: Runtime, ro: Routing, s: string): (v: JsValue)
    ensures v.Num?
    ensures s == [] ==> v == Num(Finite(1.0))
    decreases |s|, 3
  {
    var chunks := Splitter.SplitChunks(s, Splitter.Times);
    var numbers := seq(|chunks|, i requires 0 <= i < |chunks| => Factor(rt, ro, chunks[i]));
    Fold(Splitter.Times, Num(Finite(1.0)), numbers)
  }

  /** The value of one factor. */
  function Factor(rt: Runtime, ro: Routing, c: string): (v: JsValue)
    ensures v.Undefined? <==> if ro == AsWritten then OpensGroup(c) && |c| <= 2 else c == []
    decreases |c|, 2
  {
    match ro
    case AsWritten => if OpensGroup(c) then Div(rt, ro, Unwrap(c)) else Num(ToNumber(rt, c))
    case Intended => Div(rt, ro, c)
  }

  /** `parseDivisionExpression`: the first operand divided by the others, left to right. */
  function Div(rt: Runtime, ro: Routing, s: string): (v: JsValue)
    ensures v.Undefined? <==> s == []
    decreases |s|, 1
  {
    var chunks := Splitter.SplitChunks(s, Splitter.Divide);
    var numbers := seq(|chunks|, i requires 0 <= i < |chunks| => DivOperand(rt, ro, chunks[i]));
    Fold(Splitter.Divide, First(numbers), Rest(numbers))
  }

  /** The value of one operand of a division: a group re-enters the sum tier. */
  function DivOperand(rt: Runtime, ro: Routing, c: string): (v: JsValue)
    ensures v.Num?
    decreases |c|, 0
  {
    if OpensGroup(c) then Plus(rt, ro, Unwrap(c)) else Num(ToNumber(rt, c))
  }

  // ---------------- cells ----------------

  /** `isFormula`: the text starts with '='. */
  predicate IsFormula(value: string)
    ensures IsFormula(value) <==> "=" <= value
  {
    |value| > 0 && value[0] == '='
  }

  /** `value.slice(1)`. */
  function AfterSign(value: string): (e: string)
    ensures |value| > 0 ==> value == [value[0]] + e
  {
    if value == [] then "" else value[1..]
  }

  /** `parseFormula`: the printed value of the sum after the '='. */
  function ParseFormula(rt: Runtime, ro: Routing, value: string): (shown: string)
    ensures Plus(rt, ro, AfterSign(value)).n.NaN? ==> shown == "NaN"
    ensures Plus(rt, ro, AfterSign(value)).n.PosInf? ==> shown == "Infinity"
    ensures AfterSign(value) == [] ==> shown == "0"
  {
    NumberToString(rt, Plus(rt, ro, AfterSign(value)).n)
  }

  datatype CellResult = CellResult(result: string, value: string)

  /** `useCell`: a formula's printed value next to its text; other text twice. */
  function UseCell(rt: Runtime, ro: Routing, cells: Grid.Cells, row: int, column: int): (r: CellResult)
    ensures r.value == Grid.CellText(cells, row, column)
    ensures IsFormula(r.value) ==> r.result == ParseFormula(rt, ro, r.value)
    ensures !IsFormula(r.value) ==> r.result == r.value
    ensures Grid.CellText(cells, row, column) == "" ==> r == CellResult("", "")
  {
    var cellValue := Grid.CellText(cells, row, column);
    if IsFormula(cellValue) then CellResult(ParseFormula(rt, ro, cellValue), cellValue)
    else CellResult(cellValue, cellValue)
  }

  // ---------------- properties ----------------

  /** The folds associate to the left: one more value applies the operator to the fold
      so far, so `a-b-c` is `(a-b)-c` and `a/b/c` is `(a/b)/c`. */
  lemma {:induction false} FoldSnoc(op: Splitter.Operator, acc: JsValue, vs: seq<JsValue>, v: JsValue)
    ensures Fold(op, acc, vs + [v]) == Apply(op, Fold(op, acc, vs), v)
    decreases |vs|
  {
    if vs == [] {
      assert [] + [v] == [v];
    } else {
      assert (vs + [v])[1..] == vs[1..] + [v];
      FoldSnoc(op, Apply(op, acc, vs[0]), vs[1..], v);
    }
  }

  /** Once the running value is NaN it stays NaN. */
  lemma {:induction false} FoldNaN(op: Splitter.Operator, vs: seq<JsValue>)
    ensures Fold(op, Num(NaN), vs) == Num(NaN)
    decreases |vs|
  {
    if vs != [] {
      assert Apply(op, Num(NaN), vs[0]) == Num(NaN);
      FoldNaN(op, vs[1..]);
    }
  }

  // Each tier in terms of the values of its chunks.

  lemma PlusOfChunks(rt: Runtime, ro: Routing, s: string, vs: seq<JsValue>)
    requires |vs| == |Splitter.SplitChunks(s, Splitter.Plus)|
    requires forall i :: 0 <= i < |vs| ==> Minus(rt, ro, Splitter.SplitChunks(s, Splitter.Plus)[i]) == vs[i]
    ensures Plus(rt, ro, s) == Fold(Splitter.Plus, Num(Finite(0.0)), vs)
  {
    var chunks := Splitter.SplitChunks(s, Splitter.Plus);
    assert seq(|chunks|, i requires 0 <= i < |chunks| => Minus(rt, ro, chunks[i])) == vs;
  }

  lemma MinusOfChunks(rt: Runtime, ro: Routing, s: string, vs: seq<JsValue>)
    requires |vs| == |Splitter.SplitChunks(s, Splitter.Minus)|
    requires forall i :: 0 <= i < |vs| ==> Mult(rt, ro, Splitter.SplitChunks(s, Splitter.Minus)[i]) == vs[i]
    ensures Minus(rt, ro, s) == Fold(Splitter.Minus, MinuendOf(ro, Splitter.SplitChunks(s, Splitter.Minus), vs), Rest(vs))
  {
    var chunks := Splitter.SplitChunks(s, Splitter.Minus);
    assert seq(|chunks|, i requires 0 <= i < |chunks| => Mult(rt, ro, chunks[i])) == vs;
  }

  lemma MultOfChunks(rt: Runtime, ro: Routing, s: string, vs: seq<JsValue>)
    requires |vs| == |Splitter.SplitChunks(s, Splitter.Times)|
    requires forall i :: 0 <= i < |vs| ==> Factor(rt, ro, Splitter.SplitChunks(s, Splitter.Times)[i]) == vs[i]
    ensures Mult(rt, ro, s) == Fold(Splitter.Times, Num(Finite(1.0)), vs)
  {
    var chunks := Splitter.SplitChunks(s, Splitter.Times);
    assert seq(|chunks|, i requires 0 <= i < |chunks| => Factor(rt, ro, chunks[i])) == vs;
  }

  lemma DivOfChunks(rt: Runtime, ro: Routing, s: string, vs: seq<JsValue>)
    requires |vs| == |Splitter.SplitChunks(s, Splitter.Divide)|
    requires forall i :: 0 <= i < |vs| ==> DivOperand(rt, ro, Splitter.SplitChunks(s, Splitter.Divide)[i]) == vs[i]
    ensures Div(rt, ro, s) == Fold(Splitter.Divide, First(vs), Rest(vs))
  {
    var chunks := Splitter.SplitChunks(s, Splitter.Divide);
    assert seq(|chunks|, i requires 0 <= i < |chunks| => DivOperand(rt, ro, chunks[i])) == vs;
  }

  // Each tier on a text that is a single chunk at its operator.

  lemma PlusOfOne(rt: Runtime, ro: Routing, s: string)
    requires Splitter.SplitChunks(s, Splitter.Plus) == [s]
    ensures Plus(rt, ro, s) == JsAdd(Num(Finite(0.0)), Minus(rt, ro, s))
  {
  }

  lemma MinusOfOne(rt: Runtime, ro: Routing, s: string)
    requires Splitter.SplitChunks(s, Splitter.Minus) == [s]
    ensures Minus(rt, ro, s) == Mult(rt, ro, s)
  {
  }

  lemma MultOfOne(rt: Runtime, ro: Routing, s: string)
    requires Splitter.SplitChunks(s, Splitter.Times) == [s]
    ensures Mult(rt, ro, s) == JsMul(Num(Finite(1.0)), Factor(rt, ro, s))
  {
  }

  lemma DivOfOne(rt: Runtime, ro: Routing, s: string)
    requires Splitter.SplitChunks(s, Splitter.Divide) == [s]
    ensures Div(rt, ro, s) == DivOperand(rt, ro, s)
  {
  }

  /** A numeral is a product of one factor, its value, in either routing. */
  lemma MultOfNumeral(rt: Runtime, ro: Routing, t: string)
    requires t != [] && Decimal.AllDigits(t)
    ensures Mult(rt, ro, t) == Num(Finite(Decimal.Value(t) as real))
  {
    var x := Finite(Decimal.Value(t) as real);
    ToNumberOfDigits(rt, t);
    assert t[0] != '(' by { assert Decimal.IsDigit(t[0]); }
    Splitter.SplitChunksFree(t, Splitter.Times);
    MultOfOne(rt, ro, t);
    if ro == Intended {
      Splitter.SplitChunksFree(t, Splitter.Divide);
      DivOfOne(rt, ro, t);
    }
    Identities(x);
  }

  /** A text holding no '+', '-' or '*' and not opening a group is, as written, one token
      handed whole to ToNumber: a top-level `8/2` is coerced, never divided. */
  lemma TokenCoercedWhole(rt: Runtime, s: string)
    requires s != [] && !OpensGroup(s)
    requires Text.Free(s, '+') && Text.Free(s, '-') && Text.Free(s, '*')
    ensures Plus(rt, AsWritten, s) == Num(ToNumber(rt, s))
  {
    var x := ToNumber(rt, s);
    Splitter.SplitChunksFree(s, Splitter.Plus);
    Splitter.SplitChunksFree(s, Splitter.Minus);
    Splitter.SplitChunksFree(s, Splitter.Times);
    PlusOfOne(rt, AsWritten, s);
    MinusOfOne(rt, AsWritten, s);
    MultOfOne(rt, AsWritten, s);
    Identities(x);
  }

  lemma NaNOfDivisionText()
    ensures CertainlyNotNumeric("8/2") && JsNumber.SignedDecimal("8/2").None?
  {
    var s := "8/2";
    assert NonNumericChar(s[1]);
    assert JsNumber.DotIndex(s[2..]) == 1;
    assert JsNumber.DotIndex(s) == 3;
    assert !Decimal.IsDigit(s[1]);
  }

  /** `=8/2` as written: ToNumber of "8/2" is NaN. */
  lemma TopLevelDivisionIsNaN(rt: Runtime)
    ensures Plus(rt, AsWritten, "8/2") == Num(NaN)
  {
    TokenCoercedWhole(rt, "8/2");
    NaNOfDivisionText();
  }

  /** As written, a leading '-' subtracts from the empty product 1: `-5` evaluates as `1 - 5`. */
  lemma UnaryMinusAsWritten(rt: Runtime, t: string)
    requires t != [] && Decimal.AllDigits(t)
    ensures Plus(rt, AsWritten, ['-'] + t) == Num(Finite(1.0 - Decimal.Value(t) as real))
  {
    SignedPlus(rt, AsWritten, ['-'] + t, t, Finite(1.0 - Decimal.Value(t) as real));
  }

  /** Corrected, a leading '-' negates: `-5` evaluates as `-5`. */
  lemma UnaryMinusIntended(rt: Runtime, t: string)
    requires t != [] && Decimal.AllDigits(t)
    ensures Plus(rt, Intended, ['-'] + t) == Num(Finite(-(Decimal.Value(t) as real)))
  {
    SignedPlus(rt, Intended, ['-'] + t, t, Finite(-(Decimal.Value(t) as real)));
  }

  /** The cell `=-5` shows "-4" as written and "-5" corrected. */
  lemma NegatedFormula(rt: Runtime, cell: string)
    requires cell == "=-5"
    ensures ParseFormula(rt, AsWritten, cell) == "-4"
    ensures ParseFormula(rt, Intended, cell) == "-5"
  {
    assert AfterSign(cell) == ['-'] + "5";
    assert Decimal.Value("5") == 5 by { assert "5"[..0] == ""; }
    assert Decimal.FromNat(4) == "4" && Decimal.FromNat(5) == "5";
    UnaryMinusAsWritten(rt, "5");
    UnaryMinusIntended(rt, "5");
    assert Integral(-4.0) && (-4.0).Floor == -4;
    assert Integral(-5.0) && (-5.0).Floor == -5;
  }

  lemma SignedPlus(rt: Runtime, ro: Routing, s: string, t: string, x: Number)
    requires t != [] && Decimal.AllDigits(t) && s == ['-'] + t
    requires x == Finite(Minuend(ro) - Decimal.Value(t) as real)
    ensures Plus(rt, ro, s) == Num(x)
  {
    SignedFree(s, t);
    MinusOfSigned(rt, ro, s, t);
    PlusOfFreeTerm(rt, ro, s, x);
  }

  lemma SignedFree(s: string, t: string)
    requires Decimal.AllDigits(t) && s == ['-'] + t
    ensures Text.Free(s, '+')
  {
    forall i | 0 <= i < |s| ensures s[i] != '+' {
      if i > 0 {
        assert s[i] == t[i - 1];
      }
    }
  }

  lemma PlusOfFreeTerm(rt: Runtime, ro: Routing, s: string, x: Number)
    requires s != [] && Text.Free(s, '+') && Minus(rt, ro, s) == Num(x)
    ensures Plus(rt, ro, s) == Num(x)
  {
    Splitter.SplitChunksFree(s, Splitter.Plus);
    PlusOfOne(rt, ro, s);
    Identities(x);
  }

  lemma MinusOfSigned(rt: Runtime, ro: Routing, s: string, t: string)
    requires t != [] && Decimal.AllDigits(t) && s == ['-'] + t
    ensures Minus(rt, ro, s) == Num(Finite(Minuend(ro) - Decimal.Value(t) as real))
  {
    var v := Decimal.Value(t) as real;
    MinusChunksOfSigned(s, t);
    MultOfNumeral(rt, ro, t);
    MinusOfTwo(rt, ro, s, "", t, Num(Finite(1.0)), Num(Finite(v)));
    assert Minus(rt, ro, s) == JsSub(Num(Finite(Minuend(ro))), Num(Finite(v)));
    FiniteArithmetic(Minuend(ro), v);
  }

  /** What a leading '-' subtracts from. */
  function Minuend(ro: Routing): real {
    if ro == AsWritten then 1.0 else 0.0
  }

  lemma MinusChunksOfSigned(s: string, t: string)
    requires t != [] && Decimal.AllDigits(t) && s == ['-'] + t
    ensures Splitter.SplitChunks(s, Splitter.Minus) == ["", t]
  {
    Splitter.SplitLeadingOperator(t, Splitter.Minus);
    Splitter.SplitChunksFree(t, Splitter.Minus);
    assert [""] + [t] == ["", t];
  }

  lemma MinusOfTwo(rt: Runtime, ro: Routing, s: string, a: string, b: string, x: JsValue, y: JsValue)
    requires Splitter.SplitChunks(s, Splitter.Minus) == [a, b]
    requires Mult(rt, ro, a) == x && Mult(rt, ro, b) == y
    ensures Minus(rt, ro, s) == JsSub(if ro == Intended && a == "" then Num(Finite(0.0)) else x, y)
  {
  }

  /** A leading '+' makes the whole sum NaN: its empty first chunk is `undefined`. */
  lemma LeadingPlusIsNaN(rt: Runtime, ro: Routing, t: string)
    ensures Plus(rt, ro, ['+'] + t) == Num(NaN)
  {
    var s := ['+'] + t;
    var chunks := Splitter.SplitChunks(s, Splitter.Plus);
    Splitter.SplitLeadingOperator(t, Splitter.Plus);
    var numbers := seq(|chunks|, i requires 0 <= i < |chunks| => Minus(rt, ro, chunks[i]));
    assert numbers[0] == Undefined;
    FoldNaN(Splitter.Plus, numbers[1..]);
  }

  /** A trailing '+' after a complete term is ignored: `2+` evaluates as `2`. */
  lemma TrailingPlusIgnored(rt: Runtime, ro: Routing, s: string)
    requires s != [] && !Splitter.EndsOnCut(s, Splitter.Plus) && Splitter.Depth(0, s) == 0
    ensures Plus(rt, ro, s + ['+']) == Plus(rt, ro, s)
  {
    Splitter.SplitTrailingOperator(s, Splitter.Plus);
  }

  /** The shown result of a formula reads back as the number computed, when that number
      prints as plain digits. */
  lemma FormulaReadsBack(rt: Runtime, ro: Routing, value: string)
    requires PlainlyPrinted(Plus(rt, ro, AfterSign(value)).n)
    ensures ToNumber(rt, ParseFormula(rt, ro, value)) == Plus(rt, ro, AfterSign(value)).n
  {
    ToNumberOfNumberToString(rt, Plus(rt, ro, AfterSign(value)).n);
  }
}
