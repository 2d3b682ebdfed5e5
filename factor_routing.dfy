/** Where `parseMultiplicationExpression` sends a factor. As written, a factor that opens
    a group loses its parentheses and goes to the division tier, which coerces any text
    holding `+`, `-` or `*` to NaN; any other factor is coerced whole, so a `/` in it is
    never divided. Sending every factor to `parseDivisionExpression` instead gives the
    values the formulas denote. */
module FactorRouting {
  import opened JsNumber
  import Decimal
  import Text
  import Splitter
  import Formula
  import opened Grammar

  /** A sum of one term: a product standing alone. */
  function Alone(p: Prod): Sum {
    Sum(Diff(p, []), [])
  }

  /** A numeral as a product of one factor. */
  function Term(n: nat): Prod {
    Prod(Quot(Lit(n), []), [])
  }

  /** `m+n` */
  function SumOfTwo(m: nat, n: nat): Sum {
    Sum(Diff(Term(m), []), [Diff(Term(n), [])])
  }

  /** `(m+n)*k` */
  function GroupTimes(m: nat, n: nat, k: nat): Prod {
    Prod(Quot(Group(SumOfTwo(m, n)), []), [Quot(Lit(k), [])])
  }

  /** `m/n` */
  function Ratio(m: nat, n: nat): Prod {
    Prod(Quot(Lit(m), [Lit(n)]), [])
  }

  /** The text `(m+n)*k`, with one pair of parentheses. */
  function GroupTimesText(m: nat, n: nat, k: nat): string {
    Parenthesised(Decimal.FromNat(m) + ['+'] + Decimal.FromNat(n)) + ['*'] + Decimal.FromNat(k)
  }

  /** The text `m/n`. */
  function RatioText(m: nat, n: nat): string {
    Decimal.FromNat(m) + ['/'] + Decimal.FromNat(n)
  }

  lemma RealProduct(a: nat, b: nat)
    ensures (a * b) as real == a as real * b as real
  {
  }

  lemma RealQuotient(j: nat, n: nat)
    requires n != 0
    ensures (j * n) as real / n as real == j as real
  {
    RealProduct(j, n);
  }

  // ---------------- printing and values of the examples ----------------

  lemma AloneParts(ro: Formula.Routing, p: Prod)
    ensures PrintSum(ro, Alone(p)) == PrintProd(ro, p)
    ensures ValueSum(Alone(p)) == ValueProd(p)
  {
    var d := Diff(p, []);
    assert DiffTexts(ro, d) == [PrintProd(ro, p)];
    assert DiffValues(d) == [ValueProd(p)];
    assert SumTexts(ro, Alone(p)) == [PrintDiff(ro, d)];
    assert SumValues(Alone(p)) == [ValueDiff(d)];
  }

  lemma TermParts(ro: Formula.Routing, n: nat)
    ensures PrintDiff(ro, Diff(Term(n), [])) == Decimal.FromNat(n)
    ensures ValueDiff(Diff(Term(n), [])) == Finite(n as real)
  {
    var q := Quot(Lit(n), []);
    assert QuotTexts(ro, q) == [Decimal.FromNat(n)];
    assert QuotValues(q) == [Finite(n as real)];
    assert Bare(q);
    assert ProdTexts(ro, Term(n)) == [PrintQuot(ro, q)];
    assert ProdValues(Term(n)) == [ValueQuot(q)];
    assert DiffTexts(ro, Diff(Term(n), [])) == [PrintProd(ro, Term(n))];
    assert DiffValues(Diff(Term(n), [])) == [ValueProd(Term(n))];
  }

  lemma SumOfTwoParts(ro: Formula.Routing, m: nat, n: nat)
    ensures PrintSum(ro, SumOfTwo(m, n)) == Decimal.FromNat(m) + ['+'] + Decimal.FromNat(n)
    ensures ValueSum(SumOfTwo(m, n)) == Finite((m + n) as real)
  {
    var e := SumOfTwo(m, n);
    TermParts(ro, m);
    TermParts(ro, n);
    assert SumTexts(ro, e) == [Decimal.FromNat(m), Decimal.FromNat(n)];
    assert SumValues(e) == [Finite(m as real), Finite(n as real)];
    Text.JoinWithTwo(Decimal.FromNat(m), Decimal.FromNat(n), '+');
    CombineTwo(Splitter.Plus, Finite(m as real), Finite(n as real));
  }

  /** Inside a group, `m+n` prints as `(m+n)`. */
  lemma GroupParts(ro: Formula.Routing, m: nat, n: nat)
    ensures PrintQuot(ro, Quot(Group(SumOfTwo(m, n)), [])) == Parenthesised(Decimal.FromNat(m) + ['+'] + Decimal.FromNat(n))
    ensures ValueQuot(Quot(Group(SumOfTwo(m, n)), [])) == Finite((m + n) as real)
  {
    var q := Quot(Group(SumOfTwo(m, n)), []);
    SumOfTwoParts(ro, m, n);
    assert QuotTexts(ro, q) == [PrintAtom(ro, q.first)];
    assert QuotValues(q) == [ValueAtom(q.first)];
  }

  lemma NumeralParts(ro: Formula.Routing, k: nat)
    ensures PrintFactor(ro, Quot(Lit(k), [])) == Decimal.FromNat(k)
    ensures ValueQuot(Quot(Lit(k), [])) == Finite(k as real)
  {
    var q := Quot(Lit(k), []);
    assert QuotTexts(ro, q) == [Decimal.FromNat(k)];
    assert QuotValues(q) == [Finite(k as real)];
  }

  /** Printed for the intended routing, `(m+n)*k` is its text, with value (m+n)k. */
  lemma GroupTimesParts(m: nat, n: nat, k: nat)
    ensures PrintProd(Formula.Intended, GroupTimes(m, n, k)) == GroupTimesText(m, n, k)
    ensures ValueProd(GroupTimes(m, n, k)) == Finite(((m + n) * k) as real)
  {
    GroupTimesPrinted(m, n, k);
    GroupTimesValue(m, n, k);
  }

  lemma GroupTimesPrinted(m: nat, n: nat, k: nat)
    ensures PrintProd(Formula.Intended, GroupTimes(m, n, k)) == GroupTimesText(m, n, k)
  {
    var p := GroupTimes(m, n, k);
    var g := Parenthesised(Decimal.FromNat(m) + ['+'] + Decimal.FromNat(n));
    GroupParts(Formula.Intended, m, n);
    NumeralParts(Formula.Intended, k);
    assert PrintFactor(Formula.Intended, p.first) == g;
    assert ProdTexts(Formula.Intended, p) == [g, Decimal.FromNat(k)];
    Text.JoinWithTwo(g, Decimal.FromNat(k), '*');
  }

  lemma GroupTimesValue(m: nat, n: nat, k: nat)
    ensures ValueProd(GroupTimes(m, n, k)) == Finite(((m + n) * k) as real)
  {
    var p := GroupTimes(m, n, k);
    GroupParts(Formula.Intended, m, n);
    NumeralParts(Formula.Intended, k);
    assert ProdValues(p) == [Finite((m + n) as real), Finite(k as real)];
    ProductOfCasts(m + n, k, ProdValues(p));
  }

  lemma ProductOfCasts(a: nat, b: nat, vs: seq<Number>)
    requires vs == [Finite(a as real), Finite(b as real)]
    ensures Combine(Splitter.Times, vs) == Finite((a * b) as real)
  {
    CombineTwo(Splitter.Times, Finite(a as real), Finite(b as real));
    RealProduct(a, b);
  }

  /** Printed for the intended routing, `m/n` is its text, with value m/n. */
  lemma RatioParts(m: nat, n: nat)
    requires n != 0
    ensures PrintProd(Formula.Intended, Ratio(m, n)) == RatioText(m, n)
    ensures ValueProd(Ratio(m, n)) == Finite(m as real / n as real)
  {
    var q := Quot(Lit(m), [Lit(n)]);
    assert QuotTexts(Formula.Intended, q) == [Decimal.FromNat(m), Decimal.FromNat(n)];
    assert QuotValues(q) == [Finite(m as real), Finite(n as real)];
    Text.JoinWithTwo(Decimal.FromNat(m), Decimal.FromNat(n), '/');
    CombineTwo(Splitter.Divide, Finite(m as real), Finite(n as real));
    assert ProdTexts(Formula.Intended, Ratio(m, n)) == [PrintFactor(Formula.Intended, q)];
    assert ProdValues(Ratio(m, n)) == [ValueQuot(q)];
  }

  // ---------------- as written ----------------

  /** Text `a+b` of two numerals is not a numeric literal: ToNumber gives NaN. */
  lemma SumTextIsNaN(rt: Runtime, a: string, b: string)
    requires a != [] && b != [] && Decimal.AllDigits(a) && Decimal.AllDigits(b)
    ensures ToNumber(rt, a + ['+'] + b) == NaN
  {
    var x := a + ['+'] + b;
    forall i | 0 <= i < |x| ensures x[i] != '.' {
      if i < |a| { assert x[i] == a[i]; } else if i > |a| { assert x[i] == b[i - |a| - 1]; }
    }
    DotIndexNoDot(x);
    assert x[|a|] == '+' && !Decimal.IsDigit(x[|a|]);
    assert x[0] == a[0] && Decimal.IsDigit(x[0]);
    assert x[|a| - 1] == a[|a| - 1] && Decimal.IsDigit(x[|a| - 1]);
  }

  /** As written, the factor `(a+b)` is unwrapped and handed to the division tier, whose
      only operand `a+b` is coerced by ToNumber: NaN. */
  lemma GroupAsWritten(rt: Runtime, a: string, b: string)
    requires a != [] && b != [] && Decimal.AllDigits(a) && Decimal.AllDigits(b)
    ensures Formula.Factor(rt, Formula.AsWritten, Parenthesised(a + ['+'] + b)) == Num(NaN)
  {
    var x := a + ['+'] + b;
    forall i | 0 <= i < |x| ensures x[i] != '/' {
      if i < |a| {
        assert x[i] == a[i] && Decimal.IsDigit(a[i]);
      } else if i > |a| {
        assert x[i] == b[i - |a| - 1] && Decimal.IsDigit(b[i - |a| - 1]);
      }
    }
    UnwrapParenthesised(x);
    Splitter.SplitChunksFree(x, Splitter.Divide);
    Formula.DivOfOne(rt, Formula.AsWritten, x);
    assert x[0] == a[0] && Decimal.IsDigit(x[0]);
    SumTextIsNaN(rt, a, b);
  }

  /** A product with no top-level `+` or `-` whose first factor is NaN is NaN. */
  lemma ProductWithNaN(rt: Runtime, ro: Formula.Routing, s: string, fs: seq<string>, vs: seq<JsValue>)
    requires Shaped(s, 2) && |fs| == |vs| >= 1 && s == Text.JoinWith(fs, '*')
    requires forall k :: 0 <= k < |fs| ==> Shaped(fs[k], 3) && Formula.Factor(rt, ro, fs[k]) == vs[k]
    requires vs[0] == Num(NaN)
    ensures Formula.Plus(rt, ro, s) == Num(NaN)
  {
    LevelChunks([s], Splitter.Plus);
    LevelChunks([s], Splitter.Minus);
    Formula.PlusOfOne(rt, ro, s);
    Formula.MinusOfOne(rt, ro, s);
    LevelChunks(fs, Splitter.Times);
    Formula.MultOfChunks(rt, ro, s, vs);
    Formula.FoldNaN(Splitter.Times, vs[1..]);
  }

  /** As written, `(m+n)*k` evaluates to NaN, whatever the numerals. */
  lemma GroupTimesAsWritten(rt: Runtime, m: nat, n: nat, k: nat)
    ensures Formula.Plus(rt, Formula.AsWritten, GroupTimesText(m, n, k)) == Num(NaN)
  {
    var p := GroupTimes(m, n, k);
    var s := GroupTimesText(m, n, k);
    var fs := ProdTexts(Formula.Intended, p);
    GroupTimesParts(m, n, k);
    ShapeProd(Formula.Intended, p);
    ShapeFactor(Formula.Intended, p.first);
    ShapeFactor(Formula.Intended, p.rest[0]);
    assert fs == [PrintFactor(Formula.Intended, p.first), PrintFactor(Formula.Intended, p.rest[0])];
    GroupParts(Formula.Intended, m, n);
    GroupAsWritten(rt, Decimal.FromNat(m), Decimal.FromNat(n));
    var v := Formula.Factor(rt, Formula.AsWritten, fs[1]);
    ProductWithNaN(rt, Formula.AsWritten, s, fs, [Num(NaN), v]);
  }

  /** Outside the `/`, the text `a/b` of two numerals holds only digits. */
  lemma RatioChars(a: string, b: string, x: string, i: nat)
    requires Decimal.AllDigits(a) && Decimal.AllDigits(b) && x == a + ['/'] + b
    requires i < |x|
    ensures Decimal.IsDigit(x[i]) || x[i] == '/'
  {
    if i < |a| {
      assert x[i] == a[i];
    } else if i > |a| {
      assert x[i] == b[i - |a| - 1];
    }
  }

  /** Text `a/b` of two numerals is not a numeric literal: ToNumber gives NaN. */
  lemma RatioTextIsNaN(rt: Runtime, a: string, b: string)
    requires a != [] && Decimal.AllDigits(a) && Decimal.AllDigits(b)
    ensures ToNumber(rt, a + ['/'] + b) == NaN
  {
    var x := a + ['/'] + b;
    forall i | 0 <= i < |x| ensures x[i] != '.' {
      RatioChars(a, b, x, i);
    }
    DotIndexNoDot(x);
    RatioChars(a, b, x, 0);
    assert x[|a|] == '/' && NonNumericChar(x[|a|]);
  }

  /** As written, `m/n` is one token coerced whole: NaN. */
  lemma RatioAsWritten(rt: Runtime, m: nat, n: nat)
    ensures Formula.Plus(rt, Formula.AsWritten, RatioText(m, n)) == Num(NaN)
  {
    var a, b := Decimal.FromNat(m), Decimal.FromNat(n);
    var x := RatioText(m, n);
    forall i | 0 <= i < |x| ensures x[i] != '+' && x[i] != '-' && x[i] != '*' {
      RatioChars(a, b, x, i);
    }
    RatioChars(a, b, x, 0);
    Formula.TokenCoercedWhole(rt, x);
    RatioTextIsNaN(rt, a, b);
  }

  // ---------------- intended ----------------

  /** With every factor sent to the division tier, `(m+n)` is the sum. */
  lemma GroupIntended(rt: Runtime, m: nat, n: nat)
    ensures Formula.Factor(rt, Formula.Intended, Parenthesised(Decimal.FromNat(m) + ['+'] + Decimal.FromNat(n)))
         == Num(Finite((m + n) as real))
  {
    var q := Quot(Group(SumOfTwo(m, n)), []);
    GroupParts(Formula.Intended, m, n);
    EvalFactor(rt, Formula.Intended, q);
  }

  /** Routed as intended, `(m+n)*k` is (m+n)k. */
  lemma GroupTimesIntended(rt: Runtime, m: nat, n: nat, k: nat)
    ensures Formula.Plus(rt, Formula.Intended, GroupTimesText(m, n, k)) == Num(Finite(((m + n) * k) as real))
  {
    GroupTimesParts(m, n, k);
    AloneParts(Formula.Intended, GroupTimes(m, n, k));
    EvalSum(rt, Formula.Intended, Alone(GroupTimes(m, n, k)));
  }

  /** Routed as intended, `m/n` is m divided by n. */
  lemma RatioIntended(rt: Runtime, m: nat, n: nat)
    requires n != 0
    ensures Formula.Plus(rt, Formula.Intended, RatioText(m, n)) == Num(Finite(m as real / n as real))
  {
    RatioParts(m, n);
    AloneParts(Formula.Intended, Ratio(m, n));
    EvalSum(rt, Formula.Intended, Alone(Ratio(m, n)));
  }

  // ---------------- the two formulas ----------------

  lemma SmallNumerals()
    ensures Decimal.FromNat(2) == "2" && Decimal.FromNat(3) == "3" && Decimal.FromNat(4) == "4"
    ensures Decimal.FromNat(8) == "8"
    ensures Decimal.FromNat(20) == "20"
  {
    assert Decimal.FromNat(20) == Decimal.FromNat(2) + [Decimal.DigitChar(0)];
  }

  lemma ShowsWhole(rt: Runtime, n: nat)
    requires n < Exact
    ensures NumberToString(rt, Finite(n as real)) == Decimal.FromNat(n)
  {
    assert Integral(n as real) && (n as real).Floor == n;
  }

  /** The cell `=(2+3)*4` shows "NaN" as written and "20" routed as intended. */
  lemma GroupedFormula(rt: Runtime, cell: string)
    requires cell == "=(2+3)*4"
    ensures Formula.ParseFormula(rt, Formula.AsWritten, cell) == "NaN"
    ensures Formula.ParseFormula(rt, Formula.Intended, cell) == "20"
  {
    SmallNumerals();
    var t := GroupTimesText(2, 3, 4);
    assert t == "(2+3)*4";
    assert Formula.AfterSign(cell) == t;
    GroupTimesAsWritten(rt, 2, 3, 4);
    GroupTimesIntended(rt, 2, 3, 4);
    ShowsWhole(rt, 20);
  }

  /** The cell `=8/2` shows "NaN" as written and "4" routed as intended. */
  lemma HalvingFormula(rt: Runtime, cell: string)
    requires cell == "=8/2"
    ensures Formula.ParseFormula(rt, Formula.AsWritten, cell) == "NaN"
    ensures Formula.ParseFormula(rt, Formula.Intended, cell) == "4"
  {
    SmallNumerals();
    var t := RatioText(8, 2);
    assert t == "8/2";
    assert Formula.AfterSign(cell) == t;
    RatioAsWritten(rt, 8, 2);
    RatioIntended(rt, 8, 2);
    RealQuotient(4, 2);
    ShowsWhole(rt, 4);
  }
}
