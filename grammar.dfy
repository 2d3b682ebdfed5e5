/** A reference reading of the formulas the evaluator of use-cell.ts parses: sums of
    differences of products of quotients of numerals and parenthesised sums, with each
    operator associating to the left. Printing an expression and evaluating the text
    gives its value, under either routing of factors, provided the printer parenthesises
    the way that routing expects. */
module Grammar {
  import opened JsNumber
  import Decimal
  import Text
  import Splitter
  import Nesting
  import Formula

  datatype Sum = Sum(first: Diff, rest: seq<Diff>)       // d + d + ...
  datatype Diff = Diff(first: Prod, rest: seq<Prod>)     // p - p - ...
  datatype Prod = Prod(first: Quot, rest: seq<Quot>)     // q * q * ...
  datatype Quot = Quot(first: Atom, rest: seq<Atom>)     // a / a / ...
  datatype Atom = Lit(n: nat) | Group(inner: Sum)       // 12 or (s)

  // ---------------- values ----------------

  /** The operation of one level on numbers. */
  function Step(op: Splitter.Operator, a: Number, b: Number): Number {
    match op
    case Plus => Add(a, b)
    case Minus => Sub(a, b)
    case Times => Mul(a, b)
    case Divide => Div(a, b)
  }

  /** `v0 op v1 op ... op vn`, grouped to the left. */
  function Combine(op: Splitter.Operator, vs: seq<Number>): Number
    requires |vs| >= 1
    decreases |vs|
  {
    if |vs| == 1 then vs[0] else Step(op, Combine(op, vs[..|vs| - 1]), vs[|vs| - 1])
  }

  lemma CombineTwo(op: Splitter.Operator, a: Number, b: Number)
    ensures Combine(op, [a, b]) == Step(op, a, b)
  {
    assert [a, b][..1] == [a];
  }

  function SumValues(e: Sum): (vs: seq<Number>)
    ensures |vs| == 1 + |e.rest|
    decreases e, 0
  {
    [ValueDiff(e.first)] + seq(|e.rest|, i requires 0 <= i < |e.rest| => ValueDiff(e.rest[i]))
  }

  function ValueSum(e: Sum): Number
    decreases e, 1
  {
    Combine(Splitter.Plus, SumValues(e))
  }

  function DiffValues(d: Diff): (vs: seq<Number>)
    ensures |vs| == 1 + |d.rest|
    decreases d, 0
  {
    [ValueProd(d.first)] + seq(|d.rest|, i requires 0 <= i < |d.rest| => ValueProd(d.rest[i]))
  }

  function ValueDiff(d: Diff): Number
    decreases d, 1
  {
    Combine(Splitter.Minus, DiffValues(d))
  }

  function ProdValues(p: Prod): (vs: seq<Number>)
    ensures |vs| == 1 + |p.rest|
    decreases p, 0
  {
    [ValueQuot(p.first)] + seq(|p.rest|, i requires 0 <= i < |p.rest| => ValueQuot(p.rest[i]))
  }

  function ValueProd(p: Prod): Number
    decreases p, 1
  {
    Combine(Splitter.Times, ProdValues(p))
  }

  function QuotValues(q: Quot): (vs: seq<Number>)
    ensures |vs| == 1 + |q.rest|
    decreases q, 0
  {
    [ValueAtom(q.first)] + seq(|q.rest|, i requires 0 <= i < |q.rest| => ValueAtom(q.rest[i]))
  }

  function ValueQuot(q: Quot): Number
    decreases q, 1
  {
    Combine(Splitter.Divide, QuotValues(q))
  }

  function ValueAtom(a: Atom): Number
    decreases a, 1
  {
    match a
    case Lit(n) => Finite(n as real)
    case Group(e) => ValueSum(e)
  }

  // ---------------- printing ----------------

  /** A quotient that is one numeral. */
  predicate Bare(q: Quot) {
    q.first.Lit? && q.rest == []
  }

  function Parenthesised(x: string): string {
    ['('] + x + [')']
  }

  function SumTexts(ro: Formula.Routing, e: Sum): (ts: seq<string>)
    ensures |ts| == 1 + |e.rest|
    decreases e, 0
  {
    [PrintDiff(ro, e.first)] + seq(|e.rest|, i requires 0 <= i < |e.rest| => PrintDiff(ro, e.rest[i]))
  }

  function PrintSum(ro: Formula.Routing, e: Sum): string
    decreases e, 1
  {
    Text.JoinWith(SumTexts(ro, e), '+')
  }

  function DiffTexts(ro: Formula.Routing, d: Diff): (ts: seq<string>)
    ensures |ts| == 1 + |d.rest|
    decreases d, 0
  {
    [PrintProd(ro, d.first)] + seq(|d.rest|, i requires 0 <= i < |d.rest| => PrintProd(ro, d.rest[i]))
  }

  function PrintDiff(ro: Formula.Routing, d: Diff): string
    decreases d, 1
  {
    Text.JoinWith(DiffTexts(ro, d), '-')
  }

  function ProdTexts(ro: Formula.Routing, p: Prod): (ts: seq<string>)
    ensures |ts| == 1 + |p.rest|
    decreases p, 0
  {
    [PrintFactor(ro, p.first)] + seq(|p.rest|, i requires 0 <= i < |p.rest| => PrintFactor(ro, p.rest[i]))
  }

  function PrintProd(ro: Formula.Routing, p: Prod): string
    decreases p, 1
  {
    Text.JoinWith(ProdTexts(ro, p), '*')
  }

  /** A quotient as a factor of a product. The code needs every factor but a bare
      numeral parenthesised once more, since it strips one pair before dividing. */
  function PrintFactor(ro: Formula.Routing, q: Quot): string
    decreases q, 2
  {
    if ro.AsWritten? && !Bare(q) then Parenthesised(PrintQuot(ro, q)) else PrintQuot(ro, q)
  }

  function QuotTexts(ro: Formula.Routing, q: Quot): (ts: seq<string>)
    ensures |ts| == 1 + |q.rest|
    decreases q, 0
  {
    [PrintAtom(ro, q.first)] + seq(|q.rest|, i requires 0 <= i < |q.rest| => PrintAtom(ro, q.rest[i]))
  }

  function PrintQuot(ro: Formula.Routing, q: Quot): string
    decreases q, 1
  {
    Text.JoinWith(QuotTexts(ro, q), '/')
  }

  function PrintAtom(ro: Formula.Routing, a: Atom): string
    decreases a, 1
  {
    match a
    case Lit(n) => Decimal.FromNat(n)
    case Group(e) => Parenthesised(PrintSum(ro, e))
  }

  // ---------------- shape of printed text ----------------

  /** The level an operator belongs to: `+` binds loosest. */
  function Rank(op: Splitter.Operator): nat {
    match op
    case Plus => 0
    case Minus => 1
    case Times => 2
    case Divide => 3
  }

  /** Text of level `level`: not empty, well nested, and free of cuts for every operator
      binding more loosely than that level. */
  predicate Shaped(s: string, level: nat) {
    && s != []
    && Nesting.Nested(s)
    && forall op: Splitter.Operator :: Rank(op) < level ==> Splitter.NoCut(0, s, op)
  }

  /** Joining pieces of the next level with the operator of this one gives this level. */
  lemma JoinShaped(ps: seq<string>, op: Splitter.Operator)
    requires |ps| >= 1
    requires forall k :: 0 <= k < |ps| ==> Shaped(ps[k], Rank(op) + 1)
    ensures Shaped(Text.JoinWith(ps, op.Symbol()), Rank(op))
  {
    var sep := op.Symbol();
    Nesting.JoinShape(ps, sep);
    Nesting.JoinNonEmpty(ps, sep);
    forall op': Splitter.Operator | Rank(op') < Rank(op)
      ensures Splitter.NoCut(0, Text.JoinWith(ps, sep), op')
    {
      assert op'.Symbol() != sep;
      Nesting.JoinNoCut(ps, sep, op');
    }
  }

  lemma ParenthesisedShaped(x: string)
    requires Nesting.Nested(x)
    ensures Shaped(Parenthesised(x), 4)
  {
    forall op: Splitter.Operator ensures Splitter.NoCut(0, Parenthesised(x), op) {
      Nesting.WrapShape(x, op);
    }
    Nesting.WrapShape(x, Splitter.Plus);
  }

  lemma NumeralShaped(n: nat)
    ensures Shaped(Decimal.FromNat(n), 4)
  {
    forall op: Splitter.Operator ensures Splitter.NoCut(0, Decimal.FromNat(n), op) {
      Nesting.NumeralShape(Decimal.FromNat(n), op);
    }
    Nesting.NumeralShape(Decimal.FromNat(n), Splitter.Plus);
  }

  lemma {:induction false} ShapeSum(ro: Formula.Routing, e: Sum)
    ensures Shaped(PrintSum(ro, e), 0)
    decreases e, 1
  {
    var ts := SumTexts(ro, e);
    forall k | 0 <= k < |ts| ensures Shaped(ts[k], 1) {
      if k == 0 { ShapeDiff(ro, e.first); } else { ShapeDiff(ro, e.rest[k - 1]); }
    }
    JoinShaped(ts, Splitter.Plus);
  }

  lemma {:induction false} ShapeDiff(ro: Formula.Routing, d: Diff)
    ensures Shaped(PrintDiff(ro, d), 1)
    decreases d, 1
  {
    var ts := DiffTexts(ro, d);
    forall k | 0 <= k < |ts| ensures Shaped(ts[k], 2) {
      if k == 0 { ShapeProd(ro, d.first); } else { ShapeProd(ro, d.rest[k - 1]); }
    }
    JoinShaped(ts, Splitter.Minus);
  }

  lemma {:induction false} ShapeProd(ro: Formula.Routing, p: Prod)
    ensures Shaped(PrintProd(ro, p), 2)
    decreases p, 1
  {
    var ts := ProdTexts(ro, p);
    forall k | 0 <= k < |ts| ensures Shaped(ts[k], 3) {
      if k == 0 { ShapeFactor(ro, p.first); } else { ShapeFactor(ro, p.rest[k - 1]); }
    }
    JoinShaped(ts, Splitter.Times);
  }

  lemma {:induction false} ShapeFactor(ro: Formula.Routing, q: Quot)
    ensures Shaped(PrintFactor(ro, q), 3)
    decreases q, 2
  {
    ShapeQuot(ro, q);
    if ro.AsWritten? && !Bare(q) {
      ParenthesisedShaped(PrintQuot(ro, q));
    }
  }

  lemma {:induction false} ShapeQuot(ro: Formula.Routing, q: Quot)
    ensures Shaped(PrintQuot(ro, q), 3)
    decreases q, 1
  {
    var ts := QuotTexts(ro, q);
    forall k | 0 <= k < |ts| ensures Shaped(ts[k], 4) {
      if k == 0 { ShapeAtom(ro, q.first); } else { ShapeAtom(ro, q.rest[k - 1]); }
    }
    JoinShaped(ts, Splitter.Divide);
  }

  lemma {:induction false} ShapeAtom(ro: Formula.Routing, a: Atom)
    ensures Shaped(PrintAtom(ro, a), 4)
    decreases a, 1
  {
    match a
    case Lit(n) => NumeralShaped(n);
    case Group(e) =>
      ShapeSum(ro, e);
      ParenthesisedShaped(PrintSum(ro, e));
  }

  // ---------------- evaluation ----------------

  function Nums(vs: seq<Number>): (ns: seq<JsValue>)
    ensures |ns| == |vs|
  {
    seq(|vs|, i requires 0 <= i < |vs| => Num(vs[i]))
  }

  lemma ApplyStep(op: Splitter.Operator, a: Number, b: Number)
    ensures Formula.Apply(op, Num(a), Num(b)) == Num(Step(op, a, b))
  {
  }

  /** The code's fold from the first value is the left-grouped combination. */
  lemma {:induction false} FoldCombine(op: Splitter.Operator, vs: seq<Number>)
    requires |vs| >= 1
    ensures Formula.Fold(op, Num(vs[0]), Nums(vs[1..])) == Num(Combine(op, vs))
    decreases |vs|
  {
    if |vs| > 1 {
      var init := vs[..|vs| - 1];
      var last := vs[|vs| - 1];
      FoldCombine(op, init);
      assert Nums(vs[1..]) == Nums(init[1..]) + [Num(last)];
      Formula.FoldSnoc(op, Num(vs[0]), Nums(init[1..]), Num(last));
      ApplyStep(op, Combine(op, init), last);
    }
  }

  /** Folding from 0 for `+` and from 1 for `*` changes nothing. */
  lemma FoldFromUnit(op: Splitter.Operator, unit: real, vs: seq<Number>)
    requires (op == Splitter.Plus && unit == 0.0) || (op == Splitter.Times && unit == 1.0)
    requires |vs| >= 1
    ensures Formula.Fold(op, Num(Finite(unit)), Nums(vs)) == Num(Combine(op, vs))
  {
    Identities(vs[0]);
    ApplyStep(op, Finite(unit), vs[0]);
    assert Nums(vs)[1..] == Nums(vs[1..]);
    FoldCombine(op, vs);
  }

  /** Folding `-` and `/` from `numbers[0]` over `numbers.slice(1)`. */
  lemma FoldFromFirst(op: Splitter.Operator, vs: seq<Number>)
    requires |vs| >= 1
    ensures Formula.Fold(op, Formula.First(Nums(vs)), Formula.Rest(Nums(vs))) == Num(Combine(op, vs))
  {
    assert Formula.Rest(Nums(vs)) == Nums(vs[1..]);
    FoldCombine(op, vs);
  }

  /** Printed pieces of the next level, joined with an operator, are its chunks. */
  lemma LevelChunks(ps: seq<string>, op: Splitter.Operator)
    requires |ps| >= 1
    requires forall k :: 0 <= k < |ps| ==> Shaped(ps[k], Rank(op) + 1)
    ensures Splitter.SplitChunks(Text.JoinWith(ps, op.Symbol()), op) == ps
  {
    forall k | 0 <= k < |ps| ensures Splitter.NoCut(0, ps[k], op) && Splitter.Depth(0, ps[k]) == 0 {
      assert Shaped(ps[k], Rank(op) + 1);
    }
    Splitter.SplitOfJoin(ps, op);
  }

  // One level of the evaluator on pieces whose values are known.

  lemma PlusLevel(rt: Runtime, ro: Formula.Routing, ts: seq<string>, vs: seq<Number>)
    requires |ts| == |vs| >= 1
    requires forall k :: 0 <= k < |ts| ==> Shaped(ts[k], 1) && Formula.Minus(rt, ro, ts[k]) == Num(vs[k])
    ensures Formula.Plus(rt, ro, Text.JoinWith(ts, '+')) == Num(Combine(Splitter.Plus, vs))
  {
    LevelChunks(ts, Splitter.Plus);
    Formula.PlusOfChunks(rt, ro, Text.JoinWith(ts, '+'), Nums(vs));
    FoldFromUnit(Splitter.Plus, 0.0, vs);
  }

  lemma MinusLevel(rt: Runtime, ro: Formula.Routing, ts: seq<string>, vs: seq<Number>)
    requires |ts| == |vs| >= 1
    requires forall k :: 0 <= k < |ts| ==> Shaped(ts[k], 2) && Formula.Mult(rt, ro, ts[k]) == Num(vs[k])
    ensures Formula.Minus(rt, ro, Text.JoinWith(ts, '-')) == Num(Combine(Splitter.Minus, vs))
  {
    LevelChunks(ts, Splitter.Minus);
    Formula.MinusOfChunks(rt, ro, Text.JoinWith(ts, '-'), Nums(vs));
    assert ts[0] != [];
    FoldFromFirst(Splitter.Minus, vs);
  }

  lemma TimesLevel(rt: Runtime, ro: Formula.Routing, ts: seq<string>, vs: seq<Number>)
    requires |ts| == |vs| >= 1
    requires forall k :: 0 <= k < |ts| ==> Shaped(ts[k], 3) && Formula.Factor(rt, ro, ts[k]) == Num(vs[k])
    ensures Formula.Mult(rt, ro, Text.JoinWith(ts, '*')) == Num(Combine(Splitter.Times, vs))
  {
    LevelChunks(ts, Splitter.Times);
    Formula.MultOfChunks(rt, ro, Text.JoinWith(ts, '*'), Nums(vs));
    FoldFromUnit(Splitter.Times, 1.0, vs);
  }

  lemma DivideLevel(rt: Runtime, ro: Formula.Routing, ts: seq<string>, vs: seq<Number>)
    requires |ts| == |vs| >= 1
    requires forall k :: 0 <= k < |ts| ==> Shaped(ts[k], 4) && Formula.DivOperand(rt, ro, ts[k]) == Num(vs[k])
    ensures Formula.Div(rt, ro, Text.JoinWith(ts, '/')) == Num(Combine(Splitter.Divide, vs))
  {
    LevelChunks(ts, Splitter.Divide);
    Formula.DivOfChunks(rt, ro, Text.JoinWith(ts, '/'), Nums(vs));
    FoldFromFirst(Splitter.Divide, vs);
  }

  /** Piece k of a sum, as printed, is shaped for the level below and evaluates to
      that piece's value. */
  lemma {:induction false} SumPiece(rt: Runtime, ro: Formula.Routing, e: Sum, k: nat)
    requires k <= |e.rest|
    ensures Shaped(SumTexts(ro, e)[k], 1)
    ensures Formula.Minus(rt, ro, SumTexts(ro, e)[k]) == Num(SumValues(e)[k])
    decreases e, 0
  {
    var d := if k == 0 then e.first else e.rest[k - 1];
    assert SumTexts(ro, e)[k] == PrintDiff(ro, d);
    assert SumValues(e)[k] == ValueDiff(d);
    ShapeDiff(ro, d);
    EvalDiff(rt, ro, d);
  }

  lemma {:induction false} EvalSum(rt: Runtime, ro: Formula.Routing, e: Sum)
    ensures Formula.Plus(rt, ro, PrintSum(ro, e)) == Num(ValueSum(e))
    decreases e, 1
  {
    var ts, vs := SumTexts(ro, e), SumValues(e);
    forall k | 0 <= k < |ts| ensures Shaped(ts[k], 1) && Formula.Minus(rt, ro, ts[k]) == Num(vs[k]) {
      SumPiece(rt, ro, e, k);
    }
    PlusLevel(rt, ro, ts, vs);
  }

  /** Piece k of a diff, as printed, is shaped for the level below and evaluates to
      that piece's value. */
  lemma {:induction false} DiffPiece(rt: Runtime, ro: Formula.Routing, d: Diff, k: nat)
    requires k <= |d.rest|
    ensures Shaped(DiffTexts(ro, d)[k], 2)
    ensures Formula.Mult(rt, ro, DiffTexts(ro, d)[k]) == Num(DiffValues(d)[k])
    decreases d, 0
  {
    var p := if k == 0 then d.first else d.rest[k - 1];
    assert DiffTexts(ro, d)[k] == PrintProd(ro, p);
    assert DiffValues(d)[k] == ValueProd(p);
    ShapeProd(ro, p);
    EvalProd(rt, ro, p);
  }

  lemma {:induction false} EvalDiff(rt: Runtime, ro: Formula.Routing, d: Diff)
    ensures Formula.Minus(rt, ro, PrintDiff(ro, d)) == Num(ValueDiff(d))
    decreases d, 1
  {
    var ts, vs := DiffTexts(ro, d), DiffValues(d);
    forall k | 0 <= k < |ts| ensures Shaped(ts[k], 2) && Formula.Mult(rt, ro, ts[k]) == Num(vs[k]) {
      DiffPiece(rt, ro, d, k);
    }
    MinusLevel(rt, ro, ts, vs);
  }

  /** Piece k of a prod, as printed, is shaped for the level below and evaluates to
      that piece's value. */
  lemma {:induction false} ProdPiece(rt: Runtime, ro: Formula.Routing, p: Prod, k: nat)
    requires k <= |p.rest|
    ensures Shaped(ProdTexts(ro, p)[k], 3)
    ensures Formula.Factor(rt, ro, ProdTexts(ro, p)[k]) == Num(ProdValues(p)[k])
    decreases p, 0
  {
    var q := if k == 0 then p.first else p.rest[k - 1];
    assert ProdTexts(ro, p)[k] == PrintFactor(ro, q);
    assert ProdValues(p)[k] == ValueQuot(q);
    ShapeFactor(ro, q);
    EvalFactor(rt, ro, q);
  }

  lemma {:induction false} EvalProd(rt: Runtime, ro: Formula.Routing, p: Prod)
    ensures Formula.Mult(rt, ro, PrintProd(ro, p)) == Num(ValueProd(p))
    decreases p, 1
  {
    var ts, vs := ProdTexts(ro, p), ProdValues(p);
    forall k | 0 <= k < |ts| ensures Shaped(ts[k], 3) && Formula.Factor(rt, ro, ts[k]) == Num(vs[k]) {
      ProdPiece(rt, ro, p, k);
    }
    TimesLevel(rt, ro, ts, vs);
  }

  /** A numeral reads back as its value. */
  lemma NumeralValue(rt: Runtime, n: nat)
    ensures !Formula.OpensGroup(Decimal.FromNat(n))
    ensures ToNumber(rt, Decimal.FromNat(n)) == Finite(n as real)
  {
    var s := Decimal.FromNat(n);
    assert Decimal.IsDigit(s[0]);
    ToNumberOfDigits(rt, s);
    Decimal.ValueOfFromNat(n);
  }

  lemma UnwrapParenthesised(x: string)
    ensures Formula.OpensGroup(Parenthesised(x))
    ensures Formula.Unwrap(Parenthesised(x)) == x
  {
    assert Parenthesised(x)[1..|x| + 1] == x;
  }

  lemma {:induction false} EvalFactor(rt: Runtime, ro: Formula.Routing, q: Quot)
    ensures Formula.Factor(rt, ro, PrintFactor(ro, q)) == Num(ValueQuot(q))
    decreases q, 2
  {
    if ro.Intended? {
      EvalQuot(rt, ro, q);
    } else if !Bare(q) {
      UnwrapParenthesised(PrintQuot(ro, q));
      EvalQuot(rt, ro, q);
    } else {
      var n := q.first.n;
      assert QuotTexts(ro, q) == [Decimal.FromNat(n)];
      assert QuotValues(q) == [Finite(n as real)];
      NumeralValue(rt, n);
    }
  }

  /** Piece k of a quot, as printed, is shaped for the level below and evaluates to
      that piece's value. */
  lemma {:induction false} QuotPiece(rt: Runtime, ro: Formula.Routing, q: Quot, k: nat)
    requires k <= |q.rest|
    ensures Shaped(QuotTexts(ro, q)[k], 4)
    ensures Formula.DivOperand(rt, ro, QuotTexts(ro, q)[k]) == Num(QuotValues(q)[k])
    decreases q, 0
  {
    var a := if k == 0 then q.first else q.rest[k - 1];
    assert QuotTexts(ro, q)[k] == PrintAtom(ro, a);
    assert QuotValues(q)[k] == ValueAtom(a);
    ShapeAtom(ro, a);
    EvalAtom(rt, ro, a);
  }

  lemma {:induction false} EvalQuot(rt: Runtime, ro: Formula.Routing, q: Quot)
    ensures Formula.Div(rt, ro, PrintQuot(ro, q)) == Num(ValueQuot(q))
    decreases q, 1
  {
    var ts, vs := QuotTexts(ro, q), QuotValues(q);
    forall k | 0 <= k < |ts| ensures Shaped(ts[k], 4) && Formula.DivOperand(rt, ro, ts[k]) == Num(vs[k]) {
      QuotPiece(rt, ro, q, k);
    }
    DivideLevel(rt, ro, ts, vs);
  }

  lemma {:induction false} EvalAtom(rt: Runtime, ro: Formula.Routing, a: Atom)
    ensures Formula.DivOperand(rt, ro, PrintAtom(ro, a)) == Num(ValueAtom(a))
    decreases a, 1
  {
    match a
    case Lit(n) => NumeralValue(rt, n);
    case Group(e) =>
      UnwrapParenthesised(PrintSum(ro, e));
      EvalSum(rt, ro, e);
  }

  /** A printed expression entered as a formula shows its value. */
  lemma FormulaShowsValue(rt: Runtime, ro: Formula.Routing, e: Sum)
    ensures Formula.ParseFormula(rt, ro, ['='] + PrintSum(ro, e)) == NumberToString(rt, ValueSum(e))
  {
    EvalSum(rt, ro, e);
    assert Formula.AfterSign(['='] + PrintSum(ro, e)) == PrintSum(ro, e);
  }
}
