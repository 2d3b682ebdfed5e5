/** JavaScript numbers as the formula evaluator uses them: idealised real arithmetic with
    NaN and the two infinities, the `undefined` an out-of-bounds array read yields, the
    number coercion `+s` (ToNumber, section 7.1.4 of ECMA-262) and `String(x)`
    (Number::toString, section 6.1.6.1.20 of ECMA-262). */
module JsNumber {
  import Decimal
  import opened Wrappers

  /** An IEEE-754 double seen without rounding and without signed zero. */
  datatype Number = NaN | PosInf | NegInf | Finite(r: real)

  /** A value of a number-typed variable; `undefined` is what `[][0]` reads. */
  datatype JsValue = Undefined | Num(n: Number)

  /** The parts of the JavaScript runtime that this model leaves abstract: ToNumber
      on text outside the decimal fragment, and the shortest round-trip rendering of
      non-integral or very large finite numbers. */
  datatype Runtime = Runtime(otherToNumber: string -> Number, otherToString: real -> string)

  function Negate(a: Number): Number {
    match a
    case NaN => NaN
    case PosInf => NegInf
    case NegInf => PosInf
    case Finite(x) => Finite(-x)
  }

  function Add(a: Number, b: Number): (r: Number)
    ensures a.NaN? || b.NaN? ==> r.NaN?
    ensures (a.PosInf? && b.NegInf?) || (a.NegInf? && b.PosInf?) ==> r.NaN?
  {
    match (a, b)
    case (NaN, _) => NaN
    case (_, NaN) => NaN
    case (PosInf, NegInf) => NaN
    case (NegInf, PosInf) => NaN
    case (PosInf, _) => PosInf
    case (NegInf, _) => NegInf
    case (_, PosInf) => PosInf
    case (_, NegInf) => NegInf
    case (Finite(x), Finite(y)) => Finite(x + y)
  }

  /** `a - b`, as the sum with the negation. */
  function Sub(a: Number, b: Number): (r: Number)
    ensures a.NaN? || b.NaN? ==> r.NaN?
    ensures (a.PosInf? && b.PosInf?) || (a.NegInf? && b.NegInf?) ==> r.NaN?
    ensures a.Finite? && b.Finite? ==> r == Finite(a.r - b.r)
  {
    Add(a, Negate(b))
  }

  /** The sign of an infinite product or quotient. */
  function Signed(positive: bool): Number {
    if positive then PosInf else NegInf
  }

  function Sign(a: Number): int {
    match a
    case NaN => 0
    case PosInf => 1
    case NegInf => -1
    case Finite(x) => if x > 0.0 then 1 else if x < 0.0 then -1 else 0
  }

  function Mul(a: Number, b: Number): (r: Number)
    ensures a.NaN? || b.NaN? ==> r.NaN?
  {
    match (a, b)
    case (NaN, _) => NaN
    case (_, NaN) => NaN
    case (Finite(x), Finite(y)) => Finite(x * y)
    case _ =>
      // at least one infinity: infinity times zero is NaN
      if Sign(a) == 0 || Sign(b) == 0 then NaN else Signed(Sign(a) == Sign(b))
  }

  function Div(a: Number, b: Number): (r: Number)
    ensures a.NaN? || b.NaN? ==> r.NaN?
    ensures b == Finite(0.0) && a.Finite? ==>
      r == if a.r > 0.0 then PosInf else if a.r < 0.0 then NegInf else NaN
    ensures a.Finite? && b.Finite? && b.r != 0.0 ==> r == Finite(a.r / b.r)
    ensures a.Finite? && (b.PosInf? || b.NegInf?) ==> r == Finite(0.0)
  {
    match (a, b)
    case (NaN, _) => NaN
    case (_, NaN) => NaN
    case (Finite(x), Finite(y)) =>
      if y != 0.0 then Finite(x / y)
      else if x == 0.0 then NaN
      else Signed(x > 0.0)
    case (Finite(_), _) => Finite(0.0)
    case (_, Finite(y)) => Signed((Sign(a) > 0) == (y >= 0.0))
    case _ => NaN
  }

  /** An operand of `+ - * /`: `undefined` converts to NaN. */
  function Operand(v: JsValue): Number {
    if v.Undefined? then NaN else v.n
  }

  function JsAdd(x: JsValue, y: JsValue): (r: JsValue)
    ensures r.Num?
    ensures x.Undefined? || y.Undefined? ==> r == Num(NaN)
  {
    Num(Add(Operand(x), Operand(y)))
  }

  function JsSub(x: JsValue, y: JsValue): (r: JsValue)
    ensures r.Num?
    ensures x.Undefined? || y.Undefined? ==> r == Num(NaN)
  {
    Num(Sub(Operand(x), Operand(y)))
  }

  function JsMul(x: JsValue, y: JsValue): (r: JsValue)
    ensures r.Num?
    ensures x.Undefined? || y.Undefined? ==> r == Num(NaN)
  {
    Num(Mul(Operand(x), Operand(y)))
  }

  function JsDiv(x: JsValue, y: JsValue): (r: JsValue)
    ensures r.Num?
    ensures x.Undefined? || y.Undefined? ==> r == Num(NaN)
  {
    Num(Div(Operand(x), Operand(y)))
  }

  /** 0 is the identity of `+` and 1 of `*` (there being no signed zero here). */
  lemma Identities(a: Number)
    ensures Add(Finite(0.0), a) == a
    ensures Mul(Finite(1.0), a) == a
  {
  }

  /** On finite operands the operators are those of the reals (division by a non-zero). */
  lemma FiniteArithmetic(a: real, b: real)
    ensures JsAdd(Num(Finite(a)), Num(Finite(b))) == Num(Finite(a + b))
    ensures JsSub(Num(Finite(a)), Num(Finite(b))) == Num(Finite(a - b))
    ensures JsMul(Num(Finite(a)), Num(Finite(b))) == Num(Finite(a * b))
    ensures b != 0.0 ==> JsDiv(Num(Finite(a)), Num(Finite(b))) == Num(Finite(a / b))
  {
    assert Mul(Finite(a), Finite(b)) == Finite(a * b);
  }

  // ---------------- ToNumber ----------------

  /** The value of an unsigned decimal literal `D+`, `D+.D*` or `.D+`, if `s` is one. */
  function UnsignedDecimal(s: string): (v: Option<real>)
    ensures v.Some? ==> v.value >= 0.0
  {
    var k := DotIndex(s);
    if k == |s| then
      if s != [] && Decimal.AllDigits(s) then Some(Decimal.Value(s) as real) else None
    else
      var whole, fraction := s[..k], s[k + 1..];
      if Decimal.AllDigits(whole) && Decimal.AllDigits(fraction) && (whole != [] || fraction != []) then
        Some(Decimal.Value(whole) as real + Decimal.Value(fraction) as real / Decimal.Pow10(|fraction|) as real)
      else None
  }

  /** Index of the first '.', or |s| when there is none. */
  function DotIndex(s: string): (k: nat)
    ensures k <= |s|
    ensures k < |s| ==> s[k] == '.'
    ensures forall i :: 0 <= i < k ==> s[i] != '.'
  {
    if s == [] then 0 else if s[0] == '.' then 0 else 1 + DotIndex(s[1..])
  }

  /** A decimal literal with an optional sign. */
  function SignedDecimal(s: string): Option<real> {
    if |s| >= 1 && s[0] == '-' then
      match UnsignedDecimal(s[1..])
      case Some(x) => Some(-x)
      case None => None
    else if |s| >= 1 && s[0] == '+' then UnsignedDecimal(s[1..])
    else UnsignedDecimal(s)
  }

  /** A printable ASCII character that no StringNumericLiteral nor white space contains. */
  predicate NonNumericChar(ch: char) {
    '!' <= ch <= '~'
    && !Decimal.IsDigit(ch)
    && ch !in ".+-eExXoObBabcdefABCDEFInfity"
  }

  /** Text that is certainly not a StringNumericLiteral: a character from outside its
      alphabet, or a sign right after a digit (a sign may only open the literal or
      follow an exponent marker). */
  predicate CertainlyNotNumeric(s: string) {
    (exists i :: 0 <= i < |s| && NonNumericChar(s[i]))
    || (exists i :: 0 <= i < |s| - 1 && Decimal.IsDigit(s[i]) && s[i + 1] in "+-")
  }

  /** `+s`: ToNumber applied to a string. */
  function ToNumber(rt: Runtime, s: string): (n: Number)
    ensures s == "" ==> n == Finite(0.0)
    ensures SignedDecimal(s).Some? ==> n == Finite(SignedDecimal(s).value)
    ensures s != "" && SignedDecimal(s).None? && CertainlyNotNumeric(s) ==> n == NaN
  {
    if s == "" then Finite(0.0)
    else if SignedDecimal(s).Some? then Finite(SignedDecimal(s).value)
    else if s == "Infinity" || s == "+Infinity" then PosInf
    else if s == "-Infinity" then NegInf
    else if CertainlyNotNumeric(s) then NaN
    else rt.otherToNumber(s)
  }

  // ---------------- String(number) ----------------

  const Exact: int := 1_000_000_000_000_000_000_000   // 10^21: integers below print as plain digits

  predicate Integral(x: real) {
    x.Floor as real == x
  }

  /** `String(x)` for a number. */
  function NumberToString(rt: Runtime, x: Number): (s: string)
    ensures x.NaN? ==> s == "NaN"
    ensures x.PosInf? ==> s == "Infinity"
    ensures x.Finite? && PlainlyPrinted(x) ==> |s| >= 1 && (s[0] == '-' <==> x.r < 0.0)
  {
    match x
    case NaN => "NaN"
    case PosInf => "Infinity"
    case NegInf => "-Infinity"
    case Finite(r) =>
      if Integral(r) && -Exact < r.Floor < Exact then
        if r.Floor < 0 then "-" + Decimal.FromNat(-r.Floor) else Decimal.FromNat(r.Floor)
      else rt.otherToString(r)
  }

  /** Numbers that `String` renders without the abstract part of the runtime. */
  predicate PlainlyPrinted(x: Number) {
    x.Finite? ==> Integral(x.r) && -Exact < x.r.Floor < Exact
  }

  lemma {:induction false} DotIndexOfDigits(s: string)
    requires Decimal.AllDigits(s)
    ensures DotIndex(s) == |s|
  {
    if s != [] {
      DotIndexOfDigits(s[1..]);
    }
  }

  /** A numeral reads as its value. */
  lemma ToNumberOfDigits(rt: Runtime, s: string)
    requires s != [] && Decimal.AllDigits(s)
    ensures ToNumber(rt, s) == Finite(Decimal.Value(s) as real)
  {
    DotIndexOfDigits(s);
    assert Decimal.IsDigit(s[0]);
  }

  lemma UnsignedOfFromNat(n: nat)
    ensures UnsignedDecimal(Decimal.FromNat(n)) == Some(n as real)
  {
    DotIndexOfDigits(Decimal.FromNat(n));
    Decimal.ValueOfFromNat(n);
  }

  lemma ToNumberOfNaN(rt: Runtime)
    ensures ToNumber(rt, "NaN") == NaN
  {
    assert DotIndex("aN") == 2;
    assert DotIndex("NaN") == 3;
    assert !Decimal.IsDigit('N');
    assert NonNumericChar("NaN"[0]);
  }

  lemma {:induction false} DotIndexNoDot(s: string)
    requires forall i :: 0 <= i < |s| ==> s[i] != '.'
    ensures DotIndex(s) == |s|
  {
    if s != [] {
      DotIndexNoDot(s[1..]);
    }
  }

  lemma ToNumberOfInfinity(rt: Runtime)
    ensures ToNumber(rt, "Infinity") == PosInf
    ensures ToNumber(rt, "-Infinity") == NegInf
  {
    InfinityNotDecimal();
  }

  /** "Infinity" and "-Infinity" are no decimal literals. */
  lemma InfinityNotDecimal()
    ensures SignedDecimal("Infinity").None? && SignedDecimal("-Infinity").None?
  {
    var t := "Infinity";
    assert forall i :: 0 <= i < |t| ==> t[i] != '.';
    LetterNotDecimal(t);
    assert "-Infinity"[1..] == t;
  }

  /** Text without a dot that opens with a non-digit is no unsigned decimal literal. */
  lemma LetterNotDecimal(s: string)
    requires s != [] && !Decimal.IsDigit(s[0])
    requires forall i :: 0 <= i < |s| ==> s[i] != '.'
    ensures UnsignedDecimal(s).None?
  {
    DotIndexNoDot(s);
  }

  /** Reading back what `String` printed gives the number again. */
  lemma ToNumberOfNumberToString(rt: Runtime, x: Number)
    requires PlainlyPrinted(x)
    ensures ToNumber(rt, NumberToString(rt, x)) == x
  {
    match x
    case NaN => ToNumberOfNaN(rt);
    case PosInf => ToNumberOfInfinity(rt);
    case NegInf => ToNumberOfInfinity(rt);
    case Finite(r) =>
      var f := r.Floor;
      if f < 0 {
        var s := "-" + Decimal.FromNat(-f);
        assert s[1..] == Decimal.FromNat(-f);
        UnsignedOfFromNat(-f);
      } else {
        var s := Decimal.FromNat(f);
        UnsignedOfFromNat(f);
        assert s[0] != '-' && s[0] != '+' by { assert Decimal.IsDigit(s[0]); }
      }
  }
}
