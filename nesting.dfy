/** Well-nested text: how the running parenthesis counter of `split` behaves on numerals,
    on parenthesised text and on texts joined with an operator. */
module Nesting {
  import Text
  import Decimal
  import opened Splitter

  /** Every counter value met while scanning `s` from `d` is at least `m`. */
  predicate AtLeast(d: int, s: string, m: int)
    decreases |s|
  {
    s == [] || (d + Delta(s[0]) >= m && AtLeast(d + Delta(s[0]), s[1..], m))
  }

  /** The parentheses of `s` match: the counter never drops below 0 and ends at 0. */
  predicate Nested(s: string) {
    Depth(0, s) == 0 && AtLeast(0, s, 0)
  }

  lemma AtLeastCons(d: int, c: char, t: string, m: int)
    ensures AtLeast(d, [c] + t, m) <==> d + Delta(c) >= m && AtLeast(d + Delta(c), t, m)
  {
    assert ([c] + t)[1..] == t;
  }

  lemma {:induction false} AtLeastAppend(d: int, a: string, b: string, m: int)
    requires AtLeast(d, a, m) && AtLeast(Depth(d, a), b, m)
    ensures AtLeast(d, a + b, m)
    decreases |a|
  {
    if a == [] {
      assert a + b == b;
    } else {
      var c, t := a[0], a[1..];
      assert a == [c] + t;
      assert a + b == [c] + (t + b);
      DepthCons(d, c, t);
      AtLeastAppend(d + Delta(c), t, b, m);
      AtLeastCons(d, c, t + b, m);
    }
  }

  lemma {:induction false} NoCutAppend(d: int, a: string, b: string, op: Operator)
    requires NoCut(d, a, op) && NoCut(Depth(d, a), b, op)
    ensures NoCut(d, a + b, op)
    decreases |a|
  {
    if a == [] {
      assert a + b == b;
    } else {
      var c, t := a[0], a[1..];
      assert a == [c] + t;
      assert a + b == [c] + (t + b);
      DepthCons(d, c, t);
      NoCutCons(d, c, t, op);
      NoCutAppend(d + Delta(c), t, b, op);
      NoCutCons(d, c, t + b, op);
    }
  }

  /** Text scanned with the counter above 0 holds no cut. */
  lemma {:induction false} AboveHasNoCut(d: int, s: string, op: Operator)
    requires AtLeast(d, s, 1)
    ensures NoCut(d, s, op)
    decreases |s|
  {
    if s != [] {
      var c, t := s[0], s[1..];
      assert s == [c] + t;
      AboveHasNoCut(d + Delta(c), t, op);
      NoCutCons(d, c, t, op);
    }
  }

  lemma {:induction false} AtLeastShift(d: int, s: string, m: int)
    requires AtLeast(d, s, m)
    ensures AtLeast(d + 1, s, m + 1)
    decreases |s|
  {
    if s != [] {
      AtLeastShift(d + Delta(s[0]), s[1..], m);
    }
  }

  lemma {:induction false} AtLeastWeaken(d: int, s: string, m: int, m': int)
    requires AtLeast(d, s, m) && m' <= m
    ensures AtLeast(d, s, m')
    decreases |s|
  {
    if s != [] {
      AtLeastWeaken(d + Delta(s[0]), s[1..], m, m');
    }
  }

  /** A numeral moves no counter and holds no operator. */
  lemma {:induction false} NumeralShape(s: string, op: Operator)
    requires Decimal.AllDigits(s)
    ensures Nested(s) && NoCut(0, s, op)
    decreases |s|
  {
    if s != [] {
      var c, t := s[0], s[1..];
      assert s == [c] + t;
      assert Decimal.IsDigit(c);
      NumeralShape(t, op);
      NoCutCons(0, c, t, op);
    }
  }

  /** An operator character alone, between two pieces. */
  lemma SeparatorShape(sep: char, op: Operator)
    requires sep != '(' && sep != ')'
    ensures Nested([sep])
    ensures sep != op.Symbol() ==> NoCut(0, [sep], op)
  {
    assert [sep][1..] == [];
    NoCutCons(0, sep, [], op);
  }

  /** Parenthesising well-nested text gives well-nested text without a cut. */
  lemma WrapShape(x: string, op: Operator)
    requires Nested(x)
    ensures Nested(['('] + x + [')'])
    ensures NoCut(0, ['('] + x + [')'], op)
  {
    var w := ['('] + x + [')'];
    assert w == ['('] + (x + [')']);
    DepthShift(1, x);
    AtLeastShift(0, x, 0);
    AtLeastWeaken(1, x, 1, 0);
    // after the '(' the counter is 1, after x it is 1 again, after ')' it is 0
    assert Depth(1, x) == 1;
    assert [')'][1..] == [];
    assert AtLeast(1, [')'], 0);
    assert Depth(1, [')']) == 0;
    AtLeastAppend(1, x, [')'], 0);
    DepthAppend(1, x, [')']);
    AtLeastCons(0, '(', x + [')'], 0);
    DepthCons(0, '(', x + [')']);
    AboveHasNoCut(1, x, op);
    NoCutCons(1, ')', [], op);
    NoCutAppend(1, x, [')'], op);
    NoCutCons(0, '(', x + [')'], op);
  }

  /** `a + [sep] + b` of well-nested pieces is well nested, and free of cuts for an
      operator other than `sep` when both pieces are. */
  lemma GlueShape(a: string, sep: char, b: string, op: Operator)
    requires Nested(a) && Nested(b) && sep != '(' && sep != ')'
    ensures Nested(a + [sep] + b)
    ensures NoCut(0, a, op) && NoCut(0, b, op) && sep != op.Symbol() ==> NoCut(0, a + [sep] + b, op)
  {
    SeparatorShape(sep, op);
    DepthAppend(0, a, [sep]);
    AtLeastAppend(0, a, [sep], 0);
    DepthAppend(0, a + [sep], b);
    AtLeastAppend(0, a + [sep], b, 0);
    if NoCut(0, a, op) && NoCut(0, b, op) && sep != op.Symbol() {
      NoCutAppend(0, a, [sep], op);
      NoCutAppend(0, a + [sep], b, op);
    }
  }

  /** Joining well-nested pieces gives well-nested text. */
  lemma {:induction false} JoinShape(ps: seq<string>, sep: char)
    requires sep != '(' && sep != ')'
    requires forall k :: 0 <= k < |ps| ==> Nested(ps[k])
    ensures Nested(Text.JoinWith(ps, sep))
    decreases |ps|
  {
    if |ps| == 0 {
      assert Depth(0, "") == 0;
    } else if |ps| > 1 {
      var init := ps[..|ps| - 1];
      JoinShape(init, sep);
      GlueShape(Text.JoinWith(init, sep), sep, ps[|ps| - 1], Splitter.Plus);
    }
  }

  /** Joining pieces free of cuts for `op`, with a different separator, keeps them free. */
  lemma {:induction false} JoinNoCut(ps: seq<string>, sep: char, op: Operator)
    requires sep != '(' && sep != ')' && sep != op.Symbol()
    requires forall k :: 0 <= k < |ps| ==> Nested(ps[k]) && NoCut(0, ps[k], op)
    ensures NoCut(0, Text.JoinWith(ps, sep), op)
    decreases |ps|
  {
    if |ps| > 1 {
      var init := ps[..|ps| - 1];
      JoinNoCut(init, sep, op);
      JoinShape(init, sep);
      GlueShape(Text.JoinWith(init, sep), sep, ps[|ps| - 1], op);
    }
  }

  /** A join whose first piece is not empty is not empty. */
  lemma {:induction false} JoinNonEmpty(ps: seq<string>, sep: char)
    requires |ps| >= 1 && ps[0] != []
    ensures Text.JoinWith(ps, sep) != []
    decreases |ps|
  {
    if |ps| > 1 {
      JoinNonEmpty(ps[..|ps| - 1], sep);
    }
  }
}
