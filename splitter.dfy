/** `split` of use-cell.ts: cut an expression at one operator character, but only where
    the running parenthesis counter is zero. */
module Splitter {
  import Text

  /** The operators the evaluator splits on (`TOperator`). */
  datatype Operator = Plus | Minus | Times | Divide {
    function Symbol(): (ch: char)
      ensures ch != '(' && ch != ')'
    {
      match this
      case Plus => '+'
      case Minus => '-'
      case Times => '*'
      case Divide => '/'
    }
  }

  /** How one character moves the `braces` counter. */
  function Delta(ch: char): int {
    if ch == '(' then 1 else if ch == ')' then -1 else 0
  }

  /** The counter after scanning `s` from the value `d`. */
  function Depth(d: int, s: string): int
    decreases |s|
  {
    if s == [] then d else Depth(d + Delta(s[0]), s[1..])
  }

  lemma {:induction false} DepthAppend(d: int, a: string, b: string)
    ensures Depth(d, a + b) == Depth(Depth(d, a), b)
    decreases |a|
  {
    if a != [] {
      assert (a + b)[1..] == a[1..] + b;
      DepthAppend(d + Delta(a[0]), a[1..], b);
    } else {
      assert a + b == b;
    }
  }

  lemma {:induction false} DepthShift(d: int, s: string)
    ensures Depth(d, s) == d + Depth(0, s)
    decreases |s|
  {
    if s != [] {
      DepthShift(d + Delta(s[0]), s[1..]);
      DepthShift(Delta(s[0]), s[1..]);
    }
  }

  /** Position `i` is a cut: the operator, met while the counter (after this character) is 0. */
  predicate IsCut(d: int, s: string, op: Operator, i: nat)
    requires i < |s|
  {
    s[i] == op.Symbol() && Depth(d, s[..i + 1]) == 0
  }

  /** No position of `s`, scanned from counter `d`, is a cut. */
  predicate NoCut(d: int, s: string, op: Operator) {
    forall i :: 0 <= i < |s| ==> !IsCut(d, s, op, i)
  }

  /** The number of cuts among the first `n` positions. */
  function CutsBelow(d: int, s: string, op: Operator, n: nat): nat
    requires n <= |s|
  {
    if n == 0 then 0 else CutsBelow(d, s, op, n - 1) + (if IsCut(d, s, op, n - 1) then 1 else 0)
  }

  function CutCount(d: int, s: string, op: Operator): nat {
    CutsBelow(d, s, op, |s|)
  }

  /** The chunks `split` collects, trailing chunk included even when empty, scanning
      from counter value `d`. */
  function Pieces(d: int, s: string, op: Operator): (ps: seq<string>)
    ensures |ps| >= 1
    ensures |ps| == 1 ==> ps[0] == s
    decreases |s|
  {
    if s == [] then [""]
    else
      var d' := d + Delta(s[0]);
      var rest := Pieces(d', s[1..], op);
      if d' == 0 && s[0] == op.Symbol() then [""] + rest
      else [[s[0]] + rest[0]] + rest[1..]
  }

  /** `split(expression, operator)`: the pieces, with an empty trailing piece dropped. */
  function SplitChunks(s: string, op: Operator): (chunks: seq<string>)
    ensures forall k :: 0 <= k < |chunks| ==> |chunks[k]| <= |s|
    ensures chunks == [] <==> s == []
  {
    var ps := Pieces(0, s, op);
    PiecesNoLonger(0, s, op);
    if ps[|ps| - 1] == "" then ps[..|ps| - 1] else ps
  }

  lemma {:induction false} PiecesNoLonger(d: int, s: string, op: Operator)
    ensures forall k :: 0 <= k < |Pieces(d, s, op)| ==> |Pieces(d, s, op)[k]| <= |s|
    decreases |s|
  {
    if s != [] {
      var c, t := s[0], s[1..];
      assert s == [c] + t;
      PiecesCons(d, c, t, op);
      PiecesNoLonger(d + Delta(c), t, op);
    }
  }

  /** One step of the scan: how the pieces of `[c] + t` come from those of `t`. */
  lemma PiecesCons(d: int, c: char, t: string, op: Operator)
    ensures var rest := Pieces(d + Delta(c), t, op);
      Pieces(d, [c] + t, op) ==
        if d + Delta(c) == 0 && c == op.Symbol() then [""] + rest
        else [[c] + rest[0]] + rest[1..]
  {
    assert ([c] + t)[1..] == t;
  }

  /** The loop of `split` (use-cell.ts, lines 14-42). */
  method Split(expression: string, op: Operator) returns (result: seq<string>)
    ensures result == SplitChunks(expression, op)
  {
    result := [];
    var braces := 0;
    var currentChunk := "";
    ghost var ps := Pieces(0, expression, op);
    // the pieces the rest of the scan will produce
    ghost var pending := ps;
    ScanStart(ps);
    assert expression[0..] == expression;
    for i := 0 to |expression|
      invariant pending == Pieces(braces, expression[i..], op)
      invariant ps == result + [currentChunk + pending[0]] + pending[1..]
    {
      var currentChar := expression[i];
      assert expression[i..] == [currentChar] + expression[i + 1..];
      ghost var next := Pieces(braces + Delta(currentChar), expression[i + 1..], op);
      if braces + Delta(currentChar) == 0 && currentChar == op.Symbol() {
        ScanCut(braces, currentChar, expression[i + 1..], op, ps, result, currentChunk);
      } else {
        ScanChar(braces, currentChar, expression[i + 1..], op, ps, result, currentChunk);
      }
      if currentChar == '(' {
        braces := braces + 1;
      } else if currentChar == ')' {
        braces := braces - 1;
      }
      pending := next;
      if braces == 0 && currentChar == op.Symbol() {
        result := result + [currentChunk];
        currentChunk := "";
      } else {
        currentChunk := currentChunk + [currentChar];
      }
    }
    assert expression[|expression|..] == [];
    ScanEnd(ps, result, currentChunk);
    if currentChunk != "" {
      result := result + [currentChunk];
    }
  }

  lemma ScanStart(ps: seq<string>)
    requires |ps| >= 1
    ensures ps == [] + ["" + ps[0]] + ps[1..]
  {
    assert "" + ps[0] == ps[0];
  }

  /** A character that is no cut joins the current chunk. */
  lemma ScanChar(d: int, c: char, t: string, op: Operator, ps: seq<string>, result: seq<string>, chunk: string)
    requires !(d + Delta(c) == 0 && c == op.Symbol())
    requires var pending := Pieces(d, [c] + t, op); ps == result + [chunk + pending[0]] + pending[1..]
    ensures var pending := Pieces(d + Delta(c), t, op); ps == result + [(chunk + [c]) + pending[0]] + pending[1..]
  {
    var pending := Pieces(d + Delta(c), t, op);
    PiecesCons(d, c, t, op);
    assert chunk + ([c] + pending[0]) == (chunk + [c]) + pending[0];
  }

  /** A cut closes the current chunk and starts an empty one. */
  lemma ScanCut(d: int, c: char, t: string, op: Operator, ps: seq<string>, result: seq<string>, chunk: string)
    requires d + Delta(c) == 0 && c == op.Symbol()
    requires var pending := Pieces(d, [c] + t, op); ps == result + [chunk + pending[0]] + pending[1..]
    ensures var pending := Pieces(d + Delta(c), t, op); ps == (result + [chunk]) + ["" + pending[0]] + pending[1..]
  {
    var pending := Pieces(d + Delta(c), t, op);
    PiecesCons(d, c, t, op);
    assert ([""] + pending)[1..] == pending;
    assert chunk + ([""] + pending)[0] == chunk;
    assert "" + pending[0] == pending[0];
    assert ["" + pending[0]] + pending[1..] == pending;
  }

  /** At the end of the text the pending pieces are one empty chunk. */
  lemma ScanEnd(ps: seq<string>, result: seq<string>, chunk: string)
    requires ps == result + [chunk + [""][0]] + [""][1..]
    ensures ps[|ps| - 1] == "" <==> chunk == ""
    ensures ps == result + [chunk]
    ensures chunk == "" ==> ps[..|ps| - 1] == result
  {
    assert chunk + "" == chunk;
  }

  // ---------------- what the chunks are ----------------

  /** The counter value a piece starts from: the first from `d`, every later one from 0,
      since the cut before it happened at counter 0 and operators do not move it. */
  function Start(d: int, k: nat): int {
    if k == 0 then d else 0
  }

  /** `ps` is a splitting of `s` at `op`: joined with the operator it gives back `s`,
      no piece holds a cut, and every piece but the last closes its parentheses, so
      that the operator after it sits at counter 0. */
  ghost predicate IsSplitting(d: int, s: string, op: Operator, ps: seq<string>) {
    && |ps| >= 1
    && Text.JoinWith(ps, op.Symbol()) == s
    && (forall k :: 0 <= k < |ps| ==> NoCut(Start(d, k), ps[k], op))
    && (forall k :: 0 <= k < |ps| - 1 ==> Depth(Start(d, k), ps[k]) == 0)
  }

  lemma CutAfterFirst(d: int, c: char, t: string, op: Operator, j: nat)
    requires 1 <= j <= |t|
    ensures IsCut(d, [c] + t, op, j) == IsCut(d + Delta(c), t, op, j - 1)
  {
    assert ([c] + t)[..j + 1] == [c] + t[..j];
    assert ([c] + t[..j])[1..] == t[..j];
  }

  lemma CutAtFirst(d: int, c: char, t: string, op: Operator)
    ensures IsCut(d, [c] + t, op, 0) == (d + Delta(c) == 0 && c == op.Symbol())
  {
    assert ([c] + t)[..1] == [c];
    assert [c][1..] == [];
    assert Depth(d, [c]) == Depth(d + Delta(c), []);
  }

  lemma NoCutCons(d: int, c: char, t: string, op: Operator)
    ensures NoCut(d, [c] + t, op) <==>
      !(d + Delta(c) == 0 && c == op.Symbol()) && NoCut(d + Delta(c), t, op)
  {
    var s := [c] + t;
    var d' := d + Delta(c);
    CutAtFirst(d, c, t, op);
    forall j | 1 <= j < |s| ensures IsCut(d, s, op, j) == IsCut(d + Delta(c), t, op, j - 1) {
      CutAfterFirst(d, c, t, op, j);
    }
    if NoCut(d, s, op) {
      forall i | 0 <= i < |t| ensures !IsCut(d', t, op, i) {
        assert IsCut(d, s, op, i + 1) == IsCut(d', t, op, i);
      }
    }
  }

  lemma DepthCons(d: int, c: char, t: string)
    ensures Depth(d, [c] + t) == Depth(d + Delta(c), t)
  {
    assert ([c] + t)[1..] == t;
  }

  /** Putting an empty piece in front, for a leading cut. */
  lemma SplittingConsCut(t: string, op: Operator, rest: seq<string>)
    requires IsSplitting(0, t, op, rest)
    ensures IsSplitting(0, [op.Symbol()] + t, op, [""] + rest)
  {
    var ps := [""] + rest;
    Text.JoinWithCons("", rest, op.Symbol());
    forall k | 0 <= k < |ps| ensures NoCut(Start(0, k), ps[k], op) {
      if k > 0 { assert ps[k] == rest[k - 1]; }
    }
    forall k | 0 <= k < |ps| - 1 ensures Depth(Start(0, k), ps[k]) == 0 {
      if k > 0 { assert ps[k] == rest[k - 1]; }
    }
  }

  /** Putting a character in front of the first piece, when it is no cut. */
  lemma SplittingConsChar(d: int, c: char, t: string, op: Operator, rest: seq<string>)
    requires !(d + Delta(c) == 0 && c == op.Symbol())
    requires IsSplitting(d + Delta(c), t, op, rest)
    ensures IsSplitting(d, [c] + t, op, [[c] + rest[0]] + rest[1..])
  {
    var ps := [[c] + rest[0]] + rest[1..];
    Text.JoinWithPrefixFirst(c, rest, op.Symbol());
    NoCutCons(d, c, rest[0], op);
    DepthCons(d, c, rest[0]);
    forall k | 0 <= k < |ps| ensures NoCut(Start(d, k), ps[k], op) {
      if k > 0 { assert ps[k] == rest[k]; }
    }
    forall k | 0 <= k < |ps| - 1 ensures Depth(Start(d, k), ps[k]) == 0 {
      if k > 0 { assert ps[k] == rest[k]; }
    }
  }

  /** The pieces are a splitting. */
  lemma {:induction false} PiecesSplitting(d: int, s: string, op: Operator)
    ensures IsSplitting(d, s, op, Pieces(d, s, op))
    decreases |s|
  {
    if s != [] {
      var c, t := s[0], s[1..];
      var d' := d + Delta(c);
      PiecesSplitting(d', t, op);
      assert s == [c] + t;
      PiecesCons(d, c, t, op);
      if d' == 0 && c == op.Symbol() {
        SplittingConsCut(t, op, Pieces(d', t, op));
      } else {
        SplittingConsChar(d, c, t, op, Pieces(d', t, op));
      }
    }
  }

  lemma JoinWithEmpty(ps: seq<string>, sep: char)
    requires |ps| >= 1
    requires Text.JoinWith(ps, sep) == []
    ensures ps == [""]
  {
  }

  /** A splitting whose first piece is empty starts with a cut. */
  lemma SplittingTailCut(d: int, s: string, op: Operator, ps: seq<string>)
    requires IsSplitting(d, s, op, ps) && ps[0] == [] && s != []
    ensures |ps| >= 2 && d == 0 && s[0] == op.Symbol()
    ensures IsSplitting(0, s[1..], op, ps[1..])
  {
    var sep := op.Symbol();
    Text.JoinWithCons("", ps[1..], sep);
    assert [ps[0]] + ps[1..] == ps;
    assert s == [sep] + Text.JoinWith(ps[1..], sep);
    assert Depth(Start(d, 0), ps[0]) == 0;
    assert s[1..] == Text.JoinWith(ps[1..], sep);
    forall k | 0 <= k < |ps[1..]| ensures NoCut(Start(0, k), ps[1..][k], op) {
      assert ps[1..][k] == ps[k + 1];
    }
    forall k | 0 <= k < |ps[1..]| - 1 ensures Depth(Start(0, k), ps[1..][k]) == 0 {
      assert ps[1..][k] == ps[k + 1];
    }
  }

  /** A splitting whose first piece is not empty starts with no cut. */
  lemma SplittingTailChar(d: int, s: string, op: Operator, ps: seq<string>)
    requires IsSplitting(d, s, op, ps) && ps[0] != []
    ensures s != [] && s[0] == ps[0][0]
    ensures !(d + Delta(s[0]) == 0 && s[0] == op.Symbol())
    ensures IsSplitting(d + Delta(s[0]), s[1..], op, [ps[0][1..]] + ps[1..])
  {
    var sep := op.Symbol();
    var x := ps[0];
    var c := x[0];
    var d' := d + Delta(c);
    var ps' := [x[1..]] + ps[1..];
    assert x == [c] + x[1..];
    assert ps == [[c] + ps'[0]] + ps'[1..];
    Text.JoinWithPrefixFirst(c, ps', sep);
    assert s == [c] + Text.JoinWith(ps', sep);
    assert s[1..] == Text.JoinWith(ps', sep);
    NoCutCons(d, c, x[1..], op);
    DepthCons(d, c, x[1..]);
    forall k | 0 <= k < |ps'| ensures NoCut(Start(d', k), ps'[k], op) {
      if k > 0 { assert ps'[k] == ps[k]; }
    }
    forall k | 0 <= k < |ps'| - 1 ensures Depth(Start(d', k), ps'[k]) == 0 {
      if k > 0 { assert ps'[k] == ps[k]; }
    }
  }

  /** A splitting is unique: `Pieces` is the only one. */
  lemma {:induction false} SplittingUnique(d: int, s: string, op: Operator, ps: seq<string>)
    requires IsSplitting(d, s, op, ps)
    ensures ps == Pieces(d, s, op)
    decreases |s|
  {
    if s == [] {
      JoinWithEmpty(ps, op.Symbol());
    } else if ps[0] == [] {
      SplittingTailCut(d, s, op, ps);
      SplittingUnique(0, s[1..], op, ps[1..]);
      UniqueCut(d, s, op, ps);
    } else {
      SplittingTailChar(d, s, op, ps);
      var ps' := [ps[0][1..]] + ps[1..];
      SplittingUnique(d + Delta(s[0]), s[1..], op, ps');
      UniqueChar(d, s, op, ps, ps');
    }
  }

  lemma UniqueCut(d: int, s: string, op: Operator, ps: seq<string>)
    requires s != [] && d == 0 && s[0] == op.Symbol()
    requires |ps| >= 2 && ps[0] == [] && ps[1..] == Pieces(0, s[1..], op)
    ensures ps == Pieces(d, s, op)
  {
    assert s == [s[0]] + s[1..];
    PiecesCons(d, s[0], s[1..], op);
    assert ps == [""] + ps[1..];
  }

  lemma UniqueChar(d: int, s: string, op: Operator, ps: seq<string>, ps': seq<string>)
    requires s != [] && |ps| >= 1 && ps[0] != [] && s[0] == ps[0][0]
    requires !(d + Delta(s[0]) == 0 && s[0] == op.Symbol())
    requires ps' == [ps[0][1..]] + ps[1..] && ps' == Pieces(d + Delta(s[0]), s[1..], op)
    ensures ps == Pieces(d, s, op)
  {
    assert s == [s[0]] + s[1..];
    PiecesCons(d, s[0], s[1..], op);
    assert ps[0] == [s[0]] + ps'[0];
    assert ps == [[s[0]] + ps'[0]] + ps'[1..];
  }

  // ---------------- consequences for `split` ----------------

  /** `s` ends on an operator at counter 0. */
  predicate EndsOnCut(s: string, op: Operator) {
    |s| > 0 && IsCut(0, s, op, |s| - 1)
  }

  /** The trailing piece is empty exactly when the text is empty or ends on a cut. */
  predicate LastEmpty(ps: seq<string>)
    requires |ps| >= 1
  {
    ps[|ps| - 1] == ""
  }

  lemma LastPieceOfOne(d: int, c: char, op: Operator)
    ensures LastEmpty(Pieces(d, [c], op)) <==> IsCut(d, [c], op, 0)
  {
    PiecesCons(d, c, [], op);
    CutAtFirst(d, c, [], op);
    assert [c] + [] == [c];
  }

  lemma LastOfCut(rest: seq<string>)
    requires |rest| >= 1
    ensures LastEmpty([""] + rest) <==> LastEmpty(rest)
  {
    assert ([""] + rest)[|rest|] == rest[|rest| - 1];
  }

  lemma LastOfChar(c: char, rest: seq<string>)
    requires |rest| >= 2
    ensures LastEmpty([[c] + rest[0]] + rest[1..]) <==> LastEmpty(rest)
  {
    var ps := [[c] + rest[0]] + rest[1..];
    assert ps[|ps| - 1] == rest[|rest| - 1];
  }

  lemma LastPieceOfCons(d: int, c: char, t: string, op: Operator)
    requires t != []
    ensures LastEmpty(Pieces(d, [c] + t, op)) <==> LastEmpty(Pieces(d + Delta(c), t, op))
  {
    var rest := Pieces(d + Delta(c), t, op);
    PiecesCons(d, c, t, op);
    if d + Delta(c) == 0 && c == op.Symbol() {
      LastOfCut(rest);
    } else if |rest| == 1 {
      assert rest[0] == t;
    } else {
      LastOfChar(c, rest);
    }
  }

  /** The trailing piece is empty exactly when the text is empty or ends on a cut. */
  lemma {:induction false} LastPieceEmpty(d: int, s: string, op: Operator)
    ensures LastEmpty(Pieces(d, s, op)) <==> (s == [] || IsCut(d, s, op, |s| - 1))
    decreases |s|
  {
    if s != [] {
      var c, t := s[0], s[1..];
      assert s == [c] + t;
      if t == [] {
        assert s == [c];
        LastPieceOfOne(d, c, op);
      } else {
        LastPieceEmpty(d + Delta(c), t, op);
        LastPieceOfCons(d, c, t, op);
        CutAfterFirst(d, c, t, op, |t|);
      }
    }
  }

  lemma {:induction false} CutsBelowCons(d: int, c: char, t: string, op: Operator, n: nat)
    requires n <= |t|
    ensures CutsBelow(d, [c] + t, op, n + 1) ==
      (if d + Delta(c) == 0 && c == op.Symbol() then 1 else 0) + CutsBelow(d + Delta(c), t, op, n)
  {
    if n == 0 {
      CutAtFirst(d, c, t, op);
    } else {
      CutsBelowCons(d, c, t, op, n - 1);
      CutAfterFirst(d, c, t, op, n);
    }
  }

  /** One piece more than there are cuts. */
  lemma {:induction false} PiecesCount(d: int, s: string, op: Operator)
    ensures |Pieces(d, s, op)| == 1 + CutCount(d, s, op)
    decreases |s|
  {
    if s != [] {
      var c, t := s[0], s[1..];
      assert s == [c] + t;
      PiecesCons(d, c, t, op);
      PiecesCount(d + Delta(c), t, op);
      CutsBelowCons(d, c, t, op, |t|);
    }
  }

  /** `split` returns one chunk per depth-0 operator, plus one for a non-empty tail. */
  lemma SplitCount(s: string, op: Operator)
    ensures |SplitChunks(s, op)| == CutCount(0, s, op) + (if s == [] || EndsOnCut(s, op) then 0 else 1)
  {
    PiecesCount(0, s, op);
    LastPieceEmpty(0, s, op);
  }

  lemma JoinCutStep(c: char, t: string, sep: char, rest: seq<string>)
    requires |rest| >= 1 && c == sep && Text.JoinWith(rest, sep) == t
    ensures Text.JoinWith([""] + rest, sep) == [c] + t
  {
    Text.JoinWithCons("", rest, sep);
  }

  lemma JoinCharStep(c: char, t: string, sep: char, rest: seq<string>)
    requires |rest| >= 1 && Text.JoinWith(rest, sep) == t
    ensures Text.JoinWith([[c] + rest[0]] + rest[1..], sep) == [c] + t
  {
    Text.JoinWithPrefixFirst(c, rest, sep);
  }

  /** Joining the pieces with the operator gives the text back. */
  lemma {:induction false} PiecesJoin(d: int, s: string, op: Operator)
    ensures Text.JoinWith(Pieces(d, s, op), op.Symbol()) == s
    decreases |s|
  {
    if s != [] {
      var c, t := s[0], s[1..];
      var rest := Pieces(d + Delta(c), t, op);
      assert s == [c] + t;
      PiecesCons(d, c, t, op);
      PiecesJoin(d + Delta(c), t, op);
      if d + Delta(c) == 0 && c == op.Symbol() {
        JoinCutStep(c, t, op.Symbol(), rest);
      } else {
        JoinCharStep(c, t, op.Symbol(), rest);
      }
    }
  }

  /** Joining the chunks with the operator rebuilds the input, up to the trailing
      operator whose empty chunk was dropped. */
  lemma SplitRebuilds(s: string, op: Operator)
    ensures Text.JoinWith(SplitChunks(s, op), op.Symbol()) + (if EndsOnCut(s, op) then [op.Symbol()] else []) == s
  {
    var ps := Pieces(0, s, op);
    PiecesJoin(0, s, op);
    LastPieceEmpty(0, s, op);
    if s == [] {
      assert SplitChunks(s, op) == [];
    } else if EndsOnCut(s, op) {
      assert SplitChunks(s, op) == ps[..|ps| - 1];
      JoinDropsEmptyLast(ps, op.Symbol());
    } else {
      assert SplitChunks(s, op) == ps;
    }
  }

  /** An empty last piece contributes only its separator to the join. */
  lemma JoinDropsEmptyLast(ps: seq<string>, sep: char)
    requires |ps| >= 2 && ps[|ps| - 1] == ""
    ensures Text.JoinWith(ps[..|ps| - 1], sep) + [sep] == Text.JoinWith(ps, sep)
  {
  }

  /** No chunk holds an operator at counter 0: operators inside parentheses stay in their
      chunk, and every chunk but a trailing one closes the parentheses it opens. */
  lemma SplitChunksAreTopLevel(s: string, op: Operator)
    ensures var chunks := SplitChunks(s, op);
      && (forall k :: 0 <= k < |chunks| ==> NoCut(0, chunks[k], op))
      && (forall k :: 0 <= k < |chunks| - 1 ==> Depth(0, chunks[k]) == 0)
  {
    PiecesSplitting(0, s, op);
  }

  /** A leading operator gives a leading empty chunk: `split("-5", "-")` is `["", "5"]`. */
  lemma SplitLeadingOperator(t: string, op: Operator)
    ensures SplitChunks([op.Symbol()] + t, op) == [""] + SplitChunks(t, op)
  {
    PiecesCons(0, op.Symbol(), t, op);
    var rest := Pieces(0, t, op);
    var ps := [""] + rest;
    if rest[|rest| - 1] == "" {
      assert ps[..|ps| - 1] == [""] + rest[..|rest| - 1];
    }
  }

  lemma {:induction false} DepthOfJoin(d: int, ps: seq<string>, sep: char)
    requires |ps| >= 1 && sep != '(' && sep != ')'
    requires forall k :: 0 <= k < |ps| - 1 ==> Depth(Start(d, k), ps[k]) == 0
    ensures Depth(d, Text.JoinWith(ps, sep)) == Depth(Start(d, |ps| - 1), ps[|ps| - 1])
    decreases |ps|
  {
    if |ps| > 1 {
      var init := ps[..|ps| - 1];
      DepthOfJoin(d, init, sep);
      DepthAppend(d, Text.JoinWith(init, sep) + [sep], ps[|ps| - 1]);
      DepthAppend(d, Text.JoinWith(init, sep), [sep]);
      assert Depth(0, [sep]) == Depth(0, []);
    }
  }

  /** An empty piece after a last piece that closes its parentheses splits the text
      followed by the operator. */
  lemma SplittingSnoc(d: int, s: string, op: Operator, ps: seq<string>)
    requires IsSplitting(d, s, op, ps)
    requires Depth(Start(d, |ps| - 1), ps[|ps| - 1]) == 0
    ensures IsSplitting(d, s + [op.Symbol()], op, ps + [""])
  {
    var ps' := ps + [""];
    assert ps'[..|ps'| - 1] == ps;
    forall k | 0 <= k < |ps'| ensures NoCut(Start(d, k), ps'[k], op) {
      if k < |ps| { assert ps'[k] == ps[k]; }
    }
    forall k | 0 <= k < |ps'| - 1 ensures Depth(Start(d, k), ps'[k]) == 0 {
      assert ps'[k] == ps[k];
    }
  }

  /** Appending a cut operator to a text appends an empty piece. */
  lemma SplittingSnocCut(s: string, op: Operator)
    requires Depth(0, s) == 0
    ensures IsSplitting(0, s + [op.Symbol()], op, Pieces(0, s, op) + [""])
  {
    var ps := Pieces(0, s, op);
    PiecesSplitting(0, s, op);
    DepthOfJoin(0, ps, op.Symbol());
    SplittingSnoc(0, s, op, ps);
  }

  /** A trailing operator after a complete, non-empty text is ignored: `split("2+", "+")`
      is `split("2", "+")`. */
  lemma SplitTrailingOperator(s: string, op: Operator)
    requires s != [] && !EndsOnCut(s, op) && Depth(0, s) == 0
    ensures SplitChunks(s + [op.Symbol()], op) == SplitChunks(s, op)
  {
    var ps := Pieces(0, s, op);
    LastPieceEmpty(0, s, op);
    PiecesOfTrailing(s, op);
    assert (ps + [""])[..|ps|] == ps;
  }

  /** The pieces of a complete text followed by the operator: one empty piece more. */
  lemma PiecesOfTrailing(s: string, op: Operator)
    requires Depth(0, s) == 0
    ensures Pieces(0, s + [op.Symbol()], op) == Pieces(0, s, op) + [""]
  {
    SplittingSnocCut(s, op);
    SplittingUnique(0, s + [op.Symbol()], op, Pieces(0, s, op) + [""]);
  }

  // ---------------- texts whose chunks are known ----------------

  /** Text without the operator is one chunk. */
  lemma SplitChunksFree(s: string, op: Operator)
    requires s != [] && Text.Free(s, op.Symbol())
    ensures SplitChunks(s, op) == [s]
  {
    assert IsSplitting(0, s, op, [s]);
    SplittingUnique(0, s, op, [s]);
  }

  /** Pieces that close their parentheses and hold no operator at counter 0, joined with
      the operator, split back into themselves when the last one is not empty. */
  lemma SplitOfJoin(ps: seq<string>, op: Operator)
    requires |ps| >= 1 && ps[|ps| - 1] != ""
    requires forall k :: 0 <= k < |ps| ==> NoCut(0, ps[k], op) && Depth(0, ps[k]) == 0
    ensures SplitChunks(Text.JoinWith(ps, op.Symbol()), op) == ps
  {
    var s := Text.JoinWith(ps, op.Symbol());
    forall k | 0 <= k < |ps| ensures NoCut(Start(0, k), ps[k], op) {
      assert Start(0, k) == 0;
    }
    forall k | 0 <= k < |ps| - 1 ensures Depth(Start(0, k), ps[k]) == 0 {
      assert Start(0, k) == 0;
    }
    ChunksOfSplitting(s, op, ps);
  }

  /** The chunks of a text, given a splitting of it that does not end on an empty piece. */
  lemma ChunksOfSplitting(s: string, op: Operator, ps: seq<string>)
    requires IsSplitting(0, s, op, ps) && ps[|ps| - 1] != ""
    ensures SplitChunks(s, op) == ps
  {
    SplittingUnique(0, s, op, ps);
  }
}
