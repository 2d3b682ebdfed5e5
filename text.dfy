/** Joining strings with a separator character, the inverse split, and character counting. */
module Text {

  /** `ss.join(sep)`: the pieces with one `sep` between neighbours; "" for no pieces. */
  function JoinWith(ss: seq<string>, sep: char): string
    decreases |ss|
  {
    if |ss| == 0 then ""
    else if |ss| == 1 then ss[0]
    else JoinWith(ss[..|ss| - 1], sep) + [sep] + ss[|ss| - 1]
  }

  /** Plain split at every `sep` (JavaScript's `s.split(sep)`), always at least one piece. */
  function SplitOn(s: string, sep: char): (ps: seq<string>)
    ensures |ps| >= 1
    decreases |s|
  {
    if s == [] then [""]
    else if s[0] == sep then [""] + SplitOn(s[1..], sep)
    else var rest := SplitOn(s[1..], sep); [[s[0]] + rest[0]] + rest[1..]
  }

  /** Number of occurrences of `ch` in `s`. */
  function Count(s: string, ch: char): nat
    decreases |s|
  {
    if s == [] then 0 else (if s[0] == ch then 1 else 0) + Count(s[1..], ch)
  }

  predicate Free(s: string, ch: char) {
    forall i :: 0 <= i < |s| ==> s[i] != ch
  }

  lemma {:induction false} CountAppend(a: string, b: string, ch: char)
    ensures Count(a + b, ch) == Count(a, ch) + Count(b, ch)
  {
    if a != [] {
      assert (a + b)[1..] == a[1..] + b;
      CountAppend(a[1..], b, ch);
    } else {
      assert a + b == b;
    }
  }

  lemma {:induction false} CountFree(s: string, ch: char)
    requires Free(s, ch)
    ensures Count(s, ch) == 0
  {
    if s != [] {
      CountFree(s[1..], ch);
    }
  }

  lemma {:induction false} JoinWithCons(x: string, ss: seq<string>, sep: char)
    requires |ss| >= 1
    ensures JoinWith([x] + ss, sep) == x + [sep] + JoinWith(ss, sep)
    decreases |ss|
  {
    if |ss| > 1 {
      var init := ss[..|ss| - 1];
      assert ([x] + ss)[..|ss|] == [x] + init;
      JoinWithCons(x, init, sep);
    } else {
      assert ([x] + ss)[..1] == [x];
    }
  }

  /** Every piece but one is followed by a separator: with separator-free pieces,
      the joined text holds exactly |ss| - 1 separators. */
  lemma {:induction false} CountJoinWith(ss: seq<string>, sep: char)
    requires |ss| >= 1
    requires forall k :: 0 <= k < |ss| ==> Free(ss[k], sep)
    ensures Count(JoinWith(ss, sep), sep) == |ss| - 1
    decreases |ss|
  {
    CountFree(ss[|ss| - 1], sep);
    if |ss| > 1 {
      var init := ss[..|ss| - 1];
      CountJoinWith(init, sep);
      CountAppend(JoinWith(init, sep), [sep], sep);
      CountAppend(JoinWith(init, sep) + [sep], ss[|ss| - 1], sep);
    }
  }

  /** A character other than the separator occurs in the joined text only if some piece holds it. */
  lemma {:induction false} JoinWithFree(ss: seq<string>, sep: char, ch: char)
    requires ch != sep
    requires forall k :: 0 <= k < |ss| ==> Free(ss[k], ch)
    ensures Free(JoinWith(ss, sep), ch)
    decreases |ss|
  {
    if |ss| > 1 {
      JoinWithFree(ss[..|ss| - 1], sep, ch);
    }
  }

  /** Splitting undoes joining, for pieces that do not contain the separator. */
  lemma {:induction false} SplitOnJoinWith(ss: seq<string>, sep: char)
    requires |ss| >= 1
    requires forall k :: 0 <= k < |ss| ==> Free(ss[k], sep)
    ensures SplitOn(JoinWith(ss, sep), sep) == ss
    decreases |ss|, |ss[0]|
  {
    var x := ss[0];
    if |ss| == 1 {
      SplitOnFree(x, sep);
    } else if x == [] {
      JoinWithCons(x, ss[1..], sep);
      assert [x] + ss[1..] == ss;
      var j := JoinWith(ss[1..], sep);
      assert JoinWith(ss, sep) == [sep] + j;
      assert ([sep] + j)[1..] == j;
      SplitOnJoinWith(ss[1..], sep);
    } else {
      var ss' := [x[1..]] + ss[1..];
      JoinWithCons(x, ss[1..], sep);
      JoinWithCons(x[1..], ss[1..], sep);
      assert [x] + ss[1..] == ss;
      var j := JoinWith(ss, sep);
      assert j == [x[0]] + JoinWith(ss', sep);
      assert j[1..] == JoinWith(ss', sep);
      assert forall k :: 0 <= k < |ss'| ==> Free(ss'[k], sep) by {
        forall k | 0 <= k < |ss'| ensures Free(ss'[k], sep) {
          if k > 0 { assert ss'[k] == ss[k]; }
        }
      }
      SplitOnJoinWith(ss', sep);
      assert [x[0]] + x[1..] == x;
    }
  }

  lemma {:induction false} SplitOnFree(s: string, sep: char)
    requires Free(s, sep)
    ensures SplitOn(s, sep) == [s]
    decreases |s|
  {
    if s != [] {
      SplitOnFree(s[1..], sep);
      assert [s[0]] + s[1..] == s;
    }
  }

  lemma JoinWithTwo(x: string, y: string, sep: char)
    ensures JoinWith([x, y], sep) == x + [sep] + y
  {
    assert [x, y][..1] == [x];
  }

  /** Prefixing the first piece with a character prefixes the joined text with it. */
  lemma JoinWithPrefixFirst(c: char, rest: seq<string>, sep: char)
    requires |rest| >= 1
    ensures JoinWith([[c] + rest[0]] + rest[1..], sep) == [c] + JoinWith(rest, sep)
  {
    var head := [c] + rest[0];
    if |rest| > 1 {
      var more := JoinWith(rest[1..], sep);
      JoinWithCons(rest[0], rest[1..], sep);
      assert [rest[0]] + rest[1..] == rest;
      JoinWithCons(head, rest[1..], sep);
      assert head + [sep] + more == [c] + (rest[0] + [sep] + more);
    }
  }

  /** Joining undoes splitting. */
  lemma {:induction false} JoinWithSplitOn(s: string, sep: char)
    ensures JoinWith(SplitOn(s, sep), sep) == s
    decreases |s|
  {
    if s != [] {
      var rest := SplitOn(s[1..], sep);
      JoinWithSplitOn(s[1..], sep);
      assert s == [s[0]] + s[1..];
      if s[0] == sep {
        JoinWithCons("", rest, sep);
      } else {
        JoinWithPrefixFirst(s[0], rest, sep);
      }
    }
  }
}
