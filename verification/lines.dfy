/** `String.prototype.split("\n")` and `Array.prototype.join("\n")`, the two
    halves of `dedent`, and the facts that tie them together. */
module Lines {
  import opened JsString

  /** `s.split("\n")`: the pieces between consecutive line feeds. There is
      always at least one piece: the empty string splits into `[""]`. */
  function Split(s: JsStr): (ls: seq<JsStr>)
    ensures |ls| >= 1
    decreases |s|
  {
    if |s| == 0 then [[]]
    else
      var rest := Split(s[1..]);
      if s[0] == LF then [[]] + rest
      else [[s[0]] + rest[0]] + rest[1..]
  }

  /** `ls.join("\n")`: the pieces with one line feed between neighbours. */
  function Join(ls: seq<JsStr>): JsStr
    decreases |ls|
  {
    if |ls| == 0 then []
    else if |ls| == 1 then ls[0]
    else ls[0] + [LF] + Join(ls[1..])
  }

  /** A list of pieces none of which contains a separator. */
  predicate LineFree(ls: seq<JsStr>) {
    forall i :: 0 <= i < |ls| ==> LF !in ls[i]
  }

  /** Number of line feeds in a string. */
  function CountLF(s: JsStr): nat
    decreases |s|
  {
    if |s| == 0 then 0 else (if s[0] == LF then 1 else 0) + CountLF(s[1..])
  }

  /** Total length of a list of pieces. */
  function TotalLength(ls: seq<JsStr>): nat
    decreases |ls|
  {
    if |ls| == 0 then 0 else |ls[0]| + TotalLength(ls[1..])
  }

  /** Splitting yields pieces free of separators, one more than there are
      separators. */
  lemma {:induction false} SplitPieces(s: JsStr)
    ensures LineFree(Split(s))
    ensures |Split(s)| == CountLF(s) + 1
    decreases |s|
  {
    if |s| > 0 {
      SplitPieces(s[1..]);
      var rest := Split(s[1..]);
      if s[0] != LF {
        var head := [s[0]] + rest[0];
        assert LF !in rest[0];
        assert LF !in head by {
          forall k | 0 <= k < |head| ensures head[k] != LF {
            if k > 0 { assert head[k] == rest[0][k - 1]; }
          }
        }
      }
    }
  }

  /** A string without separators is one piece. */
  lemma {:induction false} SplitNoLF(s: JsStr)
    requires LF !in s
    ensures Split(s) == [s]
    decreases |s|
  {
    if |s| > 0 {
      assert LF !in s[1..] by {
        forall k | 0 <= k < |s| - 1 ensures s[1..][k] != LF {
          assert s[1..][k] == s[k + 1];
        }
      }
      SplitNoLF(s[1..]);
      assert [s[0]] + s[1..] == s;
    }
  }

  /** Joining what was split gives back the string: `s.split("\n").join("\n") == s`. */
  lemma {:induction false} JoinSplit(s: JsStr)
    ensures Join(Split(s)) == s
    decreases |s|
  {
    if |s| > 0 {
      JoinSplit(s[1..]);
      var rest := Split(s[1..]);
      if s[0] == LF {
        assert Split(s) == [[]] + rest;
        assert ([[]] + rest)[1..] == rest;
        assert [s[0]] + s[1..] == s;
      } else {
        var ls := Split(s);
        assert ls[0] == [s[0]] + rest[0];
        assert ls[1..] == rest[1..];
        if |rest| == 1 {
          assert s == [s[0]] + s[1..];
        } else {
          assert Join(rest) == rest[0] + [LF] + Join(rest[1..]);
          assert Join(ls) == ls[0] + [LF] + Join(ls[1..]);
          assert s == [s[0]] + s[1..];
        }
      }
    }
  }

  /** Splitting what was joined gives back the pieces, provided there is at
      least one and none contains a separator. */
  lemma {:induction false} SplitJoin(ls: seq<JsStr>)
    requires |ls| >= 1 && LineFree(ls)
    ensures Split(Join(ls)) == ls
    decreases |ls|
  {
    if |ls| == 1 {
      SplitNoLF(ls[0]);
    } else {
      assert LineFree(ls[1..]) by {
        forall i | 0 <= i < |ls| - 1 ensures LF !in ls[1..][i] {
          assert ls[1..][i] == ls[i + 1];
        }
      }
      var rest := ls[1..];
      var j := Join(rest);
      SplitJoin(rest);
      SplitNoLF(ls[0]);
      var tail := [LF] + j;
      assert Split(tail) == [[]] + rest by {
        assert tail[1..] == j;
        assert tail[0] == LF;
      }
      calc {
        Split(Join(ls));
        { assert ls[0] + [LF] + j == ls[0] + tail; }
        Split(ls[0] + tail);
        { SplitAppend(ls[0], tail); }
        Glue(Split(ls[0]), Split(tail));
        Glue([ls[0]], [[]] + rest);
        { GlueLineBreak([ls[0]], rest); }
        [ls[0]] + rest;
      }
      assert [ls[0]] + ls[1..] == ls;
    }
  }

  /** Two line lists of adjacent text: the last line of `a` continues
      into the first line of `b`. */
  function Glue(a: seq<JsStr>, b: seq<JsStr>): seq<JsStr>
    requires |a| >= 1 && |b| >= 1
  {
    a[..|a| - 1] + [a[|a| - 1] + b[0]] + b[1..]
  }

  lemma GlueEmptyLeft(b: seq<JsStr>)
    requires |b| >= 1
    ensures Glue([[]], b) == b
  {
    var empty: JsStr := [];
    assert empty + b[0] == b[0];
    assert [b[0]] + b[1..] == b;
  }

  lemma GlueNewLine(a: seq<JsStr>, b: seq<JsStr>)
    requires |a| >= 1 && |b| >= 1
    ensures Glue([[]] + a, b) == [[]] + Glue(a, b)
  {
    var a' := [[]] + a;
    assert a'[..|a'| - 1] == [[]] + a[..|a| - 1];
    assert a'[|a'| - 1] == a[|a| - 1];
  }

  lemma GlueSameLine(c: CodeUnit, a: seq<JsStr>, b: seq<JsStr>)
    requires |a| >= 1 && |b| >= 1
    ensures var g := Glue(a, b);
      Glue([[c] + a[0]] + a[1..], b) == [[c] + g[0]] + g[1..]
  {
    var a' := [[c] + a[0]] + a[1..];
    var g := Glue(a, b);
    if |a| == 1 {
      assert a' == [[c] + a[0]];
      assert g == [a[0] + b[0]] + b[1..];
      assert [c] + (a[0] + b[0]) == ([c] + a[0]) + b[0];
    } else {
      assert a'[..|a'| - 1] == [[c] + a[0]] + a[1..|a| - 1];
      assert a'[|a'| - 1] == a[|a| - 1];
      assert g[0] == a[0];
      assert g[1..] == a[1..|a| - 1] + [a[|a| - 1] + b[0]] + b[1..];
    }
  }

  /** Text followed by a line break: the left lines are kept whole. */
  lemma GlueLineBreak(a: seq<JsStr>, b: seq<JsStr>)
    requires |a| >= 1
    ensures Glue(a, [[]] + b) == a + b
  {
    var last := a[|a| - 1];
    assert last + [] == last;
    assert ([[]] + b)[1..] == b;
    assert a[..|a| - 1] + [last] == a;
  }

  /** Splitting a concatenation: the last line of the left part and the
      first line of the right part merge into one line. */
  lemma {:induction false} SplitAppend(x: JsStr, y: JsStr)
    ensures Split(x + y) == Glue(Split(x), Split(y))
    decreases |x|
  {
    if |x| == 0 {
      assert x + y == y;
      GlueEmptyLeft(Split(y));
    } else {
      SplitAppend(x[1..], y);
      assert (x + y)[1..] == x[1..] + y;
      if x[0] == LF {
        GlueNewLine(Split(x[1..]), Split(y));
      } else {
        GlueSameLine(x[0], Split(x[1..]), Split(y));
      }
    }
  }

  /** `join` adds one separator between each pair of neighbours and nothing
      else. */
  lemma {:induction false} JoinLength(ls: seq<JsStr>)
    requires |ls| >= 1
    ensures |Join(ls)| == TotalLength(ls) + |ls| - 1
    decreases |ls|
  {
    if |ls| > 1 {
      JoinLength(ls[1..]);
    }
  }

  /** Joining two non-empty lists puts one separator between them. */
  lemma {:induction false} JoinAppend(a: seq<JsStr>, b: seq<JsStr>)
    requires |a| >= 1 && |b| >= 1
    ensures Join(a + b) == Join(a) + [LF] + Join(b)
    decreases |a|
  {
    if |a| == 1 {
      assert (a + b)[1..] == b;
    } else {
      JoinAppend(a[1..], b);
      assert (a + b)[1..] == a[1..] + b;
    }
  }
}
