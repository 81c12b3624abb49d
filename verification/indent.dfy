/** `dedent(indent, text)`: split on "\n", drop the first `indent` code
    units of every line, whatever they are, and join again on "\n". */
module Indent {
  import opened JsString
  import opened Lines

  /** `lines.map((line) => line.slice(indent))`. */
  function SliceLines(ls: seq<JsStr>, indent: int): (r: seq<JsStr>)
    ensures |r| == |ls|
    ensures forall i :: 0 <= i < |ls| ==> r[i] == Slice(ls[i], indent)
  {
    seq(|ls|, i requires 0 <= i < |ls| => Slice(ls[i], indent))
  }

  function Dedent(indent: int, text: JsStr): JsStr {
    Join(SliceLines(Split(text), indent))
  }

  /** Number of code units `dedent` takes from each line, summed. */
  function Dropped(ls: seq<JsStr>, indent: nat): nat
    decreases |ls|
  {
    if |ls| == 0 then 0 else Min(indent, |ls[0]|) + Dropped(ls[1..], indent)
  }

  /** A slice of a line is still a single line. */
  lemma SliceLineFree(ls: seq<JsStr>, indent: int)
    requires LineFree(ls)
    ensures LineFree(SliceLines(ls, indent))
  {
    var out := SliceLines(ls, indent);
    forall i | 0 <= i < |ls| ensures LF !in out[i] {
      var l := ls[i];
      var r := out[i];
      assert r == l[|l| - |r|..];
      forall k | 0 <= k < |r| ensures r[k] != LF {
        assert r[k] == l[|l| - |r| + k];
      }
    }
  }

  /** Line i of the output is line i of the input sliced at `indent`, and
      there are exactly as many lines. */
  lemma DedentLines(indent: int, text: JsStr)
    ensures |Split(Dedent(indent, text))| == |Split(text)|
    ensures forall i :: 0 <= i < |Split(text)| ==>
      Split(Dedent(indent, text))[i] == Slice(Split(text)[i], indent)
  {
    SplitPieces(text);
    SliceLineFree(Split(text), indent);
    SplitJoin(SliceLines(Split(text), indent));
  }

  /** With a non-negative indent, each input line is the code units that
      were dropped (at most `indent` of them, of any kind) followed by the
      output line; a line no longer than `indent` becomes empty. */
  lemma DedentDropsPrefix(indent: nat, text: JsStr, i: nat)
    requires i < |Split(text)|
    ensures i < |Split(Dedent(indent, text))|
    ensures Split(text)[i] ==
      Split(text)[i][..Min(indent, |Split(text)[i]|)] + Split(Dedent(indent, text))[i]
    ensures |Split(text)[i]| <= indent ==> Split(Dedent(indent, text))[i] == []
  {
    DedentLines(indent, text);
    var line := Split(text)[i];
    var out := Split(Dedent(indent, text))[i];
    var m := Min(indent, |line|);
    assert out == Slice(line, indent);
    assert |out| == |line| - m;
    assert out == line[m..];
    assert line == line[..m] + line[m..];
  }

  /** `dedent` removes no line feeds and adds none. */
  lemma DedentCountLF(indent: int, text: JsStr)
    ensures CountLF(Dedent(indent, text)) == CountLF(text)
  {
    DedentLines(indent, text);
    SplitPieces(text);
    SplitPieces(Dedent(indent, text));
  }

  lemma SliceZero(ls: seq<JsStr>)
    ensures SliceLines(ls, 0) == ls
  {
    forall i | 0 <= i < |ls| ensures SliceLines(ls, 0)[i] == ls[i] {
      assert Slice(ls[i], 0) == ls[i][0..];
    }
  }

  /** `dedent(0, t) === t`. */
  lemma DedentZero(text: JsStr)
    ensures Dedent(0, text) == text
  {
    SliceZero(Split(text));
    JoinSplit(text);
  }

  /** Slicing shortens the lines by `Dropped` in total, and never
      lengthens them, whatever the sign of `indent`. */
  lemma {:induction false} SlicedLength(ls: seq<JsStr>, indent: int)
    ensures TotalLength(SliceLines(ls, indent)) <= TotalLength(ls)
    ensures indent >= 0 ==>
      TotalLength(SliceLines(ls, indent)) + Dropped(ls, indent) == TotalLength(ls)
    decreases |ls|
  {
    if |ls| > 0 {
      SlicedLength(ls[1..], indent);
      assert SliceLines(ls, indent)[1..] == SliceLines(ls[1..], indent);
    }
  }

  /** `dedent` never lengthens its input; with a non-negative indent it
      shortens it by exactly the sum over lines of min(indent, line length). */
  lemma DedentLength(indent: int, text: JsStr)
    ensures |Dedent(indent, text)| <= |text|
    ensures indent >= 0 ==>
      |Dedent(indent, text)| + Dropped(Split(text), indent) == |text|
  {
    var ls := Split(text);
    JoinSplit(text);
    JoinLength(ls);
    JoinLength(SliceLines(ls, indent));
    SlicedLength(ls, indent);
  }

  lemma SliceSlice<T>(s: seq<T>, a: nat, b: nat)
    ensures Slice(Slice(s, b), a) == Slice(s, a + b)
  {
    if b < |s| {
      assert Slice(s, b) == s[b..];
      if a < |s| - b {
        assert s[b..][a..] == s[a + b..];
      }
    }
  }

  /** Dedenting twice is dedenting once by the sum. */
  lemma DedentTwice(a: nat, b: nat, text: JsStr)
    ensures Dedent(a, Dedent(b, text)) == Dedent(a + b, text)
  {
    var ls := Split(text);
    DedentLines(b, text);
    var mid := Split(Dedent(b, text));
    assert mid == SliceLines(ls, b);
    forall i | 0 <= i < |ls|
      ensures SliceLines(mid, a)[i] == SliceLines(ls, a + b)[i]
    {
      SliceSlice(ls[i], a, b);
    }
    assert SliceLines(mid, a) == SliceLines(ls, a + b);
  }
}
