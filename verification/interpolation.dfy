/** What `dedent(2, …)` does to a template literal that interpolates a
    string on its own indented line, stated for any fixed lines `pre` and
    any two-unit indentation `margin`:

        <pre[0]>\n … <pre[k]>\n<margin>${content}\n<margin>

    The fixed lines are sliced like any others; the interpolated text is
    split across lines, so its first line keeps the margin in front of it
    (and loses only that) while every later line is sliced itself. */
module Interpolation {
  import opened JsString
  import opened Lines
  import opened Indent

  /** The template text with `content` interpolated. */
  function Framed(pre: seq<JsStr>, margin: JsStr, content: JsStr): JsStr {
    Join(pre + [margin]) + content + ([LF] + margin)
  }

  /** A template whose fixed lines are single lines and whose margin is two
      code units wide, as every `dedent(2, …)` template is. */
  predicate WellFramed(pre: seq<JsStr>, margin: JsStr) {
    |pre| >= 1 && LineFree(pre) && |margin| == 2 && LF !in margin
  }

  /** The lines of the interpolated text after `dedent(2, …)`: the first
      whole, every later line sliced at 2. */
  function ArticleLines(content: JsStr): seq<JsStr> {
    var cs := Split(content);
    [cs[0]] + SliceLines(cs[1..], 2)
  }

  lemma SliceLinesAppend(a: seq<JsStr>, b: seq<JsStr>, indent: int)
    ensures SliceLines(a + b, indent) == SliceLines(a, indent) + SliceLines(b, indent)
  {
  }

  lemma SplitFixedLines(pre: seq<JsStr>, margin: JsStr)
    requires WellFramed(pre, margin)
    ensures Split(Join(pre + [margin])) == pre + [margin]
  {
    assert LineFree(pre + [margin]) by {
      forall i | 0 <= i < |pre| + 1 ensures LF !in (pre + [margin])[i] {
        if i < |pre| { assert (pre + [margin])[i] == pre[i]; }
      }
    }
    SplitJoin(pre + [margin]);
  }

  lemma ClosingLines(margin: JsStr)
    requires LF !in margin
    ensures Split([LF] + margin) == [[], margin]
  {
    assert ([LF] + margin)[1..] == margin;
    SplitNoLF(margin);
  }

  /** The lines of the interpolated template, before slicing. */
  lemma FramedLines(pre: seq<JsStr>, margin: JsStr, content: JsStr)
    requires WellFramed(pre, margin)
    ensures var cs := Split(content);
      Split(Framed(pre, margin, content)) == pre + [margin + cs[0]] + cs[1..] + [margin]
  {
    var cs := Split(content);
    SplitFixedLines(pre, margin);
    SplitAppend(Join(pre + [margin]), content);
    var left := Split(Join(pre + [margin]) + content);
    assert (pre + [margin])[..|pre|] == pre;
    assert left == pre + [margin + cs[0]] + cs[1..];
    ClosingLines(margin);
    SplitAppend(Join(pre + [margin]) + content, [LF] + margin);
    GlueLineBreak(left, [margin]);
  }

  lemma SliceMargin(margin: JsStr, x: JsStr)
    requires |margin| == 2
    ensures Slice(margin + x, 2) == x
  {
  }

  /** The lines of the interpolated template, after slicing. */
  lemma FramedSliced(pre: seq<JsStr>, margin: JsStr, content: JsStr)
    requires WellFramed(pre, margin)
    ensures SliceLines(Split(Framed(pre, margin, content)), 2)
      == SliceLines(pre, 2) + ArticleLines(content) + [[]]
  {
    var cs := Split(content);
    FramedLines(pre, margin, content);
    var first := [margin + cs[0]];
    var rest := cs[1..];
    SliceMargin(margin, cs[0]);
    SliceMargin(margin, []);
    assert margin + [] == margin;
    assert SliceLines(first, 2) == [cs[0]];
    assert SliceLines([margin], 2) == [[]];
    calc {
      SliceLines(Split(Framed(pre, margin, content)), 2);
      SliceLines(pre + first + rest + [margin], 2);
      { SliceLinesAppend(pre + first + rest, [margin], 2); }
      SliceLines(pre + first + rest, 2) + [[]];
      { SliceLinesAppend(pre + first, rest, 2); }
      SliceLines(pre + first, 2) + SliceLines(rest, 2) + [[]];
      { SliceLinesAppend(pre, first, 2); }
      SliceLines(pre, 2) + [cs[0]] + SliceLines(rest, 2) + [[]];
      SliceLines(pre, 2) + ArticleLines(content) + [[]];
    }
  }

  /** `dedent(2, …)` of the interpolated template: the sliced fixed lines,
      a line feed, the article's lines, and a final line feed. */
  lemma FramedDedent(pre: seq<JsStr>, margin: JsStr, content: JsStr)
    requires WellFramed(pre, margin)
    ensures Dedent(2, Framed(pre, margin, content))
      == Join(SliceLines(pre, 2)) + [LF] + Join(ArticleLines(content)) + [LF]
  {
    var fixed := SliceLines(pre, 2);
    var art := ArticleLines(content);
    FramedSliced(pre, margin, content);
    calc {
      Dedent(2, Framed(pre, margin, content));
      Join(fixed + art + [[]]);
      { JoinAppend(fixed + art, [[]]); }
      Join(fixed + art) + [LF] + [];
      { JoinAppend(fixed, art); }
      Join(fixed) + [LF] + Join(art) + [LF] + [];
    }
  }

  /** The template pieces on their own, each source line sliced at 2 and
      the lines joined again: the margin lines become empty. */
  lemma PiecesSliced(pre: seq<JsStr>, margin: JsStr)
    requires WellFramed(pre, margin)
    ensures Join(SliceLines(pre + [margin], 2)) == Join(SliceLines(pre, 2)) + [LF]
    ensures Join(SliceLines([[], margin], 2)) == [LF]
  {
    SliceMargin(margin, []);
    assert margin + [] == margin;
    assert SliceLines([margin], 2) == [[]];
    calc {
      Join(SliceLines(pre + [margin], 2));
      { SliceLinesAppend(pre, [margin], 2); }
      Join(SliceLines(pre, 2) + [[]]);
      { JoinAppend(SliceLines(pre, 2), [[]]); }
      Join(SliceLines(pre, 2)) + [LF] + [];
    }
    assert SliceLines([[], margin], 2) == [[], []];
  }

  lemma SliceTwoKeeps(l: JsStr)
    ensures Slice(l, 2) == l <==> l == []
  {
  }

  lemma ArticleLineFree(content: JsStr)
    ensures |ArticleLines(content)| == |Split(content)|
    ensures LineFree(ArticleLines(content))
  {
    var cs := Split(content);
    SplitPieces(content);
    assert LineFree(cs[1..]) by {
      forall i | 0 <= i < |cs| - 1 ensures LF !in cs[1..][i] {
        assert cs[1..][i] == cs[i + 1];
      }
    }
    SliceLineFree(cs[1..], 2);
    var art := ArticleLines(content);
    forall i | 0 <= i < |art| ensures LF !in art[i] {
      if i > 0 {
        assert art[i] == SliceLines(cs[1..], 2)[i - 1];
      }
    }
  }

  /** The article's lines survive slicing exactly when every line after
      the first is empty. */
  lemma ArticleLinesKept(content: JsStr)
    ensures ArticleLines(content) == Split(content) <==>
      forall i :: 1 <= i < |Split(content)| ==> Split(content)[i] == []
  {
    var cs := Split(content);
    var art := ArticleLines(content);
    if art == cs {
      forall i | 1 <= i < |cs| ensures cs[i] == [] {
        assert art[i] == Slice(cs[i], 2);
        SliceTwoKeeps(cs[i]);
      }
    }
    if forall i :: 1 <= i < |cs| ==> cs[i] == [] {
      forall i | 0 <= i < |cs| ensures art[i] == cs[i] {
        if i > 0 {
          assert art[i] == Slice(cs[i], 2);
          SliceTwoKeeps(cs[i]);
        }
      }
    }
  }

  /** The joined article lines are the article itself exactly when every
      line after the first is empty. */
  lemma ArticleKept(content: JsStr)
    ensures Join(ArticleLines(content)) == content <==>
      forall i :: 1 <= i < |Split(content)| ==> Split(content)[i] == []
  {
    var art := ArticleLines(content);
    JoinSplit(content);
    ArticleLineFree(content);
    SplitPieces(content);
    ArticleLinesKept(content);
    if Join(art) == content {
      SplitJoin(art);
    }
  }

  /** Two-line text: its second line is the one that is sliced. */
  lemma TwoLineArticle(a: JsStr, b: JsStr)
    requires LF !in a && LF !in b
    ensures Split(a + [LF] + b) == [a, b]
    ensures ArticleLines(a + [LF] + b) == [a, Slice(b, 2)]
  {
    assert LineFree([a, b]);
    SplitJoin([a, b]);
  }

  /** Two-line text after slicing: the first line whole, the second sliced. */
  lemma TwoLineJoined(a: JsStr, b: JsStr)
    requires LF !in a && LF !in b
    ensures Join(ArticleLines(a + [LF] + b)) == a + [LF] + Slice(b, 2)
  {
    TwoLineArticle(a, b);
  }

  /** Two-line text survives slicing exactly when its second line is empty. */
  lemma TwoLineKept(a: JsStr, b: JsStr)
    requires LF !in a && LF !in b
    ensures (forall i :: 1 <= i < |Split(a + [LF] + b)| ==> Split(a + [LF] + b)[i] == [])
      <==> b == []
  {
    TwoLineArticle(a, b);
    var cs := Split(a + [LF] + b);
    assert |cs| == 2 && cs[1] == b;
  }

  /** The same, framed by any text in front and a final line feed. */
  lemma TwoLineFramed(front: JsStr, a: JsStr, b: JsStr)
    requires LF !in a && LF !in b
    ensures front + Join(ArticleLines(a + [LF] + b)) + [LF] == front + a + [LF] + Slice(b, 2) + [LF]
  {
    TwoLineJoined(a, b);
  }
}
