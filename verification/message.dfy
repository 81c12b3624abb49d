/** The user message `reviewArticle` sends: a template literal that
    interpolates the article, passed through `dedent(2, …)` afterwards. */
module ReviewMessage {
  import opened JsString
  import opened Lines
  import opened Indent
  import opened Interpolation

  /** The source lines of the template literal before the interpolation
      `${content}`: the empty rest of the opening line, three lines indented
      by two spaces, and the two spaces in front of `${content}`. A
      template literal that spans several source lines is exactly those
      lines joined by line feeds. */
  const HeadLineTexts: seq<string> :=
    ["", "  記事のレビューをお願いします。", "  記事の原稿は以下の通りです", "  ---", "  "]

  /** The source lines after the interpolation: the empty rest of the
      `${content}` line, and the two spaces before the closing backquote. */
  const TailLineTexts: seq<string> := ["", "  "]

  /** The fixed lines once their two-space indentation is gone. */
  const PreambleLineTexts: seq<string> :=
    ["", "記事のレビューをお願いします。", "記事の原稿は以下の通りです", "---"]

  /** The template's indentation. */
  const Margin: string := "  "

  function HeadLines(): seq<JsStr> {
    EncodeAll(HeadLineTexts)
  }

  function TailLines(): seq<JsStr> {
    EncodeAll(TailLineTexts)
  }

  function PreambleLines(): seq<JsStr> {
    EncodeAll(PreambleLineTexts)
  }

  /** "\n記事のレビューをお願いします。\n記事の原稿は以下の通りです\n---\n":
      the message text in front of the article. */
  function Preamble(): JsStr {
    Join(PreambleLines()) + [LF]
  }

  /** The template literal with `content` interpolated, before `dedent`. */
  function Template(content: JsStr): JsStr {
    Join(HeadLines()) + content + Join(TailLines())
  }

  /** `dedent(2, …)` of the interpolated template, as the script computes it. */
  function BuildMessage(content: JsStr): JsStr {
    Dedent(2, Template(content))
  }

  /** The evident intent: remove the template's own indentation, slicing
      each of its source lines, then interpolate the article untouched. */
  function IntendedMessage(content: JsStr): JsStr {
    Join(SliceLines(HeadLines(), 2)) + content + Join(SliceLines(TailLines(), 2))
  }

  /** The article a message carries: what lies between the preamble and
      the final line feed, if the message has that frame at all. */
  function EmbeddedArticle(msg: JsStr): (r: Option<JsStr>)
    ensures r.Some? ==> msg == Preamble() + r.value + [LF]
  {
    var p := Preamble();
    if |msg| > |p| && msg[..|p|] == p && msg[|msg| - 1] == LF then
      assert msg == msg[..|p|] + msg[|p|..|msg| - 1] + [msg[|msg| - 1]];
      Some(msg[|p|..|msg| - 1])
    else None
  }

  /** The template's fixed lines in front of the article's line. */
  function FixedLines(): seq<JsStr> {
    HeadLines()[..4]
  }

  function Indentation(): JsStr {
    Units(Margin)
  }

  lemma LiteralLineFree(ls: seq<string>)
    requires AllBmp(ls)
    requires forall i :: 0 <= i < |ls| ==> '\n' !in ls[i]
    ensures LineFree(EncodeAll(ls))
  {
    forall i | 0 <= i < |ls| ensures LF !in EncodeAll(ls)[i] {
      UnitsLineFeed(ls[i]);
    }
  }

  lemma TemplateWellFramed()
    ensures WellFramed(FixedLines(), Indentation())
    ensures HeadLines() == FixedLines() + [Indentation()]
  {
    LiteralLineFree(HeadLineTexts);
    var h := HeadLines();
    assert LineFree(h[..4]) by {
      forall i | 0 <= i < 4 ensures LF !in h[..4][i] {
        assert h[..4][i] == h[i];
      }
    }
    assert h[4] == Indentation();
    assert h == h[..4] + [h[4]];
  }

  lemma TailFramed()
    ensures Join(TailLines()) == [LF] + Indentation()
  {
    assert TailLines() == [[], Indentation()];
  }

  lemma DropMarginText(line: string, x: string)
    requires Bmp(x) && line == Margin + x
    ensures Bmp(line) && Slice(Units(line), 2) == Units(x)
  {
    UnitsAppend(Margin, x);
    assert |Units(Margin)| == 2;
    assert Units(line)[2..] == Units(x);
  }

  lemma FixedLinesSliced()
    ensures SliceLines(FixedLines(), 2) == PreambleLines()
  {
    var sliced := SliceLines(FixedLines(), 2);
    var p := PreambleLines();
    assert sliced[0] == p[0];
    DropMarginText(HeadLineTexts[1], PreambleLineTexts[1]);
    assert sliced[1] == p[1];
    DropMarginText(HeadLineTexts[2], PreambleLineTexts[2]);
    assert sliced[2] == p[2];
    DropMarginText(HeadLineTexts[3], PreambleLineTexts[3]);
    assert sliced[3] == p[3];
  }

  lemma TemplateFramed(content: JsStr)
    ensures Template(content) == Framed(FixedLines(), Indentation(), content)
  {
    TemplateWellFramed();
    TailFramed();
  }

  /** The message is the fixed preamble, then the article's lines — the
      first whole, every later one without its first two code units — then
      a final line feed. */
  lemma MessageShape(content: JsStr)
    ensures BuildMessage(content) == Preamble() + Join(ArticleLines(content)) + [LF]
  {
    TemplateFramed(content);
    TemplateWellFramed();
    FramedDedent(FixedLines(), Indentation(), content);
    FixedLinesSliced();
  }

  lemma EmbeddedFrame(body: JsStr)
    ensures EmbeddedArticle(Preamble() + body + [LF]) == Some(body)
  {
    var msg := Preamble() + body + [LF];
    assert msg[..|Preamble()|] == Preamble();
    assert msg[|Preamble()|..|msg| - 1] == body;
  }

  /** Whatever the article, the message starts with the fixed preamble and
      ends with a line feed; what lies between is the article's first line
      followed by its later lines, each without its first two code units. */
  lemma MessageFrame(content: JsStr)
    ensures EmbeddedArticle(BuildMessage(content)) == Some(Join(ArticleLines(content)))
  {
    MessageShape(content);
    EmbeddedFrame(Join(ArticleLines(content)));
  }

  /** The article is embedded verbatim if and only if no line after its
      first has any content: a single-line article always is, and any
      non-empty later line loses its first two code units. */
  lemma MessageVerbatim(content: JsStr)
    ensures EmbeddedArticle(BuildMessage(content)) == Some(content) <==>
      forall i :: 1 <= i < |Split(content)| ==> Split(content)[i] == []
  {
    MessageFrame(content);
    ArticleKept(content);
  }

  /** In particular, an article without line breaks is embedded verbatim. */
  lemma SingleLineVerbatim(content: JsStr)
    requires LF !in content
    ensures BuildMessage(content) == Preamble() + content + [LF]
  {
    SplitNoLF(content);
    MessageVerbatim(content);
  }

  /** The intended message carries every article verbatim. */
  lemma IntendedVerbatim(content: JsStr)
    ensures IntendedMessage(content) == Preamble() + content + [LF]
    ensures EmbeddedArticle(IntendedMessage(content)) == Some(content)
  {
    TemplateWellFramed();
    assert TailLines() == [[], Indentation()];
    PiecesSliced(FixedLines(), Indentation());
    FixedLinesSliced();
    EmbeddedFrame(content);
  }

  /** That is `dedent(2, …)` applied to the literal's two pieces around the
      interpolation, before the article is put between them. */
  lemma IntendedDedentsPieces(content: JsStr)
    ensures IntendedMessage(content) ==
      Dedent(2, Join(HeadLines())) + content + Dedent(2, Join(TailLines()))
  {
    LiteralLineFree(HeadLineTexts);
    LiteralLineFree(TailLineTexts);
    SplitJoin(HeadLines());
    SplitJoin(TailLines());
  }

  /** Script and intent agree exactly on the articles whose later lines
      are all empty. */
  lemma AgreesWithIntent(content: JsStr)
    ensures BuildMessage(content) == IntendedMessage(content) <==>
      forall i :: 1 <= i < |Split(content)| ==> Split(content)[i] == []
  {
    IntendedVerbatim(content);
    MessageShape(content);
    ArticleKept(content);
    if BuildMessage(content) == IntendedMessage(content) {
      EmbeddedFrame(Join(ArticleLines(content)));
    }
  }

  /** A two-line article: its second line reaches the message sliced. */
  lemma SecondLineSliced(a: JsStr, b: JsStr)
    requires LF !in a && LF !in b
    ensures BuildMessage(a + [LF] + b) == Preamble() + a + [LF] + Slice(b, 2) + [LF]
  {
    MessageShape(a + [LF] + b);
    TwoLineFramed(Preamble(), a, b);
  }

  /** So a two-line article reaches the message as intended exactly when its
      second line is empty. */
  lemma SecondLineAgrees(a: JsStr, b: JsStr)
    requires LF !in a && LF !in b
    ensures BuildMessage(a + [LF] + b) == IntendedMessage(a + [LF] + b) <==> b == []
  {
    TwoLineKept(a, b);
    AgreesWithIntent(a + [LF] + b);
  }

  /** A concrete article: an introduction line, then a Markdown heading. */
  function HeadingArticle(): JsStr {
    Units("intro") + [LF] + Units("# Heading")
  }

  lemma HeadingPieces()
    ensures LF !in Units("intro") && LF !in Units("# Heading")
    ensures Units("# Heading") != []
    ensures Slice(Units("# Heading"), 2) == Units("Heading")
  {
    UnitsLineFeed("intro");
    UnitsLineFeed("# Heading");
    assert "# Heading" == "# " + "Heading";
    UnitsAppend("# ", "Heading");
    assert |Units("# ")| == 2;
    assert Units("# Heading")[2..] == Units("Heading");
  }

  /** The heading's "# " marker is lost from the message the script sends,
      which therefore differs from the intended one. */
  lemma HeadingLosesMarker()
    ensures BuildMessage(HeadingArticle()) ==
      Preamble() + Units("intro") + [LF] + Units("Heading") + [LF]
    ensures BuildMessage(HeadingArticle()) != IntendedMessage(HeadingArticle())
  {
    HeadingPieces();
    SecondLineSliced(Units("intro"), Units("# Heading"));
    SecondLineAgrees(Units("intro"), Units("# Heading"));
  }
}
