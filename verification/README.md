# Article review script — Dafny model

A model of `scripts/claude_review.mjs`, the script that asks Claude to
review a Zenn article draft. Four parts of the script are modelled:

- `dedent(indent, text)` (module `Indent`, over `Lines` and `JsString`).
  It splits the text on "\n", drops the first `indent` UTF-16 code units of
  every line and joins the lines again. `Lines.Split` and `Lines.Join`
  model `split("\n")` and `join("\n")`, and `Indent.Dedent` models `dedent`.
- The user message `reviewArticle` builds (modules `Interpolation` and
  `ReviewMessage`). It is a template literal with the article interpolated,
  passed through `dedent(2, …)` afterwards. `ReviewMessage.Template` is the
  literal with the article in it, and `ReviewMessage.BuildMessage` is the
  message the script sends. `ReviewMessage.IntendedMessage` is the corrected
  construction.
- The request and the reply (module `Reply`). The assistant turn is
  prefilled with "{", and the script puts that "{" back in front of the
  text of the last content block before it calls `JSON.parse`.
  `Reply.BuildRequest` models the request, and `Reply.Reconstruct` models
  the string handed to `JSON.parse`.
- The argument check in `main` (module `Cli`). Exactly one argument, the
  path of the article, is accepted. `Cli.Invoke` models the check.

JavaScript strings are sequences of UTF-16 code units, and `length`,
`slice` and `split` count code units. The model works on
`seq<CodeUnit>` throughout. The script's own literals (the Japanese
preamble and "{") lie in the Basic Multilingual Plane, and so does the text
"undefined" that a template literal makes of `undefined`. So
`JsString.Units` maps each of their characters to one code unit.

A template literal that spans several source lines is modelled as those
source lines joined by line feeds (`ReviewMessage.HeadLineTexts` and
`TailLineTexts`). The facts about `dedent` of such a template are proved
once, in `Interpolation`, for any fixed lines and any two-unit margin.
`ReviewMessage` instantiates them for the script's literal.

## Model

| member | source | states |
|---|---|---|
| JsString.Slice | scripts/claude_review.mjs:14 | `line.slice(indent)` is a suffix of the line; a start of n >= 0 drops min(n, length) units, and a negative start keeps at most -start units |
| Lines.SplitPieces | scripts/claude_review.mjs:13 | the pieces of `split("\n")` contain no line feed, and there is one more piece than there are line feeds |
| Lines.JoinSplit | scripts/claude_review.mjs:13-15 | joining the pieces of a split on "\n" gives back the original text |
| Lines.SplitJoin | scripts/claude_review.mjs:13-15 | splitting a join of one or more line-free pieces gives back the pieces |
| Lines.SplitAppend | scripts/claude_review.mjs:13 | splitting a concatenation merges the left part's last line with the right part's first line |
| Lines.JoinLength | scripts/claude_review.mjs:15 | a join is as long as its pieces together, plus one line feed between each pair of neighbours |
| Indent.SlicedLength | scripts/claude_review.mjs:14 | slicing every line never makes the lines longer in total; with indent >= 0 they get shorter by exactly the sum over lines of min(indent, line length) |
| Indent.DedentLines | scripts/claude_review.mjs:11-15 | `dedent` keeps the line count, and line i of the output is line i of the input sliced at `indent` |
| Indent.DedentDropsPrefix | scripts/claude_review.mjs:11-15 | with indent >= 0, each input line is the units dropped (at most `indent` of them, of any kind) followed by its output line; a line no longer than `indent` becomes empty |
| Indent.DedentCountLF | scripts/claude_review.mjs:11-15 | `dedent` neither adds nor removes a line feed |
| Indent.DedentZero | scripts/claude_review.mjs:11-15 | `dedent(0, t)` is `t` |
| Indent.DedentLength | scripts/claude_review.mjs:11-15 | the output is never longer than the input; with indent >= 0 it is shorter by exactly the sum over lines of min(indent, line length) |
| Indent.DedentTwice | scripts/claude_review.mjs:11-15 | for non-negative a and b, dedenting by b and then by a is dedenting once by a + b |
| Interpolation.FramedDedent | scripts/claude_review.mjs:41-49 | `dedent(2, …)` of a template with a line `  ${content}`: the sliced fixed lines, then the article's first line whole and each later line sliced, then a final line feed |
| Interpolation.ArticleKept | scripts/claude_review.mjs:41-49 | the article survives that slicing exactly when every line after its first is empty |
| ReviewMessage.MessageShape | scripts/claude_review.mjs:41-49 | the message is "\n記事のレビューをお願いします。\n記事の原稿は以下の通りです\n---\n", then the article's lines (later lines sliced at 2), then "\n" |
| ReviewMessage.MessageFrame | scripts/claude_review.mjs:41-49 | every message has the fixed preamble and the final line feed around the article's lines |
| ReviewMessage.MessageVerbatim | scripts/claude_review.mjs:41-49 | the message embeds the article verbatim if and only if every line after its first is empty |
| ReviewMessage.SingleLineVerbatim | scripts/claude_review.mjs:41-49 | an article without line breaks is embedded verbatim |
| ReviewMessage.IntendedVerbatim | scripts/claude_review.mjs:41-49 | dedenting the literal's pieces before interpolating embeds every article verbatim |
| ReviewMessage.IntendedDedentsPieces | scripts/claude_review.mjs:41-49 | the intended message is `dedent(2, …)` of the literal's text before `${content}`, then the article, then `dedent(2, …)` of the text after it |
| ReviewMessage.AgreesWithIntent | scripts/claude_review.mjs:41-49 | the script's message equals the intended one exactly when every article line after the first is empty |
| ReviewMessage.SecondLineSliced | scripts/claude_review.mjs:41-49 | a two-line article reaches the message with its second line sliced at 2 |
| ReviewMessage.SecondLineAgrees | scripts/claude_review.mjs:41-49 | a two-line article reaches the message as intended exactly when its second line is empty |
| ReviewMessage.HeadingLosesMarker | scripts/claude_review.mjs:41-49 | the article "intro\n# Heading" reaches the message as "intro\nHeading", unlike the intended message |
| Reply.Reconstruct | scripts/claude_review.mjs:61 | the string handed to `JSON.parse` always starts with "{"; it is "{" + text when the last block has text, and "{undefined" otherwise |
| Reply.ReplyContinuesPrefill | scripts/claude_review.mjs:51-61 | the request's last turn is the assistant's; the reconstructed reply is that turn's text followed by the last block's text, or "undefined" when the last block has none |
| Reply.LastBlockDecides | scripts/claude_review.mjs:61 | only the last content block matters: any blocks before it leave the reconstructed reply unchanged, and a last text block t gives "{" + t |
| Reply.ReconstructCollision | scripts/claude_review.mjs:61 | a reply without a usable last block reconstructs to the same string as one whose last text is "undefined" |
| Reply.ReplyOpensObject | scripts/claude_review.mjs:61-62 | the reconstructed reply can open a JSON object if and only if the continuation's first non-whitespace unit is a quotation mark or "}" |
| Reply.MissingTextNeverParses | scripts/claude_review.mjs:61-62 | with no text in the last block, the string handed to `JSON.parse` cannot open a JSON object |
| Reply.IndentedMemberOpens | scripts/claude_review.mjs:61-62 | a continuation of JSON whitespace followed by a quotation mark or "}" opens a JSON object once "{" is put back |
| Cli.Args | scripts/claude_review.mjs:66 | `process.argv.slice(2)` is the command line without its first two entries |
| Cli.Invoke | scripts/claude_review.mjs:66-71 | a usage error if and only if the number of arguments is not 1; otherwise the file to review is the one argument |
| Cli.ProceedsExactly | scripts/claude_review.mjs:66-71 | the script goes on to review `path` exactly when the command line is a runtime, a script and `path` |
| Cli.UsageOtherwise | scripts/claude_review.mjs:66-68 | zero or several arguments give the usage error "Usage: node claude_review.mjs <file-path>" |

## Left out

- The Anthropic client and the network call are left out because they are I/O. The blocks of the response are a parameter of `Reply.Reconstruct`.
- The API key from the environment is left out because it is configuration outside the model.
- `JSON.parse` is left out as a parser. `Reply.OpensObject` states only the necessary condition a text starting with "{" must meet to be parsed as an object (sections 2 and 4 of RFC 8259).
- Reading the article file is left out because it is file I/O. So are `console.log` of the review and `console.error` of a failure, which are console I/O.
- The system prompt constant (lines 17-37) is left out because it is fixed text the Dafny model never inspects. So is the `system` field of the request.
- The pull-request workflow in `.github/scripts/ai-review/index.cjs` is left out because it lies outside the script.
- Indent.Dedent: `indent` is an integer. `slice` also accepts NaN, fractional and infinite numbers, which the script never passes.
- JsString.Units: covers Basic Multilingual Plane text only, because every literal in the script lies there. Articles themselves are arbitrary code-unit sequences.
- The effect of the `async` functions and of `await` is left out. The model is sequential and pure.

## Findings

| source | as written | input that shows it | evidently intended | confidence | as-written member | corrected member |
|---|---|---|---|---|---|---|
| scripts/claude_review.mjs:41-49 | `dedent(2, …)` is applied after `${content}` is interpolated, so every article line after the first loses its first two code units, whatever they are | the article "intro\n# Heading" is sent as "intro\nHeading": the Markdown heading marker is lost, and so is the indentation of code blocks and nested lists | only the template's own two-space indentation is removed, and the article is embedded verbatim | not executed | ReviewMessage.HeadingLosesMarker | ReviewMessage.IntendedVerbatim |
