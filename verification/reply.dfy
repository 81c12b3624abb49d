/** The request `reviewArticle` sends and how it rebuilds the reply.

    The assistant turn is prefilled with "{" so that the model continues a
    JSON object; the script then puts the "{" back in front of the text of
    the last content block it receives. The network call itself is not
    modelled: the blocks it returns are a parameter. */
module Reply {
  import opened JsString
  import opened ReviewMessage

  /** One block of the response's `content` array. Only text blocks have a
      `text` property; any other kind reads as `undefined`. */
  datatype Block = TextBlock(text: JsStr) | OtherBlock

  datatype Role = User | Assistant

  datatype Turn = Turn(role: Role, content: JsStr)

  /** The parameters of `anthropic.messages.create` the model keeps. */
  datatype Request = Request(model: string, maxTokens: nat, messages: seq<Turn>)

  const ModelName: string := "claude-3-opus-20240229"

  const MaxTokens: nat := 2048

  /** The text the assistant turn is prefilled with. */
  function Prefill(): (r: JsStr)
    ensures r == [0x7B as CodeUnit]
  {
    Units("{")
  }

  /** What a template literal makes of `undefined`. */
  function Undefined(): (r: JsStr)
    ensures |r| == 9 && r[0] == 0x75 as CodeUnit
  {
    Units("undefined")
  }

  /** The request for one article: the user's message, then the prefill. */
  function BuildRequest(content: JsStr): (r: Request)
    ensures r.model == ModelName && r.maxTokens == MaxTokens
    ensures |r.messages| == 2
    ensures r.messages[0] == Turn(User, BuildMessage(content))
    ensures r.messages[1] == Turn(Assistant, Prefill())
  {
    Request(ModelName, MaxTokens, [Turn(User, BuildMessage(content)), Turn(Assistant, Prefill())])
  }

  /** `content.at(-1)?.text`: the text of the last block, if there is a
      last block and it has text. */
  function LastText(blocks: seq<Block>): (r: Option<JsStr>)
    ensures r.Some? <==> |blocks| >= 1 && blocks[|blocks| - 1].TextBlock?
    ensures r.Some? ==> r.value == blocks[|blocks| - 1].text
  {
    if |blocks| == 0 then None
    else match blocks[|blocks| - 1]
      case TextBlock(t) => Some(t)
      case OtherBlock => None
  }

  /** `${v}` for a string-or-undefined value. */
  function Interpolate(v: Option<JsStr>): (r: JsStr)
    ensures v.Some? ==> r == v.value
    ensures v.None? ==> r == Undefined()
  {
    match v
    case Some(t) => t
    case None => Undefined()
  }

  /** `{${result.content.at(-1)?.text}`: the string handed to `JSON.parse`. */
  function Reconstruct(blocks: seq<Block>): (r: JsStr)
    ensures |r| >= 1 && r[0] == 0x7B as CodeUnit
    ensures r[..1] == Prefill()
    ensures |blocks| >= 1 && blocks[|blocks| - 1].TextBlock? ==>
      r == Prefill() + blocks[|blocks| - 1].text
    ensures !(|blocks| >= 1 && blocks[|blocks| - 1].TextBlock?) ==>
      r == Prefill() + Undefined()
  {
    Prefill() + Interpolate(LastText(blocks))
  }

  /** The request ends with the assistant's turn, and the reply text is
      that turn continued by the model's last text block: the "{" put back
      is the "{" that was sent. */
  lemma ReplyContinuesPrefill(content: JsStr, blocks: seq<Block>)
    ensures var turns := BuildRequest(content).messages;
      |turns| >= 1 && turns[|turns| - 1].role == Assistant &&
      Reconstruct(blocks) == turns[|turns| - 1].content + Interpolate(LastText(blocks))
  {
  }

  /** Only the last block of the response matters: whatever comes before
      it, the reply text is the one that block alone would give. */
  lemma LastBlockDecides(earlier: seq<Block>, last: Block)
    ensures Reconstruct(earlier + [last]) == Reconstruct([last])
    ensures last.TextBlock? ==> Reconstruct(earlier + [last]) == Prefill() + last.text
  {
  }

  /** The reconstruction cannot tell a reply without a usable last block
      from one whose last block is the text "undefined". */
  lemma ReconstructCollision(blocks: seq<Block>)
    requires !(|blocks| >= 1 && blocks[|blocks| - 1].TextBlock?)
    ensures Reconstruct(blocks) == Reconstruct([TextBlock(Undefined())])
    ensures Reconstruct(blocks) == Reconstruct(blocks + [TextBlock(Undefined())])
  {
  }

  /** Insignificant whitespace in JSON text (section 2 of RFC 8259): space,
      horizontal tab, line feed and carriage return. */
  predicate IsJsonSpace(u: CodeUnit) {
    u == 0x20 || u == 0x09 || u == 0x0A || u == 0x0D
  }

  /** The text after its leading JSON whitespace. */
  function SkipSpace(s: JsStr): (r: JsStr)
    ensures |r| <= |s| && r == s[|s| - |r|..]
    ensures r == [] || !IsJsonSpace(r[0])
    ensures forall i :: 0 <= i < |s| - |r| ==> IsJsonSpace(s[i])
    decreases |s|
  {
    if |s| > 0 && IsJsonSpace(s[0]) then SkipSpace(s[1..]) else s
  }

  /** A text that can begin a JSON object (section 4 of RFC 8259): "{",
      optional whitespace, then either the "}" that ends the object or the
      quotation mark that starts its first member's name. Every text
      `JSON.parse` accepts as an object and that starts with "{" has this
      shape; the rest of the grammar is not modelled. */
  predicate OpensObject(s: JsStr) {
    |s| >= 1 && s[0] == 0x7B &&
    var rest := SkipSpace(s[1..]);
    |rest| >= 1 && (rest[0] == 0x22 || rest[0] == 0x7D)
  }

  /** Whether the model's continuation can complete the prefilled "{" into
      an object depends only on its first non-whitespace code unit. */
  lemma ReplyOpensObject(blocks: seq<Block>)
    ensures OpensObject(Reconstruct(blocks)) <==>
      var rest := SkipSpace(Interpolate(LastText(blocks)));
      |rest| >= 1 && (rest[0] == 0x22 || rest[0] == 0x7D)
  {
    var r := Reconstruct(blocks);
    assert r[1..] == Interpolate(LastText(blocks));
  }

  /** When the last block has no text, the string handed to `JSON.parse`
      is "{undefined", which no JSON object starts like: the parse fails. */
  lemma MissingTextNeverParses(blocks: seq<Block>)
    requires !(|blocks| >= 1 && blocks[|blocks| - 1].TextBlock?)
    ensures !OpensObject(Reconstruct(blocks))
  {
    ReplyOpensObject(blocks);
    assert !IsJsonSpace(Undefined()[0]);
    assert SkipSpace(Undefined()) == Undefined();
  }

  /** Leading whitespace does not change where a JSON token starts. */
  lemma {:induction false} SkipSpaceAfter(w: JsStr, t: JsStr)
    requires forall i :: 0 <= i < |w| ==> IsJsonSpace(w[i])
    ensures SkipSpace(w + t) == SkipSpace(t)
    decreases |w|
  {
    if |w| > 0 {
      assert (w + t)[1..] == w[1..] + t;
      SkipSpaceAfter(w[1..], t);
    } else {
      assert w + t == t;
    }
  }

  /** A reply whose last block is whitespace followed by a member name (or
      the closing brace) opens an object once the "{" is put back. */
  lemma IndentedMemberOpens(blocks: seq<Block>, w: JsStr, t: JsStr)
    requires |blocks| >= 1 && blocks[|blocks| - 1] == TextBlock(w + t)
    requires forall i :: 0 <= i < |w| ==> IsJsonSpace(w[i])
    requires |t| >= 1 && (t[0] == 0x22 || t[0] == 0x7D)
    ensures OpensObject(Reconstruct(blocks))
  {
    ReplyOpensObject(blocks);
    SkipSpaceAfter(w, t);
  }
}
