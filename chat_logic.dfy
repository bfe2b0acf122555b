/**
 * The pure parts of the chat component (components/common/ChatInterface.tsx):
 * which input is sendable, how a streamed reply becomes the model's turn, the
 * shape the on-screen conversation keeps, and how a message is cut into text
 * and code for display.
 */
module ChatLogic {
  import opened Wrappers
  import opened Text
  import opened Types
  import Fences

  /** The model turn that stands in for a blank reply. */
  const ApologyText: string := "I'm sorry, " + "I couldn't generate a response for that. This can sometimes happen due to safety filters or the nature of the request. Please try rephrasing your question."

  /** The model turn that stands in for a failed request. */
  const ErrorText: string := "Sorry, " + "I encountered an error. Please try again."

  /** One streamed chunk; its `text` may be undefined. */
  datatype Chunk = Chunk(text: Option<string>)

  /** What the remote call produced: the whole finite stream, or a failure (at any point). */
  datatype StreamOutcome = Streamed(chunks: seq<Chunk>) | Failed

  /** `streamedResponse += chunk.text`: string concatenation turns an undefined text into "undefined". */
  function ChunkText(c: Chunk): string {
    match c.text
    case Some(t) => t
    case None => "undefined"
  }

  /** The chunks' texts concatenated in arrival order. */
  function StreamedText(chunks: seq<Chunk>): (r: string)
    decreases |chunks|
    ensures chunks == [] ==> r == ""
    ensures chunks != [] ==> r == ChunkText(chunks[0]) + StreamedText(chunks[1..])
  {
    if chunks == [] then ""
    else
      var front := chunks[..|chunks| - 1];
      assert front != [] ==> front[0] == chunks[0] && front[1..] == chunks[1..][..|chunks| - 2];
      assert front == [] ==> chunks[1..] == [];
      StreamedText(front) + ChunkText(chunks[|chunks| - 1])
  }

  /** Concatenation respects the order of arrival: a stream is its first part's text, then the rest's. */
  lemma {:induction false} StreamedTextAppend(a: seq<Chunk>, b: seq<Chunk>)
    decreases |a|
    ensures StreamedText(a + b) == StreamedText(a) + StreamedText(b)
  {
    if a == [] {
      assert a + b == b;
    } else {
      assert (a + b)[0] == a[0];
      assert (a + b)[1..] == a[1..] + b;
      StreamedTextAppend(a[1..], b);
    }
  }

  /** A stream whose chunks all carry whitespace-only text concatenates to whitespace. */
  lemma {:induction false} BlankChunksBlankText(chunks: seq<Chunk>)
    requires forall i :: 0 <= i < |chunks| ==> chunks[i].text.Some? && AllWhitespace(chunks[i].text.value)
    decreases |chunks|
    ensures AllWhitespace(StreamedText(chunks))
  {
    if chunks != [] {
      BlankChunksBlankText(chunks[..|chunks| - 1]);
      var front := StreamedText(chunks[..|chunks| - 1]);
      var last := ChunkText(chunks[|chunks| - 1]);
      assert forall i :: |front| <= i < |front| + |last| ==> (front + last)[i] == last[i - |front|];
    }
  }

  lemma ApologyNotBlank()
    ensures !AllWhitespace(ApologyText)
  {
    assert ApologyText[0] == 'I';
  }

  lemma ErrorNotBlank()
    ensures !AllWhitespace(ErrorText)
  {
    assert ErrorText[0] == 'S';
  }

  /**
   * The model turn appended for a request: the streamed text when it is not blank,
   * the apology when it is, the error text on failure. It is never blank, so the
   * reply always goes to speech.
   */
  function ReplyText(outcome: StreamOutcome): (r: string)
    ensures r != "" && !AllWhitespace(r)
    ensures outcome.Failed? ==> r == ErrorText
    ensures outcome.Streamed? ==>
      r == (if Trim(StreamedText(outcome.chunks)) == "" then ApologyText else StreamedText(outcome.chunks))
  {
    ApologyNotBlank();
    ErrorNotBlank();
    match outcome
    case Failed => ErrorText
    case Streamed(chunks) =>
      var full := StreamedText(chunks);
      if Trim(full) == "" then ApologyText else full
  }

  /** A stream of empty or whitespace-only texts yields exactly the apology. */
  lemma BlankStreamApology(chunks: seq<Chunk>)
    requires forall i :: 0 <= i < |chunks| ==> chunks[i].text.Some? && AllWhitespace(chunks[i].text.value)
    ensures ReplyText(Streamed(chunks)) == ApologyText
  {
    BlankChunksBlankText(chunks);
  }

  lemma StreamedPair(t: string)
    ensures StreamedText([Chunk(Some(t)), Chunk(None)]) == t + "undefined"
  {
    var cs := [Chunk(Some(t)), Chunk(None)];
    var first := cs[..1];
    assert first == [Chunk(Some(t))];
    assert first[..0] == [];
    assert StreamedText(first) == "" + t;
    assert "" + t == t;
    assert ChunkText(cs[1]) == "undefined";
    assert StreamedText(cs) == StreamedText(first) + ChunkText(cs[1]);
  }

  /** A chunk without text is not skipped: it adds the word "undefined" to the reply. */
  lemma UndefinedChunkText(t: string)
    ensures ReplyText(Streamed([Chunk(Some(t)), Chunk(None)])) == t + "undefined"
  {
    StreamedPair(t);
    var full := t + "undefined";
    assert full[|t|] == 'u';
    assert !AllWhitespace(full);
  }

  /** `messageToSend?.trim()` when it is a non-empty string, the only case that is sent. */
  function SendableText(messageToSend: Option<string>): (r: Option<string>)
    ensures r.Some? <==> messageToSend.Some? && Trim(messageToSend.value) != ""
    ensures r.Some? ==> r.value == Trim(messageToSend.value)
  {
    match messageToSend
    case None => None
    case Some(m) =>
      if Trim(m) == "" then None else Some(Trim(m))
  }

  /**
   * A conversation in which every user turn has had its reply: an optional
   * model welcome, then user/model pairs.
   */
  predicate Answered(ms: seq<ChatMessage>)
    decreases |ms|
  {
    || ms == []
    || (|ms| == 1 && ms[0].role == Model)
    || (|ms| >= 2 && ms[|ms| - 2].role == User && ms[|ms| - 1].role == Model && Answered(ms[..|ms| - 2]))
  }

  /** The message list's shape: answered, plus one unanswered user turn exactly while a request is outstanding. */
  predicate Conversation(ms: seq<ChatMessage>, loading: bool) {
    if loading then |ms| > 0 && ms[|ms| - 1].role == User && Answered(ms[..|ms| - 1])
    else Answered(ms)
  }

  /** Sending from an answered conversation leaves one outstanding user turn. */
  lemma AskKeepsConversation(ms: seq<ChatMessage>, m: ChatMessage)
    requires Conversation(ms, false) && m.role == User
    ensures Conversation(ms + [m], true)
  {
  }

  /** Answering the outstanding user turn makes the conversation answered again. */
  lemma AnswerKeepsConversation(ms: seq<ChatMessage>, m: ChatMessage)
    requires Conversation(ms, true) && m.role == Model
    ensures Conversation(ms + [m], false)
  {
    var u := ms + [m];
    assert u[..|u| - 2] == ms[..|ms| - 1];
  }

  /** In an answered conversation each user turn is followed by a model turn, and every model turn but a leading welcome answers a user turn. */
  lemma {:induction false} AnsweredAlternates(ms: seq<ChatMessage>)
    requires Answered(ms)
    decreases |ms|
    ensures forall i :: 0 <= i < |ms| && ms[i].role == User ==> i + 1 < |ms| && ms[i + 1].role == Model
    ensures forall i :: 0 < i < |ms| && ms[i].role == Model ==> ms[i - 1].role == User
  {
    if |ms| >= 2 {
      var front := ms[..|ms| - 2];
      if Answered(front) && ms[|ms| - 2].role == User && ms[|ms| - 1].role == Model {
        AnsweredAlternates(front);
        assert forall i :: 0 <= i < |front| ==> front[i] == ms[i];
      }
    }
  }

  /** One display piece of a message. */
  datatype Segment = Prose(text: string) | CodeBlock(language: string, code: string)

  /** The language a code block is shown in: the one it names, or "plaintext" when it names none. */
  function LanguageLabel(language: string): string {
    if language == "" then "plaintext" else language
  }

  /**
   * `renderPart`: a part that matches the code-block pattern shows as code, the
   * body trimmed; any other part shows as its own text. A part with no fenced
   * block is always text, and a block that opens with a language line always code.
   */
  function RenderPart(part: string): (seg: Segment)
    ensures seg.Prose? ==> seg == Prose(part)
    ensures seg.CodeBlock? ==> seg.language != ""
    ensures Fences.NoBlock(part) ==> seg == Prose(part)
    ensures Fences.IsBlock(part) && Fences.OpensWithLanguage(part) ==>
      seg == CodeBlock(LanguageLabel(Fences.BlockLanguage(part)), Trim(Fences.BlockBody(part)))
  {
    assert Fences.NoBlock(part) ==> Fences.MatchCode(part, 0).None? by {
      if Fences.NoBlock(part) { Fences.NoBlockNoCode(part, 0); }
    }
    assert Fences.IsBlock(part) && Fences.OpensWithLanguage(part) ==>
      Fences.MatchCode(part, 0) == Some((Fences.BlockLanguage(part), Fences.BlockBody(part))) by {
      if Fences.IsBlock(part) && Fences.OpensWithLanguage(part) { Fences.AnchoredCodeMatch(part); }
    }
    match Fences.MatchCode(part, 0)
    case Some((language, body)) => CodeBlock(LanguageLabel(language), Trim(body))
    case None => Prose(part)
  }

  /**
   * `renderMessageContent`: the content cut at fenced blocks, each part rendered.
   * The text between blocks is shown exactly as written, a block that opens with
   * a language line shows as that block's code, and nothing of the content is
   * lost: the parts join back to it.
   */
  function RenderMessageContent(content: string): (r: seq<Segment>)
    ensures |r| == |Fences.SplitBlocks(content)| && |r| % 2 == 1
    ensures Join(Fences.SplitBlocks(content)) == content
    ensures forall k :: 0 <= k < |r| ==> r[k] == RenderPart(Fences.SplitBlocks(content)[k])
    ensures forall k :: 0 <= k < |r| && k % 2 == 0 ==> r[k] == Prose(Fences.SplitBlocks(content)[k])
    ensures forall k :: 0 <= k < |r| && k % 2 == 1 && Fences.OpensWithLanguage(Fences.SplitBlocks(content)[k]) ==>
      r[k] == CodeBlock(LanguageLabel(Fences.BlockLanguage(Fences.SplitBlocks(content)[k])),
                        Trim(Fences.BlockBody(Fences.SplitBlocks(content)[k])))
  {
    var parts := Fences.SplitBlocks(content);
    seq(|parts|, k requires 0 <= k < |parts| => RenderPart(parts[k]))
  }

  /** A block part ```` ```lang\nbody``` ```` shows as code in `lang` (or "plaintext" when none is named) with its body trimmed. */
  lemma RenderedCode(content: string, k: nat, lang: string, body: string)
    requires k < |Fences.SplitBlocks(content)| && k % 2 == 1
    requires Fences.SplitBlocks(content)[k] == Fences.Fence + lang + "\n" + body + Fences.Fence
    requires forall j :: 0 <= j < |lang| ==> Fences.IsWordChar(lang[j])
    ensures RenderMessageContent(content)[k] == CodeBlock(if lang == "" then "plaintext" else lang, Trim(body))
  {
    Fences.BlockParses(Fences.SplitBlocks(content)[k], lang, body);
  }
}
