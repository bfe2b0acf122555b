/**
 * The chat component (components/common/ChatInterface.tsx) as an object. Its
 * message list, loading flag and input are its own state; the session registry
 * is shared by all chats, and the hosting App supplies the spoken text, its
 * clearing and speech output. A send is split at the remote call: StartSend runs
 * up to it, CompleteSend runs when the whole stream has ended or failed; what may
 * happen between the chunks of the stream is not modelled.
 */
module Chat {
  import opened Wrappers
  import opened Text
  import opened Types
  import opened ChatLogic
  import opened GeminiService
  import App
  import AppLogic

  /** A request in flight: the session it went to and the text sent. */
  datatype Request = Request(chat: Session, message: string)

  class ChatInterface {
    const panelId: string
    const systemInstruction: string
    const welcomeMessage: Option<string>
    const registry: SessionRegistry
    const host: App.Assistant

    var messages: seq<ChatMessage>
    var isLoading: bool
    var input: string

    /** The registry keeps sessions apart, and the message list has the shape of a turn-taking conversation. */
    ghost predicate Valid()
      reads this, registry
    {
      registry.Valid() && Conversation(messages, isLoading)
    }

    constructor (panelId: string, systemInstruction: string, welcomeMessage: Option<string>,
                 registry: SessionRegistry, host: App.Assistant)
      requires registry.Valid()
      ensures this.panelId == panelId && this.systemInstruction == systemInstruction
      ensures this.welcomeMessage == welcomeMessage && this.registry == registry && this.host == host
      ensures messages == [] && !isLoading && input == "" && Valid()
    {
      this.panelId := panelId;
      this.systemInstruction := systemInstruction;
      this.welcomeMessage := welcomeMessage;
      this.registry := registry;
      this.host := host;
      messages := [];
      isLoading := false;
      input := "";
    }

    /** The welcome effect: an empty history is seeded with the welcome message as the one model turn. */
    method SeedWelcome()
      requires Valid()
      modifies this`messages
      ensures Valid()
      ensures messages == if old(messages) == [] && welcomeMessage.Some? && welcomeMessage.value != ""
                          then [ChatMessage(Model, welcomeMessage.value)] else old(messages)
    {
      if |messages| == 0 && welcomeMessage.Some? && welcomeMessage.value != "" {
        messages := [ChatMessage(Model, welcomeMessage.value)];
      }
    }

    /**
     * `handleSendMessage` up to its await. Blank or missing text, or a request
     * already in flight, changes nothing. Otherwise the trimmed text is appended
     * as a user turn, the loading flag is raised and the panel's session is
     * fetched (created on first use) to carry the request.
     */
    method StartSend(messageToSend: Option<string>) returns (request: Option<Request>)
      requires Valid()
      modifies this`messages, this`isLoading, registry
      ensures Valid()
      ensures SendableText(messageToSend).None? || old(isLoading) ==>
        request.None? && messages == old(messages) && isLoading == old(isLoading) &&
        registry.sessions == old(registry.sessions)
      ensures SendableText(messageToSend).Some? && !old(isLoading) ==>
        var text := SendableText(messageToSend).value;
        && messages == old(messages) + [ChatMessage(User, text)]
        && isLoading
        && panelId in registry.sessions
        && request == Some(Request(registry.sessions[panelId], text))
        && (panelId in old(registry.sessions) ==> registry.sessions == old(registry.sessions))
        && (panelId !in old(registry.sessions) ==>
              fresh(request.value.chat) && request.value.chat.systemInstruction == systemInstruction &&
              registry.sessions == old(registry.sessions)[panelId := request.value.chat])
    {
      var text := SendableText(messageToSend);
      if text.None? || isLoading {
        return None;
      }
      AskKeepsConversation(messages, ChatMessage(User, text.value));
      messages := messages + [ChatMessage(User, text.value)];
      isLoading := true;
      var chat := registry.GetChatSession(panelId, systemInstruction);
      request := Some(Request(chat, text.value));
    }

    /** The stream loop: `streamedResponse += chunk.text` for every chunk, in order. */
    static method CollectStream(chunks: seq<Chunk>) returns (streamedResponse: string)
      ensures streamedResponse == StreamedText(chunks)
    {
      streamedResponse := "";
      var i := 0;
      while i < |chunks|
        invariant 0 <= i <= |chunks|
        invariant streamedResponse == StreamedText(chunks[..i])
      {
        assert chunks[..i + 1][..i] == chunks[..i];
        streamedResponse := streamedResponse + ChunkText(chunks[i]);
        i := i + 1;
      }
      assert chunks[..i] == chunks;
    }

    /**
     * The text `handleSendMessage` settles on once the request ends: the streamed
     * text, replaced by the apology when it is blank, or the error text when the
     * request fails.
     */
    static method ComposeReply(reply: StreamOutcome) returns (fullResponse: string)
      ensures fullResponse == ReplyText(reply)
    {
      match reply {
        case Streamed(chunks) =>
          fullResponse := CollectStream(chunks);
          if Trim(fullResponse) == "" {
            fullResponse := ApologyText;
          }
        case Failed =>
          fullResponse := ErrorText;
      }
    }

    /**
     * `handleSendMessage` after its await: exactly one model turn is appended
     * (the reply, the apology for a blank reply, or the error text), the loading
     * flag is lowered on every path, and that same text goes to speech.
     */
    method CompleteSend(reply: StreamOutcome) returns (spoken: string)
      requires Valid() && isLoading
      modifies this`messages, this`isLoading, host
      ensures Valid() && !isLoading
      ensures messages == old(messages) + [ChatMessage(Model, ReplyText(reply))]
      ensures spoken == ReplyText(reply)
      ensures host.State() == AppLogic.Speak(old(host.State()), spoken, false)
      ensures old(host.Valid()) ==> host.Valid()
    {
      var fullResponse := ComposeReply(reply);
      AnswerKeepsConversation(messages, ChatMessage(Model, fullResponse));
      messages := messages + [ChatMessage(Model, fullResponse)];
      isLoading := false;
      assert Valid();
      host.Speak(fullResponse, false);
      spoken := fullResponse;
    }

    /** A whole send whose request ends with `reply`: nothing, or exactly a user turn then one model turn. */
    method HandleSendMessage(messageToSend: Option<string>, reply: StreamOutcome) returns (spoken: Option<string>)
      requires Valid()
      modifies this`messages, this`isLoading, registry, host
      ensures Valid()
      ensures SendableText(messageToSend).None? || old(isLoading) ==>
        spoken.None? && messages == old(messages) && isLoading == old(isLoading) &&
        registry.sessions == old(registry.sessions) && host.State() == old(host.State())
      ensures SendableText(messageToSend).Some? && !old(isLoading) ==>
        && messages == old(messages) + [ChatMessage(User, SendableText(messageToSend).value)]
                                     + [ChatMessage(Model, ReplyText(reply))]
        && !isLoading
        && spoken == Some(ReplyText(reply))
        && host.State() == AppLogic.Speak(old(host.State()), ReplyText(reply), false)
        && panelId in registry.sessions && old(registry.sessions).Keys <= registry.sessions.Keys
        && (panelId in old(registry.sessions) ==> registry.sessions == old(registry.sessions))
        && (panelId !in old(registry.sessions) ==>
              registry.sessions == old(registry.sessions)[panelId := registry.sessions[panelId]] &&
              fresh(registry.sessions[panelId]) &&
              registry.sessions[panelId].systemInstruction == systemInstruction)
    {
      var request := StartSend(messageToSend);
      if request.None? {
        return None;
      }
      var text := CompleteSend(reply);
      spoken := Some(text);
    }

    /** The input box's `onChange`. */
    method SetInput(value: string)
      modifies this`input
      ensures input == value
    {
      input := value;
    }

    /**
     * `handleFormSubmit`: a non-blank input is sent and the box cleared (even when
     * the send is then refused because a request is in flight); a blank one is kept.
     */
    method HandleFormSubmit() returns (request: Option<Request>)
      requires Valid()
      modifies this`messages, this`isLoading, this`input, registry
      ensures Valid()
      ensures Trim(old(input)) == "" ==>
        request.None? && input == old(input) && messages == old(messages) &&
        isLoading == old(isLoading) && registry.sessions == old(registry.sessions)
      ensures Trim(old(input)) != "" ==>
        && input == ""
        && (old(isLoading) ==>
              request.None? && messages == old(messages) && isLoading &&
              registry.sessions == old(registry.sessions))
        && (!old(isLoading) ==>
              messages == old(messages) + [ChatMessage(User, Trim(old(input)))] && isLoading &&
              request.Some? && request.value.message == Trim(old(input)) &&
              panelId in registry.sessions && request.value.chat == registry.sessions[panelId] &&
              (panelId in old(registry.sessions) ==> registry.sessions == old(registry.sessions)) &&
              (panelId !in old(registry.sessions) ==>
                 fresh(request.value.chat) && request.value.chat.systemInstruction == systemInstruction &&
                 registry.sessions == old(registry.sessions)[panelId := request.value.chat]))
    {
      if Trim(input) != "" {
        request := StartSend(Some(input));
        input := "";
      } else {
        request := None;
      }
    }

    /**
     * The spoken-text effect: non-empty text from the host is sent and then
     * cleared at the host, so it is sent at most once (if a request is in
     * flight it is dropped).
     */
    method ConsumeSpokenText() returns (request: Option<Request>)
      requires Valid()
      modifies this`messages, this`isLoading, registry, host`spokenText
      ensures Valid()
      ensures host.spokenText == ""
      ensures old(host.spokenText) == "" ==>
        request.None? && messages == old(messages) && isLoading == old(isLoading) &&
        registry.sessions == old(registry.sessions)
      ensures old(host.spokenText) != "" && Trim(old(host.spokenText)) != "" && !old(isLoading) ==>
        && messages == old(messages) + [ChatMessage(User, Trim(old(host.spokenText)))] && isLoading
        && request.Some? && request.value.message == Trim(old(host.spokenText))
        && panelId in registry.sessions && request.value.chat == registry.sessions[panelId]
        && (panelId in old(registry.sessions) ==> registry.sessions == old(registry.sessions))
        && (panelId !in old(registry.sessions) ==>
              fresh(request.value.chat) && request.value.chat.systemInstruction == systemInstruction &&
              registry.sessions == old(registry.sessions)[panelId := request.value.chat])
      ensures old(host.spokenText) != "" && (Trim(old(host.spokenText)) == "" || old(isLoading)) ==>
        request.None? && messages == old(messages) && isLoading == old(isLoading) &&
        registry.sessions == old(registry.sessions)
      ensures old(host.Valid()) ==> host.Valid()
    {
      if host.spokenText != "" {
        request := StartSend(Some(host.spokenText));
        host.ClearSpokenText();
      } else {
        request := None;
      }
    }
  }
}
