# kali-ai-assistant: a Dafny model of the voice assistant core

This project models the core of kali-ai-assistant in Dafny. It is a browser assistant: the user speaks or types a command, a Gemini chat answers, and the answer is read aloud. Three source files are modelled.

- `App.tsx` is the top-level component. It holds the speech-recognition state machine: results, errors and the end of listening. It also holds the confirmation of transcripts heard with low confidence and the feedback line with its clearing timer. The rest is speech output with fenced code scrubbed out, the choice of a preferred voice, and the panel controls.
- `components/common/ChatInterface.tsx` is the chat panel. It holds the message list and the loading flag. A send appends the user turn, streams the reply, and falls back to an apology or an error text. Spoken text is consumed once. A message is split into text and code parts for display.
- `services/geminiService.ts` is the per-panel registry of chat sessions. A session is created on first use and reused afterwards.

Modules:

- `Text`: the JavaScript string operations used: `trim` with the ECMAScript whitespace set, `toLowerCase`, `startsWith`, `includes`.
- `Fences`: the two code-block regular expressions, written as left-to-right scans. The lazy ```` /```[\s\S]*?```/ ```` is used both by speech and by the display split. The other is ```` /```(\w*)\n([\s\S]*?)```/ ````.
- `AppLogic`: App's state as the datatype `AppState` and each handler as a function on it. It also has the invariant "a pending command keeps its prompt on screen and no clear timer is armed", and the event-level lemmas.
- `App`: class `Assistant`, whose fields are App's state. Each handler method updates the fields in place, and its `ensures` ties the new state to the matching `AppLogic` function of the old state.
- `GeminiService`: class `SessionRegistry` over a `map` from panel id to `Session`.
- `ChatLogic`: the reply the chat settles on, stream concatenation, the turn-taking shape of the message list, and message rendering.
- `Chat`: class `ChatInterface`. A send is split at the remote call. `StartSend` runs up to it; `CompleteSend` handles the outcome of the whole stream.
- `Types`, `Wrappers`: the shared types, and `Option`.

Where the repository's documentation and the code differ, or the code does something unexpected, the model follows the code:

- The chat history lives in component state. It is lost when its panel is unmounted on a panel switch; only the registry's remote sessions persist.
- `pendingCommand` is checked by JavaScript truthiness, so a pending empty string counts as no pending command (`AppLogic.Pending`).
- The "male" voice test is a substring test, so every English voice whose name contains "female" passes it (`AppLogic.FemaleCountsAsMale`).
- Resolving a pending command, and an error while one is pending, change `pendingCommand`. That makes React set up the recognizer effect again, and the effect's cleanup cancels the status timer the handler has just armed. With React 18's automatic batching, "Command confirmed.", "Okay, new command received.", "Confirmation cancelled…" and such an error message therefore stay on screen until the next status message (`AppLogic.AfterPendingChange`, `AppLogic.ResolvedOutcomeStays`).
- A stream chunk without text adds the word "undefined" to the reply (`ChatLogic.UndefinedChunkText`).

## Model

| member | source | states |
|---|---|---|
| Text.Trim | App.tsx:118 | `trim` yields a contiguous slice of the input with only whitespace before and after it; the slice is empty exactly when the input is all ECMAScript whitespace, and otherwise starts and ends with a non-whitespace character |
| Text.TrimStart | App.tsx:118 | leading whitespace is removed: the result is a suffix of the input, what was removed is all whitespace, and the result does not start with whitespace |
| Text.TrimEnd | App.tsx:118 | trailing whitespace is removed: the result is a prefix of the input, what was removed is all whitespace, and the result does not end with whitespace |
| Text.TrimIdempotent | components/common/ChatInterface.tsx:66 | trimming an already trimmed text changes nothing |
| Text.IncludesFrom | App.tsx:177 | `includes` holds exactly when the substring occurs at some position |
| Text.ToLower | App.tsx:126 | `toLowerCase` keeps the length, turns every ASCII upper-case letter into its lower-case form and leaves every other character alone, so no upper-case ASCII letter remains |
| Text.StartsWith | App.tsx:177 | `startsWith` holds exactly when the text is the prefix followed by something |
| Fences.FindFence | App.tsx:82 | the lazy `[\s\S]*?` step finds the first fence at or after a position, or reports that none follows |
| Fences.FirstBlock | App.tsx:82 | the leftmost ```` ```…``` ```` match: its start, the end just past the first closing fence, and that no block starts earlier |
| Fences.ScrubIsSplitSpoken | App.tsx:82 | the text replacement equals the display split with each block part replaced by "Code block displayed." |
| Fences.ScrubCode | App.tsx:82 | after the replacement no fenced block is left, so code is never read aloud; a text with no fenced block is spoken unchanged |
| Fences.ScrubIdempotent | App.tsx:82 | scrubbing twice gives the same text as scrubbing once |
| Fences.SplitBlocks | components/common/ChatInterface.tsx:124 | the split with a capture group yields an odd number of parts; even-indexed parts contain no fenced block, odd-indexed parts are exactly one block closed by its first closing fence, the cut is leftmost (no fence starts in a text part before a block, not even one running into that block's opening fence), and the parts joined give back the content |
| Fences.SplitUnique | components/common/ChatInterface.tsx:124 | any sequence of parts of that shape which joins to the content is the split itself, so the shape determines the parts |
| Fences.SplitFront | components/common/ChatInterface.tsx:124 | text in which no fence starts (not even with the next block's first two backticks after it), then a block, then any rest: the split is that text, that block and the split of the rest |
| Fences.FirstBlockLeftmost | App.tsx:82 | no fence starts before the leftmost block, not even one overlapping its opening fence |
| Fences.LocateFirstBlock | App.tsx:82 | after text in which no fence starts (not even with the block's first two backticks after it) a block part is the leftmost match of the whole text |
| Fences.NoBlockNoCode | components/common/ChatInterface.tsx:127-128 | a part without a fenced block never matches the code pattern |
| Fences.BlockParses | components/common/ChatInterface.tsx:127 | a block written as fence, word-character language, newline, body, fence yields that language and body |
| Fences.WordRunEnd | components/common/ChatInterface.tsx:127 | the greedy `\w*` reaches the end of the maximal run of word characters |
| Fences.MatchCodeAt | components/common/ChatInterface.tsx:127 | a match at a position is an opening fence, a run of word characters taken as the language, a newline, and a body running up to the first fence after it |
| Fences.MatchCode | components/common/ChatInterface.tsx:127 | the unanchored match is the one at the leftmost position where the pattern matches; no match means it matches at no position |
| Fences.AnchoredCodeMatch | components/common/ChatInterface.tsx:127-130 | a block part whose fence is followed by a word run and a newline matches at its start, with that run as language and everything up to the closing fence as body |
| AppLogic.ConfirmationPrompt | App.tsx:145 | the confirmation prompt is non-empty and quotes the unsure transcript |
| AppLogic.IsYes | App.tsx:126 | the reply counts as "yes" exactly when it is the three letters y, e, s in any mix of cases |
| AppLogic.InitialInvariant | App.tsx:48-59 | the initial state satisfies the pending-prompt invariant |
| AppLogic.ShowFeedback | App.tsx:61-72 | the message is shown; a timer is armed exactly for a finite duration, with that delay, replacing any armed one; nothing else changes |
| AppLogic.FeedbackTimeout | App.tsx:68-70 | the timeout empties the status line and disarms the timer, and nothing else changes; it keeps the invariant because it fires only while a timer is armed |
| AppLogic.Speak | App.tsx:74-102 | empty text only lowers the speaking flag, and only for non-feedback speech; otherwise the new utterance, with the preferred voice and the feedback flag, replaces the old one: feedback text verbatim, other text with every fenced block replaced by the placeholder, so it carries no fenced block; nothing else changes |
| AppLogic.UtteranceStarted | App.tsx:94-96 | feedback speech changes nothing; other speech raises the speaking flag; nothing else changes and the invariant is kept |
| AppLogic.UtteranceEnded | App.tsx:89-98 | feedback speech changes nothing; other speech lowers the speaking flag on end and on error; nothing else changes and the invariant is kept |
| AppLogic.ResolvePending | App.tsx:122-138 | the handler always clears a pending command: "yes" in any case publishes it with "Command confirmed." and arms 2000 ms; another confident reply is published with "Okay, new command received." and arms 2000 ms; otherwise "Confirmation cancelled…" arms 3000 ms; nothing else changes, and the invariant holds after it |
| AppLogic.HearCommand | App.tsx:141-148 | with nothing pending, a confident result is published and nothing else changes; an unsure one becomes pending, its prompt is shown with no timer and spoken as feedback, and the text is left alone; the invariant is kept |
| AppLogic.AfterPendingChange | App.tsx:186-192 | when a handler changed the pending command, the effect's cleanup leaves no timer armed; otherwise nothing changes; only the timer is touched and the invariant is kept |
| AppLogic.OnResult | App.tsx:116-149 | the transcript is trimmed; the invariant is kept; a pending command is cleared and no timer is left armed after it; a command becomes pending only from an unsure result heard while none was pending, as the trimmed transcript; listening, speaking, panel and voice are unchanged |
| AppLogic.ResolvedOutcomeStays | App.tsx:122-192 | a reply to a pending command has the effect `ResolvePending` states, except that the timer it armed is cancelled by the effect's cleanup |
| AppLogic.HeardCommandUnchanged | App.tsx:141-192 | with nothing pending, a result has exactly the effect `HearCommand` states |
| AppLogic.ErrorMessage | App.tsx:157-162 | "no-speech", the two permission errors and every other error each get their own message, in both directions |
| AppLogic.OnError | App.tsx:151-165 | after an error nothing is pending and listening is off; the error message is shown, for 5000 ms when nothing was pending and with no timer when a pending command was dropped; nothing else changes |
| AppLogic.OnEnd | App.tsx:167-169 | listening is lowered, nothing else changes, and the invariant is kept |
| AppLogic.ToggleListening | App.tsx:194-209 | without a recognizer nothing happens; while listening only a stop is requested; otherwise a start is requested, listening is raised and the text is cleared unless a confirmation is awaited |
| AppLogic.ClearSpokenText | App.tsx:212-214 | the spoken text becomes empty, nothing else changes, and the invariant is kept |
| AppLogic.SelectPanel | App.tsx:260-261 | the chosen panel becomes active, nothing else changes, and the invariant is kept |
| AppLogic.MaximizeChange | App.tsx:222-224 | the maximized flag takes the given value, nothing else changes, and the invariant is kept |
| AppLogic.ClosePanel | App.tsx:216-220 | closing returns to the home panel, not maximized, and nothing else changes |
| AppLogic.FindFirst | App.tsx:176-178 | `find` returns the first voice from a position on that satisfies the test, or none when no voice does |
| AppLogic.SelectVoiceIndex | App.tsx:173-180 | the first English voice whose lower-cased name contains "male", else the first English voice, else the first voice |
| AppLogic.SetupVoice | App.tsx:173-183 | an empty voice list changes nothing; otherwise the remembered voice is the one of the list that `SelectVoiceIndex` prefers; nothing else changes |
| AppLogic.FemaleCountsAsMale | App.tsx:177 | every English voice whose lower-cased name contains "female" passes the "male" test |
| AppLogic.StepInvariant | App.tsx:61-224 | every event handler keeps the pending-prompt invariant |
| AppLogic.StepPending | App.tsx:116-165 | when a command is pending after an event, either it was pending before and the event was neither a result nor an error, or it arose from an unsure result heard while idle, as the trimmed transcript |
| AppLogic.StepKeepsPending | App.tsx:116-224 | a pending command stays pending, unchanged, through every event other than a recognition result or error |
| AppLogic.RunInvariant | App.tsx:61-224 | every sequence of events keeps the invariant |
| AppLogic.ConfirmWithYes | App.tsx:122-148 | an unsure command followed by "yes" at any confidence publishes the trimmed command, and "Command confirmed." stays with no timer armed |
| App.Assistant.constructor | App.tsx:48-59 | the initial state, which satisfies the invariant |
| App.Assistant.ShowRecognitionFeedback | App.tsx:61-72 | the armed timer is cancelled, the message is shown, and a new timer is armed only for a finite duration |
| App.Assistant.OnFeedbackTimeout | App.tsx:68-70 | the new state is `FeedbackTimeout` of the old one, and the invariant holds |
| App.Assistant.Speak | App.tsx:74-102 | the new state is `AppLogic.Speak` of the old one, which keeps the invariant |
| App.Assistant.OnUtteranceStart | App.tsx:94-96 | only non-feedback speech raises the speaking flag |
| App.Assistant.OnUtteranceEnd | App.tsx:89-98 | only non-feedback speech lowers the speaking flag, on end and on error |
| App.Assistant.OnResult | App.tsx:116-149 | the new state is `AppLogic.OnResult` of the old one, and the invariant holds |
| App.Assistant.ResolvePendingCommand | App.tsx:122-138 | the pending branch updates the state as `ResolvePending` says |
| App.Assistant.HearNewCommand | App.tsx:141-148 | the idle branch updates the state as `HearCommand` says |
| App.Assistant.OnError | App.tsx:151-165 | the new state is `AppLogic.OnError` of the old one, and the invariant holds |
| App.Assistant.RerunRecognitionEffect | App.tsx:186-192 | the new state is `AfterPendingChange` of the old one |
| App.Assistant.OnEnd | App.tsx:167-169 | listening is lowered and nothing else changes |
| App.Assistant.ToggleListening | App.tsx:194-209 | the new state and the recognizer call are `AppLogic.ToggleListening` of the old state |
| App.Assistant.ClearSpokenText | App.tsx:212-214 | only the text is cleared, and the invariant is kept |
| App.Assistant.SelectPanel | App.tsx:260-261 | only the active panel changes |
| App.Assistant.HandleMaximizeChange | App.tsx:222-224 | only the maximized flag changes |
| App.Assistant.HandleClosePanel | App.tsx:216-220 | the new state is `AppLogic.ClosePanel` of the old one |
| App.Assistant.SetupVoice | App.tsx:173-180 | with a non-empty voice list the voice chosen by `SelectVoiceIndex` is remembered; with an empty one nothing changes |
| GeminiService.CreateChat | services/geminiService.ts:14-19 | a fresh session with the fixed model name and the given system instruction |
| GeminiService.SessionRegistry.constructor | services/geminiService.ts:10 | the registry starts empty |
| GeminiService.SessionRegistry.GetChatSession | services/geminiService.ts:12-23 | the id is bound to the returned session; an existing binding is returned and the map is unchanged; otherwise a fresh session with the given instruction is added under the id only; distinct ids keep distinct sessions |
| GeminiService.SessionRegistry.GetChatSessionTwice | services/geminiService.ts:12-23 | two calls with one id return the same session, configured by the first call ever made for that id |
| ChatLogic.ChunkText | components/common/ChatInterface.tsx:80 | a chunk adds its text, or the word "undefined" when it has none |
| ChatLogic.StreamedText | components/common/ChatInterface.tsx:78-81 | no chunks give the empty text; otherwise the text is the first chunk's text followed by the text of the rest |
| ChatLogic.StreamedTextAppend | components/common/ChatInterface.tsx:78-81 | the text of a stream is the concatenation of the texts of its pieces, in order |
| ChatLogic.BlankChunksBlankText | components/common/ChatInterface.tsx:78-81 | chunks that are all blank give a blank text |
| ChatLogic.ReplyText | components/common/ChatInterface.tsx:82-94 | the reply is never blank; a failure gives the error text; a blank stream gives the apology; otherwise it is the streamed text as is |
| ChatLogic.BlankStreamApology | components/common/ChatInterface.tsx:84-86 | a stream of blank chunks is answered with the apology |
| ChatLogic.UndefinedChunkText | components/common/ChatInterface.tsx:80 | for any text, a chunk without text after it adds "undefined" to the reply |
| ChatLogic.SendableText | components/common/ChatInterface.tsx:66-67 | only a present message whose trim is non-empty is sent, and it is sent trimmed |
| ChatLogic.AskKeepsConversation | components/common/ChatInterface.tsx:69-71 | sending from an answered history leaves exactly one unanswered user turn |
| ChatLogic.AnswerKeepsConversation | components/common/ChatInterface.tsx:88-96 | appending the model turn answers the outstanding user turn |
| ChatLogic.AnsweredAlternates | components/common/ChatInterface.tsx:65-100 | in an answered history each user turn is followed by a model turn, and every model turn but a leading welcome follows a user turn |
| ChatLogic.RenderPart | components/common/ChatInterface.tsx:126-144 | a part with no fenced block shows as its own text; a block part whose fence is followed by a word run and a newline shows as code in that language, or "plaintext" when the run is empty, with its body trimmed; text is shown unaltered and code always has a language |
| ChatLogic.RenderMessageContent | components/common/ChatInterface.tsx:123-146 | one segment per part of the split, an odd number; even parts show as their own text; odd parts of the block shape show as their code; the parts join back to the content |
| ChatLogic.RenderedCode | components/common/ChatInterface.tsx:127-130 | a block part shows as code in its language, or "plaintext" when none is named, with its body trimmed |
| Chat.ChatInterface.constructor | components/common/ChatInterface.tsx:36-38 | an empty history, not loading, an empty input |
| Chat.ChatInterface.SeedWelcome | components/common/ChatInterface.tsx:56-59 | an empty history gets the non-empty welcome as its one model turn; otherwise nothing changes |
| Chat.ChatInterface.StartSend | components/common/ChatInterface.tsx:65-76 | a blank or missing message, or a send while loading, changes nothing; otherwise the trimmed text is appended as a user turn, loading is raised, and the request goes to the panel's session, which is created on first use |
| Chat.ChatInterface.CollectStream | components/common/ChatInterface.tsx:78-81 | the loop concatenates every chunk's text in order |
| Chat.ChatInterface.ComposeReply | components/common/ChatInterface.tsx:78-92 | the text settled on is `ReplyText` of the outcome |
| Chat.ChatInterface.CompleteSend | components/common/ChatInterface.tsx:78-99 | exactly one model turn, the reply, is appended; loading is lowered; the same text is spoken as non-feedback speech; the history keeps its turn-taking shape |
| Chat.ChatInterface.HandleSendMessage | components/common/ChatInterface.tsx:65-100 | a whole send either changes nothing (registry included) or appends exactly the trimmed user turn and then the reply, lowers loading and speaks the reply; the registry gains a fresh session with the panel's instruction only when the panel had none, and otherwise stays as it was |
| Chat.ChatInterface.SetInput | components/common/ChatInterface.tsx:198 | the input box holds the typed value |
| Chat.ChatInterface.HandleFormSubmit | components/common/ChatInterface.tsx:102-107 | a non-blank input is sent trimmed to the panel's session and the box is cleared, even when the send is refused because a request is in flight; a refused or blank send leaves the registry as it was; a sent one leaves it unchanged when the panel already had a session and otherwise adds exactly that panel's fresh session |
| Chat.ChatInterface.ConsumeSpokenText | components/common/ChatInterface.tsx:109-114 | non-empty spoken text is sent like typed text, to the panel's session, and then cleared at the host, so it is sent at most once; the registry changes only by adding the panel's fresh session when it had none, and not at all when nothing is sent |
| Types.PanelIdInjective | components/panels/KaliPanel.tsx:22 | different panels use different session keys |

## Left out

- Browser speech APIs are not modelled as objects. A recognition result, error or end, an utterance's start or end, a `voiceschanged` event and a timer firing are events handled by the methods above. `event.results[...][0]` is taken to be the transcript and confidence passed in.
- Network calls, audio and the DOM are outside the model. The API-key check at module load, `sendMessageStream`, `playSound`, focus and scrolling, syntax highlighting, clipboard copy and the "Copied!" flag are not modelled. So are the `showSetup` setup animation and the render markup.
- The reply stream is an input. `StreamOutcome` stands for either the chunks that eventually arrived or a failure anywhere in the call. Chunk text may be missing.
- Concurrency and timing are not modelled. React's batching is taken to be React 18's automatic batching: each handler runs to its end, and the recognizer effect is set up again afterwards. The only part of that set-up the model keeps is its cleanup cancelling the armed status timer when `pendingCommand` changed. The new recognizer object, the repeated `setupVoice` call, stale closures and the cleanup on unmount are not modelled. Without that batching, the cleanup could run before a handler arms its timer, and the timer would survive.
- A send is modelled as two atomic steps: up to the remote call, and after the whole stream. Interleaving of other events between the chunks of the `for await` loop (components/common/ChatInterface.tsx:79) is not modelled.
- The timer reference is not nulled when the timeout fires. The model drops the timer at that point; this only affects whether a later `clearTimeout` is a no-op.
- The `onEnd` callback option of `speak` is not modelled, since no caller in the core passes one.
- Text.ToLower: it lowers ASCII letters only, not full Unicode. This is enough for the comparisons with "yes" and "male", which are ASCII.
- `setupVoice` is modelled on a voice list, not on `getVoices()`.
- The rendering of user turns and the loading spinner is not modelled; it is markup over the same state.
- Fences.MatchCodeAt: its contract states what every match consists of, not that a match is found wherever the pattern fits. The leftmost-position clause of `Fences.MatchCode` and `Fences.AnchoredCodeMatch` cover the cases the display needs.
- ChatLogic.RenderMessageContent: for a block part whose opening fence is not followed by a word run and a newline (such as four backticks), only the general clause "rendered as `RenderPart` renders it" applies, because the unanchored match may then start later in the part.
