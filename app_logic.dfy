/**
 * The state of the assistant's top-level component (App.tsx) and, as functions of
 * that state, what each of its handlers does: the voice-command confirmation gate
 * driven by recognition results and errors, the transient status line with its
 * single cancellable clear-timer, the listen toggle, the panel rules, speech output
 * and the choice of voice. The class in module App runs these handlers in place.
 */
module AppLogic {
  import opened Wrappers
  import opened Text
  import opened Types
  import Fences

  /** A recognition result at least this confident is taken as said. */
  const ConfidenceThreshold: real := 0.7

  /** How long a status message stays up when no duration is given, in ms. */
  const DefaultFeedbackMillis: nat := 5000

  const ConfirmedMessage: string := "Command confirmed."
  const NewCommandMessage: string := "Okay, new command received."
  const CancelledMessage: string := "Confirmation cancelled. Please try your command again."
  const GenericErrorMessage: string := "Sorry, a recognition error occurred."
  const NoSpeechMessage: string := "I didn't hear anything. Please try again."
  const MicrophoneMessage: string := "Microphone access is disabled. Please enable it in your browser settings."

  /** How long a status message stays up: a number of milliseconds, or `Infinity`. */
  datatype Duration = Millis(ms: nat) | Forever

  /** A speech-synthesis voice, as far as the selection looks at it. */
  datatype Voice = Voice(name: string, lang: string)

  /** An utterance handed to speech synthesis. */
  datatype Utterance = Utterance(text: string, voice: Option<Voice>, isFeedback: bool)

  /** The call `toggleListening` makes on the recognizer. */
  datatype RecognizerCall = NoCall | StartRecognizer | StopRecognizer

  /**
   * App's state. `voice` is the voice reference, `feedbackTimer` the delay of the
   * armed status-clearing timeout (None when no timeout is outstanding), and
   * `utterance` the utterance most recently handed to speech synthesis, which
   * cancels whatever was speaking before it.
   */
  datatype AppState = AppState(
    activePanel: PanelType,
    isListening: bool,
    spokenText: string,
    isSpeaking: bool,
    recognitionStatus: string,
    pendingCommand: Option<string>,
    isPanelMaximized: bool,
    voice: Option<Voice>,
    feedbackTimer: Option<nat>,
    utterance: Option<Utterance>)

  const Initial: AppState := AppState(Home, false, "", false, "", None, false, None, None, None)

  /** `if (pendingCommand)`: JavaScript truthiness, so a pending empty transcript counts as none. */
  predicate Pending(p: Option<string>) {
    p.Some? && p.value != ""
  }

  /** The sticky prompt shown and spoken while a transcript awaits confirmation; it is never empty and quotes the transcript. */
  function ConfirmationPrompt(transcript: string): (m: string)
    ensures m != []
    ensures Includes(m, "\"" + transcript + "\"")
  {
    var prefix := "I'm not sure. Did you say: ";
    var quoted := "\"" + transcript + "\"";
    var m := prefix + quoted + "? Click the mic and say 'yes' to confirm, or just state your new command.";
    assert m[|prefix|..|prefix| + |quoted|] == quoted;
    assert OccursAt(m, quoted, |prefix|);
    m
  }

  /** `transcript.toLowerCase() === 'yes'`: the reply "yes" in any mix of cases, and nothing else. */
  function IsYes(transcript: string): (b: bool)
    ensures b <==> (|transcript| == 3 &&
                    (transcript[0] == 'y' || transcript[0] == 'Y') &&
                    (transcript[1] == 'e' || transcript[1] == 'E') &&
                    (transcript[2] == 's' || transcript[2] == 'S'))
  {
    var lower := ToLower(transcript);
    assert |transcript| == 3 ==> lower[0] == LowerChar(transcript[0]) && lower[1] == LowerChar(transcript[1]) && lower[2] == LowerChar(transcript[2]);
    lower == "yes"
  }

  /**
   * While a command awaits confirmation, its prompt is on screen and no
   * clear-timer is armed, so the prompt stays until the command is resolved.
   */
  predicate Invariant(s: AppState) {
    Pending(s.pendingCommand) ==>
      s.recognitionStatus == ConfirmationPrompt(s.pendingCommand.value) && s.feedbackTimer.None?
  }

  lemma InitialInvariant()
    ensures Invariant(Initial)
  {
  }

  /** `showRecognitionFeedback`: cancel the armed timer, show the message, arm a new timer unless the duration is infinite. */
  function ShowFeedback(s: AppState, message: string, duration: Duration): (t: AppState)
    ensures t.recognitionStatus == message
    ensures t.feedbackTimer.Some? <==> duration.Millis?
    ensures duration.Millis? ==> t.feedbackTimer == Some(duration.ms)
    ensures t == s.(recognitionStatus := message, feedbackTimer := t.feedbackTimer)
  {
    s.(recognitionStatus := message,
       feedbackTimer := if duration.Millis? then Some(duration.ms) else None)
  }

  /** The armed timeout fires and clears the status line. */
  function FeedbackTimeout(s: AppState): (t: AppState)
    ensures t.recognitionStatus == "" && t.feedbackTimer == None
    ensures t == s.(recognitionStatus := "", feedbackTimer := None)
    ensures Invariant(s) && s.feedbackTimer.Some? ==> Invariant(t)
  {
    s.(recognitionStatus := "", feedbackTimer := None)
  }

  /** `speak`: an empty text only ends speaking; other text, with code blocks scrubbed unless it is feedback, replaces what is playing. */
  function Speak(s: AppState, text: string, isFeedback: bool): (t: AppState)
    ensures text == "" ==> t == s.(isSpeaking := if isFeedback then s.isSpeaking else false)
    // The next three clauses follow from the exact utterance below and `ScrubCode`'s
    // contract; they name the voice, the verbatim feedback and the absence of code.
    ensures text != "" ==> t.utterance.Some? && t.utterance.value.voice == s.voice
    ensures text != "" && isFeedback ==> t.utterance.value.text == text
    ensures text != "" && !isFeedback ==> Fences.NoBlock(t.utterance.value.text)
    ensures text != "" ==>
      t.utterance == Some(Utterance(if isFeedback then text else Fences.ScrubCode(text), s.voice, isFeedback))
    ensures text != "" ==> t == s.(utterance := t.utterance)
    ensures Invariant(s) ==> Invariant(t)
  {
    if text == "" then
      s.(isSpeaking := if isFeedback then s.isSpeaking else false)
    else
      var clean := if isFeedback then text else Fences.ScrubCode(text);
      s.(utterance := Some(Utterance(clean, s.voice, isFeedback)))
  }

  /** An utterance's `onstart`: only non-feedback speech raises the speaking flag. */
  function UtteranceStarted(s: AppState, u: Utterance): (t: AppState)
    ensures u.isFeedback ==> t == s
    ensures !u.isFeedback ==> t.isSpeaking
    ensures t == s.(isSpeaking := t.isSpeaking)
    ensures Invariant(s) ==> Invariant(t)
  {
    if u.isFeedback then s else s.(isSpeaking := true)
  }

  /** An utterance's `onend` or `onerror`: only non-feedback speech lowers the speaking flag. */
  function UtteranceEnded(s: AppState, u: Utterance): (t: AppState)
    ensures u.isFeedback ==> t == s
    ensures !u.isFeedback ==> !t.isSpeaking
    ensures t == s.(isSpeaking := t.isSpeaking)
    ensures Invariant(s) ==> Invariant(t)
  {
    if u.isFeedback then s else s.(isSpeaking := false)
  }

  /**
   * A reply heard while a command is pending always resolves it: "yes" (after
   * lower-casing) publishes the pending command whatever the confidence, another
   * confident reply is published as a new command, anything else cancels.
   */
  function ResolvePending(s: AppState, transcript: string, confidence: real): (t: AppState)
    requires Pending(s.pendingCommand)
    ensures t.pendingCommand == None
    ensures IsYes(transcript) ==>
      t.spokenText == s.pendingCommand.value &&
      t.recognitionStatus == ConfirmedMessage && t.feedbackTimer == Some(2000)
    ensures !IsYes(transcript) && confidence >= ConfidenceThreshold ==>
      t.spokenText == transcript &&
      t.recognitionStatus == NewCommandMessage && t.feedbackTimer == Some(2000)
    ensures !IsYes(transcript) && confidence < ConfidenceThreshold ==>
      t.spokenText == s.spokenText &&
      t.recognitionStatus == CancelledMessage && t.feedbackTimer == Some(3000)
    ensures t == s.(pendingCommand := None, spokenText := t.spokenText,
                    recognitionStatus := t.recognitionStatus, feedbackTimer := t.feedbackTimer)
    ensures Invariant(t)
  {
    var cleared := s.(pendingCommand := None, recognitionStatus := "");
    if IsYes(transcript) then
      ShowFeedback(cleared.(spokenText := s.pendingCommand.value), ConfirmedMessage, Millis(2000))
    else if confidence >= ConfidenceThreshold then
      ShowFeedback(cleared.(spokenText := transcript), NewCommandMessage, Millis(2000))
    else
      ShowFeedback(cleared, CancelledMessage, Millis(3000))
  }

  /**
   * A result heard with no command pending: a confident one is published at once
   * and nothing else changes; an unsure one becomes the pending command, with the
   * text unchanged and a prompt quoting it spoken and kept on screen with no timer.
   */
  function HearCommand(s: AppState, transcript: string, confidence: real): (t: AppState)
    requires !Pending(s.pendingCommand)
    ensures confidence >= ConfidenceThreshold ==> t == s.(spokenText := transcript)
    ensures confidence < ConfidenceThreshold ==>
      t.pendingCommand == Some(transcript) && t.spokenText == s.spokenText &&
      t.recognitionStatus == ConfirmationPrompt(transcript) && t.feedbackTimer == None &&
      t.utterance == Some(Utterance(ConfirmationPrompt(transcript), s.voice, true)) &&
      t == s.(pendingCommand := t.pendingCommand, recognitionStatus := t.recognitionStatus,
              feedbackTimer := None, utterance := t.utterance)
    ensures Invariant(s) ==> Invariant(t)
  {
    if confidence >= ConfidenceThreshold then
      s.(spokenText := transcript)
    else
      var prompt := ConfirmationPrompt(transcript);
      assert prompt != "" by { assert prompt[0] == 'I'; }
      var asked := Speak(s.(pendingCommand := Some(transcript)), prompt, true);
      ShowFeedback(asked, prompt, Forever)
  }

  /**
   * The recognizer effect lists `pendingCommand` among its dependencies, so React
   * runs it again after any handler that changed the pending command, and its
   * cleanup first cancels the armed status timer. Under React 18's automatic
   * batching this happens after the handler has returned, so the timer the handler
   * just armed is the one cancelled: its message then stays until the next one.
   */
  function AfterPendingChange(previous: Option<string>, s: AppState): (t: AppState)
    ensures s.pendingCommand != previous ==> t.feedbackTimer == None
    ensures s.pendingCommand == previous ==> t == s
    ensures t == s.(feedbackTimer := t.feedbackTimer)
    ensures Invariant(s) ==> Invariant(t)
  {
    if s.pendingCommand != previous then s.(feedbackTimer := None) else s
  }

  /**
   * `recognition.onresult` for the last result's first alternative, trimmed.
   * Whatever is heard, a command that was pending is no longer pending, and a
   * command becomes pending only from an unsure result heard while none was.
   * Resolving a pending command leaves its outcome on screen with no timer.
   */
  function OnResult(s: AppState, rawTranscript: string, confidence: real): (t: AppState)
    ensures Invariant(s) ==> Invariant(t)
    ensures Pending(s.pendingCommand) ==> t.pendingCommand == None
    ensures Pending(s.pendingCommand) ==> t.feedbackTimer == None
    ensures Pending(t.pendingCommand) ==>
      !Pending(s.pendingCommand) && confidence < ConfidenceThreshold && t.pendingCommand == Some(Trim(rawTranscript))
    ensures t == s.(pendingCommand := t.pendingCommand, spokenText := t.spokenText,
                    recognitionStatus := t.recognitionStatus, feedbackTimer := t.feedbackTimer,
                    utterance := t.utterance)
  {
    var transcript := Trim(rawTranscript);
    var handled := if Pending(s.pendingCommand) then ResolvePending(s, transcript, confidence)
                   else HearCommand(s, transcript, confidence);
    AfterPendingChange(s.pendingCommand, handled)
  }

  /** A reply to a pending command takes effect as its handler states, and the message it shows then stays with no timer. */
  lemma ResolvedOutcomeStays(s: AppState, rawTranscript: string, confidence: real)
    requires Pending(s.pendingCommand)
    ensures OnResult(s, rawTranscript, confidence) == ResolvePending(s, Trim(rawTranscript), confidence).(feedbackTimer := None)
  {
  }

  /** With no command pending, a result takes effect exactly as its handler states: the effect's cleanup finds no timer to cancel. */
  lemma HeardCommandUnchanged(s: AppState, rawTranscript: string, confidence: real)
    requires !Pending(s.pendingCommand)
    ensures OnResult(s, rawTranscript, confidence) == HearCommand(s, Trim(rawTranscript), confidence)
  {
  }

  /** The status text for a recognition error kind. */
  function ErrorMessage(error: string): (m: string)
    ensures m == NoSpeechMessage <==> error == "no-speech"
    ensures m == MicrophoneMessage <==> error == "not-allowed" || error == "service-not-allowed"
    ensures m == GenericErrorMessage <==> error != "no-speech" && error != "not-allowed" && error != "service-not-allowed"
  {
    if error == "no-speech" then NoSpeechMessage
    else if error == "not-allowed" || error == "service-not-allowed" then MicrophoneMessage
    else GenericErrorMessage
  }

  /**
   * `recognition.onerror`: drop any pending command, show the error for the
   * default time, stop listening. When a command was dropped, the effect's cleanup
   * cancels that timer and the error stays on screen.
   */
  function OnError(s: AppState, error: string): (t: AppState)
    ensures !Pending(t.pendingCommand) && !t.isListening
    ensures Pending(s.pendingCommand) ==> t.pendingCommand == None
    ensures !Pending(s.pendingCommand) ==> t.pendingCommand == s.pendingCommand
    ensures t.recognitionStatus == ErrorMessage(error)
    ensures t.feedbackTimer == if Pending(s.pendingCommand) then None else Some(DefaultFeedbackMillis)
    ensures t == s.(pendingCommand := t.pendingCommand, recognitionStatus := t.recognitionStatus,
                    feedbackTimer := t.feedbackTimer, isListening := false)
    ensures Invariant(t)
  {
    var cleared := if Pending(s.pendingCommand) then s.(pendingCommand := None, recognitionStatus := "") else s;
    var handled := ShowFeedback(cleared, ErrorMessage(error), Millis(DefaultFeedbackMillis)).(isListening := false);
    AfterPendingChange(s.pendingCommand, handled)
  }

  /** `recognition.onend`. */
  function OnEnd(s: AppState): (t: AppState)
    ensures !t.isListening
    ensures t == s.(isListening := false)
    ensures Invariant(s) ==> Invariant(t)
  {
    s.(isListening := false)
  }

  /**
   * `toggleListening`: nothing without a recognizer; while listening, only ask the
   * recognizer to stop (its end event lowers the flag); otherwise start listening,
   * clearing the last text unless it is a confirmation reply that is awaited.
   */
  function ToggleListening(s: AppState, recognizerAvailable: bool): (r: (AppState, RecognizerCall))
    ensures !recognizerAvailable ==> r == (s, NoCall)
    ensures recognizerAvailable && s.isListening ==> r == (s, StopRecognizer)
    ensures recognizerAvailable && !s.isListening ==>
      r.1 == StartRecognizer && r.0.isListening &&
      r.0.spokenText == (if Pending(s.pendingCommand) then s.spokenText else "") &&
      r.0 == s.(isListening := true, spokenText := r.0.spokenText)
    ensures Invariant(s) ==> Invariant(r.0)
  {
    if !recognizerAvailable then (s, NoCall)
    else if s.isListening then (s, StopRecognizer)
    else
      var t := if Pending(s.pendingCommand) then s else s.(spokenText := "");
      (t.(isListening := true), StartRecognizer)
  }

  /** `clearSpokenText`, called by the chat once it has sent the text. */
  function ClearSpokenText(s: AppState): (t: AppState)
    ensures t.spokenText == ""
    ensures t.(spokenText := s.spokenText) == s
    ensures Invariant(s) ==> Invariant(t)
  {
    s.(spokenText := "")
  }

  /** The taskbar's `setActivePanel`. */
  function SelectPanel(s: AppState, p: PanelType): (t: AppState)
    ensures t.activePanel == p
    ensures t.(activePanel := s.activePanel) == s
    ensures Invariant(s) ==> Invariant(t)
  {
    s.(activePanel := p)
  }

  /** `handleMaximizeChange`. */
  function MaximizeChange(s: AppState, isMaximized: bool): (t: AppState)
    ensures t.isPanelMaximized == isMaximized
    ensures t.(isPanelMaximized := s.isPanelMaximized) == s
    ensures Invariant(s) ==> Invariant(t)
  {
    s.(isPanelMaximized := isMaximized)
  }

  /** `handleClosePanel`: back to the home panel, not maximized; nothing else changes. */
  function ClosePanel(s: AppState): (t: AppState)
    ensures t.activePanel == Home && !t.isPanelMaximized
    ensures t == s.(activePanel := Home, isPanelMaximized := false)
  {
    s.(activePanel := Home, isPanelMaximized := false)
  }

  predicate IsEnglish(v: Voice) {
    StartsWith(v.lang, "en")
  }

  /** `voice.name.toLowerCase().includes('male')`: a substring test, so "Female" passes too. */
  predicate IsEnglishMale(v: Voice) {
    IsEnglish(v) && Includes(ToLower(v.name), "male")
  }

  /** `voices.find(p)`, as the index of the first voice satisfying `p`. */
  function FindFirst(voices: seq<Voice>, p: Voice -> bool, k: nat): (r: Option<nat>)
    decreases |voices| - k
    ensures r.Some? ==> k <= r.value < |voices| && p(voices[r.value])
    ensures r.Some? ==> forall j :: k <= j < r.value ==> !p(voices[j])
    ensures r.None? ==> forall j :: k <= j < |voices| ==> !p(voices[j])
  {
    if k >= |voices| then None
    else if p(voices[k]) then Some(k)
    else FindFirst(voices, p, k + 1)
  }

  /**
   * `setupVoice`'s choice: the first English voice whose name contains "male",
   * else the first English voice, else the first voice.
   */
  function SelectVoiceIndex(voices: seq<Voice>): (k: nat)
    requires |voices| > 0
    ensures k < |voices|
    ensures (exists i :: 0 <= i < |voices| && IsEnglishMale(voices[i])) ==>
      IsEnglishMale(voices[k]) && forall j :: 0 <= j < k ==> !IsEnglishMale(voices[j])
    ensures (forall i :: 0 <= i < |voices| ==> !IsEnglishMale(voices[i])) &&
            (exists i :: 0 <= i < |voices| && IsEnglish(voices[i])) ==>
      IsEnglish(voices[k]) && forall j :: 0 <= j < k ==> !IsEnglish(voices[j])
    ensures (forall i :: 0 <= i < |voices| ==> !IsEnglish(voices[i])) ==> k == 0
  {
    match FindFirst(voices, IsEnglishMale, 0)
    case Some(k) => k
    case None =>
      match FindFirst(voices, IsEnglish, 0)
      case Some(k) => k
      case None => 0
  }

  /** `setupVoice`: once the voice list is non-empty, remember the preferred voice. */
  function SetupVoice(s: AppState, voices: seq<Voice>): (t: AppState)
    ensures |voices| == 0 ==> t == s
    ensures |voices| > 0 ==> t.voice.Some? && t.voice.value in voices && t.voice.value == voices[SelectVoiceIndex(voices)]
    ensures t == s.(voice := t.voice)
    ensures Invariant(s) ==> Invariant(t)
  {
    if |voices| > 0 then s.(voice := Some(voices[SelectVoiceIndex(voices)])) else s
  }

  /** The substring test lets every English voice with "female" in its name through as "male". */
  lemma FemaleCountsAsMale(v: Voice)
    requires IsEnglish(v) && Includes(ToLower(v.name), "female")
    ensures IsEnglishMale(v)
  {
    var lower := ToLower(v.name);
    var i :| 0 <= i && OccursAt(lower, "female", i);
    assert lower[i + 2..i + 6] == lower[i..i + 6][2..];
    assert OccursAt(lower, "male", i + 2);
  }

  /** The events the handlers above respond to. */
  datatype Event =
    | Recognized(transcript: string, confidence: real)
    | RecognitionFailed(error: string)
    | RecognitionEnded
    | FeedbackExpired
    | MicToggled
    | SpokenTextCleared
    | PanelSelected(panel: PanelType)
    | MaximizeChanged(isMaximized: bool)
    | PanelClosed
    | SpeakRequested(text: string, isFeedback: bool)
    | UtteranceStart(u: Utterance)
    | UtteranceEnd(u: Utterance)
    | VoicesChanged(voices: seq<Voice>)

  /** One event. A timeout only fires while a timer is armed (a cancelled one never does). */
  function Step(s: AppState, recognizerAvailable: bool, e: Event): AppState {
    match e
    case Recognized(tr, c) => OnResult(s, tr, c)
    case RecognitionFailed(err) => OnError(s, err)
    case RecognitionEnded => OnEnd(s)
    case FeedbackExpired => if s.feedbackTimer.Some? then FeedbackTimeout(s) else s
    case MicToggled => ToggleListening(s, recognizerAvailable).0
    case SpokenTextCleared => ClearSpokenText(s)
    case PanelSelected(p) => SelectPanel(s, p)
    case MaximizeChanged(m) => MaximizeChange(s, m)
    case PanelClosed => ClosePanel(s)
    case SpeakRequested(text, fb) => Speak(s, text, fb)
    case UtteranceStart(u) => UtteranceStarted(s, u)
    case UtteranceEnd(u) => UtteranceEnded(s, u)
    case VoicesChanged(vs) => SetupVoice(s, vs)
  }

  /** A run of events, in order. */
  function Run(s: AppState, recognizerAvailable: bool, events: seq<Event>): AppState
    decreases |events|
  {
    if events == [] then s else Run(Step(s, recognizerAvailable, events[0]), recognizerAvailable, events[1..])
  }

  /** Every event keeps the prompt of a pending command on screen with no timer armed. */
  lemma StepInvariant(s: AppState, recognizerAvailable: bool, e: Event)
    requires Invariant(s)
    ensures Invariant(Step(s, recognizerAvailable, e))
  {
  }

  /** A command becomes pending only through an unsure result heard while none was pending. */
  lemma StepPending(s: AppState, recognizerAvailable: bool, e: Event)
    requires Pending(Step(s, recognizerAvailable, e).pendingCommand)
    ensures Pending(s.pendingCommand) ==>
      !e.Recognized? && !e.RecognitionFailed? &&
      Step(s, recognizerAvailable, e).pendingCommand == s.pendingCommand
    ensures !Pending(s.pendingCommand) ==>
      e.Recognized? && e.confidence < ConfidenceThreshold &&
      Step(s, recognizerAvailable, e).pendingCommand == Some(Trim(e.transcript))
  {
  }

  /** From any reachable state, every run of events keeps the invariant. */
  lemma {:induction false} RunInvariant(s: AppState, recognizerAvailable: bool, events: seq<Event>)
    requires Invariant(s)
    decreases |events|
    ensures Invariant(Run(s, recognizerAvailable, events))
  {
    if events != [] {
      StepInvariant(s, recognizerAvailable, events[0]);
      RunInvariant(Step(s, recognizerAvailable, events[0]), recognizerAvailable, events[1..]);
    }
  }

  /** A command stays pending through every event other than a recognition result or error. */
  lemma StepKeepsPending(s: AppState, recognizerAvailable: bool, e: Event)
    requires Pending(s.pendingCommand) && !e.Recognized? && !e.RecognitionFailed?
    ensures Step(s, recognizerAvailable, e).pendingCommand == s.pendingCommand
  {
  }

  /**
   * An unsure command followed by "yes" (any case, any confidence) is published as
   * the command itself, and "Command confirmed." stays on screen with no timer.
   */
  lemma ConfirmWithYes(s: AppState, command: string, c1: real, reply: string, c2: real)
    requires !Pending(s.pendingCommand) && Trim(command) != "" && c1 < ConfidenceThreshold
    requires IsYes(Trim(reply))
    ensures var t := OnResult(OnResult(s, command, c1), reply, c2);
      t.spokenText == Trim(command) && t.pendingCommand == None && t.recognitionStatus == ConfirmedMessage &&
      t.feedbackTimer == None
  {
  }
}
