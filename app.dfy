/**
 * The top-level component (App.tsx) as an object whose handlers update its state
 * in place. Each handler's new state is the matching AppLogic function of the old
 * one, so everything proved there holds of these handlers.
 */
module App {
  import opened Wrappers
  import opened Text
  import opened Types
  import Fences
  import opened AppLogic

  class Assistant {
    /** Whether the browser offers speech recognition (the recognizer reference is set). */
    const recognizerAvailable: bool

    var activePanel: PanelType
    var isListening: bool
    var spokenText: string
    var isSpeaking: bool
    var recognitionStatus: string
    var pendingCommand: Option<string>
    var isPanelMaximized: bool
    /** The preferred voice reference. */
    var voice: Option<Voice>
    /** The feedback timer reference: the delay of the armed clear, if one is outstanding. */
    var feedbackTimer: Option<nat>
    /** The utterance last handed to speech synthesis; handing over a new one cancels it. */
    var utterance: Option<Utterance>

    function State(): AppState
      reads this
    {
      AppState(activePanel, isListening, spokenText, isSpeaking, recognitionStatus,
               pendingCommand, isPanelMaximized, voice, feedbackTimer, utterance)
    }

    ghost predicate Valid()
      reads this
    {
      Invariant(State())
    }

    constructor (recognizerAvailable: bool)
      ensures this.recognizerAvailable == recognizerAvailable
      ensures State() == Initial && Valid()
    {
      this.recognizerAvailable := recognizerAvailable;
      activePanel := Home;
      isListening := false;
      spokenText := "";
      isSpeaking := false;
      recognitionStatus := "";
      pendingCommand := None;
      isPanelMaximized := false;
      voice := None;
      feedbackTimer := None;
      utterance := None;
    }

    /** `showRecognitionFeedback`: cancel the armed timer first, show the message, arm a clear only for a finite duration. */
    method ShowRecognitionFeedback(message: string, duration: Duration)
      modifies this
      ensures State() == ShowFeedback(old(State()), message, duration)
    {
      if feedbackTimer.Some? {
        feedbackTimer := None;
      }
      recognitionStatus := message;
      if duration.Millis? {
        feedbackTimer := Some(duration.ms);
      }
    }

    /** The armed timeout fires: the status line is cleared. */
    method OnFeedbackTimeout()
      requires Valid() && feedbackTimer.Some?
      modifies this
      ensures State() == FeedbackTimeout(old(State())) && Valid()
    {
      recognitionStatus := "";
      feedbackTimer := None;
    }

    /** `speak`: the empty-text path, the code scrubbing and the hand-over to speech synthesis. */
    method Speak(text: string, isFeedback: bool)
      modifies this
      ensures State() == AppLogic.Speak(old(State()), text, isFeedback)
      ensures old(Valid()) ==> Valid()
    {
      if text == "" {
        if !isFeedback {
          isSpeaking := false;
        }
        return;
      }
      var cleanText := if isFeedback then text else Fences.ScrubCode(text);
      utterance := Some(Utterance(cleanText, voice, isFeedback));
    }

    /** An utterance's `onstart`. */
    method OnUtteranceStart(u: Utterance)
      requires Valid()
      modifies this
      ensures State() == UtteranceStarted(old(State()), u) && Valid()
    {
      if !u.isFeedback {
        isSpeaking := true;
      }
    }

    /** An utterance's `onend` or `onerror`. */
    method OnUtteranceEnd(u: Utterance)
      requires Valid()
      modifies this
      ensures State() == UtteranceEnded(old(State()), u) && Valid()
    {
      if !u.isFeedback {
        isSpeaking := false;
      }
    }

    /** `recognition.onresult`, given the last result's first alternative. */
    method OnResult(rawTranscript: string, confidence: real)
      requires Valid()
      modifies this
      ensures State() == AppLogic.OnResult(old(State()), rawTranscript, confidence) && Valid()
    {
      var previous := pendingCommand;
      var transcript := Trim(rawTranscript);
      if Pending(pendingCommand) {
        ResolvePendingCommand(transcript, confidence);
      } else {
        HearNewCommand(transcript, confidence);
      }
      RerunRecognitionEffect(previous);
    }

    /** The branch of `onresult` taken while a command awaits confirmation. */
    method ResolvePendingCommand(transcript: string, confidence: real)
      requires Valid() && Pending(pendingCommand)
      modifies this
      ensures State() == ResolvePending(old(State()), transcript, confidence)
    {
      var command := pendingCommand.value;
      pendingCommand := None;
      recognitionStatus := "";
      if IsYes(transcript) {
        spokenText := command;
        ShowRecognitionFeedback(ConfirmedMessage, Millis(2000));
      } else if confidence >= ConfidenceThreshold {
        spokenText := transcript;
        ShowRecognitionFeedback(NewCommandMessage, Millis(2000));
      } else {
        ShowRecognitionFeedback(CancelledMessage, Millis(3000));
      }
    }

    /** The branch of `onresult` taken when no command is pending. */
    method HearNewCommand(transcript: string, confidence: real)
      requires Valid() && !Pending(pendingCommand)
      modifies this
      ensures State() == HearCommand(old(State()), transcript, confidence)
    {
      if confidence >= ConfidenceThreshold {
        spokenText := transcript;
      } else {
        pendingCommand := Some(transcript);
        var feedbackMessage := ConfirmationPrompt(transcript);
        Speak(feedbackMessage, true);
        ShowRecognitionFeedback(feedbackMessage, Forever);
      }
    }

    /**
     * The recognizer effect set up again after a handler: when the handler changed
     * the pending command from `previous`, the effect's cleanup cancels the armed timer.
     */
    method RerunRecognitionEffect(previous: Option<string>)
      modifies this`feedbackTimer
      ensures State() == AfterPendingChange(previous, old(State()))
    {
      if pendingCommand != previous {
        feedbackTimer := None;
      }
    }

    /** `recognition.onerror`. */
    method OnError(error: string)
      requires Valid()
      modifies this
      ensures State() == AppLogic.OnError(old(State()), error) && Valid()
    {
      var previous := pendingCommand;
      if Pending(pendingCommand) {
        pendingCommand := None;
        recognitionStatus := "";
      }
      var errorMessage := ErrorMessage(error);
      ShowRecognitionFeedback(errorMessage, Millis(DefaultFeedbackMillis));
      isListening := false;
      RerunRecognitionEffect(previous);
    }

    /** `recognition.onend`. */
    method OnEnd()
      requires Valid()
      modifies this
      ensures State() == AppLogic.OnEnd(old(State())) && Valid()
    {
      isListening := false;
    }

    /** `toggleListening`; `call` is what it asks of the recognizer. */
    method ToggleListening() returns (call: RecognizerCall)
      requires Valid()
      modifies this
      ensures (State(), call) == AppLogic.ToggleListening(old(State()), recognizerAvailable) && Valid()
    {
      if !recognizerAvailable {
        return NoCall;
      }
      if isListening {
        call := StopRecognizer;
      } else {
        if !Pending(pendingCommand) {
          spokenText := "";
        }
        call := StartRecognizer;
        isListening := true;
      }
    }

    /** `clearSpokenText`. */
    method ClearSpokenText()
      modifies this`spokenText
      ensures State() == AppLogic.ClearSpokenText(old(State()))
      ensures old(Valid()) ==> Valid()
    {
      spokenText := "";
    }

    /** The taskbar's `setActivePanel`. */
    method SelectPanel(p: PanelType)
      requires Valid()
      modifies this
      ensures State() == AppLogic.SelectPanel(old(State()), p) && Valid()
    {
      activePanel := p;
    }

    /** `handleMaximizeChange`. */
    method HandleMaximizeChange(isMaximized: bool)
      requires Valid()
      modifies this
      ensures State() == MaximizeChange(old(State()), isMaximized) && Valid()
    {
      isPanelMaximized := isMaximized;
    }

    /** `handleClosePanel` (its sound effect is not modelled). */
    method HandleClosePanel()
      requires Valid()
      modifies this
      ensures State() == ClosePanel(old(State())) && Valid()
    {
      activePanel := Home;
      isPanelMaximized := false;
    }

    /** `setupVoice`, given the current voice list. */
    method SetupVoice(voices: seq<Voice>)
      requires Valid()
      modifies this
      ensures State() == AppLogic.SetupVoice(old(State()), voices) && Valid()
    {
      if |voices| > 0 {
        voice := Some(voices[SelectVoiceIndex(voices)]);
      }
    }
  }
}
