/** The chat session as a state machine: user events (with the host services' answers attached)
    drive the handlers one after another, and invariants hold over every run. */
module SessionMachine {
  import opened JsString
  import opened ChatState
  import opened Handlers

  /** One user interaction, carrying whatever the host answered to it. */
  datatype Event =
    | Typed(text: string)
    | SendClicked(detection: DetectReply)
    | SummarizeClicked(index: int)
    | LanguageChanged(index: int, lang: string)
    | TranslateClicked(index: int, reply: TranslatorReply)
    | CopyClicked(index: int)

  /** The state after one event. Translate and Copy read `messages[index]` before any update,
      so an index outside the list raises there and leaves the state unchanged; copying never
      changes the state. */
  function Step(s: Session, e: Event): (r: Session)
    ensures e.Typed? ==>
      r.input == e.text && r.messages == s.messages && r.error == s.error
      && r.translationSelections == s.translationSelections
    ensures e.CopyClicked? ==> r == s
    ensures e.TranslateClicked? && !(0 <= e.index < |s.messages|) ==> r == s
    ensures !e.Typed? && !e.SendClicked? ==> r.input == s.input && r.error == s.error
  {
    match e
    case Typed(text) => s.(input := text)
    case SendClicked(detection) => Send(s, detection)
    case SummarizeClicked(index) => Summarize(s, index)
    case LanguageChanged(index, lang) => SelectLanguage(s, index, lang)
    case TranslateClicked(index, reply) =>
      if 0 <= index < |s.messages| then Translate(s, index, reply) else s
    case CopyClicked(_) => s
  }

  /** The state after a sequence of events, handled one at a time. */
  function Run(s: Session, events: seq<Event>): Session
    decreases |events|
  {
    if events == [] then s else Run(Step(s, events[0]), events[1..])
  }

  /** A message as the handlers create it: sent by the user, not blank, and any summary is the
      one Summarize computes from its text. */
  predicate WellFormedMessage(m: Message) {
    && m.sender == UserSender
    && !IsBlank(m.text)
    && (m.summary.Some? ==> m.summary.value == SummaryOf(m.text))
  }

  predicate WellFormed(s: Session) {
    forall k :: 0 <= k < |s.messages| ==> WellFormedMessage(s.messages[k])
  }

  /** `after` is a later state of message `before`: text, sender and detected language are
      fixed at creation, and a summary once attached stays the same. */
  predicate Preserves(before: Message, after: Message) {
    && after.text == before.text
    && after.sender == before.sender
    && after.detectedLanguage == before.detectedLanguage
    && (before.summary.Some? ==> after.summary == before.summary)
  }

  /** The list `after` grew from `before` by appending only: no message was removed,
      reordered or had its identity changed. */
  predicate Extends(before: seq<Message>, after: seq<Message>) {
    && |before| <= |after|
    && forall k :: 0 <= k < |before| ==> Preserves(before[k], after[k])
  }

  /** Append-only growth composes. */
  lemma ExtendsTransitive(a: seq<Message>, b: seq<Message>, c: seq<Message>)
    requires Extends(a, b) && Extends(b, c)
    ensures Extends(a, c)
  {
  }

  /** A rejected send leaves the messages as they were. */
  lemma SendRejectedInvariants(s: Session, detection: DetectReply)
    requires WellFormed(s) && IsBlank(s.input)
    ensures WellFormed(Send(s, detection))
  {
  }

  /** An accepted send appends a well-formed message. */
  lemma SendAcceptedInvariants(s: Session, detection: DetectReply)
    requires WellFormed(s) && !IsBlank(s.input)
    ensures WellFormed(Send(s, detection))
  {
    var m := Message(s.input, UserSender, DetectedLanguage(s.detector, detection), None, None);
    assert Send(s, detection).messages == s.messages + [m];
    assert WellFormedMessage(m);
  }

  /** Sending keeps messages well formed and the list append-only. */
  lemma SendInvariants(s: Session, detection: DetectReply)
    requires WellFormed(s)
    ensures WellFormed(Send(s, detection))
    ensures Extends(s.messages, Send(s, detection).messages)
  {
    if IsBlank(s.input) {
      SendRejectedInvariants(s, detection);
    } else {
      SendAcceptedInvariants(s, detection);
    }
  }

  /** Summarizing keeps messages well formed and changes no message identity. */
  lemma SummarizeInvariants(s: Session, index: int)
    requires WellFormed(s)
    ensures WellFormed(Summarize(s, index))
    ensures Extends(s.messages, Summarize(s, index).messages)
  {
  }

  /** Translating keeps messages well formed and changes no message identity. */
  lemma TranslateInvariants(s: Session, index: int, reply: TranslatorReply)
    requires WellFormed(s) && 0 <= index < |s.messages|
    ensures WellFormed(Translate(s, index, reply))
    ensures Extends(s.messages, Translate(s, index, reply).messages)
  {
  }

  /** Events that leave the message list alone keep the invariants trivially. */
  lemma UnchangedMessagesInvariants(s: Session, r: Session)
    requires WellFormed(s) && r.messages == s.messages
    ensures WellFormed(r) && Extends(s.messages, r.messages)
  {
  }

  /** Every event keeps messages well formed and the list append-only. */
  lemma StepInvariants(s: Session, e: Event)
    requires WellFormed(s)
    ensures WellFormed(Step(s, e))
    ensures Extends(s.messages, Step(s, e).messages)
  {
    match e
    case SendClicked(detection) => SendInvariants(s, detection);
    case SummarizeClicked(index) => SummarizeInvariants(s, index);
    case TranslateClicked(index, reply) =>
      if 0 <= index < |s.messages| {
        TranslateInvariants(s, index, reply);
      } else {
        UnchangedMessagesInvariants(s, Step(s, e));
      }
    case _ => UnchangedMessagesInvariants(s, Step(s, e));
  }

  /** Over any run from a well-formed state, messages stay well formed and every message that
      existed at the start is still there with the same text, sender, language and summary. */
  lemma {:induction false} RunInvariants(s: Session, events: seq<Event>)
    requires WellFormed(s)
    ensures WellFormed(Run(s, events))
    ensures Extends(s.messages, Run(s, events).messages)
    decreases |events|
  {
    if events != [] {
      var next := Step(s, events[0]);
      StepInvariants(s, events[0]);
      RunInvariants(next, events[1..]);
      ExtendsTransitive(s.messages, next.messages, Run(next, events[1..]).messages);
    }
  }

  /** The events the rendered page can produce: every per-message control exists only for a
      listed message, Summarize only while it is offered, Copy only while the translation is
      shown, and the selector only yields its own options. */
  predicate Enabled(s: Session, e: Event) {
    match e
    case Typed(_) => true
    case SendClicked(_) => true
    case SummarizeClicked(index) => 0 <= index < |s.messages| && ShowsSummarize(s.messages[index])
    case LanguageChanged(index, lang) => 0 <= index < |s.messages| && lang in OfferedLanguages
    case TranslateClicked(index, _) => 0 <= index < |s.messages|
    case CopyClicked(index) => 0 <= index < |s.messages| && ShowsCopy(s.messages[index])
  }

  /** A run made only of events the page offers at the moment they happen. */
  predicate UiRun(s: Session, events: seq<Event>)
    decreases |events|
  {
    events == [] || (Enabled(s, events[0]) && UiRun(Step(s, events[0]), events[1..]))
  }

  /** Selections are keyed by listed messages and hold offered languages. */
  predicate SelectionsOffered(s: Session) {
    forall k :: k in s.translationSelections ==>
      0 <= k < |s.messages| && s.translationSelections[k] in OfferedLanguages
  }

  /** Only texts longer than 150 characters carry a summary, and that summary holds exactly
      their first 100 characters. */
  predicate SummariesOfLongTexts(s: Session) {
    forall k :: 0 <= k < |s.messages| && s.messages[k].summary.Some? ==>
      && |s.messages[k].text| > SummarizeThreshold
      && s.messages[k].summary.value == SummaryLabel + s.messages[k].text[..SummaryLength] + Ellipsis
  }

  /** What the page guarantees beyond well-formedness. */
  predicate UiInvariant(s: Session) {
    WellFormed(s) && SelectionsOffered(s) && SummariesOfLongTexts(s)
  }

  /** Sending adds no selection and appends an unsummarized message. */
  lemma UiSendInvariant(s: Session, detection: DetectReply)
    requires UiInvariant(s)
    ensures SelectionsOffered(Send(s, detection)) && SummariesOfLongTexts(Send(s, detection))
  {
  }

  /** Summarize is only offered for a text longer than 150 characters. */
  lemma UiSummarizeInvariant(s: Session, index: int)
    requires UiInvariant(s) && 0 <= index < |s.messages| && ShowsSummarize(s.messages[index])
    ensures SelectionsOffered(Summarize(s, index)) && SummariesOfLongTexts(Summarize(s, index))
  {
  }

  /** The selector records an offered language for a listed message. */
  lemma UiSelectInvariant(s: Session, index: int, lang: string)
    requires UiInvariant(s) && 0 <= index < |s.messages| && lang in OfferedLanguages
    ensures SelectionsOffered(SelectLanguage(s, index, lang))
    ensures SummariesOfLongTexts(SelectLanguage(s, index, lang))
  {
  }

  /** Translating changes neither selections nor summaries. */
  lemma UiTranslateInvariant(s: Session, index: int, reply: TranslatorReply)
    requires UiInvariant(s) && 0 <= index < |s.messages|
    ensures SelectionsOffered(Translate(s, index, reply))
    ensures SummariesOfLongTexts(Translate(s, index, reply))
  {
  }

  /** Every event the page offers keeps the page invariant. */
  lemma UiStepInvariant(s: Session, e: Event)
    requires UiInvariant(s) && Enabled(s, e)
    ensures UiInvariant(Step(s, e))
  {
    StepInvariants(s, e);
    match e
    case SendClicked(detection) => UiSendInvariant(s, detection);
    case SummarizeClicked(index) => UiSummarizeInvariant(s, index);
    case LanguageChanged(index, lang) => UiSelectInvariant(s, index, lang);
    case TranslateClicked(index, reply) => UiTranslateInvariant(s, index, reply);
    case _ =>
  }

  /** Every run the page can produce from a state satisfying the invariant keeps it. */
  lemma {:induction false} UiRunInvariant(s: Session, events: seq<Event>)
    requires UiInvariant(s) && UiRun(s, events)
    ensures UiInvariant(Run(s, events))
    decreases |events|
  {
    if events != [] {
      UiStepInvariant(s, events[0]);
      UiRunInvariant(Step(s, events[0]), events[1..]);
    }
  }

  /** The invariants hold from the start of any session, whichever way detector acquisition
      ended. */
  lemma {:induction false} SessionInvariants(detector: Detector, events: seq<Event>)
    ensures WellFormed(Run(Initial(detector), events))
    ensures UiRun(Initial(detector), events) ==> UiInvariant(Run(Initial(detector), events))
  {
    RunInvariants(Initial(detector), events);
    if UiRun(Initial(detector), events) {
      UiRunInvariant(Initial(detector), events);
    }
  }
}
