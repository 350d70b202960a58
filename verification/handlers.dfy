/** The event handlers of the chat component as pure transitions on a `Session`, and the
    conditions under which the message panel offers its actions.

    The host's language detector and translator are not modelled: what they answered is passed
    in as a `DetectReply` or `TranslatorReply`, and a handler that would not have called them
    ignores that argument. */
module Handlers {
  import opened JsString
  import opened ChatState

  // ---------------------------------------------------------------- send

  /** What `languageDetector.detect(input)` produced: an exception, or the candidate language
      codes ranked by confidence (a null result behaves as an empty list). */
  datatype DetectReply = DetectThrew | DetectReturned(ranked: seq<string>)

  /** The language recorded for a new message: the top-ranked candidate when a detector exists
      and answered with at least one candidate, and "en" in every other case. */
  function DetectedLanguage(detector: Detector, reply: DetectReply): (lang: string)
    ensures detector.Unavailable? ==> lang == DefaultLanguage
    ensures reply.DetectThrew? ==> lang == DefaultLanguage
    ensures reply.DetectReturned? && reply.ranked == [] ==> lang == DefaultLanguage
    ensures detector.Ready? && reply.DetectReturned? && reply.ranked != [] ==> lang == reply.ranked[0]
  {
    match (detector, reply)
    case (Ready, DetectReturned(ranked)) => if |ranked| > 0 then ranked[0] else DefaultLanguage
    case _ => DefaultLanguage
  }

  /** Every detected language is either the default or one the detector proposed. */
  lemma DetectedLanguageOrigin(detector: Detector, reply: DetectReply)
    ensures var lang := DetectedLanguage(detector, reply);
            lang == DefaultLanguage || (reply.DetectReturned? && lang in reply.ranked)
  {
  }

  /** The send handler. A blank draft sets the validation error and changes nothing else;
      otherwise the error is cleared, exactly one message carrying the untrimmed draft is
      appended, and the draft is emptied. */
  function Send(s: Session, reply: DetectReply): (r: Session)
    ensures |r.messages| == |s.messages| + (if IsBlank(s.input) then 0 else 1)
    ensures r.messages[..|s.messages|] == s.messages
    ensures r.translationSelections == s.translationSelections && r.detector == s.detector
    ensures IsBlank(s.input) ==> r.error == EmptyMessageError && r.input == s.input
    ensures !IsBlank(s.input) ==> r.error == "" && r.input == ""
    ensures !IsBlank(s.input) ==>
      r.messages[|s.messages|]
        == Message(s.input, UserSender, DetectedLanguage(s.detector, reply), None, None)
  {
    if IsBlank(s.input) then
      s.(error := EmptyMessageError)
    else
      var m := Message(s.input, UserSender, DetectedLanguage(s.detector, reply), None, None);
      s.(messages := s.messages + [m], error := "", input := "")
  }

  /** A send is rejected exactly when every character of the draft is white space. */
  lemma SendRejectsExactlyWhiteSpace(s: Session, reply: DetectReply)
    ensures Send(s, reply).messages == s.messages
        <==> forall k :: 0 <= k < |s.input| ==> IsWhiteSpace(s.input[k])
    ensures Send(s, reply).error == EmptyMessageError
        <==> forall k :: 0 <= k < |s.input| ==> IsWhiteSpace(s.input[k])
  {
    BlankIffAllWhiteSpace(s.input);
  }

  /** A blank draft is rejected before detection runs, so the detection reply is never
      consulted. */
  lemma BlankSendIgnoresReply(s: Session, a: DetectReply, b: DetectReply)
    requires IsBlank(s.input)
    ensures Send(s, a) == Send(s, b)
  {
  }

  /** Without a detector the detection reply is never consulted: the message is tagged "en". */
  lemma SendWithoutDetectorDefaults(s: Session, a: DetectReply, b: DetectReply)
    requires s.detector.Unavailable?
    ensures Send(s, a) == Send(s, b)
    ensures !IsBlank(s.input) ==> Send(s, a).messages[|s.messages|].detectedLanguage == DefaultLanguage
  {
  }

  // ---------------------------------------------------------------- summarize

  /** The placeholder summary: a fixed label, the first 100 characters of the text and an
      ellipsis. */
  function SummaryOf(text: string): (r: string)
    ensures |r| == |SummaryLabel| + Min(SummaryLength, |text|) + |Ellipsis|
    ensures r[..|SummaryLabel|] == SummaryLabel && r[|r| - |Ellipsis|..] == Ellipsis
    ensures r[|SummaryLabel|..|r| - |Ellipsis|] == text[..Min(SummaryLength, |text|)]
  {
    SummaryLabel + text[..Min(SummaryLength, |text|)] + Ellipsis
  }

  /** Two texts get the same summary exactly when their first 100 characters agree. */
  lemma SummaryDeterminedByPrefix(a: string, b: string)
    ensures SummaryOf(a) == SummaryOf(b)
        <==> a[..Min(SummaryLength, |a|)] == b[..Min(SummaryLength, |b|)]
  {
    var pa, pb := a[..Min(SummaryLength, |a|)], b[..Min(SummaryLength, |b|)];
    if SummaryOf(a) == SummaryOf(b) {
      var n := |SummaryLabel|;
      assert SummaryOf(a)[n..n + |pa|] == pa;
      assert SummaryOf(b)[n..n + |pb|] == pb;
    }
  }

  /** The summarize handler: a copy of the list in which only the message at `index` gets a
      summary; an index outside the list changes nothing. */
  function Summarize(s: Session, index: int): (r: Session)
    ensures r.translationSelections == s.translationSelections
    ensures r.error == s.error && r.input == s.input && r.detector == s.detector
    ensures |r.messages| == |s.messages|
    ensures forall k :: 0 <= k < |s.messages| && k != index ==> r.messages[k] == s.messages[k]
    ensures 0 <= index < |s.messages| ==>
      r.messages[index] == s.messages[index].(summary := Some(SummaryOf(s.messages[index].text)))
    ensures !(0 <= index < |s.messages|) ==> r == s
  {
    s.(messages := MapAt(s.messages, index, (m: Message) => m.(summary := Some(SummaryOf(m.text)))))
  }

  /** Summarizing the same message twice has the effect of summarizing it once. */
  lemma SummarizeIdempotent(s: Session, index: int)
    ensures Summarize(Summarize(s, index), index) == Summarize(s, index)
  {
  }

  // ---------------------------------------------------------------- language selection

  /** `translationSelections[index] || "en"`: the chosen target, or "en" when none (or the
      empty string) was chosen. */
  function SelectedLanguage(selections: map<int, string>, index: int): (lang: string)
    ensures lang != ""
    ensures index !in selections ==> lang == DefaultLanguage
    ensures index in selections && selections[index] != "" ==> lang == selections[index]
    ensures index in selections && selections[index] == "" ==> lang == DefaultLanguage
  {
    if index in selections then Or(selections[index], DefaultLanguage) else DefaultLanguage
  }

  /** The selector's change handler: records `lang` for `index` and touches nothing else. */
  function SelectLanguage(s: Session, index: int, lang: string): (r: Session)
    ensures r.messages == s.messages
    ensures r.error == s.error && r.input == s.input && r.detector == s.detector
    ensures r.translationSelections.Keys == s.translationSelections.Keys + {index}
    ensures r.translationSelections[index] == lang
    ensures forall k :: k in s.translationSelections && k != index ==>
      r.translationSelections[k] == s.translationSelections[k]
  {
    s.(translationSelections := s.translationSelections[index := lang])
  }

  /** After a selection the looked-up target of `index` is the new choice when it is non-empty
      and "en" otherwise; the looked-up target of every other index is what it was. */
  lemma SelectLanguageLookup(s: Session, index: int, lang: string, k: int)
    ensures var after := SelectLanguage(s, index, lang).translationSelections;
            && (lang != "" ==> SelectedLanguage(after, index) == lang)
            && (lang == "" ==> SelectedLanguage(after, index) == DefaultLanguage)
            && (k != index ==> SelectedLanguage(after, k) == SelectedLanguage(s.translationSelections, k))
  {
  }

  /** When every choice so far came from the selector's options, the value the selector
      displays for any message is one of its options. */
  lemma SelectorShowsOfferedOption(s: Session, index: int, lang: string, k: int)
    requires forall j :: j in s.translationSelections ==> s.translationSelections[j] in OfferedLanguages
    requires lang in OfferedLanguages
    ensures var after := SelectLanguage(s, index, lang).translationSelections;
            && (forall j :: j in after ==> after[j] in OfferedLanguages)
            && SelectedLanguage(after, k) in OfferedLanguages
  {
  }

  // ---------------------------------------------------------------- translate

  /** `detectedLanguage || "en"`: the language a message is translated from. */
  function SourceLanguage(m: Message): string {
    Or(m.detectedLanguage, DefaultLanguage)
  }

  /** What translating a message asks of the host: nothing, or a translator for a language
      pair applied to the message text. */
  datatype TranslationPlan = Passthrough | Request(source: string, target: string, text: string)

  /** The translation the handler would request for message `index`. */
  function Plan(s: Session, index: int): (p: TranslationPlan)
    requires 0 <= index < |s.messages|
    ensures p.Passthrough?
        <==> SourceLanguage(s.messages[index]) == SelectedLanguage(s.translationSelections, index)
    ensures p.Request? ==>
      && p.source == SourceLanguage(s.messages[index])
      && p.target == SelectedLanguage(s.translationSelections, index)
      && p.text == s.messages[index].text
  {
    var source := SourceLanguage(s.messages[index]);
    var target := SelectedLanguage(s.translationSelections, index);
    if source == target then Passthrough else Request(source, target, s.messages[index].text)
  }

  /** What creating the translator and translating produced: a string, or an exception from
      either step. */
  datatype TranslatorReply = Translated(text: string) | TranslatorThrew

  /** The translate handler. Only message `index` changes, and of it only `translatedText`:
      its own text when source and target agree, otherwise the translator's output, or the
      fixed error literal when the translator failed. */
  function Translate(s: Session, index: int, reply: TranslatorReply): (r: Session)
    requires 0 <= index < |s.messages|
    ensures r.translationSelections == s.translationSelections
    ensures r.error == s.error && r.input == s.input && r.detector == s.detector
    ensures |r.messages| == |s.messages|
    ensures forall k :: 0 <= k < |s.messages| && k != index ==> r.messages[k] == s.messages[k]
    ensures r.messages[index] == s.messages[index].(translatedText := r.messages[index].translatedText)
    ensures Plan(s, index).Passthrough? ==>
      r.messages[index].translatedText == Some(s.messages[index].text)
    ensures Plan(s, index).Request? && reply.Translated? ==>
      r.messages[index].translatedText == Some(reply.text)
    ensures Plan(s, index).Request? && reply.TranslatorThrew? ==>
      r.messages[index].translatedText == Some(TranslationError)
  {
    var translated :=
      match Plan(s, index)
      case Passthrough => s.messages[index].text
      case Request(_, _, _) =>
        match reply
        case Translated(text) => text
        case TranslatorThrew => TranslationError;
    s.(messages := MapAt(s.messages, index, (m: Message) => m.(translatedText := Some(translated))))
  }

  /** The translator's answer matters exactly when a request is made: a passthrough yields the
      same session whatever the translator would have said. */
  lemma TranslateConsultsTranslatorIffRequest(s: Session, index: int)
    requires 0 <= index < |s.messages|
    ensures (forall a, b :: Translate(s, index, a) == Translate(s, index, b))
        <==> Plan(s, index).Passthrough?
  {
    if Plan(s, index).Request? {
      var a, b := Translated(""), Translated(TranslationError);
      assert Translate(s, index, a).messages[index].translatedText
          != Translate(s, index, b).messages[index].translatedText;
    }
  }

  /** A translation attempt always leaves a translation in place; it is visible (and copyable)
      after a failure, and after a passthrough of a non-empty text. */
  lemma TranslateLeavesTranslation(s: Session, index: int, reply: TranslatorReply)
    requires 0 <= index < |s.messages|
    ensures var m := Translate(s, index, reply).messages[index];
            && m.translatedText.Some?
            && (Plan(s, index).Request? && reply.TranslatorThrew? ==> ShowsCopy(m))
            && (Plan(s, index).Passthrough? && s.messages[index].text != "" ==> ShowsCopy(m))
  {
  }

  // ---------------------------------------------------------------- copy and visibility

  /** The message panel offers Summarize when the text is longer than 150 characters and the
      message has no (non-empty) summary yet. */
  predicate ShowsSummarize(m: Message) {
    |m.text| > SummarizeThreshold && !Truthy(m.summary)
  }

  /** The message panel shows the translation and its Copy button once a non-empty translation
      exists. */
  predicate ShowsCopy(m: Message) {
    Truthy(m.translatedText)
  }

  /** The copy handler's guard: the text it would hand to the clipboard, if any. */
  function CopyRequest(s: Session, index: int): (r: Option<string>)
    requires 0 <= index < |s.messages|
    ensures r.Some? <==> ShowsCopy(s.messages[index])
    ensures r.Some? ==> r.value != "" && s.messages[index].translatedText == Some(r.value)
  {
    match s.messages[index].translatedText
    case Some(text) => if text != "" then Some(text) else None
    case None => None
  }

  /** For a message whose summary (if any) came from Summarize, the action is offered exactly
      when the text exceeds 150 characters and no summary exists yet; a text of exactly 150
      characters never qualifies. */
  lemma SummarizeOfferedIffLongAndUnsummarized(m: Message)
    requires m.summary.Some? ==> m.summary.value == SummaryOf(m.text)
    ensures ShowsSummarize(m) <==> |m.text| > SummarizeThreshold && m.summary.None?
    ensures |m.text| == SummarizeThreshold ==> !ShowsSummarize(m)
  {
  }

  /** Once summarized, a message no longer offers Summarize. */
  lemma SummarizeWithdrawsAction(s: Session, index: int)
    requires 0 <= index < |s.messages|
    ensures !ShowsSummarize(Summarize(s, index).messages[index])
  {
  }

  // ---------------------------------------------------------------- concrete sessions

  /** A draft of three spaces is rejected with the validation message; nothing else changes. */
  lemma SpacesAreRejected(ms: seq<Message>, selections: map<int, string>, detector: Detector,
                          reply: DetectReply)
    ensures var s := Session(ms, selections, "", "   ", detector);
            Send(s, reply) == s.(error := EmptyMessageError)
  {
  }

  /** Without a detector, "Bonjour" is appended tagged with the fallback language "en". */
  lemma BonjourWithoutDetector(ms: seq<Message>, selections: map<int, string>, reply: DetectReply)
    ensures var s := Session(ms, selections, "", "Bonjour", Unavailable);
            Send(s, reply).messages == ms + [Message("Bonjour", "user", "en", None, None)]
  {
    var s := Session(ms, selections, "", "Bonjour", Unavailable);
    BlankIffAllWhiteSpace(s.input);
    assert !IsWhiteSpace(s.input[0]);
    assert Send(s, reply).messages == s.messages + [Send(s, reply).messages[|ms|]];
  }

  /** A French message with French selected is copied verbatim, whatever the translator says. */
  lemma FrenchToFrenchIsVerbatim(m: Message, reply: TranslatorReply)
    requires m.detectedLanguage == "fr"
    ensures var s := Session([m], map[0 := "fr"], "", "", Ready);
            Translate(s, 0, reply).messages == [m.(translatedText := Some(m.text))]
  {
  }

  /** When creating the translator fails, the message shows "Translation error.". */
  lemma FailedTranslatorShowsError(m: Message)
    requires m.detectedLanguage == "fr"
    ensures var s := Session([m], map[0 := "es"], "", "", Ready);
            Translate(s, 0, TranslatorThrew).messages[0].translatedText == Some("Translation error.")
  {
  }
}
