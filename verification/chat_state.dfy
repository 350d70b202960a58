/** The session state of the chat component: the message list, the per-message translation
    selections, the validation error, the draft and whether a language detector was acquired. */
module ChatState {
  import JsString

  /** A field that is `undefined` until a handler sets it. */
  datatype Option<+T> = None | Some(value: T)

  /** One chat entry. `summary` and `translatedText` are absent until Summarize or Translate
      attach them; `text`, `sender` and `detectedLanguage` are fixed when the message is sent. */
  datatype Message = Message(
    text: string,
    sender: string,
    detectedLanguage: string,
    summary: Option<string>,
    translatedText: Option<string>)

  /** Outcome of the detector acquisition that runs once at start-up. */
  datatype Detector = Unavailable | Ready

  /** Messages are addressed by position; `translationSelections` maps a position to the
      target language picked for it. */
  datatype Session = Session(
    messages: seq<Message>,
    translationSelections: map<int, string>,
    error: string,
    input: string,
    detector: Detector)

  const UserSender := "user"
  const DefaultLanguage := "en"
  const EmptyMessageError := "Message cannot be empty."
  const TranslationError := "Translation error."
  const SummaryLabel := "Summary: "
  const Ellipsis := "..."
  /** Characters of the text kept by a summary. */
  const SummaryLength := 100
  /** A text must be strictly longer than this for Summarize to be offered. */
  const SummarizeThreshold := 150

  /** The target languages the selector offers: English, Portuguese, Spanish, Russian,
      Turkish and French. */
  const OfferedLanguages: set<string> := {"en", "pt", "es", "ru", "tr", "fr"}

  /** The state the component starts in, once detector acquisition has settled. */
  function Initial(detector: Detector): Session {
    Session([], map[], "", "", detector)
  }

  /** JavaScript truthiness of an optional string field: present and non-empty. */
  predicate Truthy(o: Option<string>) {
    o.Some? && o.value != ""
  }

  function Min(a: int, b: int): int {
    if a <= b then a else b
  }

  /** `ms.map((m, i) => i === index ? f(m) : m)`: a copy of `ms` in which only the entry at
      position `index` (if there is one) is replaced by `f` of it. */
  function MapAt(ms: seq<Message>, index: int, f: Message -> Message): (r: seq<Message>)
    ensures |r| == |ms|
    ensures forall k :: 0 <= k < |ms| && k != index ==> r[k] == ms[k]
    ensures 0 <= index < |ms| ==> r[index] == f(ms[index])
    decreases |ms|
  {
    if ms == [] then
      []
    else
      var last := |ms| - 1;
      MapAt(ms[..last], index, f) + [if last == index then f(ms[last]) else ms[last]]
  }
}
