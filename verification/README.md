# lingua-ai chat session, modelled in Dafny

The `Chatui` component of lingua-ai is a single-page chat: the user types a message, the
browser's language detector tags it with a language, and each message can be summarized,
given a target language and translated by the browser's translator, with the translation
copyable to the clipboard.

This project models the component's session state and its event handlers as pure
transitions:

- `js_string.dfy` (module `JsString`): JavaScript's `trim` with the exact ECMAScript
  white-space and line-terminator set, the blank-draft test built on it, and `a || d` on strings.
- `chat_state.dfy` (module `ChatState`): `Message`, `Session`, the detector outcome
  (`Unavailable | Ready`), the literals the component uses ("user", "en",
  "Message cannot be empty.", "Translation error.", "Summary: ", "...", 100, 150, the six
  selector languages), and `MapAt`, the copy-on-write `prev.map((msg, i) => i === index ? … : msg)`.
- `handlers.dfy` (module `Handlers`): send, summarize, language selection, translate, the copy
  guard and the two visibility conditions of the message panel.
- `session_machine.dfy` (module `SessionMachine`): user events, `Step` and `Run`, and the
  invariants every run keeps: messages are append-only, each message keeps its text, sender,
  detected language and summary once set, and under the events the rendered page can produce,
  selections stay within listed messages and the offered languages, and only texts longer than
  150 characters are summarized.

The host services are oracles. Whether a detector was acquired is the `detector` field of the
session. What `detect` answered (`DetectThrew | DetectReturned(ranked)`) is an argument of
`Send`. What translator creation and translation produced (`Translated(text) | TranslatorThrew`)
is an argument of `Translate`. A handler that would not have called the service ignores the
argument (`Handlers.BlankSendIgnoresReply`, `Handlers.SendWithoutDetectorDefaults`,
`Handlers.TranslateConsultsTranslatorIffRequest`).

The translator's output is stored unchanged, so an empty output leaves an empty
`translatedText` and no Copy button. `Handlers.TranslateLeavesTranslation` therefore promises
Copy only after a failure or a passthrough of a non-empty text.

## Model

| member | source | states |
|---|---|---|
| JsString.TrimStartSpec | src/component/Chatui.jsx:56 | the result is the suffix of the input starting at its first non-white-space character; everything dropped is white space |
| JsString.TrimEndSpec | src/component/Chatui.jsx:56 | the result is the prefix of the input ending at its last non-white-space character; everything dropped is white space |
| JsString.TrimSpec | src/component/Chatui.jsx:56 | `trim` never lengthens a string, and its result is empty or starts and ends with a non-white-space character |
| JsString.BlankIffAllWhiteSpace | src/component/Chatui.jsx:56 | `!input.trim()` holds exactly when every character of the input is white space |
| Handlers.DetectedLanguage | src/component/Chatui.jsx:61-76 | the new message's language is `results[0].detectedLanguage` when a detector exists and returned a non-empty list; with no detector, a thrown detection or an empty list it is "en" |
| Handlers.DetectedLanguageOrigin | src/component/Chatui.jsx:61-76 | a detected language is always "en" or one of the candidates the detector returned |
| Handlers.Send | src/component/Chatui.jsx:55-80 | a blank draft sets "Message cannot be empty." and keeps messages and draft; otherwise the error is cleared, exactly one message (untrimmed draft, sender "user", detected language, no summary or translation) is appended after the unchanged earlier ones, and the draft becomes "" |
| Handlers.SendRejectsExactlyWhiteSpace | src/component/Chatui.jsx:56-59 | sending leaves the list unchanged, and sets the validation error, if and only if the draft is all white space |
| Handlers.BlankSendIgnoresReply | src/component/Chatui.jsx:56-64 | a blank draft returns before detection, so the detection answer never affects the result |
| Handlers.SendWithoutDetectorDefaults | src/component/Chatui.jsx:61-62 | without a detector the detection answer is never consulted and the new message is tagged "en" |
| Handlers.SummaryOf | src/component/Chatui.jsx:88 | the summary is "Summary: ", then exactly the first `min(100, length)` characters of the text, then "..." |
| Handlers.SummaryDeterminedByPrefix | src/component/Chatui.jsx:88 | two texts get the same summary if and only if their first 100 characters agree |
| Handlers.Summarize | src/component/Chatui.jsx:82-94 | only message `index` changes, and only its summary; the length and all other messages and state are unchanged; an out-of-range index changes nothing |
| Handlers.SummarizeIdempotent | src/component/Chatui.jsx:82-94 | summarizing the same index twice equals summarizing it once |
| Handlers.SelectedLanguage | src/component/Chatui.jsx:97 | the looked-up target is the stored choice when it is non-empty, and "en" for an absent key or an empty choice |
| Handlers.SelectLanguage | src/component/Chatui.jsx:132-134 | the selection of `index` becomes `lang`, the key set gains only `index`, every other key keeps its value, and messages, error, draft are unchanged |
| Handlers.SelectLanguageLookup | src/component/Chatui.jsx:132-134 | after a selection the target looked up for `index` is the new choice when it is non-empty and "en" when it is empty, and for every other index it is unchanged |
| Handlers.SelectorShowsOfferedOption | src/component/Chatui.jsx:204-216 | when all choices so far are selector options, the selector's displayed value for any message is one of its six options |
| Handlers.Plan | src/component/Chatui.jsx:97-115 | no translator is requested exactly when `detectedLanguage \|\| "en"` equals the selected target; otherwise the request is for that pair and the message text |
| Handlers.Translate | src/component/Chatui.jsx:96-130 | only message `index` changes and only its translated text: its own text on a passthrough, the translator's output on success, "Translation error." on failure |
| Handlers.TranslateConsultsTranslatorIffRequest | src/component/Chatui.jsx:102-115 | the translator's answer affects the result if and only if the languages differ |
| Handlers.TranslateLeavesTranslation | src/component/Chatui.jsx:102-129 | after a translation attempt the message always has a translated text; after a failure, or a passthrough of a non-empty text, Copy is shown |
| Handlers.CopyRequest | src/component/Chatui.jsx:137-139 | a clipboard write is requested exactly when the translated text is present and non-empty, which is the condition `ShowsCopy` under which the panel shows the translation and its Copy button (line 224), and it carries that text |
| Handlers.SummarizeOfferedIffLongAndUnsummarized | src/component/Chatui.jsx:194 | for a message whose summary came from Summarize, `ShowsSummarize` (the panel's condition for offering Summarize) holds exactly when the text is longer than 150 characters and unsummarized; exactly 150 does not qualify |
| Handlers.SummarizeWithdrawsAction | src/component/Chatui.jsx:194 | once a message is summarized, the Summarize action is no longer shown for it |
| Handlers.SpacesAreRejected | src/component/Chatui.jsx:56-59 | a draft of three spaces leaves the list and draft alone and sets "Message cannot be empty." |
| Handlers.BonjourWithoutDetector | src/component/Chatui.jsx:61-79 | with no detector, sending "Bonjour" appends one user message tagged "en" |
| Handlers.FrenchToFrenchIsVerbatim | src/component/Chatui.jsx:102-108 | detected "fr" with "fr" selected stores the text itself as the translation, whatever the translator would say |
| Handlers.FailedTranslatorShowsError | src/component/Chatui.jsx:122-128 | a failing translator leaves "Translation error." as the translation |
| ChatState.MapAt | src/component/Chatui.jsx:84-92 | the copied list has the same length, the entry at `index` is transformed, and every other entry is unchanged |
| SessionMachine.Step | src/component/Chatui.jsx:96-245 | typing replaces only the draft (the textarea's `setInput`); copying never changes the state; a Translate for an index outside the list raises before any update and leaves the state unchanged; only typing and sending touch the draft and the error |
| SessionMachine.StepInvariants | src/component/Chatui.jsx:55-134 | each handler keeps messages well formed and the list append-only, with text, sender, detected language and any summary unchanged |
| SessionMachine.RunInvariants | src/component/Chatui.jsx:77-78 | over any event sequence, messages are only appended, and existing ones keep their text, sender, detected language and summary |
| SessionMachine.UiRunInvariant | src/component/Chatui.jsx:184-237 | over events the rendered page can produce, selections stay keyed by listed messages with offered languages, and only texts longer than 150 characters carry a summary, equal to their first 100 characters framed by the label and ellipsis |
| SessionMachine.SessionInvariants | src/component/Chatui.jsx:5-12 | from the initial empty session, whatever the detector outcome, every reachable state satisfies these invariants |

## Left out

- Detector acquisition (src/component/Chatui.jsx:15-44): the capability query, download
  monitoring and `ready` wait are host APIs. Only their outcome is kept, as the session's
  `detector` field. The source acquires the detector asynchronously, so messages sent before
  acquisition finishes use "en". The model fixes the outcome for the whole session.
- The internals of `languageDetector.detect` and `self.ai.translator`: foreign calls, passed in
  as `DetectReply` and `TranslatorReply`. Detection confidence is only logged, so it is dropped.
  A null detection result behaves like an empty list. A candidate whose `detectedLanguage` is
  `undefined` is not modelled.
- The clipboard write and the `alert` in copy (src/component/Chatui.jsx:140-147): browser I/O.
  Only the guard that decides whether a write is requested is modelled (`Handlers.CopyRequest`).
- Dark mode (src/component/Chatui.jsx:47-53, 167): a purely cosmetic DOM class toggle.
- JSX rendering, CSS and Enter-key handling (src/component/Chatui.jsx:152-157, 159-255).
  Only the conditions that decide which controls exist are kept: `ShowsSummarize`, `ShowsCopy`
  and `SessionMachine.Enabled`.
- Concurrency: handlers run to completion one at a time. Overlapping async handlers are not
  modelled, nor the stale `[...messages, newMessage]` closure in send that overlap could expose.
  Send clears the error (src/component/Chatui.jsx:60) before awaiting detection (line 64), so
  while a detection is pending, or if it never settles, the page shows a cleared error, no new
  message and the draft still in place; the model has no such intermediate state.
- Logging with `console.log`, `console.warn` and `console.error`.
- String length: a Dafny `char` stands for one JavaScript string element. JavaScript counts
  UTF-16 code units, so a character outside the Basic Multilingual Plane counts as two in the
  150 threshold and the 100-character prefix but as one here.
- Handlers.Translate and Handlers.CopyRequest require an index inside the list. The source reads
  `messages[index]` before any update, so an out-of-range index raises there. `SessionMachine.Step`
  treats such an event as leaving the state unchanged.
