# Letter speller: the request/response interpreter

The letter speller is a browser page that a user asks, in Dutch, "Hoe
schrijf je de a" ("How do you write the a"; the recogniser's transcript
carries no punctuation). A speech recogniser turns the
question into a transcript; the page answers with a spoken sentence built from
the auditive correction (`De "a" schrijf je zo:`, "this is how you write the
'a'") and shows the visual correction of the word ("aa").

This project models the pure core of `js/main.js` in Dafny:

- `Corrections` — the two static tables of common mishearings (the *visual*
  table picks the spelling to display, the *auditive* table the sound to
  pronounce) and the keyed lookups with identity fallback.
- `Interpreter` — whether a transcript is understood (it starts with
  "Hoe schrijf je"), extraction of the requested word behind the short
  ("Hoe schrijf je ") or long ("Hoe schrijf je de ") request prefix, the
  successful answer with its two hard-coded ambiguous sounds ("au", "y"),
  the eight fixed apologies, and the choice between answer and apology.
- `Feedback` — what the recognition result handler speaks and appends to the
  page for a response, as pure functions.
- `Voices` — the Dutch synthesis voice that start-up selects and logs: keep voices whose language
  tag starts with "nl", prefer "Google Nederlands", else take the first.
- `Wrappers` — an `Option` type standing for JavaScript's `undefined`.

The random draw of an apology (`Math.floor(Math.random() * 8)`) is an index
parameter below 8. A JavaScript voice object is reduced to its `voiceURI` and
`lang`.

The model follows `js/main.js`, including these edges (the differences are listed under "## Left out"):
- Understanding needs only the prefix "Hoe schrijf je", so "Hoe schrijf je"
  alone and "Hoe schrijf jea" are understood. A transcript without the space
  still loses its first 15 characters, so "Hoe schrijf jeau" asks for "u".
- An empty requested word gives the label `""`, which the handler does not
  display because an empty string is falsy.

## Model

| member | source | states |
|---|---|---|
| `Corrections.Correct` | js/main.js:205-211 | a lookup returns the table value for a key and the word itself otherwise; its result is never a key when no value is a key |
| `Corrections.VisualValuesAreNotKeys` | js/main.js:9-20 | no spelling in the visual table is itself one of its keys |
| `Corrections.AuditiveValuesAreNotKeys` | js/main.js:21-30 | no sound in the auditive table is itself one of its keys |
| `Corrections.CorrectVisually` | js/main.js:205-207 | the display spelling is never a table key, and it differs from the word exactly when the word is a key |
| `Corrections.CorrectAuditively` | js/main.js:209-211 | the spoken sound is never a table key, and it differs from the word exactly when the word is a key |
| `Corrections.CorrectIsIdempotent` | js/main.js:205-211 | correcting twice equals correcting once for any table whose values are not keys |
| `Corrections.CorrectVisuallyIsIdempotent` | js/main.js:205-207 | the visual correction is idempotent |
| `Corrections.CorrectAuditivelyIsIdempotent` | js/main.js:209-211 | the auditive correction is idempotent |
| `Corrections.CorrectVisuallyTable` | js/main.js:9-20 | the ten visual entries ("a" to "aa", "y" to "ei", "q" to "oe", ...) and identity on every other word |
| `Corrections.CorrectAuditivelyTable` | js/main.js:21-30 | the six auditive entries ("q" to "oeh", "eu" to "euh", ...), identity on every other word, so "a" is spoken unchanged |
| `Interpreter.InputIsUnderstandable` | js/main.js:155-157 | a transcript is understood exactly when it is the question "Hoe schrijf je" followed by whatever remains after its first 14 characters |
| `Interpreter.Substr` | js/main.js:163-165 | `substr(start)` yields what follows the first `start` characters, and the empty string when the text is no longer than `start` |
| `Interpreter.IsLongRequest` | js/main.js:161-162 | a transcript is a long request exactly when it is "Hoe schrijf je de " followed by the rest, and every long request is understood |
| `Interpreter.RequestedWord` | js/main.js:160-165 | the long prefix plus the word rebuilds a long request; otherwise the first 15 characters plus the word rebuild the transcript, and a transcript of at most 15 characters asks for the empty word |
| `Interpreter.Announce` | js/main.js:166-167 | the sentence starts with `De "` for the long form and with `"` otherwise, ends with `" schrijf je zo:`, and holds exactly the spoken word in between |
| `Interpreter.GetSuccessfulAudioResponse` | js/main.js:159-188 | the message announces the auditive correction of the requested word; "au" gives the spellings au/ou and "y" gives ei/ij, each with the follow-up "Óf zo:"; every other word gives its single visual correction and no follow-up |
| `Interpreter.GetDisappointingAudioResponse` | js/main.js:213-227 | the message is one of the eight fixed apologies, with no word and no follow-up |
| `Interpreter.HandleTranscript` | js/main.js:115-118 | an understood transcript gets the successful answer, any other one an apology |
| `Interpreter.RequestsAreUnderstandable` | js/main.js:155-162 | every short or long request is understood, and every long request is also a short one |
| `Interpreter.UnderstandableExamples` | js/main.js:155-157 | "Hoe schrijf je" and "Hoe schrijf jea" are understood; the prefix match is case-sensitive and needs the whole question |
| `Interpreter.MessageStartsWithDeIffLong` | js/main.js:162-167 | the answer begins with "De " exactly when the transcript has the long prefix |
| `Interpreter.ShortRequestExample` | js/main.js:159-188 | "Hoe schrijf je a" is answered `"a" schrijf je zo:` and shows "aa" |
| `Interpreter.AmbiguousRequestExample` | js/main.js:169-175 | "Hoe schrijf je au" shows au and ou with a follow-up |
| `Interpreter.LongRequestExample` | js/main.js:160-188 | "Hoe schrijf je de q" is answered `De "oeh" schrijf je zo:` and shows "oe" |
| `Interpreter.BareQuestionExample` | js/main.js:163-165 | the bare question asks for, and labels, the empty word |
| `Interpreter.PhrasesAreNotAnnouncements` | js/main.js:214-223 | no apology ends the way an answer does |
| `Interpreter.SuccessAndFailureMessagesDiffer` | js/main.js:116-118 | an answer is never spoken with the same words as an apology |
| `Interpreter.EveryPhraseIsReachable` | js/main.js:225 | every one of the eight apologies is produced by some draw |
| `Voices.DutchVoices` | js/main.js:91 | the filter keeps exactly the voices whose language starts with "nl", and its head is the first such voice of the list; its order is stated by `DutchVoicesOfOne` and `DutchVoicesAppend` |
| `Voices.DutchVoicesOfOne` | js/main.js:91 | filtering a one-voice list keeps the voice exactly when its language starts with "nl" |
| `Voices.DutchVoicesAppend` | js/main.js:91 | filtering a concatenation is the concatenation of the filtered parts, so the filter keeps the list order |
| `Voices.FindByURI` | js/main.js:92 | the search yields the first voice with the given URI, and nothing exactly when no voice has it |
| `Voices.GetDutchVoice` | js/main.js:90-98 | a chosen voice is in the list and Dutch; there is no choice exactly when no voice is Dutch |
| `Voices.FindPreferredAmongDutch` | js/main.js:91-92 | searching the filtered list finds the first Dutch "Google Nederlands" voice of the whole list |
| `Voices.GetDutchVoiceChoice` | js/main.js:90-98 | the first Dutch "Google Nederlands" voice is chosen when there is one, else the first Dutch voice, else none |
| `Voices.GetDutchVoiceExample` | js/main.js:90-98 | a "Google Nederlands" voice with an English tag is passed over, and a Dutch one is preferred to an earlier Dutch voice |
| `Feedback.ImmediateLabels` | js/main.js:129-131 | the first spelling of a pair, or a non-empty single spelling, is appended at once; nothing for an apology or an empty word |
| `Feedback.HasFollowUp` | js/main.js:123 | a follow-up needs an array word and a continuation; the two-way statement over every transcript is `FollowUpExactlyForAmbiguousSounds` |
| `Feedback.LaterLabels` | js/main.js:123-126 | after the message, the second spelling is appended after a space exactly when there are two spellings and a follow-up |
| `Feedback.Utterances` | js/main.js:120-126 | the message is spoken first, and the continuation follows as a second utterance exactly when there is a follow-up |
| `Feedback.Labels` | js/main.js:123-131 | at most two labels are shown, two exactly when there is a follow-up, none for a missing word; a pair with a follow-up shows its first spelling and then a space and its second, a single spelling is shown unless it is empty |
| `Feedback.FollowUpExactlyForAmbiguousSounds` | js/main.js:116-126 | over all transcripts, the follow-up is spoken and the second label shown exactly for an understood request of "au" or "y" |
| `Feedback.NotUnderstoodShowsNothing` | js/main.js:116-131 | a transcript that is not understood shows nothing and speaks one apology |
| `Feedback.AmbiguousSoundsShowTwoSpellings` | js/main.js:116-131 | "au" shows au then " ou", "y" shows ei then " ij", with the follow-up spoken between |
| `Feedback.PlainSoundsShowOneSpelling` | js/main.js:116-131 | any other understood transcript speaks once and shows its visual correction, or nothing for the empty word |

## Left out

- Start-up (`init`, waiting for `voiceschanged`, the speech-synthesis capability check, js/main.js:34-58): browser bootstrapping. It also reads `voice.voiceURI` before checking that a voice was found. The voice it selects is only logged and never passed to `speak`, which sets only the language "nl", the pitch and the rate, so when `GetDutchVoice` chooses some voice the page speaks with the browser's default Dutch voice, not with the chosen one. When it chooses none (`undefined`), reading `voice.voiceURI` at js/main.js:49 throws, start-up stops before `initSpeechQuery` (js/main.js:54), and no transcript is ever handled; the "Unable to find Dutch voice." branch at js/main.js:50-52 is unreachable.
- `speak` (js/main.js:69-88): asynchronous speech output. When speech is already playing, `speak` drops the message and returns `undefined`; the `.then` call at js/main.js:120 then throws, so lines 129-131 are never reached and no label is appended. `Feedback` models only the path where the message's utterance reaches its `end` event.
- Utterance errors (js/main.js:76-78, 86): when the message's utterance fails, the promise is rejected and the callback at js/main.js:120-127 never runs; then only the first label (lines 129-131) is shown, the follow-up "Óf zo:" is not spoken and the second spelling is not appended. `Feedback.Utterances`, `Feedback.LaterLabels`, `Feedback.Labels` and `Feedback.AmbiguousSoundsShowTwoSpellings` describe the successful path only.
- `getRecognition`, `getRecognitionObject`, `initSpeechQuery` and the listener wiring (js/main.js:60-67, 100-141, 190-200): speech-recognition and DOM events. Only the display rule of the result handler is modelled, in `Feedback`.
- `appendWord` (js/main.js:143-147): DOM manipulation; `Feedback` gives the appended texts in order.
- `getGrammar` (js/main.js:149-153): a constant grammar string handed to the recogniser, with no behaviour of its own.
- `Math.random` (js/main.js:225): replaced by an index parameter below 8.
- Prototype keys: the JavaScript `in` operator also finds inherited keys such as "toString"; the tables are maps with their own keys only.
- UTF-16: JavaScript counts string positions in UTF-16 code units; the model counts characters. The prefixes are ASCII, so the two agree whenever the first 15 characters are ASCII. They differ when a transcript has no space after the question and its 15th character lies outside the Basic Multilingual Plane: there `substr(15)` cuts the surrogate pair and the requested word starts with a lone low surrogate, while `RequestedWord` drops the whole character (for "Hoe schrijf je" followed by one such character, JavaScript asks for the lone surrogate and the model for "").
