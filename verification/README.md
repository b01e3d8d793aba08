# BHAV chat relay — a Dafny model of `app.py`

BHAV is a small Flask service. It accepts a chat prompt (usually Bengali) and
translates it to English. It asks a hosted language model for an answer and
translates that answer back to Bengali. It then cleans a copy of the answer for
speech synthesis and returns the Bengali text together with the synthesised
audio.

This project models the three pieces of `app.py` that carry the logic:

- `clean_text_for_tts` (module `Sanitizer`). This is the text sanitizer. It
  deletes `*`, then `=` `\` `/`, then `( ) { } < >`. It then replaces every
  whitespace run with one space and strips both ends.
- `custom_translate` (module `Translation`). This is the fail-soft translation
  wrapper.
- The data flow of the `/chat` handler (module `Chat`). It translates, infers,
  translates back, cleans and synthesises, then assembles the envelope.

Module `Text` holds the string vocabulary the three pieces share:
`str.isspace`, `str.strip`, `str.split`, `" ".join`. Module `Wrappers` holds
`Option` and `Result`.

Whitespace is Python's own set. That is the set `str.isspace()`, `str.strip()`
and the `re` class `\s` use for `str` patterns:

- U+0009–U+000D
- U+001C–U+001F
- U+0020
- U+0085
- U+00A0
- U+1680
- U+2000–U+200A
- U+2028, U+2029
- U+202F
- U+205F
- U+3000

The whitespace step of the sanitizer has a reference definition:
`" ".join(text.split())`. `Sanitizer.StripCollapseIsSplitJoin` proves that the
source's `re.sub(r'\s+', ' ', text).strip()` equals it, and
`Sanitizer.CleanMatchesReference` proves that the cleaned text equals this
definition applied to the input with the symbols deleted. The following
properties are proved of `Sanitizer.CleanTextForTts` itself:

- symbols absent;
- single spacing;
- order and count of the kept characters;
- no growth;
- idempotence.

The translation service, the language model and the speech synthesiser are
oracles. Each is a total function from a request to `Option` of an answer.
`None` stands for "the call raised". Every reply carries a trace of the
requests the handler made: the prompt translation (if one was sent), the
completion request, the answer translation (if one was sent) and the speech
request (if synthesis was reached). This lets the contracts say when a service
was *not* consulted, and what it was asked.

Behaviour `app.py` does not have, and the model therefore does not have
either:

- An empty or blank prompt is not short-circuited. It still goes to the
  language model, and then to translation and synthesis
  (`Chat.EmptyPromptReachesModel`).
- `custom_translate` has no shortcut for equal source and target languages
  (`Translation.SameLanguageStillConsults`).
- There is no language detection. Whenever the prompt is sent for
  translation, it goes with source language `"auto"` and target `"en"`; a
  blank prompt is not sent (`Chat.EmptyPromptReachesModel`).
- A synthesis failure is not turned into `audio: null`. The gTTS exception
  propagates and the request fails (`Chat.SynthesisFailureIsAnError`).
- There is no sentiment scoring and no escalation: `call` is always `None`.

## Model

| member | source | states |
|---|---|---|
| Text.IsSpace | app.py:55 | a character is whitespace exactly when it is in Python's `str.isspace()` / `\s` set listed above |
| Text.Strip | app.py:35 | `str.strip()`: the result is empty exactly when the input is all whitespace; otherwise neither end is whitespace; every character comes from the input and it is never longer |
| Text.StripPadded | app.py:62 | `str.strip()` removes exactly the surrounding whitespace: whitespace, then text with non-whitespace ends, then whitespace, strips to that text |
| Text.StripKeepsNonSpace | app.py:55 | stripping removes whitespace only: the non-whitespace characters survive in order |
| Text.SplitEmpty | app.py:55 | `text.split()` is empty exactly when the text is blank |
| Text.JoinSingleSpaced | app.py:55 | words joined by single spaces form single-spaced text: no whitespace at either end, only plain spaces, never two in a row |
| Text.SplitJoin | app.py:55 | round trip: splitting words joined by single spaces gives back exactly those words |
| Text.JoinSplit | app.py:55 | round trip: splitting a single-spaced text and joining it again gives back the same text |
| Sanitizer.DeleteChars | app.py:52-54 | a deletion pass leaves none of its characters in the text and never lengthens it |
| Sanitizer.DeleteCharsTwice | app.py:52-54 | two deletion passes in a row equal one pass over the union of their sets, so the source's three passes delete exactly the ten symbols |
| Sanitizer.DeleteCharsCount | app.py:52-54 | every character outside the deleted set survives deletion exactly as often as it occurs |
| Sanitizer.DeleteCharsAbsent | app.py:52-54 | deletion leaves a text that contains none of the symbols unchanged |
| Sanitizer.CollapseSpaces | app.py:55 | `re.sub(r'\s+', ' ', t)` never lengthens the text; its exact value is stated by `Sanitizer.CollapseIsPaddedJoin` |
| Sanitizer.CollapseIsPaddedJoin | app.py:55 | `re.sub(r'\s+', ' ', t)` gives, for every text: one space for non-empty blank text and nothing for the empty text; otherwise the words of `t` joined by single spaces, with one space in front when `t` starts with whitespace and one at the end when it ends with whitespace |
| Sanitizer.CollapseChars | app.py:55 | collapsing whitespace runs adds no character except the plain space |
| Sanitizer.CollapseKeepsNonSpace | app.py:55 | collapsing whitespace runs keeps every non-whitespace character, in order |
| Sanitizer.StripCollapseIsSplitJoin | app.py:55 | `re.sub(r'\s+', ' ', t).strip()` equals `" ".join(t.split())` for every text |
| Sanitizer.NormalizeSpaces | app.py:55 | the whitespace step yields single-spaced text; it adds no characters except the space and is never longer |
| Sanitizer.CleanTextForTts | app.py:47-56 | the cleaned text contains none of `* = \ / ( ) { } < >`; it is single-spaced and never longer than the input |
| Sanitizer.CleanIsEmpty | app.py:47-56 | the cleaned text is empty exactly when every character of the input is whitespace or one of the ten symbols |
| Sanitizer.CleanIsOnePass | app.py:52-55 | the three deletion passes followed by the whitespace step give the same text as one deletion of all ten symbols followed by that step |
| Sanitizer.CleanMatchesReference | app.py:47-56 | the cleaned text equals `" ".join(d.split())`, where `d` is the input with the ten symbols deleted |
| Sanitizer.CleanKeepsOrder | app.py:52-55 | with whitespace ignored, the cleaned text is exactly the input without the ten symbols, in the original order |
| Sanitizer.CleanKeepsOtherChars | app.py:52-54 | every character that is neither whitespace nor one of the ten symbols (square brackets included) keeps its number of occurrences |
| Sanitizer.CleanFixedPoint | app.py:47-56 | cleaning leaves a text unchanged exactly when it has none of the ten symbols and is already single-spaced |
| Sanitizer.CleanIdempotent | app.py:47-56 | cleaning twice gives the same text as cleaning once |
| Translation.CustomTranslate | app.py:30-45 | the service is consulted exactly when the text is not blank, with the text and the given language pair; blank text and a failing service both leave the text as it is; otherwise the service's text is returned |
| Translation.ChangeComesFromProvider | app.py:35-45 | whenever the result differs from the input, the input was not blank and the result is the service's answer to the one request sent |
| Translation.BlankIgnoresProvider | app.py:35-36 | blank input gives the same result, with no request, whatever the service does |
| Translation.FailingProviderIsIdentity | app.py:43-45 | with a service that always fails, translation returns its input |
| Translation.OnlyTheRequestMatters | app.py:38-42 | two services that agree on the one request sent give the same result |
| Translation.SameLanguageStillConsults | app.py:30-45 | equal source and target languages do not short-circuit: non-blank text is still sent and the answer is taken |
| Chat.UserPrompt | app.py:62 | a missing prompt reads as the empty string; the prompt is stripped, so neither end is whitespace, and its non-whitespace characters survive in order |
| Chat.UserPromptPadded | app.py:62 | a prompt that is the text `x` with whitespace around it reads as exactly `x` |
| Chat.EnglishPrompt | app.py:62-65 | the prompt is sent for translation exactly when it is not empty after stripping, and then as the stripped prompt with source `"auto"` and target `"en"`; the English prompt is the translator's answer, or the stripped prompt itself when it is empty or translation fails |
| Chat.Ask | app.py:68-86 | the completion request names `llama-3.3-70b-versatile` and holds two messages: the fixed system message, then the user message carrying the prompt |
| Chat.Speak | app.py:96 | speech is requested for the given text in Bengali (`"bn"`), not slowed, from the `"com"` host |
| Chat.Voice | app.py:88-97 | the answer is sent for translation exactly when it is not blank, as the request from `"en"` to `"bn"`; `response` is the translator's answer, or the answer itself when it is blank or translation fails; speech is requested for the cleaned copy of `response`, which holds none of the ten symbols, and the audio is the synthesiser's answer to that request |
| Chat.HandleChat | app.py:59-106 | a successful envelope has `call` = None, and the speech request in its trace is for the cleaned copy of the envelope's `response`; the trace holds no speech request exactly when the model call failed |
| Chat.ModelAlwaysConsulted | app.py:62-86 | every request sends the model a completion request with the model name, the fixed system message first and the English prompt; the prompt translation in the trace is the one made from the stripped prompt |
| Chat.EmptyPromptReachesModel | app.py:62-65 | a missing or blank prompt makes no translation call but still asks the model about the empty string |
| Chat.SuccessIsBackTranslation | app.py:83-106 | a request succeeds exactly when the model and the synthesiser both answer; `response` is the Bengali translation of the model's answer, and the audio is synthesised from its cleaned copy; whenever the model answers, the trace records the `"en"`→`"bn"` request `custom_translate` sends for that answer, or none when the answer is blank |
| Chat.InferenceFailureStopsEarly | app.py:83-88 | a failed model call ends the request with an error; no answer translation and no speech request follow it |
| Chat.SynthesisFailureIsAnError | app.py:95-97 | a failing synthesiser makes the request fail after the speech request was made; it does not return an envelope without audio |
| Chat.SpokenTextIsResponseOnlyIfClean | app.py:91-104 | the speech request in the trace is for `response` itself exactly when `response` has none of the ten symbols and is single-spaced; otherwise the envelope shows text other than the spoken one |
| Chat.OnlyRecordedCallsMatter | app.py:59-106 | two sets of services that give the same answers to the requests recorded in the trace give the same reply, so a service call the trace does not record has no effect |
| Chat.FailingTranslatorPassesThrough | app.py:62-104 | with a translator that always fails, the model is asked about the stripped prompt itself and `response` is the model's raw answer |
| Chat.UntranslatedPrompt | app.py:62-65 | with a translator that always fails, the English prompt is the stripped prompt as it is |
| Chat.UntranslatedVoice | app.py:88-91 | with a translator that always fails, the `response` made from an answer is that answer as it is |

## Left out

- Flask routing, `request.json` parsing, `jsonify`, CORS and the `/ping` endpoint (app.py:16-17, 59-62, 102-110): HTTP plumbing. The handler takes the parsed `prompt` field and returns the envelope or an error.
- A body that is not a JSON object, or a `prompt` that is not a string: the source raises in both cases. The model's request has an optional string prompt only.
- The Groq client, `LibreTranslator` and gTTS (app.py:28, 39-42, 83-88, 96-97): network and foreign libraries. They are oracles returning `Option`.
- gTTS's treatment of empty text: the gTTS library is not part of this model, and the library raises for text with nothing to speak, so such a reply then ends in an error. The `tts` oracle is unconstrained and may answer there. `Sanitizer.CleanIsEmpty` states exactly which answers clean to the empty text.
- A chat completion whose message content is `None`: the source then fails inside `custom_translate`. The model folds this into a failed model call; both end as an error response.
- `BytesIO` and the base64 encoding of the audio (app.py:95, 98-100): the envelope carries the synthesiser's bytes as they are.
- The translation-error `print` (app.py:44), the debug print, loading the API key, the startup `RuntimeError`, disabling SSL verification and the `__main__` bootstrap (app.py:13-14, 19-25, 112-114): logging and process setup.
- The default arguments `to_lang="en", from_lang="bn"` of `custom_translate` (app.py:30): the handler always passes both languages, so `Translation.CustomTranslate` takes them explicitly.
- Lone surrogate code points: Python strings may hold them but Dafny's `char` is a Unicode scalar value. None of them is whitespace or one of the deleted symbols, so the sanitizer treats them like any other kept character.
- Sanitizer.CollapseSpaces: its own contract states only that the result is no longer than the input. Its exact value, including the single space left for a whitespace run at either end, is stated by `Sanitizer.CollapseIsPaddedJoin`.
