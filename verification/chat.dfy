/** The data flow of the `/chat` handler (app.py:59-106): strip the prompt,
    translate it to English, ask the language model, translate the answer to
    Bengali, clean it and synthesise speech from the cleaned copy. The three
    services are oracles, and the reply records every call made to them. */
module Chat {
  import opened Wrappers
  import opened Text
  import opened Sanitizer
  import opened Translation

  /** Speaker of one chat message. */
  datatype Role = System | User

  datatype Message = Message(role: Role, content: string)

  /** One chat-completion request: the model name and the conversation. */
  datatype Completion = Completion(model: string, messages: seq<Message>)

  /** One speech-synthesis request: the text and the voice settings. */
  datatype Speech = Speech(text: string, lang: string, slow: bool, tld: string)

  /** Synthesised audio, as raw bytes. */
  type Audio = seq<bv8>

  /** The three services. `None` stands for a call that raised. */
  datatype Oracles = Oracles(
    translator: Provider,
    model: Completion -> Option<string>,
    tts: Speech -> Option<Audio>)

  /** The parsed JSON body; `prompt` is `None` when the key is missing. */
  datatype ChatBody = ChatBody(prompt: Option<string>)

  /** The JSON envelope of a successful reply. */
  datatype Envelope = Envelope(response: string, audio: Audio, call: Option<string>)

  /** Why a request ended in an error response instead of an envelope. */
  datatype ChatError = InferenceFailed | SynthesisFailed

  /** The service calls one request made, one slot per call site, in the
      order the handler makes them. The model is consulted on every request,
      so its slot is not optional. */
  datatype Trace = Trace(
    promptTranslation: Option<Request>,
    completion: Completion,
    answerTranslation: Option<Request>,
    speech: Option<Speech>)

  /** The handler's outcome and the service calls it made. */
  datatype Reply = Reply(result: Result<Envelope, ChatError>, trace: Trace)

  const ModelName: string := "llama-3.3-70b-versatile"

  /** The system message: three adjacent literals, joined without a
      separator after the first one. */
  const SystemPrompt: string :=
    "A polite and helpful assistant." +
    "You are an assistant that MUST respond ONLY in English. " +
    "Do not use any other language."

  /** The completion request sent for a (translated) user prompt. */
  function Ask(prompt: string): (r: Completion)
    ensures r.model == ModelName
    ensures |r.messages| == 2 && r.messages[0] == Message(System, SystemPrompt)
    ensures r.messages[1].role == User && r.messages[1].content == prompt
  {
    Completion(ModelName, [Message(System, SystemPrompt), Message(User, prompt)])
  }

  /** The speech request: Bengali, normal speed, the "com" host. */
  function Speak(text: string): (r: Speech)
    ensures r.text == text
    ensures r.lang == "bn" && !r.slow && r.tld == "com"
  {
    Speech(text, "bn", false, "com")
  }

  /** The prompt as the handler reads it: a missing key is the empty string,
      and surrounding whitespace is stripped. */
  function UserPrompt(body: ChatBody): (p: string)
    ensures p == [] || (!IsSpace(p[0]) && !IsSpace(p[|p| - 1]))
    ensures body.prompt.None? ==> p == []
    ensures NonSpace(p) == NonSpace(body.prompt.GetOr(""))
  {
    StripKeepsNonSpace(body.prompt.GetOr(""));
    Strip(body.prompt.GetOr(""))
  }

  /** Stripping removes exactly the surrounding whitespace: a prompt made of
      blank padding around text that neither starts nor ends with whitespace
      reads as that text. */
  lemma UserPromptPadded(front: string, x: string, back: string)
    requires AllSpace(front) && AllSpace(back)
    requires x == [] || (!IsSpace(x[0]) && !IsSpace(x[|x| - 1]))
    ensures UserPrompt(ChatBody(Some(front + x + back))) == x
  {
    if x == [] {
      assert front + x + back == front + back;
      assert AllSpace(front + back);
    } else {
      StripPadded(front, x, back);
    }
  }

  /** What the handler makes of the model's answer: its Bengali translation
      (the `response` field), the translation request if one was sent, the
      speech request and what the synthesiser returned for it. */
  datatype Voiced = Voiced(response: string, sent: Option<Request>, speech: Speech, audio: Option<Audio>)

  /** Translate the answer to Bengali, clean the translation and synthesise
      speech from the cleaned copy; the translation itself is kept as it is. */
  function Voice(answer: string, oracles: Oracles): (v: Voiced)
    ensures v.speech == Speak(CleanTextForTts(v.response))
    ensures v.audio == oracles.tts(v.speech)
    ensures v.sent.None? <==> AllSpace(answer)
    ensures v.sent.Some? ==> v.sent.value == Request(answer, "en", "bn")
    ensures v.response == (if v.sent.Some? then oracles.translator(v.sent.value).GetOr(answer) else answer)
    ensures forall c :: c in Removed ==> c !in v.speech.text
  {
    var back := CustomTranslate(answer, "bn", "en", oracles.translator);
    var speech := Speak(CleanTextForTts(back.text));
    Voiced(back.text, back.sent, speech, oracles.tts(speech))
  }

  /** The English prompt the model is asked about. */
  function EnglishPrompt(body: ChatBody, oracles: Oracles): (r: Translated)
    ensures r.sent.None? <==> UserPrompt(body) == []
    ensures r.sent.Some? ==> r.sent.value == Request(UserPrompt(body), "auto", "en")
    ensures r.text == (if r.sent.Some? then oracles.translator(r.sent.value).GetOr(UserPrompt(body)) else UserPrompt(body))
  {
    CustomTranslate(UserPrompt(body), "en", "auto", oracles.translator)
  }

  /** The handler: the model is always consulted, whatever the prompt, and a
      successful envelope carries the translated answer, the audio made from
      its cleaned copy, and no escalation call. */
  function HandleChat(body: ChatBody, oracles: Oracles): (r: Reply)
    ensures r.result.Success? ==> r.result.value.call.None?
    ensures r.result.Success? ==>
      r.trace.speech == Some(Speak(CleanTextForTts(r.result.value.response)))
    ensures r.trace.speech.None? <==> r.result == Failure(InferenceFailed)
  {
    var prompt := EnglishPrompt(body, oracles);
    var ask := Ask(prompt.text);
    match oracles.model(ask)
    case None =>
      Reply(Failure(InferenceFailed), Trace(prompt.sent, ask, None, None))
    case Some(answer) =>
      var v := Voice(answer, oracles);
      var trace := Trace(prompt.sent, ask, v.sent, Some(v.speech));
      match v.audio
      case None => Reply(Failure(SynthesisFailed), trace)
      case Some(audio) => Reply(Success(Envelope(v.response, audio, None)), trace)
  }

  /** The model is consulted on every request, after the optional prompt
      translation, with the model name, the fixed system message and the
      English prompt; its answer decides whether the request gets further. */
  lemma ModelAlwaysConsulted(body: ChatBody, oracles: Oracles)
    ensures var r := HandleChat(body, oracles);
      r.trace.completion == Ask(EnglishPrompt(body, oracles).text) &&
      r.trace.completion.messages[0] == Message(System, SystemPrompt) &&
      r.trace.promptTranslation == EnglishPrompt(body, oracles).sent
  {
    var prompt := EnglishPrompt(body, oracles);
    match oracles.model(Ask(prompt.text))
    case None =>
    case Some(answer) =>
      var v := Voice(answer, oracles);
  }

  /** An empty or blank prompt is not short-circuited: the translator is
      skipped and the model is asked about the empty string. */
  lemma EmptyPromptReachesModel(body: ChatBody, oracles: Oracles)
    requires AllSpace(body.prompt.GetOr(""))
    ensures var r := HandleChat(body, oracles);
      r.trace.promptTranslation.None? && r.trace.completion == Ask("")
  {
    assert UserPrompt(body) == [];
    var prompt := EnglishPrompt(body, oracles);
    assert prompt.sent.None? && prompt.text == [];
    match oracles.model(Ask(prompt.text))
    case None =>
    case Some(answer) =>
      var v := Voice(answer, oracles);
  }

  /** A request succeeds exactly when both the model and the synthesiser
      answer; the envelope then holds the Bengali translation of the model's
      answer and the synthesiser's audio for its cleaned copy. */
  lemma SuccessIsBackTranslation(body: ChatBody, oracles: Oracles)
    ensures var answer := oracles.model(Ask(EnglishPrompt(body, oracles).text));
      var r := HandleChat(body, oracles);
      r.result.Success? <==>
        answer.Some? &&
        oracles.tts(Speak(CleanTextForTts(CustomTranslate(answer.value, "bn", "en", oracles.translator).text))).Some?
    ensures var answer := oracles.model(Ask(EnglishPrompt(body, oracles).text));
      var r := HandleChat(body, oracles);
      r.result.Success? ==>
        r.result.value.response == CustomTranslate(answer.value, "bn", "en", oracles.translator).text &&
        Some(r.result.value.audio) == oracles.tts(Speak(CleanTextForTts(r.result.value.response)))
    ensures var answer := oracles.model(Ask(EnglishPrompt(body, oracles).text));
      var r := HandleChat(body, oracles);
      answer.Some? ==>
        r.trace.answerTranslation == CustomTranslate(answer.value, "bn", "en", oracles.translator).sent
  {
    var prompt := EnglishPrompt(body, oracles);
    match oracles.model(Ask(prompt.text))
    case None =>
    case Some(answer) =>
      var v := Voice(answer, oracles);
  }

  /** A failed model call ends the request with an error before any
      translation of an answer or any synthesis. */
  lemma InferenceFailureStopsEarly(body: ChatBody, oracles: Oracles)
    requires oracles.model(Ask(EnglishPrompt(body, oracles).text)).None?
    ensures var r := HandleChat(body, oracles);
      r.result == Failure(InferenceFailed) &&
      r.trace.answerTranslation.None? && r.trace.speech.None?
  {
    var prompt := EnglishPrompt(body, oracles);
    match oracles.model(Ask(prompt.text))
    case None =>
    case Some(answer) =>
      var v := Voice(answer, oracles);
  }

  /** A failed synthesis is an error response, not an envelope without
      audio. */
  lemma SynthesisFailureIsAnError(body: ChatBody, oracles: Oracles)
    requires oracles.model(Ask(EnglishPrompt(body, oracles).text)).Some?
    requires forall sp :: oracles.tts(sp).None?
    ensures var r := HandleChat(body, oracles);
      r.result == Failure(SynthesisFailed) && r.trace.speech.Some?
  {
    var prompt := EnglishPrompt(body, oracles);
    match oracles.model(Ask(prompt.text))
    case None =>
    case Some(answer) =>
      var v := Voice(answer, oracles);
  }

  /** Speech is requested for the `response` field itself exactly when that
      field holds none of the deleted symbols and is already single-spaced; in
      every other case the envelope shows text other than the spoken one. */
  lemma SpokenTextIsResponseOnlyIfClean(body: ChatBody, oracles: Oracles)
    requires HandleChat(body, oracles).result.Success?
    ensures var r := HandleChat(body, oracles);
      var response := r.result.value.response;
      r.trace.speech == Some(Speak(response)) <==>
        (forall i :: 0 <= i < |response| ==> response[i] !in Removed) && SingleSpaced(response)
  {
    var r := HandleChat(body, oracles);
    CleanFixedPoint(r.result.value.response);
  }

  /** The reply depends on the services only through their answers to the
      requests it records: two sets of services that agree on those requests
      give the same reply, so a service the trace does not name was not
      consulted. */
  lemma OnlyRecordedCallsMatter(body: ChatBody, o1: Oracles, o2: Oracles)
    requires var t := HandleChat(body, o1).trace;
      && (t.promptTranslation.Some? ==>
            o1.translator(t.promptTranslation.value) == o2.translator(t.promptTranslation.value))
      && o1.model(t.completion) == o2.model(t.completion)
      && (t.answerTranslation.Some? ==>
            o1.translator(t.answerTranslation.value) == o2.translator(t.answerTranslation.value))
      && (t.speech.Some? ==> o1.tts(t.speech.value) == o2.tts(t.speech.value))
    ensures HandleChat(body, o1) == HandleChat(body, o2)
  {
    var p1 := EnglishPrompt(body, o1);
    SamePrompt(body, o1, o2);
    match o1.model(Ask(p1.text))
    case None =>
    case Some(answer) =>
      SameVoice(answer, o1, o2);
  }

  /** The English prompt depends on the translator only through the one
      request it makes. */
  lemma SamePrompt(body: ChatBody, o1: Oracles, o2: Oracles)
    requires var p := EnglishPrompt(body, o1);
      p.sent.Some? ==> o1.translator(p.sent.value) == o2.translator(p.sent.value)
    ensures EnglishPrompt(body, o2) == EnglishPrompt(body, o1)
  {
    if EnglishPrompt(body, o1).sent.Some? {
      OnlyTheRequestMatters(UserPrompt(body), "en", "auto", o1.translator, o2.translator);
    }
  }

  /** Voicing depends on the services only through the two requests it makes. */
  lemma SameVoice(answer: string, o1: Oracles, o2: Oracles)
    requires var v := Voice(answer, o1);
      && (v.sent.Some? ==> o1.translator(v.sent.value) == o2.translator(v.sent.value))
      && o1.tts(v.speech) == o2.tts(v.speech)
    ensures Voice(answer, o2) == Voice(answer, o1)
  {
  }

  /** With a translator that always fails, the model sees the stripped
      prompt itself and the envelope carries the model's raw answer. */
  lemma FailingTranslatorPassesThrough(body: ChatBody, oracles: Oracles)
    requires forall req :: oracles.translator(req).None?
    ensures var r := HandleChat(body, oracles);
      r.trace.completion == Ask(UserPrompt(body)) &&
      (r.result.Success? ==> oracles.model(Ask(UserPrompt(body))) == Some(r.result.value.response))
  {
    UntranslatedPrompt(body, oracles);
    var prompt := EnglishPrompt(body, oracles);
    match oracles.model(Ask(prompt.text))
    case None =>
    case Some(answer) =>
      UntranslatedVoice(answer, oracles);
  }

  /** With a translator that always fails, the model is asked about the
      stripped prompt as it is. */
  lemma UntranslatedPrompt(body: ChatBody, oracles: Oracles)
    requires forall req :: oracles.translator(req).None?
    ensures EnglishPrompt(body, oracles).text == UserPrompt(body)
  {
    assert oracles.translator(Request(UserPrompt(body), "auto", "en")).None?;
  }

  /** With a translator that always fails, the answer is voiced as it is. */
  lemma UntranslatedVoice(answer: string, oracles: Oracles)
    requires forall req :: oracles.translator(req).None?
    ensures Voice(answer, oracles).response == answer
  {
    assert oracles.translator(Request(answer, "en", "bn")).None?;
  }
}
