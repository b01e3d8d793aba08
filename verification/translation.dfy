/** The fail-soft translation wrapper `custom_translate` (app.py:30-45). The
    translation service is an oracle: the model never looks inside it, it only
    records which requests were made and what came back. */
module Translation {
  import opened Wrappers
  import opened Text

  /** One request to the translation service: the text, the language it is
      in (`source`, possibly "auto") and the language wanted (`target`). */
  datatype Request = Request(text: string, source: string, target: string)

  /** The translation service. `None` stands for any exception raised while
      building the translator or translating. */
  type Provider = Request -> Option<string>

  /** What `custom_translate` returns, together with the request it sent to
      the service, if it sent one. */
  datatype Translated = Translated(text: string, sent: Option<Request>)

  /** Translate `text` from `fromLang` into `toLang`. Blank text is returned
      as it is without consulting the service; a failing service also leaves
      the text as it is. */
  function CustomTranslate(text: string, toLang: string, fromLang: string, provider: Provider): (r: Translated)
    ensures r.sent.None? <==> AllSpace(text)
    ensures r.sent.None? ==> r.text == text
    ensures r.sent.Some? ==> r.sent.value == Request(text, fromLang, toLang)
    ensures r.sent.Some? && provider(r.sent.value).None? ==> r.text == text
    ensures r.sent.Some? && provider(r.sent.value).Some? ==> r.text == provider(r.sent.value).value
  {
    // `not text.strip()`: stripping leaves nothing exactly when the text is
    // all whitespace (`Text.Strip`).
    if AllSpace(text) then
      Translated(text, None)
    else
      var req := Request(text, fromLang, toLang);
      Translated(provider(req).GetOr(text), Some(req))
  }

  /** Any change to the text comes from the service: a result that differs
      from the input is exactly the service's answer to the one request. */
  lemma ChangeComesFromProvider(text: string, toLang: string, fromLang: string, provider: Provider)
    ensures var r := CustomTranslate(text, toLang, fromLang, provider);
      r.text != text ==>
        !AllSpace(text) && provider(Request(text, fromLang, toLang)) == Some(r.text)
  {
  }

  /** Blank input gives the same result whatever the service would answer. */
  lemma BlankIgnoresProvider(text: string, toLang: string, fromLang: string, p: Provider, q: Provider)
    requires AllSpace(text)
    ensures CustomTranslate(text, toLang, fromLang, p) == CustomTranslate(text, toLang, fromLang, q)
    ensures CustomTranslate(text, toLang, fromLang, p) == Translated(text, None)
  {
  }

  /** With a service that always fails, translation is the identity. */
  lemma FailingProviderIsIdentity(text: string, toLang: string, fromLang: string, provider: Provider)
    requires forall req :: provider(req).None?
    ensures CustomTranslate(text, toLang, fromLang, provider).text == text
  {
  }

  /** The result depends on the service only through its answer to the one
      request that is sent; other answers do not matter. */
  lemma OnlyTheRequestMatters(text: string, toLang: string, fromLang: string, p: Provider, q: Provider)
    requires p(Request(text, fromLang, toLang)) == q(Request(text, fromLang, toLang))
    ensures CustomTranslate(text, toLang, fromLang, p) == CustomTranslate(text, toLang, fromLang, q)
  {
  }

  /** There is no same-language shortcut: text that is not blank is sent to
      the service even when source and target are the same language, and
      the service's answer is taken as it is. */
  lemma SameLanguageStillConsults(text: string, lang: string, provider: Provider)
    requires !AllSpace(text)
    ensures var r := CustomTranslate(text, lang, lang, provider);
      r.sent == Some(Request(text, lang, lang)) &&
      r.text == provider(Request(text, lang, lang)).GetOr(text)
  {
  }
}
