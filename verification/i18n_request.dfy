/** The next-intl request configuration (src/i18n/request.ts): the
    requested locale is normalised, falling back to `en` (not `ko`), and
    its messages are loaded; when they cannot be loaded the `en` messages
    are used instead. Which message files load is a parameter. */
module I18nRequest {
  import opened Wrappers
  import opened Locales
  import Header
  import Text

  const Fallback: Locale := En

  /** `locale && SUPPORTED.includes(locale) ? locale : FALLBACK`. */
  function Normalize(locale: Option<string>): (r: Locale)
    ensures locale.Some? && locale.value in {"ko", "en", "uz"} ==> r.Code() == locale.value
    ensures locale.None? || locale.value !in {"ko", "en", "uz"} ==> r == En
  {
    if locale.Some? && locale.value != "" then FromCode(locale.value).GetOr(Fallback) else Fallback
  }

  /** The configuration handed to next-intl: the locale and the locale
      whose message file was loaded. */
  datatype Config = Config(locale: Locale, messagesOf: Locale)

  /** The `try`/`catch` around the dynamic import. `loads` is the set of
      locales whose message file imports without throwing; when the
      fallback file throws too, the request fails (`None`). */
  function RequestConfig(locale: Option<string>, loads: set<Locale>): (r: Option<Config>)
    ensures r.Some? <==> Normalize(locale) in loads || Fallback in loads
    ensures r.Some? ==> r.value.locale == r.value.messagesOf
    ensures Normalize(locale) in loads ==> r == Some(Config(Normalize(locale), Normalize(locale)))
    ensures Normalize(locale) !in loads ==> r.Some? ==> r.value.locale == En
  {
    var normalized := Normalize(locale);
    if normalized in loads then Some(Config(normalized, normalized))
    else if Fallback in loads then Some(Config(Fallback, Fallback))
    else None
  }

  /** Normalising a normalised locale changes nothing. */
  lemma NormalizeIdempotent(locale: Option<string>)
    ensures Normalize(Some(Normalize(locale).Code())) == Normalize(locale)
  {
    FromCodeOfCode(Normalize(locale));
  }

  /** A locale passes through exactly when it is supported. */
  lemma NormalizeKeepsExactlySupported(locale: Option<string>)
    ensures (locale.Some? && Normalize(locale).Code() == locale.value) <==> (locale.Some? && FromCode(locale.value).Some?)
  {
  }

  /** With every message file present the configuration is the
      normalised locale. */
  lemma AllMessagesPresent(locale: Option<string>)
    ensures RequestConfig(locale, {Ko, En, Uz}) == Some(Config(Normalize(locale), Normalize(locale)))
  {
    assert Normalize(locale) in {Ko, En, Uz};
  }

  /** An unknown locale falls back to `en` here, while the header falls
      back to `ko` for the same unknown first segment. */
  lemma FallbacksDiffer()
    ensures Normalize(Some("fr")) == En
    ensures Header.HeaderLocale("/fr/blog") == Ko
  {
    assert Text.Segments("/fr/blog") == ["fr", "blog"] by {
      Text.SegmentsOfJoin(["fr", "blog"]);
      assert Text.Join(["fr", "blog"], "/") == "fr/blog";
    }
  }
}
