/**
  The locale registry (i18n/config.ts): the supported locales in order, the
  default locale, a display name per locale and the right-to-left subset.
*/
module LocaleConfig {

  const Locales: seq<string> := ["en", "he"]

  const DefaultLocale: string := "en"

  /** "English" and the Hebrew word for Hebrew, written with code points. */
  const LocaleNames: map<string, string> :=
    map["en" := "English", "he" := "\U{05E2}\U{05D1}\U{05E8}\U{05D9}\U{05EA}"]

  const RtlLocales: seq<string> := ["he"]

  predicate IsLocale(l: string) {
    l in Locales
  }

  /** `rtlLocales.includes(locale)`. */
  function IsRtlLocale(locale: string): (rtl: bool)
    ensures rtl <==> locale == "he"
    ensures rtl ==> IsLocale(locale)
  {
    locale in RtlLocales
  }

  /** The registry is well formed: distinct locales in order, a supported default, RTL within the supported set, a name for each. */
  lemma RegistryWellFormed()
    ensures Locales == ["en", "he"] && Locales[0] != Locales[1]
    ensures IsLocale(DefaultLocale)
    ensures forall l :: l in RtlLocales ==> IsLocale(l)
    ensures forall l :: IsLocale(l) ==> l in LocaleNames
    ensures forall l :: IsLocale(l) ==> (IsRtlLocale(l) <==> l != DefaultLocale)
  {
  }
}
