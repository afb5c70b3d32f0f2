/**
  The locale switch of the language selector
  (components/language-learning-selector.tsx): the current locale's "/L" is
  cut out of the pathname with JavaScript's `String.prototype.replace` (first
  occurrence only), an empty remainder becomes "/", and the new locale is put
  in front.

  Under the "as-needed" prefix policy the default locale's paths carry no
  prefix, so the first "/en" can sit inside a path segment. `SwitchTarget`
  models the code as written; `SwitchTargetBySegment` strips only a leading
  locale segment and is the corrected switch.
*/
module LanguageSelector {
  import opened Options
  import LocaleConfig

  predicate OccursAt(s: string, pat: string, j: nat) {
    j + |pat| <= |s| && s[j..j + |pat|] == pat
  }

  /** The first index at or after `i` at which `pat` occurs in `s`. */
  function IndexFrom(s: string, pat: string, i: nat): (r: Option<nat>)
    requires i <= |s|
    ensures r.Some? ==> i <= r.value && OccursAt(s, pat, r.value)
    ensures forall j: nat :: i <= j && (r.None? || j < r.value) ==> !OccursAt(s, pat, j)
    decreases |s| - i
  {
    if i + |pat| > |s| then None
    else if s[i..i + |pat|] == pat then Some(i)
    else IndexFrom(s, pat, i + 1)
  }

  /** `s.indexOf(pat)`. */
  function IndexOf(s: string, pat: string): (r: Option<nat>)
    ensures r.Some? ==> OccursAt(s, pat, r.value)
    ensures forall j: nat :: (r.None? || j < r.value) ==> !OccursAt(s, pat, j)
  {
    IndexFrom(s, pat, 0)
  }

  /** `s.replace(pat, rep)` with a string pattern: only the first occurrence is replaced. */
  function ReplaceFirst(s: string, pat: string, rep: string): string {
    match IndexOf(s, pat)
    case None => s
    case Some(k) => s[..k] + rep + s[k + |pat|..]
  }

  /** With an occurrence, the first one (and only it) is replaced. */
  lemma ReplaceFirstAt(s: string, pat: string, rep: string, k: nat)
    requires IsFirstOccurrence(s, pat, k)
    ensures ReplaceFirst(s, pat, rep) == s[..k] + rep + s[k + |pat|..]
  {
    var r := IndexOf(s, pat);
    assert r.Some?;
    FirstOccurrenceUnique(s, pat, r.value, k);
  }

  /** Without an occurrence the string is returned unchanged. */
  lemma ReplaceFirstAbsent(s: string, pat: string, rep: string)
    requires forall j: nat :: !OccursAt(s, pat, j)
    ensures ReplaceFirst(s, pat, rep) == s
  {
  }

  predicate IsFirstOccurrence(s: string, pat: string, k: nat) {
    OccursAt(s, pat, k) && forall j: nat :: j < k ==> !OccursAt(s, pat, j)
  }

  lemma FirstOccurrenceUnique(s: string, pat: string, k: nat, k': nat)
    requires IsFirstOccurrence(s, pat, k) && IsFirstOccurrence(s, pat, k')
    ensures k == k'
  {
  }

  /** `pathname?.replace(`/${locale}`, "") || "/"`. */
  function PathWithoutLocale(pathname: Option<string>, locale: string): (rest: string)
    ensures rest != ""
  {
    match pathname
    case None => "/"
    case Some(p) =>
      var stripped := ReplaceFirst(p, "/" + locale, "");
      if stripped == "" then "/" else stripped
  }

  /** The URL `handleLanguageSwitch` pushes, as written. */
  function SwitchTarget(pathname: Option<string>, locale: string, newLocale: string): (target: string)
    ensures ("/" + newLocale) <= target && |target| > |newLocale| + 1
  {
    "/" + newLocale + PathWithoutLocale(pathname, locale)
  }

  /** Without a pathname the target is the new locale's root. */
  lemma NoPathnameGoesToRoot(locale: string, newLocale: string)
    ensures SwitchTarget(None, locale, newLocale) == "/" + newLocale + "/"
  {
  }

  /**
    Only the first "/L" is removed, wherever it is; later ones are kept. When
    nothing is left, the `|| "/"` fallback makes the rest "/".
  */
  lemma {:induction false} SwitchRemovesFirstOccurrence(p: string, locale: string, newLocale: string, k: nat)
    requires IsFirstOccurrence(p, "/" + locale, k)
    ensures var r := p[..k] + p[k + |locale| + 1..];
            SwitchTarget(Some(p), locale, newLocale) == "/" + newLocale + (if r == "" then "/" else r)
  {
    ReplaceFirstAt(p, "/" + locale, "", k);
    assert p[..k] + "" + p[k + |locale| + 1..] == p[..k] + p[k + |locale| + 1..];
  }

  /** The bare locale path "/L" switches to "/M/", with a trailing slash. */
  lemma SwitchBareLocale(l: string, m: string)
    ensures SwitchTarget(Some("/" + l), l, m) == "/" + m + "/"
  {
    var p := "/" + l;
    assert OccursAt(p, "/" + l, 0);
    assert IsFirstOccurrence(p, "/" + l, 0);
    assert p[..0] + p[|l| + 1..] == "";
    SwitchRemovesFirstOccurrence(p, l, m, 0);
  }

  /** On the locale home page the selector sends "/he" to "/en/". */
  lemma HebrewHomeSwitch()
    ensures SwitchTarget(Some("/he"), "he", "en") == "/en/"
  {
    SwitchBareLocale("he", "en");
  }

  /** A path without "/L" in it is kept whole and prefixed with the new locale. */
  lemma SwitchKeepsPathWithoutLocale(p: string, locale: string, newLocale: string)
    requires forall j: nat :: !OccursAt(p, "/" + locale, j)
    ensures SwitchTarget(Some(p), locale, newLocale) == "/" + newLocale + (if p == "" then "/" else p)
  {
    ReplaceFirstAbsent(p, "/" + locale, "");
  }

  lemma PrefixedOccursFirst(l: string, rest: string)
    ensures IsFirstOccurrence("/" + l + rest, "/" + l, 0)
  {
    assert ("/" + l + rest)[0..|l| + 1] == "/" + l;
  }

  /** A path that starts with "/L" followed by a non-empty rest switches to "/M" + rest. */
  lemma SwitchPrefixed(l: string, m: string, rest: string)
    requires rest != ""
    ensures SwitchTarget(Some("/" + l + rest), l, m) == "/" + m + rest
  {
    var p := "/" + l + rest;
    PrefixedOccursFirst(l, rest);
    assert p[..0] + p[|l| + 1..] == rest;
    SwitchRemovesFirstOccurrence(p, l, m, 0);
  }

  /** Round trip: from "/L" + rest to "/M" + rest and back again, for any non-empty rest. */
  lemma SwitchRoundTrip(l: string, m: string, rest: string)
    requires rest != ""
    ensures SwitchTarget(Some(SwitchTarget(Some("/" + l + rest), l, m)), m, l) == "/" + l + rest
  {
    SwitchPrefixed(l, m, rest);
    SwitchPrefixed(m, l, rest);
  }

  /** The bare "/L" does not round-trip: it goes to "/M/" and comes back as "/L/". */
  lemma BareLocaleRoundTrip(l: string, m: string)
    ensures SwitchTarget(Some(SwitchTarget(Some("/" + l), l, m)), m, l) == "/" + l + "/"
  {
    SwitchBareLocale(l, m);
    SwitchPrefixed(m, l, "/");
  }

  /** The code as written mangles an unprefixed default-locale path whose segment starts with "en". */
  lemma SwitchTargetMangles()
    ensures SwitchTarget(Some("/entry"), "en", "he") == "/hetry"
  {
    SwitchPrefixed("en", "he", "try");
    assert "/" + "en" + "try" == "/entry";
    assert "/" + "he" + "try" == "/hetry";
  }

  /** The corrected remainder: strip "/L" only when it is the whole first segment. */
  function StripLocaleSegment(p: string, locale: string): (rest: string)
    ensures rest != ""
    ensures ("/" + locale + "/") <= p ==> p == "/" + locale + rest
  {
    if p == "/" + locale then "/"
    else if "/" + locale + "/" <= p then p[|locale| + 1..]
    else if p == "" then "/"
    else p
  }

  /** The corrected switch. */
  function SwitchTargetBySegment(pathname: Option<string>, locale: string, newLocale: string): (target: string)
    ensures ("/" + newLocale) <= target
  {
    "/" + newLocale + (match pathname case None => "/" case Some(p) => StripLocaleSegment(p, locale))
  }

  /** A path that does not start with the locale's segment keeps all of its text. */
  lemma SegmentSwitchKeepsUnprefixed(p: string, locale: string, newLocale: string)
    requires p != "" && p != "/" + locale && !(("/" + locale + "/") <= p)
    ensures SwitchTargetBySegment(Some(p), locale, newLocale) == "/" + newLocale + p
  {
  }

  /** The corrected switch round-trips every locale-prefixed path, including the bare "/L". */
  lemma SegmentSwitchRoundTrip(l: string, m: string, rest: string)
    requires rest == "" || rest[0] == '/'
    ensures SwitchTargetBySegment(Some("/" + l + rest), l, m) == "/" + m + (if rest == "" then "/" else rest)
    ensures rest != "" ==> SwitchTargetBySegment(Some("/" + m + rest), m, l) == "/" + l + rest
  {
    PrefixLemma(l, rest);
    PrefixLemma(m, rest);
  }

  lemma PrefixLemma(l: string, rest: string)
    requires rest == "" || rest[0] == '/'
    ensures StripLocaleSegment("/" + l + rest, l) == (if rest == "" then "/" else rest)
  {
    var p := "/" + l + rest;
    if rest != "" {
      assert p[..|l| + 2] == "/" + l + "/";
      assert p[|l| + 1..] == rest;
    }
  }

  /** On paths that begin with the locale's segment the two switches agree. */
  lemma SwitchesAgreeOnPrefixedPaths(l: string, m: string, rest: string)
    requires rest == "" || rest[0] == '/'
    ensures SwitchTarget(Some("/" + l + rest), l, m) == SwitchTargetBySegment(Some("/" + l + rest), l, m)
  {
    if rest == "" {
      assert "/" + l + rest == "/" + l;
      SwitchBareLocale(l, m);
    } else {
      SwitchPrefixed(l, m, rest);
    }
    SegmentSwitchRoundTrip(l, m, rest);
  }

  /** The corrected switch sends "/entry" in English to "/he/entry". */
  lemma SegmentSwitchKeepsEntry()
    ensures SwitchTargetBySegment(Some("/entry"), "en", "he") == "/he/entry"
  {
    assert "/entry"[3] != '/';
    SegmentSwitchKeepsUnprefixed("/entry", "en", "he");
  }

  /** `locale === "he"` and `locale === "en"`. */
  predicate IsHebrew(locale: string) { locale == "he" }
  predicate IsEnglish(locale: string) { locale == "en" }

  /** The two selector flags never hold together, and exactly one holds for a supported locale. */
  lemma FlagsExclusive(locale: string)
    ensures !(IsHebrew(locale) && IsEnglish(locale))
    ensures LocaleConfig.IsLocale(locale) ==> (IsHebrew(locale) != IsEnglish(locale))
  {
  }
}
