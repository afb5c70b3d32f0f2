/**
  The locale middleware (middleware.ts): the configuration handed to the
  internationalisation middleware, and the path matcher that decides which
  request paths that middleware sees at all.

  The matcher is the pattern `/((?!api|_next|_vercel|admin|courses|.*\..*).*)`
  matched against the whole path. `MatcherRegex` states its meaning under
  JavaScript regular-expression rules (`.` is any character except a line
  terminator); `Handled` is a direct scan, and `MatcherRegexIffHandled` shows
  that the two agree.
*/
module Middleware {
  import LocaleConfig

  datatype LocalePrefix = Always | AsNeeded | Never

  datatype IntlConfig = IntlConfig(locales: seq<string>, defaultLocale: string, localePrefix: LocalePrefix)

  /** The configuration of lines 4-13. */
  const Intl: IntlConfig := IntlConfig(LocaleConfig.Locales, LocaleConfig.DefaultLocale, AsNeeded)

  /** The words of the negative lookahead, tried at the start of the text after the leading "/". */
  const ExcludedWords: seq<string> := ["api", "_next", "_vercel", "admin", "courses"]

  predicate IsLineTerminator(c: char) {
    c == '\n' || c == '\r' || c == '\U{2028}' || c == '\U{2029}'
  }

  /** `.*` matches all of `s`. */
  predicate DotStar(s: string) {
    forall i :: 0 <= i < |s| ==> !IsLineTerminator(s[i])
  }

  /** One of the literal alternatives of the lookahead matches at the start of `s`. */
  predicate WordAlternative(s: string) {
    exists w :: w in ExcludedWords && w <= s
  }

  /** The alternative `.*\..*` matches at the start of `s`: a dot with no line terminator before it. */
  predicate DotAlternative(s: string) {
    exists k :: 0 <= k < |s| && s[k] == '.' && DotStar(s[..k])
  }

  /** Whole-path match of the pattern: "/", the lookahead fails, then `.*` to the end. */
  predicate MatcherRegex(path: string) {
    |path| >= 1 && path[0] == '/' &&
    !WordAlternative(path[1..]) && !DotAlternative(path[1..]) && DotStar(path[1..])
  }

  predicate StartsWithExcludedWord(s: string) {
    "api" <= s || "_next" <= s || "_vercel" <= s || "admin" <= s || "courses" <= s
  }

  /** No dot and no line terminator anywhere in `s`. */
  predicate Plain(s: string) {
    s == [] || (s[0] != '.' && !IsLineTerminator(s[0]) && Plain(s[1..]))
  }

  /** The paths the locale middleware handles, scanned directly. */
  predicate Handled(path: string) {
    |path| >= 1 && path[0] == '/' && !StartsWithExcludedWord(path[1..]) && Plain(path[1..])
  }

  lemma {:induction false} PlainIff(s: string)
    ensures Plain(s) <==> DotStar(s) && '.' !in s
  {
    if s != [] {
      PlainIff(s[1..]);
      assert s == [s[0]] + s[1..];
    }
  }

  /** Once `.*` covers `s`, the dot alternative matches iff `s` holds a dot. */
  lemma DotAlternativeIff(s: string)
    requires DotStar(s)
    ensures DotAlternative(s) <==> '.' in s
  {
    if '.' in s {
      var k :| 0 <= k < |s| && s[k] == '.';
      assert DotStar(s[..k]);
    }
  }

  lemma WordAlternativeIff(s: string)
    ensures WordAlternative(s) <==> StartsWithExcludedWord(s)
  {
    if StartsWithExcludedWord(s) {
      if "api" <= s { assert "api" in ExcludedWords; }
      else if "_next" <= s { assert "_next" in ExcludedWords; }
      else if "_vercel" <= s { assert "_vercel" in ExcludedWords; }
      else if "admin" <= s { assert "admin" in ExcludedWords; }
      else { assert "courses" in ExcludedWords; }
    }
  }

  /** The pattern and the direct scan accept the same paths. */
  lemma MatcherRegexIffHandled(path: string)
    ensures MatcherRegex(path) <==> Handled(path)
  {
    if |path| >= 1 {
      var rest := path[1..];
      PlainIff(rest);
      WordAlternativeIff(rest);
      if DotStar(rest) {
        DotAlternativeIff(rest);
      }
    }
  }

  /** The exclusion is a raw prefix test: "/apiary" and "/courses-archive" are excluded like "/api/x". */
  lemma ExcludedWordPrefix(w: string, rest: string)
    requires w in ExcludedWords
    ensures !MatcherRegex("/" + w + rest)
  {
    var path := "/" + w + rest;
    assert path[1..] == w + rest;
    assert w <= path[1..];
  }

  /** Any text after the "/" that holds no dot, no line terminator and no excluded word at its start is matched. */
  lemma WordlessPlainMatched(rest: string)
    requires DotStar(rest) && '.' !in rest && !WordAlternative(rest)
    ensures MatcherRegex("/" + rest)
  {
    assert ("/" + rest)[1..] == rest;
    DotAlternativeIff(rest);
  }

  /** A dot anywhere excludes the path, e.g. "/favicon.ico" and "/he/logo.png". */
  lemma DotExcludes(path: string, k: nat)
    requires 0 < k < |path| && path[k] == '.'
    ensures !MatcherRegex(path)
  {
    MatcherRegexIffHandled(path);
    PlainIff(path[1..]);
    assert path[1..][k - 1] == '.';
  }

  /** The exclusion looks at the first segment only: a supported-locale prefix is always handled. */
  lemma LocalePrefixedHandled(l: string, rest: string)
    requires LocaleConfig.IsLocale(l)
    requires DotStar(rest) && '.' !in rest
    ensures MatcherRegex("/" + l + rest)
  {
    var path := "/" + l + rest;
    assert path[1..] == l + rest;
    assert DotStar(l + rest) && '.' !in l + rest by {
      assert forall i :: 0 <= i < |l| ==> (l + rest)[i] == l[i];
      assert forall i :: |l| <= i < |l + rest| ==> (l + rest)[i] == rest[i - |l|];
    }
    assert (l + rest)[0] in "eh";
    WordAlternativeIff(l + rest);
    PlainIff(l + rest);
    MatcherRegexIffHandled(path);
  }

  /** The root path is handled. */
  lemma RootMatched()
    ensures MatcherRegex("/")
  {
    MatcherRegexIffHandled("/");
  }

  /** "/he/courses" is handled: the "courses" exclusion applies to the first segment only. */
  lemma HeCoursesMatched()
    ensures MatcherRegex("/he/courses")
  {
    LocalePrefixedHandled("he", "/courses");
  }

  /** "courses" is a whole word of the lookahead: "/coursework" does not start with it and is matched. */
  lemma CourseworkMatched()
    ensures MatcherRegex("/coursework")
  {
    var rest := "coursework";
    assert !("courses" <= rest) by { assert rest[6] != "courses"[6]; }
    assert !("api" <= rest || "_next" <= rest || "_vercel" <= rest || "admin" <= rest) by {
      assert rest[0] == 'c';
    }
    assert DotStar(rest) && '.' !in rest;
    WordAlternativeIff(rest);
    WordlessPlainMatched(rest);
  }

  /** Paths the locale middleware never sees. */
  lemma ExcludedExamples()
    ensures !MatcherRegex("/api/x") && !MatcherRegex("/apiary") && !MatcherRegex("/courses-archive")
    ensures !MatcherRegex("/favicon.ico") && !MatcherRegex("/he/logo.png")
  {
    ExcludedWordPrefix("api", "/x");
    ExcludedWordPrefix("api", "ary");
    ExcludedWordPrefix("courses", "-archive");
    DotExcludes("/favicon.ico", 8);
    DotExcludes("/he/logo.png", 8);
  }

  /** The middleware is wired to exactly the registry's locales and default, with prefixes as needed. */
  lemma ConfigWiring()
    ensures Intl.locales == LocaleConfig.Locales == ["en", "he"]
    ensures Intl.defaultLocale == LocaleConfig.DefaultLocale && Intl.defaultLocale in Intl.locales
    ensures Intl.localePrefix == AsNeeded
  {
  }
}
