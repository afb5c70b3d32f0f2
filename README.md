# Site access, locale routing and course-page logic, modelled in Dafny

This project models the parts of a video-course marketing site and creator
dashboard that make decisions rather than draw pixels:

- the **site-access password endpoint**: method check, password check,
  comparison with the configured secret, and the access cookie it issues;
- the **locale registry** (supported locales `en` and `he`, default `en`, the
  right-to-left subset), the **path matcher** that decides which request
  paths the locale middleware sees, the middleware's configuration, and the
  **language selector's URL rewrite**;
- the **course list page**: duration text, total duration of a course, and
  the badge and label conditions of a course card;
- the **dashboard**: published/draft split, greeting name, counters, empty
  state and card labels;
- two small **state machines**: the FAQ accordion (at most one answer open)
  and the learning-path card stack, which rotates by one card per tick.

Each source file is one module: `SiteAccess`, `LocaleConfig`, `Middleware`,
`LanguageSelector`, `CoursesPage`, `Dashboard`, `Faq`, `LearningPaths`.
`Catalog` holds the course records the two course views share, and
`Decimal` holds the decimal text of numbers. `Options` holds the optional
value that stands in for `undefined` and `null`. Pure code is written as
functions and lemmas. The FAQ state and the card stack are classes whose
methods update their fields.

One place where the source's own comment and its code say different things;
the model follows the code:

- The comment at pages/api/auth/site-access.ts:22 calls the password
  comparison constant-time, but the comparison at lines 23-30 stops at the
  first mismatch, because `&&` and `every` short-circuit. Only the result of
  the comparison is modelled: it is string equality
  (`SiteAccess.IsValidIffEqual`).

Two properties of the matcher pattern at middleware.ts:21 that decide which
paths the locale middleware sees:

- The exclusion lookahead is tried only right after the first `/`, so a
  locale-prefixed path such as `/he/courses` is handled
  (`Middleware.HeCoursesMatched`).
- The exclusion is a prefix test on the text, not a segment test:
  `/courses-archive` is excluded, while `/coursework` is handled, because
  `courses` is not a prefix of `coursework` (`Middleware.CourseworkMatched`).

## Model

| member | source | states |
|---|---|---|
| `SiteAccess.SitePassword` | pages/api/auth/site-access.ts:5 | An unset or empty `SITE_PASSWORD` falls back to the literal default; a non-empty one is used as is; the secret is never empty |
| `SiteAccess.EveryCharMatchesIffPrefix` | pages/api/auth/site-access.ts:25-30 | The per-character `every` walk alone accepts exactly the prefixes of the secret, so the length test is needed |
| `SiteAccess.IsValidIffEqual` | pages/api/auth/site-access.ts:23-30 | `IsValid`, the length test plus the character walk, holds iff the password equals the secret |
| `SiteAccess.AccessCookie` | pages/api/auth/site-access.ts:37-43 | Cookie `site_access_granted=true`, HttpOnly, SameSite=Lax, Path=/, Max-Age 2592000 s (30 days), Secure iff NODE_ENV is production (Max-Age, Path, Secure and HttpOnly as in sections 5.2.2-5.2.6 of RFC 6265; SameSite comes from the later cookie specification) |
| `SiteAccess.Handler` | pages/api/auth/site-access.ts:11-46 | Exactly one of 405, 400, 401, 200, decided in that order: 405 iff not POST, 400 iff POST with absent or empty password, 401 iff POST with another non-empty password, 200 iff POST with the secret; the error bodies; a cookie is set iff the status is 200 (status codes of RFC 9110 sections 15.5.6, 15.5.1, 15.5.2; the source sends neither the `Allow` header those sections ask for on a 405 nor `WWW-Authenticate` on a 401) |
| `SiteAccess.NonPostIgnoresBody` | pages/api/auth/site-access.ts:12-16 | A non-POST request gets 405 `Method not allowed`, no cookie, whatever its body |
| `SiteAccess.CookieOnlyForSecret` | pages/api/auth/site-access.ts:32-46 | Whenever a cookie is set, the request was a POST carrying exactly the secret |
| `LocaleConfig.IsRtlLocale` | i18n/config.ts:14-16 | Right-to-left iff the locale is `he`; every RTL locale is supported |
| `LocaleConfig.RegistryWellFormed` | i18n/config.ts:1-12 | Locales are exactly `["en","he"]`, distinct and in order; the default is supported; the RTL set lies within the supported locales; every supported locale has a display name; the only LTR locale is the default |
| `Middleware.ConfigWiring` | middleware.ts:2-13 | The middleware gets exactly the registry's locales and default, with prefixes "as-needed" |
| `Middleware.MatcherRegexIffHandled` | middleware.ts:21 | `MatcherRegex`, the whole-path regular-expression reading of the matcher, equals `Handled`, the direct scan: leading `/`, no excluded word at the start of the rest, no dot and no line terminator anywhere |
| `Middleware.ExcludedWordPrefix` | middleware.ts:21 | Any path `/` + an excluded word + anything is not matched (raw prefix, not a segment test) |
| `Middleware.DotExcludes` | middleware.ts:21 | A dot anywhere after the leading `/` excludes the path |
| `Middleware.LocalePrefixedHandled` | middleware.ts:21 | A path starting with a supported locale is matched whatever follows, if it holds no dot (so `/he/about` and `/en/admin` are matched): the exclusion looks at the first segment only |
| `Middleware.RootMatched` | middleware.ts:21 | `/` is matched |
| `Middleware.HeCoursesMatched` | middleware.ts:21 | `/he/courses` is matched |
| `Middleware.CourseworkMatched` | middleware.ts:21 | `/coursework` is matched: `courses` is not a prefix of it |
| `Middleware.ExcludedExamples` | middleware.ts:21 | `/api/x`, `/apiary`, `/courses-archive`, `/favicon.ico` and `/he/logo.png` are not matched |
| `LanguageSelector.IndexOf` | components/language-learning-selector.tsx:80 | The result is an occurrence of the pattern with none before it, or there is no occurrence at all |
| `LanguageSelector.ReplaceFirstAt` | components/language-learning-selector.tsx:80 | `ReplaceFirst`, `replace` with a string pattern, cuts out the first occurrence only |
| `LanguageSelector.ReplaceFirstAbsent` | components/language-learning-selector.tsx:80 | Without an occurrence, `replace` leaves the string unchanged |
| `LanguageSelector.PathWithoutLocale` | components/language-learning-selector.tsx:80 | The path left after `replace` and the `|| "/"` fallback is never empty |
| `LanguageSelector.SwitchTarget` | components/language-learning-selector.tsx:80-81 | The target starts with `/` and the new locale and has a non-empty remainder |
| `LanguageSelector.NoPathnameGoesToRoot` | components/language-learning-selector.tsx:80-81 | A null pathname switches to `/<new>/` |
| `LanguageSelector.SwitchRemovesFirstOccurrence` | components/language-learning-selector.tsx:80-81 | Only the first `/<locale>` is removed, wherever it is; later ones stay; when nothing is left, the `|| "/"` fallback makes the rest `/` |
| `LanguageSelector.SwitchBareLocale` | components/language-learning-selector.tsx:80-81 | The bare locale path `/<L>` switches to `/<M>/`, with a trailing slash from the fallback |
| `LanguageSelector.HebrewHomeSwitch` | components/language-learning-selector.tsx:80-81 | On the Hebrew home page the selector sends `/he` to `/en/` |
| `LanguageSelector.SwitchKeepsPathWithoutLocale` | components/language-learning-selector.tsx:80-81 | A path with no `/<locale>` in it is kept whole behind the new locale; an empty one becomes `/` |
| `LanguageSelector.SwitchPrefixed` | components/language-learning-selector.tsx:80-81 | `/L` + rest (rest non-empty) switches to `/M` + rest |
| `LanguageSelector.SwitchRoundTrip` | components/language-learning-selector.tsx:80-81 | `/L` + rest, with rest non-empty, switched to M and back comes back as `/L` + rest (the bare `/L` is covered by `BareLocaleRoundTrip`) |
| `LanguageSelector.BareLocaleRoundTrip` | components/language-learning-selector.tsx:80-81 | The bare `/L` switched to M and back comes back as `/L/`, not `/L` (so `/he` returns as `/he/`) |
| `LanguageSelector.SwitchTargetMangles` | components/language-learning-selector.tsx:80-81 | As written, `/entry` in `en` switches to `/hetry` |
| `LanguageSelector.StripLocaleSegment` | components/language-learning-selector.tsx:80 | Corrected strip: never empty; a path beginning with the locale's segment `/L/` is `/L` followed by the result |
| `LanguageSelector.SwitchTargetBySegment` | components/language-learning-selector.tsx:80-81 | Corrected switch: the target starts with `/` and the new locale |
| `LanguageSelector.SegmentSwitchKeepsUnprefixed` | components/language-learning-selector.tsx:80-81 | Corrected switch: a path that does not begin with the locale's segment is kept whole |
| `LanguageSelector.SegmentSwitchRoundTrip` | components/language-learning-selector.tsx:80-81 | Corrected switch: `/L` becomes `/M/`, `/L/x` becomes `/M/x`, and back again |
| `LanguageSelector.SwitchesAgreeOnPrefixedPaths` | components/language-learning-selector.tsx:80-81 | On the bare `/L` and on paths beginning with the segment `/L/`, the written and corrected switches agree |
| `LanguageSelector.SegmentSwitchKeepsEntry` | components/language-learning-selector.tsx:80-81 | Corrected switch: `/entry` in `en` goes to `/he/entry` |
| `LanguageSelector.FlagsExclusive` | components/language-learning-selector.tsx:84-85 | `isHebrew` and `isEnglish` never hold together; exactly one holds for a supported locale |
| `Decimal.Show` | pages/courses/index.tsx:32-34 | An integer's text in a template literal is a non-empty run of digits without a leading zero |
| `Decimal.ParseShow` | pages/courses/index.tsx:32-34 | Reading that text back gives the number |
| `Catalog.LessonLabel` | pages/courses/index.tsx:214-215 | The label is the singular `lesson` iff the count is 1, otherwise `lessons` (the dashboard uses the same rule at app/dashboard/dashboard-client.tsx:217) |
| `CoursesPage.DurationParts` | pages/courses/index.tsx:29-30 | Minutes are below 60 and h·3600 + m·60 ≤ s < h·3600 + m·60 + 60 |
| `CoursesPage.FormatDurationParses` | pages/courses/index.tsx:28-35 | Hours and minutes can be read back from `formatDuration`'s text: `<h>h <m>m` when h > 0, else `<m> min` |
| `CoursesPage.FormatDurationInjective` | pages/courses/index.tsx:28-35 | Two durations have the same text iff they have the same hours and minutes |
| `CoursesPage.FormatDurationShape` | pages/courses/index.tsx:29-34 | `FormatDuration`'s text contains `h` (the hour form) iff s ≥ 3600, which is when the hour count is positive; any s < 60 is `0 min` |
| `CoursesPage.Contribution` | pages/courses/index.tsx:40 | A lesson adds its video's duration; without a video or without a duration it adds 0 |
| `CoursesPage.TotalDurationZeroIff` | pages/courses/index.tsx:38-42 | `TotalDuration`, the left `reduce` from 0: the total of no lessons is 0; a total is 0 iff no lesson contributes |
| `CoursesPage.TotalDurationExample` | pages/courses/index.tsx:38-42 | Lessons of 100 s, without a video, and of 200 s total 300 s |
| `CoursesPage.TotalDurationAppend` | pages/courses/index.tsx:38-42 | The total is additive over concatenation |
| `CoursesPage.TotalDurationPermutation` | pages/courses/index.tsx:38-42 | The total does not depend on the order of the lessons |
| `CoursesPage.CourseCardMeta` | pages/courses/index.tsx:189-221 | The duration badge is shown iff some lesson has a positive duration, and shows the formatted total; "Coming Soon" iff not published; the lesson label |
| `Dashboard.Filter` | app/dashboard/dashboard-client.tsx:32-33 | The result holds exactly the elements of the input that pass the test |
| `Dashboard.FilterAppend` | app/dashboard/dashboard-client.tsx:32-33 | Filtering distributes over concatenation, so it keeps the input order |
| `Dashboard.PartitionComplete` | app/dashboard/dashboard-client.tsx:32-33 | The published and draft counts add up to the number of courses; together the two lists hold every course exactly once |
| `Dashboard.PartitionDisjoint` | app/dashboard/dashboard-client.tsx:32-33 | No course is in both `PublishedCourses` and `DraftCourses`; published ones are published, drafts are not |
| `Dashboard.FirstPiece` | app/dashboard/dashboard-client.tsx:89 | `split(" ")[0]` is the prefix of the name up to its first space |
| `Dashboard.GreetingName` | app/dashboard/dashboard-client.tsx:89 | The name's text before the first space, or `Creator` when the user or the name is missing or that text is empty; never empty |
| `Dashboard.DashboardView` | app/dashboard/dashboard-client.tsx:105-217 | The greeting is the session user's first name; the total is the number of courses, the published and draft counts are the sizes of the two partitions, and total = published + drafts; the empty state is shown iff there are no courses; one card per course, with the Draft badge iff unpublished, its link and its lesson label |
| `Faq.Toggled` | components/FAQ.tsx:50 | A click closes the item if it was the open one, otherwise opens it (closing the previous one) |
| `Faq.ToggleTwice` | components/FAQ.tsx:50 | Two clicks on the same item from all-closed return to all-closed |
| `Faq.PanelShownIff` | components/FAQ.tsx:66 | `Panels`: the answer panel of item i is rendered iff i is the open index |
| `Faq.PanelCount` | components/FAQ.tsx:40-66 | Exactly one panel is rendered when an item is open, none otherwise |
| `Faq.Accordion.constructor` | components/FAQ.tsx:8 | Initially no item is open |
| `Faq.Accordion.Click` | components/FAQ.tsx:50 | The new open index is the toggle of the old one; it stays within the six items |
| `Faq.Accordion.ShownPanels` | components/FAQ.tsx:40-66 | The rendered panels: one per item, shown iff open, at most one |
| `LearningPaths.InitialCards` | components/InteractiveFeatures.tsx:200-222 | Three cards with distinct ids |
| `LearningPaths.RotateRightAt` | components/InteractiveFeatures.tsx:227-228 | `RotateRight`: one tick puts the last card first and shifts the rest back by one; no card is lost or added |
| `LearningPaths.RotateKeepsIdsDistinct` | components/InteractiveFeatures.tsx:227-228 | Rotation keeps the card ids distinct |
| `LearningPaths.RotateTimesShape` | components/InteractiveFeatures.tsx:228 | After k ticks the last k cards stand in front, in order |
| `LearningPaths.FullTurn` | components/InteractiveFeatures.tsx:228 | As many ticks as cards restore the original order |
| `LearningPaths.ZIndexOrder` | components/InteractiveFeatures.tsx:257 | `ZIndex`, the stacking order `length - index`, is distinct per position, positive, and highest for the front card |
| `LearningPaths.RotatedCopy` | components/InteractiveFeatures.tsx:226-229 | A fresh array holding the rotation of the previous one, which is left untouched |
| `LearningPaths.LearningPathsSection.constructor` | components/InteractiveFeatures.tsx:200-222 | The stack starts as the three initial cards |
| `LearningPaths.LearningPathsSection.Tick` | components/InteractiveFeatures.tsx:225-230 | The state becomes a fresh rotated copy; the old array is unchanged; the initial stack is kept; the stack stays the initial one turned `ticks mod 3` times, with distinct ids |

## Findings

| source | as written | input that shows it | evidently intended | confidence | as-written member | corrected member |
|---|---|---|---|---|---|---|
| components/language-learning-selector.tsx:80 | `pathname.replace("/" + locale, "")` cuts the first `/<locale>` anywhere in the path. With the "as-needed" prefix policy, default-locale paths carry no prefix, so that text can be the start of an ordinary segment | locale `en`, pathname `/entry`, switch to `he`: the target is `/hetry` | strip `/<locale>` only when it is the whole first segment, giving `/he/entry` | not executed; medium (relies on the pathname hook returning the unprefixed browser path for the default locale); latent in the current pages, since the selector is rendered only on the locale home page (app/[locale]/page.tsx:175), whose pathnames `/` and `/he` are not mangled | `LanguageSelector.SwitchTargetMangles` | `LanguageSelector.SegmentSwitchKeepsEntry` |

## Left out

- The cookie-checking access gate (redirect to the password page, 401 for APIs) is not in any of the modelled files; `middleware.ts` only sets up the locale middleware, so no gate is modelled.
- How the locale middleware itself resolves, redirects or rewrites (library code under the "as-needed" policy) is not modelled: only its configuration and its path matcher are.
- Timing: the comparison's timing behaviour cannot be expressed; only its result is modelled.
- The `Set-Cookie` header text produced by `serialize` is not modelled; the cookie is its attribute record.
- SiteAccess.Handler: the source sets no `Allow` header on its 405 and no `WWW-Authenticate` header on its 401, so the response model has no header fields besides the cookie.
- SiteAccess.Handler: a `password` that is a JSON non-string (a number, an object) and a missing request body are not modelled; the field is an optional string.
- Strings are sequences of Unicode code points, while JavaScript strings are sequences of UTF-16 code units: lengths and indices here count code points, and lone surrogates are not modelled. No modelled result depends on the difference: every string constant of the core lies in the Basic Multilingual Plane, and the password comparison is string equality under either reading.
- Decimal.Show: a JavaScript number holds integers exactly only up to 2^53 - 1 and prints in exponent notation from 10^21 on; the model prints every natural number as plain digits and assumes lesson counts and durations stay far below those bounds.
- CoursesPage.DurationParts: durations are whole seconds; `Math.floor` on a fractional video duration is not covered.
- The database queries that load courses, lessons and users, the session provider, `signOut`, and `router.push` (the model returns the URL that would be pushed) are I/O.
- The `setInterval` timer behind the card stack is not modelled; one call of `Tick` is one timer tick. The card offsets and scale are floating point and are left out; only the stacking order is modelled.
- All rendering, animation, styling and static copy is left out.
