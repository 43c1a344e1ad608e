# Portfolio page rules, verified

A Dafny model of the rules in `script.js`, the script of a one-page
portfolio. The page loads a GitHub account's public repositories and shows
three things built from them: project cards, a profile insights panel and a
language breakdown. It also animates sections in as they scroll into view,
and it highlights the navigation link of the section being read.

The model leaves out the DOM and the network. What remains is the logic that
decides what the page shows:

- **Curation** (`curation.dfy`, on top of `stable_sort.dfy`). Forks and
  archived repositories are dropped. The rest are ranked by star count and
  then by update time, both descending; a missing star count reads as 0.
  The list is cut to the display limit from `data-github-limit`, which falls
  back to 6 unless `parseInt` gives a positive finite number. `parseInt` is
  modelled as ECMAScript specifies it: leading white space, an optional
  sign, the longest run of digits, NaN without digits, and Infinity beyond
  the largest double. The sort is a stable insertion sort, matching the
  stability that `Array.prototype.sort` guarantees.
- **Language breakdown** (`language_stats.dfy`). The `reduce` that fills the
  `acc` dictionary is a method with a loop (`Tally`). The whole panel is
  computed step by step in `RenderLanguageStats`, which is proved equal to
  the function `Panel`. Each share is taken against the sum of the counts of
  the six languages kept, not against every repository with a language. The
  rounded shares are therefore not bounded by 100: six languages with equal
  counts show 17% each.
- **Insights** (`insights.dfy`): the star total, the latest push time and
  the profile counters, with their `??` fallbacks.
- **Scroll reveal** (`reveal.dfy`). `RevealScheduler` owns the page-wide
  `revealIndex` counter. `RevealItem` is a node with its ready mark,
  `--delay`, classes and observed flag. `Register` is the
  `registerRevealItems` loop.
- **Active navigation** (`nav.dfy`). `SelectActive` is the selection loop.
  `MarkActiveNav` toggles the `active` class on each `NavLink` object.
- **Validators** (`validators.dfy`, on top of `text.dfy`). The "Live" link
  rule is modelled on `String.prototype.trim` with the ECMAScript white
  space set and on the pattern `/^https?:\/\//i`. The configured-account
  rule checks for an empty name and for the `your_github_username`
  placeholder.
- **Loading** (`projects.dfy`). `loadPublicProjects` is modelled as a choice
  among five outcomes. Its inputs are whether the page has the panel, the
  two attributes, and what the requests returned.

Timestamps are whole numbers. A missing or `null` field is `None`.

## Model

| member | source | states |
|---|---|---|
| StableSort.Sort | script.js:297-301 | the result is sorted in descending key order and is a permutation of the input |
| StableSort.SortStable | script.js:297-301 | elements with equal keys keep their input order |
| StableSort.TakeSorted | script.js:302 | a prefix of a sorted list is sorted and is a sub-multiset of it |
| StableSort.DroppedRankNoHigher | script.js:302 | nothing a prefix drops outranks anything it keeps |
| Curation.DigitPrefix | script.js:21 | the digits `parseInt` reads are the longest prefix of decimal digits |
| Curation.ParseIntReadsDigits | script.js:21 | `parseInt` reads a digit run with no sign, a `+` or a `-` before it, after any white space, whatever non-digit text follows; only `-` negates |
| Curation.ParseIntReadsDecimal | script.js:21 | `parseInt` reads back the decimal spelling of every integer below the overflow bound |
| Curation.MissingLimitIsDefault | script.js:21 | a missing or empty limit attribute gives the limit 6 |
| Curation.NumericLimit | script.js:302 | a numeric attribute, unsigned or with `+`, is the limit when positive; zero and `-` numbers give 6 |
| Curation.NonNumericLimitIsDefault | script.js:21 | an attribute with no digits after its white space and sign gives the limit 6 |
| Curation.EffectiveLimit | script.js:302 | the limit is positive, and it equals the parsed number exactly when that is finite and positive, else 6 |
| Curation.Eligibles | script.js:296 | each repository occurs in the filtered list as often as in the input if it is neither a fork nor archived, else never |
| Curation.RankedPrefix | script.js:295-301 | every prefix of the ranked list holds eligible input repositories, ordered by stars and then by update time |
| Curation.Curate | script.js:295-302 | the cards number min(eligible count, limit); each is eligible and comes from the input; none is repeated beyond its input count; stars descend, and update time descends among equal stars |
| Curation.CurateKeepsTheTop | script.js:297-302 | no eligible repository left out ranks above one that is shown |
| Curation.CurateKeepsTieOrder | script.js:297-302 | cards that tie on stars and update time keep their API order |
| LanguageStats.FirstSeenHoldsCountedLanguages | script.js:121-126 | a language is a key of the totals exactly when some repository counts under it; the empty language never is |
| LanguageStats.FirstSeenDistinct | script.js:121-128 | each language appears once among the entries |
| LanguageStats.Tally | script.js:121-126 | the dictionary's keys, in insertion order, are the counted languages, each mapped to its number of repositories |
| LanguageStats.CountsAddUp | script.js:121-126 | the counts of all keys add up to the number of repositories that have a language |
| LanguageStats.EntriesAddUp | script.js:121-129 | the counts of the sorted entries add up to the number of repositories that have a language |
| LanguageStats.TopLanguagesFromTotals | script.js:128-130 | the ranking is sorted by count and is drawn from the entries |
| LanguageStats.TopLanguagesAreCounts | script.js:121-130 | at most six entries (as many as there are languages, up to six); counts descend; every language is non-empty with its true positive count |
| LanguageStats.TopLanguagesAreTheMostUsed | script.js:128-130 | a language left out of the ranking has no more repositories than any language in it |
| LanguageStats.TopLanguagesKeepTieOrder | script.js:129 | languages with equal counts keep their first-seen order |
| LanguageStats.NoLanguagesIffNoneCounted | script.js:132-135 | the "no language data" note shows exactly when no repository has a language |
| LanguageStats.SumCountsPermutation | script.js:137 | the sum of counts does not depend on the order of the entries |
| LanguageStats.Percent | script.js:147 | the share is the integer nearest to 100·count/total, halves rounded up |
| LanguageStats.PercentInRange | script.js:147 | a share of a part of the total lies between 0 and 100 |
| LanguageStats.DenominatorCountsKeptLanguages | script.js:137 | the denominator equals the number of repositories with a language when there are at most six languages, and is smaller when there are more |
| LanguageStats.PanelShares | script.js:137-147 | each row shows a kept language, its count and its share of the kept counts, between 0 and 100 |
| LanguageStats.SharesSumNearHundred | script.js:137-147 | the shares add up to 100 within half a point per row |
| LanguageStats.EqualSharesOverflow | script.js:147 | six languages with equal counts get 17% each, 102% in all |
| LanguageStats.RenderLanguageStats | script.js:121-147 | the tally-rank-share steps produce exactly the panel `Panel` specifies |
| Insights.TotalStarsAppend | script.js:181-184 | the total of two concatenated lists is the sum of their totals |
| Insights.TotalStarsPermutation | script.js:181-184 | the star total does not depend on the order of the repositories |
| Insights.TotalStarsBounds | script.js:181-184 | with non-negative counts, each repository's count, a missing one read as 0, lies between 0 and the total |
| Insights.PushTimesOfRepos | script.js:185-187 | the present push times are exactly those of the repositories that have one |
| Insights.NewestFirst | script.js:188 | the head of the newest-first sort is one of the times and no time is later |
| Insights.LatestPushIsNewest | script.js:185-188 | the latest push is absent exactly when no repository has a push time; otherwise it is one of them and no push time is later |
| Insights.InsightsFallbacks | script.js:180-192 | `public_repos` when present (even 0) and else the list length; follower and following counts as given when present (even 0) and 0 when missing; the star total of the list; the latest push absent exactly when no repository has one, and otherwise one of the push times with none later |
| Reveal.DelayMs | script.js:37 | the delay is at most 540 ms |
| Reveal.DelaySchedule | script.js:37 | the delay grows by 90 ms per registration up to 540 ms and stays there |
| Reveal.PatternCycles | script.js:39-41 | the entrance classes cycle none, left, right |
| Reveal.Registered | script.js:37-44 | a registered item is marked ready and observed |
| Reveal.RegisteredState | script.js:37-44 | registration as number n sets a delay of at most 540 ms and adds the left class, the right class or neither as n % 3 is 1, 2 or 0 |
| Reveal.RevealItem.MarkRegistered | script.js:37-44 | the item's new state is its registered state for the given number |
| Reveal.PendingCount | script.js:35 | the number of items to register among the first k is at most k |
| Reveal.RevealScheduler.constructor | script.js:32 | the counter starts at 0 |
| Reveal.RevealScheduler.Visit | script.js:34-45 | an element not yet ready takes the current counter value and the counter advances by one; any other item is untouched and the counter stays put |
| Reveal.RevealScheduler.Register | script.js:33-47 | the counter advances by the number of items to register; the i-th such item is registered with the counter's old value plus the number before it; other items are unchanged; afterwards every element is ready |
| Reveal.NothingPendingWhenAllReady | script.js:35 | when every element is ready nothing registers, so registering the same items again changes nothing |
| Reveal.AllPendingWhenNoneReady | script.js:34-45 | when no item is ready (all elements), every item registers |
| Reveal.PendingCountIncreases | script.js:45 | items that register receive distinct counter values, increasing with their position |
| Nav.SectionsOf | script.js:51-57 | no more sections than links; every section is selected by some link's `#` target and every selected element is a section |
| Nav.SectionsOfOne | script.js:52-56 | a link gives the element its `#` target selects, or nothing |
| Nav.SectionsOfAppend | script.js:51-57 | the sections of two runs of links are those of the first followed by those of the second, so sections follow link order, at most one per link |
| Nav.LastReached | script.js:65-69 | the index found is a reached section with no later section reached, or none is reached |
| Nav.ActiveIdIsLastReached | script.js:63-69 | the active id is that of the last section the anchor reached, or the first section's when none is reached |
| Nav.ActiveIdInPageOrder | script.js:63-69 | with sections in page order, the section just before the first unreached one is active |
| Nav.SelectActive | script.js:62-69 | the loop computes the active id |
| Nav.NavLink.ToggleActive | script.js:73 | the link has the `active` class exactly when asked to, and its other classes are unchanged |
| Nav.MarkActiveNav | script.js:59-75 | with no sections or no links nothing changes; otherwise exactly the links pointing at the active section are active; other classes are unchanged |
| Text.TrimIsSlice | script.js:235 | `trim` keeps a contiguous slice of the input |
| Text.TrimEndsWithNonSpace | script.js:235 | what `trim` keeps is empty or starts and ends with a non-space |
| Text.TrimEmptyIffBlank | script.js:20 | `trim` gives the empty string exactly for white space only |
| Text.TrimIdempotent | script.js:235 | trimming twice is trimming once |
| Text.LowerAsciiString | script.js:252 | lower-casing maps each character, changing only the ASCII capitals |
| Validators.MatchesHttpSchemeIff | script.js:236 | the pattern accepts exactly the strings that start with `http://` or `https://` in any letter case |
| Validators.LiveLink | script.js:235-236 | a link target is the trimmed homepage of a string homepage |
| Validators.LiveLinkIff | script.js:235-236 | the card gets a "Live" link exactly when the trimmed homepage string starts with `http://` or `https://` in any case; the target has no surrounding white space |
| Validators.LiveLinkIdempotent | script.js:235-238 | a link target passes the check again unchanged |
| Validators.ConfiguredUsername | script.js:20 | the account used is the trimmed attribute |
| Validators.ConfiguredUsernameIff | script.js:252 | no account is used exactly when the attribute is missing or all white space, or when trimmed it spells `your_github_username` in any letter case |
| Validators.ConfiguredUsernameTrimmed | script.js:20 | a configured account is non-empty with no white space at either end |
| Projects.LoadPublicProjects | script.js:249-323 | when cards show, there are between 1 and the effective limit of them |
| Projects.CurateEmptyIff | script.js:304-308 | there are no cards exactly when no repository is eligible |
| Projects.LoadOutcomes | script.js:249-323 | each outcome happens exactly under its condition (no panel, no account, failed request, nothing eligible, cards); with loaded data the metrics, language panel and cards are those of the fetched lists |
| Projects.NoAccountNoRequest | script.js:252-256 | without an account the outcome does not depend on what the requests would return |

## Left out

- Requests: the two `fetch` calls, `Promise.all` and `json()` (script.js:264-287) are asynchronous I/O, modelled as a success carrying the profile and repositories, or a failure.
- Projects.LoadPublicProjects: an exception raised after the data loaded is not modelled; nothing in the modelled rules throws on well-formed data.
- The DOM: building the cards, rows and text (script.js:138-153, 157-178, 199-233, 237-247, 253-262, 305-321) is presentation. Only the decisions behind it are kept: the rows shown, the cards chosen, whether a "Live" link appears, and which note shows.
- The profile link, avatar, name, bio, location, company and website texts (script.js:157-178, 258-260, 291-293) are display text with `||` fallbacks and no further rule.
- The `IntersectionObserver` callback that toggles `visible` (script.js:23-30) and the observer itself are browser services; `observe` is modelled as the item's `observed` flag.
- Scroll and resize listeners, `requestAnimationFrame` and the parallax transforms (script.js:77-97) are event-loop plumbing and floating-point cosmetics.
- The footer year and `formatDate` (script.js:99-112) depend on the clock and the locale. Timestamps are whole numbers, so `Date` parsing, invalid dates and their NaN comparisons are not modelled.
- Nav.MarkActiveNav: the reading anchor `scrollY + innerHeight * 0.35` (script.js:62) is a parameter, a real number, because it reads the viewport.
- Nav.SectionsOf: `document.querySelector` is a parameter; a malformed selector, which makes it throw, is not modelled.
- LanguageStats.Percent: `Math.round((count / total) * 100)` is the exact rounding of the rational share, halves rounded up; the rounding of the double quotient is not modelled. Where the exact share is a half the two can differ: for 23 of 40 (and 46 of 80) the double product is just below 57.5, so the page shows 57% where the model gives 58%.
- Curation.ParseInt: digits beyond double precision round in JavaScript; the model keeps the exact integer below the overflow bound.
- The missing-`languageStats` guard (script.js:119) only skips drawing; the panel value is computed regardless.
- Object keys: languages named like `Object.prototype` members, and the integer-like keys that `Object.entries` orders first, are not modelled; keys are kept in insertion order.
- `pushed_at` values that are empty strings are dropped by `filter(Boolean)`; the model writes them as `None`.
- Reveal.RevealScheduler.Register: requires the items to be distinct. Both callers pass distinct nodes: `querySelectorAll` (script.js:49) and freshly created cards (script.js:312). A list that repeats a node is not modelled.
- Projects.LoadPublicProjects: registering the new cards for the reveal animation (script.js:310-312), which advances the shared reveal counter by the number of cards, is not part of the `Showing` outcome; `Reveal.RevealScheduler.Register` models that step on its own.
- Validators.ConfiguredUsername: `toLowerCase` is modelled as ASCII case folding. This decides the placeholder comparison exactly, since the only non-ASCII characters that lower-case into ASCII are the Kelvin sign (to `k`, absent from the placeholder) and the dotted capital I (to two characters).
- Caching, request timeouts and rate-limit handling do not occur in `script.js` and are not part of this model.
