# CalVerLex tag derivation in Dafny

CalVerLex is a GitHub Action that issues calendar-versioned tags of the form
`YYWWD` + lexical suffix (for example `25216a`: year 25, ISO week 21,
weekday 6, first tag of the day). This project models the part of the
action that decides which tag to issue, and proves the laws that decision
relies on.

- **Suffix codec** (`suffix_codec.dfy`). The suffix is a bijective base-26
  numeral: `a`..`z` are the digits 1..26 and there is no zero digit.
  - `SuffixToNumber` and `NumberToSuffix` are the action's two loops,
    proved against the functions `Value` and `Encode`.
  - `Value` and `Encode` are proved mutually inverse, hence injective.
  - Ordering by value puts every shorter suffix before every longer one;
    suffixes of one length sort alphabetically exactly as their values do.
- **Version parser** (`version_format.dfy`). `ParseVersion` is a
  hand-written recogniser for `^(\d{5,7})([a-z]+)$`. It is proved to succeed
  exactly on the strings that pattern describes and to split them into
  prefix and suffix.
- **Date prefix** (`decimal.dfy`, `calendar_prefix.dfy`). `String(n)` and
  `pad(num, size)` are modelled over natural numbers. The prefix is
  assembled from an integer year, ISO week and ISO weekday. `getUTCDay() || 7`
  and the week rounding are modelled over whole day counts.
- **Next-tag policy** (`tag_sequencer.dfy`).
  - Explicit-prior mode: the current version is parsed; today's prefix
    increments the suffix, any other prefix restarts at `a`, and a parse
    failure is wrapped.
  - The endpoint loop is modelled as a sequence of attempt outcomes, where
    `None` is an endpoint that failed or did not answer with an array. The
    first listing wins.
  - Candidate-scan mode takes one more than the largest suffix among the
    names of today's sequence.
  - When no endpoint answers, the tag falls back to `a`.
  - `GenerateTag` is one whole run.
- **Unit-test assertions** (`unit_examples.dfy`). The concrete cases of
  `test/unit-tests.js`, stated about the model. That file repeats `pad`,
  `suffixToNumber`, `numberToSuffix`, `parseVersion` and the prefix
  computation verbatim (test/unit-tests.js:27-72). The same members model
  those copies.

Errors are the `Error` values of `outcomes.dfy`
(`InvalidSuffixCharacter`, `InvalidVersionFormat`,
`FailedToParseCurrentVersion`). Each carries the offending data in place of
the formatted message text.

## Model

| member | source | states |
|---|---|---|
| Decimal.DecimalString | src/index.js:23 | `toString()` / `String(n)` of a natural number is a non-empty string of digits; DecimalStringValue and DecimalStringLength state its value and length |
| Decimal.DecimalStringValue | src/index.js:23 | `num.toString()` reads back, digit by digit, as `num` |
| Decimal.DecimalStringLength | src/index.js:23 | a number below 10^k and at least 10^(k-1) is written with exactly k digits |
| Decimal.Pad | src/index.js:22-24 | `pad(num, size)` is all digits; its length is the larger of `size` and the digit count (never truncated); it ends with `num`'s digits; everything before them is `'0'` |
| Decimal.PadValue | src/index.js:22-24 | padding never changes the number the digits denote |
| SuffixCodec.LetterValue | src/index.js:58 | `charCodeAt(0) - 96` maps a lowercase letter to a digit in 1..26 |
| SuffixCodec.LetterFor | src/index.js:68 | `fromCharCode(d + 97)` is the lowercase letter whose digit is d + 1 |
| SuffixCodec.Value | src/index.js:52-61 | the decoded number is 0 exactly for the empty suffix, so every non-empty suffix decodes to at least 1 |
| SuffixCodec.Encode | src/index.js:64-72 | the encoding is made only of `a`..`z` and is empty exactly for 0 |
| SuffixCodec.FirstInvalid | src/index.js:54-57 | the position of the first character outside `a`..`z`, everything before it being a letter |
| SuffixCodec.FirstInvalidAt | src/index.js:54-57 | the character the left-to-right loop stops at is that first invalid one |
| SuffixCodec.SuffixToNumber | src/index.js:52-61 | the loop returns the bijective base-26 value of a lowercase suffix (0 for the empty one), and otherwise fails with `InvalidSuffixCharacter` naming the first non-letter |
| SuffixCodec.NumberToSuffix | src/index.js:64-72 | the loop returns `''` for num <= 0, and otherwise a non-empty lowercase suffix that decodes to num |
| SuffixCodec.AppendLetter | src/index.js:66-69 | one loop step: the encoding of n*26 + digit(c) is the encoding of n followed by c |
| SuffixCodec.ValueOfEncode | src/index.js:52-72 | decoding the encoding of n gives n back |
| SuffixCodec.EncodeOfValue | src/index.js:52-72 | encoding the decoded value of a lowercase suffix gives the suffix back |
| SuffixCodec.ValueInjective | src/index.js:52-61 | two suffixes with the same value are equal |
| SuffixCodec.EncodeInjective | src/index.js:64-72 | two numbers with the same encoding are equal |
| SuffixCodec.ValueWithinLength | src/index.js:52-61 | a k-letter suffix decodes to between `aa…a` and `zz…z` of length k |
| SuffixCodec.LengthsAdjoin | src/index.js:52-61 | the smallest (k+1)-letter value is one more than the largest k-letter value (`z`→`aa`, `zz`→`aaa`) |
| SuffixCodec.MaxOfLengthGrows | src/index.js:52-61 | the largest k-letter value grows with k |
| SuffixCodec.ShorterIsSmaller | src/index.js:52-61 | a shorter suffix always denotes a smaller number, so the suffix sequence never wraps |
| SuffixCodec.LexBefore | src/index.js:52-72 | JavaScript string order: a proper prefix comes first, otherwise the smaller character at the first difference; SameLengthOrder ties it to suffix values |
| SuffixCodec.LexBeforeSmaller | src/index.js:52-61 | of two suffixes of one length, the one that comes first alphabetically denotes the smaller number |
| SuffixCodec.SameLengthOrder | src/index.js:52-72 | for suffixes of one length, alphabetical order and numeric order coincide (both directions), so same-length tags of one day sort by sequence number |
| VersionFormat.MatchesVersionPattern | src/index.js:76 | the pattern `^(\d{5,7})([a-z]+)$` as an independent predicate; ParseVersion succeeds exactly when it holds |
| VersionFormat.LeadingDigits | src/index.js:76 | the length of the maximal run of digits a version starts with |
| VersionFormat.LeadingDigitsAt | src/index.js:76 | any digit run followed by a non-digit or the end is that maximal run |
| VersionFormat.ParseVersion | src/index.js:75-81 | succeeds iff the version is 5-7 ASCII digits followed by at least one lowercase letter; on success `prefix + suffix` is the version, the prefix is 5-7 digits and the suffix non-empty lowercase; otherwise fails with `InvalidVersionFormat(version)` |
| VersionFormat.ParseOfComposed | src/index.js:75-81 | a 5-7 digit prefix followed by a non-empty lowercase suffix parses back into exactly those parts |
| CalendarPrefix.IsoWeekday | src/index.js:44 | `getUTCDay() \|\| 7` is 1..7 and agrees with the JavaScript day modulo 7 (Sunday 0 becomes 7) |
| CalendarPrefix.WeekOfThursday | src/index.js:43 | the week is the ceiling of (days + 1) / 7: at least 1, and at most 53 within a year |
| CalendarPrefix.YearField | src/index.js:38 | the emitted year number never exceeds the year, and is below 100 in the 2-digit format |
| CalendarPrefix.DatePrefixAsWritten | src/index.js:38-46 | the prefix exactly as the action writes it (`String(year)` unpadded) is all digits |
| CalendarPrefix.DatePrefix | src/index.js:38-46 | the prefix with the 2-digit year padded is all digits |
| CalendarPrefix.YearTextShape | src/index.js:38 | the year field has 4 digits (format `4`, years 1000-9999) or 2 digits, and reads back as the year or the year modulo 100 |
| CalendarPrefix.TwoDigitField | src/index.js:46 | `pad(week, 2)` is two digits that read back as the week |
| CalendarPrefix.DatePrefixShape | src/index.js:38-46 | for weeks 1..53 and weekdays 1..7 the prefix is 5 digits (format `2`) or 7 digits (format `4`), and its year, week and weekday fields read back as the numbers put in |
| CalendarPrefix.SingleDigitFieldsPrefix | src/index.js:46 | with single-digit year, week and weekday the prefix is `0y0wd` |
| CalendarPrefix.TwoDigitYearPrefix | src/index.js:46 | with a two-digit year and a single-digit week and weekday the prefix is `yy0wd` |
| CalendarPrefix.DatePrefixAgreesWithAsWritten | src/index.js:38-46 | padding the year changes nothing for format `4` or when the year modulo 100 is 10..99 |
| TagSequencer.MatchesToday | src/index.js:165 | `^prefix[a-z]+$`: today's prefix followed by at least one lowercase letter; ComposedTag and MatchesTodayIffParsed characterise it |
| TagSequencer.EncodedTag | src/index.js:184-187 | today's prefix followed by `numberToSuffix(n)`, n >= 1, is a tag of today's sequence whose suffix decodes to n |
| TagSequencer.MatchesTodayIffParsed | src/index.js:165 | for a 5-7 digit prefix, a name matches today's pattern exactly when `parseVersion` (src/index.js:75-81) accepts it with today's prefix |
| TagSequencer.ComposedTag | src/index.js:165 | today's prefix plus a non-empty lowercase suffix matches `^prefix[a-z]+$` and is numbered by that suffix |
| TagSequencer.MaxMatching | src/index.js:166-180 | `maxNum` is 0 exactly when no listed name matches today's pattern; MaxMatchingBound and MaxMatchingAttained make it the largest matching suffix number |
| TagSequencer.Matching | src/index.js:167-172 | `matchingTags` is no longer than the listing; MatchingMembers states its members |
| TagSequencer.MaxMatchingBound | src/index.js:166-180 | `maxNum` is at least the suffix number of every name matching today's pattern |
| TagSequencer.MaxMatchingAttained | src/index.js:166-180 | `maxNum` is 0 or the suffix number of some matching name |
| TagSequencer.MatchingMembers | src/index.js:167-172 | `matchingTags` holds exactly the listed names that match today's pattern |
| TagSequencer.NextFromCandidates | src/index.js:184-187 | the scanned tag `prefix + numberToSuffix(maxNum + 1)` is a tag of today's sequence |
| TagSequencer.ScannedTagIsTodays | src/index.js:184-187 | the scanned tag's suffix decodes to `maxNum + 1` |
| TagSequencer.NextExceedsEveryMatch | src/index.js:164-187 | the scanned tag's suffix number is strictly greater than that of every matching name |
| TagSequencer.SameMatchesSameMax | src/index.js:164-180 | two listings with the same matching names give the same `maxNum` |
| TagSequencer.NonMatchingIgnored | src/index.js:164-187 | names that do not match today's pattern do not affect the scanned tag |
| TagSequencer.CandidateOrderIrrelevant | src/index.js:164-187 | the scanned tag depends only on which names are listed, not their order or repetition |
| TagSequencer.NoMatchStartsAtA | src/index.js:164-187 | with no matching name the scan issues today's prefix + `a` |
| TagSequencer.ScanSeesIssuedTag | src/index.js:164-187 | once the scanned tag is listed, the next scan issues the tag numbered one more |
| TagSequencer.NextAfterPrior | src/index.js:86-110 | the explicit-prior policy fails exactly when the current version does not match the version pattern, then with `FailedToParseCurrentVersion(InvalidVersionFormat(version))`; every tag it issues is in today's sequence |
| TagSequencer.PriorSameDayTag | src/index.js:90-97 | a current version with today's prefix gives today's prefix + `numberToSuffix(suffixToNumber(suffix) + 1)` |
| TagSequencer.PriorSameDay | src/index.js:90-97 | that tag is in today's sequence and decodes to exactly one more than the current suffix |
| TagSequencer.PriorOtherDay | src/index.js:100-104 | a current version with another prefix gives today's prefix + `a` |
| TagSequencer.PriorMalformed | src/index.js:106-108 | a current version the parser rejects fails with `FailedToParseCurrentVersion(InvalidVersionFormat(version))` |
| TagSequencer.NextTagFromPrior | src/index.js:86-110 | the explicit-prior branch computes the explicit-prior policy `NextAfterPrior` |
| TagSequencer.KeepNamed | src/index.js:143-145 | `.filter(item => item.name)` keeps exactly the non-empty names |
| TagSequencer.FirstListing | src/index.js:128-156 | the result is absent iff every endpoint failed; otherwise it is the listing of an endpoint all of whose predecessors failed |
| TagSequencer.LaterEndpointsNotConsulted | src/index.js:146-148 | once an endpoint has answered, appending further endpoints changes nothing |
| TagSequencer.FailedEndpointsSkipped | src/index.js:128-156 | endpoints that failed are passed over |
| TagSequencer.FetchVersions | src/index.js:125-156 | the endpoint loop reports success iff some endpoint answered, and then holds that first listing's non-empty names |
| TagSequencer.ScanStep | src/index.js:169-180 | one loop step: appending a name updates `maxNum` and `matchingTags` exactly as the loop body does |
| TagSequencer.ScanCandidates | src/index.js:164-187 | the scan loop returns today's prefix + the encoding of one more than the largest matching suffix number, and the list of matching names |
| TagSequencer.TagFromListing | src/index.js:158-187 | the tag issued from the endpoint outcome (fallback `a` or the scan) is always a tag of today's sequence |
| TagSequencer.FallbackEqualsEmptyScan | src/index.js:158-162 | no answering endpoint gives the same tag as a listing with no matching name: today's prefix + `a` |
| TagSequencer.NextTag | src/index.js:86-187 | a non-empty current version selects explicit-prior mode, an empty one the scan; the run fails exactly when a current version is supplied and does not match the version pattern |
| TagSequencer.GenerateTag | src/index.js:83-195 | one run issues the tag of the next-tag policy for the (padded) date prefix, current version and endpoint outcomes |
| TagSequencer.IssuedTagMatchesToday | src/index.js:83-187 | every tag a run issues matches `^prefix[a-z]+$` for today's prefix |
| TagSequencer.CurrentVersionOfToday | src/index.js:86-99 | for a 5-7 digit prefix, any tag of today's sequence supplied as the current version yields the tag numbered one more |
| TagSequencer.RerunIncrements | src/index.js:42-110 | feeding an issued tag back on the same day succeeds and increments the suffix number by one, whichever mode issued it |
| TagSequencer.ShortYearTagRejected | src/index.js:38-46 | as written, 2105 (week 3, Monday) gives prefix `5031` and tag `5031a`, and that tag is rejected as the current version |
| TagSequencer.PaddedYearPrefix | src/index.js:38-46 | with the year padded, the same date gives `05031` |
| TagSequencer.PaddedYearTagAccepted | src/index.js:86-99 | `05031a` supplied back on that day gives `05031b` |
| UnitExamples.PadExamples | test/unit-tests.js:106-111 | `pad(1,2)='01'`, `pad(12,2)='12'`, `pad(1,3)='001'`, `pad(123,2)='123'` |
| UnitExamples.SuffixToNumberExamples | test/unit-tests.js:114-132 | `a`→1, `b`→2, `z`→26 (and `c`→3), `aa`→27, `ab`→28, `az`→52, `ba`→53, `zz`→702, `aaa`→703, `abc`→731, `zzz`→18278 |
| UnitExamples.SuffixToNumberRejects | test/unit-tests.js:134-138 | `A`, `1` and `a1` are rejected, naming `A`, `1` and `1` |
| UnitExamples.OneLetterEncodings | test/unit-tests.js:141-145 | 1→`a`, 2→`b`, 26→`z` (and 3→`c`) |
| UnitExamples.TwoLetterEncodings | test/unit-tests.js:147-153 | 27→`aa`, 28→`ab`, 52→`az`, 53→`ba`, 702→`zz` |
| UnitExamples.ThreeLetterEncodings | test/unit-tests.js:155-159 | 703→`aaa`, 731→`abc` |
| UnitExamples.FourLetterBoundary | test/unit-tests.js:220-239 | 18278→`zzz`, 18279→`aaaa` |
| UnitExamples.RoundTripExamples | test/unit-tests.js:162-170 | each suffix of the bidirectional test survives decode-then-encode; 100000 surviving encode-then-decode (test/unit-tests.js:251-253) is stated too |
| UnitExamples.ParseAcceptsFiveDigits | test/unit-tests.js:174 | `25216a` splits into `25216` and `a` |
| UnitExamples.ParseAcceptsSevenDigits | test/unit-tests.js:175 | `2025216z` splits into `2025216` and `z` |
| UnitExamples.ParseAcceptsLongSuffixes | test/unit-tests.js:176-177 | `24011aa` and `25216abc` split after the digits |
| UnitExamples.ParseVersionRejects | test/unit-tests.js:180-185 | `25216`, `25216A` and `''` are rejected with `InvalidVersionFormat` |
| UnitExamples.ParseVersionRejectsMixed | test/unit-tests.js:183-184 | `25216a1` and `abc216a` are rejected with `InvalidVersionFormat` |
| UnitExamples.RejectedAfterDigits | src/index.js:76-79 | a version whose maximal digit run is outside 5..7, or has nothing or a non-letter after it, is rejected |
| UnitExamples.WeekThreeOf25 | test/unit-tests.js:200-217 | in ISO week 3 of a year ending in 25, the 2-digit prefix is `2503` + weekday |
| UnitExamples.WeekdaySweepExamples | test/unit-tests.js:199-217 | the Thursday of 2025-01-13..19 (day 15) lies in week 3; Sunday's day 0 maps to 7 and Monday..Saturday keep 1..6; the prefixes are `25031`..`25037` |
| UnitExamples.FourDigitYearExample | test/unit-tests.js:189-197 | the 4-digit prefix of Monday 2025-01-13 is `2025031` |
| UnitExamples.WeekOneOf24 | test/unit-tests.js:268-275 | a date input stamped with calendar year ending in 24 and ISO week 1 gives the 2-digit prefix `2401` + weekday |
| UnitExamples.YearBoundaryExample | test/unit-tests.js:268-275 | Monday 2024-12-30 and Tuesday 2024-12-31 (ISO week 1, calendar year 2024) give the five-digit prefixes `24011` and `24012` |
| UnitExamples.PriorSameDayExample | src/index.js:92-97 | current version `25216a` on day `25216` gives `25216b` |
| UnitExamples.PriorRolloverExample | src/index.js:100-104 | current version `25210z` on day `25216` gives `25216a` |
| UnitExamples.ScanExample | src/index.js:164-187 | scanning `25216a`, `25216c`, `25216b` and an unrelated name on day `25216` gives `25216d` |

## Left out

- `Date`-library arithmetic (src/index.js:35-43): the model takes the year, ISO week and ISO weekday as integers. It does not model that `getFullYear()` reads local time, or that the calendar year (not the ISO week-year) is emitted. `WeekOfThursday` idealises the week formula over a whole day count. The source divides milliseconds by `864e5` and rounds a fractional value up, so a nonzero time of day can move a Thursday on day 7, 14, … of the year one week later.
- The calendar year and the ISO week are combined as the action combines them, without reconciling them: the days of ISO week 1 that fall in calendar 2025 (2025-01-01..05) are stamped `2501` while 2024-12-30 and -31 are stamped `2401`, and Wednesday 2025-01-01 (week 1) and Wednesday 2025-12-31 (ISO week 1 of 2026) both give `25013`. The model takes the three numbers as given, so this mapping from dates to inputs is not captured.
- Years below 0 or from 10000: format `4` is proved 7 digits only for years 1000-9999.
- GitHub API access (src/index.js:114-156): URL building, `fetch`, headers, HTTP status and JSON parsing, and the `item.name` / `item.ref` mapping are network I/O. Each endpoint is an `Option` of the names it listed. `None` stands for an endpoint that failed, threw or did not return an array.
- The owner/repo split check, environment inputs, token check, logging, `::set-output` and `process.exit` (src/index.js:7-20, 26-32, 114-117, 197-200): action glue with no bearing on which tag is chosen.
- Error messages: modelled as structured `Error` values, not formatted strings.
- The `catch` around `suffixToNumber` in the scan (src/index.js:173-178) is modelled but unreachable: the pattern admits only lowercase suffixes.
- The test runner (test/unit-tests.js:8-24, 75-103, 277), the timing check (test/unit-tests.js:244-249) and test/run-all-tests.js: test infrastructure.
- Concurrent runs issuing the same tag: the action has no shared state to model.
- TagSequencer.GenerateTag: uses the corrected, year-padded prefix rather than the prefix as written (see Findings). CalendarPrefix.DatePrefixAsWritten keeps the as-written form.

## Findings

| source | as written | input that shows it | evidently intended | confidence | as-written member | corrected member |
|---|---|---|---|---|---|---|
| src/index.js:38-46 | the 2-digit year is `String(yearFull % 100)`, so years ending in 00..09 give a single digit and a 4-digit prefix | any date in 2105 (or 2100-2109), e.g. week 3, Monday: the prefix is `5031` and the issued tag `5031a`; supplying `5031a` as the current version fails, because parseVersion needs 5-7 digits | a 2-digit year padded to two digits (`05031`), so every issued tag parses back and increments | not executed | TagSequencer.ShortYearTagRejected | CalendarPrefix.DatePrefix, with CalendarPrefix.DatePrefixShape, TagSequencer.RerunIncrements and TagSequencer.PaddedYearTagAccepted |
