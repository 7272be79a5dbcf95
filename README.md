# Four Pillars of Destiny (四柱推命) — a verified model

This project models, in Dafny, the core of a small web application that computes a
Four Pillars chart from a birth date and hour, tallies the five elements of the chart,
interprets the tally and turns a birth date into a share code and back.

The model covers these parts:

- **Cycles** (`cycles.dfy`): the ten heavenly stems 甲…癸, the twelve earthly branches 子…亥
  and the five elements 木 火 土 金 水.
  - It gives the element of each stem and each branch.
  - It models JavaScript's `indexOf` on the symbol tables and proves that it inverts the
    table lookup.
  - It models the `((x % n) + n) % n` normalisation with JavaScript's truncating `%` and
    proves that it equals the floored remainder.
- **Calendar** (`calendar.dfy`): the day count behind `new Date(year, month - 1, day)`.
  - This is the proleptic Gregorian calendar, with month and day overflow rolling into the
    next month or year.
  - Years 0–99 are read as 1900–1999.
- **Pillars** (`pillars.dfy`): the year, month, day and hour pillars, the chart that
  assembles them, and their text form.
  - The year pillar is anchored at 1924 = 甲子, and the year changes at February 4.
  - The day pillar is anchored at 1900‑01‑01 = 辛丑.
  - The month stem comes from the year stem, and the hour stem from the day stem.
- **Tally** (`tally.dfy`): the result view's element counts. A loop over the four pillars
  adds one for each stem's element and one for each branch's element.
- **Interpretations** (`interpretations.dfy`):
  - the element balance: excess, balanced or lacking against the mean count;
  - the day‑stem personality table;
  - the advice lists;
  - the overall advice text.
- **ShareCode** (`share_code.dfy`): the `YYYYMMDD-HH` share code, including its encoding,
  its pattern and range‑checked decoding, and both round trips.
- **Wrappers** (`wrappers.dfy`): an `Option` type for decoding failures.

Stems and branches are represented by their positions in their cycles (`Stem = 0..9`,
`Branch = 0..11`). The symbol tables are kept as strings, and `StemBranchReadBack` shows
that the source's symbol‑based representation and the model's position‑based one carry
the same information.

Three behaviours of the code are reproduced as written:

- **The year boundary.** Counting the year from 1 January would give 庚午 for 1990‑01‑15.
  The code moves 1 January – 3 February to the previous year, so it gives 己巳.
  `ExampleChart` states the chart the code computes for 1990‑01‑15 08:00: 己巳 丙寅 丁未 甲辰.
- **Practical advice.** `analyzeElementBalance` attaches it to lacking elements only. It is
  never attached to excess or balanced elements.
- **Even months.** The month stem table produces an even stem for every month. So the month
  pillar is a proper sexagenary pair only in odd months. `MonthPillarParity` states it.

## Model

| member | source | states |
|---|---|---|
| Cycles.ElementIndex | lib/shichuu-suimei.ts:37 | the five elements are listed once each, in the order 木 火 土 金 水 |
| Cycles.IndexOf | lib/shichuu-suimei.ts:69 | `indexOf` gives the first position holding the symbol, or -1 exactly when the symbol is absent |
| Cycles.SymbolTablesDistinct | lib/shichuu-suimei.ts:7-34 | there are ten stems and twelve branches, with no symbol repeated |
| Cycles.IndexOfSymbol | lib/shichuu-suimei.ts:146 | in a table without repeats, `indexOf` of the i-th symbol is i |
| Cycles.StemIndexOfSymbol | lib/shichuu-suimei.ts:146 | `HEAVENLY_STEMS.indexOf` recovers a stem's position from its symbol |
| Cycles.BranchIndexOfSymbol | lib/shichuu-suimei.ts:81 | `EARTHLY_BRANCHES.indexOf` recovers a branch's position from its symbol |
| Cycles.StemToElement | lib/shichuu-suimei.ts:68-75 | the element of a stem is the element numbered position / 2 (each element has two stems) |
| Cycles.BranchToElement | lib/shichuu-suimei.ts:80-87 | a branch is Earth exactly when its position is 1 mod 3; every other branch has its season's element (亥子 water, 寅卯 wood, 巳午 fire, 申酉 metal) |
| Cycles.BranchElementShares | lib/shichuu-suimei.ts:80-87 | four branches are Earth and two branches carry each other element |
| Cycles.JsRem | lib/shichuu-suimei.ts:111-112 | JavaScript's `%` is strictly between -n and n, and agrees with the floored remainder on non-negative dividends |
| Cycles.CycleIndex | lib/shichuu-suimei.ts:115-116 | `((x % n) + n) % n` with JavaScript's `%` lies in 0..n-1 and equals the floored remainder of x, including for negative x |
| Cycles.JsRemNormalizes | lib/shichuu-suimei.ts:180-181 | the normalisation gives the floored remainder for every sign of x |
| Calendar.DaysInMonth | lib/shichuu-suimei.ts:167 | months have 28 to 31 days, and 29 days only in February of a leap year |
| Calendar.DateDayNumber | lib/shichuu-suimei.ts:166-167 | the day number of `new Date(year, month - 1, day)`: for a valid date from year 100 on, the start of its year plus the start of its month plus the days before it; a year in 0..99 counts as the same year of the 1900s |
| Calendar.DaysBeforeYearMonotone | lib/shichuu-suimei.ts:170 | a later year starts no earlier than an earlier one |
| Calendar.DayWithinYear | lib/shichuu-suimei.ts:167 | a valid date falls between the start of its year and the start of the next |
| Calendar.NextDay | lib/shichuu-suimei.ts:167 | the day after a valid calendar date is a valid calendar date |
| Calendar.DaysBeforeNextYear | lib/shichuu-suimei.ts:170 | consecutive years start 365 or 366 days apart, according to the leap-year rule |
| Calendar.MonthsFillYear | lib/shichuu-suimei.ts:170 | the twelve months add up to the length of the year |
| Calendar.DayOverflow | lib/shichuu-suimei.ts:167 | a day past the end of a month counts as a day of the next month, across the year end as well, as `Date` rolls it over |
| Calendar.NextDayNumber | lib/shichuu-suimei.ts:170 | consecutive calendar dates, leap days included, are exactly one day apart |
| Pillars.SexagenaryTerm | lib/shichuu-suimei.ts:176-181 | the k-th term of the sixty-term cycle pairs a stem and a branch of equal parity, and the cycle repeats every 60 terms |
| Pillars.CyclePosition | lib/shichuu-suimei.ts:176-181 | every pair of equal parity is exactly one of the sixty terms of the cycle: it occurs at one position in 0..59 and at no other |
| Pillars.SexagenaryUnique | lib/shichuu-suimei.ts:176-181 | two of the first sixty terms with the same stem and branch are the same term |
| Pillars.AdjustedYear | lib/shichuu-suimei.ts:98-105 | with month and day given, a date from 4 February on keeps its year and an earlier date falls in the year before; without them the year is kept |
| Pillars.YearStemBranch | lib/shichuu-suimei.ts:97-118 | the year pillar is the term (adjusted year − 1924) of the sixty-term cycle |
| Pillars.YearPillarAnchor | lib/shichuu-suimei.ts:107-108 | 1924 is 甲子 |
| Pillars.YearPillarOffset | lib/shichuu-suimei.ts:109-117 | the year stem is (year − 1924) mod 10 and the branch (year − 1924) mod 12, also for years before 1924 |
| Pillars.YearPillarPeriod | lib/shichuu-suimei.ts:109-117 | the year pillar repeats every 60 years |
| Pillars.YearPillarBoundary | lib/shichuu-suimei.ts:100-105 | a date takes the previous year's pillar exactly when it falls in January or on February 1–3 |
| Pillars.MonthStem | lib/shichuu-suimei.ts:150-152 | the start-stem table gives month stem = 2·(year stem + month) mod 10 |
| Pillars.MonthStemBranch | lib/shichuu-suimei.ts:128-158 | the month branch is (month + 1) mod 12, and the month stem comes from the year stem of the same date, February 4 boundary included |
| Pillars.MonthBranchOnlyFromMonth | lib/shichuu-suimei.ts:130-143 | the month branch does not depend on the year or the day |
| Pillars.MonthStemYearPairs | lib/shichuu-suimei.ts:149-151 | year stems five apart (甲己, 乙庚, …) give the same month stems |
| Pillars.MonthPillarParity | lib/shichuu-suimei.ts:150-156 | every month stem is even, so the month pillar is a sexagenary pair exactly in odd months |
| Pillars.DayStemBranch | lib/shichuu-suimei.ts:164-183 | the day pillar is the term 37 + (days since 1900-01-01) of the sixty-term cycle |
| Pillars.DaysSinceAnchorSign | lib/shichuu-suimei.ts:166-170 | the day count `DaysSinceAnchor` from 1900-01-01 of a valid date from year 100 on is negative exactly when the year is before 1900 |
| Pillars.TwoDigitYears | lib/shichuu-suimei.ts:97-183 | a year in 0..99 gets the day pillar of the same year in the 1900s, because `Date` reads it so, but the year pillar of the literal year, whose branch is four places behind |
| Pillars.DayPillarAnchor | lib/shichuu-suimei.ts:172-174 | 1900-01-01 is 辛丑 |
| Pillars.DayPillarPeriod | lib/shichuu-suimei.ts:176-181 | the day pillar repeats every 60 days |
| Pillars.DayPillarNextDay | lib/shichuu-suimei.ts:164-183 | from one calendar day to the next, the stem advances by one mod 10 and the branch by one mod 12, across month, year and leap-day boundaries |
| Pillars.DayPillarRollover | lib/shichuu-suimei.ts:167 | an overflowing day such as February 31, 1990 gets the pillar of the day it rolls over to (March 3) |
| Pillars.HourStem | lib/shichuu-suimei.ts:213-215 | the start-stem table gives hour stem = (2·day stem + hour branch) mod 10 |
| Pillars.HourBranch | lib/shichuu-suimei.ts:205-206 | the hour branch is the two-hour bucket b with 2b ≤ (hour + 1) mod 24 < 2b + 2, for every hour JavaScript's `%` gives a table entry for |
| Pillars.HourStemBranch | lib/shichuu-suimei.ts:188-221 | the hour pillar is the bucket branch, with the stem taken from the day stem of the same date |
| Pillars.HourPillarAtMidnight | lib/shichuu-suimei.ts:191 | 23:00 and 00:00 share the 子 hour and its pillar |
| Pillars.HourPillarIsSexagenary | lib/shichuu-suimei.ts:208-215 | the hour pillar is always a sexagenary pair |
| Pillars.CalculateFourPillars | lib/shichuu-suimei.ts:231-238 | a chart's pillars all come from the same birth data: the month stem follows the year stem, and the hour stem follows the day stem |
| Pillars.ChartSexagenary | lib/shichuu-suimei.ts:231-238 | the year, day and hour pillars are sexagenary pairs, and so is the month pillar exactly when the month is odd |
| Pillars.StemBranchToString | lib/shichuu-suimei.ts:243-245 | a pillar's text is two symbols, stem then branch |
| Pillars.StemBranchReadBack | lib/shichuu-suimei.ts:243-245 | `indexOf` on the symbol tables reads a pillar's text back to its stem and branch |
| Pillars.FourPillarsToString | lib/shichuu-suimei.ts:250-252 | the chart text is 11 characters: the four pillar texts, year first, separated by single spaces |
| Pillars.FourPillarsToStringInjective | lib/shichuu-suimei.ts:250-252 | different charts have different texts |
| Pillars.ExampleChart | lib/shichuu-suimei.ts:231-238 | 1990-01-15 08:00 gives 己巳 丙寅 丁未 甲辰 |
| Tally.PillarList | components/ResultDisplay.tsx:28 | the tally visits four pillars |
| Tally.ElementCount | components/ResultDisplay.tsx:29-34 | a sequence of pillars contributes at most two counts per pillar to any element |
| Tally.ElementCounts | components/ResultDisplay.tsx:19-34 | the counts have an entry for each of the five elements, and each entry is the number of the chart's stems and branches with that element |
| Tally.ElementCountsSum | components/ResultDisplay.tsx:29-34 | every stem and every branch is counted exactly once: the five counts add up to twice the number of pillars |
| Tally.ChartCountsSumToEight | components/ResultDisplay.tsx:18-34 | a chart's counts add up to 8, and each count is between 0 and 8 |
| Tally.CountStep | components/ResultDisplay.tsx:30-33 | one more pillar adds one count for its stem's element and one for its branch's element |
| Tally.TallyElements | components/ResultDisplay.tsx:18-34 | the loop starts all five counts at zero and ends with each element's occurrences among the chart's stems and branches; the counts sum to 8 |
| Interpretations.DayStemInterpretations | lib/interpretations.ts:19-140 | every day-stem entry is keyed by its stem, names that stem's element and has four traits |
| Interpretations.ElementPracticalAdvice | lib/interpretations.ts:156-192 | each element has five pieces of advice, all about that element |
| Interpretations.Classify | lib/interpretations.ts:200-220 | the status is excess exactly when count ≥ 1.5 × total/5, lacking exactly when it is below that and count ≤ 0.5 × total/5, balanced exactly when it lies strictly between, in exact arithmetic |
| Interpretations.BalanceOf | lib/interpretations.ts:203-229 | an element's record keeps its count and takes the interpretation of its status; advice is attached exactly when the element is lacking |
| Interpretations.AnalyzeElementBalance | lib/interpretations.ts:197-230 | five records in the order 木 火 土 金 水, each with its element's count, the status of that count against the mean, the matching interpretation, and advice exactly when lacking |
| Interpretations.BalanceOfEight | lib/interpretations.ts:200-220 | with eight symbols counted, excess means a count of at least 3, lacking means a count of 0, and an excess element gets no advice |
| Interpretations.BalanceOfNothing | lib/interpretations.ts:200-211 | with nothing counted, every element is excess, because the excess test is made first |
| Interpretations.ChartBalance | lib/interpretations.ts:197-230 | for a chart's tally, a count of at least 3 means excess and a count of 0 means lacking |
| Interpretations.ElementsWithStatus | lib/interpretations.ts:283-289 | filtering the records by status and taking their elements lists exactly the elements of the records with that status, and no more elements than there are records |
| Interpretations.Classified | lib/interpretations.ts:283-284 | the elements listed are exactly those whose counts have the given status |
| Interpretations.StatusFilterMatches | lib/interpretations.ts:283-284 | filtering the analysed records by status and taking their elements gives the classified elements |
| Interpretations.ClassifiedNonEmpty | lib/interpretations.ts:288-296 | the list of excess (or lacking) elements is non-empty exactly when some element has that status |
| Interpretations.ClassifiedInOrder | lib/interpretations.ts:283-284 | filtering keeps the canonical order of the elements |
| Interpretations.AdviceListsInOrder | lib/interpretations.ts:289-294 | the elements listed for each advice paragraph are in the order 木 火 土 金 水 |
| Interpretations.JoinElements | lib/interpretations.ts:289 | joining n > 0 elements with 、 gives 2n − 1 characters: the i-th element's symbol at position 2i, and 、 between each two neighbours; no elements give the empty text |
| Interpretations.OverallAdvice | lib/interpretations.ts:286-298 | the advice begins with the day-stem sentence and ends with the closing sentence |
| Interpretations.AnalyzePersonality | lib/interpretations.ts:274-305 | the result carries the day stem's entry, with its element, and the element balance of the counts; the advice begins with the day-stem sentence and ends with the closing sentence |
| Interpretations.OverallAdviceSections | lib/interpretations.ts:283-298 | the advice is the day-stem sentence, then the excess paragraph listing the classified excess elements, then the lacking paragraph listing the lacking ones, then the closing sentence |
| ShareCode.Digits | lib/url-utils.ts:9-12 | `toString` of a natural number is a non-empty string starting with a digit |
| ShareCode.IntToString | lib/url-utils.ts:9-12 | `toString` of an integer starts with a minus sign exactly when the integer is negative |
| ShareCode.PadStart | lib/url-utils.ts:9-12 | `padStart(w, '0')` keeps the string as its suffix, puts only zeros in front of it and reaches length w when the string is shorter |
| ShareCode.Padded | lib/url-utils.ts:9-12 | a field that fits in w digits is written as exactly its w last decimal digits |
| ShareCode.PaddedDigits | lib/url-utils.ts:9-12 | padding the decimal digits of a number below 10^w gives its fixed w-digit form |
| ShareCode.ParseDigits | lib/url-utils.ts:26-29 | `parseInt` of w decimal digits is a number below 10^w |
| ShareCode.Decode | lib/url-utils.ts:20-41 | a code decodes exactly when it has the shape `dddddddd-dd` and its fields are in range (year 1900–2100, month 1–12, day 1–31, hour 0–23); the result is those fields |
| ShareCode.ParseFixedDigits | lib/url-utils.ts:26-29 | reading back the fixed w digits of a number below 10^w gives the number |
| ShareCode.FixedDigitsOfParse | lib/url-utils.ts:9-12 | writing a digit string's value at the string's width gives the string back, leading zeros included |
| ShareCode.FixedFieldsShape | lib/url-utils.ts:8-14 | fields at widths 4, 2, 2 and 2 with a dash before the hour match the decoding pattern |
| ShareCode.Encode | lib/url-utils.ts:8-14 | the code of an accepted date is its fields at widths 4, 2, 2 and 2, with a dash before the hour, and it matches the decoding pattern |
| ShareCode.DecodeEncode | lib/url-utils.ts:8-41 | every date in the accepted ranges decodes back from its code |
| ShareCode.EncodeDecode | lib/url-utils.ts:8-41 | a code that decodes is exactly the code of the date it decodes to |
| ShareCode.EncodeInjective | lib/url-utils.ts:8-14 | different accepted dates never share a code |
| ShareCode.DecodeAcceptsFebruary31 | lib/url-utils.ts:32-37 | only the ranges are checked: a code for February 31 decodes, although the date does not exist |

## Left out

- Time zones and daylight saving are not modelled. `getDayStemBranch` divides the millisecond
  difference of two local `Date` values and floors the result. The model counts whole calendar
  days, which is what that division yields when the two dates have the same UTC offset.
- Calendar.DateDayNumber does not model the range limit of `Date` (±8.64·10^15 ms). Outside
  that range, `Date` yields `NaN`, which the model does not represent.
- Interpretations.Classify: the source compares the count with the floating-point values
  `total / 5 * 1.5` and `total / 5 * 0.5`. The model compares `10·count` with `3·total` and
  with `total` in exact integers. Its contract shows that this equals the comparison in exact
  real arithmetic. Floating-point rounding is not modelled.
- The Japanese interpretation texts, day-stem titles, descriptions, traits and advice items are
  not reproduced. Each is a `Text` value naming its table and key. The overall advice text is
  kept as written, because the analysis decides its structure.
- The three interpretation lookups (`getExcessInterpretation`, `getLackingInterpretation`,
  `getBalancedInterpretation`, lib/interpretations.ts:232-263) become
  Interpretations.ExcessInterpretation, LackingInterpretation and BalancedInterpretation. Their
  values are opaque texts, so they carry no contract of their own. `BalanceOf` and
  `AnalyzeElementBalance` state which lookup each status uses.
- `generateShareUrl` (lib/url-utils.ts:46-51) is not modelled. It reads `window.location` and
  builds a URL through the browser's `URL` class.
- The `try`/`catch` around decoding is not modelled. Nothing inside it can throw for a string
  argument.
- ShareCode.Digits does not model the exponent notation that `toString` uses for numbers of
  21 digits or more, or for fractional numbers. Birth data fields are integers.
- Pillars.MonthStemBranch requires a month in 1..12. The source indexes a fixed table with
  `month - 1`, and another month would produce `undefined`, which the model does not represent.
- Pillars.HourBranch and the members built on it require an hour whose bucket index is
  defined: hour −1 or later, or an hour whose successor is a multiple of 24 (−25, −49, …),
  where JavaScript's `%` gives −0 and the table's first entry is read. Every other negative
  hour gives a negative index and `undefined`, which the model does not represent.
- The React components that render the chart, the form, the charts, the modals and the share
  buttons are not modelled. The element tally in components/ResultDisplay.tsx:18-34 is
  modelled.
