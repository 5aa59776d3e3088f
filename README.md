# Leave-application date rules

A model of the only logic in the leave-application form: the day count
between the start and the end of a leave (`getDaysDiff`), and the field rules
the form's validation schema runs on the login, name, start date, end date,
email and phone.

- `wrappers.dfy` — `Option`, for a field the user has not filled in yet.
- `date_utils.dfy` (module `DateUtils`) — `getDaysDiff` as `GetDaysDiff`. It
  works on timestamps in whole milliseconds. It returns `DayCount`: `Unknown`
  stands for the placeholder string `*днів` the source returns when a date is
  missing, and `Days(n)` for a count. The source divides by 1000, 60, 60 and
  24 and rounds up. On integer milliseconds that is exact ceiling division
  by 86 400 000 (`CeilDiv`).
- `validation.dfy` (module `Validation`) — the schema of `validation.ts`. It
  has one predicate per rule: `Required`, `LatinName` (through
  `SomeNonLatin`, the `split('').some(...)` scan), `StartNotPast`,
  `EndNotBeforeStart` (yup's inclusive `min`), `EndSpanOk` (1 to
  `DaysCount` = 14 days) and `MatchesEmail` (the email pattern).
  `ValidateForm` returns the set of failing fields. Strings are sequences
  of UTF-16 code units, as JavaScript holds them.
- `scenarios.dfy` (module `Scenarios`) — concrete requests and names.

The current time is the parameter `now`, the reading `new Date()` takes.
The rules call `toDateString()` on the clock and on the start (start rule)
and on the end (span rule). That rounds a time down to the midnight that
begins its day, and `DayStart` models it. Timestamps count local time, so
the midnights are the multiples of 86 400 000. An
`Unknown` count becomes NaN under the source's unary `+`, and NaN fails every
comparison, so every date rule treats `Unknown` as failing.

Three consequences of the code as written:
- The count can be negative or zero; it is not restricted to `>= 0`.
- Swapping start and end negates the count only when the two instants are a
  whole number of days apart. Otherwise the two counts add up to 1
  (`SwapSum`), because both are rounded up.
- The email field must match the pattern in the code, not just any
  "local@domain.tld" address.

## Model

| member | source | states |
|---|---|---|
| DateUtils.CeilDiv | src/tools/dateUtils.ts:12-14 | the result is the ceiling of the quotient: the unique `q` with `(q-1)*b < a <= q*b` |
| DateUtils.GetDaysDiff | src/tools/dateUtils.ts:1-15 | the placeholder exactly when a date is missing; otherwise the millisecond difference rounded up to whole days |
| DateUtils.SameInstantIsZero | src/tools/dateUtils.ts:12-14 | identical start and end give 0 |
| DateUtils.LaterEndIsPositive | src/tools/dateUtils.ts:12-14 | an end later than the start by any amount gives at least 1 |
| DateUtils.NotLaterEndIsNonPositive | src/tools/dateUtils.ts:12-14 | an end not later than the start gives at most 0 |
| DateUtils.WholeDays | src/tools/dateUtils.ts:12-14 | instants `k` whole days apart give exactly `k`, and `-k` when swapped |
| DateUtils.SwapSum | src/tools/dateUtils.ts:12-14 | the two orders sum to 0 for a whole-day difference and to 1 otherwise |
| DateUtils.MonotoneInEnd | src/tools/dateUtils.ts:12-14 | a later end never gives a smaller count |
| DateUtils.AntitoneInStart | src/tools/dateUtils.ts:12-14 | a later start never gives a larger count |
| DateUtils.OffsetAbsorbed | src/tools/validation.ts:36 | a start up to a day after its midnight, against a midnight end, still gives the whole days between the midnights |
| DateUtils.EarlyStartAddsDay | src/tools/validation.ts:36 | a start up to a day before a midnight, against a midnight end, gives one day more than the whole days between the midnights |
| DateUtils.DayStart | src/tools/validation.ts:28 | `toDateString()` parsed back: a multiple of one day, at most the time and less than a day before it |
| DateUtils.DayStartUnique | src/tools/validation.ts:28 | that midnight is the only one within the day before the time |
| DateUtils.DayStartShift | src/tools/validation.ts:36 | moving a time by `k` whole days moves its midnight by `k` days |
| Validation.Required | src/tools/validation.ts:8 | `required` on a string: the value is not empty (the same rule on lines 11, 26, 33, 42, 43); `ValidateForm` and `EmptyFieldsFail` state its effect |
| Validation.SomeNonLatin | src/tools/validation.ts:16-22 | the `split('').some(...)` scan, code unit by code unit; `LatinNameIff` characterises it |
| Validation.LatinName | src/tools/validation.ts:12-23 | the Latin-letters test is the negation of the scan; `LatinNameIff` characterises it |
| Validation.StartNotPast | src/tools/validation.ts:27-30 | `getDaysDiff` from today's midnight to the start's midnight is `>= 0`, an unknown count failing; `StartNotPastIff` characterises it |
| Validation.EndNotBeforeStart | src/tools/validation.ts:34 | yup's inclusive `min` against the start, false when no start is present; `EndEqualToStartNotBefore` and `EndSpanImpliesNotBefore` state its place |
| Validation.EndSpanOk | src/tools/validation.ts:35-38 | `0 < getDaysDiff(start, midnight of end) <= 14`, an unknown count failing; `EndSpanIff` characterises it |
| Validation.EmailSplitAt | src/tools/validation.ts:41 | the address splits at an '@' and a '.' into a non-empty local part of `[a-zA-Z0-9._%+-]`, a non-empty domain of `[a-zA-Z0-9.-]` and at least two ASCII letters |
| Validation.MatchesEmail | src/tools/validation.ts:41 | some split of the whole address fits the pattern; `EmailHasOneAt`, `EmailDotIsLast` and `MatchingEmailIsNonEmpty` state its consequences |
| Validation.FieldFails | src/tools/validation.ts:7-44 | a field fails when its `required` rule fails or, with a value present, one of its further rules fails; `ValidateForm` states each field's verdict in closed form |
| Validation.LatinNameIff | src/tools/validation.ts:15-22 | the name passes exactly when every code unit is 32, in 65–90 or in 97–122 |
| Validation.ValidateForm | src/tools/validation.ts:4-45 | each field is absent from the error set exactly when its own rules pass: login and phone non-empty; name non-empty and all Latin letters or spaces; start present and not before the midnight that begins today; end and start present with the end's midnight 1 ms to 14 days after the start; email matching the pattern |
| Validation.StartNotPastIff | src/tools/validation.ts:27-30 | the start passes exactly when it is not before the midnight that begins the day of `now` |
| Validation.StartNotPastWholeDays | src/tools/validation.ts:27-30 | a start at any time of the day `k` days after today passes exactly when `k >= 0` |
| Validation.EndSpanIff | src/tools/validation.ts:35-38 | the span test passes exactly when a start is present and the end's midnight is after it by at most 14 days |
| Validation.EndSpanWholeDays | src/tools/validation.ts:5-37 | an end `k` whole days after the start passes exactly for 1 to 14 days (0 and 15 fail) |
| Validation.EndTimeOfDayIgnored | src/tools/validation.ts:36-37 | from a start at midnight, an end at any time of the day `k` days later passes exactly for 1 to 14 days |
| Validation.EndSpanImpliesNotBefore | src/tools/validation.ts:34-38 | whatever passes the span test also passes the inclusive `min` rule |
| Validation.EndEqualToStartNotBefore | src/tools/validation.ts:34-37 | an end equal to the start passes `min` (inclusive) but fails the span test |
| Validation.MatchingEmailIsNonEmpty | src/tools/validation.ts:39-42 | an address matching the pattern has at least 5 code units, so it also passes `required` |
| Validation.EmailHasOneAt | src/tools/validation.ts:41 | a matching address has exactly one '@', where it splits |
| Validation.EmailDotIsLast | src/tools/validation.ts:41 | the dot before the top-level domain is the last dot of the address |
| Validation.EmptyFieldsFail | src/tools/validation.ts:7-43 | a form with every validated field empty fails on all six fields |
| Validation.VerdictsIndependent | src/tools/validation.ts:7-44 | a field's verdict depends only on its own value, plus the start date for the end date |
| Scenarios.NineDayLeave | src/tools/validation.ts:27-38 | 2024-03-01 to 2024-03-10 gives 9 days and passes both date rules |
| Scenarios.ZeroDayLeave | src/tools/validation.ts:35-38 | 2024-03-10 to 2024-03-10 gives 0 days and fails the span test |
| Scenarios.NineteenDayLeave | src/tools/validation.ts:35-38 | 2024-03-01 to 2024-03-20 gives 19 days and fails the span test |
| Scenarios.FourteenDaysAndAnHour | src/tools/validation.ts:35-38 | an end at 01:00 fourteen days after a midnight start is rounded down and passes |
| Scenarios.YesterdayRejected | src/tools/validation.ts:27-30 | whatever the clock reads, now passes as a start, and 14:00 yesterday and the last millisecond of yesterday fail |
| Scenarios.Names | src/tools/validation.ts:15-22 | "John Doe" passes the Latin-letters test and "Іван" fails it |
| Scenarios.UsualAddress | src/tools/validation.ts:41 | "john.doe@mail.com" matches the email pattern |

## Left out

- src/App.tsx is not part of this model. It covers form rendering, the profile fetch, avatar loading, PDF export and phone masking. All of it is UI and I/O over external libraries.
- Parsing date strings into timestamps (`new Date(...)`) and time zones are left out. Dates enter as integer milliseconds of local time. The rounding of `toDateString()` is modelled by `DayStart`. A day is always 86 400 000 ms, so the 23- and 25-hour days of daylight-saving changes are not modelled.
- Floating-point division and `Math.ceil` are replaced by exact integer ceiling division. They agree for any realistic millisecond difference.
- The validation library is left out: its casting of strings to dates, its "not a date" type error for unparseable input, its error messages and their aggregation. An empty field arrives as an absent value, and a field fails when any of its rules fails.
- The clock: `new Date()` becomes the parameter `now`.
- `position` and `avatar_url` are carried in `FormValues`, but the schema has no rule for them.
- The source renders the day count into the printed template. That rendering of a number as text is UI and is left out.
