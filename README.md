# Next-date calculator of the task scheduler, in Dafny

The scheduler keeps tasks with a date (`YYYYMMDD`) and an optional repeat
rule. Two functions in `internal/nextdate/nextdate.go` hold all of its logic:

- `NextDate(now, dstart, repeat)` reads the start date and the rule, then steps
  the date forward until it is strictly after `now` and satisfies the rule.
  The rules are `y` (yearly), `d N` (every N days), `w list` (listed weekdays)
  and `m days [months]` (listed days of the month, optionally only in listed
  months).
- `CheckDate(task)` rewrites a task's date field:
  - an empty date becomes today;
  - a past date becomes today when the task has no rule;
  - a past date becomes the rule's next date when it has one.

## How the model is built

- **Modules.**
  - `Calendar`: proleptic Gregorian dates, day numbers, Go's `AddDate`
    normalisation, `Weekday`, and `After` on instants.
  - `GoText`: `strings.Split` and `strconv.Atoi`.
  - `TimeFormat`: `time.Parse` and `Time.Format` with the layout `"20060102"`.
  - `Rules`: the specification of `NextDate` as functions. It contains:
    - the rule parser;
    - the verdict of one list entry and of a whole list;
    - the verdict of the k-th stepped date;
    - `NextDateSpec`, the outcome the search must produce.
  - `RuleFacts`: what that specification implies.
  - `Db`: the `Task` record.
  - `NextDate`: the Go loops as `while` loops, and `CheckDate` updating a
    `Task` object in place. Each method is proved against `Rules`.
  - `Scenarios`: worked inputs.
- **`now`** is an `Instant` (a date plus nanoseconds since midnight), passed in
  as a parameter. A parsed date is its midnight. `date.After(now)` therefore
  holds exactly when the date's day number exceeds today's.
- **Outcomes.** A call produces `Done(value)`, `Failed(error)` or `Diverges`.
  `Diverges` stands for a Go loop that never ends. On unbounded day
  arithmetic the only such case is `d N` with `N <= 0` whose first step is
  not after `now`: from there the date never moves forward again. Go's 64-bit
  overflow for huge negative intervals is not modelled (see "Left out").
- **Lists are checked lazily.** A bad weekday, day or month entry is an error
  only when a scan reaches it, exactly as the Go `for ... range` loops with
  early `return` and `break` behave.

Some consequences of the code that are easy to misread:

- "d 5" from 20240101 with now on 20240110 gives 20240111: the loop at
  nextdate.go:53-59 steps to the 6th, then to the 11th, the first date after
  the 10th. See `Scenarios.IntervalScenario`.
- Day entries -1 and -2 are rejected with "monthday number is bad"
  (nextdate.go:118-120). They do not mean the last or second-to-last day.
- The month flag `monthMatch` is set by the first stepped date in a listed
  month and is never cleared (nextdate.go:97-101, 136-138), so it is not
  scoped to a year.
- `d N` accepts any `N <= 400` (nextdate.go:50), including zero and negatives.

## Model

| member | source | states |
|---|---|---|
| Calendar.DayNumberOrder | internal/nextdate/nextdate.go:37 | comparing day numbers is comparing dates by (year, month, day); equal numbers only for equal dates, which is what `After` on two midnights decides |
| Calendar.After | internal/nextdate/nextdate.go:37 | defines Go's `After`: a later day, or the same day at a later time of day; also used at lines 55, 85, 142 and 166 |
| Calendar.AddDate | internal/nextdate/nextdate.go:36 | defines `AddDate(years, 0, days)` as adding to the year and day of month and normalising into a valid date, as `time.Date` does; also used at lines 54, 67 and 104 |
| Calendar.AddDateYear | internal/nextdate/nextdate.go:36 | adding one year keeps month and day, except that 29 February becomes 1 March when the next year is not a leap year |
| Calendar.AddDateYearSpan | internal/nextdate/nextdate.go:36 | a one-year step lands in the next year, 365 or 366 days later |
| Calendar.YearsLaterSpan | internal/nextdate/nextdate.go:35-41 | k passes of the yearly loop move the date at least 365 * k days forward |
| Calendar.YearsLaterMonotone | internal/nextdate/nextdate.go:35-41 | every further pass of the yearly loop gives a strictly later date |
| Calendar.YearsLaterClosedForm | internal/nextdate/nextdate.go:35-41 | k >= 1 passes of the yearly loop land on the same month and day k years later, except that 29 February becomes 1 March and stays there |
| Calendar.AddDateDays | internal/nextdate/nextdate.go:54 | `AddDate(0, 0, n)` moves exactly n days, across month and year ends |
| Calendar.AddDaysAdd | internal/nextdate/nextdate.go:53-59 | n days then m days is n + m days, so k passes of the interval loop add k * N days |
| Calendar.WeekdayAfter | internal/nextdate/nextdate.go:80 | n days later the weekday has moved n places round the week |
| Calendar.Weekday | internal/nextdate/nextdate.go:80 | defines `Weekday()` from the day number, a value in 0..6 with 0 for Sunday |
| Calendar.ReferenceDayIsMonday | internal/nextdate/nextdate.go:80 | the weekday numbering is Go's: 2 January 2006, the day of the layout, is Monday (1) |
| Calendar.EpochIsThursday | internal/nextdate/nextdate.go:80 | 1 January 1970 is Thursday (4), as in Go |
| GoText.Split | internal/nextdate/nextdate.go:28 | splitting gives at least one piece, no piece holds the separator, and joining the pieces with it gives the input back |
| GoText.AtoiItoa | internal/nextdate/nextdate.go:46 | every 64-bit integer written in decimal is read back as itself |
| GoText.Atoi | internal/nextdate/nextdate.go:46 | defines `strconv.Atoi` on a 64-bit platform: an accepted value is within the 64-bit range; the same reading applies at lines 70, 108 and 129 |
| GoText.AtoiAccepts | internal/nextdate/nextdate.go:46 | Atoi accepts exactly an optional sign followed by one or more digits (leading zeros and "+" included) whose value fits in 64 bits, and returns that value |
| TimeFormat.ParseDate | internal/nextdate/nextdate.go:23 | a parsed date exists in the calendar and has a four-digit year |
| TimeFormat.FormatDate | internal/nextdate/nextdate.go:42 | the text is at least eight characters, exactly eight for the years 0 to 9999 |
| TimeFormat.ParseFormat | internal/nextdate/nextdate.go:23-42 | a formatted date with year 0..9999 parses back to the same date |
| TimeFormat.FormatParse | internal/nextdate/nextdate.go:161-166 | a date text that parses is exactly the formatting of the parsed date |
| TimeFormat.FormatInjective | internal/nextdate/nextdate.go:166 | two dates (the first with year 0..9999) print the same text only if they are the same date |
| TimeFormat.LayoutIsReferenceDay | internal/nextdate/nextdate.go:14 | the layout constant is 2 January 2006 written in that layout |
| Rules.ParseRule | internal/nextdate/nextdate.go:28-32 | an accepted "d" interval is at most 400; "w" and "m" always have a non-empty first list |
| Rules.ParseRuleErrors | internal/nextdate/nextdate.go:28-52 | parsing fails exactly for a non-"y" rule with fewer than two tokens, and for "d" whose interval is not a number or exceeds 400 |
| Rules.ParseRuleText | internal/nextdate/nextdate.go:28-101 | the canonical text of a rule ("y", "d N" for any 64-bit N <= 400, "w list", "m days [months]" with pieces free of spaces and commas) parses back to that rule |
| Rules.ParsedPrintable | internal/nextdate/nextdate.go:28-101 | every rule the parser yields, other than an unknown one, has such a canonical text, and printing and parsing it again gives the same rule |
| Rules.ParseRuleFirstToken | internal/nextdate/nextdate.go:28-149 | a first token "y" gives the yearly rule and a first token other than y, d, w, m gives no rule, whatever follows it |
| Rules.CheckEntryMeaning | internal/nextdate/nextdate.go:69-84 | an entry is rejected exactly when it is not a number or out of range (weekday 0..7, day 1..31, month 1..12); it matches exactly when it is accepted and stands for the target, with weekday 7 standing for Sunday |
| Rules.CheckEntry | internal/nextdate/nextdate.go:69-84 | defines one pass of a list loop: `Atoi`, the range checks with each list's own error, then comparison with the target; weekday lists at 69-84, day lists at 107-126 and month lists at 128-140 |
| Rules.ScanList | internal/nextdate/nextdate.go:107-140 | defines a whole list loop: the verdict of the first entry that is an error or a match, else no match |
| Rules.ScanListFirstDecisive | internal/nextdate/nextdate.go:107-140 | a list scan yields the verdict of its first entry that is an error or a match, every entry before it being valid and different; it is "no match" exactly when every entry is valid and none matches |
| Rules.ScanListExhausted | internal/nextdate/nextdate.go:69-84 | a scan runs off the end of the list exactly when every entry is valid and misses the target |
| Rules.ScanListDecisive | internal/nextdate/nextdate.go:69-84 | a scan that ends early ends at some entry with that entry's verdict, all entries before it being valid misses |
| Rules.ScanListListed | internal/nextdate/nextdate.go:69-84 | a scan that matches means the target is listed; a scan that finds no match means it is not listed |
| Rules.DateAt | internal/nextdate/nextdate.go:36-104 | the k-th stepped date: at least 365 * k days and exactly k years on for "y", exactly k * N days on for "d N", exactly k days on for "w" and "m" |
| Rules.MonthFlag | internal/nextdate/nextdate.go:97-101 | defines `monthMatch` after k steps: true from the start without a month list, otherwise set by the first step whose month the scan matches at lines 136-138, and never cleared |
| Rules.Verdict | internal/nextdate/nextdate.go:35-146 | defines what one loop pass decides for the k-th date (the bodies at lines 37, 55, 67-87 and 104-144): a list error stops the search, a date after now that satisfies the rule is taken, anything else is passed over |
| Rules.NextDateSpec | internal/nextdate/nextdate.go:17-150 | defines the result of `NextDate`: "" for an empty rule, then a bad date, then a bad rule are errors, "" for an unknown first token, otherwise the first decisive step of the search |
| RuleFacts.FirstStopUnique | internal/nextdate/nextdate.go:35-41 | the loop has one exit step |
| RuleFacts.SearchDeterministic | internal/nextdate/nextdate.go:35-146 | at most one outcome meets the search specification |
| RuleFacts.NextDateDeterministic | internal/nextdate/nextdate.go:17-150 | `NextDate` is a function of `now`, the start date and the rule |
| RuleFacts.FirstStopBelow | internal/nextdate/nextdate.go:35-146 | if some step is decisive, an earliest decisive step exists no later than it |
| RuleFacts.ParsedRulesTerminate | internal/nextdate/nextdate.go:28-149 | for every rule that parses, other than "d N" with N <= 0 and an unrecognised first token (which has no loop), the loop reaches an exit step from any start and now, so the search never diverges |
| RuleFacts.StopWitness | internal/nextdate/nextdate.go:35-146 | for "y", "d N" with N >= 1, "w" and "m", some step is decisive |
| RuleFacts.SearchTerminates | internal/nextdate/nextdate.go:35-146 | for those rules the search has an exit step and never diverges |
| RuleFacts.NonPositiveInterval | internal/nextdate/nextdate.go:53-59 | with N <= 0 the first step is taken when it is after now; otherwise every step misses, and it misses exactly in that case |
| RuleFacts.MonthFlagWithoutMonths | internal/nextdate/nextdate.go:97-101 | without a month list the month flag is always set |
| RuleFacts.MonthFlagSticky | internal/nextdate/nextdate.go:136-138 | once set, the month flag stays set at every later step |
| RuleFacts.MonthFlagClear | internal/nextdate/nextdate.go:97-140 | with a month list, the flag stays clear as long as no stepped date's month was matched |
| RuleFacts.MonthFlagMeaning | internal/nextdate/nextdate.go:97-140 | the flag is set after k steps exactly when there is no month list or the month scan matched at one of the first k dates |
| RuleFacts.YearlyFirstStop | internal/nextdate/nextdate.go:34-43 | "y" takes k >= 1 years where k is the least count whose date is after now: date k is after now and date k - 1 (if k > 1) is not |
| RuleFacts.YearlyMissedUpTo | internal/nextdate/nextdate.go:34-43 | every year count up to one whose date is not after now is passed over by the loop |
| RuleFacts.YearlyResult | internal/nextdate/nextdate.go:34-43 | the "y" result is start plus k >= 1 whole years: the same month and day, except that 29 February becomes 1 March; it is at least 365 days on, even when the start is already in the future, and after now |
| RuleFacts.IntervalHit | internal/nextdate/nextdate.go:53-59 | with N >= 1, step j lands after now exactly when j reaches `IntervalSteps` |
| RuleFacts.IntervalFirstStop | internal/nextdate/nextdate.go:45-61 | with N >= 1 the search stops at exactly one more interval than fit between start and now (and at least one), so the result is start plus a positive multiple of N days |
| RuleFacts.WeeklyHit | internal/nextdate/nextdate.go:80-86 | a "w" result has a listed weekday and is after now |
| RuleFacts.WeeklyEarliest | internal/nextdate/nextdate.go:63-91 | no earlier date after both start and now has a listed weekday, so the result is the earliest such date |
| RuleFacts.MonthlyHit | internal/nextdate/nextdate.go:142-144 | an "m" result has a listed day of month, the month flag set, and is after now |
| RuleFacts.MonthlyEarliest | internal/nextdate/nextdate.go:94-148 | no earlier stepped date after now with the flag set has a listed day |
| RuleFacts.NextDateAfterNow | internal/nextdate/nextdate.go:17-150 | a non-empty result is the formatting of a date strictly after now |
| RuleFacts.SearchDoneLater | internal/nextdate/nextdate.go:35-146 | a date found by the search, whatever the rule, is the formatting of a date strictly after now |
| RuleFacts.NextDateEmptyResult | internal/nextdate/nextdate.go:19-21 | the result is "" with no error exactly for an empty rule, or for a readable date with an unrecognised first token (line 149) |
| Db.Task.constructor | internal/db/task.go:5-11 | a task holds its id, date, title, comment and repeat rule as given |
| NextDate.ScanEntries | internal/nextdate/nextdate.go:69-84 | the entry-by-entry loop returns the list verdict: first error, first match, or no match |
| NextDate.NextYearly | internal/nextdate/nextdate.go:34-43 | the yearly loop always succeeds, with the outcome the search specification prescribes |
| NextDate.NextInterval | internal/nextdate/nextdate.go:45-61 | the interval loop never errors, and has the prescribed outcome; it diverges only for N <= 0 |
| NextDate.NextWeekly | internal/nextdate/nextdate.go:63-91 | the weekday loop ends, with the prescribed date or the first bad entry it reaches |
| NextDate.NextMonthly | internal/nextdate/nextdate.go:94-148 | the month-day loop, with its persistent month flag, ends with the prescribed date or the first bad entry it reaches |
| NextDate.NextDate | internal/nextdate/nextdate.go:17-150 | the whole function meets `NextDateSpec`; it can fail to answer only for "d N" with N <= 0 |
| NextDate.CheckDate | internal/nextdate/nextdate.go:153-181 | the task's date is rewritten as the policy says, NextDate's error is returned unchanged, and no other field is written |
| NextDate.CheckDateSpec | internal/nextdate/nextdate.go:153-181 | defines what `CheckDate` does: an empty date becomes today, an unreadable one is an error, a past one becomes today without a rule and `NextDate`'s result with one, anything else is kept |
| NextDate.CheckDateFiresIffPast | internal/nextdate/nextdate.go:166 | for a readable date, "now is after it and it is not today's text" holds exactly when the date is before today |
| NextDate.CheckDateNotPast | internal/nextdate/nextdate.go:153-181 | after success the date is today or later, except that a past date with an unrecognised rule becomes "" (and only then is it "") |
| NextDate.RescheduledNotPast | internal/nextdate/nextdate.go:166-177 | a past task with a rule gets "" exactly when the rule's first token is unknown, and otherwise a date after today |
| NextDate.CheckDateDeterministic | internal/nextdate/nextdate.go:153-181 | the new date and the error are determined by now, the date and the rule |
| Scenarios.IntervalScenario | internal/nextdate/nextdate.go:45-61 | "d 5" from 1 January with now on 10 January gives 11 January, in every year 0..9999 |
| Scenarios.LeapDayScenario | internal/nextdate/nextdate.go:34-43 | "y" from 29 February of a leap year, with now on 1 March, gives 1 March of the next year |

## Left out

- HTTP handlers, JWT and password checks, SQLite persistence, server start-up
  and `main`. They are I/O around the core and only call `NextDate` and
  `CheckDate`.
- `time.Now()` in `CheckDate` is the parameter `now`. Time zones and the
  location of a `time.Time` are not modelled: every date is a day in one fixed
  zone.
- Go's `time` package is modelled only as far as the core uses it: `Parse` and
  `Format` with layout `"20060102"`, `AddDate`, `Weekday`, `Day`, `Month` and
  `After`. The rest of the package is not part of this model.
- Calendar.AddDate: day arithmetic is on unbounded integers. Go's `time.Date`
  works in 64-bit seconds and wraps around for offsets beyond about 10^14
  days, which "d N" with a huge negative N (any int64 `strconv.Atoi` accepts)
  reaches. That wrap-around is not modelled, and the `Diverges` outcome of
  `NextDate.NextInterval` for such N rests on unbounded arithmetic.
- Error values are a datatype, not Go error strings. `time.Parse` failures are
  one `BadDate`.
- GoText.Atoi: `strconv.Atoi`'s syntax and range errors are one `NotANumber`
  error carrying the text.
- NextDate.NextInterval: for N <= 0 the model returns `Diverges` after the first
  step instead of looping forever. The lemma `RuleFacts.NonPositiveInterval`
  shows that in this case no later step would ever end the Go loop.
- NextDate.CheckDate: `Diverges` is passed through as an outcome; Go would hang
  inside `NextDate`.
