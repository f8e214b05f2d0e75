/**
 * `NextDate` and `CheckDate` (internal/nextdate/nextdate.go) as the loops they
 * are: each search steps a local date forward until the rule's stopping test
 * holds, each list is scanned entry by entry with early exits, and `CheckDate`
 * rewrites the task's date in place.  Every method is proved against the
 * specification in module Rules; `time.Now()` is the parameter `now`.
 */
module NextDate {
  import opened Wrappers
  import opened Calendar
  import opened GoText
  import opened TimeFormat
  import opened Rules
  import opened RuleFacts
  import opened Db

  /** The `for _, v := range list` loops: read each entry, return its error,
      or stop at the first entry that matches the target. */
  method ScanEntries(kind: ListKind, entries: seq<string>, target: int) returns (s: Scan)
    ensures s == ScanList(kind, entries, target)
  {
    var i := 0;
    while i < |entries|
      invariant 0 <= i <= |entries|
      invariant ScanList(kind, entries, target) == ScanList(kind, entries[i..], target)
    {
      assert entries[i..][1..] == entries[i + 1..];
      var v := CheckEntry(kind, entries[i], target);
      if v != Exhausted {
        return v;
      }
      i := i + 1;
    }
    return Exhausted;
  }

  /** One step of a "w" search, as the loop body computes it. */
  lemma WeeklyStep(weekDays: seq<string>, start: Date, now: Instant, i: nat, date: Date, scan: Scan)
    requires start.Valid() && now.Valid() && date == AddDays(start, i)
    requires scan == ScanList(WeekDays, weekDays, Weekday(date))
    ensures Verdict(Weekly(weekDays), start, now, i) ==
      if scan.Invalid? then Stop(scan.error)
      else if After(Midnight(date), now) && scan == Matched then Hit
      else Miss
  {
    assert DateAt(Weekly(weekDays), start, i) == date;
  }

  /** One step of an "m" search, as the loop body computes it. */
  lemma MonthlyStep(monthDays: seq<string>, monthNums: seq<string>, start: Date, now: Instant, i: nat,
                    date: Date, byDay: Scan, byMonth: Scan, flag: bool)
    requires start.Valid() && now.Valid() && date == AddDays(start, i)
    requires byDay == ScanList(MonthDays, monthDays, date.day)
    requires byMonth == ScanList(Months, monthNums, date.month)
    requires flag == MonthFlag(monthNums, start, i)
    ensures Verdict(Monthly(monthDays, monthNums), start, now, i) ==
      if byDay.Invalid? then Stop(byDay.error)
      else if byMonth.Invalid? then Stop(byMonth.error)
      else if After(Midnight(date), now) && byDay == Matched && flag then Hit
      else Miss
  {
    assert DateAt(Monthly(monthDays, monthNums), start, i) == date;
  }

  /** The month flag after one more step, as the loop body updates it. */
  lemma MonthFlagStep(monthNums: seq<string>, start: Date, i: nat, date: Date, byMonth: Scan, flag: bool)
    requires start.Valid() && i >= 1 && date == AddDays(start, i)
    requires byMonth == ScanList(Months, monthNums, date.month)
    requires flag == MonthFlag(monthNums, start, i - 1)
    ensures MonthFlag(monthNums, start, i) == (flag || byMonth == Matched)
  {
  }

  /** One step of a "y" search, as the loop body computes it. */
  lemma YearlyStep(start: Date, now: Instant, date: Date, i: nat)
    requires start.Valid() && now.Valid() && date == YearsLater(start, i)
    ensures AddDate(date, 1, 0) == YearsLater(start, i + 1)
    ensures Verdict(Yearly, start, now, i + 1) ==
      if After(Midnight(AddDate(date, 1, 0)), now) then Hit else Miss
  {
  }

  /** The stepped date after one more step of one day. */
  lemma NextStep(start: Date, date: Date, i: nat)
    requires start.Valid() && date == AddDays(start, i)
    ensures AddDate(date, 0, 1) == AddDays(start, i + 1)
  {
    AddDateDays(date, 1);
    AddDaysAdd(start, i, 1);
  }

  /** The stepped date after one more step of n days. */
  lemma IntervalStep(n: int, start: Date, now: Instant, date: Date, i: nat)
    requires start.Valid() && now.Valid() && date == DateAt(EveryNDays(n), start, i)
    ensures AddDate(date, 0, n) == DateAt(EveryNDays(n), start, i + 1)
    ensures Verdict(EveryNDays(n), start, now, i + 1) ==
      if After(Midnight(AddDate(date, 0, n)), now) then Hit else Miss
  {
    IntervalNext(n, start, date, i);
    IntervalVerdict(n, start, now, i + 1);
  }

  /** One more interval from the i-th stepped date is the (i + 1)-th. */
  lemma IntervalNext(n: int, start: Date, date: Date, i: nat)
    requires start.Valid() && date == DateAt(EveryNDays(n), start, i)
    ensures AddDate(date, 0, n) == DateAt(EveryNDays(n), start, i + 1)
  {
    var m := i * n;
    assert (i + 1) * n == m + n;
    assert date == AddDays(start, m);
    AddDateDays(date, n);
    AddDaysAdd(start, m, n);
  }

  /** The verdict of "d N" at step k: taken exactly when the date is after `now`. */
  lemma IntervalVerdict(n: int, start: Date, now: Instant, k: nat)
    requires start.Valid() && now.Valid()
    ensures Verdict(EveryNDays(n), start, now, k) ==
      if After(Midnight(DateAt(EveryNDays(n), start, k)), now) then Hit else Miss
  {
  }

  /** Rule "y": add a year until the date is after `now`. */
  method NextYearly(start: Date, now: Instant) returns (r: Outcome<string>)
    requires start.Valid() && now.Valid()
    ensures r.Done? && SearchOutcome(Yearly, start, now, r)
  {
    ghost var bound := YearlyWitness(start, now);
    var date := start;
    ghost var i: nat := 0;
    while true
      invariant date == YearsLater(start, i) && i < bound
      invariant MissedUpTo(Yearly, start, now, i)
      decreases bound - i
    {
      YearlyStep(start, now, date, i);
      date := AddDate(date, 1, 0);
      i := i + 1;
      if After(Midnight(date), now) {
        r := Done(FormatDate(date));
        StopConcludes(Yearly, start, now, i, r);
        return;
      }
      MissExtends(Yearly, start, now, i);
      BelowStop(Yearly, start, now, i, bound);
    }
  }

  /** Rule "d N": add N days until the date is after `now`.  With N <= 0 the
      date never moves forward, so once the first step is not after `now`
      the Go loop runs forever; the model reports that as `Diverges`. */
  method NextInterval(n: int, start: Date, now: Instant) returns (r: Outcome<string>)
    requires start.Valid() && now.Valid()
    ensures SearchOutcome(EveryNDays(n), start, now, r)
    ensures r.Diverges? ==> n <= 0
    ensures !r.Failed?
  {
    var rule := EveryNDays(n);
    if n <= 0 {
      AddDateDays(start, n);
      var date := AddDate(start, 0, n);
      NonPositiveOutcome(n, start, now);
      if After(Midnight(date), now) {
        r := Done(FormatDate(date));
      } else {
        r := Diverges;
      }
      return;
    }
    ghost var bound := IntervalWitness(n, start, now);
    var date := start;
    ghost var i: nat := 0;
    while true
      invariant date == DateAt(rule, start, i) && i < bound
      invariant MissedUpTo(rule, start, now, i)
      decreases bound - i
    {
      IntervalStep(n, start, now, date, i);
      date := AddDate(date, 0, n);
      i := i + 1;
      if After(Midnight(date), now) {
        r := Done(FormatDate(date));
        StopConcludes(rule, start, now, i, r);
        return;
      }
      MissExtends(rule, start, now, i);
      BelowStop(rule, start, now, i, bound);
    }
  }

  /** Rule "w list": step one day at a time; stop at the first date after
      `now` whose weekday the list names, or at the first bad entry reached. */
  method NextWeekly(weekDays: seq<string>, start: Date, now: Instant) returns (r: Outcome<string>)
    requires start.Valid() && now.Valid() && |weekDays| >= 1
    ensures SearchOutcome(Weekly(weekDays), start, now, r)
    ensures !r.Diverges?
  {
    var rule := Weekly(weekDays);
    ghost var bound := WeeklyWitness(weekDays, start, now);
    var date := start;
    ghost var i: nat := 0;
    while true
      invariant date == AddDays(start, i) && i < bound
      invariant MissedUpTo(rule, start, now, i)
      decreases bound - i
    {
      NextStep(start, date, i);
      date := AddDate(date, 0, 1);
      i := i + 1;
      var scan := ScanEntries(WeekDays, weekDays, Weekday(date));
      WeeklyStep(weekDays, start, now, i, date, scan);
      if scan.Invalid? {
        r := Failed(scan.error);
        StopConcludes(rule, start, now, i, r);
        return;
      }
      var weekDayMatch := scan == Matched;
      if After(Midnight(date), now) && weekDayMatch {
        r := Done(FormatDate(date));
        StopConcludes(rule, start, now, i, r);
        return;
      }
      MissExtends(rule, start, now, i);
      BelowStop(rule, start, now, i, bound);
    }
  }

  /** Rule "m days [months]": step one day at a time; the day list is scanned,
      then the month list, whose first match sets `monthMatch` for good; stop
      at the first date after `now` with a listed day and the flag set, or at
      the first bad entry reached. */
  method NextMonthly(monthDays: seq<string>, monthNums: seq<string>, start: Date, now: Instant)
    returns (r: Outcome<string>)
    requires start.Valid() && now.Valid() && |monthDays| >= 1
    ensures SearchOutcome(Monthly(monthDays, monthNums), start, now, r)
    ensures !r.Diverges?
  {
    var rule := Monthly(monthDays, monthNums);
    ghost var bound := MonthlyWitness(monthDays, monthNums, start, now);
    var monthMatch := true;
    if monthNums != [] {
      monthMatch := false;
    }
    var date := start;
    ghost var i: nat := 0;
    while true
      invariant date == AddDays(start, i) && i < bound
      invariant monthMatch == MonthFlag(monthNums, start, i)
      invariant MissedUpTo(rule, start, now, i)
      decreases bound - i
    {
      NextStep(start, date, i);
      date := AddDate(date, 0, 1);
      i := i + 1;
      var byDay := ScanEntries(MonthDays, monthDays, date.day);
      MonthFlagStep(monthNums, start, i, date, ScanList(Months, monthNums, date.month), monthMatch);
      MonthlyStep(monthDays, monthNums, start, now, i, date, byDay,
                  ScanList(Months, monthNums, date.month), MonthFlag(monthNums, start, i));
      if byDay.Invalid? {
        r := Failed(byDay.error);
        StopConcludes(rule, start, now, i, r);
        return;
      }
      var monthDayMatch := byDay == Matched;
      var byMonth := ScanEntries(Months, monthNums, date.month);
      if byMonth.Invalid? {
        r := Failed(byMonth.error);
        StopConcludes(rule, start, now, i, r);
        return;
      }
      if byMonth == Matched {
        monthMatch := true;
      }
      if After(Midnight(date), now) && monthDayMatch && monthMatch {
        r := Done(FormatDate(date));
        StopConcludes(rule, start, now, i, r);
        return;
      }
      MissExtends(rule, start, now, i);
      BelowStop(rule, start, now, i, bound);
    }
  }

  /** `NextDate(now, dstart, repeat)`.  Only "d N" with N <= 0 can fail to
      produce an answer. */
  method NextDate(now: Instant, dstart: string, repeat: string) returns (r: Outcome<string>)
    requires now.Valid()
    ensures NextDateSpec(now, dstart, repeat, r)
    ensures r.Diverges? ==>
      ParseRule(repeat).Ok? && ParseRule(repeat).value.EveryNDays? && ParseRule(repeat).value.interval <= 0
  {
    if repeat == "" {
      return Done("");
    }
    var parsed := ParseDate(dstart);
    if parsed.None? {
      return Failed(BadDate);
    }
    var start := parsed.value;
    var rule := ParseRule(repeat);
    match rule
    case Err(e) => r := Failed(e);
    case Ok(Yearly) => r := NextYearly(start, now);
    case Ok(EveryNDays(n)) => r := NextInterval(n, start, now);
    case Ok(Weekly(weekDays)) => r := NextWeekly(weekDays, start, now);
    case Ok(Monthly(monthDays, monthNums)) => r := NextMonthly(monthDays, monthNums, start, now);
    case Ok(Unrecognised) => r := Done("");
  }

  /** How `CheckDate` applies the outcome `o` of `NextDate` to a task whose
      date is `date`: a result replaces the date, an error is returned. */
  predicate Applied(o: Outcome<string>, date: string, newDate: string, r: Outcome<()>) {
    match o
    case Done(next) => newDate == next && r == Done(())
    case Failed(e) => newDate == date && r == Failed(e)
    case Diverges => newDate == date && r == Diverges
  }

  /** What `CheckDate` does to a task whose date is `date` and rule `repeat`:
      the new date and the error it returns. */
  ghost predicate CheckDateSpec(now: Instant, date: string, repeat: string, newDate: string, r: Outcome<()>)
    requires now.Valid()
  {
    var today := FormatDate(now.date);
    if date == "" then newDate == today && r == Done(())
    else match ParseDate(date)
      case None => newDate == date && r == Failed(BadDate)
      case Some(t) =>
        if After(now, Midnight(t)) && date != today then
          if repeat == "" then newDate == today && r == Done(())
          else exists o :: NextDateSpec(now, date, repeat, o) && Applied(o, date, newDate, r)
        else newDate == date && r == Done(())
  }

  /** `CheckDate(task)`: only the task's date is written. */
  method CheckDate(task: Task, now: Instant) returns (r: Outcome<()>)
    requires now.Valid()
    modifies task`date
    ensures CheckDateSpec(now, old(task.date), task.repeat, task.date, r)
  {
    if task.date == "" {
      task.date := FormatDate(now.date);
      return Done(());
    }
    var parsed := ParseDate(task.date);
    if parsed.None? {
      return Failed(BadDate);
    }
    var t := parsed.value;
    if After(now, Midnight(t)) && task.date != FormatDate(now.date) {
      if task.repeat == "" {
        task.date := FormatDate(now.date);
      } else {
        var next := NextDate(now, task.date, task.repeat);
        match next
        case Done(s) => task.date := s;
        case Failed(e) => return Failed(e);
        case Diverges => return Diverges;
      }
    }
    return Done(());
  }
  /** `CheckDate` replaces a readable date exactly when it is before today:
      "now is after its midnight and it is not today's text" says no more. */
  lemma CheckDateFiresIffPast(now: Instant, date: string)
    requires now.Valid() && ParseDate(date).Some?
    ensures var t := ParseDate(date).value;
      (After(now, Midnight(t)) && date != FormatDate(now.date)) <==> DayNumber(t) < DayNumber(now.date)
  {
    var t := ParseDate(date).value;
    FormatParse(date);
    if FormatDate(t) == FormatDate(now.date) {
      FormatInjective(t, now.date);
    }
    if DayNumber(t) == DayNumber(now.date) {
      DayNumberInjective(t, now.date);
    }
  }

  /** After a successful `CheckDate` the date is today or later, with one
      exception: a past date with a rule whose first token is unknown is
      replaced by the empty string `NextDate` returns for it. */
  lemma CheckDateNotPast(now: Instant, date: string, repeat: string, newDate: string)
    requires now.Valid() && CheckDateSpec(now, date, repeat, newDate, Done(()))
    ensures newDate == "" <==>
      (date != "" && repeat != "" && ParseDate(date).Some?
       && DayNumber(ParseDate(date).value) < DayNumber(now.date) && ParseRule(repeat) == Ok(Unrecognised))
    ensures newDate != "" ==>
      exists d: Date :: d.Valid() && newDate == FormatDate(d) && DayNumber(d) >= DayNumber(now.date)
  {
    if date != "" {
      var t := ParseDate(date).value;
      CheckDateFiresIffPast(now, date);
      if After(now, Midnight(t)) && date != FormatDate(now.date) && repeat != "" {
        var o :| NextDateSpec(now, date, repeat, o) && Applied(o, date, newDate, Done(()));
        RescheduledNotPast(now, date, repeat, o, newDate);
      } else if !(After(now, Midnight(t)) && date != FormatDate(now.date)) {
        FormatParse(date);
      }
    }
  }

  /** The date `NextDate` gives a past task is "" exactly for a rule whose
      first token is unknown, and otherwise after today. */
  lemma RescheduledNotPast(now: Instant, date: string, repeat: string, o: Outcome<string>, newDate: string)
    requires now.Valid() && ParseDate(date).Some? && repeat != ""
    requires NextDateSpec(now, date, repeat, o) && Applied(o, date, newDate, Done(()))
    ensures newDate == "" <==> ParseRule(repeat) == Ok(Unrecognised)
    ensures newDate != "" ==>
      exists d: Date :: d.Valid() && newDate == FormatDate(d) && DayNumber(d) > DayNumber(now.date)
  {
    assert o == Done(newDate);
    NextDateEmptyResult(now, date, repeat);
    if newDate != "" {
      NextDateAfterNow(now, date, repeat, newDate);
    }
  }

  /** The new date and the returned error are determined by `now` and the
      task's date and rule. */
  lemma CheckDateDeterministic(now: Instant, date: string, repeat: string,
                               newDate1: string, r1: Outcome<()>, newDate2: string, r2: Outcome<()>)
    requires now.Valid()
    requires CheckDateSpec(now, date, repeat, newDate1, r1) && CheckDateSpec(now, date, repeat, newDate2, r2)
    ensures newDate1 == newDate2 && r1 == r2
  {
    if date != "" && ParseDate(date).Some? && repeat != "" {
      var t := ParseDate(date).value;
      if After(now, Midnight(t)) && date != FormatDate(now.date) {
        var o1 :| NextDateSpec(now, date, repeat, o1) && Applied(o1, date, newDate1, r1);
        var o2 :| NextDateSpec(now, date, repeat, o2) && Applied(o2, date, newDate2, r2);
        NextDateDeterministic(now, date, repeat, o1, o2);
        AppliedDeterministic(o1, date, newDate1, r1, newDate2, r2);
      }
    }
  }

  /** One outcome of `NextDate` leaves one new date and one error. */
  lemma AppliedDeterministic(o: Outcome<string>, date: string,
                             newDate1: string, r1: Outcome<()>, newDate2: string, r2: Outcome<()>)
    requires Applied(o, date, newDate1, r1) && Applied(o, date, newDate2, r2)
    ensures newDate1 == newDate2 && r1 == r2
  {
  }
}
