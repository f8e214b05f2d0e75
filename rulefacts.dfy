/**
 * What the search specification of module Rules implies: the outcome is
 * determined by its inputs, every rule the parser can produce except a
 * non-positive "d" interval ends, a date the search returns is strictly after
 * `now`, and for each rule the date is the earliest one its loop can stop at.
 */
module RuleFacts {
  import opened Wrappers
  import opened Calendar
  import opened GoText
  import opened TimeFormat
  import opened Rules

  // ---------------------------------------------------------------- determinism

  lemma FirstStopUnique(rule: Rule, start: Date, now: Instant, k1: nat, k2: nat)
    requires start.Valid() && now.Valid()
    requires FirstStop(rule, start, now, k1) && FirstStop(rule, start, now, k2)
    ensures k1 == k2
  {
  }

  /** At most one outcome meets the search specification. */
  lemma SearchDeterministic(rule: Rule, start: Date, now: Instant, r1: Outcome<string>, r2: Outcome<string>)
    requires start.Valid() && now.Valid()
    requires SearchOutcome(rule, start, now, r1) && SearchOutcome(rule, start, now, r2)
    ensures r1 == r2
  {
    forall k1, k2 | FirstStop(rule, start, now, k1) && FirstStop(rule, start, now, k2) ensures k1 == k2 {
      FirstStopUnique(rule, start, now, k1, k2);
    }
    forall k | FirstStop(rule, start, now, k) ensures Verdict(rule, start, now, k) != Miss {
    }
  }

  /** `NextDate` is a function of `now`, the date text and the rule text. */
  lemma NextDateDeterministic(now: Instant, dstart: string, repeat: string, r1: Outcome<string>, r2: Outcome<string>)
    requires now.Valid()
    requires NextDateSpec(now, dstart, repeat, r1) && NextDateSpec(now, dstart, repeat, r2)
    ensures r1 == r2
  {
    if repeat != "" && ParseDate(dstart).Some? && ParseRule(repeat).Ok? && ParseRule(repeat).value != Unrecognised {
      SearchDeterministic(ParseRule(repeat).value, ParseDate(dstart).value, now, r1, r2);
    }
  }

  /** Every step from 1 to i is a miss: what a loop that is still running
      after i passes has seen. */
  predicate MissedUpTo(rule: Rule, start: Date, now: Instant, i: nat)
    requires start.Valid() && now.Valid()
  {
    forall j :: 1 <= j <= i ==> Verdict(rule, start, now, j) == Miss
  }

  /** The first step that does not miss is where the search stops. */
  lemma MissedThenStop(rule: Rule, start: Date, now: Instant, k: nat)
    requires start.Valid() && now.Valid() && k >= 1
    requires MissedUpTo(rule, start, now, k - 1) && Verdict(rule, start, now, k) != Miss
    ensures FirstStop(rule, start, now, k)
  {
  }

  /** A loop that has missed at every step so far and misses again. */
  lemma MissExtends(rule: Rule, start: Date, now: Instant, i: nat)
    requires start.Valid() && now.Valid() && i >= 1
    requires MissedUpTo(rule, start, now, i - 1) && Verdict(rule, start, now, i) == Miss
    ensures MissedUpTo(rule, start, now, i)
  {
  }

  /** A loop that has missed at every step so far and now stops has the
      outcome of this step. */
  lemma StopConcludes(rule: Rule, start: Date, now: Instant, i: nat, r: Outcome<string>)
    requires start.Valid() && now.Valid() && i >= 1
    requires MissedUpTo(rule, start, now, i - 1)
    requires Verdict(rule, start, now, i) != Miss && r == OutcomeAt(rule, start, now, i)
    ensures SearchOutcome(rule, start, now, r)
  {
    assert FirstStop(rule, start, now, i);
  }

  /** A loop still running after i passes is below any decisive step. */
  lemma BelowStop(rule: Rule, start: Date, now: Instant, i: nat, bound: nat)
    requires start.Valid() && now.Valid()
    requires MissedUpTo(rule, start, now, i) && bound >= 1 && Verdict(rule, start, now, bound) != Miss
    ensures i < bound
  {
  }

  // ---------------------------------------------------------------- termination

  /** If some step is decisive, a first decisive step exists, no later than it. */
  lemma {:induction false} FirstStopBelow(rule: Rule, start: Date, now: Instant, k: nat) returns (first: nat)
    requires start.Valid() && now.Valid()
    requires k >= 1 && Verdict(rule, start, now, k) != Miss
    ensures first <= k && FirstStop(rule, start, now, first)
    decreases k
  {
    if j :| 1 <= j < k && Verdict(rule, start, now, j) != Miss {
      first := FirstStopBelow(rule, start, now, j);
    } else {
      first := k;
    }
  }

  /** The rules whose Go loop always ends. */
  predicate Terminating(rule: Rule) {
    match rule
    case Yearly => true
    case EveryNDays(n) => n >= 1
    case Weekly(weekDays) => |weekDays| >= 1
    case Monthly(monthDays, _) => |monthDays| >= 1
    case Unrecognised => false
  }

  /** The loop of every rule that parses ends, whatever the start and `now`,
      except for "d" with an interval of zero or less (and for an unrecognised
      rule, which has no loop). */
  lemma ParsedRulesTerminate(repeat: string, start: Date, now: Instant)
    requires start.Valid() && now.Valid() && ParseRule(repeat).Ok?
    ensures var rule := ParseRule(repeat).value;
      Terminating(rule) <==> rule != Unrecognised && !(rule.EveryNDays? && rule.interval <= 0)
    ensures var rule := ParseRule(repeat).value;
      rule != Unrecognised && !(rule.EveryNDays? && rule.interval <= 0) ==>
        (exists k :: FirstStop(rule, start, now, k)) && !SearchOutcome(rule, start, now, Diverges)
  {
    var rule := ParseRule(repeat).value;
    if Terminating(rule) {
      SearchTerminates(rule, start, now);
    }
  }

  lemma MulMonotone(a: int, b: int, n: int)
    requires a <= b && n >= 0
    ensures a * n <= b * n
  {
    assert b * n - a * n == (b - a) * n;
  }

  lemma MulNonPositive(k: int, n: int)
    requires k >= 1 && n <= 0
    ensures k * n <= n
  {
    assert k * n == (k - 1) * n + n;
    MulMonotone(0, k - 1, -n);
    assert (k - 1) * (-n) == -((k - 1) * n);
  }

  /** j intervals of n pass a gap exactly when j exceeds the number of whole
      intervals in it. */
  lemma PassesGap(gap: int, n: int, j: int)
    requires gap >= 0 && n >= 1 && j >= 0
    ensures j * n > gap <==> j >= gap / n + 1
  {
    var q, r := gap / n, gap % n;
    assert gap == q * n + r && 0 <= r < n;
    if j >= q + 1 {
      MulMonotone(q + 1, j, n);
      assert (q + 1) * n == q * n + n;
    } else {
      MulMonotone(j, q, n);
    }
  }

  /** How far past `start` a step must go to pass `now`. */
  function Gap(start: Date, now: Instant): int
    requires start.Valid() && now.Valid()
  {
    DayNumber(now.date) - DayNumber(start)
  }

  lemma YearlyWitness(start: Date, now: Instant) returns (k: nat)
    requires start.Valid() && now.Valid()
    ensures k >= 1 && Verdict(Yearly, start, now, k) == Hit
  {
    k := if Gap(start, now) >= 0 then Gap(start, now) + 1 else 1;
    YearsLaterSpan(start, k);
    assert DayNumber(DateAt(Yearly, start, k)) >= DayNumber(start) + 365 * k;
  }

  lemma IntervalWitness(n: int, start: Date, now: Instant) returns (k: nat)
    requires start.Valid() && now.Valid() && n >= 1
    ensures k >= 1 && Verdict(EveryNDays(n), start, now, k) == Hit
  {
    k := if Gap(start, now) >= 0 then Gap(start, now) + 1 else 1;
    MulMonotone(1, n, k);
    assert DayNumber(DateAt(EveryNDays(n), start, k)) == DayNumber(start) + k * n;
  }

  /** The first weekday entry decides: if it is bad the first step fails,
      otherwise its weekday comes round within a week once `now` is passed. */
  lemma WeeklyWitness(weekDays: seq<string>, start: Date, now: Instant) returns (k: nat)
    requires start.Valid() && now.Valid() && |weekDays| >= 1
    ensures k >= 1 && Verdict(Weekly(weekDays), start, now, k) != Miss
  {
    var rule := Weekly(weekDays);
    if CheckEntry(WeekDays, weekDays[0], 0).Invalid? {
      k := 1;
      assert CheckEntry(WeekDays, weekDays[0], Weekday(DateAt(rule, start, 1))).Invalid?;
    } else {
      var n := Atoi(weekDays[0]).value;
      var c := Code(WeekDays, n);
      var b: nat := if Gap(start, now) >= 0 then Gap(start, now) + 1 else 1;
      var m := WeekdayComesRound(DayNumber(start) + b, c);
      k := b + m;
      assert DayNumber(DateAt(rule, start, k)) == DayNumber(start) + b + m;
      assert Weekday(DateAt(rule, start, k)) == c;
      assert CheckEntry(WeekDays, weekDays[0], c) == Matched;
    }
  }

  /** With no month list the flag is always set. */
  lemma {:induction false} MonthFlagWithoutMonths(start: Date, k: nat)
    requires start.Valid()
    ensures MonthFlag([], start, k)
    decreases k
  {
    if k > 0 {
      MonthFlagWithoutMonths(start, k - 1);
      assert MonthFlag([], start, k - 1);
    }
  }

  lemma MonthFlagUnfold(monthNums: seq<string>, start: Date, k: nat)
    requires k >= 1
    ensures MonthFlag(monthNums, start, k) == (MonthFlag(monthNums, start, k - 1) || MonthSeen(monthNums, start, k))
  {
  }

  lemma MonthFlagRecurrence(monthNums: seq<string>, start: Date, k: nat)
    requires start.Valid()
    ensures forall i: nat {:trigger MonthFlag(monthNums, start, i)} {:trigger MonthSeen(monthNums, start, i)} :: 1 <= i <= k ==>
      MonthFlag(monthNums, start, i) == (MonthFlag(monthNums, start, i - 1) || MonthSeen(monthNums, start, i))
  {
    forall i: nat | 1 <= i <= k
      ensures MonthFlag(monthNums, start, i) == (MonthFlag(monthNums, start, i - 1) || MonthSeen(monthNums, start, i))
    {
      MonthFlagUnfold(monthNums, start, i);
    }
  }

  /** A flag that no step clears stays set. */
  lemma {:induction false} FlagStaysSet(flag: nat -> bool, j: nat, k: nat)
    requires j <= k && flag(j)
    requires forall i: nat :: j < i <= k ==> (flag(i - 1) ==> flag(i))
    ensures flag(k)
    decreases k - j
  {
    if j < k {
      FlagStaysSet(flag, j, k - 1);
    }
  }

  /** Once set, the month flag stays set: nothing in the "m" loop clears it. */
  lemma MonthFlagSticky(monthNums: seq<string>, start: Date, j: nat, k: nat)
    requires start.Valid() && j <= k && MonthFlag(monthNums, start, j)
    ensures MonthFlag(monthNums, start, k)
  {
    MonthFlagRecurrence(monthNums, start, k);
    FlagStaysSet((i: nat) => MonthFlag(monthNums, start, i), j, k);
  }

  /** A month matched at some step sets the flag from that step on. */
  lemma MonthFlagFromSeen(monthNums: seq<string>, start: Date, j: nat, k: nat)
    requires start.Valid() && 1 <= j <= k && MonthSeen(monthNums, start, j)
    ensures MonthFlag(monthNums, start, k)
  {
    MonthFlagUnfold(monthNums, start, j);
    MonthFlagSticky(monthNums, start, j, k);
  }

  /** With a month list, the flag stays clear while no step's month matched. */
  lemma {:induction false} MonthFlagClear(monthNums: seq<string>, start: Date, k: nat)
    requires monthNums != [] && MonthsUnseen(monthNums, start, k)
    ensures !MonthFlag(monthNums, start, k)
    decreases k
  {
    if k > 0 {
      MonthFlagClear(monthNums, start, k - 1);
      MonthFlagUnfold(monthNums, start, k);
    }
  }

  /** No step from 1 to k has a month the month list matches. */
  predicate MonthsUnseen(monthNums: seq<string>, start: Date, k: nat) {
    forall j :: 1 <= j <= k ==> !MonthSeen(monthNums, start, j)
  }

  /** The flag is set after k steps exactly when there is no month list, or the
      month scan matched at one of the first k stepped dates. */
  lemma MonthFlagMeaning(monthNums: seq<string>, start: Date, k: nat)
    requires start.Valid()
    ensures MonthFlag(monthNums, start, k) <==>
      monthNums == [] || exists j :: 1 <= j <= k && MonthSeen(monthNums, start, j)
  {
    if monthNums == [] {
      MonthFlagWithoutMonths(start, k);
    } else if MonthFlag(monthNums, start, k) {
      if MonthsUnseen(monthNums, start, k) {
        MonthFlagClear(monthNums, start, k);
      }
    } else {
      forall j | 1 <= j <= k && MonthSeen(monthNums, start, j) ensures false {
        MonthFlagFromSeen(monthNums, start, j, k);
      }
    }
  }

  /** The step at which the stepped date is `d`. */
  lemma StepOf(rule: Rule, start: Date, d: Date) returns (k: nat)
    requires start.Valid() && d.Valid() && Precedes(start, d)
    requires !rule.Yearly? && !rule.EveryNDays?
    ensures k >= 1 && DateAt(rule, start, k) == d && AddDays(start, k) == d
  {
    DayNumberMonotone(start, d);
    k := DayNumber(d) - DayNumber(start);
    DayNumberInjective(DateAt(rule, start, k), d);
  }

  /** The first day entry and the first month entry decide: a bad one fails the
      first step; otherwise the first listed month sets the flag in the year
      after both `start` and `now`, and the first listed day of the January
      after that is taken, unless a later entry fails first. */
  lemma MonthlyWitness(monthDays: seq<string>, monthNums: seq<string>, start: Date, now: Instant) returns (k: nat)
    requires start.Valid() && now.Valid() && |monthDays| >= 1
    ensures k >= 1 && Verdict(Monthly(monthDays, monthNums), start, now, k) != Miss
  {
    var rule := Monthly(monthDays, monthNums);
    var d1 := DateAt(rule, start, 1);
    if CheckEntry(MonthDays, monthDays[0], 0).Invalid? {
      k := 1;
      assert CheckEntry(MonthDays, monthDays[0], d1.day).Invalid?;
    } else if monthNums != [] && CheckEntry(Months, monthNums[0], 0).Invalid? {
      k := 1;
      assert CheckEntry(Months, monthNums[0], d1.month).Invalid?;
    } else {
      k := MonthlyTarget(monthDays, monthNums, start, now);
    }
  }

  /** With valid first entries, the first listed day of the January two
      years after both `start` and `now` is taken unless the search stopped
      earlier. */
  lemma MonthlyTarget(monthDays: seq<string>, monthNums: seq<string>, start: Date, now: Instant) returns (k: nat)
    requires start.Valid() && now.Valid() && |monthDays| >= 1
    requires !CheckEntry(MonthDays, monthDays[0], 0).Invalid?
    requires !(monthNums != [] && CheckEntry(Months, monthNums[0], 0).Invalid?)
    ensures k >= 1 && Verdict(Monthly(monthDays, monthNums), start, now, k) != Miss
  {
    var rule := Monthly(monthDays, monthNums);
    var day0 := Atoi(monthDays[0]).value;
    var y := (if now.date.year > start.year then now.date.year else start.year) + 1;
    var target := Date(y + 1, 1, day0);
    k := StepOf(rule, start, target);
    assert CheckEntry(MonthDays, monthDays[0], day0) == Matched;
    if monthNums == [] {
      MonthFlagWithoutMonths(start, k);
    } else {
      var month0 := Atoi(monthNums[0]).value;
      var mark := Date(y, month0, 1);
      var kMark := StepOf(rule, start, mark);
      assert CheckEntry(Months, monthNums[0], month0) == Matched;
      assert MonthFlag(monthNums, start, kMark);
      DayNumberMonotone(mark, target);
      MonthFlagSticky(monthNums, start, kMark, k);
    }
    DayNumberMonotone(now.date, target);
  }

  /** Every terminating rule reaches a decisive step. */
  lemma StopWitness(rule: Rule, start: Date, now: Instant) returns (k: nat)
    requires start.Valid() && now.Valid() && Terminating(rule)
    ensures k >= 1 && Verdict(rule, start, now, k) != Miss
  {
    match rule
    case Yearly => k := YearlyWitness(start, now);
    case EveryNDays(n) => k := IntervalWitness(n, start, now);
    case Weekly(weekDays) => k := WeeklyWitness(weekDays, start, now);
    case Monthly(monthDays, monthNums) => k := MonthlyWitness(monthDays, monthNums, start, now);
  }

  /** The search of a terminating rule ends: it never diverges. */
  lemma SearchTerminates(rule: Rule, start: Date, now: Instant)
    requires start.Valid() && now.Valid() && Terminating(rule)
    ensures exists k :: FirstStop(rule, start, now, k)
    ensures !SearchOutcome(rule, start, now, Diverges)
  {
    var k := StopWitness(rule, start, now);
    var first := FirstStopBelow(rule, start, now, k);
    forall j | FirstStop(rule, start, now, j) ensures OutcomeAt(rule, start, now, j) != Diverges {
    }
  }

  /** "d N" with N <= 0: the first step is taken if it lands after `now`;
      otherwise no step ever does and the Go loop never ends. */
  lemma NonPositiveInterval(n: int, start: Date, now: Instant)
    requires start.Valid() && now.Valid() && n <= 0
    ensures After(Midnight(AddDays(start, n)), now) ==> FirstStop(EveryNDays(n), start, now, 1)
    ensures !After(Midnight(AddDays(start, n)), now) <==>
      forall k :: k >= 1 ==> Verdict(EveryNDays(n), start, now, k) == Miss
  {
    if !After(Midnight(AddDays(start, n)), now) {
      forall k: nat | k >= 1 ensures Verdict(EveryNDays(n), start, now, k) == Miss {
        MulNonPositive(k, n);
        assert DayNumber(DateAt(EveryNDays(n), start, k)) <= DayNumber(AddDays(start, n));
      }
    } else {
      assert Verdict(EveryNDays(n), start, now, 1) == Hit;
    }
  }

  /** The outcome of "d N" with N <= 0: the first step if it is after `now`,
      and otherwise no answer. */
  lemma NonPositiveOutcome(n: int, start: Date, now: Instant)
    requires start.Valid() && now.Valid() && n <= 0
    ensures SearchOutcome(EveryNDays(n), start, now,
      if After(Midnight(AddDays(start, n)), now) then Done(FormatDate(AddDays(start, n))) else Diverges)
  {
    NonPositiveInterval(n, start, now);
    if After(Midnight(AddDays(start, n)), now) {
      assert OutcomeAt(EveryNDays(n), start, now, 1) == Done(FormatDate(AddDays(start, n)));
    }
  }

  // ---------------------------------------------------------------- "y" and "d N"

  /** The verdict of "y" at count j: taken exactly when j years on is after `now`. */
  lemma YearlyVerdict(start: Date, now: Instant, j: nat)
    requires start.Valid() && now.Valid()
    ensures Verdict(Yearly, start, now, j) == if After(Midnight(YearsLater(start, j)), now) then Hit else Miss
  {
    assert DateAt(Yearly, start, j) == YearsLater(start, j);
  }

  /** Years before a count whose date is not after `now` are not after it either. */
  lemma YearlyMissBefore(start: Date, now: Instant, j: nat, m: nat)
    requires start.Valid() && now.Valid() && 1 <= j <= m
    requires !After(Midnight(YearsLater(start, m)), now)
    ensures Verdict(Yearly, start, now, j) == Miss
  {
    YearlyVerdict(start, now, j);
    if j < m {
      YearsLaterMonotone(start, j, m);
    }
  }

  /** "y": the search stops at the first year count k >= 1 whose date is after
      `now`; because each year moves the date forward, that is the k whose
      predecessor (if any) is not after `now`. */
  lemma YearlyFirstStop(start: Date, now: Instant, k: nat)
    requires start.Valid() && now.Valid()
    ensures FirstStop(Yearly, start, now, k) <==>
      k >= 1 && After(Midnight(YearsLater(start, k)), now)
      && (k == 1 || !After(Midnight(YearsLater(start, k - 1)), now))
  {
    if k >= 1 && After(Midnight(YearsLater(start, k)), now) && (k == 1 || !After(Midnight(YearsLater(start, k - 1)), now)) {
      YearlyStopsAt(start, now, k);
    }
    if FirstStop(Yearly, start, now, k) {
      YearlyStopMeans(start, now, k);
    }
  }

  lemma YearlyStopsAt(start: Date, now: Instant, k: nat)
    requires start.Valid() && now.Valid() && k >= 1 && After(Midnight(YearsLater(start, k)), now)
    requires k == 1 || !After(Midnight(YearsLater(start, k - 1)), now)
    ensures FirstStop(Yearly, start, now, k)
  {
    YearlyVerdict(start, now, k);
    if k > 1 {
      YearlyMissedUpTo(start, now, k - 1);
    }
    MissedThenStop(Yearly, start, now, k);
  }

  /** Every count up to one whose date is not after `now` misses. */
  lemma YearlyMissedUpTo(start: Date, now: Instant, m: nat)
    requires start.Valid() && now.Valid() && !After(Midnight(YearsLater(start, m)), now)
    ensures MissedUpTo(Yearly, start, now, m)
  {
    forall j | 1 <= j <= m ensures Verdict(Yearly, start, now, j) == Miss {
      YearlyMissBefore(start, now, j, m);
    }
  }

  lemma YearlyStopMeans(start: Date, now: Instant, k: nat)
    requires start.Valid() && now.Valid() && FirstStop(Yearly, start, now, k)
    ensures k >= 1 && After(Midnight(YearsLater(start, k)), now)
    ensures k == 1 || !After(Midnight(YearsLater(start, k - 1)), now)
  {
    YearlyVerdict(start, now, k);
    if k > 1 {
      assert Verdict(Yearly, start, now, k - 1) == Miss;
      YearlyVerdict(start, now, k - 1);
    }
  }

  /** "y" always moves at least one year, to the same month and day except
      that 29 February can become 1 March. */
  lemma YearlyResult(start: Date, now: Instant, k: nat)
    requires start.Valid() && now.Valid() && FirstStop(Yearly, start, now, k)
    ensures DateAt(Yearly, start, k).year == start.year + k && k >= 1
    ensures DayNumber(DateAt(Yearly, start, k)) > DayNumber(now.date)
    ensures DayNumber(DateAt(Yearly, start, k)) >= DayNumber(start) + 365
    ensures DateAt(Yearly, start, k) ==
      if start.month == 2 && start.day == 29 then Date(start.year + k, 3, 1)
      else Date(start.year + k, start.month, start.day)
  {
    YearsLaterClosedForm(start, k);
  }

  /** The number of intervals "d N" adds: one more than fit into the gap
      between `start` and `now`, and at least one. */
  function IntervalSteps(n: int, start: Date, now: Instant): nat
    requires start.Valid() && now.Valid() && n >= 1
  {
    if Gap(start, now) < 0 then 1 else Gap(start, now) / n + 1
  }

  lemma IntervalHit(n: int, start: Date, now: Instant, j: nat)
    requires start.Valid() && now.Valid() && n >= 1 && j >= 1
    ensures Verdict(EveryNDays(n), start, now, j) == Hit <==> j >= IntervalSteps(n, start, now)
  {
    var gap := Gap(start, now);
    assert Verdict(EveryNDays(n), start, now, j) == Hit <==> j * n > gap;
    if gap < 0 {
      MulMonotone(1, j, n);
    } else {
      PassesGap(gap, n, j);
    }
  }

  /** "d N" with 1 <= N: the search stops after exactly `IntervalSteps` intervals,
      so the date returned is start + k * N days with k >= 1 the least count
      that passes `now`. */
  lemma IntervalFirstStop(n: int, start: Date, now: Instant, k: nat)
    requires start.Valid() && now.Valid() && n >= 1
    ensures FirstStop(EveryNDays(n), start, now, k) <==> k == IntervalSteps(n, start, now)
    ensures FirstStop(EveryNDays(n), start, now, k) ==>
      DayNumber(DateAt(EveryNDays(n), start, k)) - DayNumber(start) == k * n && k * n >= n
  {
    var steps := IntervalSteps(n, start, now);
    IntervalHit(n, start, now, steps);
    if k == steps {
      forall j | 1 <= j < k ensures Verdict(EveryNDays(n), start, now, j) == Miss {
        IntervalHit(n, start, now, j);
      }
    }
    if FirstStop(EveryNDays(n), start, now, k) {
      IntervalHit(n, start, now, k);
      MulMonotone(1, k, n);
    }
  }

  // ---------------------------------------------------------------- "w" and "m"

  /** "w": a date is taken only if its weekday is listed and its midnight is after `now`. */
  lemma WeeklyHit(weekDays: seq<string>, start: Date, now: Instant, k: nat)
    requires start.Valid() && now.Valid()
    requires Verdict(Weekly(weekDays), start, now, k) == Hit
    ensures var d := DateAt(Weekly(weekDays), start, k);
      Listed(WeekDays, weekDays, Weekday(d)) && After(Midnight(d), now)
  {
    ScanListListed(WeekDays, weekDays, Weekday(DateAt(Weekly(weekDays), start, k)));
  }

  /** "w": no earlier stepped date after `now` has a listed weekday, so the date
      taken is the earliest one after both `start` and `now` that the list names. */
  lemma WeeklyEarliest(weekDays: seq<string>, start: Date, now: Instant, k: nat)
    requires start.Valid() && now.Valid() && FirstStop(Weekly(weekDays), start, now, k)
    ensures forall j :: 1 <= j < k && After(Midnight(DateAt(Weekly(weekDays), start, j)), now) ==>
      !Listed(WeekDays, weekDays, Weekday(DateAt(Weekly(weekDays), start, j)))
  {
    forall j | 1 <= j < k && After(Midnight(DateAt(Weekly(weekDays), start, j)), now)
      ensures !Listed(WeekDays, weekDays, Weekday(DateAt(Weekly(weekDays), start, j)))
    {
      assert Verdict(Weekly(weekDays), start, now, j) == Miss;
      ScanListListed(WeekDays, weekDays, Weekday(DateAt(Weekly(weekDays), start, j)));
    }
  }

  /** "m": a date is taken only if its day of month is listed, the month flag is
      set and its midnight is after `now`. */
  lemma MonthlyHit(monthDays: seq<string>, monthNums: seq<string>, start: Date, now: Instant, k: nat)
    requires start.Valid() && now.Valid()
    requires Verdict(Monthly(monthDays, monthNums), start, now, k) == Hit
    ensures var d := DateAt(Monthly(monthDays, monthNums), start, k);
      Listed(MonthDays, monthDays, d.day) && MonthFlag(monthNums, start, k) && After(Midnight(d), now)
  {
    ScanListListed(MonthDays, monthDays, DateAt(Monthly(monthDays, monthNums), start, k).day);
  }

  /** "m": no earlier stepped date after `now` with the flag set has a listed
      day of month. */
  lemma MonthlyEarliest(monthDays: seq<string>, monthNums: seq<string>, start: Date, now: Instant, k: nat)
    requires start.Valid() && now.Valid() && FirstStop(Monthly(monthDays, monthNums), start, now, k)
    ensures forall j :: (1 <= j < k && After(Midnight(DateAt(Monthly(monthDays, monthNums), start, j)), now)
      && MonthFlag(monthNums, start, j)) ==>
      !Listed(MonthDays, monthDays, DateAt(Monthly(monthDays, monthNums), start, j).day)
  {
    var rule := Monthly(monthDays, monthNums);
    forall j | 1 <= j < k && After(Midnight(DateAt(rule, start, j)), now) && MonthFlag(monthNums, start, j)
      ensures !Listed(MonthDays, monthDays, DateAt(rule, start, j).day)
    {
      assert Verdict(rule, start, now, j) == Miss;
      ScanListListed(MonthDays, monthDays, DateAt(rule, start, j).day);
    }
  }

  // ---------------------------------------------------------------- NextDate

  /** A step the search takes is after `now`, whatever the rule. */
  lemma HitIsLater(rule: Rule, start: Date, now: Instant, k: nat)
    requires start.Valid() && now.Valid() && Verdict(rule, start, now, k) == Hit
    ensures After(Midnight(DateAt(rule, start, k)), now)
  {
  }

  /** A date the search finds is strictly after `now`. */
  lemma SearchDoneLater(rule: Rule, start: Date, now: Instant, s: string)
    requires start.Valid() && now.Valid() && SearchOutcome(rule, start, now, Done(s))
    ensures exists d: Date :: d.Valid() && s == FormatDate(d) && After(Midnight(d), now)
  {
    var k :| FirstStop(rule, start, now, k) && Done(s) == OutcomeAt(rule, start, now, k);
    var d := DateAt(rule, start, k);
    assert Verdict(rule, start, now, k) == Hit && s == FormatDate(d);
    HitIsLater(rule, start, now, k);
  }

  /** A non-empty date `NextDate` returns is strictly after `now`. */
  lemma NextDateAfterNow(now: Instant, dstart: string, repeat: string, s: string)
    requires now.Valid() && NextDateSpec(now, dstart, repeat, Done(s)) && s != ""
    ensures exists d: Date :: d.Valid() && s == FormatDate(d) && After(Midnight(d), now)
  {
    var start := ParseDate(dstart).value;
    var rule := ParseRule(repeat).value;
    SearchDoneLater(rule, start, now, s);
  }

  /** `NextDate` succeeds with "" exactly for an empty rule, or for a readable
      date with a rule whose first token is unknown. */
  lemma NextDateEmptyResult(now: Instant, dstart: string, repeat: string)
    requires now.Valid()
    ensures NextDateSpec(now, dstart, repeat, Done("")) <==>
      repeat == "" || (ParseDate(dstart).Some? && ParseRule(repeat) == Ok(Unrecognised))
  {
    if repeat != "" && ParseDate(dstart).Some? && ParseRule(repeat).Ok? {
      var start := ParseDate(dstart).value;
      var rule := ParseRule(repeat).value;
      forall k | FirstStop(rule, start, now, k) ensures OutcomeAt(rule, start, now, k) != Done("") {
        assert |FormatDate(DateAt(rule, start, k))| >= 8;
      }
    }
  }
}
