/**
 * Worked inputs for `NextDate`, derived from the specification in module
 * Rules.  They pin down what the loops compute on small cases.
 */
module Scenarios {
  import opened Wrappers
  import opened Calendar
  import opened GoText
  import opened TimeFormat
  import opened Rules
  import opened RuleFacts

  lemma ParseIntervalFive()
    ensures ParseRule("d 5") == Ok(EveryNDays(5))
  {
    assert "d 5"[1..] == " 5" && " 5"[1..] == "5" && "5"[1..] == "";
    assert Split("", ' ') == [""];
    assert Split("5", ' ') == ["5"];
    assert Split(" 5", ' ') == ["", "5"];
    assert ['d'] + "" == "d";
    assert Split("d 5", ' ') == ["d", "5"];
    assert DigitsValue("5") == 5;
    assert Atoi("5") == Some(5);
  }

  lemma ParseYearly()
    ensures ParseRule("y") == Ok(Yearly)
  {
    assert "y"[1..] == "";
    assert Split("", ' ') == [""];
    assert Split("y", ' ') == ["y"];
  }

  lemma SameMonthGap(y: int, m: int, a: int, b: int)
    requires Date(y, m, a).Valid() && Date(y, m, b).Valid()
    ensures DayNumber(Date(y, m, b)) - DayNumber(Date(y, m, a)) == b - a
  {
  }

  /** "d 5" from 1 January with `now` at noon on 10 January of the same year:
      two intervals are needed, so the answer is 11 January. */
  lemma IntervalScenario(y: int)
    requires 0 <= y <= 9999
    ensures NextDateSpec(Instant(Date(y, 1, 10), 43_200_000_000_000), FormatDate(Date(y, 1, 1)), "d 5",
                         Done(FormatDate(Date(y, 1, 11))))
  {
    var now := Instant(Date(y, 1, 10), 43_200_000_000_000);
    var start := Date(y, 1, 1);
    ParseIntervalFive();
    ParseFormat(start);
    IntervalScenarioStop(y);
    TenDaysLater(y);
    assert OutcomeAt(EveryNDays(5), start, now, 2) == Done(FormatDate(Date(y, 1, 11)));
  }

  /** The search of that scenario stops at the second interval. */
  lemma IntervalScenarioStop(y: int)
    ensures FirstStop(EveryNDays(5), Date(y, 1, 1), Instant(Date(y, 1, 10), 43_200_000_000_000), 2)
  {
    var now := Instant(Date(y, 1, 10), 43_200_000_000_000);
    var start := Date(y, 1, 1);
    SameMonthGap(y, 1, 1, 10);
    assert Gap(start, now) == 9;
    IntervalFirstStop(5, start, now, 2);
  }

  /** Two intervals of five days from 1 January reach 11 January. */
  lemma TenDaysLater(y: int)
    ensures DateAt(EveryNDays(5), Date(y, 1, 1), 2) == Date(y, 1, 11)
  {
    var d := DateAt(EveryNDays(5), Date(y, 1, 1), 2);
    SameMonthGap(y, 1, 1, 11);
    assert DayNumber(d) == DayNumber(Date(y, 1, 1)) + 10;
    DayNumberInjective(d, Date(y, 1, 11));
  }

  /** One year after 29 February of a leap year is 1 March. */
  lemma LeapDayStep(y: int)
    requires IsLeap(y)
    ensures DateAt(Yearly, Date(y, 2, 29), 1) == Date(y + 1, 3, 1)
  {
    var start := Date(y, 2, 29);
    assert !IsLeap(y + 1);
    AddDateYear(start);
    assert YearsLater(start, 1) == AddDate(YearsLater(start, 0), 1, 0) == AddDate(start, 1, 0);
  }

  /** "y" from 29 February of a leap year with `now` on 1 March of that year:
      one year later normalises 29 February to 1 March of the next year. */
  lemma LeapDayScenario(y: int)
    requires 0 <= y <= 9998 && IsLeap(y)
    ensures NextDateSpec(Instant(Date(y, 3, 1), 0), FormatDate(Date(y, 2, 29)), "y",
                         Done(FormatDate(Date(y + 1, 3, 1))))
  {
    var now := Instant(Date(y, 3, 1), 0);
    var start := Date(y, 2, 29);
    ParseYearly();
    ParseFormat(start);
    LeapDayStep(y);
    var d := DateAt(Yearly, start, 1);
    DayNumberMonotone(now.date, d);
    assert FirstStop(Yearly, start, now, 1);
  }
}
