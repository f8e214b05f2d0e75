/**
 * The recurrence rules of `NextDate` (internal/nextdate/nextdate.go) stated as
 * functions: how the rule text is split into a rule, what one list entry and
 * one whole list decide for a stepped date, and which outcome the search for
 * the next date must produce.  The imperative search that meets this
 * specification is in module NextDate.
 */
module Rules {
  import opened Wrappers
  import opened Calendar
  import opened GoText
  import opened TimeFormat

  /** The errors `NextDate` returns. */
  datatype Error =
    | BadDate              // time.Parse rejected the date
    | WrongRepeatFormat    // "wrong repeat format"
    | NotANumber(text: string)  // strconv.Atoi rejected `text`
    | IntervalTooBig       // "interval is too big"
    | WrongWeekday         // "wrong weekday number"
    | BadMonthDay          // "monthday number is bad"
    | WrongMonthNum        // "month num is wrong"

  /** What a call produces: a value, an error, or no answer at all because the
      Go loop would run forever. */
  datatype Outcome<T> = Done(value: T) | Failed(error: Error) | Diverges

  /** The largest interval the "d" rule accepts. */
  const MaxInterval: int := 400

  /** A rule as the first tokens of the repeat text select it.  List entries
      stay text: they are checked only when the search reaches them. */
  datatype Rule =
    | Yearly
    | EveryNDays(interval: int)
    | Weekly(weekDays: seq<string>)
    | Monthly(monthDays: seq<string>, monthNums: seq<string>)  // monthNums == [] when no third token
    | Unrecognised

  /** The token-level part of `NextDate`: split on single spaces, require two
      tokens unless the first is "y", read the interval of "d", split the lists
      of "w" and "m" on commas; any other first token is no rule at all. */
  function ParseRule(repeat: string): (r: Result<Rule, Error>)
    ensures r.Ok? && r.value.EveryNDays? ==> r.value.interval <= MaxInterval
    ensures r.Ok? && r.value.Weekly? ==> |r.value.weekDays| >= 1
    ensures r.Ok? && r.value.Monthly? ==> |r.value.monthDays| >= 1
  {
    var rep := Split(repeat, ' ');
    if rep[0] != "y" && |rep| < 2 then Err(WrongRepeatFormat)
    else if rep[0] == "y" then Ok(Yearly)
    else if rep[0] == "d" then
      match Atoi(rep[1])
      case None => Err(NotANumber(rep[1]))
      case Some(n) => if n > MaxInterval then Err(IntervalTooBig) else Ok(EveryNDays(n))
    else if rep[0] == "w" then Ok(Weekly(Split(rep[1], ',')))
    else if rep[0] == "m" then Ok(Monthly(Split(rep[1], ','), if |rep| > 2 then Split(rep[2], ',') else []))
    else Ok(Unrecognised)
  }

  /** A rule fails to parse exactly when it has too few tokens, or it is "d"
      with an interval that is not a number or is above 400. */
  lemma ParseRuleErrors(repeat: string)
    ensures var rep := Split(repeat, ' ');
      ParseRule(repeat).Err? <==>
        (rep[0] != "y" && |rep| < 2)
        || (rep[0] == "d" && |rep| >= 2 && (Atoi(rep[1]).None? || Atoi(rep[1]).value > MaxInterval))
  {
  }

  /** List pieces as the parser leaves them: no space and no comma in any. */
  predicate PlainPieces(ps: seq<string>) {
    forall i :: 0 <= i < |ps| ==> ' ' !in ps[i] && ',' !in ps[i]
  }

  /** The rules a repeat text can denote: an interval `Atoi` can read and the
      parser admits, non-empty day lists, and plain list pieces. */
  predicate Printable(rule: Rule) {
    match rule
    case Yearly => true
    case EveryNDays(n) => MinInt <= n <= MaxInterval
    case Weekly(weekDays) => |weekDays| >= 1 && PlainPieces(weekDays)
    case Monthly(monthDays, monthNums) =>
      |monthDays| >= 1 && PlainPieces(monthDays) && PlainPieces(monthNums)
    case Unrecognised => false
  }

  /** The tokens of a rule's canonical text: "y", "d N", "w list",
      "m days" or "m days months", each list joined with commas. */
  function RuleTokens(rule: Rule): (tokens: seq<string>)
    requires Printable(rule)
    ensures |tokens| >= 1 && forall i :: 0 <= i < |tokens| ==> ' ' !in tokens[i]
  {
    match rule
    case Yearly => ["y"]
    case EveryNDays(n) => ItoaChars(n, ' '); ["d", Itoa(n)]
    case Weekly(weekDays) =>
      NotInJoin(weekDays, ',', ' ');
      ["w", Join(weekDays, ',')]
    case Monthly(monthDays, monthNums) =>
      NotInJoin(monthDays, ',', ' ');
      if monthNums == [] then ["m", Join(monthDays, ',')]
      else NotInJoin(monthNums, ',', ' '); ["m", Join(monthDays, ','), Join(monthNums, ',')]
  }

  /** The canonical repeat text of a rule: its tokens separated by spaces. */
  function RuleText(rule: Rule): string
    requires Printable(rule)
  {
    Join(RuleTokens(rule), ' ')
  }

  /** Parsing the canonical text of a rule gives the rule back. */
  lemma ParseRuleText(rule: Rule)
    requires Printable(rule)
    ensures ParseRule(RuleText(rule)) == Ok(rule)
  {
    SplitJoin(RuleTokens(rule), ' ');
    match rule
    case Yearly =>
    case EveryNDays(n) => AtoiItoa(n);
    case Weekly(weekDays) => SplitJoin(weekDays, ',');
    case Monthly(monthDays, monthNums) =>
      SplitJoin(monthDays, ',');
      if monthNums != [] {
        SplitJoin(monthNums, ',');
      }
  }

  /** Every rule the parser yields, other than `Unrecognised`, has a canonical
      text, so printing and parsing it again gives the same rule. */
  lemma ParsedPrintable(repeat: string)
    requires ParseRule(repeat).Ok? && ParseRule(repeat).value != Unrecognised
    ensures Printable(ParseRule(repeat).value)
    ensures ParseRule(RuleText(ParseRule(repeat).value)) == ParseRule(repeat)
  {
    var rep := Split(repeat, ' ');
    var rule := ParseRule(repeat).value;
    if rep[0] == "w" || rep[0] == "m" {
      SplitPiecesWithout(rep[1], ',', ' ');
      if |rep| > 2 {
        SplitPiecesWithout(rep[2], ',', ' ');
      }
    }
    ParseRuleText(rule);
  }

  /** The first token alone decides "y" and an unknown rule, whatever follows it. */
  lemma ParseRuleFirstToken(token: string, rest: string)
    requires ' ' !in token
    ensures token == "y" ==> ParseRule(token + " " + rest) == Ok(Yearly)
    ensures token != "y" && token != "d" && token != "w" && token != "m" ==>
      ParseRule(token + " " + rest) == Ok(Unrecognised)
  {
    assert token + " " + rest == token + [' '] + rest;
    SplitAfterPiece(token, rest, ' ');
  }

  /** The three comma-separated lists the search reads. */
  datatype ListKind = WeekDays | MonthDays | Months

  /** What a list entry, or a whole list, decides about a target value. */
  datatype Scan = Matched | Exhausted | Invalid(error: Error)

  /** One pass of the loop over a list: the entry is read with Atoi and range
      checked (each kind with its own error), then compared with the target.
      `Exhausted` means "look at the next entry". */
  function CheckEntry(kind: ListKind, entry: string, target: int): Scan {
    match Atoi(entry)
    case None => Invalid(NotANumber(entry))
    case Some(n) =>
      match kind
      case WeekDays =>
        if n > 7 || n < 0 then Invalid(WrongWeekday)
        else if (if n == 7 then 0 else n) == target then Matched
        else Exhausted
      case MonthDays =>
        if n > 31 || n < -2 || n == 0 then Invalid(BadMonthDay)
        else if n == -2 || n == -1 then Invalid(BadMonthDay)
        else if n == target then Matched
        else Exhausted
      case Months =>
        if n > 12 || n < 1 then Invalid(WrongMonthNum)
        else if n == target then Matched
        else Exhausted
  }

  /** The values each list accepts: weekdays 0..7, days of month 1..31 (the
      -1 and -2 the first range check lets through are rejected by the second),
      months 1..12. */
  predicate InRange(kind: ListKind, n: int) {
    match kind
    case WeekDays => 0 <= n <= 7
    case MonthDays => 1 <= n <= 31
    case Months => 1 <= n <= 12
  }

  /** The value an accepted entry stands for: weekday 7 is Sunday, 0. */
  function Code(kind: ListKind, n: int): int {
    if kind == WeekDays && n == 7 then 0 else n
  }

  /** An entry is rejected exactly when it is not a number or out of range,
      and matches exactly when it is an accepted number standing for the target. */
  lemma CheckEntryMeaning(kind: ListKind, entry: string, target: int)
    ensures CheckEntry(kind, entry, target).Invalid? <==> Atoi(entry).None? || !InRange(kind, Atoi(entry).value)
    ensures CheckEntry(kind, entry, target) == Matched <==>
      Atoi(entry).Some? && InRange(kind, Atoi(entry).value) && Code(kind, Atoi(entry).value) == target
  {
  }

  /** The inner `for ... range` loop with its early returns and `break`: the
      verdict of the first entry that is not `Exhausted`. */
  function ScanList(kind: ListKind, entries: seq<string>, target: int): Scan
    decreases |entries|
  {
    if entries == [] then Exhausted
    else
      var v := CheckEntry(kind, entries[0], target);
      if v != Exhausted then v else ScanList(kind, entries[1..], target)
  }

  /** The target is listed: some entry is an accepted number standing for it. */
  predicate Listed(kind: ListKind, entries: seq<string>, target: int) {
    exists i :: 0 <= i < |entries| && CheckEntry(kind, entries[i], target) == Matched
  }

  /** A list scan returns the verdict of its first decisive entry: it is
      `Exhausted` exactly when every entry is valid and none matches, and
      otherwise it is the verdict of an entry all of whose predecessors are
      valid and do not match. */
  lemma ScanListFirstDecisive(kind: ListKind, entries: seq<string>, target: int)
    ensures ScanList(kind, entries, target) == Exhausted <==>
      forall i :: 0 <= i < |entries| ==> CheckEntry(kind, entries[i], target) == Exhausted
    ensures ScanList(kind, entries, target) != Exhausted ==>
      exists i :: 0 <= i < |entries| && ScanList(kind, entries, target) == CheckEntry(kind, entries[i], target)
        && forall j :: 0 <= j < i ==> CheckEntry(kind, entries[j], target) == Exhausted
  {
    ScanListExhausted(kind, entries, target);
    if ScanList(kind, entries, target) != Exhausted {
      var i := ScanListDecisive(kind, entries, target);
      forall j | 0 <= j < i ensures CheckEntry(kind, entries[j], target) == Exhausted {
        assert entries[..i][j] == entries[j];
      }
    }
  }

  /** No entry of the list is decisive: each is valid and misses the target. */
  predicate NoneDecisive(kind: ListKind, entries: seq<string>, target: int) {
    forall i :: 0 <= i < |entries| ==> CheckEntry(kind, entries[i], target) == Exhausted
  }

  lemma NoneDecisiveCons(kind: ListKind, entries: seq<string>, target: int)
    requires entries != []
    ensures NoneDecisive(kind, entries, target) <==>
      CheckEntry(kind, entries[0], target) == Exhausted && NoneDecisive(kind, entries[1..], target)
  {
    if CheckEntry(kind, entries[0], target) == Exhausted && NoneDecisive(kind, entries[1..], target) {
      forall i | 0 < i < |entries| ensures CheckEntry(kind, entries[i], target) == Exhausted {
        assert entries[i] == entries[1..][i - 1];
      }
    }
  }

  /** The scan is `Exhausted` exactly when no entry is decisive. */
  lemma {:induction false} ScanListExhausted(kind: ListKind, entries: seq<string>, target: int)
    ensures ScanList(kind, entries, target) == Exhausted <==> NoneDecisive(kind, entries, target)
    decreases |entries|
  {
    if entries != [] {
      ScanListExhausted(kind, entries[1..], target);
      NoneDecisiveCons(kind, entries, target);
    }
  }

  /** A scan that ends early ends at an entry all of whose predecessors pass. */
  lemma {:induction false} ScanListDecisive(kind: ListKind, entries: seq<string>, target: int) returns (i: nat)
    requires ScanList(kind, entries, target) != Exhausted
    ensures i < |entries| && ScanList(kind, entries, target) == CheckEntry(kind, entries[i], target)
    ensures NoneDecisive(kind, entries[..i], target)
    decreases |entries|
  {
    if CheckEntry(kind, entries[0], target) != Exhausted {
      i := 0;
    } else {
      var rest := ScanListDecisive(kind, entries[1..], target);
      i := rest + 1;
      assert entries[..i][1..] == entries[1..][..rest];
      NoneDecisiveCons(kind, entries[..i], target);
    }
  }

  /** A scan that matches has found a listed value, and one that is exhausted
      has established that the value is not listed. */
  lemma ScanListListed(kind: ListKind, entries: seq<string>, target: int)
    ensures ScanList(kind, entries, target) == Matched ==> Listed(kind, entries, target)
    ensures ScanList(kind, entries, target) == Exhausted ==> !Listed(kind, entries, target)
  {
    ScanListFirstDecisive(kind, entries, target);
  }

  /** What the search decides about the k-th stepped date. */
  datatype Step = Miss | Hit | Stop(error: Error)

  /** The k-th date the loop of a rule reaches: `AddDate(1, 0, 0)` applied k
      times for "y", k intervals for "d", k single days for "w" and "m". */
  function DateAt(rule: Rule, start: Date, k: nat): (d: Date)
    requires start.Valid()
    ensures d.Valid()
    ensures rule.Yearly? ==> d.year == start.year + k && DayNumber(d) >= DayNumber(start) + 365 * k
    ensures rule.EveryNDays? ==> DayNumber(d) == DayNumber(start) + k * rule.interval
    ensures !rule.Yearly? && !rule.EveryNDays? ==> DayNumber(d) == DayNumber(start) + k
  {
    match rule
    case Yearly => YearsLaterSpan(start, k); YearsLater(start, k)
    case EveryNDays(n) => AddDays(start, k * n)
    case _ => AddDays(start, k)
  }

  /** The `monthMatch` flag after k steps of the "m" loop: true from the start
      when no month list is given, and otherwise set by the first stepped date
      whose month the month scan matches, never cleared afterwards. */
  function MonthFlag(monthNums: seq<string>, start: Date, k: nat): bool {
    if k == 0 then monthNums == []
    else MonthFlag(monthNums, start, k - 1) || MonthSeen(monthNums, start, k)
  }

  /** The month scan matches the month of the k-th stepped date. */
  predicate MonthSeen(monthNums: seq<string>, start: Date, k: nat) {
    start.Valid() && ScanList(Months, monthNums, AddDays(start, k).month) == Matched
  }

  /** The decision the loop body takes at the k-th stepped date: list errors
      stop the search wherever the date is, and a date is taken only when its
      midnight is after `now` and it satisfies the rule. */
  function Verdict(rule: Rule, start: Date, now: Instant, k: nat): Step
    requires start.Valid() && now.Valid()
  {
    var d := DateAt(rule, start, k);
    var later := After(Midnight(d), now);
    match rule
    case Yearly => if later then Hit else Miss
    case EveryNDays(_) => if later then Hit else Miss
    case Weekly(weekDays) =>
      (match ScanList(WeekDays, weekDays, Weekday(d))
       case Invalid(e) => Stop(e)
       case Matched => if later then Hit else Miss
       case Exhausted => Miss)
    case Monthly(monthDays, monthNums) =>
      var byDay := ScanList(MonthDays, monthDays, d.day);
      var byMonth := ScanList(Months, monthNums, d.month);
      if byDay.Invalid? then Stop(byDay.error)
      else if byMonth.Invalid? then Stop(byMonth.error)
      else if later && byDay == Matched && MonthFlag(monthNums, start, k) then Hit
      else Miss
    case Unrecognised => Miss
  }

  /** The loop ends at step k: the first step that is not a miss. */
  predicate FirstStop(rule: Rule, start: Date, now: Instant, k: nat)
    requires start.Valid() && now.Valid()
  {
    k >= 1 && Verdict(rule, start, now, k) != Miss
    && forall j :: 1 <= j < k ==> Verdict(rule, start, now, j) == Miss
  }

  /** What `NextDate` returns when its loop ends at step k. */
  function OutcomeAt(rule: Rule, start: Date, now: Instant, k: nat): Outcome<string>
    requires start.Valid() && now.Valid()
  {
    match Verdict(rule, start, now, k)
    case Hit => Done(FormatDate(DateAt(rule, start, k)))
    case Stop(e) => Failed(e)
    case Miss => Diverges
  }

  /** The outcome of the search: decided by the first step that is not a miss,
      or `Diverges` when every step misses. */
  ghost predicate SearchOutcome(rule: Rule, start: Date, now: Instant, r: Outcome<string>)
    requires start.Valid() && now.Valid()
  {
    (exists k :: FirstStop(rule, start, now, k) && r == OutcomeAt(rule, start, now, k))
    || ((forall k :: k >= 1 ==> Verdict(rule, start, now, k) == Miss) && r == Diverges)
  }

  /** `NextDate(now, dstart, repeat)`: an empty rule gives "" before the date is
      read; a bad date, then a bad rule, are errors; an unrecognised rule gives
      ""; otherwise the search decides. */
  ghost predicate NextDateSpec(now: Instant, dstart: string, repeat: string, r: Outcome<string>)
    requires now.Valid()
  {
    if repeat == "" then r == Done("")
    else match ParseDate(dstart)
      case None => r == Failed(BadDate)
      case Some(start) =>
        match ParseRule(repeat)
        case Err(e) => r == Failed(e)
        case Ok(rule) => if rule == Unrecognised then r == Done("") else SearchOutcome(rule, start, now, r)
  }
}
