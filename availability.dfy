/** The availability rules of `schedule_meeting.py`: every participant writes a
    comma-separated list of rules, each either a holiday rule `Country:Holiday`
    or a custom rule `MM/DD/YYYY - MM/DD/YYYY:<repeat option>`, and the rules
    are turned into the calendar dates of a window `[start, until]` on which the
    participant can attend. */
module Availability {
  import opened Wrappers
  import opened Calendar
  import opened Text
  import opened DateFormat

  /** Why `_transfer_custom_input_to_dates` raises on a custom rule. */
  datatype RuleError =
    | MalformedDateRange  // `date_range.split(' - ')` does not give two parts
    | MalformedDate       // strptime refuses the first or the last date of the range

  /** The spellings of NO_REPEAT, REPEAT_EACH_YEAR, REPEAT_EACH_MONTH and
      REPEAT_EACH_WEEK, taken to be the whole of REPEAT_OPTIONS_SET. */
  datatype RepeatNames = RepeatNames(noRepeat: string, eachYear: string, eachMonth: string, eachWeek: string)

  datatype Repeat = NoRepeat | EachYear | EachMonth | EachWeek

  /** `get_country_to_holidays_map(years)`: country name to holiday name to the
      holiday's dates in those years. */
  type HolidayCalendar = seq<int> -> map<string, map<string, seq<Date>>>

  /** The collaborators every rule is read against. */
  datatype Env = Env(repeatNames: RepeatNames, holidays: HolidayCalendar)

  /* ---------------------------------------------------------------------------
     Weekends next to a holiday
     ------------------------------------------------------------------------- */

  /** `e` is a Saturday or Sunday other than `d`, at most two days from it, with
      no working day between the two. */
  predicate AdjacentWeekendDay(d: Date, e: Date) {
    && e != d && IsWeekend(e) && -2 <= e - d <= 2
    && (e - d == 2 ==> IsWeekend(d + 1))
    && (e - d == -2 ==> IsWeekend(d - 1))
  }

  /** `_get_near_weekend_dates`: the weekend days a holiday on `d` joins up with. */
  function NearWeekendDates(d: Date): (r: seq<Date>)
    ensures forall e :: e in r <==> AdjacentWeekendDay(d, e)
    ensures forall i, j :: 0 <= i < j < |r| ==> r[i] != r[j]
  {
    var w := Weekday(d);
    if w == 0 then [d - 1, d - 2]
    else if w == 4 then [d + 1, d + 2]
    else if w == 5 then [d + 1]
    else if w == 6 then [d - 1]
    else []
  }

  /* ---------------------------------------------------------------------------
     Holiday rules
     ------------------------------------------------------------------------- */

  /** The years `range(lo, hi + 1)`. */
  function YearRange(lo: int, hi: int): (years: seq<int>)
    ensures |years| == if lo <= hi then hi - lo + 1 else 0
    ensures forall i :: 0 <= i < |years| ==> years[i] == lo + i
    decreases hi - lo
  {
    if hi < lo then [] else YearRange(lo, hi - 1) + [hi]
  }

  const SelectAllPrefix := "Select All "

  /** The holiday table of the rule's country (underscores read as spaces) for the
      years the window touches; `None` when the calendar has no such country or an
      empty table for it. */
  function CountryHolidays(entry: string, start: Date, until: Date, calendar: HolidayCalendar)
    : Option<map<string, seq<Date>>>
    requires |Split(entry, ":")| == 2
  {
    var country := ReplaceChar(Split(entry, ":")[0], '_', ' ');
    var countryToHolidays := calendar(YearRange(Year(start), Year(until)));
    if country in countryToHolidays && |countryToHolidays[country]| > 0
    then Some(countryToHolidays[country])
    else None
  }

  /** The dates of the holidays `names` in table `holidays`. */
  ghost function HolidaysNamed(holidays: map<string, seq<Date>>, names: set<string>): set<Date> {
    set name, d | name in names && name in holidays && d in holidays[name] :: d
  }

  lemma HolidaysNamedAddOne(holidays: map<string, seq<Date>>, names: set<string>, name: string)
    requires name in holidays
    ensures HolidaysNamed(holidays, names + {name}) == HolidaysNamed(holidays, names) + (set d | d in holidays[name])
  {
    forall d | d in HolidaysNamed(holidays, names + {name})
      ensures d in HolidaysNamed(holidays, names) + (set d | d in holidays[name])
    {
      var n :| n in names + {name} && n in holidays && d in holidays[n];
      if n != name {
        assert d in HolidaysNamed(holidays, names);
      }
    }
    forall d | d in HolidaysNamed(holidays, names)
      ensures d in HolidaysNamed(holidays, names + {name})
    {
      var n :| n in names && n in holidays && d in holidays[n];
      assert n in names + {name};
    }
    forall d | d in holidays[name]
      ensures d in HolidaysNamed(holidays, names + {name})
    {
      assert name in names + {name};
    }
  }

  /** The dates of the holiday the rule names, or of all of the country's holidays
      for a `Select All …` rule, before weekends are added and the window applied. */
  ghost function NamedHolidayDates(entry: string, start: Date, until: Date, calendar: HolidayCalendar)
    : set<Date>
    requires |Split(entry, ":")| == 2
  {
    var holiday := Split(entry, ":")[1];
    match CountryHolidays(entry, start, until, calendar)
    case None => {}
    case Some(holidays) =>
      if StartsWith(holiday, SelectAllPrefix) then HolidaysNamed(holidays, holidays.Keys)
      else if holiday in holidays then (set d | d in holidays[holiday])
      else {}
  }

  /** The window dates that holiday dates `named` stand for: the holidays
      themselves and the weekend days each of them joins up with. */
  ghost function WindowedExpansion(named: set<Date>, start: Date, until: Date): set<Date> {
    set d | start <= d <= until && (d in named || exists h :: h in named && AdjacentWeekendDay(h, d))
  }

  /** What `_transfer_holiday_to_dates(entry, start, until)` returns, as a set. */
  ghost function HolidayDates(entry: string, start: Date, until: Date, calendar: HolidayCalendar)
    : set<Date>
    requires |Split(entry, ":")| == 2
  {
    WindowedExpansion(NamedHolidayDates(entry, start, until, calendar), start, until)
  }

  /** Holiday dates `hs` together with the weekend days each of them joins up with. */
  ghost function WithAdjacentWeekends(hs: seq<Date>): (ds: set<Date>)
    ensures forall d :: d in ds <==> d in hs || exists h :: h in hs && AdjacentWeekendDay(h, d)
  {
    if hs == [] then {}
    else
      var h := hs[|hs| - 1];
      assert hs == hs[..|hs| - 1] + [h];
      WithAdjacentWeekends(hs[..|hs| - 1]) + {h} + (set e | e in NearWeekendDates(h))
  }

  lemma WindowOfAdjacentWeekends(hs: seq<Date>, start: Date, until: Date)
    ensures WindowedExpansion((set d | d in hs), start, until)
            == set d | d in WithAdjacentWeekends(hs) && start <= d <= until
  {
  }

  /** The first loop of a `Select All …` rule: the dates of every holiday of the table. */
  method CollectHolidayDates(holidays: map<string, seq<Date>>) returns (dates: seq<Date>)
    ensures (set d | d in dates) == HolidaysNamed(holidays, holidays.Keys)
  {
    dates := [];
    var pending := holidays.Keys;
    while pending != {}
      invariant pending <= holidays.Keys
      invariant (set d | d in dates) == HolidaysNamed(holidays, holidays.Keys - pending)
      decreases |pending|
    {
      var name :| name in pending;
      HolidaysNamedAddOne(holidays, holidays.Keys - pending, name);
      assert holidays.Keys - (pending - {name}) == (holidays.Keys - pending) + {name};
      dates := dates + holidays[name];
      pending := pending - {name};
    }
    assert holidays.Keys - pending == holidays.Keys;
  }

  /** The loop that adds to every holiday date the weekend days it joins up with. */
  method AddAdjacentWeekends(dates: seq<Date>) returns (finalDates: set<Date>)
    ensures finalDates == WithAdjacentWeekends(dates)
  {
    finalDates := {};
    for i := 0 to |dates|
      invariant finalDates == WithAdjacentWeekends(dates[..i])
    {
      var date := dates[i];
      finalDates := finalDates + {date};
      var near := NearWeekendDates(date);
      for k := 0 to |near|
        invariant finalDates == WithAdjacentWeekends(dates[..i]) + {date} + (set e | e in near[..k])
      {
        finalDates := finalDates + {near[k]};
      }
      assert near[..|near|] == near;
      assert dates[..i + 1][..i] == dates[..i];
    }
    assert dates[..|dates|] == dates;
  }

  /** `_transfer_holiday_to_dates`. */
  method TransferHolidayToDates(entry: string, start: Date, until: Date, calendar: HolidayCalendar)
    returns (dates: set<Date>)
    requires |Split(entry, ":")| == 2
    ensures dates == HolidayDates(entry, start, until, calendar)
  {
    var holiday := Split(entry, ":")[1];
    var found := CountryHolidays(entry, start, until, calendar);
    if found.None? {
      return {};
    }
    var holidays := found.value;
    var holidayDates: seq<Date> := [];
    if StartsWith(holiday, SelectAllPrefix) {
      holidayDates := CollectHolidayDates(holidays);
    } else if holiday in holidays {
      holidayDates := holidays[holiday];
    }
    var finalDates := AddAdjacentWeekends(holidayDates);
    WindowOfAdjacentWeekends(holidayDates, start, until);
    dates := set d | d in finalDates && start <= d <= until;
  }

  /* ---------------------------------------------------------------------------
     Custom rules
     ------------------------------------------------------------------------- */

  /** The repeat option a custom rule ends with; `None` when it is not one of
      REPEAT_OPTIONS_SET. The checks run in the order the source makes them. */
  function ParseRepeat(names: RepeatNames, option: string): (r: Option<Repeat>)
    ensures r.None? <==>
              option != names.noRepeat && option != names.eachYear
              && option != names.eachMonth && option != names.eachWeek
  {
    if option != names.noRepeat && option != names.eachYear
       && option != names.eachMonth && option != names.eachWeek then None
    else if option == names.eachYear then Some(EachYear)
    else if option == names.eachMonth then Some(EachMonth)
    else if option == names.eachWeek then Some(EachWeek)
    else Some(NoRepeat)
  }

  /** How many days the last date of the input range may lie after the first
      before a periodic rule matches every date. */
  function RangeLimit(rep: Repeat): int
    requires rep != NoRepeat
  {
    match rep
    case EachYear => 365
    case EachMonth => 30
    case EachWeek => 6
  }

  /** What a periodic rule compares dates by: month and day (the source's
      `f'{month}-{day}'` string), the day of the month, or the weekday. */
  datatype RepeatKey = MonthAndDay(month: int, day: int) | DayOfMonth(day: int) | DayOfWeek(weekday: int)

  function RepeatKeyOf(rep: Repeat, d: Date): RepeatKey
    requires rep != NoRepeat
  {
    match rep
    case EachYear => MonthAndDay(Month(d), Day(d))
    case EachMonth => DayOfMonth(Day(d))
    case EachWeek => DayOfWeek(Weekday(d))
  }

  /** A custom rule over the input range `[first, last]` takes date `d`: strictly
      inside the range for a one-time rule; for a periodic rule, when some date of
      the range has the same month and day, day of the month or weekday as `d`. */
  ghost predicate Chosen(rep: Repeat, first: Date, last: Date, d: Date) {
    if rep == NoRepeat then first < d < last
    else exists x :: first <= x <= last && RepeatKeyOf(rep, x) == RepeatKeyOf(rep, d)
  }

  /** The dates from `start` to `upTo` that satisfy `p`, in calendar order. */
  ghost function DatesWhere(p: Date -> bool, start: Date, upTo: Date): (dates: seq<Date>)
    ensures forall i, j :: 0 <= i < j < |dates| ==> dates[i] < dates[j]
    ensures forall d :: d in dates <==> start <= d <= upTo && p(d)
    decreases upTo - start
  {
    if upTo < start then []
    else
      var earlier := DatesWhere(p, start, upTo - 1);
      assert forall i :: 0 <= i < |earlier| ==> earlier[i] in earlier && earlier[i] < upTo;
      if p(upTo) then earlier + [upTo] else earlier
  }

  /** The dates from `start` to `upTo` that the rule takes, in calendar order. */
  ghost function ChosenDates(rep: Repeat, first: Date, last: Date, start: Date, upTo: Date): seq<Date> {
    DatesWhere(d => Chosen(rep, first, last, d), start, upTo)
  }

  /** A custom rule once read: a repeat option outside REPEAT_OPTIONS_SET, or
      the input range `[first, last]` with its repeat option. */
  datatype CustomRule = UnknownRepeat | Range(rep: Repeat, first: Date, last: Date)

  /** The reading of `date_range:repeated_option` at the head of
      `_transfer_custom_input_to_dates`: the option is checked first, so an
      unknown option makes the rule give nothing whatever its range says; then
      the range must split on ` - ` into two dates `MM/DD/YYYY`, or the source raises. */
  function ReadCustomRule(entry: string, names: RepeatNames): (r: Result<CustomRule, RuleError>)
    requires |Split(entry, ":")| == 2
    ensures r == Ok(UnknownRepeat) <==> ParseRepeat(names, Split(entry, ":")[1]).None?
    ensures r == Err(MalformedDateRange) <==>
              ParseRepeat(names, Split(entry, ":")[1]).Some? && |Split(Split(entry, ":")[0], " - ")| != 2
    ensures var ends := Split(Split(entry, ":")[0], " - ");
            r == Err(MalformedDate) <==>
              && ParseRepeat(names, Split(entry, ":")[1]).Some? && |ends| == 2
              && (ParseDate(ends[0]).None? || ParseDate(ends[1]).None?)
    ensures var ends := Split(Split(entry, ":")[0], " - ");
            r.Ok? && r.value.Range? ==>
              && Some(r.value.rep) == ParseRepeat(names, Split(entry, ":")[1]) && |ends| == 2
              && 1 <= Year(r.value.first) <= 9999 && FormatDate(r.value.first) == ends[0]
              && 1 <= Year(r.value.last) <= 9999 && FormatDate(r.value.last) == ends[1]
  {
    var parts := Split(entry, ":");
    match ParseRepeat(names, parts[1])
    case None => Ok(UnknownRepeat)
    case Some(rep) =>
      var ends := Split(parts[0], " - ");
      if |ends| != 2 then Err(MalformedDateRange)
      else match (ParseDate(ends[0]), ParseDate(ends[1]))
        case (Some(first), Some(last)) =>
          FormatParsedDate(ends[0], first);
          FormatParsedDate(ends[1], last);
          Ok(Range(rep, first, last))
        case _ => Err(MalformedDate)
  }

  /** What `_transfer_custom_input_to_dates` returns: the `[ALL_DATES]` sentinel
      or a list of dates. */
  datatype Expansion = AllDates | Dates(dates: seq<Date>)

  /** A custom rule over the input range `[first, last]`, once it has been read:
      the sentinel when a periodic rule's range is longer than its limit,
      otherwise the window dates the rule takes. */
  ghost function ExpandRange(rep: Repeat, first: Date, last: Date, start: Date, until: Date): Expansion {
    if rep != NoRepeat && last - first > RangeLimit(rep) then AllDates
    else Dates(ChosenDates(rep, first, last, start, until))
  }

  /** What `_transfer_custom_input_to_dates(entry, start, until)` returns or raises. */
  ghost function CustomDates(entry: string, start: Date, until: Date, names: RepeatNames)
    : Result<Expansion, RuleError>
    requires |Split(entry, ":")| == 2
  {
    match ReadCustomRule(entry, names)
    case Err(e) => Err(e)
    case Ok(UnknownRepeat) => Ok(Dates([]))
    case Ok(Range(rep, first, last)) => Ok(ExpandRange(rep, first, last, start, until))
  }

  /** Once `keys` holds the key of every date of the input range, a periodic
      rule takes exactly the dates whose key is among them. */
  lemma ChosenByKeys(rep: Repeat, key: Date -> RepeatKey, first: Date, last: Date, keys: set<RepeatKey>, d: Date)
    requires rep != NoRepeat && forall x :: key(x) == RepeatKeyOf(rep, x)
    requires forall k :: k in keys <==> exists x :: first <= x <= last && key(x) == k
    ensures Chosen(rep, first, last, d) <==> key(d) in keys
  {
    if key(d) in keys {
      var x :| first <= x <= last && key(x) == key(d);
      assert RepeatKeyOf(rep, x) == RepeatKeyOf(rep, d);
    }
  }

  /** Filtering the window by two tests that agree on it gives the same dates. */
  lemma {:induction false} DatesWhereAgree(p: Date -> bool, q: Date -> bool, start: Date, upTo: Date)
    requires forall d :: start <= d <= upTo ==> (p(d) <==> q(d))
    ensures DatesWhere(p, start, upTo) == DatesWhere(q, start, upTo)
    decreases upTo - start
  {
    if start <= upTo {
      DatesWhereAgree(p, q, start, upTo - 1);
    }
  }

  /** The first loop of `_transfer_custom_input_to_dates`: the key (month and
      day, day of the month or weekday) of every date of the input range. */
  method CollectRepeatKeys(key: Date -> RepeatKey, first: Date, last: Date) returns (keys: set<RepeatKey>)
    ensures forall k :: k in keys <==> exists x :: first <= x <= last && key(x) == k
  {
    keys := {};
    var current := first;
    while current <= last
      invariant first <= current <= if first <= last then last + 1 else first
      invariant forall k :: k in keys <==> exists x :: first <= x < current && key(x) == k
      decreases last - current
    {
      keys := keys + {key(current)};
      current := current + 1;
    }
  }

  /** The second loop of `_transfer_custom_input_to_dates`: the window dates
      that pass the rule's test, in calendar order. */
  method ScanWindow(taken: Date -> bool, start: Date, until: Date) returns (dates: seq<Date>)
    ensures dates == DatesWhere(taken, start, until)
  {
    dates := [];
    var current := start;
    while current <= until
      invariant start <= current <= if start <= until then until + 1 else start
      invariant dates == DatesWhere(taken, start, current - 1)
      decreases until - current
    {
      if taken(current) {
        dates := dates + [current];
      }
      current := current + 1;
    }
  }

  /** `_transfer_custom_input_to_dates` once the rule has been read as the input
      range `[first, last]` with repeat option `repeat`. */
  method ExpandCustomRange(repeat: Repeat, first: Date, last: Date, start: Date, until: Date)
    returns (e: Expansion)
    ensures e == ExpandRange(repeat, first, last, start, until)
  {
    var key := d => if repeat == NoRepeat then DayOfWeek(0) else RepeatKeyOf(repeat, d);
    var keys: set<RepeatKey> := {};
    if repeat != NoRepeat {
      if last - first > RangeLimit(repeat) {
        return AllDates;
      }
      keys := CollectRepeatKeys(key, first, last);
    }
    var taken := d => if repeat == NoRepeat then first < d < last else key(d) in keys;
    var dates := ScanWindow(taken, start, until);
    forall d | start <= d <= until
      ensures taken(d) <==> Chosen(repeat, first, last, d)
    {
      if repeat != NoRepeat {
        ChosenByKeys(repeat, key, first, last, keys, d);
      }
    }
    DatesWhereAgree(taken, d => Chosen(repeat, first, last, d), start, until);
    return Dates(dates);
  }

  /** `_transfer_custom_input_to_dates`. */
  method TransferCustomInputToDates(entry: string, start: Date, until: Date, names: RepeatNames)
    returns (r: Result<Expansion, RuleError>)
    requires |Split(entry, ":")| == 2
    ensures r == CustomDates(entry, start, until, names)
    ensures r.Ok? && r.value.Dates? ==>
              && (forall i, j :: 0 <= i < j < |r.value.dates| ==> r.value.dates[i] < r.value.dates[j])
              && (forall d :: d in r.value.dates ==> start <= d <= until)
  {
    var rule := ReadCustomRule(entry, names);
    match rule
    case Err(e) =>
      return Err(e);
    case Ok(UnknownRepeat) =>
      return Ok(Dates([]));
    case Ok(Range(repeat, first, last)) =>
      var expansion := ExpandCustomRange(repeat, first, last, start, until);
      return Ok(expansion);
  }

  /** `_get_all_dates`: every date from `start` to `until`, in order. */
  method GetAllDates(start: Date, until: Date) returns (dates: seq<Date>)
    ensures |dates| == if start <= until then until - start + 1 else 0
    ensures forall i :: 0 <= i < |dates| ==> dates[i] == start + i
  {
    dates := [];
    var current := start;
    while current <= until
      invariant start <= current <= if start <= until then until + 1 else start
      invariant |dates| == current - start
      invariant forall i :: 0 <= i < |dates| ==> dates[i] == start + i
      decreases until - current
    {
      dates := dates + [current];
      current := current + 1;
    }
  }

  /* ---------------------------------------------------------------------------
     All of a participant's rules
     ------------------------------------------------------------------------- */

  /** What one rule contributes: the whole window (the `ALL_DATES` sentinel), or a
      set of dates. */
  datatype Coverage = WholeWindow | DateSet(dates: set<Date>)

  /** The dates from `start` to `until`. */
  function Window(start: Date, until: Date): (w: set<Date>)
    ensures forall d :: d in w <==> start <= d <= until
    decreases until - start
  {
    if until < start then {} else Window(start, until - 1) + {until}
  }

  /** One rule as `get_available_dates` reads it: a rule that is not two
      `:`-separated parts gives nothing; otherwise the holiday reading, and the
      custom reading only when the holiday reading is empty. */
  ghost function RuleCoverage(rule: string, start: Date, until: Date, env: Env)
    : Result<Coverage, RuleError>
  {
    if |Split(rule, ":")| != 2 then Ok(DateSet({}))
    else
      var holidayDates := HolidayDates(rule, start, until, env.holidays);
      if holidayDates != {} then Ok(DateSet(holidayDates))
      else match CustomDates(rule, start, until, env.repeatNames)
        case Err(e) => Err(e)
        case Ok(AllDates) => Ok(WholeWindow)
        case Ok(Dates(ds)) => Ok(DateSet(set d | d in ds))
  }

  /** Dates `ds` joined to what the rules after them give. */
  function AddDates(ds: set<Date>, rest: Result<Coverage, RuleError>): Result<Coverage, RuleError> {
    match rest
    case Ok(DateSet(more)) => Ok(DateSet(ds + more))
    case _ => rest
  }

  /** What the rules give, read one after the other: the first that raises or
      gives the sentinel ends the reading; otherwise the union of what they give. */
  function Combine(covs: seq<Result<Coverage, RuleError>>): Result<Coverage, RuleError> {
    if covs == [] then Ok(DateSet({}))
    else match covs[0]
      case Err(e) => Err(e)
      case Ok(WholeWindow) => Ok(WholeWindow)
      case Ok(DateSet(ds)) => AddDates(ds, Combine(covs[1..]))
  }

  /** What each of `rules` gives on its own. */
  ghost function RuleCoverages(rules: seq<string>, start: Date, until: Date, env: Env)
    : (covs: seq<Result<Coverage, RuleError>>)
    ensures |covs| == |rules|
    decreases |rules|
  {
    if rules == [] then [] else [RuleCoverage(rules[0], start, until, env)] + RuleCoverages(rules[1..], start, until, env)
  }

  lemma {:induction false} RuleCoveragesAt(rules: seq<string>, start: Date, until: Date, env: Env, i: int)
    requires 0 <= i < |rules|
    ensures |RuleCoverages(rules, start, until, env)| == |rules|
    ensures RuleCoverages(rules, start, until, env)[i] == RuleCoverage(rules[i], start, until, env)
    decreases |rules|
  {
    if i > 0 {
      RuleCoveragesAt(rules[1..], start, until, env, i - 1);
    } else if |rules| > 1 {
      RuleCoveragesAt(rules[1..], start, until, env, 0);
    }
  }

  /** What `get_available_dates(preference, start, until)` returns, as a set, or raises. */
  ghost function AvailableDates(text: string, start: Date, until: Date, env: Env)
    : Result<set<Date>, RuleError>
  {
    match Combine(RuleCoverages(Split(text, ","), start, until, env))
    case Err(e) => Err(e)
    case Ok(WholeWindow) => Ok(Window(start, until))
    case Ok(DateSet(ds)) => Ok(ds)
  }

  /** The body of the loop of `get_available_dates` for a rule of two parts:
      the holiday reading, or the custom reading when that is empty. */
  method ReadRule(rule: string, start: Date, until: Date, env: Env) returns (c: Result<Coverage, RuleError>)
    requires |Split(rule, ":")| == 2
    ensures c == RuleCoverage(rule, start, until, env)
  {
    var holidayDates := TransferHolidayToDates(rule, start, until, env.holidays);
    if holidayDates != {} {
      return Ok(DateSet(holidayDates));
    }
    var custom := TransferCustomInputToDates(rule, start, until, env.repeatNames);
    match custom
    case Err(e) =>
      return Err(e);
    case Ok(AllDates) =>
      return Ok(WholeWindow);
    case Ok(Dates(ds)) =>
      return Ok(DateSet(set d | d in ds));
  }

  /** Joining dates in two steps joins their union. */
  lemma AddDatesTwice(a: set<Date>, b: set<Date>, rest: Result<Coverage, RuleError>)
    ensures AddDates(a, AddDates(b, rest)) == AddDates(a + b, rest)
  {
    if rest.Ok? && rest.value.DateSet? {
      assert a + (b + rest.value.dates) == (a + b) + rest.value.dates;
    }
  }

  lemma AddDatesNothing(rest: Result<Coverage, RuleError>)
    ensures AddDates({}, rest) == rest
  {
    if rest.Ok? && rest.value.DateSet? {
      assert {} + rest.value.dates == rest.value.dates;
    }
  }

  /** `_get_all_dates` as a set is the window. */
  lemma AllDatesWindow(all: seq<Date>, start: Date, until: Date)
    requires |all| == if start <= until then until - start + 1 else 0
    requires forall i :: 0 <= i < |all| ==> all[i] == start + i
    ensures (set d | d in all) == Window(start, until)
  {
    forall d | start <= d <= until
      ensures d in all
    {
      assert all[d - start] == d;
    }
  }

  /** `get_available_dates`. */
  method GetAvailableDates(text: string, start: Date, until: Date, env: Env)
    returns (r: Result<set<Date>, RuleError>)
    ensures r == AvailableDates(text, start, until, env)
  {
    var attendingRules := Split(text, ",");
    ghost var covs := RuleCoverages(attendingRules, start, until, env);
    var availableDates: set<Date> := {};
    assert covs[0..] == covs;
    AddDatesNothing(Combine(covs));
    for i := 0 to |attendingRules|
      invariant Combine(covs) == AddDates(availableDates, Combine(covs[i..]))
    {
      var rule := attendingRules[i];
      RuleCoveragesAt(attendingRules, start, until, env, i);
      assert covs[i..][1..] == covs[i + 1..];
      if |Split(rule, ":")| != 2 {
        AddDatesTwice(availableDates, {}, Combine(covs[i + 1..]));
        assert availableDates + {} == availableDates;
        continue;
      }
      var tmpDates := ReadRule(rule, start, until, env);
      if tmpDates.Err? {
        return Err(tmpDates.error);
      }
      if tmpDates.value.WholeWindow? {
        var all := GetAllDates(start, until);
        AllDatesWindow(all, start, until);
        return Ok(set d | d in all);
      }
      AddDatesTwice(availableDates, tmpDates.value.dates, Combine(covs[i + 1..]));
      availableDates := availableDates + tmpDates.value.dates;
    }
    assert availableDates + {} == availableDates;
    return Ok(availableDates);
  }
}
