/** What the availability rules promise: the window bounds, the first rule that
    raises or gives the sentinel deciding the result, the union of the others,
    and what each kind of rule takes. */
module AvailabilityProperties {
  import opened Wrappers
  import opened Calendar
  import opened Text
  import opened Availability

  /* ---------------------------------------------------------------------------
     Reading the rules one after the other
     ------------------------------------------------------------------------- */

  /** A rule that gives a set of dates: neither raises nor gives the sentinel. */
  predicate Plain(c: Result<Coverage, RuleError>) {
    c.Ok? && c.value.DateSet?
  }

  /** Every rule before the `i`-th gives a set of dates. */
  predicate PlainBefore(covs: seq<Result<Coverage, RuleError>>, i: int)
    requires 0 <= i <= |covs|
  {
    forall j :: 0 <= j < i ==> Plain(covs[j])
  }

  /** The dates of all the rules that give a set of dates. */
  function UnionOf(covs: seq<Result<Coverage, RuleError>>): (ds: set<Date>)
    ensures forall d :: d in ds <==> exists i :: 0 <= i < |covs| && Plain(covs[i]) && d in covs[i].value.dates
    decreases |covs|
  {
    if covs == [] then {}
    else
      var rest := UnionOf(covs[1..]);
      assert forall i :: 1 <= i < |covs| ==> covs[i] == covs[1..][i - 1];
      (if Plain(covs[0]) then covs[0].value.dates else {}) + rest
  }

  /** Reading stops with an error exactly at the first rule that raises, when
      no rule before it gave the sentinel. */
  lemma {:induction false} CombineRaises(covs: seq<Result<Coverage, RuleError>>, e: RuleError)
    ensures Combine(covs) == Err(e) <==>
              exists i :: 0 <= i < |covs| && covs[i] == Err(e) && PlainBefore(covs, i)
    decreases |covs|
  {
    if covs != [] {
      CombineRaises(covs[1..], e);
      if Combine(covs) == Err(e) && Plain(covs[0]) {
        var i :| 0 <= i < |covs[1..]| && covs[1..][i] == Err(e) && PlainBefore(covs[1..], i);
        assert covs[i + 1] == Err(e) && PlainBefore(covs, i + 1);
      }
      if exists i :: 0 <= i < |covs| && covs[i] == Err(e) && PlainBefore(covs, i) {
        var i :| 0 <= i < |covs| && covs[i] == Err(e) && PlainBefore(covs, i);
        if i > 0 {
          assert covs[1..][i - 1] == Err(e) && PlainBefore(covs[1..], i - 1);
        }
      }
    }
  }

  /** Reading gives the sentinel exactly when some rule gives it and every rule
      before it gives a set of dates. */
  lemma {:induction false} CombineWholeWindow(covs: seq<Result<Coverage, RuleError>>)
    ensures Combine(covs) == Ok(WholeWindow) <==>
              exists i :: 0 <= i < |covs| && covs[i] == Ok(WholeWindow) && PlainBefore(covs, i)
    decreases |covs|
  {
    if covs != [] {
      CombineWholeWindow(covs[1..]);
      if Combine(covs) == Ok(WholeWindow) && Plain(covs[0]) {
        var i :| 0 <= i < |covs[1..]| && covs[1..][i] == Ok(WholeWindow) && PlainBefore(covs[1..], i);
        assert covs[i + 1] == Ok(WholeWindow) && PlainBefore(covs, i + 1);
      }
      if exists i :: 0 <= i < |covs| && covs[i] == Ok(WholeWindow) && PlainBefore(covs, i) {
        var i :| 0 <= i < |covs| && covs[i] == Ok(WholeWindow) && PlainBefore(covs, i);
        if i > 0 {
          assert covs[1..][i - 1] == Ok(WholeWindow) && PlainBefore(covs[1..], i - 1);
        }
      }
    }
  }

  /** When every rule gives a set of dates, reading them gives their union. */
  lemma {:induction false} CombineUnion(covs: seq<Result<Coverage, RuleError>>)
    requires forall i :: 0 <= i < |covs| ==> Plain(covs[i])
    ensures Combine(covs) == Ok(DateSet(UnionOf(covs)))
    decreases |covs|
  {
    if covs != [] {
      CombineUnion(covs[1..]);
    }
  }

  /** When no rule raises, the result is the sentinel if any rule gives it and
      the union of the rules' dates otherwise. */
  lemma {:induction false} CombineWithoutErrors(covs: seq<Result<Coverage, RuleError>>)
    requires forall i :: 0 <= i < |covs| ==> covs[i].Ok?
    ensures Combine(covs) ==
              if exists i :: 0 <= i < |covs| && covs[i] == Ok(WholeWindow) then Ok(WholeWindow)
              else Ok(DateSet(UnionOf(covs)))
    decreases |covs|
  {
    if covs != [] {
      CombineWithoutErrors(covs[1..]);
      if exists i :: 0 <= i < |covs[1..]| && covs[1..][i] == Ok(WholeWindow) {
        var i :| 0 <= i < |covs[1..]| && covs[1..][i] == Ok(WholeWindow);
        assert covs[i + 1] == Ok(WholeWindow);
      }
      if exists i :: 0 <= i < |covs| && covs[i] == Ok(WholeWindow) {
        var i :| 0 <= i < |covs| && covs[i] == Ok(WholeWindow);
        if i > 0 {
          assert covs[1..][i - 1] == Ok(WholeWindow);
        }
      }
    }
  }

  /** When no rule raises, neither the order of the rules nor a repeated rule
      changes the result. */
  lemma CombineOrderFree(covs1: seq<Result<Coverage, RuleError>>, covs2: seq<Result<Coverage, RuleError>>)
    requires forall c :: c in covs1 <==> c in covs2
    requires forall i :: 0 <= i < |covs1| ==> covs1[i].Ok?
    ensures Combine(covs1) == Combine(covs2)
  {
    forall i | 0 <= i < |covs2|
      ensures covs2[i].Ok?
    {
      assert covs2[i] in covs1;
    }
    CombineWithoutErrors(covs1);
    CombineWithoutErrors(covs2);
    if exists i :: 0 <= i < |covs1| && covs1[i] == Ok(WholeWindow) {
      var i :| 0 <= i < |covs1| && covs1[i] == Ok(WholeWindow);
      assert covs1[i] in covs2;
    }
    if exists i :: 0 <= i < |covs2| && covs2[i] == Ok(WholeWindow) {
      var i :| 0 <= i < |covs2| && covs2[i] == Ok(WholeWindow);
      assert covs2[i] in covs1;
    }
    forall d | d in UnionOf(covs1)
      ensures d in UnionOf(covs2)
    {
      var i :| 0 <= i < |covs1| && Plain(covs1[i]) && d in covs1[i].value.dates;
      assert covs1[i] in covs2;
    }
    forall d | d in UnionOf(covs2)
      ensures d in UnionOf(covs1)
    {
      var i :| 0 <= i < |covs2| && Plain(covs2[i]) && d in covs2[i].value.dates;
      assert covs2[i] in covs1;
    }
    assert UnionOf(covs1) == UnionOf(covs2);
  }

  /** A rule that gives no dates can be dropped without changing the result. */
  lemma {:induction false} CombineDropEmpty(covs: seq<Result<Coverage, RuleError>>, i: int)
    requires 0 <= i < |covs| && covs[i] == Ok(DateSet({}))
    ensures Combine(covs[..i] + covs[i + 1..]) == Combine(covs)
    decreases i
  {
    if i == 0 {
      assert covs[..0] + covs[1..] == covs[1..];
      AddDatesNothing(Combine(covs[1..]));
    } else {
      CombineDropEmpty(covs[1..], i - 1);
      assert (covs[..i] + covs[i + 1..])[1..] == covs[1..][..i - 1] + covs[1..][i..];
    }
  }

  /** When every rule's dates lie in the window, so do the dates of the result. */
  lemma {:induction false} CombineWithinWindow(covs: seq<Result<Coverage, RuleError>>, start: Date, until: Date)
    requires forall i, d :: 0 <= i < |covs| && Plain(covs[i]) && d in covs[i].value.dates ==> start <= d <= until
    ensures Plain(Combine(covs)) ==> forall d :: d in Combine(covs).value.dates ==> start <= d <= until
    decreases |covs|
  {
    if covs != [] {
      assert forall i :: 1 <= i < |covs| ==> covs[i] == covs[1..][i - 1];
      CombineWithinWindow(covs[1..], start, until);
    }
  }

  /* ---------------------------------------------------------------------------
     Holiday rules
     ------------------------------------------------------------------------- */

  /** Holiday dates `named`, with their weekends and clipped to the window: only
      window dates; every named holiday in the window; every weekend day in the
      window that such a holiday joins up with; and besides the holidays, only
      Saturdays and Sundays. */
  lemma WindowedExpansionDates(named: set<Date>, start: Date, until: Date)
    ensures forall d :: d in WindowedExpansion(named, start, until) ==> start <= d <= until
    ensures forall h :: h in named && start <= h <= until ==> h in WindowedExpansion(named, start, until)
    ensures forall h, e :: (h in named && e in NearWeekendDates(h) && start <= e <= until)
                           ==> e in WindowedExpansion(named, start, until)
    ensures forall d :: (d in WindowedExpansion(named, start, until) && d !in named) ==> IsWeekend(d)
  {
  }

  /** What a holiday rule gives, in terms of the holiday dates it names. */
  lemma HolidayRuleDates(entry: string, start: Date, until: Date, calendar: HolidayCalendar)
    requires |Split(entry, ":")| == 2
    ensures var named := NamedHolidayDates(entry, start, until, calendar);
            && (forall d :: d in HolidayDates(entry, start, until, calendar) ==> start <= d <= until)
            && (forall h :: h in named && start <= h <= until ==> h in HolidayDates(entry, start, until, calendar))
            && (forall h, e :: (h in named && e in NearWeekendDates(h) && start <= e <= until)
                               ==> e in HolidayDates(entry, start, until, calendar))
            && (forall d :: d in HolidayDates(entry, start, until, calendar) && d !in named ==> IsWeekend(d))
  {
    WindowedExpansionDates(NamedHolidayDates(entry, start, until, calendar), start, until);
  }

  /** A `Select All …` rule takes every holiday of the country's table. */
  lemma SelectAllTakesEveryHoliday(entry: string, start: Date, until: Date, calendar: HolidayCalendar)
    requires |Split(entry, ":")| == 2 && StartsWith(Split(entry, ":")[1], SelectAllPrefix)
    requires CountryHolidays(entry, start, until, calendar).Some?
    ensures var table := CountryHolidays(entry, start, until, calendar).value;
            forall name, h :: name in table && h in table[name] ==> h in NamedHolidayDates(entry, start, until, calendar)
  {
    var table := CountryHolidays(entry, start, until, calendar).value;
    forall name, h | name in table && h in table[name]
      ensures h in HolidaysNamed(table, table.Keys)
    {
    }
  }

  /** A country the calendar does not know, or a holiday its table does not
      have, gives no dates. */
  lemma UnknownHolidayGivesNothing(entry: string, start: Date, until: Date, calendar: HolidayCalendar)
    requires |Split(entry, ":")| == 2
    requires var found := CountryHolidays(entry, start, until, calendar);
             var holiday := Split(entry, ":")[1];
             found.None? || (!StartsWith(holiday, SelectAllPrefix) && holiday !in found.value)
    ensures HolidayDates(entry, start, until, calendar) == {}
  {
  }

  /* ---------------------------------------------------------------------------
     Custom rules
     ------------------------------------------------------------------------- */

  /** A custom rule whose repeat option is not one of REPEAT_OPTIONS_SET gives
      nothing, whatever its date range says. */
  lemma UnknownRepeatGivesNothing(entry: string, start: Date, until: Date, names: RepeatNames)
    requires |Split(entry, ":")| == 2 && ParseRepeat(names, Split(entry, ":")[1]).None?
    ensures CustomDates(entry, start, until, names) == Ok(Dates([]))
  {
  }

  /** A periodic rule gives the sentinel exactly when its input range is longer
      than its limit; otherwise it takes the window dates whose month and day,
      day of the month or weekday some date of the input range shares. */
  lemma PeriodicRule(rep: Repeat, first: Date, last: Date, start: Date, until: Date)
    requires rep != NoRepeat
    ensures ExpandRange(rep, first, last, start, until) == AllDates <==> last - first > RangeLimit(rep)
    ensures ExpandRange(rep, first, last, start, until).Dates? ==>
              forall d :: d in ExpandRange(rep, first, last, start, until).dates <==>
                            start <= d <= until
                            && exists x :: first <= x <= last && RepeatKeyOf(rep, x) == RepeatKeyOf(rep, d)
  {
  }

  /** A test that no window date passes selects nothing. */
  lemma {:induction false} DatesWhereNone(p: Date -> bool, start: Date, upTo: Date)
    requires forall d :: start <= d <= upTo ==> !p(d)
    ensures DatesWhere(p, start, upTo) == []
    decreases upTo - start
  {
    if start <= upTo {
      DatesWhereNone(p, start, upTo - 1);
    }
  }

  /** A one-time rule takes the window dates strictly between the two ends of
      its range: never the ends themselves, and nothing for a range of one or
      two days. */
  lemma NoRepeatRule(first: Date, last: Date, start: Date, until: Date)
    ensures ExpandRange(NoRepeat, first, last, start, until).Dates?
    ensures var ds := ExpandRange(NoRepeat, first, last, start, until).dates;
            && (forall d :: d in ds <==> start <= d <= until && first < d < last)
            && first !in ds && last !in ds
            && (last <= first + 1 ==> ds == [])
  {
    if last <= first + 1 {
      DatesWhereNone(d => Chosen(NoRepeat, first, last, d), start, until);
    }
  }

  /** A range that ends before it starts gives nothing, whatever its repeat option. */
  lemma ReversedRangeGivesNothing(rep: Repeat, first: Date, last: Date, start: Date, until: Date)
    requires last < first
    ensures ExpandRange(rep, first, last, start, until) == Dates([])
  {
    DatesWhereNone(d => Chosen(rep, first, last, d), start, until);
  }

  /** A yearly rule over a range that holds no February 29th never gives a
      February 29th. */
  lemma YearlyRuleWithoutLeapDay(first: Date, last: Date, start: Date, until: Date)
    requires forall x :: first <= x <= last ==> !(Month(x) == 2 && Day(x) == 29)
    ensures ExpandRange(EachYear, first, last, start, until).Dates? ==>
              forall d :: d in ExpandRange(EachYear, first, last, start, until).dates
                          ==> !(Month(d) == 2 && Day(d) == 29)
  {
  }

  /* ---------------------------------------------------------------------------
     All of a participant's rules
     ------------------------------------------------------------------------- */

  /** Each rule alone gives only window dates. */
  lemma RuleCoverageWithinWindow(rule: string, start: Date, until: Date, env: Env)
    ensures Plain(RuleCoverage(rule, start, until, env)) ==>
              forall d :: d in RuleCoverage(rule, start, until, env).value.dates ==> start <= d <= until
  {
  }

  /** `get_available_dates` gives only window dates. */
  lemma AvailableDatesWithinWindow(text: string, start: Date, until: Date, env: Env)
    ensures AvailableDates(text, start, until, env).Ok? ==>
              forall d :: d in AvailableDates(text, start, until, env).value ==> start <= d <= until
  {
    var rules := Split(text, ",");
    var covs := RuleCoverages(rules, start, until, env);
    forall i, d | 0 <= i < |covs| && Plain(covs[i]) && d in covs[i].value.dates
      ensures start <= d <= until
    {
      RuleCoveragesAt(rules, start, until, env, i);
      RuleCoverageWithinWindow(rules[i], start, until, env);
    }
    CombineWithinWindow(covs, start, until);
  }

  /** When a rule gives the sentinel and every rule before it gives a set of
      dates, `get_available_dates` gives every date of the window. */
  lemma AvailableDatesWholeWindow(text: string, start: Date, until: Date, env: Env, i: int)
    requires 0 <= i < |Split(text, ",")|
    requires RuleCoverage(Split(text, ",")[i], start, until, env) == Ok(WholeWindow)
    requires forall j :: 0 <= j < i ==> Plain(RuleCoverage(Split(text, ",")[j], start, until, env))
    ensures AvailableDates(text, start, until, env) == Ok(Window(start, until))
  {
    var rules := Split(text, ",");
    var covs := RuleCoverages(rules, start, until, env);
    forall j | 0 <= j <= i
      ensures covs[j] == RuleCoverage(rules[j], start, until, env)
    {
      RuleCoveragesAt(rules, start, until, env, j);
    }
    CombineWholeWindow(covs);
    assert covs[i] == Ok(WholeWindow) && PlainBefore(covs, i);
  }

  /** When every rule gives a set of dates, `get_available_dates` gives their union. */
  lemma AvailableDatesUnion(text: string, start: Date, until: Date, env: Env)
    requires forall rule :: rule in Split(text, ",") ==> Plain(RuleCoverage(rule, start, until, env))
    ensures AvailableDates(text, start, until, env).Ok?
    ensures forall d :: d in AvailableDates(text, start, until, env).value <==>
                        exists rule :: rule in Split(text, ",") && Plain(RuleCoverage(rule, start, until, env))
                                       && d in RuleCoverage(rule, start, until, env).value.dates
  {
    var rules := Split(text, ",");
    var covs := RuleCoverages(rules, start, until, env);
    forall i | 0 <= i < |rules|
      ensures covs[i] == RuleCoverage(rules[i], start, until, env) && Plain(covs[i])
    {
      RuleCoveragesAt(rules, start, until, env, i);
      assert rules[i] in rules;
    }
    CombineUnion(covs);
    forall d | d in UnionOf(covs)
      ensures exists rule :: rule in rules && Plain(RuleCoverage(rule, start, until, env))
                             && d in RuleCoverage(rule, start, until, env).value.dates
    {
      var i :| 0 <= i < |covs| && Plain(covs[i]) && d in covs[i].value.dates;
      assert rules[i] in rules;
    }
    forall d, rule | rule in rules && Plain(RuleCoverage(rule, start, until, env))
                     && d in RuleCoverage(rule, start, until, env).value.dates
      ensures d in UnionOf(covs)
    {
      var i :| 0 <= i < |rules| && rules[i] == rule;
      assert Plain(covs[i]) && d in covs[i].value.dates;
    }
  }

  /** When no rule raises, `get_available_dates` gives the same dates for the
      same rules in any order, each written any number of times. */
  lemma AvailableDatesOrderFree(text1: string, text2: string, start: Date, until: Date, env: Env)
    requires forall rule :: rule in Split(text1, ",") <==> rule in Split(text2, ",")
    requires forall rule :: rule in Split(text1, ",") ==> RuleCoverage(rule, start, until, env).Ok?
    ensures AvailableDates(text1, start, until, env) == AvailableDates(text2, start, until, env)
  {
    var rules1, rules2 := Split(text1, ","), Split(text2, ",");
    var covs1 := RuleCoverages(rules1, start, until, env);
    var covs2 := RuleCoverages(rules2, start, until, env);
    forall i | 0 <= i < |rules1|
      ensures covs1[i] == RuleCoverage(rules1[i], start, until, env)
    {
      RuleCoveragesAt(rules1, start, until, env, i);
    }
    forall i | 0 <= i < |rules2|
      ensures covs2[i] == RuleCoverage(rules2[i], start, until, env)
    {
      RuleCoveragesAt(rules2, start, until, env, i);
    }
    forall c | c in covs1
      ensures c in covs2
    {
      var i :| 0 <= i < |covs1| && covs1[i] == c;
      assert rules1[i] in rules2;
      var j :| 0 <= j < |rules2| && rules2[j] == rules1[i];
      assert covs2[j] == c;
    }
    forall c | c in covs2
      ensures c in covs1
    {
      var j :| 0 <= j < |covs2| && covs2[j] == c;
      assert rules2[j] in rules1;
      var i :| 0 <= i < |rules1| && rules1[i] == rules2[j];
      assert covs1[i] == c;
    }
    forall i | 0 <= i < |covs1|
      ensures covs1[i].Ok?
    {
      assert rules1[i] in rules1;
    }
    CombineOrderFree(covs1, covs2);
  }

  /** A rule that is not two `:`-separated parts can be left out of the list
      without changing what the rules give. */
  lemma MalformedRuleIgnored(rules: seq<string>, i: int, start: Date, until: Date, env: Env)
    requires 0 <= i < |rules| && |Split(rules[i], ":")| != 2
    ensures Combine(RuleCoverages(rules[..i] + rules[i + 1..], start, until, env))
            == Combine(RuleCoverages(rules, start, until, env))
  {
    var rest := rules[..i] + rules[i + 1..];
    var covs := RuleCoverages(rules, start, until, env);
    var restCovs := RuleCoverages(rest, start, until, env);
    forall j | 0 <= j < |rest|
      ensures restCovs[j] == (covs[..i] + covs[i + 1..])[j]
    {
      RuleCoveragesAt(rest, start, until, env, j);
      if j < i {
        RuleCoveragesAt(rules, start, until, env, j);
      } else {
        RuleCoveragesAt(rules, start, until, env, j + 1);
      }
    }
    assert restCovs == covs[..i] + covs[i + 1..];
    RuleCoveragesAt(rules, start, until, env, i);
    CombineDropEmpty(covs, i);
  }
}
