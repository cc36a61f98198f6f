# School reunion scheduling: availability rules and the candidate map

The reunion site lets each participant describe when they can attend a
meeting as a comma-separated list of rules. A rule is either a holiday,
`Country_Name:Holiday Name` (or `Country:Select All …` for every holiday
of the country), or a custom range, `MM/DD/YYYY - MM/DD/YYYY:<repeat option>`,
repeated once, every year, every month or every week. The scheduler turns
each participant's rules into the set of dates of the coming year they are
available on. It then builds a map from each date to the participants who
may be invited on it: those available that day whose last confirmed
meeting is far enough in the past, measured from their preferred
attendance interval.

This project models that engine in Dafny and proves what it promises:

- `calendar.dfy` (module `Calendar`): dates as day ordinals, as Python's
  `date.toordinal` counts them, over the proleptic Gregorian calendar. It
  holds the conversions to and from year/month/day, proved inverse to each
  other, and `weekday()`.
- `text.dfy` (module `Text`): `str.split`, one-character `str.replace` and
  `str.startswith`, with `split` proved to give back its input when joined.
- `date_format.dfy` (module `DateFormat`): the `MM/DD/YYYY` dates of custom
  rules, with parsing and formatting proved inverse to each other.
- `availability.dfy` (module `Availability`): `_get_near_weekend_dates`,
  `_transfer_holiday_to_dates`, `_transfer_custom_input_to_dates`,
  `_get_all_dates` and `get_available_dates`. Each loop is a method proved
  against a specification function of its inputs.
- `availability_properties.dfy` (module `AvailabilityProperties`): what a
  rule list gives and does not give. This covers the window bounds, the
  first rule that raises, the "all dates" sentinel, the union of the
  rules, and independence from rule order and repetition. It also covers
  the holiday and custom rules one by one.
- `candidates.dfy` (module `CandidateMap`): the loop of `schedule_meeting`
  that builds `date_to_potential_participants`, over a given list of
  participants. It comes with the map's characterisation: its keys, each
  date's list in participant order, its errors, and its window.

Collaborators the engine calls are parameters of the model:

- the holiday calendar `get_country_to_holidays_map(years)` is the
  `HolidayCalendar` function in `Env`;
- the spellings of the four repeat options (`NO_REPEAT`,
  `REPEAT_EACH_YEAR`, `REPEAT_EACH_MONTH`, `REPEAT_EACH_WEEK`) are
  `RepeatNames` in `Env`;
- the current date (`utcnow()`) is the `today` argument.

A custom rule whose range does not split on ` - ` into two parts, or whose
dates `strptime` refuses, makes the source raise `ValueError`. The model
returns `Err(RuleError)` there, and that error ends `get_available_dates`
and the candidate-map loop, as the exception does: lines 66-68 of
`schedule_meeting.py` raise, and nothing between them and the loop of
`schedule_meeting` catches the exception.

## Model

| member | source | states |
|---|---|---|
| Calendar.Weekday | school_reunion_website/reunion/schedule_meeting.py:24-34 | `date.weekday()`: always 0 (Monday) to 6 (Sunday) |
| Calendar.FromOrdinal | school_reunion_website/reunion/schedule_meeting.py:79-81 | every ordinal is a valid year/month/day whose ordinal is that number |
| Calendar.ToOrdinalInjective | school_reunion_website/reunion/schedule_meeting.py:67-68 | two valid dates with the same ordinal are the same date |
| Calendar.FromToOrdinal | school_reunion_website/reunion/schedule_meeting.py:67-68 | a valid date converted to its ordinal and back is unchanged |
| Text.Split | school_reunion_website/reunion/schedule_meeting.py:39 | `str.split`: at least one part, the parts joined with the separator give back the input, no part holds the separator, and each cut is at the first occurrence of the separator after the previous cut |
| Text.FindFrom | school_reunion_website/reunion/schedule_meeting.py:39 | the first occurrence of the separator at or after a position, or the end when there is none |
| Text.ReplaceChar | school_reunion_website/reunion/schedule_meeting.py:40 | same length, and each `_` becomes a space while every other character stays |
| DateFormat.ParseFormatDate | school_reunion_website/reunion/schedule_meeting.py:67-68 | the `MM/DD/YYYY` text of a date of years 1 to 9999 parses back to that date |
| DateFormat.FormatParsedDate | school_reunion_website/reunion/schedule_meeting.py:66-68 | text that parses is a date of years 1 to 9999 whose `MM/DD/YYYY` text is that text |
| Availability.NearWeekendDates | school_reunion_website/reunion/schedule_meeting.py:24-34 | a date is listed exactly when it is a Saturday or Sunday next to the day, with no working day between them; no date is listed twice |
| Availability.YearRange | school_reunion_website/reunion/schedule_meeting.py:41 | `range(start.year, until.year + 1)`: the years from the first to the last, in order |
| Availability.HolidaysNamedAddOne | school_reunion_website/reunion/schedule_meeting.py:47-49 | taking one more holiday of the table adds exactly that holiday's dates |
| Availability.CollectHolidayDates | school_reunion_website/reunion/schedule_meeting.py:47-49 | the `Select All` loop collects exactly the dates of every holiday of the table |
| Availability.WithAdjacentWeekends | school_reunion_website/reunion/schedule_meeting.py:53-57 | a date is in the expansion exactly when it is a holiday or a weekend day next to one |
| Availability.AddAdjacentWeekends | school_reunion_website/reunion/schedule_meeting.py:53-57 | the loop's set is the holidays with the weekend days next to them |
| Availability.WindowOfAdjacentWeekends | school_reunion_website/reunion/schedule_meeting.py:53-58 | clipping the expanded holidays to the window gives the window dates that are holidays or weekend days next to one |
| Availability.TransferHolidayToDates | school_reunion_website/reunion/schedule_meeting.py:37-58 | the holiday reading of a rule: the named holiday's (or every holiday's) dates and their adjacent weekends, in the window; nothing for an unknown or empty country |
| Availability.ParseRepeat | school_reunion_website/reunion/schedule_meeting.py:62-64 | an option is unknown exactly when it is none of the four repeat spellings |
| Availability.ReadCustomRule | school_reunion_website/reunion/schedule_meeting.py:61-68 | an unknown option gives nothing before the range is looked at; a known option raises exactly when the range does not split on ` - ` into two parts, or exactly when one of the two ends does not parse as a date; otherwise the rule holds the option and the two dates whose `MM/DD/YYYY` text the ends are |
| Availability.DatesWhere | school_reunion_website/reunion/schedule_meeting.py:96-111 | the window dates passing a test, strictly ascending, and a date is listed exactly when it is in the window and passes |
| Availability.DatesWhereAgree | school_reunion_website/reunion/schedule_meeting.py:96-111 | two tests that agree on the window select the same dates |
| Availability.ChosenByKeys | school_reunion_website/reunion/schedule_meeting.py:76-108 | a window date is taken by a periodic rule exactly when its key (month and day, day, weekday) is one of the keys of the input range |
| Availability.CollectRepeatKeys | school_reunion_website/reunion/schedule_meeting.py:76-94 | `repeated_rule_set` holds exactly the keys of the dates of the input range |
| Availability.ScanWindow | school_reunion_website/reunion/schedule_meeting.py:96-111 | the scan appends exactly the window dates the rule takes, in calendar order |
| Availability.ExpandCustomRange | school_reunion_website/reunion/schedule_meeting.py:69-111 | a range longer than 365, 30 or 6 days gives the sentinel; otherwise the dates the rule takes |
| Availability.TransferCustomInputToDates | school_reunion_website/reunion/schedule_meeting.py:61-111 | the custom reading of a rule, or its error; the dates it gives are strictly ascending and in the window |
| Availability.GetAllDates | school_reunion_website/reunion/schedule_meeting.py:114-120 | every day from start to until, in order, one each |
| Availability.Window | school_reunion_website/reunion/schedule_meeting.py:114-120 | a date is in the window exactly when it lies from start to until |
| Availability.AllDatesWindow | school_reunion_website/reunion/schedule_meeting.py:131-132 | the dates `_get_all_dates` lists are exactly the window |
| Availability.RuleCoverages | school_reunion_website/reunion/schedule_meeting.py:124-130 | one reading per rule |
| Availability.RuleCoveragesAt | school_reunion_website/reunion/schedule_meeting.py:124-130 | the `i`-th reading is that of the `i`-th rule |
| Availability.ReadRule | school_reunion_website/reunion/schedule_meeting.py:127-130 | the holiday reading when it is not empty, the custom reading otherwise |
| Availability.GetAvailableDates | school_reunion_website/reunion/schedule_meeting.py:123-135 | the loop's result is the readings combined in order: the first error, else the whole window on the first sentinel, else the union |
| AvailabilityProperties.UnionOf | school_reunion_website/reunion/schedule_meeting.py:133-135 | a date is in the union exactly when some rule gives a set of dates holding it |
| AvailabilityProperties.CombineRaises | school_reunion_website/reunion/schedule_meeting.py:124-135 | reading ends with error `e` exactly when some rule raises `e` and every rule before it gives a set of dates |
| AvailabilityProperties.CombineWholeWindow | school_reunion_website/reunion/schedule_meeting.py:131-132 | the whole window comes back exactly when some rule gives the sentinel and every rule before it gives a set of dates |
| AvailabilityProperties.CombineUnion | school_reunion_website/reunion/schedule_meeting.py:133-135 | when every rule gives a set of dates, the result is their union |
| AvailabilityProperties.CombineWithoutErrors | school_reunion_website/reunion/schedule_meeting.py:124-135 | without errors, the sentinel wins wherever it stands, and the union comes back otherwise |
| AvailabilityProperties.CombineOrderFree | school_reunion_website/reunion/schedule_meeting.py:124-135 | without errors, reordering or repeating rules changes nothing |
| AvailabilityProperties.CombineDropEmpty | school_reunion_website/reunion/schedule_meeting.py:133-135 | a rule that gives no dates can be dropped |
| AvailabilityProperties.CombineWithinWindow | school_reunion_website/reunion/schedule_meeting.py:133-135 | window dates in, window dates out |
| AvailabilityProperties.WindowedExpansionDates | school_reunion_website/reunion/schedule_meeting.py:53-58 | holiday results lie in the window, hold every named holiday and adjacent weekend day in it, and besides holidays only weekend days |
| AvailabilityProperties.HolidayRuleDates | school_reunion_website/reunion/schedule_meeting.py:37-58 | a holiday rule gives only window dates, every holiday it names that falls in the window, every adjacent weekend day of such a holiday in the window, and besides those holidays only Saturdays and Sundays |
| AvailabilityProperties.SelectAllTakesEveryHoliday | school_reunion_website/reunion/schedule_meeting.py:47-49 | a `Select All` rule names every date of every holiday of the country |
| AvailabilityProperties.UnknownHolidayGivesNothing | school_reunion_website/reunion/schedule_meeting.py:44-51 | an unknown country, or a holiday the table lacks, gives no dates |
| AvailabilityProperties.UnknownRepeatGivesNothing | school_reunion_website/reunion/schedule_meeting.py:62-64 | an unknown repeat option gives no dates and no error, whatever its range |
| AvailabilityProperties.PeriodicRule | school_reunion_website/reunion/schedule_meeting.py:76-106 | sentinel exactly when the range is longer than the option's limit; otherwise a window date is taken exactly when it shares its key with a date of the range |
| AvailabilityProperties.DatesWhereNone | school_reunion_website/reunion/schedule_meeting.py:96-111 | a test no window date passes selects nothing |
| AvailabilityProperties.NoRepeatRule | school_reunion_website/reunion/schedule_meeting.py:107-109 | a one-time rule takes exactly the window dates strictly between its ends: never the ends, nothing for a range of one or two days |
| AvailabilityProperties.ReversedRangeGivesNothing | school_reunion_website/reunion/schedule_meeting.py:69-111 | a range that ends before it starts gives no dates, whatever the option |
| AvailabilityProperties.YearlyRuleWithoutLeapDay | school_reunion_website/reunion/schedule_meeting.py:75-81 | a yearly rule whose range holds no February 29th never gives one |
| AvailabilityProperties.RuleCoverageWithinWindow | school_reunion_website/reunion/schedule_meeting.py:127-130 | each rule gives only window dates |
| AvailabilityProperties.AvailableDatesWithinWindow | school_reunion_website/reunion/schedule_meeting.py:123-135 | `get_available_dates` gives only window dates |
| AvailabilityProperties.AvailableDatesWholeWindow | school_reunion_website/reunion/schedule_meeting.py:131-132 | a sentinel after rules that all give dates makes the result the whole window |
| AvailabilityProperties.AvailableDatesUnion | school_reunion_website/reunion/schedule_meeting.py:133-135 | when every rule gives a set of dates, a date is available exactly when some rule gives it |
| AvailabilityProperties.AvailableDatesOrderFree | school_reunion_website/reunion/schedule_meeting.py:124-135 | without errors, two rule lists with the same rules give the same result |
| AvailabilityProperties.MalformedRuleIgnored | school_reunion_website/reunion/schedule_meeting.py:127-128 | a rule that is not two `:`-separated parts can be removed without changing the result |
| CandidateMap.AvailabilityOf | school_reunion_website/reunion/schedule_meeting.py:146-149 | one reading of availability per participant |
| CandidateMap.AvailabilityOfAt | school_reunion_website/reunion/schedule_meeting.py:146-149 | the `i`-th reading is `get_available_dates` of the `i`-th participant over today to today + 365 |
| CandidateMap.FirstErrorEnds | school_reunion_website/reunion/schedule_meeting.py:142-149 | once a participant's rules raise, the loop's result is that error |
| CandidateMap.CandidatesStep | school_reunion_website/reunion/schedule_meeting.py:142-155 | one more participant read without error adds them under their acceptable dates |
| CandidateMap.AddParticipantStep | school_reunion_website/reunion/schedule_meeting.py:155 | appending under one more date is one `defaultdict(list)` append |
| CandidateMap.AddParticipantNothing | school_reunion_website/reunion/schedule_meeting.py:153-155 | adding a participant under no date leaves the map as it was |
| CandidateMap.AddOneDate | school_reunion_website/reunion/schedule_meeting.py:153-155 | a date before the earliest acceptable date changes nothing; any other date gets the participant appended |
| CandidateMap.AddAcceptableDates | school_reunion_website/reunion/schedule_meeting.py:150-155 | the inner loop appends the participant under exactly its available dates from the earliest acceptable date on |
| CandidateMap.BuildCandidateMap | school_reunion_website/reunion/schedule_meeting.py:141-155 | the loop's map, or the first error a participant's rules raise |
| CandidateMap.CandidatesError | school_reunion_website/reunion/schedule_meeting.py:141-155 | the loop ends with error `e` exactly when `e` is the error of the first participant whose rules raise |
| CandidateMap.CandidatesOk | school_reunion_website/reunion/schedule_meeting.py:141-155 | the loop ends without error exactly when every participant's rules were read |
| CandidateMap.CandidatesContents | school_reunion_website/reunion/schedule_meeting.py:141-155 | a date is a key exactly when someone may be invited on it, and its list is those participants in input order |
| CandidateMap.InvitableMembers | school_reunion_website/reunion/schedule_meeting.py:152-155 | someone is on a date's list exactly when they are a participant who is available that day and whose earliest acceptable date is not after it |
| CandidateMap.InvitableDistinct | school_reunion_website/reunion/schedule_meeting.py:141-155 | distinct participants give lists where nobody appears twice |
| CandidateMap.CandidateDatesWithinYear | school_reunion_website/reunion/schedule_meeting.py:146-155 | every key lies from today to today + 365, has a non-empty list, and nobody on it is listed before their earliest acceptable date |
| CandidateMap.DateWithinYear | school_reunion_website/reunion/schedule_meeting.py:146-149 | a date a participant is available on lies in the coming year |

## Left out

- Database reads (`MeetingRecord.objects.get`, `MeetingPreference.objects.get`, `MeetingAttendance.objects.get`) are not modelled. As written, these lookups return a single object or raise, so the loop could not iterate them. The model takes the participants as a list of `Participant` values instead.
- `CandidateMap.Participant`: the date of the participant's last confirmed meeting is taken as given. The attendance lookup that supplies it (`MeetingAttendance.objects.get`, with its fallback) is not modelled.
- `CandidateMap.MinimalAttendingInterval`: `months * 30 * 0.7` days is computed in floating point and rounded by `timedelta` to microseconds. The model uses exactly `21 * months` days and does not model that rounding.
- `CandidateMap.BuildCandidateMap`: the two `utcnow()` calls are one `today` argument. A run that crosses midnight between the two calls is not modelled.
- `DateFormat.ParseDate`: it accepts only zero-padded `MM/DD/YYYY`. `strptime('%m/%d/%Y')` also accepts one-digit months and days, which the model reports as `MalformedDate`.
- Calendar dates are unbounded ordinals. Python's `date` range (years 1 to 9999) and the `OverflowError` at its edges are not modelled.
- Results that the source builds as `list(set)` (`_transfer_holiday_to_dates`, `get_available_dates`) are modelled as sets, because their order is arbitrary in Python. When a rule gives the "all dates" sentinel, `get_available_dates` returns the ordered list of `_get_all_dates`; the model gives that window as a set too. The inner loop of the candidate map walks that set, and no result of the loop depends on the order.
- `get_country_to_holidays_map` and the `REPEAT_*` constants come from `utils.py`, which is not part of this model. They are parameters (`HolidayCalendar`, `RepeatNames`).
- `Availability.ParseRepeat`: `REPEAT_OPTIONS_SET` is also defined in `utils.py`. The model assumes it holds exactly the four spellings `NO_REPEAT`, `REPEAT_EACH_YEAR`, `REPEAT_EACH_MONTH` and `REPEAT_EACH_WEEK`.
- The scheduling steps after the candidate map have no code in the source and are not modelled: size limits, value and conflict resolution, and greedy date picking. The same goes for the views, forms, e-mails, online meetings, models and front-end code.
