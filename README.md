# mijnafvalwijzer-to-ical, modelled in Dafny

The script `mijnafvalwijzer-to-ical.py` turns the collection-day page of
mijnafvalwijzer.nl for one address into an iCalendar file. This project models
the logic between the command line and the calendar:

- the alarm policy table: nine waste categories, each mapped to the "unset"
  sentinel or to a trigger offset, and built from the `--alarm` option by a
  `while` loop (custom pairs) or a `for` loop (a bare `--alarm`);
- the split of the house number into number and suffix, the waste-type
  selector, and the page URL;
- the resolution of each waste-info anchor of the page to a waste type, a date
  (weekday, day, Dutch month name, optional year) and a description;
- the event built for each selected anchor: identifier, start at midnight of
  the collection day and end at midnight of the next day, summary,
  transparency and the optional display alarm, in page order, with the first
  exception ending the run;
- the whole run as one function of the arguments, the fetched page and the
  current year, with a method that performs it step by step.

Modules, one per file:

| file | module | contents |
|---|---|---|
| failures.dfy | Failures | one `Error` constructor per exception the script can raise, plus `Option`/`Result` |
| text.dfy | Text | `int()`, `str.split`, `str.replace`, clamped slices, `str(n)` |
| dates.dfy | Dates | `datetime` validity, `tm_yday`, `toordinal`, `date + timedelta(1)`, the `MONTHS` table |
| alarm_policy.dfy | AlarmPolicy | the alarm table, the time-token parser and the two loops |
| arguments.dfy | Arguments | the house-number split, the selector and the URL |
| extract.dfy | Extract | anchor records, waste type from href or class, the date scanner, comma unescaping |
| events.dfy | CalendarEvents | one event per anchor, the event loop, identifiers |
| pipeline.dfy | Pipeline | the run from arguments to calendar |
| scenario.dfy | Scenario | a two-row run with default alarms, in general and for 5 and 6 March 2024 |

The model follows the code where its behaviour is easy to misread:

- Time tokens are read with `int()` on `time[0:2]` and `time[2:]`. The help
  text calls them a 24-hour time, but nothing checks the range: "2500" gives
  25 hours and "0075" gives 75 minutes.
- The trigger is relative to the event's start, which is midnight of the
  collection day. The bare `--alarm` therefore alarms at 08:00 on the day
  itself, not eight hours before midnight.
- A malformed `--alarm` value ends the run through `parser.exit()`, whose exit
  status is 0. It is modelled as the failure `BadAlarmFormat`.
- A missing `href` is always an exception. A missing `<p>` is an exception for
  a row whose waste type is selected, because the date is read from it; a row
  whose `#waste-x` type is not selected is skipped before the `<p>` is looked
  at. When the `href` leaves the type to the `<p>`, a missing `<p>` or an empty
  class list is an exception.
- When the `href` gives no type (`#`, empty, or `javascript:void(0);`) and the
  `<p>` has no `class` attribute, the type stays what the `href` left: `""` or
  `"javascript:void(0);"`. Such a row is skipped only because neither is
  normally selected. A selector such as `"gft,,pmd"` does select `""`.
- A day or year of 2147483648 or more in the page text makes `datetime()` raise
  OverflowError (its arguments are C ints), not ValueError.
- With `*` the selected set is the alarm table itself. It is the same
  dictionary object, so a category added by a custom alarm pair is selected
  too.
- A listed category outside the table raises `KeyError` at the alarm lookup,
  for every selected row, whether alarms are on or off.

## Model

| member | source | states |
|---|---|---|
| Text.Decimal | mijnafvalwijzer-to-ical.py:150 | `str(n)` of a natural number is a non-empty run of ASCII digits |
| Text.DecimalValue | mijnafvalwijzer-to-ical.py:150 | the decimal spelling of n has value n |
| Text.DecimalInjective | mijnafvalwijzer-to-ical.py:150 | different numbers have different decimal spellings (both directions) |
| Text.ParseIntDigits | mijnafvalwijzer-to-ical.py:111-112 | `int()` of a non-empty run of digits is its decimal value |
| Text.ParseIntNegative | mijnafvalwijzer-to-ical.py:111-112 | `int("-" + d)` for a digit run d is minus the value of d |
| Text.ParseIntDecimal | mijnafvalwijzer-to-ical.py:145 | `int(str(n)) == n` for every natural n |
| Text.ParseIntNeedsDigit | mijnafvalwijzer-to-ical.py:111-112 | `int()` of a text without a digit raises ValueError (e.g. `int("")`, `int("-")`) |
| Text.Split | mijnafvalwijzer-to-ical.py:87 | `split(',')` yields at least one piece, and no piece contains the separator |
| Text.SplitJoin | mijnafvalwijzer-to-ical.py:87 | joining the pieces of a split with the separator gives the text back |
| Text.SplitCount | mijnafvalwijzer-to-ical.py:92 | a split has one piece more than the text has separators |
| Text.ReplaceCharCount | mijnafvalwijzer-to-ical.py:92 | `replace(':', ',')` keeps the length, turns each ':' into ',' in place and keeps every other character where it was, leaves no ':' and has as many ',' as there were ':' and ',' together |
| Text.ReplaceAllAbsent | mijnafvalwijzer-to-ical.py:138 | replacing a pattern that does not occur changes nothing |
| Dates.DaysBeforeMonthMonotone | mijnafvalwijzer-to-ical.py:150 | the first day of a later month comes after every day of an earlier month |
| Dates.DayOfYear | mijnafvalwijzer-to-ical.py:150 | `tm_yday` lies in 1..365, or 1..366 in a leap year |
| Dates.DayOfYearInjective | mijnafvalwijzer-to-ical.py:150 | within one year, equal days of the year mean equal dates (both directions) |
| Dates.DaysBeforeYearStep | mijnafvalwijzer-to-ical.py:154 | the day count before year y+1 is the count before y plus the length of y |
| Dates.NextDayIsOneDayLater | mijnafvalwijzer-to-ical.py:154 | `date + timedelta(1)` fails exactly on 9999-12-31; otherwise it is a valid date whose ordinal is one more, across month and year ends |
| Dates.MonthNumber | mijnafvalwijzer-to-ical.py:145 | `MONTHS.get(name, 0)` is 0 or a month number 1..12 |
| Dates.MakeDateResult | mijnafvalwijzer-to-ical.py:145 | `datetime(year, month, day)` gives exactly the valid dates; it raises OverflowError exactly when an argument is outside the C int range, and ValueError for every other invalid triple |
| Dates.MonthTable | mijnafvalwijzer-to-ical.py:14-27 | the twelve names and the numbers 1..12 correspond one to one, both ways |
| AlarmPolicy.InitialTable | mijnafvalwijzer-to-ical.py:29-43 | the table starts with exactly the nine categories, all unset |
| AlarmPolicy.TokenCount | mijnafvalwijzer-to-ical.py:92 | the token count is the number of ':' plus the number of ',' plus one |
| AlarmPolicy.TokensJoin | mijnafvalwijzer-to-ical.py:92 | the alarm tokens, joined again by ',', are the option value with every ':' turned into ',' |
| AlarmPolicy.TokensOfPair | mijnafvalwijzer-to-ical.py:92 | for a name and a time that contain neither ':' nor ',', both `name:time` and `name,time` give exactly the tokens [name, time] |
| AlarmPolicy.ParseTimeClock | mijnafvalwijzer-to-ical.py:107-113 | a token HHMM gives HH·60 + MM minutes, with no range check |
| AlarmPolicy.ParseTimeClockDayBefore | mijnafvalwijzer-to-ical.py:107-113 | a token of a '-' and four digits HHMM gives −1440 + HH·60 + MM minutes |
| AlarmPolicy.ParseTimeDayBefore | mijnafvalwijzer-to-ical.py:107-113 | a leading '-' on a token that read as m minutes gives m − 1440, while that stays in the timedelta range |
| AlarmPolicy.ParseTimeNegativeHour | mijnafvalwijzer-to-ical.py:107-113 | only the first '-' is the day before: a token --HMM reads the hour as int("-H"), so "--502" is −1440 − 300 + 2 minutes |
| AlarmPolicy.ParseTimeError | mijnafvalwijzer-to-ical.py:111-113 | a time token fails only as `int()` (ValueError) or `timedelta()` (OverflowError) does |
| AlarmPolicy.ApplyPairsFails | mijnafvalwijzer-to-ical.py:102-114 | the custom loop succeeds exactly when every time token is read |
| AlarmPolicy.ApplyPairsError | mijnafvalwijzer-to-ical.py:102-114 | a failure of the custom loop is the failure of one of its time tokens |
| AlarmPolicy.ApplyPairsUnnamed | mijnafvalwijzer-to-ical.py:102-114 | a category that no pair names keeps its entry, or stays absent |
| AlarmPolicy.ApplyPairsLastPair | mijnafvalwijzer-to-ical.py:102-114 | a category gets the offset of the last pair that names it, so later pairs override earlier ones |
| AlarmPolicy.AlarmAbsent | mijnafvalwijzer-to-ical.py:89-95 | without `--alarm`, alarms are off and the nine categories stay unset |
| AlarmPolicy.AlarmBare | mijnafvalwijzer-to-ical.py:115-117 | a bare `--alarm` turns alarms on and gives each of the nine categories, and only those, 8h00 |
| AlarmPolicy.AlarmCustom | mijnafvalwijzer-to-ical.py:91-100 | a value is refused exactly when its ':' and ',' together are even in number (an odd token count); otherwise alarms are on and the table is the custom loop's result |
| AlarmPolicy.ConfigureAlarms | mijnafvalwijzer-to-ical.py:89-117 | setting the flags step by step and running the loops gives the alarm configuration of the option |
| AlarmPolicy.ApplyCustom | mijnafvalwijzer-to-ical.py:102-114 | the `while` loop with `i += 2` computes the custom loop's table, or its first failure |
| AlarmPolicy.ApplyDefault | mijnafvalwijzer-to-ical.py:115-117 | the `for` loop sets every key, and only the keys, to 8h00 |
| Arguments.LeadingDigits | mijnafvalwijzer-to-ical.py:79 | the leading digit run is all digits and is followed by a non-digit or the end |
| Arguments.SplitHouseNumberShape | mijnafvalwijzer-to-ical.py:77-82 | for an input of the form digits-then-non-digits, number + suffix is the input, with the number all digits and the suffix digit-free; any other input keeps the number as given and an empty suffix |
| Arguments.ParseSelection | mijnafvalwijzer-to-ical.py:84-87 | the selector means all types exactly when it is `*`; otherwise its comma-free pieces join back to the argument |
| Extract.WasteTypeFromFragment | mijnafvalwijzer-to-ical.py:138 | the href `#waste-x` names waste type x, whatever the `<p>` holds |
| Extract.WasteTypeFromClass | mijnafvalwijzer-to-ical.py:139-141 | an href of `#`, empty, or `javascript:void(0);` falls back to the first class of the `<p>` |
| Extract.MatchWithYear | mijnafvalwijzer-to-ical.py:144 | `weekday day month year` matches with all four groups |
| Extract.MatchWithoutYear | mijnafvalwijzer-to-ical.py:144 | `weekday day month` matches with the year group absent |
| Extract.ResolveDate | mijnafvalwijzer-to-ical.py:144-145 | a resolved date is a valid date |
| Extract.ResolveDateText | mijnafvalwijzer-to-ical.py:144-145 | a written date reads back as `datetime(year, month, day)`, with the current year when the year is left out; a valid date comes back unchanged and an invalid day raises |
| Extract.UnknownMonthFails | mijnafvalwijzer-to-ical.py:144-145 | when the leftmost match has a month word outside the table, the date fails (with or without a year, wherever the match sits), and not as a missing match |
| CalendarEvents.UnknownMonthRowFails | mijnafvalwijzer-to-ical.py:143-145 | a selected row whose date has a month word outside the table fails the run; it is never skipped |
| Extract.NoDigitNoDate | mijnafvalwijzer-to-ical.py:144 | paragraph text without a digit never matches |
| Extract.UnescapeEscape | mijnafvalwijzer-to-ical.py:146 | unescaping `\,` undoes the page's comma escaping |
| CalendarEvents.UidInjective | mijnafvalwijzer-to-ical.py:150 | two identifiers are equal exactly when their dates and waste types are |
| CalendarEvents.EventForShape | mijnafvalwijzer-to-ical.py:136-165 | a row is skipped exactly when its type is not selected; an event it yields has its resolved date, end one day later, identifier from date and type, summary "Afval - " + description, TRANSPARENT, and a DISPLAY alarm with the table's offset and the summary exactly when alarms are on and the entry is set |
| CalendarEvents.UnknownKeyFails | mijnafvalwijzer-to-ical.py:159 | a selected category outside the table raises KeyError, alarms on or off |
| CalendarEvents.AllTypesKnownKey | mijnafvalwijzer-to-ical.py:143-159 | with `*` the alarm lookup never fails |
| CalendarEvents.EventsFail | mijnafvalwijzer-to-ical.py:136-167 | the run fails exactly when some row fails, and then with the first failing row's error |
| CalendarEvents.SelectedIndices | mijnafvalwijzer-to-ical.py:143 | the positions of the rows whose type resolves and is selected: increasing, and every such row is among them |
| CalendarEvents.EventsShape | mijnafvalwijzer-to-ical.py:136-167 | a successful run has one event per selected row, in page order: the k-th event is the event the k-th selected row yields |
| CalendarEvents.DisabledNoAlarms | mijnafvalwijzer-to-ical.py:160 | with alarms off no event carries an alarm, whatever the table holds |
| CalendarEvents.EventsErrorPersists | mijnafvalwijzer-to-ical.py:136-167 | a failure among the first rows is the failure of the whole run |
| CalendarEvents.BuildCalendar | mijnafvalwijzer-to-ical.py:136-167 | the loop that adds the events one by one computes the run's events, or its first failure |
| Pipeline.BadAlarmStopsEarly | mijnafvalwijzer-to-ical.py:97-100 | a malformed `--alarm` value ends the run before the page is requested, whatever the server would answer |
| Pipeline.AlarmErrorStops | mijnafvalwijzer-to-ical.py:97-114 | any failure of the alarm option is the failure of the run |
| Pipeline.AddressUrlParts | mijnafvalwijzer-to-ical.py:77-120 | the URL names the split house number and suffix, which make up the argument when it has the number-then-suffix shape |
| Pipeline.ConvertResult | mijnafvalwijzer-to-ical.py:120-167 | a calendar has the fixed header fields, the page title, and the URL; its events are those of the page fetched from that URL |
| Pipeline.NoAlarmOptionNoAlarms | mijnafvalwijzer-to-ical.py:89-95 | without `--alarm` the calendar has no alarms |
| Pipeline.Run | mijnafvalwijzer-to-ical.py:75-167 | performing the script step by step gives the run's result |
| Scenario.BareGivesDefaultAlarms | mijnafvalwijzer-to-ical.py:115-117 | a bare `--alarm` gives every category 8h00 |
| Scenario.DefaultAlarmRow | mijnafvalwijzer-to-ical.py:159-165 | a selected row under default alarms gets a DISPLAY alarm 480 minutes after its start |
| Scenario.FragmentRowEvent | mijnafvalwijzer-to-ical.py:138-165 | a `#waste-x` row dated with its year yields its event |
| Scenario.ClassRowEvent | mijnafvalwijzer-to-ical.py:139-165 | a placeholder row typed by class and dated without a year yields its event in the current year |
| Scenario.EventsOfTwo | mijnafvalwijzer-to-ical.py:167 | two rows that each yield an event give those two events, in order |
| Scenario.TwoRowCalendar | mijnafvalwijzer-to-ical.py:136-167 | two such rows under default alarms give exactly two events, on their dates, each ending one day later, each with its identifier and an 8h00 alarm |
| Scenario.March2024 | mijnafvalwijzer-to-ical.py:136-167 | "maandag 5 maart 2024" and "dinsdag 6 maart" in 2024 give the events 5–6 and 6–7 March 2024, each with a 480-minute alarm |

## Left out

- The HTTP request (line 121). The fetch is a parameter of `Pipeline.Convert` from URL to parsed page, or to a failure.
- HTML parsing by BeautifulSoup (lines 122, 136, 140-141, 146). Each waste-info anchor is a record of its `href`, its first `<p>` (class list and text) and its description span's text, and the page is its title plus the anchors in document order.
- Serialisation by icalendar (`vDatetime`, `vDuration`, `to_ical`) and the write to `testing.ics` (line 170). The calendar is a record of its fields, and an alarm's trigger is a number of minutes.
- `dtstamp` (line 151), which is `datetime.now()`. The only other use of the clock is `now.year`, which is the `currentYear` parameter.
- argparse itself, including the help text and the usage output (lines 46-72, 98-99). The three positional arguments and the three forms of `--alarm` are the input.
- Regular expressions in general. The two patterns are hand-written scanners, with `\d` and `\w` restricted to ASCII. Non-ASCII digits and letters, which Python's `re` and `int()` also accept, are not modelled, and `int()`'s whitespace stripping (`Text.IsSpace`) knows only ASCII whitespace.
- The time of day of `dtstart` and `dtend`. Lines 153-154 write date-times at 00:00 through `vDatetime`; the model keeps only their dates.
- `int()` accepting underscores between digits, and its limit of 4300 digits.
- `aw.title.string` being None for a title with several children. The model only knows a page with or without a title.
- BeautifulSoup's parsing of an empty `class` attribute. The model takes the class list the parser would hand over.
- Scenario.March2024: states the dates, the span and the alarms of the two events but not their identifiers' literal text. `CalendarEvents.UidInjective` and `Scenario.TwoRowCalendar` give the identifiers as `Uid(date, type)`.
