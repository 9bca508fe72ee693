# Restaurant opening hours: a verified model of the schedule engine

This project models the schedule engine of a small restaurant-hours web
application (`scheduler/views.py`). The application stores, for each
restaurant, a free-text weekly schedule such as
`"Mon-Fri 9am - 5pm / Sat 10am - 3pm"`. It answers one question: which
restaurants are open at a given day and time, for example `"Mon 10am"`.

The engine has five parts, and each has a Dafny counterpart:

| part of `views.py` | Dafny |
|---|---|
| `parse_time` (lines 11-26) | `Clock.ParseTime`, built from per-directive strptime readers (`FormatHM`, `FormatIp`, `FormatIMp`) |
| `parse_user_time` (lines 65-83) | `Clock.ParseUserTime`, built from the same readers and `FormatH` |
| `parse_schedule` (lines 29-62) | the imperative `ScheduleParser.ParseSchedule` with its inner loop `AddClause`, proved equal to the function `ScheduleOf` |
| the query loop of `CheckOpenRestaurantsView.post` (lines 100-121) | the imperative `Query.CheckOpen`, `Query.ScanRecords` and `Query.OpenIn`, proved equal to `Query.Respond` / `Query.Scan` |
| the row loop of `UploadScheduleView.post` (lines 151-164) | `Store.ScheduleStore.Upload`, a class over the two tables, proved equal to `Store.UploadRows` |

Modules:

- `Outcomes` holds `Option` and `Result`. Every Python exception the engine raises becomes an `Err` value.
- `Text` models the Python string operations the engine uses: `lower`, `capitalize`, `[:3]`, `replace(' ', '')`, `split(sep)`, `split(sep, 1)`, `split(None, 1)`, `strip`, and substring `in`.
- `Clock` defines a time of day as seconds since midnight, below 86400. 23:59:59 is 86399.
  - Each strptime numeric directive reads one or two ASCII digits in the directive's range: `%H` 0-23, `%I` 1-12, `%M` 0-59.
  - `%p` reads `am` or `pm`. The whole token must be consumed.
- `Week` covers the days 0..6 (Mon..Sun), intervals, and the seven-list week.
  - Day ranges expand as `all_days[a:b+1]`, or wrap as `all_days[a:] + all_days[:b+1]`.
  - Intervals are inserted the way the inner loop of `parse_schedule` inserts them.
- `ScheduleParser` parses clauses and day parts, and raises the Python errors in the order the code raises them:
  - a clause without a space (the unpacking at line 41);
  - then a day range with more than one `-`;
  - then an unknown range start, then an unknown range end;
  - then the time range. `map(parse_time, ...)` is lazy and unpacking pulls the pieces one by one, so the first piece is parsed, then a missing second piece is the count error, then the second piece is parsed, then a third piece, if any, is parsed before the count error "too many values" is raised. A fourth piece is never parsed: "9am-5pm-6pm-x" is the count error, while "x" alone is a bad time;
  - last, an unknown single day, which raises `KeyError` on its first use in the inner loop.
- `Store` models the restaurant table and the schedule records `(restaurant, raw string, is_active)`, plus the all-or-nothing upload.
- `Query` models the query: parsing it, the scan over the active records, the warnings for records whose string fails to parse, and the page's list.

## Model

| member | source | states |
|---|---|---|
| Clock.ParseTime | scheduler/views.py:11-26 | a time accepted by `parse_time` is a whole number of minutes (none of its formats reads seconds) |
| Clock.ParseUserTime | scheduler/views.py:65-83 | a time accepted by `parse_user_time` is a whole number of minutes |
| Clock.Field | scheduler/views.py:20-26 | one strptime numeric directive: one or two ASCII digits, a value in the directive's range, and the unread rest does not start with a digit |
| Clock.Meridiem | scheduler/views.py:20 | the directive `%p` at the end of a format: it reads exactly "am" (false) and "pm" (true), and nothing else |
| Clock.Normalize | scheduler/views.py:17 | `lower().replace(' ', '')`: the result has no space and no upper-case ASCII letter |
| Clock.HasMeridiemIff | scheduler/views.py:19 | the test `'am' in s or 'pm' in s` (`Clock.HasMeridiem`) holds exactly when some 'a' or 'p' in `s` is directly followed by 'm' |
| Clock.FieldOf | scheduler/views.py:20-26 | a directive reads exactly the one- or two-digit numeral in front of a non-digit, with its decimal value, and rejects it when that value is out of range |
| Clock.To24 | scheduler/views.py:20 | `%I` with `%p` as a 24-hour hour: below 24, 12 or more exactly for pm, and equal to the 12-hour hour modulo 12, so 12am is 0 and 12pm is 12 |
| Clock.FormatIp | scheduler/views.py:20 | the format `%I%p`; read back by `Clock.RoundTrip12Hour` on every hour spelled with one or two digits, with or without a leading zero |
| Clock.FormatHM | scheduler/views.py:21 | the format `%H:%M`; read back by `Clock.RoundTrip24` on every spelling whose two fields have one or two digits each, and rejecting out-of-range fields by `Clock.RejectsHourOutOfRange` and `Clock.RejectsMinuteOutOfRange` |
| Clock.FormatIMp | scheduler/views.py:25 | the format `%I:%M%p`; read back by `Clock.RoundTrip12Minutes` on every spelling whose two fields have one or two digits each |
| Clock.FormatH | scheduler/views.py:80 | the format `%H`; read back by `Clock.BareHour` on every hour spelled with one or two digits |
| Clock.ParseTimeAgreesWithUserTime | scheduler/views.py:17-26 | every token `parse_time` accepts is read by `parse_user_time` as the same time |
| Clock.OnlyUserTimeReadsBareHour | scheduler/views.py:21-26 | `parse_time` fails while `parse_user_time` succeeds exactly for tokens with no am/pm that `%H` reads (bare hours) |
| Clock.ParseTimeNeedsColonOrMeridiem | scheduler/views.py:21-26 | a token with neither a colon nor am/pm is rejected by `parse_time` with its normalised text, because the fallback repeats `%H:%M` |
| Clock.NormalizeIdempotent | scheduler/views.py:17 | lower-casing and removing spaces is idempotent |
| Clock.ParsersSeeNormalizedToken | scheduler/views.py:17 | both parsers give the same result on a token and on its normalised form |
| Clock.NormalizeConcat | scheduler/views.py:17 | lower-casing and removing spaces works piece by piece: the normal form of `a + b` is the normal form of `a` followed by that of `b` |
| Clock.ParsersIgnoreSpace | scheduler/views.py:17 | inserting a space anywhere in a token changes neither parser's result |
| Clock.ParsersIgnoreCase | scheduler/views.py:17 | lower-casing a token changes neither parser's result |
| Clock.ParseTimeSpacedPieces | scheduler/tests.py:39 | "9am " and " 5pm", the two pieces "9am - 5pm" splits into on '-', are 09:00 and 17:00 |
| Clock.ParseTimeFivePm | scheduler/tests.py:39 | "5pm" is 17:00 |
| Clock.ParseTimeSpacedUpperCase | scheduler/views.py:17 | "9 AM" is 09:00 for both parsers |
| Clock.ParseTimeUpperCase | scheduler/views.py:17 | "9AM" is 09:00 for both parsers |
| Clock.RoundTrip24 | scheduler/views.py:21 | "H:M" with one- or two-digit fields (leading zeros allowed: "14:00", "9:30", "09:5"), an hour below 24 and a minute below 60 parses back to that time, in both parsers |
| Clock.RoundTrip12Minutes | scheduler/views.py:25 | "H:Mam"/"H:Mpm" with one- or two-digit fields ("5:30pm", "09:30pm", "5:7pm") and an hour from 1 to 12 parses back to its 24-hour time in both parsers, with 12am as hour 0 and 12pm as hour 12 |
| Clock.RoundTrip12Hour | scheduler/views.py:20 | "Ham"/"Hpm" with a one- or two-digit hour from 1 to 12 ("9am", "09am") parses back to its whole hour in both parsers |
| Clock.BareHour | scheduler/views.py:80 | a bare hour of one or two digits below 24 ("9", "09", "21") is read by `parse_user_time` and rejected by `parse_time` |
| Clock.ParseTimeNineAm | scheduler/tests.py:29 | "9am" is 09:00 for both parsers |
| Clock.ParseTimeHalfPastFivePm | scheduler/tests.py:30 | "5:30pm" is 17:30 for both parsers |
| Clock.ParseTimeFourteenHundred | scheduler/tests.py:31 | "14:00" is 14:00 for both parsers |
| Clock.ParseTimeTwelveAm | scheduler/views.py:20 | "12am" is midnight |
| Clock.ParseTimeTwelvePm | scheduler/views.py:20 | "12pm" is noon |
| Clock.ParseTimeTwentyOne | scheduler/views.py:21-26 | "21" is rejected by `parse_time` and read as 21:00 by `parse_user_time` |
| Clock.RejectsHourOutOfRange | scheduler/views.py:21-26 | an "H:M" token with one- or two-digit fields whose hour is 24 or more is rejected by both parsers |
| Clock.RejectsMinuteOutOfRange | scheduler/views.py:21-26 | an "H:M" token with one- or two-digit fields whose minute is 60 or more is rejected by both parsers |
| Clock.ParseTimeLeadingZero | scheduler/views.py:20-26 | "09am" is 09:00 and "09:30pm" is 21:30 |
| Clock.BareHourLeadingZero | scheduler/views.py:80 | "09" is 09:00 for `parse_user_time` |
| Clock.ParseTimeOneDigitMinute | scheduler/views.py:21 | "9:5" is 09:05 |
| Clock.RejectsEmpty | scheduler/views.py:17-26 | the empty token is rejected by both parsers |
| Week.DayIndex | scheduler/views.py:47-48 | `all_days.index(name)` is the position of `name` in Mon..Sun, and it is `None` exactly when `name` is not a day name |
| Week.NextDay | scheduler/views.py:57 | the day after `d` is `d + 1`, and the day after Sunday is Monday |
| Week.PrevDay | scheduler/views.py:57 | the day before `d` is the unique day whose next day is `d` |
| Week.DayRange | scheduler/views.py:49-50 | the days of a range A-B, wrapping past Sunday when A > B; its shape is `Week.DayRangeShape` and `Week.DayRangeDistinct` |
| Week.DayRangeShape | scheduler/views.py:49-50 | the range A-B has ((B - A) mod 7) + 1 days, and its k-th day is (A + k) mod 7 |
| Week.DayRangeDistinct | scheduler/views.py:49-50 | a range never names a day twice |
| Week.DayRangeExamples | scheduler/views.py:49-50 | Sat-Mon is [Sat, Sun, Mon], Mon-Fri is [Mon..Fri], a one-day range is that day, and Sun's next day is Mon |
| Week.AddToDay | scheduler/views.py:55-60 | one pass of the inner loop; what it does to every day is `Week.AddToDayAt` |
| Week.AddToDays | scheduler/views.py:54-60 | the inner loop over a clause's days; its effect is `Week.AddToDaysShape`, `Week.PlainClauseDay`, `Week.CrossingClauseDay` and `Week.AddToDaysOpen` |
| Week.ApplyClauses | scheduler/views.py:40-60 | the outer loop over the clauses; it equals `DayIntervals` day by day (`Week.ApplyClausesIsDayIntervals`) and is open exactly where a clause covers (`Week.ApplyClausesOpen`) |
| Week.AddToDayAt | scheduler/views.py:55-60 | one pass of the inner loop appends `(open, close)`, or `(open, 23:59:59)` when close <= open, to the day, puts `(00:00, close)` in front of the next day's list when it crosses, and changes nothing else |
| Week.AddToDaysShape | scheduler/views.py:54-60 | after one clause with distinct days, each day's list is the after-midnight parts in front, the old list, then the clause's own interval |
| Week.PlainClauseDay | scheduler/views.py:59-60 | a clause with close > open appends `(open, close)` to each of its days and leaves the other days alone |
| Week.CrossingClauseDay | scheduler/views.py:55-58 | a clause with close <= open appends `(open, 23:59:59)` to its days and puts `(00:00, close)` at the front of each following day |
| Week.ApplyClausesIsDayIntervals | scheduler/views.py:36-60 | the week built clause by clause equals the per-clause description `DayIntervals`: crossing parts, latest clause first, then own intervals in clause order |
| Week.UntouchedDayStaysEmpty | scheduler/views.py:36 | a day that no clause names, and that no crossing clause reaches from the day before, stays `[]` |
| Week.AddToDaysOpen | scheduler/views.py:54-60 | after one clause, a day is open at `t` exactly when it was open before or the clause covers (day, t) |
| Week.ApplyClausesOpen | scheduler/views.py:40-60 | a built week is open on day `d` at `t` exactly when some clause covers (d, t); splitting at midnight loses and adds nothing except the second 23:59:59 |
| Week.WholeMinutesSeeNoGap | scheduler/views.py:56 | for whole-minute times, which are all that the parsers produce, a crossing clause covers its own days from `open` to midnight and its next days up to `close` |
| Week.WeekdaysAndSaturdayExample | scheduler/tests.py:38-44 | for "Mon-Fri ... / Sat ..." with daytime hours, Mon and Fri hold the weekday interval, Sat holds its own, and Sun is `[]` |
| Week.MidnightCrossingExample | scheduler/tests.py:46-51 | for "Mon-Thu ... / Fri ..." where Friday crosses midnight, Mon holds its interval, Fri holds `(open, 23:59:59)` and Sat holds `(00:00, close)` |
| ScheduleParser.DayName | scheduler/views.py:44 | `[:3].capitalize()`; which tokens name which day is `ScheduleParser.DayNameReads` |
| ScheduleParser.DayNameReads | scheduler/views.py:44-48 | a token names a day exactly when it has at least three characters and its first three are that day's name in any case |
| ScheduleParser.MondaySpellings | scheduler/views.py:103 | "Monday", "mon" and "MON" all name Monday |
| ScheduleParser.ScheduleOf | scheduler/views.py:29-62 | the schedule as a function: the first clause's error, or `ApplyClauses` of all clauses to the empty week; its properties are `ScheduleParser.ScheduleParses`, `ScheduleParser.ScheduleDays` and `ScheduleParser.ScheduleOpen`, and `ScheduleParser.ParseSchedule` is proved equal to it |
| ScheduleParser.ParseDays | scheduler/views.py:42-50 | a day part with one piece is the capitalised three-letter name; more than two pieces raise the arity error; an expanded range has distinct days, between 1 and 7 of them |
| ScheduleParser.ParseTimes | scheduler/views.py:52 | the time part parses exactly when it has two '-' pieces that both parse, and then it is that pair |
| ScheduleParser.ParseClause | scheduler/views.py:41 | a clause whose stripped text has no space raises the unpacking error; a parsed clause has distinct days, between 1 and 7 of them |
| ScheduleParser.ClauseOf | scheduler/views.py:42-60 | a clause's days are distinct and number between 1 and 7 |
| ScheduleParser.Collect | scheduler/views.py:40-52 | the loop over clauses: on success, one clause per piece in order, each the piece's own; on failure, the error of a piece before which every piece parsed |
| ScheduleParser.ClausesRead | scheduler/views.py:37-52 | `ScheduleParser.Clauses`, the clauses of `split('/')`: they all parse exactly when every piece parses, and then clause `i` is what piece `i` parses to |
| ScheduleParser.CollectFails | scheduler/views.py:40-52 | the loop over clauses fails exactly when some clause fails |
| ScheduleParser.ParseSchedule | scheduler/views.py:29-62 | the imperative loop returns exactly `ScheduleOf(s)`: the first clause's exception, or the week built from all clauses |
| ScheduleParser.AddClause | scheduler/views.py:54-60 | the inner loop's `append`/`insert(0, ...)` sequence yields `AddToDays` of the clause |
| ScheduleParser.FirstFailure | scheduler/views.py:40-52 | once earlier clauses all parsed, the first failing clause's error is the schedule's error |
| ScheduleParser.ClauseDayRangeArity | scheduler/views.py:42-46 | a day part with more than one '-' raises before the times are read |
| ScheduleParser.ClauseUnknownDay | scheduler/views.py:47-48 | an unknown range endpoint raises, the start's error before the end's |
| ScheduleParser.ClauseUnknownDayKey | scheduler/views.py:52-60 | an unknown single day raises `KeyError` only when the times parse; a bad time wins otherwise |
| ScheduleParser.ClauseShape | scheduler/views.py:41-52 | a parsed clause's times are the two '-' pieces of the time part, and its days are the named day or the expanded range |
| ScheduleParser.ClausesDistinct | scheduler/views.py:42-50 | no parsed clause names a day twice |
| ScheduleParser.ScheduleParses | scheduler/views.py:37-52 | a schedule string parses exactly when each of its '/' clauses does |
| ScheduleParser.ScheduleDays | scheduler/views.py:36-60 | a parsed schedule's list for each day is `DayIntervals` of its clauses |
| ScheduleParser.ScheduleOpen | scheduler/views.py:40-60 | a parsed schedule is open on day `d` at `t` exactly when one of its clauses covers (d, t) |
| ScheduleParser.ParsePaddedClause | scheduler/views.py:41 | a clause with white space around it, as the pieces of a split on '/' have, parses as the bare clause |
| ScheduleParser.WeekdayTestClause | scheduler/tests.py:39 | "Mon-Fri 9am - 5pm ", the first piece of the test's schedule, is the clause of "Mon-Fri" and "9am - 5pm" |
| ScheduleParser.SaturdayTestClause | scheduler/tests.py:39 | " Sat 10am - 3pm", the second piece, is the clause of "Sat" and "10am - 3pm" |
| ScheduleParser.ParseClauseOf | scheduler/views.py:41 | a clause whose stripped text is a space-free day part, one space and a time part is the clause of those two parts |
| ScheduleParser.ParseTimesOf | scheduler/views.py:52 | two '-'-free times joined by '-' read back as that pair |
| ScheduleParser.DayNameOfDay | scheduler/views.py:44-48 | each of Mon..Sun is its own day name, has no '-', and has its own index |
| ScheduleParser.SaturdayDays | scheduler/views.py:43-44 | "Sat" is the single day Saturday |
| ScheduleParser.WrappingDays | scheduler/views.py:49 | "Sat-Mon" expands to Sat, Sun, Mon |
| ScheduleParser.WeekdaysDays | scheduler/views.py:46-50 | "Mon-Fri" expands to Mon..Fri |
| Store.GetOrCreate | scheduler/views.py:158 | `get_or_create` by name; that names stay unique is `Store.AddRowConsistent` |
| Store.Deactivate | scheduler/views.py:161 | `filter(restaurant=..., is_active=True).update(is_active=False)`; its effect is `Store.ActiveSchedulesOfDeactivated` and `Store.AddRowOutcome` |
| Store.AddRow | scheduler/views.py:156-164 | one good row; its whole effect is `Store.AddRowOutcome`, and it keeps the invariant (`Store.AddRowConsistent`) |
| Store.UploadRows | scheduler/views.py:151-164 | the batch; its properties are `Store.UploadRowsFails`, `Store.UploadRowsConsistent`, `Store.UploadRowsLastWins` and `Store.UploadRowsKeepsHistory`, and `Store.ScheduleStore.Upload` is proved equal to it |
| Store.AddRowOutcome | scheduler/views.py:158-164 | after a row for `name`, the new record is last and is `name`'s only active one; earlier records keep their restaurant and string, and only `name`'s records are deactivated |
| Store.AddRowConsistent | scheduler/views.py:158-164 | a row keeps restaurant names unique, every record's restaurant known, and at most one active record per restaurant |
| Store.UploadRowsFails | scheduler/views.py:151-154 | a batch fails exactly when some row does not have two columns, and then with the first such row |
| Store.FirstBadRow | scheduler/views.py:153-154 | when all rows before row `i` are good and row `i` is bad, the batch fails with row `i` |
| Store.UploadRowsConsistent | scheduler/views.py:151-164 | a successful batch preserves the store invariant |
| Store.ActiveSchedulesOfDeactivated | scheduler/views.py:161 | deactivating a restaurant leaves it no active schedule and does not change other restaurants' active schedules |
| Store.UploadRowsLastWins | scheduler/views.py:151-164 | after a successful batch, each restaurant named by a row has exactly one active schedule, the last row's string; the others keep theirs |
| Store.UploadRowsKeepsHistory | scheduler/views.py:161-164 | no earlier record is removed, moved or rewritten; a record can lose its active flag but never gain it; a record of a restaurant that no row names is unchanged |
| Store.ScheduleStore.Upload | scheduler/views.py:151-164 | the transaction: on a bad row the tables are exactly as before and the error is returned; otherwise they are `UploadRows` of the old tables; the invariant is kept either way |
| Query.ParseQuery | scheduler/views.py:102-104 | a query parses exactly when it has a first word and a rest that `parse_user_time` reads; it is then the capitalised three-letter day and that time; a query with no second word is the unpacking error. What the two words are is stated by `Text.SplitWordOnceParts` |
| Query.OpenAt | scheduler/views.py:115-117 | a parsed schedule is open for a day name and time exactly when the name is one of the seven days and one of that day's intervals contains the time |
| Query.ParseAll | scheduler/views.py:114 | one result per record, each `parse_schedule` of that record's own string |
| Query.Active | scheduler/views.py:110 | the active records are exactly the records with `is_active` set |
| Query.Visit | scheduler/views.py:113-121 | what one record adds: a warning when its string raises, its name when the day's list has an interval containing the time; stated by `Query.ScanOpen` and `Query.ScanWarnings` |
| Query.Scan | scheduler/views.py:109-121 | the loop over the active records; its properties are `Query.ScanOpen`, `Query.ScanWarnings`, `Query.ScanSize`, `Query.ScanUnknownDay` and `Query.ScanNoRepeats`, and `Query.ScanRecords` is proved equal to it |
| Query.Respond | scheduler/views.py:100-121 | the whole view; `Query.RespondIsScan` and `Query.StoreAnswerOpen` state it, and `Query.CheckOpen` is proved equal to it |
| Query.OpenIn | scheduler/views.py:116-119 | the loop with `break` finds an interval exactly when one with `open <= t < close` exists |
| Query.VisitRecord | scheduler/views.py:113-121 | the body of the query loop for one record (warn on a bad string, list the name when the day's intervals contain the time) computes exactly `Query.Visit` |
| Query.ScanNext | scheduler/views.py:109-121 | one more turn of the query loop extends `Scan` over the records seen so far by that record's `Visit` |
| Query.ScanRecords | scheduler/views.py:109-121 | the loop over the active records produces `Scan` of those records and their parsed schedules |
| Query.CheckOpen | scheduler/views.py:100-121 | the whole view returns `Respond(input, records)` |
| Query.ScanOpen | scheduler/views.py:112-119 | a name is listed exactly when one of the scanned records with that name parses and is open at the day and time |
| Query.ScanWarnings | scheduler/views.py:120-121 | a warning is shown exactly for each scanned record whose schedule raises, with that error, and the scan goes on |
| Query.ScanSize | scheduler/views.py:116-121 | each record adds at most one entry, a name or a warning |
| Query.ScanUnknownDay | scheduler/views.py:115 | a query day that is not a day name lists nothing |
| Query.ScanNoRepeats | scheduler/views.py:118-119 | records with distinct restaurants give a list without repeats |
| Query.ActiveDistinct | scheduler/views.py:110 | in a consistent store, the active records belong to distinct restaurants |
| Query.StoreAnswerNoRepeats | scheduler/views.py:110-119 | over a consistent store, no restaurant is listed twice |
| Query.StoreAnswerOpen | scheduler/views.py:110-119 | over any store, a restaurant is listed exactly when the day is a day name and one of its active records has a string whose clauses cover that day and time |
| Query.ListedIffCovers | scheduler/views.py:114-119 | a record in the scan is open exactly when its string parses and covers the day and time |
| Query.RecordOpen | scheduler/views.py:114-117 | one record's parsed schedule is open exactly when its clauses cover the day and time |
| Query.RespondIsScan | scheduler/views.py:100-121 | the view answers exactly when the query parses, and then with the scan of the active records |
| Text.Split | scheduler/views.py:37 | `split(sep)` gives at least one piece, no piece contains `sep`, and joining the pieces with `sep` restores the string |
| Text.Strip | scheduler/views.py:41 | `strip()` leaves neither end as white space; what it removes and keeps is `Text.StripOf` and `Text.StripParts` |
| Text.StripOf | scheduler/views.py:41 | white space, then a text that starts and ends with a non-space, then white space strips to exactly that text |
| Text.StripParts | scheduler/views.py:41 | every string is white space, its stripped form, and white space, in that order |
| Text.Prefix3 | scheduler/views.py:44 | `[:3]` is a prefix of the string, of length three or the whole string when it is shorter |
| Text.OccursIff | scheduler/views.py:19 | the substring test `t in s` (`Text.Occurs`) holds exactly when `t` is the slice of `s` at some position |
| Text.SplitOnce | scheduler/views.py:41 | `split(' ', 1)` gives one piece exactly when there is no space; otherwise it cuts at the first space |
| Text.SplitWordOnce | scheduler/views.py:102 | `split(None, 1)`: at most two pieces, the second not starting with white space |
| Text.SplitWordOnceParts | scheduler/views.py:102 | `split(None, 1)` gives no piece exactly when the input is all white space; otherwise its first piece is the first word (non-empty, no white space, preceded only by white space and followed by white space or the end), and the input is that word, white space, and the second piece if there is one |
| Text.SplitAtOne | scheduler/views.py:52 | a string with exactly one separator splits into the two sides |
| Text.SplitOnceAt | scheduler/views.py:41 | `split(sep, 1)` cuts at the first separator |
| Text.RemoveSpaces | scheduler/views.py:17 | `replace(' ', '')` leaves no space, and a character occurs in the result exactly when it occurs in the input and is not a space |
| Text.RemoveSpacesConcat | scheduler/views.py:17 | `replace(' ', '')` works piece by piece, so it keeps the other characters in their order |
| Text.RemoveSpacesChar | scheduler/views.py:17 | on one character, `replace(' ', '')` drops a space and keeps anything else |
| Text.RemoveSpacesFixed | scheduler/views.py:17 | a string without spaces is left unchanged |
| Text.Capitalize | scheduler/views.py:44 | `capitalize()` upper-cases the first character and lower-cases every other one |
| Text.Lower | scheduler/views.py:17 | `lower()` maps each character by itself |
| Text.LowerConcat | scheduler/views.py:17 | lower-casing works piece by piece: `Lower(a + b) == Lower(a) + Lower(b)` |
| Text.LowerIdempotent | scheduler/views.py:17 | lower-casing twice is lower-casing once |

## Left out

- Clock.Normalize: its own contract states only the shape of the result (no space, no upper-case ASCII letter). That the result is the lower-cased token with its spaces removed, piece by piece, is stated by `Text.RemoveSpaces`, `Text.LowerConcat` and `Clock.NormalizeConcat`.
- HTTP handling, template rendering, `messages`, and redirects (`views.py` 86-91, 106-107, 123-127, 130-145, 166-171) are not modelled. An error or a warning is a returned value, and the page's list is `Answer.open`.
- A request without a `datetime` field (`input_str` is `None`, so `split` raises `AttributeError`, not `ValueError`) is not modelled: the query is a string.
- CSV decoding and `csv.reader` (`views.py` 147-149) are not modelled; an upload is the sequence of already-split rows. A missing file (`views.py` 142-144) is not modelled either.
- The Django ORM is not modelled (`get_or_create`, `filter(...).update(...)`, `create`, `select_related`, `transaction.atomic`). The two tables are sequences in creation order, and the transaction is "on a bad row, the tables are as before".
- `Query.Active`: `Schedule.objects.filter(is_active=True)` has no `ORDER BY`, so the database may return rows in any order. The model scans them in table order, so the order of the page's list is the model's choice. Membership, absence of repeats and the warnings do not depend on it.
- `scheduler/models.py` and `scheduler/urls.py` are not part of this model. The first holds declarative ORM classes; the second is URL routing. `Schedule` in `models.py` (lines 14-31) declares per-day fields (`day_of_week`, `opening_time`, `closing_time`) that the engine never reads, and no `schedule` field at all. Yet `views.py` 114 and 164 read and write `schedule`. The model follows `views.py`: a record holds the raw schedule string.
- The texts of exception messages are not modelled. Errors carry the offending value and a kind, in the order the code raises them.
- `Clock.ParseTime`, `Clock.ParseUserTime`, `Text.Lower` and `Text.Capitalize`: case mapping and digits are ASCII only. `lower()` and `capitalize()` are Unicode-aware in Python, and strptime's `\d` also matches non-ASCII digits; the model reads ASCII digits and maps ASCII letters only. `isspace()` is modelled in full: `Text.IsSpace` is Python's Unicode white-space set, which `strip()` and `split(None, 1)` use. `%p` is modelled for the C locale (`am`/`pm`).
- `Week.WeekdaysAndSaturdayExample`: the schedule string of the unit test (`tests.py` 39) is not read from its text. The lemma starts from the clauses that string parses to, "Mon-Fri" and "Sat", with the opening hours left arbitrary. The day parts are read from text separately (`ScheduleParser.WeekdaysDays`, `ScheduleParser.SaturdayDays`), and so are the time tokens (`Clock.ParseTimeNineAm` and its neighbours). Reading a whole literal schedule string through `ScheduleOf` is too costly for the verifier.
- `Week.MidnightCrossingExample`: in the same way, the string of `tests.py` 47 is not read from its text; the lemma starts from its two clauses, "Mon-Thu" and "Fri", with arbitrary hours where Friday's close is not after its open.
- The view tests (`tests.py` 75-87 and 134-151: "Mon 10am", "Tue 1am", "Sat 11am", "Sun 12pm" against stored schedules) are not taken through `Query.Respond` on their literal strings, for the same reason. What they check is covered for all inputs by `Query.StoreAnswerOpen`, `ScheduleParser.ScheduleOpen` and `Week.WholeMinutesSeeNoGap`.
- `Clock.ParseTime` returns the time of day only; the `datetime` object and its 1900-01-01 date are not modelled.

In these points the code behaves as follows, and the model follows it:

- `parse_time` rejects a bare 24-hour hour such as "21", because its fallback repeats `%H:%M` (`views.py` 26). Only `parse_user_time` reads it. See `Clock.ParseTimeTwentyOne` and `Clock.OnlyUserTimeReadsBareHour`.
- Upload stores the raw string without parsing it (`views.py` 164). A bad schedule string is reported only at query time, as a warning (`views.py` 120-121), and it still deactivates the restaurant's previous schedule.
- A clause holds exactly one time range. Comma-separated time ranges are not supported by the code: the comma stays inside a time token, which then fails to parse.
- The answer is a list in scan order, not a set. Without repeated active records for one restaurant, which the store invariant rules out, it holds each name once (`Query.StoreAnswerNoRepeats`).
- "Open < close" is not an invariant of a built day. A clause closing at 00:00 puts the empty interval `(00:00, 00:00)` on the next day. A clause with `open == close` counts as crossing midnight.
- A crossing clause's own-day interval ends at 23:59:59 exclusive, so the second 23:59:59 itself is not open. No whole-minute query can hit it (`Week.WholeMinutesSeeNoGap`).
