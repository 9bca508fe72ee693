/**
 * `CheckOpenRestaurantsView.post`: a "day time" query such as "Mon 2pm"
 * is answered by re-parsing every active schedule record and listing the
 * restaurants whose schedule has an interval containing that time on that
 * day. A record whose string does not parse is reported as a warning and
 * skipped.
 */
module Query {

  import opened Outcomes
  import opened Text
  import opened Clock
  import opened Week
  import opened ScheduleParser
  import opened Store

  /** Why a query is sent back to the form. */
  datatype QueryError =
    | NotDayAndTime(input: string)   // `day, time_str = input_str.split(None, 1)` does not get two pieces
    | BadQueryTime(error: TimeError) // `parse_user_time` raises

  /** `Error processing schedule for <restaurant>: <error>` */
  datatype Warning = Warning(restaurant: string, error: ScheduleError)

  /** The restaurant names in the page's list, in order, and the warnings shown with it. */
  datatype Answer = Answer(open: seq<string>, warnings: seq<Warning>)

  /** The query's day key and time: the first word cut to a day name, the rest a user time. */
  function ParseQuery(input: string): (r: Result<(string, Time), QueryError>)
    ensures r.Ok? <==> |SplitWordOnce(input)| == 2 && ParseUserTime(SplitWordOnce(input)[1]).Ok?
    ensures r.Ok? ==> r.value == (DayName(SplitWordOnce(input)[0]), ParseUserTime(SplitWordOnce(input)[1]).value)
    ensures |SplitWordOnce(input)| != 2 ==> r == Err(NotDayAndTime(input))
  {
    var words := SplitWordOnce(input);
    if |words| != 2 then Err(NotDayAndTime(input))
    else match ParseUserTime(words[1]) {
      case Err(e) => Err(BadQueryTime(e))
      case Ok(t) => Ok((DayName(words[0]), t))
    }
  }

  /** `day in parsed_schedule` and some `(open_time, close_time)` of that day with `open_time <= check_time < close_time`. */
  predicate OpenAt(w: WeekSchedule, day: string, t: Time)
    ensures OpenAt(w, day, t) <==> exists d: Day :: AllDays[d] == day && OpenOn(w[d], t)
  {
    DayIndex(day).Some? && OpenOn(w[DayIndex(day).value], t)
  }

  /** `Schedule.objects.filter(is_active=True)`, in table order. */
  function Active(records: seq<ScheduleRecord>): (r: seq<ScheduleRecord>)
    ensures forall x :: x in r <==> x in records && x.active
    ensures |r| <= |records|
    decreases |records|
  {
    if records == [] then []
    else
      var last := records[|records| - 1];
      Active(records[..|records| - 1]) + (if last.active then [last] else [])
  }

  /** `parse_schedule` applied to each record's string. */
  function ParseAll(records: seq<ScheduleRecord>): (r: seq<Result<WeekSchedule, ScheduleError>>)
    ensures |r| == |records|
    ensures forall i :: 0 <= i < |records| ==> r[i] == ScheduleOf(records[i].schedule)
  {
    seq(|records|, i requires 0 <= i < |records| => ScheduleOf(records[i].schedule))
  }

  /** What one schedule record adds to the answer, given what its string parses to. */
  function Visit(a: Answer, rec: ScheduleRecord, parsed: Result<WeekSchedule, ScheduleError>, day: string, t: Time): Answer {
    match parsed {
      case Err(e) => Answer(a.open, a.warnings + [Warning(rec.restaurant, e)])
      case Ok(w) => if OpenAt(w, day, t) then Answer(a.open + [rec.restaurant], a.warnings) else a
    }
  }

  /** The answer after visiting the records in order; `parsed[i]` is what record `i`'s string parses to. */
  function Scan(records: seq<ScheduleRecord>, parsed: seq<Result<WeekSchedule, ScheduleError>>, day: string, t: Time): Answer
    requires |parsed| == |records|
    decreases |records|
  {
    if records == [] then Answer([], [])
    else
      var n := |records| - 1;
      Visit(Scan(records[..n], parsed[..n], day, t), records[n], parsed[n], day, t)
  }

  /** The page the view renders for `input` over the schedule table `records`, or the error it redirects with. */
  function Respond(input: string, records: seq<ScheduleRecord>): Result<Answer, QueryError> {
    match ParseQuery(input) {
      case Err(e) => Err(e)
      case Ok((day, t)) => Ok(Scan(Active(records), ParseAll(Active(records)), day, t))
    }
  }

  /**
   * The view's body: parse the query, then for each active record parse
   * its schedule and look through the day's intervals, stopping at the
   * first that contains the time.
   */
  method CheckOpen(input: string, records: seq<ScheduleRecord>) returns (r: Result<Answer, QueryError>)
    ensures r == Respond(input, records)
  {
    var query := ParseQuery(input);
    if query.Err? {
      return Err(query.error);
    }
    var answer := ScanRecords(Active(records), query.value.0, query.value.1);
    return Ok(answer);
  }

  /** The loop over the active records: parse each schedule, then warn, list the restaurant, or pass over it. */
  method ScanRecords(active: seq<ScheduleRecord>, day: string, t: Time) returns (a: Answer)
    ensures a == Scan(active, ParseAll(active), day, t)
  {
    a := Answer([], []);
    for i := 0 to |active|
      invariant a == Scan(active[..i], ParseAll(active)[..i], day, t)
    {
      var parsed := ParseSchedule(active[i].schedule);
      ghost var prev := a;
      a := VisitRecord(a, active[i], parsed, day, t);
      ScanNext(active, i, parsed, prev, a, day, t);
    }
    assert active[..|active|] == active && ParseAll(active)[..|active|] == ParseAll(active);
  }

  /** The loop's step: visiting record `i` with its parsed string extends the scan by one record. */
  lemma ScanNext(active: seq<ScheduleRecord>, i: nat, parsed: Result<WeekSchedule, ScheduleError>,
                 prev: Answer, next: Answer, day: string, t: Time)
    requires i < |active| && parsed == ScheduleOf(active[i].schedule)
    requires prev == Scan(active[..i], ParseAll(active)[..i], day, t)
    requires next == Visit(prev, active[i], parsed, day, t)
    ensures next == Scan(active[..i + 1], ParseAll(active)[..i + 1], day, t)
  {
    ScanStep(active, ParseAll(active), i, day, t);
  }

  /** One pass of the loop body: warn, list the restaurant, or pass over it. */
  method VisitRecord(prev: Answer, rec: ScheduleRecord, parsed: Result<WeekSchedule, ScheduleError>, day: string, t: Time)
    returns (a: Answer)
    ensures a == Visit(prev, rec, parsed, day, t)
  {
    a := prev;
    if parsed.Err? {
      a := Answer(a.open, a.warnings + [Warning(rec.restaurant, parsed.error)]);
    } else {
      var d := DayIndex(day);
      if d.Some? {
        var found := OpenIn(parsed.value[d.value], t);
        if found {
          a := Answer(a.open + [rec.restaurant], a.warnings);
        }
      }
    }
  }

  /**
   * `for open_time, close_time in parsed_schedule[day]`, stopping at the
   * first interval with `open_time <= check_time < close_time`.
   */
  method OpenIn(intervals: seq<Interval>, t: Time) returns (found: bool)
    ensures found <==> OpenOn(intervals, t)
  {
    found := false;
    for j := 0 to |intervals|
      invariant forall k :: 0 <= k < j ==> !intervals[k].Contains(t)
    {
      if intervals[j].open <= t < intervals[j].close {
        found := true;
        break;
      }
    }
  }

  lemma ScanStep(records: seq<ScheduleRecord>, parsed: seq<Result<WeekSchedule, ScheduleError>>, i: nat, day: string, t: Time)
    requires |parsed| == |records| && i < |records|
    ensures Scan(records[..i + 1], parsed[..i + 1], day, t) ==
      Visit(Scan(records[..i], parsed[..i], day, t), records[i], parsed[i], day, t)
  {
    assert records[..i + 1][..i] == records[..i];
    assert parsed[..i + 1][..i] == parsed[..i];
  }

  // ---------------------------------------------------------------------
  // What the answer means

  /** A name is listed exactly when one of the visited records has that name, parses, and is open at the day and time. */
  lemma {:induction false} ScanOpen(records: seq<ScheduleRecord>, parsed: seq<Result<WeekSchedule, ScheduleError>>, day: string, t: Time, name: string)
    requires |parsed| == |records|
    ensures name in Scan(records, parsed, day, t).open <==>
      exists i :: 0 <= i < |records| && records[i].restaurant == name &&
        parsed[i].Ok? && OpenAt(parsed[i].value, day, t)
    decreases |records|
  {
    if records != [] {
      var n := |records| - 1;
      ScanOpen(records[..n], parsed[..n], day, t, name);
      assert forall i :: 0 <= i < n ==> records[..n][i] == records[i] && parsed[..n][i] == parsed[i];
    }
  }

  /** A warning is shown exactly for the visited records whose schedule string raises, with that error. */
  lemma {:induction false} ScanWarnings(records: seq<ScheduleRecord>, parsed: seq<Result<WeekSchedule, ScheduleError>>, day: string, t: Time, w: Warning)
    requires |parsed| == |records|
    ensures w in Scan(records, parsed, day, t).warnings <==>
      exists i :: 0 <= i < |records| && records[i].restaurant == w.restaurant && parsed[i] == Err(w.error)
    decreases |records|
  {
    if records != [] {
      var n := |records| - 1;
      ScanWarnings(records[..n], parsed[..n], day, t, w);
      assert forall i :: 0 <= i < n ==> records[..n][i] == records[i] && parsed[..n][i] == parsed[i];
    }
  }

  /** Each record adds at most one entry: a name or a warning, never both, thanks to the `break`. */
  lemma {:induction false} ScanSize(records: seq<ScheduleRecord>, parsed: seq<Result<WeekSchedule, ScheduleError>>, day: string, t: Time)
    requires |parsed| == |records|
    ensures |Scan(records, parsed, day, t).open| + |Scan(records, parsed, day, t).warnings| <= |records|
    decreases |records|
  {
    if records != [] {
      var n := |records| - 1;
      ScanSize(records[..n], parsed[..n], day, t);
    }
  }

  /** A query day that is not a day name finds nothing open. */
  lemma {:induction false} ScanUnknownDay(records: seq<ScheduleRecord>, parsed: seq<Result<WeekSchedule, ScheduleError>>, day: string, t: Time)
    requires |parsed| == |records| && DayIndex(day).None?
    ensures Scan(records, parsed, day, t).open == []
    decreases |records|
  {
    if records != [] {
      var n := |records| - 1;
      ScanUnknownDay(records[..n], parsed[..n], day, t);
    }
  }

  /** Records with distinct names give a list without repeats. */
  lemma {:induction false} ScanNoRepeats(records: seq<ScheduleRecord>, parsed: seq<Result<WeekSchedule, ScheduleError>>, day: string, t: Time)
    requires |parsed| == |records|
    requires forall i, j :: 0 <= i < j < |records| ==> records[i].restaurant != records[j].restaurant
    ensures var open := Scan(records, parsed, day, t).open;
      forall i, j :: 0 <= i < j < |open| ==> open[i] != open[j]
    decreases |records|
  {
    if records != [] {
      var n := |records| - 1;
      ScanNoRepeats(records[..n], parsed[..n], day, t);
      ScanOpen(records[..n], parsed[..n], day, t, records[n].restaurant);
      assert forall i :: 0 <= i < n ==> records[..n][i] == records[i];
    }
  }

  /** In a consistent store, the active records belong to distinct restaurants. */
  lemma {:induction false} ActiveDistinct(records: seq<ScheduleRecord>)
    requires AtMostOneActive(records)
    ensures forall i, j :: 0 <= i < j < |Active(records)| ==> Active(records)[i].restaurant != Active(records)[j].restaurant
    decreases |records|
  {
    if records != [] {
      var init := records[..|records| - 1];
      var last := records[|records| - 1];
      assert forall i :: 0 <= i < |init| ==> init[i] == records[i];
      ActiveDistinct(init);
      var a := Active(records);
      if last.active {
        forall i | 0 <= i < |a| - 1 ensures a[i].restaurant != last.restaurant {
          assert a[i] in Active(init);
          var k :| 0 <= k < |init| && init[k] == a[i];
        }
      }
    }
  }

  /** Over a consistent store the list never names a restaurant twice. */
  lemma StoreAnswerNoRepeats(st: StoreState, day: string, t: Time)
    requires Consistent(st)
    ensures var active := Active(st.schedules);
      var open := Scan(active, ParseAll(active), day, t).open;
      forall i, j :: 0 <= i < j < |open| ==> open[i] != open[j]
  {
    var active := Active(st.schedules);
    assert AtMostOneActive(st.schedules);
    ActiveDistinct(st.schedules);
    assert forall i, j :: 0 <= i < j < |active| ==> active[i].restaurant != active[j].restaurant;
    ScanNoRepeats(active, ParseAll(active), day, t);
  }

  /** A schedule string covers a day and time when it parses and one of its clauses covers them. */
  predicate Covers(s: string, d: Day, t: Time) {
    Clauses(s).Ok? && exists i :: 0 <= i < |Clauses(s).value| && ClauseCovers(Clauses(s).value[i], d, t)
  }

  /**
   * The answer over the whole table: a restaurant is listed exactly when
   * the query day is a day name and one of its active records has a
   * schedule string that covers that day and time.
   */
  lemma StoreAnswerOpen(st: StoreState, day: string, t: Time, name: string)
    ensures var active := Active(st.schedules);
      name in Scan(active, ParseAll(active), day, t).open <==>
        DayIndex(day).Some? &&
        exists rec :: rec in st.schedules && rec.active && rec.restaurant == name && Covers(rec.schedule, DayIndex(day).value, t)
  {
    var active := Active(st.schedules);
    var parsed := ParseAll(active);
    ScanOpen(active, parsed, day, t, name);
    if DayIndex(day).Some? {
      ListedIffCovers(active, day, t, name);
    } else {
      ScanUnknownDay(active, parsed, day, t);
    }
  }

  lemma ListedIffCovers(active: seq<ScheduleRecord>, day: string, t: Time, name: string)
    requires DayIndex(day).Some?
    ensures (exists i :: 0 <= i < |active| && active[i].restaurant == name &&
               ParseAll(active)[i].Ok? && OpenAt(ParseAll(active)[i].value, day, t)) <==>
            (exists rec :: rec in active && rec.restaurant == name && Covers(rec.schedule, DayIndex(day).value, t))
  {
    var parsed := ParseAll(active);
    var d := DayIndex(day).value;
    if i :| 0 <= i < |active| && active[i].restaurant == name && parsed[i].Ok? && OpenAt(parsed[i].value, day, t) {
      RecordOpen(active[i].schedule, d, t);
      assert active[i] in active;
    }
    if rec :| rec in active && rec.restaurant == name && Covers(rec.schedule, d, t) {
      var i :| 0 <= i < |active| && active[i] == rec;
      RecordOpen(rec.schedule, d, t);
      assert parsed[i] == ScheduleOf(rec.schedule);
    }
  }

  /** The page's list, for a query that parses, is the scan of the active records at the query's day and time. */
  lemma RespondIsScan(input: string, records: seq<ScheduleRecord>)
    ensures Respond(input, records).Ok? <==> ParseQuery(input).Ok?
    ensures ParseQuery(input).Ok? ==>
      Respond(input, records) == Ok(Scan(Active(records), ParseAll(Active(records)), ParseQuery(input).value.0, ParseQuery(input).value.1))
  {
  }

  /** One record's string, as the scan sees it and as its clauses describe it. */
  lemma RecordOpen(s: string, d: Day, t: Time)
    ensures ScheduleOf(s).Ok? <==> Clauses(s).Ok?
    ensures ScheduleOf(s).Ok? ==>
      (OpenOn(ScheduleOf(s).value[d], t) <==> Covers(s, d, t))
  {
    if ScheduleOf(s).Ok? {
      ScheduleOpen(s, d, t);
    }
  }
}
