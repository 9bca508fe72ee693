/**
 * `parse_schedule`: a schedule string such as
 * "Mon-Fri 9am - 5pm / Sat 10am - 3pm" becomes one interval list per day.
 * Clauses are separated by '/', each clause is a day part and a time part
 * separated by its first space, and every failure raises.
 */
module ScheduleParser {

  import opened Outcomes
  import opened Text
  import opened Clock
  import opened Week

  /** The exceptions `parse_schedule` can raise, in the order it raises them. */
  datatype ScheduleError =
    | MissingTimes(clause: string)     // `days, times = part.strip().split(' ', 1)` gets one piece
    | DayRangeArity(days: string)      // `start_day, end_day = day_range` gets three or more pieces
    | UnknownDay(day: string)          // `all_days.index(...)` raises ValueError
    | TimeRangeArity(times: string)    // `open_time, close_time = map(...)` gets too few or too many
    | BadTime(error: TimeError)        // `parse_time` raises ValueError
    | UnknownDayKey(day: string)       // `parsed_schedule[day]` raises KeyError

  /** `tok[:3].capitalize()`; which tokens name which day is `DayNameReads`. */
  function DayName(tok: string): string {
    Capitalize(Prefix3(tok))
  }

  /** The day part: one name (checked only when it is used as a key) or an expanded range. */
  datatype DaySpec = Single(name: string) | Range(days: seq<Day>)

  /** `day_range = days.split('-')` and its expansion. */
  function ParseDays(dayPart: string): (r: Result<DaySpec, ScheduleError>)
    ensures |Split(dayPart, '-')| == 1 <==> r == Ok(Single(DayName(dayPart)))
    ensures |Split(dayPart, '-')| > 2 ==> r == Err(DayRangeArity(dayPart))
    ensures r.Ok? && r.value.Range? ==> Distinct(r.value.days) && 1 <= |r.value.days| <= 7
  {
    var range := Split(dayPart, '-');
    if |range| == 1 then Ok(Single(DayName(range[0])))
    else if |range| != 2 then Err(DayRangeArity(dayPart))
    else match DayIndex(DayName(range[0])) {
      case None => Err(UnknownDay(DayName(range[0])))
      case Some(a) =>
        match DayIndex(DayName(range[1])) {
          case None => Err(UnknownDay(DayName(range[1])))
          case Some(b) =>
            DayRangeShape(a, b);
            DayRangeDistinct(a, b);
            Ok(Range(DayRange(a, b)))
        }
    }
  }

  /**
   * `open_time, close_time = map(parse_time, times.split('-'))`. The map is
   * lazy, so the pieces are parsed one by one while unpacking: a third
   * piece is parsed before "too many values" is raised.
   */
  function ParseTimes(times: string): (r: Result<(Time, Time), ScheduleError>)
    ensures r.Ok? <==> (|Split(times, '-')| == 2 &&
      ParseTime(Split(times, '-')[0]).Ok? && ParseTime(Split(times, '-')[1]).Ok?)
    ensures r.Ok? ==> r.value == (ParseTime(Split(times, '-')[0]).value, ParseTime(Split(times, '-')[1]).value)
  {
    var pieces := Split(times, '-');
    match ParseTime(pieces[0]) {
      case Err(e) => Err(BadTime(e))
      case Ok(open) =>
        if |pieces| < 2 then Err(TimeRangeArity(times))
        else match ParseTime(pieces[1]) {
          case Err(e) => Err(BadTime(e))
          case Ok(close) =>
            if |pieces| == 2 then Ok((open, close))
            else match ParseTime(pieces[2]) {
              case Err(e) => Err(BadTime(e))
              case Ok(_) => Err(TimeRangeArity(times))
            }
        }
    }
  }

  /**
   * One clause, up to the inner loop: `days, times = part.strip().split(' ', 1)`.
   */
  function ParseClause(part: string): (r: Result<Clause, ScheduleError>)
    ensures ' ' !in Strip(part) ==> r == Err(MissingTimes(Strip(part)))
    ensures r.Ok? ==> Distinct(r.value.days) && 1 <= |r.value.days| <= 7
  {
    var pieces := SplitOnce(Strip(part), ' ');
    if |pieces| != 2 then Err(MissingTimes(Strip(part)))
    else ClauseOf(pieces[0], pieces[1])
  }

  /**
   * A clause from its day part and its time part. A single day that is
   * not a key of the dictionary raises `KeyError` on its first use, after
   * the times were parsed.
   */
  function ClauseOf(dayPart: string, times: string): (r: Result<Clause, ScheduleError>)
    ensures r.Ok? ==> Distinct(r.value.days) && 1 <= |r.value.days| <= 7
  {
    match ParseDays(dayPart) {
      case Err(e) => Err(e)
      case Ok(spec) =>
        match ParseTimes(times) {
          case Err(e) => Err(e)
          case Ok((open, close)) =>
            match spec {
              case Range(days) => Ok(Clause(days, open, close))
              case Single(name) =>
                match DayIndex(name) {
                  case None => Err(UnknownDayKey(name))
                  case Some(d) => Ok(Clause([d], open, close))
                }
            }
        }
    }
  }

  /**
   * The loop over clauses: every result in order, or the error of the
   * first one that failed.
   */
  function Collect(rs: seq<Result<Clause, ScheduleError>>): (r: Result<seq<Clause>, ScheduleError>)
    ensures r.Ok? ==> |r.value| == |rs| && forall i :: 0 <= i < |rs| ==> rs[i] == Ok(r.value[i])
    ensures r.Err? ==> exists i :: 0 <= i < |rs| && rs[i] == Err(r.error) && (forall j :: 0 <= j < i ==> rs[j].Ok?)
    decreases |rs|
  {
    if rs == [] then Ok([])
    else
      var init := rs[..|rs| - 1];
      assert forall i :: 0 <= i < |init| ==> init[i] == rs[i];
      match Collect(init) {
        case Err(e) => Err(e)
        case Ok(cs) =>
          match rs[|rs| - 1] {
            case Err(e) => Err(e)
            case Ok(c) => Ok(cs + [c])
          }
      }
  }

  /** `Collect` fails exactly when some result is an error. */
  lemma CollectFails(rs: seq<Result<Clause, ScheduleError>>)
    ensures Collect(rs).Err? <==> exists i :: 0 <= i < |rs| && rs[i].Err?
  {
    if Collect(rs).Ok? {
      forall i | 0 <= i < |rs| ensures rs[i].Ok? {
        assert rs[i] == Ok(Collect(rs).value[i]);
      }
    }
  }

  /** Each clause of the string, parsed on its own. */
  function ClauseResults(parts: seq<string>): (rs: seq<Result<Clause, ScheduleError>>)
    ensures |rs| == |parts|
  {
    seq(|parts|, i requires 0 <= i < |parts| => ParseClause(parts[i]))
  }

  /** The clauses of `schedule_str.split('/')`. */
  function Clauses(s: string): Result<seq<Clause>, ScheduleError> {
    Collect(ClauseResults(Split(s, '/')))
  }

  /**
   * The clauses of a string are read one by one: they all parse exactly
   * when each piece between the '/'s parses, and then clause `i` is piece `i`'s.
   */
  lemma ClausesRead(s: string)
    ensures var parts := Split(s, '/');
      (Clauses(s).Ok? <==> forall i :: 0 <= i < |parts| ==> ParseClause(parts[i]).Ok?) &&
      (Clauses(s).Ok? ==> |Clauses(s).value| == |parts|) &&
      (Clauses(s).Ok? ==> forall i :: 0 <= i < |parts| ==> ParseClause(parts[i]) == Ok(Clauses(s).value[i]))
  {
    PartsRead(Split(s, '/'));
  }

  lemma PartsRead(parts: seq<string>)
    ensures var r := Collect(ClauseResults(parts));
      (r.Ok? <==> forall i :: 0 <= i < |parts| ==> ParseClause(parts[i]).Ok?) &&
      (r.Ok? ==> |r.value| == |parts|) &&
      (r.Ok? ==> forall i :: 0 <= i < |parts| ==> ParseClause(parts[i]) == Ok(r.value[i]))
  {
    var rs := ClauseResults(parts);
    CollectFails(rs);
    assert forall i :: 0 <= i < |parts| ==> rs[i] == ParseClause(parts[i]);
  }

  /** What `parse_schedule(s)` returns, or the exception it raises. */
  function ScheduleOf(s: string): Result<WeekSchedule, ScheduleError> {
    match Clauses(s) {
      case Err(e) => Err(e)
      case Ok(cs) => Ok(ApplyClauses(EmptyWeek, cs))
    }
  }

  /**
   * `parse_schedule`: the seven lists start empty and the clauses are
   * added one at a time, `append` at the back of a day and, for a clause
   * that closes after midnight, `insert(0, ...)` on the following day.
   */
  method ParseSchedule(s: string) returns (r: Result<WeekSchedule, ScheduleError>)
    ensures r == ScheduleOf(s)
  {
    var week := EmptyWeek;
    var parts := Split(s, '/');
    ghost var results := ClauseResults(parts);
    ghost var done: seq<Clause> := [];
    for i := 0 to |parts|
      invariant Collect(results[..i]) == Ok(done)
      invariant week == ApplyClauses(EmptyWeek, done)
    {
      var clause := ParseClause(parts[i]);
      assert results[i] == clause;
      if clause.Err? {
        FirstFailure(results, i);
        return Err(clause.error);
      }
      var c := clause.value;
      week := AddClause(week, c);
      CollectStep(results, i, done);
      ApplyClausesStep(done, c);
      done := done + [c];
    }
    assert results[..|parts|] == results;
    return Ok(week);
  }

  /**
   * The inner loop `for i, day in enumerate(days)` of `parse_schedule` for
   * one clause: an `append` on the day and, when the clause closes after
   * midnight, an `insert(0, ...)` on the next day.
   */
  method AddClause(week0: WeekSchedule, c: Clause) returns (week: WeekSchedule)
    ensures week == AddToDays(week0, c.days, c.open, c.close)
  {
    week := week0;
    for j := 0 to |c.days|
      invariant week == AddToDays(week0, c.days[..j], c.open, c.close)
    {
      ghost var before := week;
      var day := c.days[j];
      if c.close <= c.open {
        week := week[day := week[day] + [Interval(c.open, LastSecond)]];
        var next := NextDay(day);
        week := week[next := [Interval(Midnight, c.close)] + week[next]];
      } else {
        week := week[day := week[day] + [Interval(c.open, c.close)]];
      }
      assert week == AddToDay(before, day, c.open, c.close);
      AddToDaysStep(week0, c.days, j, c.open, c.close);
    }
    assert c.days[..|c.days|] == c.days;
  }

  lemma CollectStep(rs: seq<Result<Clause, ScheduleError>>, i: nat, done: seq<Clause>)
    requires i < |rs| && Collect(rs[..i]) == Ok(done) && rs[i].Ok?
    ensures Collect(rs[..i + 1]) == Ok(done + [rs[i].value])
  {
    assert rs[..i + 1][..i] == rs[..i];
  }

  lemma ApplyClausesStep(done: seq<Clause>, c: Clause)
    ensures ApplyClauses(EmptyWeek, done + [c]) == AddToDays(ApplyClauses(EmptyWeek, done), c.days, c.open, c.close)
  {
    assert (done + [c])[..|done|] == done;
  }

  lemma AddToDaysStep(w: WeekSchedule, days: seq<Day>, j: nat, open: Time, close: Time)
    requires j < |days|
    ensures AddToDays(w, days[..j + 1], open, close) == AddToDay(AddToDays(w, days[..j], open, close), days[j], open, close)
  {
    assert days[..j + 1][..j] == days[..j];
  }

  /** When the results before `i` are all clauses and result `i` is an error, the loop stops with that error. */
  lemma FirstFailure(rs: seq<Result<Clause, ScheduleError>>, i: nat)
    requires i < |rs| && Collect(rs[..i]).Ok? && rs[i].Err?
    ensures Collect(rs) == Err(rs[i].error)
  {
    var before := Collect(rs[..i]).value;
    assert forall j :: 0 <= j < i ==> rs[j] == Ok(before[j]) by {
      assert forall j :: 0 <= j < i ==> rs[..i][j] == rs[j];
    }
    CollectFails(rs);
    var e := Collect(rs).error;
    var k :| 0 <= k < |rs| && rs[k] == Err(e) && forall j :: 0 <= j < k ==> rs[j].Ok?;
    assert k == i;
  }

  // ---------------------------------------------------------------------
  // What a clause and a whole string mean

  /** A day part with more than one '-' raises before the times are read. */
  lemma ClauseDayRangeArity(dayPart: string, times: string)
    requires |Split(dayPart, '-')| > 2
    ensures ClauseOf(dayPart, times) == Err(DayRangeArity(dayPart))
  {
  }

  /** A range endpoint that is not a day name raises, the start before the end. */
  lemma ClauseUnknownDay(dayPart: string, times: string)
    requires |Split(dayPart, '-')| == 2
    ensures var range := Split(dayPart, '-');
      DayIndex(DayName(range[0])).None? ==> ClauseOf(dayPart, times) == Err(UnknownDay(DayName(range[0])))
    ensures var range := Split(dayPart, '-');
      DayIndex(DayName(range[0])).Some? && DayIndex(DayName(range[1])).None? ==>
        ClauseOf(dayPart, times) == Err(UnknownDay(DayName(range[1])))
  {
  }

  /** A single day that is not a day name raises `KeyError`, but only once the times have parsed. */
  lemma ClauseUnknownDayKey(dayPart: string, times: string)
    requires |Split(dayPart, '-')| == 1
    ensures ParseTimes(times).Ok? && DayIndex(DayName(dayPart)).None? ==>
      ClauseOf(dayPart, times) == Err(UnknownDayKey(DayName(dayPart)))
    ensures ParseTimes(times).Err? ==> ClauseOf(dayPart, times) == Err(ParseTimes(times).error)
  {
  }

  /**
   * A well-formed clause: its times are the two '-' pieces of the time
   * part, and its days are the named day or the expanded range.
   */
  lemma ClauseShape(dayPart: string, times: string)
    requires ClauseOf(dayPart, times).Ok?
    ensures ParseTimes(times) == Ok((ClauseOf(dayPart, times).value.open, ClauseOf(dayPart, times).value.close))
    ensures var range := Split(dayPart, '-');
      var c := ClauseOf(dayPart, times).value;
      (|range| == 1 ==> c.days == [DayIndex(DayName(dayPart)).value]) &&
      (|range| == 2 ==> c.days == DayRange(DayIndex(DayName(range[0])).value, DayIndex(DayName(range[1])).value))
  {
  }

  /** Every parsed clause has pairwise distinct days. */
  lemma ClausesDistinct(s: string)
    requires Clauses(s).Ok?
    ensures forall i :: 0 <= i < |Clauses(s).value| ==> Distinct(Clauses(s).value[i].days)
  {
    var rs := ClauseResults(Split(s, '/'));
    var cs := Clauses(s).value;
    forall i | 0 <= i < |cs| ensures Distinct(cs[i].days) {
      assert rs[i] == Ok(cs[i]);
    }
  }

  /** A schedule string parses exactly when each of its clauses does. */
  lemma ScheduleParses(s: string)
    ensures ScheduleOf(s).Ok? <==> forall i :: 0 <= i < |Split(s, '/')| ==> ParseClause(Split(s, '/')[i]).Ok?
  {
    ClausesRead(s);
    assert ScheduleOf(s).Ok? <==> Clauses(s).Ok?;
  }

  /** The list of a parsed schedule's day is the per-clause description `DayIntervals`. */
  lemma ScheduleDays(s: string, d: Day)
    requires ScheduleOf(s).Ok?
    ensures ScheduleOf(s).value[d] == DayIntervals(Clauses(s).value, d)
  {
    ClausesDistinct(s);
    ApplyClausesIsDayIntervals(Clauses(s).value, d);
  }

  /**
   * A parsed schedule is open on day `d` at time `t` exactly when one of
   * its clauses covers that day and time.
   */
  lemma ScheduleOpen(s: string, d: Day, t: Time)
    requires ScheduleOf(s).Ok?
    ensures OpenOn(ScheduleOf(s).value[d], t) <==>
      exists i :: 0 <= i < |Clauses(s).value| && ClauseCovers(Clauses(s).value[i], d, t)
  {
    ApplyClausesOpen(Clauses(s).value, d, t);
  }

  // ---------------------------------------------------------------------
  // Reading clauses back, and the day parts of the unit tests

  /**
   * A clause read back: when the stripped clause is a day part without
   * spaces, one space and a time part, it is the clause of those parts.
   */
  lemma ParseClauseOf(part: string, dayPart: string, times: string)
    requires Strip(part) == dayPart + [' '] + times && ' ' !in dayPart
    ensures ParseClause(part) == ClauseOf(dayPart, times)
  {
    SplitOnceAt(Strip(part), ' ', dayPart, times);
  }

  /**
   * A clause surrounded by white space, as every clause after the first
   * is once the schedule is split on '/', reads as the bare clause.
   */
  lemma ParsePaddedClause(a: string, dayPart: string, times: string, b: string)
    requires AllSpace(a) && AllSpace(b) && ' ' !in dayPart
    requires dayPart != [] && !IsSpace(dayPart[0]) && times != [] && !IsSpace(times[|times| - 1])
    ensures ParseClause(a + dayPart + [' '] + times + b) == ClauseOf(dayPart, times)
  {
    var x := dayPart + [' '] + times;
    assert x[0] == dayPart[0] && x[|x| - 1] == times[|times| - 1];
    StripOf(a, x, b);
    PaddedClause(a, dayPart, times, b);
    ParseClauseOf(a + x + b, dayPart, times);
  }

  lemma PaddedClause(a: string, dayPart: string, times: string, b: string)
    ensures a + dayPart + [' '] + times + b == a + (dayPart + [' '] + times) + b
  {
  }

  /**
   * The two clauses of the tests' "Mon-Fri 9am - 5pm / Sat 10am - 3pm"
   * after the split on '/': the first ends in a space, the second starts with one.
   */
  lemma WeekdayTestClause()
    ensures ParseClause("Mon-Fri 9am - 5pm ") == ClauseOf("Mon-Fri", "9am - 5pm")
  {
    assert "Mon-Fri 9am - 5pm " == [] + "Mon-Fri" + [' '] + "9am - 5pm" + " ";
    ParsePaddedClause([], "Mon-Fri", "9am - 5pm", " ");
  }

  lemma SaturdayTestClause()
    ensures ParseClause(" Sat 10am - 3pm") == ClauseOf("Sat", "10am - 3pm")
  {
    assert " Sat 10am - 3pm" == " " + "Sat" + [' '] + "10am - 3pm" + [];
    ParsePaddedClause(" ", "Sat", "10am - 3pm", []);
  }

  /** Two times joined by '-' read back as that pair. */
  lemma ParseTimesOf(openTok: string, closeTok: string, open: Time, close: Time)
    requires '-' !in openTok && '-' !in closeTok
    requires ParseTime(openTok) == Ok(open) && ParseTime(closeTok) == Ok(close)
    ensures ParseTimes(openTok + ['-'] + closeTok) == Ok((open, close))
  {
    SplitAtOne(openTok + ['-'] + closeTok, '-', openTok, closeTok);
  }

  /** A three-letter token that is already a day name names itself. */
  lemma DayNameOfDay(d: Day)
    ensures DayName(AllDays[d]) == AllDays[d]
    ensures Split(AllDays[d], '-') == [AllDays[d]]
    ensures DayIndex(AllDays[d]) == Some(d)
  {
    var n := AllDays[d];
    assert |n| == 3 && 'A' <= n[0] <= 'Z' && 'a' <= n[1] <= 'z' && 'a' <= n[2] <= 'z' && '-' !in n by {
      DayNameShape(d);
    }
    CapitalizedName(n);
  }

  /**
   * Capitalisation does not matter: a token names day `d` exactly when its
   * first three letters are that day's name in any case ("Monday", "mon",
   * "MON" all name Monday).
   */
  lemma DayNameReads(tok: string, d: Day)
    ensures DayName(tok) == AllDays[d] <==> |tok| >= 3 && Lower(tok[..3]) == Lower(AllDays[d])
  {
    var n := AllDays[d];
    DayNameShape(d);
    if |tok| >= 3 {
      var p := tok[..3];
      assert Prefix3(tok) == p;
      if Lower(p) == Lower(n) {
        assert LowerChar(p[0]) == LowerChar(n[0]);
        assert Capitalize(p) == n;
      }
      if DayName(tok) == n {
        assert LowerChar(UpperChar(p[0])) == LowerChar(p[0]);
        assert Lower(p) == Lower(n);
      }
    }
  }

  lemma MondaySpellings()
    ensures DayName("Monday") == "Mon" && DayName("mon") == "Mon" && DayName("MON") == "Mon"
  {
    assert Lower("Monday"[..3]) == Lower("mon") == Lower("MON"[..3]) == Lower(AllDays[0]) by {
      assert "Monday"[..3] == "Mon" && "MON"[..3] == "MON" && "mon"[..3] == "mon";
    }
    DayNameReads("Monday", 0);
    DayNameReads("mon", 0);
    DayNameReads("MON", 0);
  }

  lemma DayNameShape(d: Day)
    ensures var n := AllDays[d];
      |n| == 3 && 'A' <= n[0] <= 'Z' && 'a' <= n[1] <= 'z' && 'a' <= n[2] <= 'z' && '-' !in n
  {
  }

  /** A three-letter capitalised ASCII word is its own day name. */
  lemma CapitalizedName(n: string)
    requires |n| == 3 && 'A' <= n[0] <= 'Z' && 'a' <= n[1] <= 'z' && 'a' <= n[2] <= 'z'
    ensures DayName(n) == n
  {
    assert Prefix3(n) == n;
    assert Lower(n[1..]) == n[1..];
  }

  /** "Sat" is Saturday alone; "Sat-Mon" wraps past Sunday; "Mon-Fri" is the weekdays. */
  lemma SaturdayDays()
    ensures ParseDays("Sat") == Ok(Single("Sat")) && DayIndex("Sat") == Some(5)
  {
    DayNameOfDay(5);
  }

  lemma WrappingDays()
    ensures ParseDays("Sat-Mon") == Ok(Range([5, 6, 0]))
  {
    SplitAtOne("Sat-Mon", '-', "Sat", "Mon");
    DayNameOfDay(5);
    DayNameOfDay(0);
    DayRangeExamples();
  }

  lemma WeekdaysDays()
    ensures ParseDays("Mon-Fri") == Ok(Range(DayRange(0, 4)))
  {
    SplitAtOne("Mon-Fri", '-', "Mon", "Fri");
    DayNameOfDay(0);
    DayNameOfDay(4);
  }
}
