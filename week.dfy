/**
 * Days of the week, opening intervals and the seven-list week that
 * `parse_schedule` builds: the fixed cycle Mon..Sun, day ranges that wrap
 * past Sunday, and the way one clause's (open, close) pair is added to
 * each of its days, splitting it at midnight when close <= open.
 */
module Week {

  import opened Outcomes
  import opened Clock

  /** A position in `all_days`. */
  type Day = d: nat | d < 7

  /** `all_days`, and the keys of the dictionary `parse_schedule` returns. */
  const AllDays: seq<string> := ["Mon", "Tue", "Wed", "Thu", "Fri", "Sat", "Sun"]

  /** `all_days.index(name)`; `None` where Python raises `ValueError`. */
  function DayIndex(name: string): (r: Option<Day>)
    ensures r.Some? ==> AllDays[r.value] == name
    ensures r.None? ==> name !in AllDays
  {
    if name == "Mon" then Some(0)
    else if name == "Tue" then Some(1)
    else if name == "Wed" then Some(2)
    else if name == "Thu" then Some(3)
    else if name == "Fri" then Some(4)
    else if name == "Sat" then Some(5)
    else if name == "Sun" then Some(6)
    else None
  }

  /** `all_days[(all_days.index(day) + 1) % 7]` */
  function NextDay(d: Day): (r: Day)
    ensures d < 6 ==> r == d + 1
    ensures d == 6 ==> r == 0
  {
    (d + 1) % 7
  }

  /** The day whose `NextDay` is `d`. */
  function PrevDay(d: Day): (p: Day)
    ensures NextDay(p) == d
    ensures forall x: Day :: NextDay(x) == d ==> x == p
  {
    (d + 6) % 7
  }

  /** An opening interval of one day, half-open: open at `open`, closed from `close`. */
  datatype Interval = Interval(open: Time, close: Time) {
    predicate Contains(t: Time) {
      open <= t < close
    }
  }

  /** `parsed_schedule`: one interval list per day, indexed like `AllDays`. */
  type WeekSchedule = w: seq<seq<Interval>> | |w| == 7 witness [[], [], [], [], [], [], []]

  /** `{day: [] for day in all_days}` */
  const EmptyWeek: WeekSchedule := [[], [], [], [], [], [], []]

  /** The days `a, a+1, ..., b-1` (a slice of `all_days`, as indices). */
  function Span(a: nat, b: nat): (r: seq<Day>)
    requires a <= b <= 7
    ensures |r| == b - a
    ensures forall k :: 0 <= k < |r| ==> r[k] == a + k
    decreases b - a
  {
    if a == b then [] else [a as Day] + Span(a + 1, b)
  }

  /**
   * The days of a range `A-B`: the inclusive slice when A <= B, otherwise
   * `all_days[A:] + all_days[:B+1]`, which wraps past Sunday.
   */
  function DayRange(start: Day, end: Day): seq<Day> {
    if start > end then Span(start, 7) + Span(0, end + 1) else Span(start, end + 1)
  }

  /** A range always walks forward through the cycle: ((B - A) mod 7) + 1 days starting at A. */
  lemma DayRangeShape(start: Day, end: Day)
    ensures |DayRange(start, end)| == (end - start) % 7 + 1
    ensures forall k :: 0 <= k < |DayRange(start, end)| ==> DayRange(start, end)[k] == (start + k) % 7
  {
    var r := DayRange(start, end);
    if start > end {
      assert (end - start) % 7 == end - start + 7;
      forall k | 0 <= k < |r| ensures r[k] == (start + k) % 7 {
        if k < 7 - start {
          assert r[k] == Span(start, 7)[k];
        } else {
          assert r[k] == Span(0, end + 1)[k - (7 - start)];
        }
      }
    }
  }

  /** No day occurs twice in a list. */
  predicate Distinct(days: seq<Day>) {
    forall i, j :: 0 <= i < j < |days| ==> days[i] != days[j]
  }

  lemma DayRangeDistinct(start: Day, end: Day)
    ensures Distinct(DayRange(start, end))
  {
    DayRangeShape(start, end);
  }

  /** One parsed clause: the expanded days and the (open, close) pair added to each. */
  datatype Clause = Clause(days: seq<Day>, open: Time, close: Time) {
    /** `close_time <= open_time`: the clause closes after midnight. */
    predicate Crosses() {
      close <= open
    }
  }

  /**
   * One pass of the inner loop of `parse_schedule` for `day`: when the pair
   * crosses midnight, `(open, 23:59:59)` is appended to `day` and
   * `(00:00, close)` is inserted at the front of the next day; otherwise
   * `(open, close)` is appended.
   */
  function AddToDay(w: WeekSchedule, day: Day, open: Time, close: Time): WeekSchedule {
    if close <= open then
      var w1 := w[day := w[day] + [Interval(open, LastSecond)]];
      var next := NextDay(day);
      w1[next := [Interval(Midnight, close)] + w1[next]]
    else
      w[day := w[day] + [Interval(open, close)]]
  }

  /** The whole inner loop: `AddToDay` for each day of the clause, in order. */
  function AddToDays(w: WeekSchedule, days: seq<Day>, open: Time, close: Time): WeekSchedule
    decreases |days|
  {
    if days == [] then w
    else AddToDay(AddToDays(w, days[..|days| - 1], open, close), days[|days| - 1], open, close)
  }

  /** The outer loop: each clause in turn. */
  function ApplyClauses(w: WeekSchedule, clauses: seq<Clause>): WeekSchedule
    decreases |clauses|
  {
    if clauses == [] then w
    else
      var c := clauses[|clauses| - 1];
      AddToDays(ApplyClauses(w, clauses[..|clauses| - 1]), c.days, c.open, c.close)
  }

  // ---------------------------------------------------------------------
  // What a day's list holds, clause by clause

  /** The interval a clause adds at the end of each of its own days. */
  function OwnInterval(c: Clause): Interval {
    Interval(c.open, if c.Crosses() then LastSecond else c.close)
  }

  /** What a clause puts in front of day `d`'s list. */
  function Front(days: seq<Day>, open: Time, close: Time, d: Day): seq<Interval> {
    if close <= open && PrevDay(d) in days then [Interval(Midnight, close)] else []
  }

  /** What a clause puts at the back of day `d`'s list. */
  function Back(days: seq<Day>, open: Time, close: Time, d: Day): seq<Interval> {
    if d in days then [OwnInterval(Clause(days, open, close))] else []
  }

  /**
   * The list a day ends up with, stated per clause: the after-midnight
   * parts `(00:00, close)` of the clauses that cross into it, the latest
   * clause first (each was inserted at the front), followed by the
   * intervals of the clauses that name the day, in clause order.
   */
  function DayIntervals(clauses: seq<Clause>, d: Day): seq<Interval>
    decreases |clauses|
  {
    if clauses == [] then []
    else
      var c := clauses[|clauses| - 1];
      var earlier := DayIntervals(clauses[..|clauses| - 1], d);
      Front(c.days, c.open, c.close, d) + earlier + Back(c.days, c.open, c.close, d)
  }

  /** One pass of the inner loop touches `day` at the back and, crossing midnight, the next day at the front. */
  lemma AddToDayAt(w: WeekSchedule, day: Day, open: Time, close: Time, d: Day)
    ensures AddToDay(w, day, open, close)[d] ==
      (if close <= open && d == NextDay(day) then [Interval(Midnight, close)] else []) +
      w[d] +
      (if d == day then [Interval(open, if close <= open then LastSecond else close)] else [])
  {
  }

  lemma FrontStep(init: seq<Day>, x: Day, open: Time, close: Time, d: Day)
    requires x !in init
    ensures (if close <= open && d == NextDay(x) then [Interval(Midnight, close)] else []) +
      Front(init, open, close, d) == Front(init + [x], open, close, d)
  {
    assert PrevDay(d) in init + [x] <==> PrevDay(d) in init || PrevDay(d) == x;
  }

  lemma BackStep(init: seq<Day>, x: Day, open: Time, close: Time, d: Day)
    requires x !in init
    ensures Back(init, open, close, d) +
      (if d == x then [Interval(open, if close <= open then LastSecond else close)] else []) ==
      Back(init + [x], open, close, d)
  {
    assert d in init + [x] <==> d in init || d == x;
  }

  /** The front and back that one clause with distinct days puts around a day's list. */
  lemma {:induction false} AddToDaysShape(w: WeekSchedule, days: seq<Day>, open: Time, close: Time, d: Day)
    requires Distinct(days)
    ensures AddToDays(w, days, open, close)[d] ==
      Front(days, open, close, d) + w[d] + Back(days, open, close, d)
  {
    if days != [] {
      var init := days[..|days| - 1];
      var x := days[|days| - 1];
      assert days == init + [x];
      assert x !in init && Distinct(init);
      var w' := AddToDays(w, init, open, close);
      assert AddToDays(w, days, open, close) == AddToDay(w', x, open, close);
      AddToDaysShape(w, init, open, close, d);
      AddToDayAt(w', x, open, close, d);
      FrontStep(init, x, open, close, d);
      BackStep(init, x, open, close, d);
      Regroup(if close <= open && d == NextDay(x) then [Interval(Midnight, close)] else [],
        Front(init, open, close, d), w[d], Back(init, open, close, d),
        if d == x then [Interval(open, if close <= open then LastSecond else close)] else []);
    }
  }

  lemma Regroup(a: seq<Interval>, f: seq<Interval>, m: seq<Interval>, b: seq<Interval>, z: seq<Interval>)
    ensures a + (f + m + b) + z == (a + f) + m + (b + z)
  {
  }

  /**
   * `parse_schedule` builds, for every day, exactly the per-clause list
   * `DayIntervals`, provided no clause names a day twice (which every
   * clause the parser produces satisfies).
   */
  lemma {:induction false} ApplyClausesIsDayIntervals(clauses: seq<Clause>, d: Day)
    requires forall i :: 0 <= i < |clauses| ==> Distinct(clauses[i].days)
    ensures ApplyClauses(EmptyWeek, clauses)[d] == DayIntervals(clauses, d)
  {
    if clauses != [] {
      var c := clauses[|clauses| - 1];
      var init := clauses[..|clauses| - 1];
      ApplyClausesIsDayIntervals(init, d);
      AddToDaysShape(ApplyClauses(EmptyWeek, init), c.days, c.open, c.close, d);
      assert OwnInterval(Clause(c.days, c.open, c.close)) == OwnInterval(c);
    }
  }

  /** A day that no clause names, and that no crossing clause reaches from the day before, stays `[]`. */
  lemma {:induction false} UntouchedDayStaysEmpty(clauses: seq<Clause>, d: Day)
    requires forall i :: 0 <= i < |clauses| ==> Distinct(clauses[i].days)
    requires forall i :: 0 <= i < |clauses| ==>
      d !in clauses[i].days && !(clauses[i].Crosses() && PrevDay(d) in clauses[i].days)
    ensures ApplyClauses(EmptyWeek, clauses)[d] == []
  {
    ApplyClausesIsDayIntervals(clauses, d);
    DayIntervalsEmpty(clauses, d);
  }

  lemma {:induction false} DayIntervalsEmpty(clauses: seq<Clause>, d: Day)
    requires forall i :: 0 <= i < |clauses| ==>
      d !in clauses[i].days && !(clauses[i].Crosses() && PrevDay(d) in clauses[i].days)
    ensures DayIntervals(clauses, d) == []
  {
    if clauses != [] {
      DayIntervalsEmpty(clauses[..|clauses| - 1], d);
    }
  }

  // ---------------------------------------------------------------------
  // Being open, stated on the clauses

  /** Some interval of the list contains `t`: the test of the query loop. */
  predicate OpenOn(intervals: seq<Interval>, t: Time) {
    exists i :: 0 <= i < |intervals| && intervals[i].Contains(t)
  }

  /**
   * What a clause promises for day `d` at time `t`. A clause that closes
   * after midnight covers its own days from `open` up to, but not
   * including, 23:59:59, and the following days before `close`.
   */
  predicate ClauseCovers(c: Clause, d: Day, t: Time) {
    if c.Crosses() then
      (d in c.days && c.open <= t < LastSecond) || (PrevDay(d) in c.days && t < c.close)
    else
      d in c.days && c.open <= t < c.close
  }

  lemma OpenOnConcat(a: seq<Interval>, b: seq<Interval>, t: Time)
    ensures OpenOn(a + b, t) <==> OpenOn(a, t) || OpenOn(b, t)
  {
    if OpenOn(a, t) {
      var i :| 0 <= i < |a| && a[i].Contains(t);
      assert (a + b)[i] == a[i];
    }
    if OpenOn(a + b, t) {
      var i :| 0 <= i < |a + b| && (a + b)[i].Contains(t);
      if i >= |a| { assert b[i - |a|].Contains(t); }
    }
    if OpenOn(b, t) {
      var i :| 0 <= i < |b| && b[i].Contains(t);
      assert (a + b)[|a| + i] == b[i];
    }
  }

  lemma {:induction false} AddToDaysOpen(w: WeekSchedule, days: seq<Day>, open: Time, close: Time, d: Day, t: Time)
    ensures OpenOn(AddToDays(w, days, open, close)[d], t) <==>
      OpenOn(w[d], t) || ClauseCovers(Clause(days, open, close), d, t)
  {
    if days != [] {
      var init := days[..|days| - 1];
      var x := days[|days| - 1];
      assert days == init + [x];
      var w' := AddToDays(w, init, open, close);
      AddToDaysOpen(w, init, open, close, d, t);
      if close <= open {
        var w1 := w'[x := w'[x] + [Interval(open, LastSecond)]];
        OpenOnConcat(w'[x], [Interval(open, LastSecond)], t);
        OpenOnConcat([Interval(Midnight, close)], w1[NextDay(x)], t);
        assert [Interval(open, LastSecond)][0] == Interval(open, LastSecond);
        assert [Interval(Midnight, close)][0] == Interval(Midnight, close);
      } else {
        OpenOnConcat(w'[x], [Interval(open, close)], t);
        assert [Interval(open, close)][0] == Interval(open, close);
      }
    }
  }

  /**
   * The week `parse_schedule` builds is open on day `d` at `t` exactly
   * when one of its clauses covers (d, t): splitting at midnight neither
   * loses nor adds opening time, apart from the one-second gap at 23:59:59.
   */
  lemma {:induction false} ApplyClausesOpen(clauses: seq<Clause>, d: Day, t: Time)
    ensures OpenOn(ApplyClauses(EmptyWeek, clauses)[d], t) <==>
      exists i :: 0 <= i < |clauses| && ClauseCovers(clauses[i], d, t)
  {
    if clauses != [] {
      var c := clauses[|clauses| - 1];
      var init := clauses[..|clauses| - 1];
      ApplyClausesOpen(init, d, t);
      AddToDaysOpen(ApplyClauses(EmptyWeek, init), c.days, c.open, c.close, d, t);
      if exists i :: 0 <= i < |clauses| && ClauseCovers(clauses[i], d, t) {
        var i :| 0 <= i < |clauses| && ClauseCovers(clauses[i], d, t);
        if i < |init| { assert init[i] == clauses[i]; }
      }
      if exists i :: 0 <= i < |init| && ClauseCovers(init[i], d, t) {
        var i :| 0 <= i < |init| && ClauseCovers(init[i], d, t);
        assert clauses[i] == init[i];
      }
    } else {
      assert !OpenOn(EmptyWeek[d], t);
    }
  }

  /**
   * Query times are whole minutes, so the 23:59:59 gap is never seen:
   * for them a crossing clause covers its own days from `open` to midnight.
   */
  lemma WholeMinutesSeeNoGap(c: Clause, d: Day, t: Time)
    requires t % 60 == 0
    ensures ClauseCovers(c, d, t) <==>
      if c.Crosses() then (d in c.days && c.open <= t) || (PrevDay(d) in c.days && t < c.close)
      else d in c.days && c.open <= t < c.close
  {
  }

  // ---------------------------------------------------------------------
  // Concrete cases

  lemma DayRangeExamples()
    ensures DayRange(5, 0) == [5, 6, 0]   // Sat-Mon
    ensures DayRange(0, 4) == [0, 1, 2, 3, 4]   // Mon-Fri
    ensures DayRange(2, 2) == [2]
    ensures NextDay(6) == 0
  {
  }

  /** A clause that closes the same day adds `(open, close)` at the back of each of its days. */
  lemma PlainClauseDay(w: WeekSchedule, days: seq<Day>, open: Time, close: Time, d: Day)
    requires Distinct(days) && open < close
    ensures AddToDays(w, days, open, close)[d] == w[d] + (if d in days then [Interval(open, close)] else [])
  {
    AddToDaysShape(w, days, open, close, d);
  }

  /** A clause that crosses midnight adds `(open, 23:59:59)` to its days and `(00:00, close)` in front of the next ones. */
  lemma CrossingClauseDay(w: WeekSchedule, days: seq<Day>, open: Time, close: Time, d: Day)
    requires Distinct(days) && close <= open
    ensures AddToDays(w, days, open, close)[d] ==
      (if PrevDay(d) in days then [Interval(Midnight, close)] else []) + w[d] +
      (if d in days then [Interval(open, LastSecond)] else [])
  {
    AddToDaysShape(w, days, open, close, d);
  }

  /**
   * "Mon-Fri 9am - 5pm / Sat 10am - 3pm" once its clauses are read, for
   * any such daytime hours: Monday and Friday hold the weekday interval,
   * Saturday its own, and Sunday nothing.
   */
  lemma WeekdaysAndSaturdayExample(open1: Time, close1: Time, open2: Time, close2: Time)
    requires open1 < close1 && open2 < close2
    ensures var w := ApplyClauses(EmptyWeek, [Clause(DayRange(0, 4), open1, close1), Clause([5], open2, close2)]);
      w[0] == [Interval(open1, close1)] && w[4] == [Interval(open1, close1)] &&
      w[5] == [Interval(open2, close2)] && w[6] == []
  {
    var days := DayRange(0, 4);
    TwoClauses(Clause(days, open1, close1), Clause([5], open2, close2));
    assert days == [0, 1, 2, 3, 4];
    DayRangeDistinct(0, 4);
    var w1 := AddToDays(EmptyWeek, days, open1, close1);
    PlainClauseDay(EmptyWeek, days, open1, close1, 0);
    PlainClauseDay(EmptyWeek, days, open1, close1, 4);
    PlainClauseDay(EmptyWeek, days, open1, close1, 5);
    PlainClauseDay(EmptyWeek, days, open1, close1, 6);
    PlainClauseDay(w1, [5], open2, close2, 0);
    PlainClauseDay(w1, [5], open2, close2, 4);
    PlainClauseDay(w1, [5], open2, close2, 5);
    PlainClauseDay(w1, [5], open2, close2, 6);
  }

  /**
   * "Mon-Thu 10am - 11pm / Fri 10am - 2am" once its clauses are read, for
   * any hours where only Friday's clause crosses midnight: Friday runs to
   * 23:59:59 and its late hours open Saturday's list.
   */
  lemma MidnightCrossingExample(open1: Time, close1: Time, open2: Time, close2: Time)
    requires open1 < close1 && close2 <= open2
    ensures var w := ApplyClauses(EmptyWeek, [Clause(DayRange(0, 3), open1, close1), Clause([4], open2, close2)]);
      w[0] == [Interval(open1, close1)] && w[4] == [Interval(open2, LastSecond)] &&
      w[5] == [Interval(Midnight, close2)]
  {
    var days := DayRange(0, 3);
    TwoClauses(Clause(days, open1, close1), Clause([4], open2, close2));
    assert days == [0, 1, 2, 3];
    DayRangeDistinct(0, 3);
    var w1 := AddToDays(EmptyWeek, days, open1, close1);
    PlainClauseDay(EmptyWeek, days, open1, close1, 0);
    PlainClauseDay(EmptyWeek, days, open1, close1, 4);
    PlainClauseDay(EmptyWeek, days, open1, close1, 5);
    assert w1[0] == [Interval(open1, close1)] && w1[4] == [] && w1[5] == [];
    var w := AddToDays(w1, [4], open2, close2);
    assert w[0] == w1[0] by {
      assert PrevDay(0) == 6;
      CrossingClauseDay(w1, [4], open2, close2, 0);
    }
    assert w[4] == w1[4] + [Interval(open2, LastSecond)] by {
      assert PrevDay(4) == 3;
      CrossingClauseDay(w1, [4], open2, close2, 4);
    }
    assert w[5] == [Interval(Midnight, close2)] + w1[5] by {
      assert PrevDay(5) == 4;
      CrossingClauseDay(w1, [4], open2, close2, 5);
    }
  }

  lemma TwoClauses(c1: Clause, c2: Clause)
    ensures ApplyClauses(EmptyWeek, [c1, c2]) ==
      AddToDays(AddToDays(EmptyWeek, c1.days, c1.open, c1.close), c2.days, c2.open, c2.close)
  {
    assert [c1][..0] == [];
    assert ApplyClauses(EmptyWeek, [c1]) == AddToDays(EmptyWeek, c1.days, c1.open, c1.close);
    assert [c1, c2][..1] == [c1];
  }
}
