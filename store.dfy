/**
 * The records the schedule engine reads and the CSV upload that writes
 * them (`UploadScheduleView.post`): restaurants, unique by name, and
 * schedule records that keep the raw schedule string and an active flag.
 * Uploading a row makes its schedule the restaurant's only active one;
 * older records stay, inactive. A batch is one transaction.
 */
module Store {

  import opened Outcomes

  /** A `Schedule` row: its restaurant's name, the raw string and `is_active`. */
  datatype ScheduleRecord = ScheduleRecord(restaurant: string, schedule: string, active: bool)

  /** The two tables: restaurant names in creation order, schedule records in creation order. */
  datatype StoreState = StoreState(restaurants: seq<string>, schedules: seq<ScheduleRecord>)

  /** `ValueError(f"Invalid row: {row}")` */
  datatype UploadError = InvalidRow(row: seq<string>)

  /** No two active records belong to the same restaurant. */
  predicate AtMostOneActive(records: seq<ScheduleRecord>) {
    forall i, j :: 0 <= i < j < |records| && records[i].active && records[j].active ==>
      records[i].restaurant != records[j].restaurant
  }

  /** Restaurant names are unique, every record names a restaurant, and at most one record per restaurant is active. */
  predicate Consistent(st: StoreState) {
    (forall i, j :: 0 <= i < j < |st.restaurants| ==> st.restaurants[i] != st.restaurants[j]) &&
    (forall i :: 0 <= i < |st.schedules| ==> st.schedules[i].restaurant in st.restaurants) &&
    AtMostOneActive(st.schedules)
  }

  /** `Restaurant.objects.get_or_create(name=name)` */
  function GetOrCreate(restaurants: seq<string>, name: string): seq<string> {
    if name in restaurants then restaurants else restaurants + [name]
  }

  /** `Schedule.objects.filter(restaurant=restaurant, is_active=True).update(is_active=False)` */
  function Deactivate(records: seq<ScheduleRecord>, name: string): seq<ScheduleRecord> {
    seq(|records|, i requires 0 <= i < |records| =>
      if records[i].restaurant == name then records[i].(active := false) else records[i])
  }

  /** One row of the upload: get or create the restaurant, deactivate its schedules, add the new one. */
  function AddRow(st: StoreState, name: string, schedule: string): StoreState {
    StoreState(GetOrCreate(st.restaurants, name),
               Deactivate(st.schedules, name) + [ScheduleRecord(name, schedule, true)])
  }

  /** The whole batch: the rows in order, or the first row without exactly two columns. */
  function UploadRows(st: StoreState, rows: seq<seq<string>>): Result<StoreState, UploadError>
    decreases |rows|
  {
    if rows == [] then Ok(st)
    else
      var row := rows[|rows| - 1];
      match UploadRows(st, rows[..|rows| - 1]) {
        case Err(e) => Err(e)
        case Ok(st') => if |row| != 2 then Err(InvalidRow(row)) else Ok(AddRow(st', row[0], row[1]))
      }
  }

  // ---------------------------------------------------------------------
  // One row

  /**
   * After a row for `name`: the new record is the last one and the only
   * active record of `name`; every earlier record keeps its restaurant and
   * string, and only `name`'s records lose their active flag.
   */
  lemma AddRowOutcome(st: StoreState, name: string, schedule: string)
    ensures var st' := AddRow(st, name, schedule);
      |st'.schedules| == |st.schedules| + 1 &&
      st'.schedules[|st.schedules|] == ScheduleRecord(name, schedule, true) &&
      (forall i :: 0 <= i < |st'.schedules| && st'.schedules[i].restaurant == name && st'.schedules[i].active ==>
         i == |st.schedules|) &&
      (forall i :: 0 <= i < |st.schedules| ==>
         st'.schedules[i].restaurant == st.schedules[i].restaurant &&
         st'.schedules[i].schedule == st.schedules[i].schedule &&
         st'.schedules[i].active == (st.schedules[i].active && st.schedules[i].restaurant != name)) &&
      (forall i :: 0 <= i < |st.schedules| && st.schedules[i].restaurant != name ==>
         st'.schedules[i] == st.schedules[i]) &&
      name in st'.restaurants && st.restaurants <= st'.restaurants
  {
  }

  lemma AddRowConsistent(st: StoreState, name: string, schedule: string)
    requires Consistent(st)
    ensures Consistent(AddRow(st, name, schedule))
  {
    var st' := AddRow(st, name, schedule);
    AddRowOutcome(st, name, schedule);
    forall i | 0 <= i < |st'.schedules| ensures st'.schedules[i].restaurant in st'.restaurants {
      if i < |st.schedules| {
        assert st.schedules[i].restaurant in st.restaurants;
      }
    }
  }

  // ---------------------------------------------------------------------
  // A batch

  /** The batch fails exactly when some row does not have two columns, and then with the first such row. */
  lemma {:induction false} UploadRowsFails(st: StoreState, rows: seq<seq<string>>)
    ensures UploadRows(st, rows).Err? <==> exists i :: 0 <= i < |rows| && |rows[i]| != 2
    ensures UploadRows(st, rows).Err? ==>
      (exists i :: 0 <= i < |rows| && |rows[i]| != 2 &&
         UploadRows(st, rows).error == InvalidRow(rows[i]) && forall j :: 0 <= j < i ==> |rows[j]| == 2)
  {
    if rows != [] {
      var init := rows[..|rows| - 1];
      UploadRowsFails(st, init);
      assert forall i :: 0 <= i < |init| ==> init[i] == rows[i];
    }
  }

  lemma {:induction false} UploadRowsConsistent(st: StoreState, rows: seq<seq<string>>)
    requires Consistent(st)
    ensures UploadRows(st, rows).Ok? ==> Consistent(UploadRows(st, rows).value)
  {
    if rows != [] {
      var init := rows[..|rows| - 1];
      UploadRowsConsistent(st, init);
      var row := rows[|rows| - 1];
      if UploadRows(st, init).Ok? && |row| == 2 {
        AddRowConsistent(UploadRows(st, init).value, row[0], row[1]);
      }
    }
  }

  /** The schedule string of the last row for `name`, if any row names it. */
  function LastScheduleFor(rows: seq<seq<string>>, name: string): Option<string>
    decreases |rows|
  {
    if rows == [] then None
    else
      var row := rows[|rows| - 1];
      if |row| == 2 && row[0] == name then Some(row[1]) else LastScheduleFor(rows[..|rows| - 1], name)
  }

  /** The active records of one restaurant. */
  function ActiveSchedulesOf(records: seq<ScheduleRecord>, name: string): seq<string>
    decreases |records|
  {
    if records == [] then []
    else
      var r := records[|records| - 1];
      ActiveSchedulesOf(records[..|records| - 1], name) + (if r.active && r.restaurant == name then [r.schedule] else [])
  }

  lemma ActiveSchedulesOfDeactivated(records: seq<ScheduleRecord>, name: string)
    ensures ActiveSchedulesOf(Deactivate(records, name), name) == []
    ensures forall other :: other != name ==> ActiveSchedulesOf(Deactivate(records, name), other) == ActiveSchedulesOf(records, other)
    decreases |records|
  {
    if records != [] {
      var init := records[..|records| - 1];
      assert Deactivate(records, name)[..|records| - 1] == Deactivate(init, name);
      ActiveSchedulesOfDeactivated(init, name);
    }
  }

  /**
   * After a successful batch, a restaurant named by some row has exactly
   * one active schedule, the string of the last row naming it; every other
   * restaurant keeps the active schedules it had.
   */
  lemma {:induction false} UploadRowsLastWins(st: StoreState, rows: seq<seq<string>>, name: string)
    requires UploadRows(st, rows).Ok?
    ensures LastScheduleFor(rows, name).Some? ==>
      ActiveSchedulesOf(UploadRows(st, rows).value.schedules, name) == [LastScheduleFor(rows, name).value]
    ensures LastScheduleFor(rows, name).None? ==>
      ActiveSchedulesOf(UploadRows(st, rows).value.schedules, name) == ActiveSchedulesOf(st.schedules, name)
  {
    if rows != [] {
      var init := rows[..|rows| - 1];
      var row := rows[|rows| - 1];
      UploadRowsLastWins(st, init, name);
      var prev := UploadRows(st, init).value;
      var recs := Deactivate(prev.schedules, row[0]) + [ScheduleRecord(row[0], row[1], true)];
      assert recs[..|recs| - 1] == Deactivate(prev.schedules, row[0]);
      ActiveSchedulesOfDeactivated(prev.schedules, row[0]);
    }
  }

  /**
   * Earlier records are never removed: each keeps its position, restaurant
   * and string, and can only lose its active flag, never gain it. A record
   * of a restaurant that no row names is left exactly as it was.
   */
  lemma {:induction false} UploadRowsKeepsHistory(st: StoreState, rows: seq<seq<string>>)
    requires UploadRows(st, rows).Ok?
    ensures var st' := UploadRows(st, rows).value;
      |st.schedules| <= |st'.schedules| &&
      forall i :: 0 <= i < |st.schedules| ==>
        st'.schedules[i].restaurant == st.schedules[i].restaurant &&
        st'.schedules[i].schedule == st.schedules[i].schedule &&
        (st'.schedules[i].active ==> st.schedules[i].active) &&
        (LastScheduleFor(rows, st.schedules[i].restaurant).None? ==> st'.schedules[i] == st.schedules[i])
  {
    if rows != [] {
      var init := rows[..|rows| - 1];
      var row := rows[|rows| - 1];
      UploadRowsKeepsHistory(st, init);
      AddRowOutcome(UploadRows(st, init).value, row[0], row[1]);
    }
  }

  /**
   * The store as the upload view changes it. `Valid` is the invariant
   * the views rely on: one active schedule per restaurant at most.
   */
  class ScheduleStore {
    var restaurants: seq<string>
    var schedules: seq<ScheduleRecord>

    function State(): StoreState
      reads this
    {
      StoreState(restaurants, schedules)
    }

    ghost predicate Valid()
      reads this
    {
      Consistent(State())
    }

    constructor ()
      ensures Valid() && restaurants == [] && schedules == []
    {
      restaurants := [];
      schedules := [];
    }

    /**
     * `UploadScheduleView.post` on an already-decoded CSV: the rows in
     * order inside `transaction.atomic()`; a row without two columns
     * raises, and the transaction puts both tables back as they were.
     */
    method Upload(rows: seq<seq<string>>) returns (r: Result<(), UploadError>)
      requires Valid()
      modifies this
      ensures Valid()
      ensures UploadRows(old(State()), rows).Err? ==>
        r == Err(UploadRows(old(State()), rows).error) && State() == old(State())
      ensures UploadRows(old(State()), rows).Ok? ==>
        r == Ok(()) && State() == UploadRows(old(State()), rows).value
    {
      var savedRestaurants, savedSchedules := restaurants, schedules;
      for i := 0 to |rows|
        invariant UploadRows(StoreState(savedRestaurants, savedSchedules), rows[..i]) == Ok(State())
      {
        assert rows[..i + 1][..i] == rows[..i];
        var row := rows[i];
        if |row| != 2 {
          FirstBadRow(StoreState(savedRestaurants, savedSchedules), rows, i);
          restaurants, schedules := savedRestaurants, savedSchedules;
          return Err(InvalidRow(row));
        }
        var name, schedule := row[0], row[1];
        if name !in restaurants {
          restaurants := restaurants + [name];
        }
        schedules := Deactivate(schedules, name);
        schedules := schedules + [ScheduleRecord(name, schedule, true)];
      }
      assert rows[..|rows|] == rows;
      UploadRowsConsistent(StoreState(savedRestaurants, savedSchedules), rows);
      return Ok(());
    }
  }

  /** A bad row after good ones makes the whole batch fail with that row. */
  lemma FirstBadRow(st: StoreState, rows: seq<seq<string>>, i: nat)
    requires i < |rows| && UploadRows(st, rows[..i]).Ok? && |rows[i]| != 2
    ensures UploadRows(st, rows) == Err(InvalidRow(rows[i]))
  {
    UploadRowsFails(st, rows[..i]);
    assert forall j :: 0 <= j < i ==> rows[..i][j] == rows[j];
    UploadRowsFails(st, rows);
    var k :| 0 <= k < |rows| && |rows[k]| != 2 &&
      UploadRows(st, rows).error == InvalidRow(rows[k]) && forall j :: 0 <= j < k ==> |rows[j]| == 2;
    assert k == i;
  }
}
