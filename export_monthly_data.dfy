/** The monthly table of client/src/components/ExportMonthlyData.js: one row
    per student, and for every day in the chosen range four cells, one per
    meal, each "P" or "A". The component carries its own copies of
    `getMealType` and `getMealStatus`, identical to those of TrackAttendance;
    both are modelled once, in module Meals. */
module ExportMonthlyData {
  import opened Wrappers
  import opened Js
  import opened Sequences
  import opened Calendar
  import opened Records
  import opened Meals

  // ---------------------------------------------------------------------------
  // Day entries

  /** The four statuses stored for one student on one day. */
  datatype DayStatus = DayStatus(breakfastStatus: string, lunchStatus: string,
                                 snacksStatus: string, dinnerStatus: string)

  /** The status of meal `m` in an entry. */
  function Slot(e: DayStatus, m: Meal): string {
    match m
    case Breakfast => e.breakfastStatus
    case Lunch => e.lunchStatus
    case Snacks => e.snacksStatus
    case Dinner => e.dinnerStatus
    case NoMeal => ""
  }

  /** The meals of the four status columns under each date, in column order. */
  const ColumnMeals: seq<Meal> := [Breakfast, Lunch, Snacks, Dinner]

  lemma ColumnMealsAreMeals(k: int)
    requires 0 <= k < 4
    ensures ColumnMeals[k] != NoMeal
  {
  }

  /** The entry written for one record: `getMealStatus` for each meal. */
  function DayStatusOf(r: AttendanceRecord): DayStatus {
    DayStatus(MealStatus(r, "Breakfast"), MealStatus(r, "Lunch"),
              MealStatus(r, "Snacks"), MealStatus(r, "Dinner"))
  }

  /** A record's entry marks the meal its time falls in "P"; each other meal
      gets the record's stored status, or "A" when none is stored. */
  lemma DayStatusOfSpec(r: AttendanceRecord, m: Meal)
    requires m != NoMeal
    ensures Slot(DayStatusOf(r), m) ==
      if MealType(r.time) == m then "P" else OrElse(StoredStatus(r, m), "A")
    ensures NoStoredStatuses(r) ==>
      (Slot(DayStatusOf(r), m) == "P" <==> MealType(r.time) == m) &&
      Slot(DayStatusOf(r), m) in {"P", "A"}
  {
    MealStatusSpec(r, m, "");
  }

  // ---------------------------------------------------------------------------
  // groupByStudent

  /** An object from each student's id to an object from each day to that
      day's entry. */
  type StudentTable = map<string, map<CalendarDate, DayStatus>>

  predicate InTable(t: StudentTable, id: string, d: CalendarDate) {
    id in t && d in t[id]
  }

  /** One step of the reduce: create the student's object on their first
      record, then set the day's entry to `e`. */
  function Store(t: StudentTable, r: AttendanceRecord, e: DayStatus): StudentTable {
    var days := if r.uniqueId in t then t[r.uniqueId] else map[];
    t[r.uniqueId := days[r.date := e]]
  }

  /** `groupByStudent(records)` as written: each record's entry replaces any
      entry already stored for the same student and day. */
  function StudentRecords(rs: seq<AttendanceRecord>): (t: StudentTable)
    ensures forall id :: id in t <==> id in Ids(rs)
  {
    if rs == [] then map[]
    else
      var init, r := rs[..|rs| - 1], rs[|rs| - 1];
      IdsSnoc(init, r);
      assert rs == init + [r];
      Store(StudentRecords(init), r, DayStatusOf(r))
  }

  /** One step of the reduce: the new record's entry is stored last, and a
      student's id becomes a key on their first record. */
  lemma StudentRecordsStep(rs: seq<AttendanceRecord>, r: AttendanceRecord)
    ensures StudentRecords(rs + [r]) == Store(StudentRecords(rs), r, DayStatusOf(r))
    ensures Distinct(Ids(rs + [r])) ==
      if r.uniqueId in StudentRecords(rs) then Distinct(Ids(rs)) else Distinct(Ids(rs)) + [r.uniqueId]
  {
    StudentRecordsSnoc(rs, r);
    IdsSnoc(rs, r);
    DistinctSnoc(Ids(rs), r.uniqueId);
    DistinctMembers(Ids(rs), r.uniqueId);
  }

  lemma StudentRecordsSnoc(rs: seq<AttendanceRecord>, r: AttendanceRecord)
    ensures StudentRecords(rs + [r]) == Store(StudentRecords(rs), r, DayStatusOf(r))
  {
    assert (rs + [r])[..|rs|] == rs;
  }

  /** The reduce run in place over the records. `keys` lists the student
      ids in the order the object acquires them. */
  method GroupByStudent(records: seq<AttendanceRecord>) returns (keys: seq<string>, groups: StudentTable)
    ensures keys == Distinct(Ids(records))
    ensures groups == StudentRecords(records)
  {
    keys, groups := [], map[];
    var i := 0;
    while i < |records|
      invariant 0 <= i <= |records|
      invariant keys == Distinct(Ids(records[..i]))
      invariant groups == StudentRecords(records[..i])
    {
      var record := records[i];
      PrefixSnoc(records, i);
      StudentRecordsStep(records[..i], record);
      var key := record.uniqueId;
      var days := map[];
      if key in groups {
        days := groups[key];
      } else {
        keys := keys + [key];
      }
      groups := groups[key := days[record.date := DayStatusOf(record)]];
      i := i + 1;
    }
    assert records[..i] == records;
  }

  /** Some record is a scan of student `id` on day `d`. */
  predicate ScannedOn(rs: seq<AttendanceRecord>, id: string, d: CalendarDate) {
    exists i :: 0 <= i < |rs| && rs[i].uniqueId == id && rs[i].date == d
  }

  /** The index of the last scan of student `id` on day `d`, or -1. */
  function LastScan(rs: seq<AttendanceRecord>, id: string, d: CalendarDate): (i: int)
    ensures -1 <= i < |rs|
    ensures i >= 0 ==> rs[i].uniqueId == id && rs[i].date == d
    ensures forall j :: i < j < |rs| ==> rs[j].uniqueId != id || rs[j].date != d
  {
    if rs == [] then -1
    else if rs[|rs| - 1].uniqueId == id && rs[|rs| - 1].date == d then |rs| - 1
    else LastScan(rs[..|rs| - 1], id, d)
  }

  /** As written, a student's day holds an entry exactly when the student
      was scanned that day, and the entry is the one of the LAST such scan:
      earlier scans of the same day leave no trace. */
  lemma {:induction false} StudentRecordsEntry(rs: seq<AttendanceRecord>, id: string, d: CalendarDate)
    ensures InTable(StudentRecords(rs), id, d) <==> ScannedOn(rs, id, d)
    ensures ScannedOn(rs, id, d) ==>
      LastScan(rs, id, d) >= 0 &&
      StudentRecords(rs)[id][d] == DayStatusOf(rs[LastScan(rs, id, d)])
  {
    if rs != [] {
      var init, r := rs[..|rs| - 1], rs[|rs| - 1];
      assert rs == init + [r];
      StudentRecordsEntry(init, id, d);
      ScannedOnSnoc(init, r, id, d);
      StudentRecordsSnoc(init, r);
      StoreLookup(StudentRecords(init), r, DayStatusOf(r), id, d);
      LastScanSnoc(init, r, id, d);
    }
  }

  /** What `Store` leaves at a student's day. */
  lemma StoreLookup(t: StudentTable, r: AttendanceRecord, e: DayStatus, id: string, d: CalendarDate)
    ensures InTable(Store(t, r, e), id, d) <==> InTable(t, id, d) || (r.uniqueId == id && r.date == d)
    ensures InTable(Store(t, r, e), id, d) ==>
      Store(t, r, e)[id][d] == if r.uniqueId == id && r.date == d then e else t[id][d]
  {
  }

  lemma LastScanSnoc(rs: seq<AttendanceRecord>, r: AttendanceRecord, id: string, d: CalendarDate)
    ensures LastScan(rs + [r], id, d) ==
      if r.uniqueId == id && r.date == d then |rs| else LastScan(rs, id, d)
  {
    assert (rs + [r])[..|rs|] == rs;
  }

  lemma ScannedOnSnoc(rs: seq<AttendanceRecord>, r: AttendanceRecord, id: string, d: CalendarDate)
    ensures ScannedOn(rs + [r], id, d) <==> ScannedOn(rs, id, d) || (r.uniqueId == id && r.date == d)
  {
    if r.uniqueId == id && r.date == d {
      assert (rs + [r])[|rs|] == r;
    }
    if ScannedOn(rs + [r], id, d) && !(r.uniqueId == id && r.date == d) {
      var i :| 0 <= i < |rs + [r]| && (rs + [r])[i].uniqueId == id && (rs + [r])[i].date == d;
      assert i < |rs| && rs[i] == (rs + [r])[i];
    }
    if ScannedOn(rs, id, d) {
      var i :| 0 <= i < |rs| && rs[i].uniqueId == id && rs[i].date == d;
      assert (rs + [r])[i] == rs[i];
    }
  }

  /** As written, recording the last scan a second time changes nothing:
      its entry is already the stored one. */
  lemma RepeatedLastScanChangesNothing(rs: seq<AttendanceRecord>, r: AttendanceRecord)
    ensures StudentRecords(rs + [r] + [r]) == StudentRecords(rs + [r])
  {
    StoreTwice(rs, r);
    StoreAgain(StudentRecords(rs), r, DayStatusOf(r));
  }

  /** Two steps of the reduce on the same record. */
  lemma StoreTwice(rs: seq<AttendanceRecord>, r: AttendanceRecord)
    ensures StudentRecords(rs + [r]) == Store(StudentRecords(rs), r, DayStatusOf(r))
    ensures StudentRecords(rs + [r] + [r]) == Store(Store(StudentRecords(rs), r, DayStatusOf(r)), r, DayStatusOf(r))
  {
    StudentRecordsSnoc(rs, r);
    StudentRecordsSnoc(rs + [r], r);
  }

  /** Storing the same entry twice is storing it once. */
  lemma StoreAgain(t: StudentTable, r: AttendanceRecord, e: DayStatus)
    ensures Store(Store(t, r, e), r, e) == Store(t, r, e)
  {
    var t1 := Store(t, r, e);
    assert t1[r.uniqueId][r.date := e] == t1[r.uniqueId];
  }

  /** As written, a later scan of the same student on the same day erases
      the "P" of an earlier scan in another meal's window: the earlier meal
      reads "A" although the student was scanned for it. */
  lemma LaterScanErasesEarlierMeal(rs: seq<AttendanceRecord>, first: AttendanceRecord,
                                   second: AttendanceRecord, m: Meal)
    requires first.uniqueId == second.uniqueId && first.date == second.date
    requires m != NoMeal && MealType(first.time) == m && MealType(second.time) != m
    requires NoStoredStatuses(second)
    ensures var t := StudentRecords(rs + [first] + [second]);
      && InTable(t, first.uniqueId, first.date)
      && Slot(t[first.uniqueId][first.date], m) == "A"
      && Slot(DayStatusOf(first), m) == "P"
  {
    var t := StudentRecords(rs + [first]);
    StudentRecordsSnoc(rs + [first], second);
    StoreLookup(t, second, DayStatusOf(second), second.uniqueId, second.date);
    assert Slot(DayStatusOf(second), m) == "A" by {
      DayStatusOfSpec(second, m);
    }
    assert Slot(DayStatusOf(first), m) == "P" by {
      DayStatusOfSpec(first, m);
    }
  }

  /** A concrete instance: one student scanned at 8:00:00 AM (breakfast) and
      at 1:00:00 PM (lunch) on the same day has breakfast marked "A". */
  lemma BreakfastLostAfterLunchScan(d: CalendarDate)
    ensures var breakfast := AttendanceRecord("S1", "Asha", "21", "Present", "8:00:00 AM", d, "", "", "", "");
      var lunch := AttendanceRecord("S1", "Asha", "21", "Present", "1:00:00 PM", d, "", "", "", "");
      && MealType(breakfast.time) == Breakfast
      && MealType(lunch.time) == Lunch
      && StudentRecords([breakfast, lunch])["S1"][d].breakfastStatus == "A"
  {
    var breakfast := AttendanceRecord("S1", "Asha", "21", "Present", "8:00:00 AM", d, "", "", "", "");
    var lunch := AttendanceRecord("S1", "Asha", "21", "Present", "1:00:00 PM", d, "", "", "", "");
    assert MealType("8:00:00 AM") == Breakfast by {
      WallClockMeal(8, 0, 0, "AM", "8:00:00 AM");
    }
    assert MealType("1:00:00 PM") == Lunch by {
      WallClockMeal(1, 0, 0, "PM", "1:00:00 PM");
    }
    assert [] + [breakfast] + [lunch] == [breakfast, lunch];
    LaterScanErasesEarlierMeal([], breakfast, lunch, Breakfast);
  }

  // ---------------------------------------------------------------------------
  // groupByStudent, corrected

  /** A meal counts as attended when either scan marked it "P". */
  function MergeSlot(earlier: string, later: string): string {
    if earlier == "P" then "P" else later
  }

  function Merge(earlier: DayStatus, later: DayStatus): DayStatus {
    DayStatus(MergeSlot(earlier.breakfastStatus, later.breakfastStatus),
              MergeSlot(earlier.lunchStatus, later.lunchStatus),
              MergeSlot(earlier.snacksStatus, later.snacksStatus),
              MergeSlot(earlier.dinnerStatus, later.dinnerStatus))
  }

  /** The reduce with a second scan of the same day merged into the stored
      entry instead of replacing it. */
  function MergedStudentRecords(rs: seq<AttendanceRecord>): (t: StudentTable)
    ensures forall id :: id in t <==> id in Ids(rs)
  {
    if rs == [] then map[]
    else
      var init, r := rs[..|rs| - 1], rs[|rs| - 1];
      IdsSnoc(init, r);
      assert rs == init + [r];
      var t := MergedStudentRecords(init);
      var e := if InTable(t, r.uniqueId, r.date) then Merge(t[r.uniqueId][r.date], DayStatusOf(r))
               else DayStatusOf(r);
      Store(t, r, e)
  }

  /** Some scan of student `id` on day `d` falls in meal `m`'s window. */
  predicate ScannedFor(rs: seq<AttendanceRecord>, id: string, d: CalendarDate, m: Meal) {
    exists i :: 0 <= i < |rs| && rs[i].uniqueId == id && rs[i].date == d && MealType(rs[i].time) == m
  }

  lemma ScannedForSnoc(rs: seq<AttendanceRecord>, r: AttendanceRecord, id: string, d: CalendarDate, m: Meal)
    ensures ScannedFor(rs + [r], id, d, m) <==>
      ScannedFor(rs, id, d, m) || (r.uniqueId == id && r.date == d && MealType(r.time) == m)
  {
    if r.uniqueId == id && r.date == d && MealType(r.time) == m {
      assert (rs + [r])[|rs|] == r;
    }
    if ScannedFor(rs + [r], id, d, m) && !(r.uniqueId == id && r.date == d && MealType(r.time) == m) {
      var i :| 0 <= i < |rs + [r]| && (rs + [r])[i].uniqueId == id && (rs + [r])[i].date == d
        && MealType((rs + [r])[i].time) == m;
      assert i < |rs| && rs[i] == (rs + [r])[i];
    }
    if ScannedFor(rs, id, d, m) {
      var i :| 0 <= i < |rs| && rs[i].uniqueId == id && rs[i].date == d && MealType(rs[i].time) == m;
      assert (rs + [r])[i] == rs[i];
    }
  }

  /** Records as the scan endpoint writes them: no stored status fields. */
  predicate AllScans(rs: seq<AttendanceRecord>) {
    forall i :: 0 <= i < |rs| ==> NoStoredStatuses(rs[i])
  }

  /** With the merge too, a student's day holds an entry exactly when the
      student was scanned that day. */
  lemma {:induction false} MergedStudentRecordsDomain(rs: seq<AttendanceRecord>, id: string, d: CalendarDate)
    ensures InTable(MergedStudentRecords(rs), id, d) <==> ScannedOn(rs, id, d)
  {
    if rs != [] {
      var init, r := rs[..|rs| - 1], rs[|rs| - 1];
      assert rs == init + [r];
      MergedStudentRecordsDomain(init, id, d);
      MergedEntryStep(init, r, id, d, Breakfast);
      ScannedOnSnoc(init, r, id, d);
    }
  }

  /** With the merge, each meal of a scanned day reads "P" exactly when some
      scan of that day falls in the meal's window, and "A" otherwise. */
  lemma {:induction false} MergedStudentRecordsEntry(rs: seq<AttendanceRecord>, id: string, d: CalendarDate, m: Meal)
    requires AllScans(rs) && m != NoMeal
    ensures InTable(MergedStudentRecords(rs), id, d) ==>
      (Slot(MergedStudentRecords(rs)[id][d], m) == "P" <==> ScannedFor(rs, id, d, m)) &&
      Slot(MergedStudentRecords(rs)[id][d], m) in {"P", "A"}
  {
    if rs != [] {
      var init, r := rs[..|rs| - 1], rs[|rs| - 1];
      assert rs == init + [r];
      assert AllScans(init) by {
        forall i | 0 <= i < |init| ensures NoStoredStatuses(init[i]) {
          assert init[i] == rs[i];
        }
      }
      assert NoStoredStatuses(r) by {
        assert r == rs[|rs| - 1];
      }
      MergedStudentRecordsEntry(init, id, d, m);
      MergedStudentRecordsDomain(init, id, d);
      MergedEntryStep(init, r, id, d, m);
      ScannedForSnoc(init, r, id, d, m);
      DayStatusOfSpec(r, m);
    }
  }

  /** How one step of the merged reduce changes the entry of `id` on `d`. */
  lemma MergedEntryStep(rs: seq<AttendanceRecord>, r: AttendanceRecord, id: string, d: CalendarDate, m: Meal)
    ensures var t := MergedStudentRecords(rs);
      var t' := MergedStudentRecords(rs + [r]);
      && (InTable(t', id, d) <==> InTable(t, id, d) || (r.uniqueId == id && r.date == d))
      && (InTable(t', id, d) && (r.uniqueId != id || r.date != d) ==> t'[id][d] == t[id][d])
      && (r.uniqueId == id && r.date == d ==>
            Slot(t'[id][d], m) ==
              if InTable(t, id, d) then MergeSlot(Slot(t[id][d], m), Slot(DayStatusOf(r), m))
              else Slot(DayStatusOf(r), m))
  {
    assert (rs + [r])[..|rs|] == rs;
  }

  /** No two records share a student and a day. */
  predicate OneScanPerDay(rs: seq<AttendanceRecord>) {
    forall i, j :: 0 <= i < j < |rs| ==> rs[i].uniqueId != rs[j].uniqueId || rs[i].date != rs[j].date
  }

  /** The merge changes nothing when every student is scanned at most once a
      day: there the code as written is already right. */
  lemma {:induction false} MergedAgreesOnOneScanPerDay(rs: seq<AttendanceRecord>)
    requires OneScanPerDay(rs)
    ensures MergedStudentRecords(rs) == StudentRecords(rs)
  {
    if rs != [] {
      var init, r := rs[..|rs| - 1], rs[|rs| - 1];
      assert rs == init + [r];
      assert OneScanPerDay(init) by {
        forall i, j | 0 <= i < j < |init|
          ensures init[i].uniqueId != init[j].uniqueId || init[i].date != init[j].date
        {
          assert init[i] == rs[i] && init[j] == rs[j];
        }
      }
      MergedAgreesOnOneScanPerDay(init);
      assert !ScannedOn(init, r.uniqueId, r.date) by {
        forall i | 0 <= i < |init| ensures init[i].uniqueId != r.uniqueId || init[i].date != r.date {
          assert init[i] == rs[i];
        }
      }
      MergedStudentRecordsDomain(init, r.uniqueId, r.date);
      StudentRecordsStep(init, r);
    }
  }

  // ---------------------------------------------------------------------------
  // getUniqueDates

  /** `getUniqueDates(records)`: the days of the records, each once, in
      ascending order. */
  function UniqueDates(rs: seq<AttendanceRecord>): seq<CalendarDate> {
    SortDates(Distinct(Dates(rs)))
  }

  /** The date columns come in ascending order, each day once. */
  lemma UniqueDatesAscending(rs: seq<AttendanceRecord>)
    ensures StrictlyAscending(UniqueDates(rs))
  {
    SortDatesAscending(Distinct(Dates(rs)));
  }

  /** The date columns list every day that has a record, and no other. */
  lemma UniqueDatesMembers(rs: seq<AttendanceRecord>, d: CalendarDate)
    ensures d in UniqueDates(rs) <==> d in Dates(rs)
  {
    DistinctMembers(Dates(rs), d);
    assert d in UniqueDates(rs) <==> d in multiset(UniqueDates(rs));
    assert d in Distinct(Dates(rs)) <==> d in multiset(Distinct(Dates(rs)));
  }

  /** Any ascending listing of the record days without repetition is the
      one `getUniqueDates` returns. */
  lemma UniqueDatesIsTheListing(rs: seq<AttendanceRecord>, ds: seq<CalendarDate>)
    requires StrictlyAscending(ds)
    requires forall d :: d in ds <==> d in Dates(rs)
    ensures ds == UniqueDates(rs)
  {
    forall d ensures d in UniqueDates(rs) <==> d in ds {
      UniqueDatesMembers(rs, d);
    }
    UniqueDatesAscending(rs);
    AscendingListingUnique(ds, UniqueDates(rs));
  }

  // ---------------------------------------------------------------------------
  // handleSearch

  /** The filter of `handleSearch`: the days from `from` to `to`, both
      included, in their original order. */
  function DatesInRange(ds: seq<CalendarDate>, from: CalendarDate, to: CalendarDate): seq<CalendarDate> {
    if ds == [] then []
    else if NotAfter(from, ds[0]) && NotAfter(ds[0], to) then [ds[0]] + DatesInRange(ds[1..], from, to)
    else DatesInRange(ds[1..], from, to)
  }

  /** The range keeps, in order, exactly the days on or after `from` and on
      or before `to`; an ascending list stays ascending. */
  lemma {:induction false} DatesInRangeSpec(ds: seq<CalendarDate>, from: CalendarDate, to: CalendarDate)
    ensures IsSubsequence(DatesInRange(ds, from, to), ds)
    ensures forall d :: d in DatesInRange(ds, from, to) <==> d in ds && NotAfter(from, d) && NotAfter(d, to)
    ensures StrictlyAscending(ds) ==> StrictlyAscending(DatesInRange(ds, from, to))
  {
    if ds != [] {
      DatesInRangeSpec(ds[1..], from, to);
      assert ds == [ds[0]] + ds[1..];
      if StrictlyAscending(ds) {
        assert StrictlyAscending(ds[1..]);
        var rest := DatesInRange(ds[1..], from, to);
        forall j | 0 <= j < |rest| ensures Before(ds[0], rest[j]) {
          assert rest[j] in ds[1..];
        }
      }
    }
  }

  /** A range whose start lies after its end keeps no day. */
  lemma {:induction false} InvertedRangeIsEmpty(ds: seq<CalendarDate>, from: CalendarDate, to: CalendarDate)
    requires Before(to, from)
    ensures DatesInRange(ds, from, to) == []
  {
    if ds != [] {
      InvertedRangeIsEmpty(ds[1..], from, to);
      BeforeIsStrictTotalOrder(from, ds[0], to);
      BeforeIsStrictTotalOrder(ds[0], to, from);
      BeforeIsStrictTotalOrder(to, from, ds[0]);
    }
  }

  /** The message shown when a bound is missing. */
  const MissingDatesError := "Please select both \"from\" and \"to\" dates."

  // ---------------------------------------------------------------------------
  // The table body

  /** The four student fields the identity columns show. */
  function DetailFields(s: StudentDetails): seq<string> {
    [s.rollNo, s.name, s.semester, s.feePaid]
  }

  /** The identity cells of a row: each field of the student's details, or
      "N/A" when the details are missing or the field is empty. */
  function IdentityCells(details: map<string, StudentDetails>, id: string): (cells: seq<string>)
    ensures |cells| == 4
    ensures forall k :: 0 <= k < 4 ==>
      cells[k] == if id in details && DetailFields(details[id])[k] != "" then DetailFields(details[id])[k] else "N/A"
  {
    if id in details then
      var s := details[id];
      [OrElse(s.rollNo, "N/A"), OrElse(s.name, "N/A"), OrElse(s.semester, "N/A"), OrElse(s.feePaid, "N/A")]
    else ["N/A", "N/A", "N/A", "N/A"]
  }

  /** The four cells under one date: the stored status of each meal, or "A"
      when the student has no entry that day or the status is empty. */
  function DayCells(days: map<CalendarDate, DayStatus>, date: CalendarDate): (cells: seq<string>)
    ensures |cells| == 4
    ensures forall k :: 0 <= k < 4 ==>
      cells[k] == if date in days then OrElse(Slot(days[date], ColumnMeals[k]), "A") else "A"
  {
    if date in days then
      var e := days[date];
      [OrElse(e.breakfastStatus, "A"), OrElse(e.lunchStatus, "A"),
       OrElse(e.snacksStatus, "A"), OrElse(e.dinnerStatus, "A")]
    else ["A", "A", "A", "A"]
  }

  /** The status cells of a row: four per date, dates in order. */
  function DateCells(days: map<CalendarDate, DayStatus>, dates: seq<CalendarDate>): (cells: seq<string>)
    ensures |cells| == 4 * |dates|
    ensures forall j, k :: 0 <= j < |dates| && 0 <= k < 4 ==>
      cells[4 * j + k] == DayCells(days, dates[j])[k]
  {
    if dates == [] then []
    else
      DayCells(days, dates[0]) + DateCells(days, dates[1..])
  }

  /** One row of the table body. */
  function StudentRow(details: map<string, StudentDetails>, days: map<CalendarDate, DayStatus>,
                      id: string, dates: seq<CalendarDate>): (row: seq<string>)
    ensures |row| == 4 + 4 * |dates|
    ensures row[..4] == IdentityCells(details, id)
    ensures forall j, k :: 0 <= j < |dates| && 0 <= k < 4 ==>
      row[4 + 4 * j + k] == DayCells(days, dates[j])[k]
  {
    IdentityCells(details, id) + DateCells(days, dates)
  }

  /** The table body: one row per key of the student table, in the order
      `Object.keys` lists them; `keys` is the order the keys were created. */
  function TableBody(table: StudentTable, keys: seq<string>, details: map<string, StudentDetails>,
                     dates: seq<CalendarDate>): (rows: seq<seq<string>>)
    requires forall i :: 0 <= i < |keys| ==> keys[i] in table
    ensures |rows| == |keys|
    ensures forall i :: 0 <= i < |rows| ==>
      rows[i] == StudentRow(details, table[ObjectKeys(keys)[i]], ObjectKeys(keys)[i], dates)
  {
    var order := ObjectKeys(keys);
    seq(|order|, i requires 0 <= i < |order| => StudentRow(details, table[order[i]], order[i], dates))
  }

  /** Status cell `k` of date column `j` in a row of the table body. */
  function StatusCell(row: seq<string>, j: nat, k: nat): string
    requires 4 + 4 * j + k < |row|
  {
    row[4 + 4 * j + k]
  }

  /** What the table shows for meal `k` of student `id` on day `d` when each
      day keeps only its last scan: that scan's status, or "A". */
  function LastScanCell(rs: seq<AttendanceRecord>, id: string, d: CalendarDate, k: nat): string
    requires k < 4
  {
    var i := LastScan(rs, id, d);
    if i >= 0 then OrElse(Slot(DayStatusOf(rs[i]), ColumnMeals[k]), "A") else "A"
  }

  /** A status cell of the table body is the day cell of that row's
      student, date and meal. */
  lemma TableCellIsDayCell(table: StudentTable, keys: seq<string>, details: map<string, StudentDetails>,
                           dates: seq<CalendarDate>, i: int, j: int, k: int)
    requires forall n :: 0 <= n < |keys| ==> keys[n] in table
    requires 0 <= i < |keys| && 0 <= j < |dates| && 0 <= k < 4
    ensures var rows := TableBody(table, keys, details, dates);
      var id := ObjectKeys(keys)[i];
      && |rows| == |keys|
      && id in table
      && |rows[i]| == 4 + 4 * |dates|
      && StatusCell(rows[i], j, k) == DayCells(table[id], dates[j])[k]
  {
    var id := ObjectKeys(keys)[i];
    var row := TableBody(table, keys, details, dates)[i];
    assert row == StudentRow(details, table[id], id, dates);
  }

  /** Each row of the table body holds the student's identity cells and
      four status cells per date. */
  lemma TableRowShape(table: StudentTable, keys: seq<string>, details: map<string, StudentDetails>,
                      dates: seq<CalendarDate>, i: int)
    requires forall n :: 0 <= n < |keys| ==> keys[n] in table
    requires 0 <= i < |keys|
    ensures var rows := TableBody(table, keys, details, dates);
      && |rows| == |keys|
      && |rows[i]| == 4 + 4 * |dates|
      && rows[i][..4] == IdentityCells(details, ObjectKeys(keys)[i])
  {
    var id := ObjectKeys(keys)[i];
    var row := TableBody(table, keys, details, dates)[i];
    assert row == StudentRow(details, table[id], id, dates);
  }

  /** As written, the day cell of a student shows the status of the last
      scan of that day, or "A". */
  lemma DayCellIsLastScan(rs: seq<AttendanceRecord>, id: string, d: CalendarDate, k: int)
    requires id in StudentRecords(rs) && 0 <= k < 4
    ensures DayCells(StudentRecords(rs)[id], d)[k] == LastScanCell(rs, id, d, k)
  {
    StudentRecordsEntry(rs, id, d);
    var last := LastScan(rs, id, d);
    if last >= 0 {
      assert rs[last].uniqueId == id && rs[last].date == d;
    }
  }

  /** As written, each status cell of the monthly table shows the status
      recorded by the last scan of that student on that day, and "A" when
      there is none. */
  lemma MonthlyCellIsLastScan(rs: seq<AttendanceRecord>, details: map<string, StudentDetails>,
                              dates: seq<CalendarDate>, i: int, j: int, k: int)
    requires 0 <= i < |Distinct(Ids(rs))| && 0 <= j < |dates| && 0 <= k < 4
    ensures var keys := Distinct(Ids(rs));
      var rows := TableBody(StudentRecords(rs), keys, details, dates);
      && |rows| == |keys|
      && |rows[i]| == 4 + 4 * |dates|
      && StatusCell(rows[i], j, k) == LastScanCell(rs, ObjectKeys(keys)[i], dates[j], k)
  {
    var keys := Distinct(Ids(rs));
    TableCellIsDayCell(StudentRecords(rs), keys, details, dates, i, j, k);
    DayCellIsLastScan(rs, ObjectKeys(keys)[i], dates[j], k);
  }

  /** `rows` is the rendered table of `rs` with each day's last scan:
      one row per student in `Object.keys` order, each with the student's
      identity cells and, in every status cell, `LastScanCell`. */
  predicate ShowsLastScans(rs: seq<AttendanceRecord>, details: map<string, StudentDetails>,
                           rows: seq<seq<string>>, dates: seq<CalendarDate>)
  {
    var order := ObjectKeys(Distinct(Ids(rs)));
    && |rows| == |order|
    && (forall i :: 0 <= i < |rows| ==>
          |rows[i]| == 4 + 4 * |dates| && rows[i][..4] == IdentityCells(details, order[i]))
    && forall i, j, k :: 0 <= i < |rows| && 0 <= j < |dates| && 0 <= k < 4 ==>
         StatusCell(rows[i], j, k) == LastScanCell(rs, order[i], dates[j], k)
  }

  /** `rows` has one row per student, and each status cell reads "P"
      exactly when the row's student was scanned that day within the
      meal's window, and "A" otherwise. */
  predicate ShowsScans(rs: seq<AttendanceRecord>, rows: seq<seq<string>>, dates: seq<CalendarDate>)
  {
    var order := ObjectKeys(Distinct(Ids(rs)));
    && |rows| == |order|
    && (forall i :: 0 <= i < |rows| ==> |rows[i]| == 4 + 4 * |dates|)
    && forall i, j, k :: 0 <= i < |rows| && 0 <= j < |dates| && 0 <= k < 4 ==>
         && (StatusCell(rows[i], j, k) == "P" <==> ScannedFor(rs, order[i], dates[j], ColumnMeals[k]))
         && StatusCell(rows[i], j, k) in {"P", "A"}
  }

  lemma RowsShowLastScans(rs: seq<AttendanceRecord>, details: map<string, StudentDetails>,
                          dates: seq<CalendarDate>)
    ensures ShowsLastScans(rs, details, TableBody(StudentRecords(rs), Distinct(Ids(rs)), details, dates), dates)
  {
    var keys, table := Distinct(Ids(rs)), StudentRecords(rs);
    assert forall n :: 0 <= n < |keys| ==> keys[n] in table;
    var rows := TableBody(table, keys, details, dates);
    forall i | 0 <= i < |rows|
      ensures |rows[i]| == 4 + 4 * |dates| && rows[i][..4] == IdentityCells(details, ObjectKeys(keys)[i])
    {
      TableRowShape(table, keys, details, dates, i);
    }
    forall i, j, k | 0 <= i < |rows| && 0 <= j < |dates| && 0 <= k < 4
      ensures StatusCell(rows[i], j, k) == LastScanCell(rs, ObjectKeys(keys)[i], dates[j], k)
    {
      MonthlyCellIsLastScan(rs, details, dates, i, j, k);
    }
  }

  lemma ScannedForIsScannedOn(rs: seq<AttendanceRecord>, id: string, d: CalendarDate, m: Meal)
    ensures ScannedFor(rs, id, d, m) ==> ScannedOn(rs, id, d)
  {
  }

  /** With the merge, the monthly table shows, for every student row, date
      column and meal, "P" exactly when some scan of that student on that
      day falls in the meal's window, and "A" otherwise. */
  lemma MonthlyCellIsPresentIffScanned(rs: seq<AttendanceRecord>, details: map<string, StudentDetails>,
                                       dates: seq<CalendarDate>, i: int, j: int, k: int)
    requires AllScans(rs)
    requires 0 <= i < |Distinct(Ids(rs))| && 0 <= j < |dates| && 0 <= k < 4
    ensures var keys := Distinct(Ids(rs));
      var rows := TableBody(MergedStudentRecords(rs), keys, details, dates);
      var id := ObjectKeys(keys)[i];
      && |rows| == |keys|
      && |rows[i]| == 4 + 4 * |dates|
      && (rows[i][4 + 4 * j + k] == "P" <==> ScannedFor(rs, id, dates[j], ColumnMeals[k]))
      && rows[i][4 + 4 * j + k] in {"P", "A"}
  {
    var keys := Distinct(Ids(rs));
    var table := MergedStudentRecords(rs);
    var id := ObjectKeys(keys)[i];
    var d, m := dates[j], ColumnMeals[k];
    var row := TableBody(table, keys, details, dates)[i];
    assert row == StudentRow(details, table[id], id, dates);
    var cell := row[4 + 4 * j + k];
    assert cell == DayCells(table[id], d)[k];
    assert cell == if d in table[id] then OrElse(Slot(table[id][d], m), "A") else "A";
    MergedStudentRecordsDomain(rs, id, d);
    ColumnMealsAreMeals(k);
    MergedStudentRecordsEntry(rs, id, d, m);
    ScannedForIsScannedOn(rs, id, d, m);
  }

  lemma MergedRowsShowScans(rs: seq<AttendanceRecord>, details: map<string, StudentDetails>,
                            dates: seq<CalendarDate>)
    ensures AllScans(rs) ==>
      ShowsScans(rs, TableBody(MergedStudentRecords(rs), Distinct(Ids(rs)), details, dates), dates)
  {
    var keys := Distinct(Ids(rs));
    var rows := TableBody(MergedStudentRecords(rs), keys, details, dates);
    if AllScans(rs) {
      forall i | 0 <= i < |rows| ensures |rows[i]| == 4 + 4 * |dates| {
        assert rows[i] == StudentRow(details, MergedStudentRecords(rs)[ObjectKeys(keys)[i]], ObjectKeys(keys)[i], dates);
      }
      forall i, j, k | 0 <= i < |rows| && 0 <= j < |dates| && 0 <= k < 4
        ensures && (StatusCell(rows[i], j, k) == "P" <==> ScannedFor(rs, ObjectKeys(keys)[i], dates[j], ColumnMeals[k]))
          && StatusCell(rows[i], j, k) in {"P", "A"}
      {
        MonthlyCellIsPresentIffScanned(rs, details, dates, i, j, k);
      }
    }
  }

  /** As written, the monthly table shows the lost breakfast of
      `BreakfastLostAfterLunchScan`: the student's breakfast cell reads "A". */
  lemma BreakfastCellReadsAbsent(d: CalendarDate, details: map<string, StudentDetails>)
    ensures var breakfast := AttendanceRecord("S1", "Asha", "21", "Present", "8:00:00 AM", d, "", "", "", "");
      var lunch := AttendanceRecord("S1", "Asha", "21", "Present", "1:00:00 PM", d, "", "", "", "");
      var rows := TableBody(StudentRecords([breakfast, lunch]), ["S1"], details, [d]);
      |rows| == 1 && rows[0][4] == "A"
  {
    var breakfast := AttendanceRecord("S1", "Asha", "21", "Present", "8:00:00 AM", d, "", "", "", "");
    var lunch := AttendanceRecord("S1", "Asha", "21", "Present", "1:00:00 PM", d, "", "", "", "");
    BreakfastLostAfterLunchScan(d);
    assert ObjectKeys(["S1"])[0] == "S1";
  }

  // ---------------------------------------------------------------------------
  // The component

  /** The state of the ExportMonthlyData component. An unset date input is
      `None`. */
  class ExportMonthlyDataView {
    var attendanceRecords: seq<AttendanceRecord>
    var studentDetails: map<string, StudentDetails>
    var error: string
    var fromDate: Option<CalendarDate>
    var toDate: Option<CalendarDate>
    var filteredDates: seq<CalendarDate>

    constructor ()
      ensures attendanceRecords == [] && studentDetails == map[] && error == ""
      ensures fromDate == None && toDate == None && filteredDates == []
    {
      attendanceRecords := [];
      studentDetails := map[];
      error := "";
      fromDate := None;
      toDate := None;
      filteredDates := [];
    }

    /** `handleSearch`: with a bound missing, report it and keep the columns;
        otherwise show the record days from `fromDate` to `toDate`, both
        included, and clear the error. */
    method HandleSearch()
      modifies this`error, this`filteredDates
      ensures fromDate.None? || toDate.None? ==>
        error == MissingDatesError && filteredDates == old(filteredDates)
      ensures fromDate.Some? && toDate.Some? ==>
        error == "" &&
        filteredDates == DatesInRange(UniqueDates(attendanceRecords), fromDate.value, toDate.value)
    {
      if fromDate.None? || toDate.None? {
        error := MissingDatesError;
        return;
      }
      filteredDates := DatesInRange(UniqueDates(attendanceRecords), fromDate.value, toDate.value);
      error := "";
    }

    /** The rows of the table body as the component renders them: the
        student's details, then for each date column the statuses of that
        day's last scan. */
    function Rows(): (rows: seq<seq<string>>)
      reads this
      ensures ShowsLastScans(attendanceRecords, studentDetails, rows, filteredDates)
    {
      RowsShowLastScans(attendanceRecords, studentDetails, filteredDates);
      TableBody(StudentRecords(attendanceRecords), Distinct(Ids(attendanceRecords)),
                studentDetails, filteredDates)
    }

    /** The rows with the scans of a day merged: a status cell reads "P"
        exactly when some scan of that student on that day falls in the
        meal's window. */
    function CorrectedRows(): (rows: seq<seq<string>>)
      reads this
      ensures |rows| == |Distinct(Ids(attendanceRecords))|
      ensures AllScans(attendanceRecords) ==> ShowsScans(attendanceRecords, rows, filteredDates)
    {
      MergedRowsShowScans(attendanceRecords, studentDetails, filteredDates);
      TableBody(MergedStudentRecords(attendanceRecords), Distinct(Ids(attendanceRecords)),
                studentDetails, filteredDates)
    }
  }
}
