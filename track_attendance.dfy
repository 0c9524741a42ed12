/** The record list of client/src/components/TrackAttendance.js: grouping
    the records by calendar day for display, and the search form that
    narrows the list held in the component's state. */
module TrackAttendance {
  import opened Wrappers
  import opened Js
  import opened Sequences
  import opened Calendar
  import opened Records
  import opened Meals

  // ---------------------------------------------------------------------------
  // groupByDate

  /** The records of day `d`, in record order. */
  function RecordsOn(rs: seq<AttendanceRecord>, d: CalendarDate): seq<AttendanceRecord> {
    if rs == [] then []
    else if rs[0].date == d then [rs[0]] + RecordsOn(rs[1..], d)
    else RecordsOn(rs[1..], d)
  }

  lemma {:induction false} RecordsOnSnoc(rs: seq<AttendanceRecord>, r: AttendanceRecord, d: CalendarDate)
    ensures RecordsOn(rs + [r], d) == RecordsOn(rs, d) + (if r.date == d then [r] else [])
  {
    if rs != [] {
      assert (rs + [r])[1..] == rs[1..] + [r];
      RecordsOnSnoc(rs[1..], r, d);
    }
  }

  /** A record lies in the group of day `d` exactly when it is one of the
      records and its day is `d`: every record is in one group, its own. */
  lemma {:induction false} GroupMembership(rs: seq<AttendanceRecord>, d: CalendarDate, r: AttendanceRecord)
    ensures r in RecordsOn(rs, d) <==> r in rs && r.date == d
  {
    if rs != [] {
      GroupMembership(rs[1..], d, r);
      assert rs == [rs[0]] + rs[1..];
    }
  }

  /** Each group keeps the records of its day in their original order. */
  lemma {:induction false} GroupKeepsOrder(rs: seq<AttendanceRecord>, d: CalendarDate)
    ensures IsSubsequence(RecordsOn(rs, d), rs)
  {
    if rs != [] {
      GroupKeepsOrder(rs[1..], d);
    }
  }

  /** A day has an empty group exactly when no record falls on it. */
  lemma {:induction false} RecordsOnEmpty(rs: seq<AttendanceRecord>, d: CalendarDate)
    ensures RecordsOn(rs, d) == [] <==> d !in Dates(rs)
  {
    if rs != [] {
      RecordsOnEmpty(rs[1..], d);
      assert Dates(rs) == [rs[0].date] + Dates(rs[1..]);
    }
  }

  /** `keys` and `groups` are what `groupByDate` builds from `rs`. */
  ghost predicate Grouped(rs: seq<AttendanceRecord>, keys: seq<CalendarDate>,
                          groups: map<CalendarDate, seq<AttendanceRecord>>) {
    && keys == Distinct(Dates(rs))
    && groups.Keys == (set d | d in keys)
    && (forall d :: d in groups ==> groups[d] == RecordsOn(rs, d))
  }

  /** The keys after one step of the reduce: a day is added on its first
      record. */
  lemma GroupKeysStep(rs: seq<AttendanceRecord>, r: AttendanceRecord, keys: seq<CalendarDate>,
                      groups: map<CalendarDate, seq<AttendanceRecord>>)
    requires keys == Distinct(Dates(rs)) && groups.Keys == (set d | d in keys)
    ensures var keys' := if r.date in groups then keys else keys + [r.date];
      var groups' := groups[r.date := (if r.date in groups then groups[r.date] else []) + [r]];
      && keys' == Distinct(Dates(rs + [r]))
      && groups'.Keys == (set d | d in keys')
  {
    DatesSnoc(rs, r);
    DistinctSnoc(Dates(rs), r.date);
  }

  /** The groups after one step of the reduce: the record is appended to
      its day's group, which starts out empty on the day's first record. */
  lemma GroupValuesStep(rs: seq<AttendanceRecord>, r: AttendanceRecord,
                        groups: map<CalendarDate, seq<AttendanceRecord>>)
    requires forall d :: d in groups ==> groups[d] == RecordsOn(rs, d)
    requires r.date in groups <==> r.date in Dates(rs)
    ensures var groups' := groups[r.date := (if r.date in groups then groups[r.date] else []) + [r]];
      forall d :: d in groups' ==> groups'[d] == RecordsOn(rs + [r], d)
  {
    RecordsOnEmpty(rs, r.date);
    forall d ensures RecordsOn(rs + [r], d) == RecordsOn(rs, d) + (if r.date == d then [r] else []) {
      RecordsOnSnoc(rs, r, d);
    }
  }

  /** One step of the reduce keeps `Grouped`. */
  lemma GroupedStep(rs: seq<AttendanceRecord>, r: AttendanceRecord, keys: seq<CalendarDate>,
                    groups: map<CalendarDate, seq<AttendanceRecord>>)
    requires Grouped(rs, keys, groups)
    ensures Grouped(rs + [r],
                    if r.date in groups then keys else keys + [r.date],
                    groups[r.date := (if r.date in groups then groups[r.date] else []) + [r]])
  {
    GroupKeysStep(rs, r, keys, groups);
    DistinctMembers(Dates(rs), r.date);
    GroupValuesStep(rs, r, groups);
  }

  /** `groupByDate(records)`: an object from each day to the records of that
      day, in record order; its keys come out in order of first appearance. */
  method GroupByDate(records: seq<AttendanceRecord>)
      returns (keys: seq<CalendarDate>, groups: map<CalendarDate, seq<AttendanceRecord>>)
    ensures keys == Distinct(Dates(records))
    ensures forall d :: d in groups <==> d in keys
    ensures forall d :: d in groups ==> groups[d] == RecordsOn(records, d)
  {
    keys, groups := [], map[];
    var i := 0;
    while i < |records|
      invariant 0 <= i <= |records|
      invariant Grouped(records[..i], keys, groups)
    {
      var record := records[i];
      assert records[..i + 1] == records[..i] + [record];
      GroupedStep(records[..i], record, keys, groups);
      var group := [];
      if record.date in groups {
        group := groups[record.date];
      } else {
        keys := keys + [record.date];
      }
      groups := groups[record.date := group + [record]];
      i := i + 1;
    }
    assert records[..i] == records;
  }

  /** The sum of the sizes of the groups of `keys`. */
  function GroupTotal(keys: seq<CalendarDate>, rs: seq<AttendanceRecord>): nat {
    if keys == [] then 0
    else GroupTotal(keys[..|keys| - 1], rs) + |RecordsOn(rs, keys[|keys| - 1])|
  }

  lemma {:induction false} GroupTotalSnoc(keys: seq<CalendarDate>, rs: seq<AttendanceRecord>, r: AttendanceRecord)
    requires NoDuplicates(keys)
    ensures GroupTotal(keys, rs + [r]) == GroupTotal(keys, rs) + (if r.date in keys then 1 else 0)
  {
    if keys != [] {
      var init, last := keys[..|keys| - 1], keys[|keys| - 1];
      assert keys == init + [last];
      assert NoDuplicates(init);
      assert last !in init;
      GroupTotalSnoc(init, rs, r);
      RecordsOnSnoc(rs, r, last);
    }
  }

  /** No record is lost or counted twice: the group sizes add up to the
      number of records. */
  lemma {:induction false} GroupSizesSumToCount(rs: seq<AttendanceRecord>)
    ensures GroupTotal(Distinct(Dates(rs)), rs) == |rs|
  {
    if rs != [] {
      var init, r := rs[..|rs| - 1], rs[|rs| - 1];
      assert rs == init + [r];
      assert Dates(rs) == Dates(init) + [r.date];
      assert Dates(rs)[..|rs| - 1] == Dates(init);
      GroupSizesSumToCount(init);
      var keys := Distinct(Dates(init));
      GroupTotalSnoc(keys, init, r);
      if r.date !in keys {
        assert Distinct(Dates(rs)) == keys + [r.date];
        assert (keys + [r.date])[..|keys|] == keys;
        RecordsOnSnoc(init, r, r.date);
        RecordsOnEmpty(init, r.date);
        assert GroupTotal(keys, rs) == |init|;
      }
    }
  }

  // ---------------------------------------------------------------------------
  // Searching

  /** The text searched for: the picked date when the date column is
      selected and a date has been picked, otherwise the typed query. */
  function EffectiveQuery(searchColumn: string, searchQuery: string, selectedDate: string): string {
    if searchColumn == "date" && selectedDate != "" then selectedDate else searchQuery
  }

  /** The test the filter applies to one record. `dayOf` is the calendar day
      the host's date parser gives a query (`None` for "Invalid Date"). */
  predicate Matches(r: AttendanceRecord, searchColumn: string, query: string,
                    dayOf: string -> Option<CalendarDate>) {
    if searchColumn == "uniqueId" then r.uniqueId != "" && Includes(r.uniqueId, query)
    else if searchColumn == "rollNo" then r.rollNo != "" && Includes(r.rollNo, query)
    else if searchColumn == "date" then dayOf(query) == Some(r.date)
    else if searchColumn == "meal" then
      Includes(ToLowerCase(MealName(MealType(r.time))), ToLowerCase(query))
    else true
  }

  /** `attendanceRecords.filter(...)` with the test above. */
  function SearchResults(rs: seq<AttendanceRecord>, searchColumn: string, query: string,
                         dayOf: string -> Option<CalendarDate>): seq<AttendanceRecord> {
    if rs == [] then []
    else if Matches(rs[0], searchColumn, query, dayOf) then
      [rs[0]] + SearchResults(rs[1..], searchColumn, query, dayOf)
    else SearchResults(rs[1..], searchColumn, query, dayOf)
  }

  /** The search keeps, in their original order, exactly the records that
      pass the column's test. */
  lemma {:induction false} SearchResultsSpec(rs: seq<AttendanceRecord>, searchColumn: string, query: string,
                                             dayOf: string -> Option<CalendarDate>)
    ensures IsSubsequence(SearchResults(rs, searchColumn, query, dayOf), rs)
    ensures forall r :: r in SearchResults(rs, searchColumn, query, dayOf) <==>
      r in rs && Matches(r, searchColumn, query, dayOf)
    ensures forall r :: multiset(SearchResults(rs, searchColumn, query, dayOf))[r] ==
                        if Matches(r, searchColumn, query, dayOf) then multiset(rs)[r] else 0
  {
    if rs != [] {
      SearchResultsSpec(rs[1..], searchColumn, query, dayOf);
      assert rs == [rs[0]] + rs[1..];
      assert multiset(rs) == multiset{rs[0]} + multiset(rs[1..]);
    }
  }

  /** A second search runs on the result of the first: it keeps a
      subsequence of that result, made of the records that pass both tests. */
  lemma SearchNarrows(rs: seq<AttendanceRecord>, column1: string, query1: string,
                      column2: string, query2: string, dayOf: string -> Option<CalendarDate>)
    ensures var first := SearchResults(rs, column1, query1, dayOf);
      var second := SearchResults(first, column2, query2, dayOf);
      && IsSubsequence(second, first)
      && |second| <= |first| <= |rs|
      && forall r :: r in second <==>
           r in rs && Matches(r, column1, query1, dayOf) && Matches(r, column2, query2, dayOf)
  {
    var first := SearchResults(rs, column1, query1, dayOf);
    SearchResultsSpec(rs, column1, query1, dayOf);
    SearchResultsSpec(first, column2, query2, dayOf);
    SearchShrinks(rs, column1, query1, dayOf);
    SearchShrinks(first, column2, query2, dayOf);
  }

  lemma {:induction false} SearchShrinks(rs: seq<AttendanceRecord>, searchColumn: string, query: string,
                                         dayOf: string -> Option<CalendarDate>)
    ensures |SearchResults(rs, searchColumn, query, dayOf)| <= |rs|
  {
    if rs != [] {
      SearchShrinks(rs[1..], searchColumn, query, dayOf);
    }
  }

  /** A column the switch does not name keeps every record. */
  lemma {:induction false} UnknownColumnKeepsAll(rs: seq<AttendanceRecord>, searchColumn: string, query: string,
                                                 dayOf: string -> Option<CalendarDate>)
    requires searchColumn !in {"uniqueId", "rollNo", "date", "meal"}
    ensures SearchResults(rs, searchColumn, query, dayOf) == rs
  {
    if rs != [] {
      UnknownColumnKeepsAll(rs[1..], searchColumn, query, dayOf);
    }
  }

  /** The lower-case spelling of each meal's name. */
  function LowerMealName(m: Meal): string {
    match m
    case Breakfast => "breakfast"
    case Lunch => "lunch"
    case Snacks => "snacks"
    case Dinner => "dinner"
    case NoMeal => "no meal"
  }

  lemma LowerMealNameIsLowerCase(m: Meal)
    ensures ToLowerCase(MealName(m)) == LowerMealName(m)
  {
    var name, lower := MealName(m), LowerMealName(m);
    assert |name| == |lower|;
    forall i | 0 <= i < |name| ensures ToLowerCase(name)[i] == lower[i] {
      assert LowerChar(name[i]) == lower[i];
    }
  }

  /** No meal's name occurs inside another's: "breakfast" is the longest,
      and each other name has a letter the longer names lack ('u' in
      "lunch", 'c' in "snacks", 'i' in "dinner", the space in "no meal"). */
  lemma MealNamesApart(a: Meal, b: Meal)
    requires a != b
    ensures !Includes(LowerMealName(a), LowerMealName(b))
  {
    var s, q := LowerMealName(a), LowerMealName(b);
    if |s| < |q| {
      NotIncludedByLength(s, q);
    } else {
      match b
      case Breakfast => NotIncludedByLength(s, q);
      case Lunch => NotIncludedByChar(s, q, 1);
      case Snacks => NotIncludedByChar(s, q, 3);
      case Dinner => NotIncludedByChar(s, q, 1);
      case NoMeal => NotIncludedByChar(s, q, 2);
    }
  }

  /** Searching the meal column for the name of a meal, in any letter case,
      keeps exactly the records classified as that meal. */
  lemma MealSearchByName(r: AttendanceRecord, m: Meal, query: string, dayOf: string -> Option<CalendarDate>)
    requires ToLowerCase(query) == ToLowerCase(MealName(m))
    ensures Matches(r, "meal", query, dayOf) <==> MealType(r.time) == m
  {
    LowerMealNameIsLowerCase(m);
    LowerMealNameIsLowerCase(MealType(r.time));
    if MealType(r.time) == m {
      IncludesSelf(LowerMealName(m));
    } else {
      MealNamesApart(MealType(r.time), m);
    }
  }

  /** U+212A KELVIN SIGN lower-cases to "k", so searching the meal column
      for it keeps exactly the Breakfast and Snacks records. */
  lemma KelvinSignSearch(r: AttendanceRecord, dayOf: string -> Option<CalendarDate>)
    ensures Matches(r, "meal", "\U{212A}", dayOf) <==>
      MealType(r.time) == Breakfast || MealType(r.time) == Snacks
  {
    var m := MealType(r.time);
    var s := LowerMealName(m);
    LowerMealNameIsLowerCase(m);
    assert ToLowerCase("\U{212A}") == "k";
    match m
    case Breakfast =>
      assert OccursAt(s, "k", 4);
      IncludesIff(s, "k");
    case Snacks =>
      assert OccursAt(s, "k", 4);
      IncludesIff(s, "k");
    case Lunch => NotIncludedByChar(s, "k", 0);
    case Dinner => NotIncludedByChar(s, "k", 0);
    case NoMeal => NotIncludedByChar(s, "k", 0);
  }

  // ---------------------------------------------------------------------------
  // The component

  /** The state of the TrackAttendance component. */
  class TrackAttendanceView {
    var attendanceRecords: seq<AttendanceRecord>
    var error: string
    var searchQuery: string
    var searchColumn: string
    var selectedDate: string

    constructor ()
      ensures attendanceRecords == [] && error == ""
      ensures searchQuery == "" && searchColumn == "uniqueId" && selectedDate == ""
    {
      attendanceRecords := [];
      error := "";
      searchQuery := "";
      searchColumn := "uniqueId";
      selectedDate := "";
    }

    /** `handleSearch`. A blank query asks for the records to be fetched again
        (`refetch`) and leaves the list as it is; any other query replaces the
        list with the records that pass the selected column's test. */
    method HandleSearch(dayOf: string -> Option<CalendarDate>) returns (refetch: bool)
      modifies this`attendanceRecords
      ensures var query := EffectiveQuery(searchColumn, searchQuery, selectedDate);
        && refetch == AllWhiteSpace(query)
        && attendanceRecords ==
             if refetch then old(attendanceRecords)
             else SearchResults(old(attendanceRecords), searchColumn, query, dayOf)
    {
      var query := searchQuery;
      if searchColumn == "date" && selectedDate != "" {
        query := selectedDate;
      }
      TrimEmptyIff(query);
      if Trim(query) != "" {
        attendanceRecords := SearchResults(attendanceRecords, searchColumn, query, dayOf);
        refetch := false;
      } else {
        refetch := true;
      }
    }
  }
}
