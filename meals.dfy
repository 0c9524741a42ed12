/** The meal classifier (`getMealType`) and the per-meal status
    (`getMealStatus`), of which client/src/components/TrackAttendance.js and
    client/src/components/ExportMonthlyData.js carry identical copies. The
    time of day is read with the unanchored pattern
    `(\d{1,2}):(\d{2}):\d{2} (\w{2})`, converted from the 12-hour clock to
    minutes since midnight, and placed in one of four half-open meal
    windows. */
module Meals {
  import opened Wrappers
  import opened Js
  import opened Records

  datatype Meal = Breakfast | Lunch | Snacks | Dinner | NoMeal

  /** The text `getMealType` returns for each outcome. */
  function MealName(m: Meal): string {
    match m
    case Breakfast => "Breakfast"
    case Lunch => "Lunch"
    case Snacks => "Snacks"
    case Dinner => "Dinner"
    case NoMeal => "No Meal"
  }

  // ---------------------------------------------------------------------------
  // Reading the time of day

  /** What the three capture groups give: hours and minutes as `parseInt`
      reads them, and the two-character period. */
  datatype ClockTime = ClockTime(hours: nat, minutes: nat, period: string)

  /** `\w`: ASCII letters, digits and the underscore. */
  predicate IsWordChar(c: char) {
    ('a' <= c <= 'z') || ('A' <= c <= 'Z') || IsDigit(c) || c == '_'
  }

  /** The pattern after the hour digits, `:(\d{2}):\d{2} (\w{2})`, matched at
      position `j`: the minutes and the period. */
  function TailAt(s: string, j: nat): Option<(nat, string)> {
    if && j + 9 <= |s|
       && s[j] == ':' && IsDigit(s[j + 1]) && IsDigit(s[j + 2])
       && s[j + 3] == ':' && IsDigit(s[j + 4]) && IsDigit(s[j + 5])
       && s[j + 6] == ' ' && IsWordChar(s[j + 7]) && IsWordChar(s[j + 8])
    then Some((DigitValue(s[j + 1]) * 10 + DigitValue(s[j + 2]), s[j + 7..j + 9]))
    else None
  }

  /** The whole pattern matched at position `i`. The greedy `\d{1,2}` first
      tries two hour digits and backtracks to one. */
  function MatchAt(s: string, i: nat): Option<ClockTime> {
    if i + 2 <= |s| && IsDigit(s[i]) && IsDigit(s[i + 1]) && TailAt(s, i + 2).Some? then
      var tail := TailAt(s, i + 2).value;
      Some(ClockTime(DigitValue(s[i]) * 10 + DigitValue(s[i + 1]), tail.0, tail.1))
    else if i + 1 <= |s| && IsDigit(s[i]) && TailAt(s, i + 1).Some? then
      var tail := TailAt(s, i + 1).value;
      Some(ClockTime(DigitValue(s[i]), tail.0, tail.1))
    else None
  }

  function MatchFrom(s: string, i: nat): Option<ClockTime>
    decreases |s| - i
  {
    if i >= |s| then None
    else if MatchAt(s, i).Some? then MatchAt(s, i)
    else MatchFrom(s, i + 1)
  }

  /** `time.match(...)`: the leftmost match, or `None` when there is none. */
  function ParseTime(s: string): Option<ClockTime> {
    MatchFrom(s, 0)
  }

  /** The pattern matches at `k` and at no earlier position. */
  predicate FirstMatchAt(s: string, k: nat) {
    MatchAt(s, k).Some? && forall j :: 0 <= j < k ==> MatchAt(s, j).None?
  }

  lemma {:induction false} MatchFromFinds(s: string, i: nat, k: nat)
    requires i <= k && MatchAt(s, k).Some?
    requires forall j :: i <= j < k ==> MatchAt(s, j).None?
    ensures MatchFrom(s, i) == MatchAt(s, k)
    decreases k - i
  {
    if i < k {
      MatchFromFinds(s, i + 1, k);
    }
  }

  lemma {:induction false} MatchFromNone(s: string, i: nat)
    ensures MatchFrom(s, i).None? <==> forall j :: i <= j ==> MatchAt(s, j).None?
    decreases |s| - i
  {
    if i < |s| && MatchAt(s, i).None? {
      MatchFromNone(s, i + 1);
    }
  }

  /** `ParseTime` has the semantics of an unanchored regular-expression
      search: it yields the match at the first position where the pattern
      matches, and `None` exactly when it matches nowhere. */
  lemma ParseTimeIsLeftmostMatch(s: string, k: nat)
    ensures FirstMatchAt(s, k) ==> ParseTime(s) == MatchAt(s, k)
    ensures ParseTime(s).None? <==> forall j :: 0 <= j ==> MatchAt(s, j).None?
  {
    if FirstMatchAt(s, k) {
      MatchFromFinds(s, 0, k);
    }
    MatchFromNone(s, 0);
  }

  /** The character of a decimal digit. */
  function DigitChar(d: nat): (c: char)
    requires d < 10
    ensures IsDigit(c) && DigitValue(c) == d
  {
    ('0' as int + d) as char
  }

  /** Two-digit, zero-padded decimal text. */
  function TwoDigits(n: nat): string
    requires n < 100
  {
    [DigitChar(n / 10), DigitChar(n % 10)]
  }

  /** The hour without a leading zero. */
  function HourText(h: nat): string
    requires 1 <= h <= 12
  {
    if h < 10 then [DigitChar(h)] else TwoDigits(h)
  }

  /** The time text `toLocaleTimeString()` writes in the en-US locale with
      locale data before CLDR 42, such as "7:30:00 AM": an ASCII space
      before the period. */
  function FormatTime(h: nat, m: nat, sec: nat, period: string): string
    requires 1 <= h <= 12 && m < 60 && sec < 60
  {
    HourText(h) + TimeTail(m, sec, period)
  }

  /** The text after the hour: ":MM:SS " and the period. */
  function TimeTail(m: nat, sec: nat, period: string): string
    requires m < 60 && sec < 60
  {
    [':', DigitChar(m / 10), DigitChar(m % 10), ':', DigitChar(sec / 10), DigitChar(sec % 10), ' '] + period
  }

  /** Reading back a time written in the en-US 12-hour format gives its
      hour, minutes and period. */
  lemma ParseFormattedTime(h: nat, m: nat, sec: nat, period: string)
    requires 1 <= h <= 12 && m < 60 && sec < 60
    requires period == "AM" || period == "PM"
    ensures ParseTime(FormatTime(h, m, sec, period)) == Some(ClockTime(h, m, period))
  {
    var s, tail := FormatTime(h, m, sec, period), TimeTail(m, sec, period);
    var j := |HourText(h)|;
    assert s[j..] == tail;
    assert tail[7..9] == period;
    assert s[j + 7..j + 9] == tail[7..9];
    assert TailAt(s, j) == Some((m, period));
    if h >= 10 {
      assert DigitValue(s[0]) * 10 + DigitValue(s[1]) == h;
    } else {
      assert !IsDigit(s[1]);
    }
    assert MatchAt(s, 0) == Some(ClockTime(h, m, period));
    ParseTimeIsLeftmostMatch(s, 0);
  }

  // ---------------------------------------------------------------------------
  // The 12-hour clock

  /** The hour on the 24-hour clock: a PM hour below 12 gains 12, 12 AM
      becomes 0, and any other period leaves the hour as read. */
  function Hour24(t: ClockTime): int {
    var h := if t.period == "PM" && t.hours < 12 then t.hours + 12 else t.hours;
    if t.period == "AM" && h == 12 then 0 else h
  }

  function TotalMinutes(t: ClockTime): int {
    Hour24(t) * 60 + t.minutes
  }

  /** The 12-hour display of a 24-hour clock hour. */
  function DisplayHour(h24: nat): nat
    requires h24 < 24
  {
    if h24 % 12 == 0 then 12 else h24 % 12
  }

  function DisplayPeriod(h24: nat): string
    requires h24 < 24
  {
    if h24 < 12 then "AM" else "PM"
  }

  /** The conversion undoes the 12-hour display in both directions: every
      24-hour clock hour is recovered from its display, and every 12-hour
      time converts to the hour that displays as it. A period other than
      "AM" or "PM" leaves the hour unchanged. */
  lemma TwelveHourRoundTrip(h24: nat, h: nat, m: nat, period: string)
    ensures h24 < 24 ==> Hour24(ClockTime(DisplayHour(h24), m, DisplayPeriod(h24))) == h24
    ensures 1 <= h <= 12 && (period == "AM" || period == "PM") ==>
      var back := Hour24(ClockTime(h, m, period));
      0 <= back < 24 && DisplayHour(back) == h && DisplayPeriod(back) == period
    ensures period != "AM" && period != "PM" ==> Hour24(ClockTime(h, m, period)) == h
  {
  }

  // ---------------------------------------------------------------------------
  // Meal windows

  /** A meal served from minute `start` (inclusive) to minute `end`
      (exclusive) after midnight. */
  datatype Window = Window(meal: Meal, start: int, end: int)

  /** The meal policy, in the order the classifier tests it. */
  const MealWindows: seq<Window> := [
    Window(Breakfast, 450, 570),   // 7:30 AM to 9:30 AM
    Window(Lunch, 720, 840),       // 12:00 PM to 2:00 PM
    Window(Snacks, 1020, 1080),    // 5:00 PM to 6:00 PM
    Window(Dinner, 1170, 1260)     // 7:30 PM to 9:00 PM
  ]

  predicate InWindow(minutes: int, w: Window) {
    w.start <= minutes < w.end
  }

  function FirstWindowMeal(ws: seq<Window>, minutes: int): Meal {
    if ws == [] then NoMeal
    else if InWindow(minutes, ws[0]) then ws[0].meal
    else FirstWindowMeal(ws[1..], minutes)
  }

  /** The reference classification: the meal of the first window that
      contains the minute. */
  function MealOfMinutes(minutes: int): Meal {
    FirstWindowMeal(MealWindows, minutes)
  }

  /** Unfolding the table search: the four windows are tested in turn. */
  lemma MealOfMinutesUnfolded(minutes: int)
    ensures MealOfMinutes(minutes) ==
      if 450 <= minutes < 570 then Breakfast
      else if 720 <= minutes < 840 then Lunch
      else if 1020 <= minutes < 1080 then Snacks
      else if 1170 <= minutes < 1260 then Dinner
      else NoMeal
  {
    var w0, w1, w2, w3 := Window(Breakfast, 450, 570), Window(Lunch, 720, 840),
      Window(Snacks, 1020, 1080), Window(Dinner, 1170, 1260);
    assert MealWindows == [w0, w1, w2, w3];
    assert [w0, w1, w2, w3][1..] == [w1, w2, w3];
    assert [w1, w2, w3][1..] == [w2, w3];
    assert [w2, w3][1..] == [w3];
    assert [w3][1..] == [];
    assert FirstWindowMeal([w3], minutes) == if InWindow(minutes, w3) then Dinner else NoMeal;
    assert FirstWindowMeal([w2, w3], minutes) ==
      if InWindow(minutes, w2) then Snacks else FirstWindowMeal([w3], minutes);
    assert FirstWindowMeal([w1, w2, w3], minutes) ==
      if InWindow(minutes, w1) then Lunch else FirstWindowMeal([w2, w3], minutes);
    assert FirstWindowMeal([w0, w1, w2, w3], minutes) ==
      if InWindow(minutes, w0) then Breakfast else FirstWindowMeal([w1, w2, w3], minutes);
  }

  /** The windows name four different meals and no minute lies in two of
      them, so the order of the tests does not matter: a minute gets the meal
      of a window exactly when it lies in that window, and `NoMeal` exactly
      when it lies in none. */
  lemma WindowsPartition(minutes: int, k: nat)
    requires k < |MealWindows|
    ensures MealWindows[k].meal != NoMeal
    ensures forall j :: 0 <= j < |MealWindows| && j != k ==>
      MealWindows[j].meal != MealWindows[k].meal &&
      !(InWindow(minutes, MealWindows[j]) && InWindow(minutes, MealWindows[k]))
    ensures MealOfMinutes(minutes) == MealWindows[k].meal <==> InWindow(minutes, MealWindows[k])
    ensures MealOfMinutes(minutes) == NoMeal <==>
      forall j :: 0 <= j < |MealWindows| ==> !InWindow(minutes, MealWindows[j])
  {
    MealOfMinutesUnfolded(minutes);
    forall j | 0 <= j < |MealWindows| && InWindow(minutes, MealWindows[j])
      ensures MealOfMinutes(minutes) != NoMeal
    {
      assert j == 0 || j == 1 || j == 2 || j == 3;
    }
    if MealOfMinutes(minutes) != NoMeal {
      assert || InWindow(minutes, MealWindows[0]) || InWindow(minutes, MealWindows[1])
             || InWindow(minutes, MealWindows[2]) || InWindow(minutes, MealWindows[3]);
    }
  }

  /** Every window includes its first minute and its last minute and
      excludes the minutes just outside it. */
  lemma WindowBounds(k: nat)
    requires k < |MealWindows|
    ensures var w := MealWindows[k];
      && MealOfMinutes(w.start) == w.meal
      && MealOfMinutes(w.end - 1) == w.meal
      && MealOfMinutes(w.start - 1) != w.meal
      && MealOfMinutes(w.end) != w.meal
  {
    var w := MealWindows[k];
    MealOfMinutesUnfolded(w.start);
    MealOfMinutesUnfolded(w.end - 1);
    MealOfMinutesUnfolded(w.start - 1);
    MealOfMinutesUnfolded(w.end);
  }

  // ---------------------------------------------------------------------------
  // getMealType

  /** `getMealType(time)` as written: no match gives "No Meal"; otherwise the
      windows are tested in turn on the minutes since midnight. */
  function MealType(time: string): Meal {
    match ParseTime(time)
    case None => NoMeal
    case Some(t) =>
      var totalMinutes := TotalMinutes(t);
      if totalMinutes >= 450 && totalMinutes < 570 then Breakfast
      else if totalMinutes >= 720 && totalMinutes < 840 then Lunch
      else if totalMinutes >= 1020 && totalMinutes < 1080 then Snacks
      else if totalMinutes >= 1170 && totalMinutes < 1260 then Dinner
      else NoMeal
  }

  /** The chain of tests in `getMealType` is the window table: a time that
      does not match the pattern has no meal, and a time that does gets the
      meal of the window holding its minutes. */
  lemma MealTypeFollowsTable(time: string)
    ensures ParseTime(time).None? ==> MealType(time) == NoMeal
    ensures ParseTime(time).Some? ==> MealType(time) == MealOfMinutes(TotalMinutes(ParseTime(time).value))
  {
    if ParseTime(time).Some? {
      MealOfMinutesUnfolded(TotalMinutes(ParseTime(time).value));
    }
  }

  /** A time written by the en-US `toLocaleTimeString()` is classified by
      the minute of the day it denotes. */
  lemma ClassifyFormattedTime(h: nat, m: nat, sec: nat, period: string)
    requires 1 <= h <= 12 && m < 60 && sec < 60
    requires period == "AM" || period == "PM"
    ensures MealType(FormatTime(h, m, sec, period)) == MealOfMinutes(Hour24(ClockTime(h, m, period)) * 60 + m)
  {
    ParseFormattedTime(h, m, sec, period);
    MealTypeFollowsTable(FormatTime(h, m, sec, period));
  }

  /** The breakfast window on the wall clock: it opens at 7:30:00 AM and
      closes at 9:30:00 AM, the closing instant itself excluded. */
  lemma BreakfastWallClockBounds()
    ensures MealType("7:30:00 AM") == Breakfast
    ensures MealType("7:29:59 AM") == NoMeal
    ensures MealType("9:29:59 AM") == Breakfast
    ensures MealType("9:30:00 AM") == NoMeal
  {
    BreakfastOpens();
    BreakfastCloses();
  }

  lemma BreakfastOpens()
    ensures MealType("7:30:00 AM") == Breakfast
    ensures MealType("7:29:59 AM") == NoMeal
  {
    WallClockMeal(7, 30, 0, "AM", "7:30:00 AM");
    WallClockMeal(7, 29, 59, "AM", "7:29:59 AM");
  }

  lemma BreakfastCloses()
    ensures MealType("9:29:59 AM") == Breakfast
    ensures MealType("9:30:00 AM") == NoMeal
  {
    WallClockMeal(9, 29, 59, "AM", "9:29:59 AM");
    WallClockMeal(9, 30, 0, "AM", "9:30:00 AM");
  }

  /** Lunch opens at 12:00:00 PM: the last second of the morning has no
      meal. */
  lemma LunchOpensAtNoon()
    ensures MealType("12:00:00 PM") == Lunch
    ensures MealType("11:59:59 AM") == NoMeal
  {
    assert MealType("12:00:00 PM") == Lunch by {
      assert HourText(12) == "12";
      WallClockMeal(12, 0, 0, "PM", "12:00:00 PM");
    }
    assert MealType("11:59:59 AM") == NoMeal by {
      assert HourText(11) == "11";
      WallClockMeal(11, 59, 59, "AM", "11:59:59 AM");
    }
  }

  /** Lunch closes at 2:00:00 PM, the closing instant excluded. */
  lemma LunchClosesAtTwo()
    ensures MealType("1:59:59 PM") == Lunch
    ensures MealType("2:00:00 PM") == NoMeal
  {
    assert MealType("1:59:59 PM") == Lunch by {
      WallClockMeal(1, 59, 59, "PM", "1:59:59 PM");
    }
    assert MealType("2:00:00 PM") == NoMeal by {
      WallClockMeal(2, 0, 0, "PM", "2:00:00 PM");
    }
  }

  /** The Snacks window on the wall clock, 5:00 PM to 6:00 PM: open at its first
      instant, closed at its last. */
  lemma SnacksWallClockBounds()
    ensures MealType("5:00:00 PM") == Snacks
    ensures MealType("5:59:59 PM") == Snacks
    ensures MealType("4:59:59 PM") == NoMeal
    ensures MealType("6:00:00 PM") == NoMeal
  {
    SnacksOpens();
    SnacksCloses();
  }

  lemma SnacksOpens()
    ensures MealType("5:00:00 PM") == Snacks
    ensures MealType("4:59:59 PM") == NoMeal
  {
    WallClockMeal(5, 0, 0, "PM", "5:00:00 PM");
    WallClockMeal(4, 59, 59, "PM", "4:59:59 PM");
  }

  lemma SnacksCloses()
    ensures MealType("5:59:59 PM") == Snacks
    ensures MealType("6:00:00 PM") == NoMeal
  {
    WallClockMeal(5, 59, 59, "PM", "5:59:59 PM");
    WallClockMeal(6, 0, 0, "PM", "6:00:00 PM");
  }

  /** The Dinner window on the wall clock, 7:30 PM to 9:00 PM: open at its first
      instant, closed at its last. */
  lemma DinnerWallClockBounds()
    ensures MealType("7:30:00 PM") == Dinner
    ensures MealType("8:59:59 PM") == Dinner
    ensures MealType("7:29:59 PM") == NoMeal
    ensures MealType("9:00:00 PM") == NoMeal
  {
    DinnerOpens();
    DinnerCloses();
  }

  lemma DinnerOpens()
    ensures MealType("7:30:00 PM") == Dinner
    ensures MealType("7:29:59 PM") == NoMeal
  {
    WallClockMeal(7, 30, 0, "PM", "7:30:00 PM");
    WallClockMeal(7, 29, 59, "PM", "7:29:59 PM");
  }

  lemma DinnerCloses()
    ensures MealType("8:59:59 PM") == Dinner
    ensures MealType("9:00:00 PM") == NoMeal
  {
    WallClockMeal(8, 59, 59, "PM", "8:59:59 PM");
    WallClockMeal(9, 0, 0, "PM", "9:00:00 PM");
  }

  /** Locale data from CLDR 42 on writes U+202F NARROW NO-BREAK SPACE
      before the period. The pattern's space then matches nowhere, so such
      a time is classified as no meal, whatever the hour. */
  lemma NarrowSpaceTimeHasNoMeal()
    ensures ParseTime("7:30:00\U{202F}AM").None?
    ensures MealType("7:30:00\U{202F}AM") == NoMeal
  {
    var s := "7:30:00\U{202F}AM";
    forall k | 0 <= k < |s| ensures s[k] != ' ' {
    }
    forall j: nat ensures MatchAt(s, j).None? {
      assert TailAt(s, j + 1).None? && TailAt(s, j + 2).None?;
    }
    MatchFromNone(s, 0);
  }

  /** The meal of a wall-clock time written as `text`, in closed form. */
  lemma WallClockMeal(h: nat, m: nat, sec: nat, period: string, text: string)
    requires 1 <= h <= 12 && m < 60 && sec < 60
    requires period == "AM" || period == "PM"
    requires text == FormatTime(h, m, sec, period)
    ensures var minutes := Hour24(ClockTime(h, m, period)) * 60 + m;
      MealType(text) ==
        if 450 <= minutes < 570 then Breakfast
        else if 720 <= minutes < 840 then Lunch
        else if 1020 <= minutes < 1080 then Snacks
        else if 1170 <= minutes < 1260 then Dinner
        else NoMeal
  {
    ClassifyFormattedTime(h, m, sec, period);
    MealOfMinutesUnfolded(Hour24(ClockTime(h, m, period)) * 60 + m);
  }

  // ---------------------------------------------------------------------------
  // getMealStatus

  /** The stored status field `getMealStatus` reads for a meal. */
  function StoredStatus(r: AttendanceRecord, m: Meal): string {
    match m
    case Breakfast => r.breakfastStatus
    case Lunch => r.lunchStatus
    case Snacks => r.snacksStatus
    case Dinner => r.dinnerStatus
    case NoMeal => ""
  }

  /** `getMealStatus(record, mealType)` as written. */
  function MealStatus(r: AttendanceRecord, mealType: string): string {
    var currentMealType := MealName(MealType(r.time));
    var breakfastStatus := OrElse(r.breakfastStatus, "A");
    var lunchStatus := OrElse(r.lunchStatus, "A");
    var snacksStatus := OrElse(r.snacksStatus, "A");
    var dinnerStatus := OrElse(r.dinnerStatus, "A");
    if mealType == "Breakfast" then (if currentMealType == "Breakfast" then "P" else breakfastStatus)
    else if mealType == "Lunch" then (if currentMealType == "Lunch" then "P" else lunchStatus)
    else if mealType == "Snacks" then (if currentMealType == "Snacks" then "P" else snacksStatus)
    else if mealType == "Dinner" then (if currentMealType == "Dinner" then "P" else dinnerStatus)
    else "No Meal"
  }

  predicate IsMealName(name: string) {
    name == "Breakfast" || name == "Lunch" || name == "Snacks" || name == "Dinner"
  }

  /** For each of the four meals the status is "P" when the record's time
      falls in that meal, otherwise the stored status or "A" when none is
      stored; any other meal name gives "No Meal". */
  lemma MealStatusSpec(r: AttendanceRecord, m: Meal, name: string)
    ensures m != NoMeal ==>
      MealStatus(r, MealName(m)) == if MealType(r.time) == m then "P" else OrElse(StoredStatus(r, m), "A")
    ensures !IsMealName(name) ==> MealStatus(r, name) == "No Meal"
  {
  }

  /** The number of the four meals whose status is "P". */
  function PresentCount(r: AttendanceRecord): nat {
    (if MealStatus(r, "Breakfast") == "P" then 1 else 0) +
    (if MealStatus(r, "Lunch") == "P" then 1 else 0) +
    (if MealStatus(r, "Snacks") == "P" then 1 else 0) +
    (if MealStatus(r, "Dinner") == "P" then 1 else 0)
  }

  /** Without stored status fields a record is present for exactly the meal
      its time falls in and absent for the other three: one "P" when the
      time is in a meal window, none otherwise. */
  lemma AtMostOnePresent(r: AttendanceRecord, m: Meal)
    requires NoStoredStatuses(r)
    ensures m != NoMeal ==> (MealStatus(r, MealName(m)) == "P" <==> MealType(r.time) == m)
    ensures m != NoMeal ==> MealStatus(r, MealName(m)) in {"P", "A"}
    ensures PresentCount(r) == if MealType(r.time) == NoMeal then 0 else 1
  {
  }
}
