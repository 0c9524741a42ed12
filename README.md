# Mess-hall attendance: meal classification and monthly report

This project models the attendance logic of a student mess-hall web app.
A card scan stores a record holding the student's ids and the time of day,
as the server's `toLocaleTimeString()` wrote it. The model takes the en-US
form with an ASCII space before the period (e.g. "7:30:00 AM"), as locale
data before CLDR 42 writes it (see "Left out"). Two
React components turn those records into attendance:

* **TrackAttendance** classifies each record into a meal window
  (`getMealType`) and gives each of the four meals a status "P" or "A"
  (`getMealStatus`). It groups the records by calendar day for display
  (`groupByDate`) and narrows the list with a search form (`handleSearch`)
  by unique id, roll number, date or meal.
* **ExportMonthlyData** builds a student × day × meal matrix
  (`groupByStudent`). It lists the distinct record days in ascending order
  as date columns (`getUniqueDates`) and restricts them to an inclusive
  from/to range (`handleSearch`). A missing bound sets a message and keeps
  the previous columns; an inverted range shows no columns and sets no
  error. It renders one table row per student,
  with "N/A" for missing student details and "A" for missing statuses.

Both components carry identical copies of `getMealType` and
`getMealStatus`; they differ only by one pair of redundant parentheses.
The model defines them once, in module `Meals`, and both components use
that definition.

Modules:

* `Wrappers`: `Option`.
* `Js`: the JavaScript built-ins the components rely on. These are string
  truthiness, `includes`, ASCII `toLowerCase`, `trim`, and the key order
  of `Object.keys`: array-index keys ascending, then the other keys in
  creation order.
* `Sequences`: the distinct elements of a list in first-appearance order
  (`new Set`), and subsequences (`filter`).
* `Calendar`: calendar days and their chronological order, and sorting.
* `Records`: the stored attendance record (server/models/Attendance.js)
  and the student details shown in the report.
* `Meals`: reading the time with the pattern
  `(\d{1,2}):(\d{2}):\d{2} (\w{2})` (leftmost match, with the greedy
  `\d{1,2}` backtracking), the 12-hour clock, the table of meal windows,
  `getMealType` and `getMealStatus`.
* `TrackAttendance`: `groupByDate` as a loop building the day-to-records
  object, the search filter, and the component state as a class whose
  method is `handleSearch`.
* `ExportMonthlyData`: `groupByStudent` as a loop over the records, both
  as written and corrected (see Findings). It also holds
  `getUniqueDates`, the date-range filter, the table-body cells and rows,
  and the component state as a class whose method is `handleSearch`. The
  class renders the rows as the program does (`Rows`) and with the scans
  of a day merged (`CorrectedRows`).

Calendar days stand for the `toLocaleDateString()` text of a record's
date. That text is one-to-one with the local calendar day, so equal text
means equal day.

## Model

| member | source | states |
|---|---|---|
| `Js.IncludesIff` | client/src/components/TrackAttendance.js:41-43 | `includes` holds exactly when the query occurs as a contiguous block of the text |
| `Js.TrimEmptyIff` | client/src/components/TrackAttendance.js:37 | `query.trim()` is falsy exactly when the query is all ECMAScript white space |
| `Js.ToLowerCase` | client/src/components/TrackAttendance.js:51 | lower-casing keeps the length and maps each character on its own: the ASCII capitals and U+212A KELVIN SIGN to ASCII lower case, every other character to itself |
| `Js.ObjectKeys` | client/src/components/ExportMonthlyData.js:202 | `Object.keys` lists every created key exactly once (a permutation of the creation order) |
| `Js.ObjectKeysOrder` | client/src/components/ExportMonthlyData.js:202 | the array-index keys come first in ascending numeric order, then the other keys in creation order |
| `Sequences.Distinct` | client/src/components/ExportMonthlyData.js:65-67 | the distinct elements: no repeats, nothing added, nothing lost |
| `Calendar.BeforeIsStrictTotalOrder` | client/src/components/ExportMonthlyData.js:68 | chronological order is irreflexive, transitive and total on distinct days |
| `Calendar.SortDates` | client/src/components/ExportMonthlyData.js:68 | sorting keeps exactly the same days, with their multiplicity |
| `Calendar.SortDatesAscending` | client/src/components/ExportMonthlyData.js:68 | sorting a list without repeats gives a strictly ascending list |
| `Calendar.AscendingListingUnique` | client/src/components/ExportMonthlyData.js:64-69 | two strictly ascending lists of the same days are equal |
| `Meals.ParseTimeIsLeftmostMatch` | client/src/components/TrackAttendance.js:88-89 | the time reader returns the match at the leftmost position where the pattern matches, and nothing exactly when it matches nowhere |
| `Meals.ParseFormattedTime` | client/src/components/TrackAttendance.js:88-93 | a time written as "H:MM:SS AM/PM" reads back as its hour, minutes and period |
| `Meals.TwelveHourRoundTrip` | client/src/components/TrackAttendance.js:95-96 | the conversion inverts the 12-hour display both ways (12 AM is hour 0, 12 PM stays 12, PM adds 12); other periods leave the hour unchanged |
| `Meals.MealOfMinutesUnfolded` | client/src/components/TrackAttendance.js:100-110 | the window table gives Breakfast on [450,570), Lunch on [720,840), Snacks on [1020,1080), Dinner on [1170,1260), and no meal elsewhere |
| `Meals.WindowsPartition` | client/src/components/TrackAttendance.js:98-110 | the four windows are pairwise disjoint and name four distinct meals; a minute gets a window's meal exactly when it lies in it, and no meal exactly when it lies in none |
| `Meals.WindowBounds` | client/src/components/TrackAttendance.js:100-107 | each window contains its first and last minute and not the minutes just outside it |
| `Meals.MealTypeFollowsTable` | client/src/components/TrackAttendance.js:87-111 | `getMealType` is total: an unmatched string gives no meal, and a matched one gets the table's meal for its minutes |
| `Meals.ClassifyFormattedTime` | client/src/components/ExportMonthlyData.js:99-123 | a time written as "H:MM:SS AM/PM" with an ASCII space is classified by the minute of the day it denotes |
| `Meals.NarrowSpaceTimeHasNoMeal` | client/src/components/TrackAttendance.js:88-89 | a time written with U+202F NARROW NO-BREAK SPACE before the period ("7:30:00\u202FAM") matches the pattern nowhere and is no meal |
| `Meals.WallClockMeal` | client/src/components/TrackAttendance.js:98-110 | the meal of a written time in closed form, from its 24-hour minute of the day |
| `Meals.BreakfastWallClockBounds` | client/src/components/TrackAttendance.js:100-101 | 7:30:00 AM and 9:29:59 AM are Breakfast; 7:29:59 AM and 9:30:00 AM are no meal |
| `Meals.LunchOpensAtNoon` | client/src/components/TrackAttendance.js:102-103 | 12:00:00 PM is Lunch and 11:59:59 AM is no meal |
| `Meals.LunchClosesAtTwo` | client/src/components/TrackAttendance.js:102-103 | 1:59:59 PM is Lunch and 2:00:00 PM is no meal |
| `Meals.SnacksWallClockBounds` | client/src/components/TrackAttendance.js:104-105 | 5:00:00 PM and 5:59:59 PM are Snacks; 4:59:59 PM and 6:00:00 PM are no meal |
| `Meals.DinnerWallClockBounds` | client/src/components/TrackAttendance.js:106-107 | 7:30:00 PM and 8:59:59 PM are Dinner; 7:29:59 PM and 9:00:00 PM are no meal |
| `Meals.MealStatusSpec` | client/src/components/TrackAttendance.js:114-134 | a meal's status is "P" when the record's time falls in it, otherwise the stored status or "A"; any other meal name gives "No Meal" |
| `Meals.AtMostOnePresent` | client/src/components/TrackAttendance.js:118-131 | without stored statuses a record is "P" for exactly its classified meal and "A" for the others; at most one "P" |
| `TrackAttendance.GroupMembership` | client/src/components/TrackAttendance.js:75-84 | a record lies in the group of a day exactly when its date is that day, so each record is in exactly one group |
| `TrackAttendance.GroupKeepsOrder` | client/src/components/TrackAttendance.js:81 | each group keeps its records in input order |
| `TrackAttendance.RecordsOnEmpty` | client/src/components/TrackAttendance.js:78-80 | a day's group is empty exactly when no record falls on that day |
| `TrackAttendance.GroupByDate` | client/src/components/TrackAttendance.js:75-84 | the loop's keys are the distinct days in first-appearance order, and each key's group is that day's records in order |
| `TrackAttendance.GroupSizesSumToCount` | client/src/components/TrackAttendance.js:75-84 | the group sizes add up to the number of records |
| `TrackAttendance.SearchResultsSpec` | client/src/components/TrackAttendance.js:38-55 | the search keeps, in order, exactly the records that pass the column's test, each as many times as it occurs in the input |
| `TrackAttendance.SearchNarrows` | client/src/components/TrackAttendance.js:56 | searching the result of a search keeps a subsequence of it: the records that pass both tests |
| `TrackAttendance.UnknownColumnKeepsAll` | client/src/components/TrackAttendance.js:52-53 | a column the switch does not name keeps every record |
| `TrackAttendance.MealNamesApart` | client/src/components/TrackAttendance.js:51 | no lower-cased meal name contains another |
| `TrackAttendance.MealSearchByName` | client/src/components/TrackAttendance.js:49-51 | searching the meal column for a meal's name in any letter case keeps exactly the records of that meal |
| `TrackAttendance.KelvinSignSearch` | client/src/components/TrackAttendance.js:49-51 | a meal query of the single character U+212A KELVIN SIGN lower-cases to "k" and keeps exactly the Breakfast and Snacks records |
| `TrackAttendance.TrackAttendanceView.constructor` | client/src/components/TrackAttendance.js:6-10 | initial state: no records, no error, empty query and date, column "uniqueId" |
| `TrackAttendance.TrackAttendanceView.HandleSearch` | client/src/components/TrackAttendance.js:28-60 | the picked date replaces the query for the date column; a blank query asks for a refetch and keeps the list; any other query replaces the list with the search result |
| `ExportMonthlyData.DayStatusOfSpec` | client/src/components/ExportMonthlyData.js:126-145 | a record's day entry marks its classified meal "P" and the others with the stored status or "A"; without stored statuses each slot is "P" or "A", "P" exactly for the classified meal |
| `ExportMonthlyData.StudentRecords` | client/src/components/ExportMonthlyData.js:46-51 | the student keys are exactly the unique ids of the records |
| `ExportMonthlyData.StudentRecordsStep` | client/src/components/ExportMonthlyData.js:47-60 | one reduce step stores the record's entry last; an id becomes a key on its first record |
| `ExportMonthlyData.GroupByStudent` | client/src/components/ExportMonthlyData.js:46-61 | the loop builds the reduce's table, with keys created in first-appearance order |
| `ExportMonthlyData.LastScan` | client/src/components/ExportMonthlyData.js:52-58 | the index of the last scan of a student on a day: it matches, and no later record does |
| `ExportMonthlyData.StudentRecordsEntry` | client/src/components/ExportMonthlyData.js:52-58 | a student's day has an entry exactly when the student was scanned that day, and it is the entry of the last such scan |
| `ExportMonthlyData.RepeatedLastScanChangesNothing` | client/src/components/ExportMonthlyData.js:52-58 | the same record scanned twice in a row gives the same table as one scan |
| `ExportMonthlyData.LaterScanErasesEarlierMeal` | client/src/components/ExportMonthlyData.js:53-58 | as written, a later same-day scan in another window turns the earlier meal's "P" into "A" |
| `ExportMonthlyData.BreakfastLostAfterLunchScan` | client/src/components/ExportMonthlyData.js:53-58 | scans at 8:00:00 AM and 1:00:00 PM on one day leave breakfast "A" |
| `ExportMonthlyData.MergedStudentRecords` | client/src/components/ExportMonthlyData.js:46-61 | corrected reduce: same keys as the original, the unique ids of the records |
| `ExportMonthlyData.MergedStudentRecordsDomain` | client/src/components/ExportMonthlyData.js:52-53 | corrected reduce: a student's day has an entry exactly when the student was scanned that day |
| `ExportMonthlyData.MergedStudentRecordsEntry` | client/src/components/ExportMonthlyData.js:53-58 | corrected reduce: each meal of a scanned day is "P" exactly when some scan that day falls in its window, else "A" |
| `ExportMonthlyData.MergedAgreesOnOneScanPerDay` | client/src/components/ExportMonthlyData.js:53-58 | when no student is scanned twice on a day, the corrected reduce equals the original |
| `ExportMonthlyData.UniqueDatesAscending` | client/src/components/ExportMonthlyData.js:64-69 | the date columns are strictly ascending, so no day appears twice |
| `ExportMonthlyData.UniqueDatesMembers` | client/src/components/ExportMonthlyData.js:64-69 | the date columns are exactly the record days |
| `ExportMonthlyData.UniqueDatesIsTheListing` | client/src/components/ExportMonthlyData.js:64-69 | any strictly ascending listing of the record days is the one returned |
| `ExportMonthlyData.DatesInRangeSpec` | client/src/components/ExportMonthlyData.js:80-92 | the filter keeps, in order, exactly the days d with from ≤ d ≤ to, both ends included; ascending input stays ascending |
| `ExportMonthlyData.InvertedRangeIsEmpty` | client/src/components/ExportMonthlyData.js:80-92 | a range whose start is after its end keeps no day |
| `ExportMonthlyData.IdentityCells` | client/src/components/ExportMonthlyData.js:204-207 | each identity cell is the student's field, or "N/A" when the details or the field are missing |
| `ExportMonthlyData.DayCells` | client/src/components/ExportMonthlyData.js:208-222 | the four cells of a date in Breakfast, Lunch, Snacks, Dinner order: the stored status, or "A" when there is no entry or it is empty |
| `ExportMonthlyData.DateCells` | client/src/components/ExportMonthlyData.js:208-223 | four cells per date, in date order: cell 4j+k is meal k of date j |
| `ExportMonthlyData.StudentRow` | client/src/components/ExportMonthlyData.js:203-224 | a row has 4 + 4·|dates| cells: the identity cells, then the date cells |
| `ExportMonthlyData.TableBody` | client/src/components/ExportMonthlyData.js:202-225 | one row per student key, in `Object.keys` order |
| `ExportMonthlyData.MonthlyCellIsLastScan` | client/src/components/ExportMonthlyData.js:202-223 | as written, each status cell shows the status the student's last scan of that day recorded for the meal, and "A" when the student was not scanned that day |
| `ExportMonthlyData.MonthlyCellIsPresentIffScanned` | client/src/components/ExportMonthlyData.js:202-223 | with the corrected reduce, each status cell is "P" exactly when that student was scanned that day within the meal's window, and "A" otherwise |
| `ExportMonthlyData.BreakfastCellReadsAbsent` | client/src/components/ExportMonthlyData.js:210-212 | as written, the breakfast cell for the lost-breakfast scans shows "A" |
| `ExportMonthlyData.ExportMonthlyDataView.constructor` | client/src/components/ExportMonthlyData.js:6-11 | initial state: no records, no details, no error, no dates chosen, no columns |
| `ExportMonthlyData.ExportMonthlyDataView.HandleSearch` | client/src/components/ExportMonthlyData.js:73-96 | with a bound missing, sets the error message and keeps the columns; otherwise the columns become the record days within the range and the error is cleared |
| `ExportMonthlyData.ExportMonthlyDataView.Rows` | client/src/components/ExportMonthlyData.js:202-225 | the rendered rows: one per student in `Object.keys` order, each of 4 + 4·|filteredDates| cells, the identity cells first, then each status cell showing that day's last scan for the meal, or "A" |
| `ExportMonthlyData.ExportMonthlyDataView.CorrectedRows` | client/src/components/ExportMonthlyData.js:53-58 | the rows with the scans of a day merged: one per student, and each status cell "P" exactly when some scan of that student that day falls in the meal's window, else "A" |

## Left out

- Fetching is left out: `fetchAttendanceRecords`, `fetchStudentDetails`, `Promise.all` and the error messages of failed requests. The records and student details are plain state. `HandleSearch` in TrackAttendance reports a refetch as its result instead of performing one.
- `handleClearSearch`, `downloadExcel`, the input `onChange` setters and the JSX markup around the cells are left out. The TrackAttendance rows that print `getMealType` and `getMealStatus` per record are also left out.
- JavaScript `Date` is not modelled: parsing, `toLocaleDateString`, time zones and `setHours`. Days are abstract calendar days with chronological order. The day the host gives a TrackAttendance date query is a parameter (`dayOf`); `None` stands for "Invalid Date". The from/to inputs are the days they name. In a time zone west of UTC, `new Date("YYYY-MM-DD")` is the previous local evening, so the real range would start and end a day early. The model does not capture that shift.
- The time text is taken as given. The server's locale and clock, and the schema fields other than the ones read, are left out.
- `Meals.FormatTime` writes the en-US time with an ASCII space before AM/PM, the form of locale data before CLDR 42 (ICU 72). From CLDR 42 on, as in Node 18.13 and 19.1 with full ICU, that space is U+202F NARROW NO-BREAK SPACE. The pattern's literal space then matches nowhere, and every record is "No Meal" (`Meals.NarrowSpaceTimeHasNoMeal`). Which form a deployment stores depends on the server's runtime. The classification lemmas describe the ASCII-space form only.
- `Js.ToLowerCase` maps the ASCII capitals and U+212A KELVIN SIGN (the one other character whose lower case is a single ASCII letter, and so the one that can change what a meal query matches). Every other character is left as it is. JavaScript maps many more, and some to two characters (U+0130 becomes "i" followed by U+0307), so the real lower case can be longer than its input. A query holding such a character contains a non-ASCII character either way, so it matches no meal name in the model or in the program.
- The per-meal `…Status` fields that `getMealStatus` reads are not in the stored schema. The empty string stands for an absent field, and the main lemmas assume records without them (`AllScans`).
- The student model file is not part of this model. Student details are a map from id to the four fields shown.
- `ExportMonthlyData.StudentRecords` treats every `uniqueId` as an own key of the table. The program tests `groups[key]` (client/src/components/ExportMonthlyData.js:48), which also sees properties inherited from `Object.prototype`. An id such as "constructor" or "toString" finds the inherited function, so no own key is created and the student gets no row. The entry is written onto that function. With "__proto__", the entry lands on `Object.prototype`, and every other student without their own entry for that day reads it. The model creates the key and shows the row.

## Findings

| source | as written | input that shows it | evidently intended | confidence | as-written member | corrected member |
|---|---|---|---|---|---|---|
| client/src/components/ExportMonthlyData.js:53-58 | each record's entry replaces the entry already stored for the same student and day | student S1 scanned at 8:00:00 AM and at 1:00:00 PM on one day: breakfast shows "A" | a meal counts as attended when any scan of that day falls in its window | high, not executed | `ExportMonthlyData.BreakfastLostAfterLunchScan` | `ExportMonthlyData.MergedStudentRecordsEntry` |
