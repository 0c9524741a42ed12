/** The records the two components receive from the attendance service. */
module Records {
  import opened Calendar

  /** One scan as the attendance collection stores it: the student's
      identifiers, the status sent at scan time, the time of day as the
      server's `toLocaleTimeString()` wrote it, and the calendar day the record
      was created on. The four `…Status` fields are read by `getMealStatus`
      but are not part of the stored schema; the empty string stands for an
      absent (`undefined`) field. */
  datatype AttendanceRecord = AttendanceRecord(
    uniqueId: string,
    name: string,
    rollNo: string,
    status: string,
    time: string,
    date: CalendarDate,
    breakfastStatus: string,
    lunchStatus: string,
    snacksStatus: string,
    dinnerStatus: string)

  /** The record carries none of the per-meal status fields, as every record
      written by the scan endpoint does. */
  predicate NoStoredStatuses(r: AttendanceRecord) {
    r.breakfastStatus == "" && r.lunchStatus == "" && r.snacksStatus == "" && r.dinnerStatus == ""
  }

  /** The student fields the monthly table shows; the empty string stands
      for a missing or empty field. */
  datatype StudentDetails = StudentDetails(rollNo: string, name: string, semester: string, feePaid: string)

  /** The calendar day of every record, in record order. */
  function Dates(rs: seq<AttendanceRecord>): (ds: seq<CalendarDate>)
    ensures |ds| == |rs|
    ensures forall i :: 0 <= i < |rs| ==> ds[i] == rs[i].date
  {
    if rs == [] then [] else [rs[0].date] + Dates(rs[1..])
  }

  lemma DatesSnoc(rs: seq<AttendanceRecord>, r: AttendanceRecord)
    ensures Dates(rs + [r]) == Dates(rs) + [r.date]
  {
  }

  /** The `uniqueId` of every record, in record order. */
  function Ids(rs: seq<AttendanceRecord>): (ids: seq<string>)
    ensures |ids| == |rs|
    ensures forall i :: 0 <= i < |rs| ==> ids[i] == rs[i].uniqueId
  {
    if rs == [] then [] else [rs[0].uniqueId] + Ids(rs[1..])
  }

  lemma IdsSnoc(rs: seq<AttendanceRecord>, r: AttendanceRecord)
    ensures Ids(rs + [r]) == Ids(rs) + [r.uniqueId]
  {
  }
}
