/** Calendar days. The components turn every stored timestamp into the text
    `toLocaleDateString()` gives for it and, where they need an order, parse
    that text back into a `Date`; both steps are modelled by one value per
    local calendar day, ordered chronologically. */
module Calendar {
  import opened Sequences

  datatype CalendarDate = CalendarDate(year: int, month: int, day: int)

  /** `a` is an earlier day than `b`. */
  predicate Before(a: CalendarDate, b: CalendarDate) {
    || a.year < b.year
    || (a.year == b.year && a.month < b.month)
    || (a.year == b.year && a.month == b.month && a.day < b.day)
  }

  /** `a` is the same day as `b` or an earlier one. */
  predicate NotAfter(a: CalendarDate, b: CalendarDate) {
    !Before(b, a)
  }

  /** Chronological order is a strict total order on days. */
  lemma BeforeIsStrictTotalOrder(a: CalendarDate, b: CalendarDate, c: CalendarDate)
    ensures !Before(a, a)
    ensures Before(a, b) && Before(b, c) ==> Before(a, c)
    ensures a != b ==> Before(a, b) || Before(b, a)
    ensures NotAfter(a, b) <==> a == b || Before(a, b)
  {
  }

  predicate StrictlyAscending(ds: seq<CalendarDate>) {
    forall i, j :: 0 <= i < j < |ds| ==> Before(ds[i], ds[j])
  }

  function InsertDate(d: CalendarDate, sorted: seq<CalendarDate>): (r: seq<CalendarDate>)
    ensures multiset(r) == multiset(sorted) + multiset{d}
  {
    if sorted == [] then [d]
    else if Before(sorted[0], d) then
      assert sorted == [sorted[0]] + sorted[1..];
      [sorted[0]] + InsertDate(d, sorted[1..])
    else [d] + sorted
  }

  /** Sorting by chronological value (`(a, b) => new Date(a) - new Date(b)`). */
  function SortDates(ds: seq<CalendarDate>): (r: seq<CalendarDate>)
    ensures multiset(r) == multiset(ds)
  {
    if ds == [] then []
    else
      assert ds == [ds[0]] + ds[1..];
      InsertDate(ds[0], SortDates(ds[1..]))
  }

  lemma {:induction false} InsertDateAscending(d: CalendarDate, sorted: seq<CalendarDate>)
    requires StrictlyAscending(sorted) && d !in sorted
    ensures StrictlyAscending(InsertDate(d, sorted))
    decreases |sorted|
  {
    if sorted != [] {
      if Before(sorted[0], d) {
        var rest := InsertDate(d, sorted[1..]);
        InsertDateAscending(d, sorted[1..]);
        forall j | 0 <= j < |rest| ensures Before(sorted[0], rest[j]) {
          assert rest[j] in multiset(rest);
          if rest[j] != d {
            assert rest[j] in multiset(sorted[1..]);
            var idx :| 0 <= idx < |sorted[1..]| && sorted[1..][idx] == rest[j];
            assert sorted[idx + 1] == rest[j];
          }
        }
      } else {
        assert d != sorted[0];
        BeforeIsStrictTotalOrder(d, sorted[0], d);
        forall j | 0 < j < |sorted| ensures Before(d, sorted[j]) {
          BeforeIsStrictTotalOrder(d, sorted[0], sorted[j]);
        }
      }
    }
  }

  /** Sorting a list without repeats gives a strictly ascending list. */
  lemma {:induction false} SortDatesAscending(ds: seq<CalendarDate>)
    requires NoDuplicates(ds)
    ensures StrictlyAscending(SortDates(ds))
  {
    if ds != [] {
      assert NoDuplicates(ds[1..]) by {
        forall i, j | 0 <= i < j < |ds[1..]| ensures ds[1..][i] != ds[1..][j] {
          assert ds[1..][i] == ds[i + 1] && ds[1..][j] == ds[j + 1];
        }
      }
      SortDatesAscending(ds[1..]);
      assert ds[0] !in multiset(ds[1..]) by {
        forall k | 0 <= k < |ds[1..]| ensures ds[1..][k] != ds[0] {
          assert ds[1..][k] == ds[k + 1];
        }
      }
      assert ds[0] !in SortDates(ds[1..]);
      InsertDateAscending(ds[0], SortDates(ds[1..]));
    }
  }

  /** There is only one strictly ascending listing of a set of days: two
      strictly ascending lists with the same elements are equal. */
  lemma {:induction false} AscendingListingUnique(a: seq<CalendarDate>, b: seq<CalendarDate>)
    requires StrictlyAscending(a) && StrictlyAscending(b)
    requires forall x :: x in a <==> x in b
    ensures a == b
    decreases |a|
  {
    assert a == [] <==> b == [] by {
      if a != [] { assert a[0] in a; }
      if b != [] { assert b[0] in b; }
    }
    if a != [] {
      assert a[0] in a && b[0] in b;
      var x, y := a[0], b[0];
      var i :| 0 <= i < |b| && b[i] == x;
      var j :| 0 <= j < |a| && a[j] == y;
      assert i > 0 ==> Before(y, x);
      assert j > 0 ==> Before(x, y);
      BeforeIsStrictTotalOrder(x, y, x);
      assert x == y;
      forall x ensures x in a[1..] <==> x in b[1..] {
        if x in a[1..] {
          var k :| 1 <= k < |a| && a[k] == x;
          assert x in b && x != b[0];
          var m :| 0 <= m < |b| && b[m] == x;
          assert b[1..][m - 1] == x;
        }
        if x in b[1..] {
          var k :| 1 <= k < |b| && b[k] == x;
          assert x in a && x != a[0];
          var m :| 0 <= m < |a| && a[m] == x;
          assert a[1..][m - 1] == x;
        }
      }
      AscendingListingUnique(a[1..], b[1..]);
      assert a == [a[0]] + a[1..] && b == [b[0]] + b[1..];
    }
  }
}
