/**
 * Window aggregation (app.py filter_range, sum_in_window, last_in_window).
 *
 * A window is a closed range s..e of months. Rows whose month is null are
 * never in a window. `sum_in_window` totals a flow metric (enrollments,
 * sign-ups) over the window; `last_in_window` reads a snapshot metric (MAU,
 * activation rate) at the latest month in the window. Both answer 0 when the
 * sheet or a column is missing or the window holds no row.
 */
module Aggregate {
  import opened Wrappers
  import opened Periods
  import opened Tables

  predicate InRange(r: Row, s: Period, e: Period) {
    r.t.Some? && s <= r.t.value <= e
  }

  /** The month used as sort key; only applied to rows that have one. */
  function Key(r: Row): Period {
    r.t.GetOr(0)
  }

  predicate SortedByTime(rows: seq<Row>) {
    forall i, j :: 0 <= i < j < |rows| ==> Key(rows[i]) <= Key(rows[j])
  }

  // ---------------------------------------------------------------------------
  // filter_range
  // ---------------------------------------------------------------------------

  /** The rows whose month lies in s..e, in sheet order (the boolean mask). */
  function KeepInRange(rows: seq<Row>, s: Period, e: Period): seq<Row> {
    if |rows| == 0 then []
    else
      var rest := KeepInRange(rows[1..], s, e);
      if InRange(rows[0], s, e) then [rows[0]] + rest else rest
  }

  /** The mask keeps every row in s..e as often as it occurs, and nothing else. */
  lemma {:induction false} KeepInRangeCounts(rows: seq<Row>, s: Period, e: Period)
    ensures forall x :: multiset(KeepInRange(rows, s, e))[x] == if InRange(x, s, e) then multiset(rows)[x] else 0
  {
    if |rows| > 0 {
      assert rows == [rows[0]] + rows[1..];
      KeepInRangeCounts(rows[1..], s, e);
    }
  }

  /** Inserts `x` after every row whose month is not later than x's. */
  function InsertByTime(sorted: seq<Row>, x: Row): (r: seq<Row>)
    requires SortedByTime(sorted)
    ensures SortedByTime(r)
    ensures multiset(r) == multiset(sorted) + multiset{x}
    ensures |r| == |sorted| + 1 && (r[0] == x || (|sorted| > 0 && r[0] == sorted[0]))
  {
    if |sorted| == 0 then [x]
    else if Key(x) < Key(sorted[0]) then [x] + sorted
    else
      assert sorted == [sorted[0]] + sorted[1..];
      var rest := InsertByTime(sorted[1..], x);
      assert Key(sorted[0]) <= Key(rest[0]);
      [sorted[0]] + rest
  }

  /** A stable insertion sort by month (sort_values on the month column). */
  function SortByTime(rows: seq<Row>): (r: seq<Row>)
    ensures SortedByTime(r)
    ensures multiset(r) == multiset(rows)
  {
    if |rows| == 0 then []
    else
      assert rows == rows[..|rows| - 1] + [rows[|rows| - 1]];
      InsertByTime(SortByTime(rows[..|rows| - 1]), rows[|rows| - 1])
  }

  /**
   * filter_range: a missing or empty sheet, or one without the month column,
   * comes back unchanged; otherwise the rows in s..e, each as often as in
   * the sheet, sorted by month, with the sheet's columns.
   */
  function FilterRange(df: Option<Table>, s: Period, e: Period): (r: Option<Table>)
    ensures !IsValid(df) || !df.value.hasTime ==> r == df
    ensures IsValid(df) && df.value.hasTime ==>
      && r.Some?
      && r.value.hasTime == df.value.hasTime
      && r.value.hasValue == df.value.hasValue
      && SortedByTime(r.value.rows)
      && forall x :: multiset(r.value.rows)[x] == if InRange(x, s, e) then multiset(df.value.rows)[x] else 0
  {
    if !IsValid(df) || !df.value.hasTime then df
    else
      KeepInRangeCounts(df.value.rows, s, e);
      Some(df.value.(rows := SortByTime(KeepInRange(df.value.rows, s, e))))
  }

  // ---------------------------------------------------------------------------
  // sum_in_window
  // ---------------------------------------------------------------------------

  function SumValues(rows: seq<Row>): real {
    if |rows| == 0 then 0.0 else Value(rows[0]) + SumValues(rows[1..])
  }

  lemma {:induction false} SumValuesAppend(a: seq<Row>, b: seq<Row>)
    ensures SumValues(a + b) == SumValues(a) + SumValues(b)
  {
    if |a| > 0 {
      assert (a + b)[1..] == a[1..] + b;
      SumValuesAppend(a[1..], b);
    } else {
      assert a + b == b;
    }
  }

  lemma {:induction false} SumValuesInsert(sorted: seq<Row>, x: Row)
    requires SortedByTime(sorted)
    ensures SumValues(InsertByTime(sorted, x)) == SumValues(sorted) + Value(x)
  {
    if |sorted| > 0 && Key(sorted[0]) <= Key(x) {
      SumValuesInsert(sorted[1..], x);
    }
  }

  /** Sorting does not change the total. */
  lemma {:induction false} SumValuesSort(rows: seq<Row>)
    ensures SumValues(SortByTime(rows)) == SumValues(rows)
  {
    if |rows| > 0 {
      var init, last := rows[..|rows| - 1], rows[|rows| - 1];
      assert rows == init + [last];
      assert SortByTime(rows) == InsertByTime(SortByTime(init), last);
      SumValuesSort(init);
      SumValuesInsert(SortByTime(init), last);
      SumValuesAppend(init, [last]);
    }
  }

  /** The sheet has both columns sum_in_window and last_in_window read. */
  predicate Usable(df: Option<Table>) {
    IsValid(df) && df.value.hasTime && df.value.hasValue
  }

  /** Whether some row of the sheet lies in s..e. */
  predicate AnyInRange(rows: seq<Row>, s: Period, e: Period) {
    exists i :: 0 <= i < |rows| && InRange(rows[i], s, e)
  }

  lemma KeepInRangeEmpty(rows: seq<Row>, s: Period, e: Period)
    ensures |KeepInRange(rows, s, e)| > 0 <==> AnyInRange(rows, s, e)
  {
    var kept := KeepInRange(rows, s, e);
    KeepInRangeCounts(rows, s, e);
    if |kept| > 0 {
      assert kept[0] in multiset(kept);
      assert kept[0] in rows;
    }
    if AnyInRange(rows, s, e) {
      var i :| 0 <= i < |rows| && InRange(rows[i], s, e);
      assert rows[i] in multiset(rows);
      assert rows[i] in multiset(kept);
    }
  }

  /**
   * sum_in_window: 0 for a missing sheet or column; otherwise the total of
   * the rows whose month lies in s..e, taken in sheet order (which is 0 when
   * no row is in range).
   */
  function SumInWindow(df: Option<Table>, s: Period, e: Period): (total: real)
    ensures !Usable(df) ==> total == 0.0
    ensures Usable(df) ==> total == SumValues(KeepInRange(df.value.rows, s, e))
  {
    if !Usable(df) then 0.0
    else
      var dfw := FilterRange(df, s, e);
      if !IsValid(dfw) then 0.0
      else
        SumValuesSort(KeepInRange(df.value.rows, s, e));
        SumValues(dfw.value.rows)
  }

  /** A window with no row in it sums to 0. */
  lemma SumInWindowEmpty(df: Option<Table>, s: Period, e: Period)
    requires Usable(df) && !AnyInRange(df.value.rows, s, e)
    ensures SumInWindow(df, s, e) == 0.0
  {
    KeepInRangeEmpty(df.value.rows, s, e);
  }

  /** Splitting s..e into s..m and n..e, n being m + 1. */
  lemma {:induction false} KeepInRangeSplit(rows: seq<Row>, s: Period, m: Period, n: Period, e: Period)
    requires n == m + 1 && s <= n && m <= e
    ensures SumValues(KeepInRange(rows, s, e))
         == SumValues(KeepInRange(rows, s, m)) + SumValues(KeepInRange(rows, n, e))
  {
    if |rows| > 0 {
      KeepInRangeSplit(rows[1..], s, m, n, e);
    }
  }

  /**
   * Sums are additive over adjacent windows: the total over s..e is the
   * total over s..m plus the total over m+1..e.
   */
  lemma SumInWindowSplit(df: Option<Table>, s: Period, m: Period, e: Period)
    requires s <= m + 1 && m <= e
    ensures SumInWindow(df, s, e) == SumInWindow(df, s, m) + SumInWindow(df, m + 1, e)
  {
    if Usable(df) {
      KeepInRangeSplit(df.value.rows, s, m, m + 1, e);
    }
  }

  /**
   * Two windows with no row of the sheet between them: the total from the
   * start of the first to the end of the second is the sum of their totals.
   */
  lemma SumInWindowAcrossGap(df: Option<Table>, f: Period, l: Period, s: Period, e: Period)
    requires f <= l + 1 && l < s && s <= e + 1
    requires Usable(df) ==> !AnyInRange(df.value.rows, l + 1, s - 1)
    ensures SumInWindow(df, f, e) == SumInWindow(df, f, l) + SumInWindow(df, s, e)
  {
    if Usable(df) {
      var rows := df.value.rows;
      KeepInRangeSplit(rows, f, l, l + 1, e);
      KeepInRangeSplit(rows, l + 1, s - 1, s, e);
      KeepInRangeEmpty(rows, l + 1, s - 1);
      var whole, first, gap, rest, second :=
        SumValues(KeepInRange(rows, f, e)), SumValues(KeepInRange(rows, f, l)),
        SumValues(KeepInRange(rows, l + 1, s - 1)), SumValues(KeepInRange(rows, l + 1, e)),
        SumValues(KeepInRange(rows, s, e));
      assert gap == 0.0;
      assert whole == first + rest && rest == gap + second;
    }
  }

  lemma {:induction false} SumValuesNonNegative(rows: seq<Row>)
    requires forall i :: 0 <= i < |rows| ==> Value(rows[i]) >= 0.0
    ensures SumValues(rows) >= 0.0
  {
    if |rows| > 0 {
      SumValuesNonNegative(rows[1..]);
    }
  }

  /** A sheet of non-negative values has a non-negative total in every window. */
  lemma SumInWindowNonNegative(df: Option<Table>, s: Period, e: Period)
    requires df.Some? ==> forall i :: 0 <= i < |df.value.rows| ==> Value(df.value.rows[i]) >= 0.0
    ensures SumInWindow(df, s, e) >= 0.0
  {
    if Usable(df) {
      var rows := df.value.rows;
      var kept := KeepInRange(rows, s, e);
      KeepInRangeCounts(rows, s, e);
      forall i | 0 <= i < |kept| ensures Value(kept[i]) >= 0.0 {
        assert kept[i] in multiset(kept);
        assert kept[i] in multiset(rows);
      }
      SumValuesNonNegative(kept);
    }
  }

  // ---------------------------------------------------------------------------
  // last_in_window
  // ---------------------------------------------------------------------------

  /**
   * last_in_window: 0 for a missing sheet or column or an empty window;
   * otherwise the value of a row in the window whose month is the latest in
   * the window.
   */
  function LastInWindow(df: Option<Table>, s: Period, e: Period): (last: real)
    ensures !Usable(df) || !AnyInRange(df.value.rows, s, e) ==> last == 0.0
    ensures Usable(df) && AnyInRange(df.value.rows, s, e) ==>
      exists i :: 0 <= i < |df.value.rows| && InRange(df.value.rows[i], s, e)
        && last == Value(df.value.rows[i])
        && forall j :: 0 <= j < |df.value.rows| && InRange(df.value.rows[j], s, e) ==>
             df.value.rows[j].t.value <= df.value.rows[i].t.value
  {
    if !Usable(df) then 0.0
    else
      var dfw := FilterRange(df, s, e);
      KeepInRangeEmpty(df.value.rows, s, e);
      if !IsValid(dfw) then 0.0
      else
        var w := dfw.value.rows;
        LastIsLatest(df.value.rows, s, e, w);
        Value(w[|w| - 1])
  }

  lemma LastIsLatest(rows: seq<Row>, s: Period, e: Period, w: seq<Row>)
    requires |w| > 0 && SortedByTime(w)
    requires forall x :: multiset(w)[x] == if InRange(x, s, e) then multiset(rows)[x] else 0
    ensures exists i :: 0 <= i < |rows| && InRange(rows[i], s, e) && rows[i] == w[|w| - 1]
    ensures forall j :: 0 <= j < |rows| && InRange(rows[j], s, e) ==> rows[j].t.value <= w[|w| - 1].t.value
  {
    var x := w[|w| - 1];
    assert x in multiset(w);
    assert x in rows;
    forall j | 0 <= j < |rows| && InRange(rows[j], s, e)
      ensures rows[j].t.value <= x.t.value
    {
      assert rows[j] in multiset(rows);
      assert rows[j] in multiset(w);
      var k :| 0 <= k < |w| && w[k] == rows[j];
      assert Key(w[k]) <= Key(x);
    }
  }
}
