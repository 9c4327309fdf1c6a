/**
 * Small utilities of the dashboard (app.py, section 3, and the paginated
 * course table): short course names, minute-rounded file times, the KPI
 * lookup in a metric/count sheet and the page arithmetic.
 */
module Helpers {
  import opened Wrappers
  import Periods

  // ---------------------------------------------------------------------------
  // build_shortname
  // ---------------------------------------------------------------------------

  const ShortnameMaxLen: nat := 35

  /** One course name shortened to at most maxLen characters plus an ellipsis. */
  function ShortName(s: string, maxLen: nat): (r: string)
    ensures |s| <= maxLen ==> r == s
    ensures |s| > maxLen ==> |r| == maxLen + 3 && r[..maxLen] == s[..maxLen] && r[maxLen..] == "..."
  {
    if |s| <= maxLen then s else s[..maxLen] + "..."
  }

  /**
   * build_shortname over a column of course names: every name that fits is
   * kept, every longer one is cut to its first maxLen characters followed
   * by an ellipsis, and no short name is longer than maxLen + 3.
   */
  function BuildShortname(courses: seq<string>, maxLen: nat): (r: seq<string>)
    ensures |r| == |courses|
    ensures forall i :: 0 <= i < |r| ==> |r[i]| <= maxLen + 3
    ensures forall i :: 0 <= i < |r| && |courses[i]| <= maxLen ==> r[i] == courses[i]
    ensures forall i :: 0 <= i < |r| && |courses[i]| > maxLen ==>
      |r[i]| == maxLen + 3 && r[i][..maxLen] == courses[i][..maxLen] && r[i][maxLen..] == "..."
  {
    seq(|courses|, i requires 0 <= i < |courses| => ShortName(courses[i], maxLen))
  }

  /**
   * Every short name is at most maxLen + 3 long and starts with the name's
   * first maxLen characters; shortening is idempotent, so a name comes back
   * unchanged exactly when it fits or already ends in the ellipsis right
   * after maxLen characters.
   */
  lemma ShortNameBounds(s: string, maxLen: nat)
    ensures |ShortName(s, maxLen)| <= maxLen + 3
    ensures var k := Periods.Min(|s|, maxLen); ShortName(s, maxLen)[..k] == s[..k]
    ensures ShortName(ShortName(s, maxLen), maxLen) == ShortName(s, maxLen)
    ensures ShortName(s, maxLen) == s <==> |s| <= maxLen || (|s| == maxLen + 3 && s[maxLen..] == "...")
  {
    if |s| > maxLen {
      var r := ShortName(s, maxLen);
      assert r[..maxLen] + r[maxLen..] == r;
      if |s| == maxLen + 3 && s[maxLen..] == "..." {
        assert s[..maxLen] + s[maxLen..] == s;
      }
    }
  }

  /** Two long names that share their first maxLen characters get the same short name. */
  lemma ShortNameCollision(s: string, t: string, maxLen: nat)
    requires |s| > maxLen && |t| > maxLen && s[..maxLen] == t[..maxLen]
    ensures ShortName(s, maxLen) == ShortName(t, maxLen)
  {
  }

  // ---------------------------------------------------------------------------
  // mtime_rounded_minute
  // ---------------------------------------------------------------------------

  /** A file time in seconds rounded down to its minute; 0 for a time that is not positive. */
  function MtimeRoundedMinute(mtimeSec: int): (r: int)
    ensures mtimeSec <= 0 ==> r == 0
    ensures mtimeSec > 0 ==> r % 60 == 0 && 0 <= r <= mtimeSec < r + 60
  {
    if mtimeSec > 0 then (mtimeSec / 60) * 60 else 0
  }

  /** Rounding is idempotent and monotone: a later file time never rounds to an earlier minute. */
  lemma MtimeRoundedMinuteMonotone(a: int, b: int)
    requires a <= b
    ensures MtimeRoundedMinute(MtimeRoundedMinute(a)) == MtimeRoundedMinute(a)
    ensures MtimeRoundedMinute(a) <= MtimeRoundedMinute(b)
  {
  }

  // ---------------------------------------------------------------------------
  // get_metric_value
  // ---------------------------------------------------------------------------

  /** A metric/count sheet row; a count that is missing or not numeric is None. */
  datatype MetricRow = MetricRow(metric: string, count: Option<real>)

  /** hasMetric / hasCount say whether the Metric and Count columns exist. */
  datatype MetricTable = MetricTable(hasMetric: bool, hasCount: bool, rows: seq<MetricRow>)

  /** int(float(x)): truncation toward zero. */
  function Trunc(x: real): (n: int)
    ensures x >= 0.0 ==> 0.0 <= n as real <= x < n as real + 1.0
    ensures x < 0.0 ==> n as real - 1.0 < x <= n as real <= 0.0
  {
    if x >= 0.0 then x.Floor else -((-x).Floor)
  }

  /**
   * to_int_safe(x, 0): a missing value counts as 0; any other is truncated
   * toward zero, so it lies within 1 of the value, on zero's side of it.
   */
  function ToIntSafe(x: Option<real>): (n: int)
    ensures x.None? ==> n == 0
    ensures x.Some? && x.value >= 0.0 ==> 0.0 <= n as real <= x.value < n as real + 1.0
    ensures x.Some? && x.value < 0.0 ==> n as real - 1.0 < x.value <= n as real <= 0.0
  {
    match x
    case None => 0
    case Some(v) => Trunc(v)
  }

  /** Row i is the first row of `rows` naming `metric`. */
  predicate IsFirstMatch(rows: seq<MetricRow>, metric: string, i: int) {
    0 <= i < |rows| && rows[i].metric == metric && forall j :: 0 <= j < i ==> rows[j].metric != metric
  }

  predicate NoMatch(rows: seq<MetricRow>, metric: string) {
    forall i :: 0 <= i < |rows| ==> rows[i].metric != metric
  }

  /**
   * The count of the first row naming `metric`, as an integer; 0 for a
   * missing or empty sheet, a missing column, or no such row.
   */
  function GetMetricValue(df: Option<MetricTable>, metric: string): (n: int)
    ensures df.None? || |df.value.rows| == 0 || !df.value.hasMetric || !df.value.hasCount ==> n == 0
    ensures df.Some? && df.value.hasMetric && df.value.hasCount ==>
      && (NoMatch(df.value.rows, metric) ==> n == 0)
      && forall i :: IsFirstMatch(df.value.rows, metric, i) ==> n == ToIntSafe(df.value.rows[i].count)
  {
    if df.None? || |df.value.rows| == 0 || !df.value.hasMetric || !df.value.hasCount then 0
    else FirstMatch(df.value.rows, metric)
  }

  /** The count of the first row naming `metric`, 0 when none does (row.empty). */
  function FirstMatch(rows: seq<MetricRow>, metric: string): (n: int)
    ensures NoMatch(rows, metric) ==> n == 0
    ensures forall i :: IsFirstMatch(rows, metric, i) ==> n == ToIntSafe(rows[i].count)
  {
    if |rows| == 0 then 0
    else if rows[0].metric == metric then ToIntSafe(rows[0].count)
    else
      var n := FirstMatch(rows[1..], metric);
      assert forall i :: IsFirstMatch(rows, metric, i) ==> IsFirstMatch(rows[1..], metric, i - 1);
      n
  }

  /** A first match stays the first match when rows are appended. */
  lemma {:induction false} IsFirstMatchAppend(rows: seq<MetricRow>, extra: seq<MetricRow>, metric: string, i: int)
    requires IsFirstMatch(rows, metric, i)
    ensures IsFirstMatch(rows + extra, metric, i)
  {
    assert forall j :: 0 <= j <= i ==> (rows + extra)[j] == rows[j];
  }

  /** Some row names the metric, and the first one is unique. */
  lemma {:induction false} FirstMatchExists(rows: seq<MetricRow>, metric: string)
    requires !NoMatch(rows, metric)
    ensures exists i :: IsFirstMatch(rows, metric, i)
  {
    if rows[0].metric == metric {
      assert IsFirstMatch(rows, metric, 0);
    } else {
      FirstMatchExists(rows[1..], metric);
      var i :| IsFirstMatch(rows[1..], metric, i);
      assert IsFirstMatch(rows, metric, i + 1);
    }
  }

  /** Rows appended after a row naming the metric do not change the value looked up. */
  lemma GetMetricValueIgnoresLaterRows(t: MetricTable, metric: string, extra: seq<MetricRow>)
    requires t.hasMetric && t.hasCount && !NoMatch(t.rows, metric)
    ensures GetMetricValue(Some(t.(rows := t.rows + extra)), metric) == GetMetricValue(Some(t), metric)
  {
    FirstMatchExists(t.rows, metric);
    var i :| IsFirstMatch(t.rows, metric, i);
    IsFirstMatchAppend(t.rows, extra, metric, i);
  }

  // ---------------------------------------------------------------------------
  // Pagination of the course table
  // ---------------------------------------------------------------------------

  /** The number of pages: enough for every row, no more than needed, and 1 for an empty table. */
  function TotalPages(totalRows: nat, pageSize: nat): (n: nat)
    requires pageSize > 0
    ensures n >= 1
    ensures totalRows <= n * pageSize
    ensures totalRows > 0 ==> (n - 1) * pageSize < totalRows
    ensures totalRows == 0 ==> n == 1
  {
    var q := (totalRows + pageSize - 1) / pageSize;
    if q < 1 then 1 else q
  }

  /**
   * The first row (0-based) shown on page `page`, counting pages from 1:
   * page 1 starts at row 0, and each later page where the one before it
   * ends (PageEnd).
   */
  function PageStart(page: nat, pageSize: nat): (s: nat)
    requires page >= 1
    ensures page == 1 ==> s == 0
  {
    (page - 1) * pageSize
  }

  /**
   * One past the last row slot of page `page` (iloc[start:end]): each page
   * spans pageSize slots and ends where the next page starts.
   */
  function PageEnd(page: nat, pageSize: nat): (e: nat)
    requires page >= 1
    ensures e == PageStart(page + 1, pageSize)
    ensures e - PageStart(page, pageSize) == pageSize
  {
    PageStart(page, pageSize) + pageSize
  }

  /**
   * Every row of the table is shown on exactly one of the pages 1..TotalPages:
   * page r / pageSize + 1.
   */
  lemma RowOnExactlyOnePage(totalRows: nat, pageSize: nat, r: nat)
    requires pageSize > 0 && r < totalRows
    ensures var p := r / pageSize + 1;
      && 1 <= p <= TotalPages(totalRows, pageSize)
      && PageStart(p, pageSize) <= r < PageEnd(p, pageSize)
      && forall q :: 1 <= q && PageStart(q, pageSize) <= r < PageEnd(q, pageSize) ==> q == p
  {
    var p := r / pageSize + 1;
    var n := TotalPages(totalRows, pageSize);
    assert PageStart(p, pageSize) == r / pageSize * pageSize;
    assert r == r / pageSize * pageSize + r % pageSize;
    assert p <= n by {
      if p > n {
        MulLe(n, p - 1, pageSize);
      }
    }
    forall q | 1 <= q && PageStart(q, pageSize) <= r < PageEnd(q, pageSize) ensures q == p {
      PageUnique(q, p, pageSize, r);
    }
  }

  /** An earlier page ends no later than a later page starts: pages never overlap. */
  lemma PagesInOrder(p: nat, q: nat, pageSize: nat)
    requires 1 <= p < q
    ensures PageEnd(p, pageSize) <= PageStart(q, pageSize)
  {
    MulLe(p, q - 1, pageSize);
  }

  /** A row slot r lies on page q exactly when q - 1 is r / pageSize. */
  lemma PageUnique(q: nat, p: nat, pageSize: nat, r: nat)
    requires pageSize > 0 && 1 <= q && 1 <= p
    requires PageStart(q, pageSize) <= r < PageEnd(q, pageSize)
    requires PageStart(p, pageSize) <= r < PageEnd(p, pageSize)
    ensures q == p
  {
    if q < p {
      MulLe(q, p - 1, pageSize);
    } else if p < q {
      MulLe(p, q - 1, pageSize);
    }
  }

  lemma MulLe(x: nat, y: nat, k: nat)
    requires x <= y
    ensures x * k <= y * k
  {
  }

  /** The default page: 50 rows of 120 are spread over 3 pages, the last holding rows 100..119. */
  lemma PaginationExample()
    ensures TotalPages(120, DefaultPageSize) == 3
    ensures PageStart(3, DefaultPageSize) == 100 && Periods.Min(PageEnd(3, DefaultPageSize), 120) == 120
    ensures TotalPages(0, DefaultPageSize) == 1
  {
  }

  const DefaultPageSize: nat := 50
}
