/**
 * Compare mode on the executive summary (app.py, section 11): each KPI is
 * computed over the selected months and, when compare mode is on and the
 * index has enough history, over the previous window of the same length.
 * The enrollments, sign-ups and MAU cards show the percentage change
 * between the two; the activation-rate card shows their difference in
 * percentage points.
 */
module Kpi {
  import opened Wrappers
  import opened Periods
  import opened Tables
  import opened Aggregate

  /** Growing prev by d percent gives curr. */
  predicate IsChange(d: real, curr: real, prev: real) {
    prev + prev * d / 100.0 == curr
  }

  /**
   * percent_delta: the change from prev to curr in percent of prev, or None
   * (shown as a dash) when prev is 0.
   */
  function PercentDelta(curr: real, prev: real): (d: Option<real>)
    ensures d.None? <==> prev == 0.0
    ensures d.Some? ==> IsChange(d.value, curr, prev)
    ensures d.Some? && prev > 0.0 ==> (d.value > 0.0 <==> curr > prev) && (d.value == 0.0 <==> curr == prev)
  {
    if prev == 0.0 then None
    else
      var d := (curr - prev) / prev * 100.0;
      assert d * prev == (curr - prev) * 100.0;
      Some(d)
  }

  /** Growing a non-zero value by d percent and asking for the change gives d back. */
  lemma PercentDeltaRoundTrip(prev: real, d: real)
    requires prev != 0.0
    ensures forall curr :: IsChange(d, curr, prev) ==> PercentDelta(curr, prev) == Some(d)
  {
    forall curr | IsChange(d, curr, prev) ensures PercentDelta(curr, prev) == Some(d) {
      var r := PercentDelta(curr, prev).value;
      assert prev * r == prev * d;
    }
  }

  /** The months compared against: the previous window, only in compare mode. */
  function PreviousWindow(periods: seq<Period>, s: Period, e: Period, compareMode: bool): (w: Option<Window>)
    ensures !compareMode ==> w.None?
    ensures compareMode ==> w == PreviousPeriodWindow(periods, s, e)
  {
    if compareMode then PreviousPeriodWindow(periods, s, e) else None
  }

  /**
   * The delta a KPI card shows: None when compare mode is off or the previous
   * value is 0; otherwise the percentage by which prev grows into curr.
   */
  function CardDelta(compareMode: bool, curr: real, prev: real): (d: Option<real>)
    ensures d.Some? <==> compareMode && prev != 0.0
    ensures d.Some? ==> IsChange(d.value, curr, prev)
  {
    if compareMode && prev != 0.0 then PercentDelta(curr, prev) else None
  }

  /** A KPI card: the value over the selection and the delta against the previous window. */
  datatype Card = Card(current: real, previous: real, delta: Option<real>)

  /** The enrollments / sign-ups cards: sums over the selection and the previous window. */
  function SumCard(df: Option<Table>, periods: seq<Period>, s: Period, e: Period, compareMode: bool): (c: Card)
    ensures c.current == SumInWindow(df, s, e)
    ensures PreviousWindow(periods, s, e, compareMode).None? ==> c.previous == 0.0 && c.delta == None
    ensures PreviousWindow(periods, s, e, compareMode).Some? ==>
      var w := PreviousWindow(periods, s, e, compareMode).value;
      c.previous == SumInWindow(df, w.first, w.last)
    ensures c.delta.Some? <==> compareMode && c.previous != 0.0
    ensures c.delta.Some? ==> IsChange(c.delta.value, c.current, c.previous)
  {
    var w := PreviousWindow(periods, s, e, compareMode);
    var curr := SumInWindow(df, s, e);
    var prev := if w.Some? then SumInWindow(df, w.value.first, w.value.last) else 0.0;
    Card(curr, prev, CardDelta(compareMode, curr, prev))
  }

  /** The MAU card: latest values in the selection and in the previous window. */
  function LastCard(df: Option<Table>, periods: seq<Period>, s: Period, e: Period, compareMode: bool): (c: Card)
    ensures c.current == LastInWindow(df, s, e)
    ensures PreviousWindow(periods, s, e, compareMode).None? ==> c.previous == 0.0 && c.delta == None
    ensures PreviousWindow(periods, s, e, compareMode).Some? ==>
      var w := PreviousWindow(periods, s, e, compareMode).value;
      c.previous == LastInWindow(df, w.first, w.last)
    ensures c.delta.Some? <==> compareMode && c.previous != 0.0
    ensures c.delta.Some? ==> IsChange(c.delta.value, c.current, c.previous)
  {
    var w := PreviousWindow(periods, s, e, compareMode);
    var curr := LastInWindow(df, s, e);
    var prev := if w.Some? then LastInWindow(df, w.value.first, w.value.last) else 0.0;
    Card(curr, prev, CardDelta(compareMode, curr, prev))
  }

  /**
   * The activation card's delta: None when compare mode is off or the
   * previous rate is 0; otherwise the difference in percentage points, so
   * that prev moved by d points is curr.
   */
  function PointsDelta(compareMode: bool, curr: real, prev: real): (d: Option<real>)
    ensures d.Some? <==> compareMode && prev != 0.0
    ensures d.Some? ==> prev + d.value == curr
    ensures d.Some? ==> (d.value > 0.0 <==> curr > prev) && (d.value == 0.0 <==> curr == prev)
  {
    if compareMode && prev != 0.0 then Some(curr - prev) else None
  }

  /**
   * The activation-rate card: latest rates in the selection and in the
   * previous window, and their difference in points.
   */
  function ActivationCard(df: Option<Table>, periods: seq<Period>, s: Period, e: Period, compareMode: bool): (c: Card)
    ensures c.current == LastInWindow(df, s, e)
    ensures PreviousWindow(periods, s, e, compareMode).None? ==> c.previous == 0.0 && c.delta == None
    ensures PreviousWindow(periods, s, e, compareMode).Some? ==>
      var w := PreviousWindow(periods, s, e, compareMode).value;
      c.previous == LastInWindow(df, w.first, w.last)
    ensures c.delta.Some? <==> compareMode && c.previous != 0.0
    ensures c.delta.Some? ==> c.previous + c.delta.value == c.current
  {
    var w := PreviousWindow(periods, s, e, compareMode);
    var curr := LastInWindow(df, s, e);
    var prev := if w.Some? then LastInWindow(df, w.value.first, w.value.last) else 0.0;
    Card(curr, prev, PointsDelta(compareMode, curr, prev))
  }

  /**
   * The MAU and activation cards read the same latest values and show a
   * delta in the same cases; a rate moving from 20 to 30 shows +10 points,
   * where a percentage change would be +50.
   */
  lemma ActivationAgainstMau(df: Option<Table>, periods: seq<Period>, s: Period, e: Period, compareMode: bool)
    ensures var a, m := ActivationCard(df, periods, s, e, compareMode), LastCard(df, periods, s, e, compareMode);
      a.current == m.current && a.previous == m.previous && (a.delta.Some? <==> m.delta.Some?)
    ensures PointsDelta(true, 30.0, 20.0) == Some(10.0) && CardDelta(true, 30.0, 20.0) == Some(50.0)
  {
    assert PercentDelta(30.0, 20.0) == Some(50.0);
  }

  // ---------------------------------------------------------------------------
  // The previous window and the selection together
  // ---------------------------------------------------------------------------

  lemma {:induction false} CountInZero(s: seq<int>, lo: int, hi: int, x: int)
    requires CountIn(s, lo, hi) == 0 && x in s
    ensures !(lo <= x <= hi)
  {
    if s[0] != x {
      assert x in s[1..];
      CountInZero(s[1..], lo, hi, x);
    }
  }

  /** Every month of the sheet belongs to the period index. */
  predicate MonthsIndexed(df: Option<Table>, periods: seq<Period>) {
    df.Some? ==> forall i :: 0 <= i < |df.value.rows| && df.value.rows[i].t.Some? ==> df.value.rows[i].t.value in periods
  }

  /** A sheet whose months are all in the index has no row in a range holding no month of the index. */
  lemma NoIndexedMonthNoRow(df: Option<Table>, periods: seq<Period>, lo: Period, hi: Period)
    requires MonthsIndexed(df, periods) && CountIn(periods, lo, hi) == 0
    ensures df.Some? ==> !AnyInRange(df.value.rows, lo, hi)
  {
    if df.Some? {
      var rows := df.value.rows;
      forall i | 0 <= i < |rows| ensures !InRange(rows[i], lo, hi) {
        if rows[i].t.Some? {
          CountInZero(periods, lo, hi, rows[i].t.value);
        }
      }
    }
  }

  /**
   * For a sheet whose months are all in the index, the previous-window sum
   * and the selection's sum together are the sum over the months from the
   * start of the previous window to the end of the selection: the two
   * windows never share a row and no row falls between them.
   */
  lemma PreviousAndCurrentCover(df: Option<Table>, periods: seq<Period>, s: Period, e: Period)
    requires StrictlyIncreasing(periods) && MonthsIndexed(df, periods)
    requires s <= e && PreviousPeriodWindow(periods, s, e).Some?
    ensures var w := PreviousPeriodWindow(periods, s, e).value;
      SumInWindow(df, w.first, e) == SumInWindow(df, w.first, w.last) + SumInWindow(df, s, e)
  {
    var w := PreviousPeriodWindow(periods, s, e).value;
    PreviousWindowAdjacentSameLength(periods, s, e);
    assert w.first <= w.last < s && CountIn(periods, w.last + 1, s - 1) == 0;
    NoIndexedMonthNoRow(df, periods, w.last + 1, s - 1);
    SumInWindowAcrossGap(df, w.first, w.last, s, e);
  }

  /** Four months of enrollments, January to April 2025: 100, 150, 200 and 250. */
  function ExampleSheet(): Option<Table> {
    Some(Table(true, true, [Row(Some(MonthId(2025, 1)), Some(100.0)), Row(Some(MonthId(2025, 2)), Some(150.0)),
                            Row(Some(MonthId(2025, 3)), Some(200.0)), Row(Some(MonthId(2025, 4)), Some(250.0))]))
  }

  function ExampleIndex(): seq<Period> {
    [MonthId(2025, 1), MonthId(2025, 2), MonthId(2025, 3), MonthId(2025, 4)]
  }

  /** March..April is compared with January..February; January alone has no previous window. */
  lemma ExampleWindows()
    ensures PreviousPeriodWindow(ExampleIndex(), MonthId(2025, 3), MonthId(2025, 4)) == Some(Window(MonthId(2025, 1), MonthId(2025, 2)))
    ensures PreviousPeriodWindow(ExampleIndex(), MonthId(2025, 1), MonthId(2025, 1)) == None
  {
    var periods := ExampleIndex();
    IndexOfIncreasing(periods, 0);
    IndexOfIncreasing(periods, 2);
    IndexOfIncreasing(periods, 3);
  }

  /** The window totals: 450 for March..April, 250 for January..February, 100 for January. */
  lemma ExampleSums(df: Option<Table>)
    requires df == ExampleSheet()
    ensures SumInWindow(df, MonthId(2025, 3), MonthId(2025, 4)) == 450.0
    ensures SumInWindow(df, MonthId(2025, 1), MonthId(2025, 2)) == 250.0
    ensures SumInWindow(df, MonthId(2025, 1), MonthId(2025, 1)) == 100.0
  {
    ExampleSumMarchApril(df);
    ExampleSumJanuaryFebruary(df);
    ExampleSumJanuary(df);
  }

  lemma ExampleSumMarchApril(df: Option<Table>)
    requires df == ExampleSheet()
    ensures SumInWindow(df, MonthId(2025, 3), MonthId(2025, 4)) == 450.0
  {
    var rows, s, e := df.value.rows, MonthId(2025, 3), MonthId(2025, 4);
    ExampleSuffixes(rows);
    KeepStep(rows[3..], s, e);
    KeepStep(rows[2..], s, e);
    KeepStep(rows[1..], s, e);
    KeepStep(rows, s, e);
    assert KeepInRange(rows, s, e) == [rows[2], rows[3]];
    SumValuesPair(rows[2], rows[3]);
  }

  lemma ExampleSumJanuaryFebruary(df: Option<Table>)
    requires df == ExampleSheet()
    ensures SumInWindow(df, MonthId(2025, 1), MonthId(2025, 2)) == 250.0
  {
    var rows, s, e := df.value.rows, MonthId(2025, 1), MonthId(2025, 2);
    ExampleSuffixes(rows);
    KeepStep(rows[3..], s, e);
    KeepStep(rows[2..], s, e);
    KeepStep(rows[1..], s, e);
    KeepStep(rows, s, e);
    assert KeepInRange(rows, s, e) == [rows[0], rows[1]];
    SumValuesPair(rows[0], rows[1]);
  }

  lemma ExampleSumJanuary(df: Option<Table>)
    requires df == ExampleSheet()
    ensures SumInWindow(df, MonthId(2025, 1), MonthId(2025, 1)) == 100.0
  {
    var rows, s, e := df.value.rows, MonthId(2025, 1), MonthId(2025, 1);
    ExampleSuffixes(rows);
    KeepStep(rows[3..], s, e);
    KeepStep(rows[2..], s, e);
    KeepStep(rows[1..], s, e);
    KeepStep(rows, s, e);
    assert KeepInRange(rows, s, e) == [rows[0]];
  }

  lemma ExampleSuffixes(rows: seq<Row>)
    requires |rows| == 4
    ensures rows[1..][1..] == rows[2..] && rows[2..][1..] == rows[3..] && rows[3..][1..] == []
  {
  }

  /** One step of the mask. */
  lemma KeepStep(rows: seq<Row>, s: Period, e: Period)
    requires |rows| > 0
    ensures KeepInRange(rows, s, e) == (if InRange(rows[0], s, e) then [rows[0]] else []) + KeepInRange(rows[1..], s, e)
  {
  }

  lemma SumValuesPair(a: Row, b: Row)
    ensures SumValues([a, b]) == Value(a) + Value(b)
  {
    assert [a, b][1..] == [b] && [b][1..] == [];
    assert SumValues([b]) == Value(b) + SumValues([]);
  }

  /**
   * Selecting March..April in compare mode shows 450 against 250, a change
   * of 80 percent; selecting January alone shows no delta.
   */
  lemma EnrollmentsExample()
    ensures SumCard(ExampleSheet(), ExampleIndex(), MonthId(2025, 3), MonthId(2025, 4), true) == Card(450.0, 250.0, Some(80.0))
    ensures SumCard(ExampleSheet(), ExampleIndex(), MonthId(2025, 1), MonthId(2025, 1), true) == Card(100.0, 0.0, None)
  {
    ExampleWindows();
    ExampleSums(ExampleSheet());
    assert PercentDelta(450.0, 250.0) == Some(80.0);
  }
}
