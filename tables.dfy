/**
 * Monthly sheets as the analytics functions see them.
 *
 * A sheet is reduced to the two columns a call names: its parsed month
 * column (Month_dt or Cohort_dt) and one value column. A month cell that did
 * not parse is None (pandas NaT); a value cell that is not numeric is None
 * (it coerces to 0). A sheet missing from the workbook is an absent Option.
 */
module Tables {
  import opened Wrappers
  import opened Periods

  datatype Row = Row(t: Option<Period>, v: Option<real>)

  /** hasTime / hasValue say whether the month and value columns exist. */
  datatype Table = Table(hasTime: bool, hasValue: bool, rows: seq<Row>)

  /** is_valid_df: the sheet was loaded and is not empty. */
  predicate IsValid(df: Option<Table>) {
    df.Some? && |df.value.rows| > 0
  }

  /** The value cell read as a number, non-numeric cells counting as 0. */
  function Value(r: Row): real {
    r.v.GetOr(0.0)
  }

  /** The parsed months of `rows`, nulls dropped (Series.dropna), in row order. */
  function PresentTimes(rows: seq<Row>): (ts: seq<Period>)
    ensures forall p :: p in ts <==> exists i :: 0 <= i < |rows| && rows[i].t == Some(p)
  {
    if |rows| == 0 then []
    else
      var rest := PresentTimes(rows[1..]);
      assert forall i :: 1 <= i < |rows| ==> rows[i] == rows[1..][i - 1];
      match rows[0].t
      case Some(p) => [p] + rest
      case None => rest
  }
}
