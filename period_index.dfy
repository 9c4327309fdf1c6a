/**
 * Building the period index when the workbook is loaded (app.py load_raw,
 * the month-period loop).
 *
 * The candidate sheets are tried in a fixed priority order; the first one
 * that is loaded, not empty, has its parsed month column and at least one
 * month that parsed supplies the index, sorted ascending without duplicates.
 */
module PeriodIndex {
  import opened Wrappers
  import opened Periods
  import opened Tables

  /**
   * The sheets tried, in order. The first three carry their month in
   * Month_dt, the activation cohorts in Cohort_dt; `Table.hasTime` stands
   * for whichever of the two the sheet is read by.
   */
  const PeriodSources: seq<string> := ["Monthly_Unique", "Monthly_Enroll", "MAU", "Activation"]

  /** The loaded sheets by key; an absent key is a sheet missing from the workbook. */
  type Workbook = map<string, Table>

  /** data.get(key) */
  function Sheet(data: Workbook, key: string): Option<Table> {
    if key in data then Some(data[key]) else None
  }

  /** The sheet is loaded, not empty, has the month column, and a month parsed. */
  predicate Qualifies(df: Option<Table>) {
    IsValid(df) && df.value.hasTime && |PresentTimes(df.value.rows)| > 0
  }

  function Candidate(data: Workbook, k: nat): Option<Table>
    requires k < |PeriodSources|
  {
    Sheet(data, PeriodSources[k])
  }

  /** Candidate k qualifies and none before it does. */
  predicate FirstQualifying(data: Workbook, k: nat) {
    && k < |PeriodSources|
    && Qualifies(Candidate(data, k))
    && forall j :: 0 <= j < k ==> !Qualifies(Candidate(data, j))
  }

  /**
   * The period index: empty exactly when no candidate qualifies, and
   * otherwise the months of the first qualifying candidate, ascending and
   * without duplicates.
   */
  method DiscoverPeriods(data: Workbook) returns (periods: seq<Period>)
    ensures StrictlyIncreasing(periods)
    ensures periods == [] <==> forall k :: 0 <= k < |PeriodSources| ==> !Qualifies(Candidate(data, k))
    ensures forall k :: FirstQualifying(data, k) ==>
      forall p :: p in periods <==> p in PresentTimes(Candidate(data, k).value.rows)
  {
    periods := [];
    for k := 0 to |PeriodSources|
      invariant periods == []
      invariant forall j :: 0 <= j < k ==> !Qualifies(Candidate(data, j))
    {
      var df := Sheet(data, PeriodSources[k]);
      if IsValid(df) && df.value.hasTime {
        var s := PresentTimes(df.value.rows);
        if |s| > 0 {
          periods := SortedUnique(s);
          assert FirstQualifying(data, k);
          assert periods != [] by { assert s[0] in periods; }
          break;
        }
      }
    }
  }
}
