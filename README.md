# Academy dashboard analytics core, in Dafny

This project models the analytics core of the academy dashboard (`app.py`),
a Streamlit page over an Excel workbook of monthly sheets. It covers:

- **The period index.** At load time the dashboard builds the ascending,
  de-duplicated list of months that the data covers. It takes them from the
  first of the sheets Monthly_Unique, Monthly_Enroll, MAU and Activation
  that has a parsed month.
- **The previous-window resolver.** In compare mode, a selection of months is
  compared with the window of the same number of index positions that ends
  just before it. There is no such window when an endpoint is not in the
  index or there is not enough history.
- **Window aggregation.** `filter_range` keeps the rows of a sheet whose month
  lies in a closed range and sorts them by month. `sum_in_window` totals a
  flow metric over the window. `last_in_window` reads a snapshot metric at
  the latest month of the window. Both answer 0 for a missing sheet or
  column or an empty window.
- **The KPI cards.** Each card shows the current value. In compare mode the
  enrollments, sign-ups and MAU cards also show the percentage change
  against the previous window (`percent_delta`, a dash when the previous
  value is 0). The activation-rate card instead shows the difference in
  percentage points. No delta is shown when the previous value is 0.
- **The drop-off funnel** (`compute_funnel`):
  - It reorders stages into the configured order, matched case-insensitively,
    or keeps sheet order with a warning.
  - It picks a base count: the first count, or the maximum when the first is
    not positive.
  - It computes each stage as a percentage of the base.
  - It emits one drop row per adjacent pair of stages.
- **Small helpers.** Course short names, minute-rounded file times, the
  metric/count lookup behind the user-segment KPIs, and the page arithmetic
  of the paginated course table.

A month is an integer `year * 12 + month - 1`, so month order is integer
order. A sheet is projected onto the two columns a call reads: its parsed
month (`None` for a month that did not parse) and one value column (`None`
for a cell that is not numeric, which counts as 0). Flags say whether the
columns exist. A missing sheet is `None`. Percentages are exact reals.

Files:

| file | contents |
|---|---|
| wrappers.dfy | `Option` |
| periods.dfy | month ids, the sorted de-duplicated index, `list.index`, `previous_period_window` and its theorems |
| tables.dfy | rows, sheets, `is_valid_df`, the non-null months of a sheet |
| period_index.dfy | the period discovery loop of `load_raw` (a method with a `for` loop and `break`) |
| aggregate.dfy | `filter_range`, `sum_in_window`, `last_in_window` |
| kpi.dfy | `percent_delta`, the compare-mode KPI cards, a worked example |
| funnel.dfy | `compute_funnel`: an array insertion sort by `_ord`, base count, percentages, the drop loop |
| helpers.dfy | `build_shortname`, `mtime_rounded_minute`, `to_int_safe`, `get_metric_value`, pagination |

## Model

| member | source | states |
|---|---|---|
| Periods.SortedUnique | app.py:286 | the index is strictly increasing and holds exactly the months found |
| Periods.StrictlyIncreasingDeterminedByElements | app.py:286 | two strictly increasing lists with the same elements are equal |
| Periods.SortedUniqueDeterministic | app.py:286 | the index depends only on which months occur, not on their order or repetition in the sheet |
| Periods.IndexOf | app.py:489-492 | `list.index`: None exactly when the month is absent (the ValueError path), otherwise its first position |
| Periods.PreviousPeriodWindow | app.py:484-501 | None when either endpoint is absent; otherwise, with lo/hi the ordered positions and len = hi - lo + 1, a window exists iff len <= lo, and it is (periods[lo-len], periods[lo-1]) |
| Periods.PreviousPeriodWindowSymmetric | app.py:494-495 | selecting (end, start) resolves to the same window as (start, end) |
| Periods.PreviousWindowAdjacentSameLength | app.py:496-501 | over a strictly increasing index, a resolved window holds as many index months as the selection, ends before the selection starts, and no index month lies between them |
| Periods.PreviousWindowAbsentIffShortHistory | app.py:499-500 | for a selection in the index, no window exactly when fewer index months precede it than it holds |
| Periods.TwelveMonthExample | app.py:484-501 | over twelve months, months 7..12 compare with 1..6, and months 1..3 have no previous window |
| Tables.PresentTimes | app.py:284 | `dropna` on the month column: exactly the months that parsed |
| PeriodIndex.DiscoverPeriods | app.py:275-287 | the index is strictly increasing; it is empty iff no candidate sheet qualifies; otherwise it holds exactly the months of the first qualifying sheet in priority order |
| Aggregate.KeepInRangeCounts | app.py:433 | the mask keeps every row whose month is non-null and within s..e, as often as it occurs, and no other row |
| Aggregate.SortByTime | app.py:434 | the result is sorted by month and is a permutation of its input |
| Aggregate.FilterRange | app.py:430-434 | a missing or empty sheet, or one without the month column, comes back unchanged; otherwise the result keeps the columns, is sorted by month, and holds exactly the in-range rows with their multiplicities |
| Aggregate.SumValuesSort | app.py:626 | the total does not depend on the order rows are summed in |
| Aggregate.SumInWindow | app.py:620-626 | 0 for a missing or empty sheet or a missing column; otherwise the total of the in-range rows in sheet order |
| Aggregate.KeepInRangeEmpty | app.py:623-624 | the filtered frame is empty exactly when no row lies in the window |
| Aggregate.SumInWindowEmpty | app.py:623-624 | a window holding no row sums to 0 |
| Aggregate.SumInWindowSplit | app.py:620-626 | window totals are additive: s..e totals s..m plus m+1..e |
| Aggregate.SumInWindowAcrossGap | app.py:620-626 | two windows with no row between them total the window that spans both |
| Aggregate.SumInWindowNonNegative | app.py:620-626 | a sheet of non-negative values totals non-negatively in every window |
| Aggregate.LastInWindow | app.py:636-642 | 0 for a missing sheet, column or empty window; otherwise the value of an in-range row whose month is the latest in the window |
| Aggregate.LastIsLatest | app.py:642 | the last row of the filtered frame is a row of the sheet in the window, with no in-range month after it |
| Kpi.PercentDelta | app.py:156-160 | None (the dash) exactly when prev is 0; otherwise a d with prev grown by d percent equal to curr; for a positive prev, d is positive iff curr > prev and 0 iff they are equal |
| Kpi.PercentDeltaRoundTrip | app.py:156-160 | growing prev by d percent and asking for the change gives d back |
| Kpi.PreviousWindow | app.py:604 | the previous window resolved for the selection in compare mode, and none outside it |
| Kpi.CardDelta | app.py:655-659 | a card shows a delta exactly in compare mode with a non-zero previous value, and the delta turns the previous value into the current one |
| Kpi.SumCard | app.py:629-657 | the current total is over the selection; the previous total is over the previous window, or 0 without one (also outside compare mode); a delta is shown exactly in compare mode with a non-zero previous total, and it is the percentage by which the previous total grows into the current one |
| Kpi.LastCard | app.py:645-646 | the MAU card (shown at app.py:659): as SumCard, with latest values instead of totals; a percentage delta is shown exactly in compare mode with a non-zero previous value |
| Kpi.PointsDelta | app.py:661 | a delta exactly in compare mode with a non-zero previous rate; it is the point difference, so prev moved by d is curr, and d is positive iff the rate rose |
| Kpi.ActivationCard | app.py:649-651 | the activation-rate card: latest rates in the selection and the previous window (0 without one), and a point delta exactly in compare mode with a non-zero previous rate |
| Kpi.ActivationAgainstMau | app.py:659-661 | the activation and MAU cards read the same latest values and show a delta in the same cases; a rate moving from 20 to 30 shows +10 points, not +50% |
| Kpi.PreviousAndCurrentCover | app.py:604-633 | for a sheet whose months are all in the index, the previous total plus the current total is the total from the previous window's start to the selection's end |
| Kpi.EnrollmentsExample | app.py:629-655 | monthly enrollments 100, 150, 200, 250: selecting the last two months compares 450 with 250 (+80%), and the first month alone shows no delta |
| Funnel.StageMapPrefixSpec | app.py:384 | the stage map holds every lower-cased configured name, mapped to the last position with that lower-cased form |
| Funnel.KnownIffConfigured | app.py:383-387 | a stage is matched iff its lower-cased name equals a lower-cased configured name, and its rank is then the last such position |
| Funnel.InsertRow | app.py:389 | one insertion step: the `_ord` prefix grows sorted by one row, rows and their `_ord` stay paired, the rows are a permutation, and the rows and `_ord` entries after the step's position are untouched |
| Funnel.SortByOrd | app.py:388-389 | `sort_values("_ord")`: `_ord` ends sorted, each row keeps its `_ord`, and the rows are a permutation of the input |
| Funnel.TaggedSortedIsRankSorted | app.py:388-389 | rows whose `_ord` is sorted are in configured order |
| Funnel.MaxOf | app.py:396 | the maximum is one of the counts and no count exceeds it |
| Funnel.BaseCount | app.py:394-396 | the first count when positive; otherwise the maximum count; positive iff some count is |
| Funnel.PctOfBase | app.py:398-401 | for a positive base, p * base == count * 100; otherwise p == 0; the base itself is 100 percent |
| Funnel.Labelled | app.py:394-401 | the funnel rows are the stages unchanged, each with its percentage of the base count, and a positive first stage is 100 percent |
| Funnel.AddPercentages | app.py:394-401 | the imperative base/percentage step yields the funnel rows of the ordered stages |
| Funnel.DropAt | app.py:410-416 | the drop names the two stages; drop + current == previous (not clamped, negative iff the count grows); its percentage is of the earlier stage, 0 when that is not positive |
| Funnel.DropDiagnostic | app.py:408-423 | the loop yields one drop row per adjacent pair, or None for fewer than two stages |
| Funnel.DropsTelescope | app.py:408-423 | n stages give n - 1 drops, which together lose exactly first count - last count users |
| Funnel.MonotoneFunnel | app.py:398-416 | in a funnel of non-negative, non-increasing counts, every drop is 0..100 percent and every stage is 0..100 percent of the base |
| Funnel.ExampleOrder | app.py:383-389 | the configured names are all matched and already in configured order |
| Funnel.ExamplePercentages | app.py:394-401 | 1000, 600, 200 give 100, 60 and 20 percent |
| Funnel.ExampleDrops | app.py:408-423 | 1000, 600, 200 give drops of 400 (40%) and 400 (66.6..%) |
| Funnel.ZeroBaseExample | app.py:400-401 | all-zero counts give 0 percent everywhere |
| Funnel.ComputeFunnel | app.py:370-424 | (None, None, None) for a missing, empty or malformed sheet; otherwise the stages are a permutation of the sheet's. When all names are matched they are in configured order with no warning; otherwise they are in sheet order with the warning. Percentages and drops are those of that ordering |
| Helpers.ShortName | app.py:139-141 | a name that fits is unchanged; a longer one becomes its first maxLen characters and "..." |
| Helpers.BuildShortname | app.py:139-141 | one short name per course, in order: a name that fits is kept, a longer one becomes its first maxLen characters and "...", and none is longer than maxLen + 3 |
| Helpers.ShortNameBounds | app.py:141 | short names are at most maxLen + 3 long, start with the name's prefix, and shortening is idempotent; a name is unchanged iff it fits or is already maxLen characters plus "..." |
| Helpers.ShortNameCollision | app.py:141 | two long names sharing their first maxLen characters get the same short name |
| Helpers.MtimeRoundedMinute | app.py:149-150 | a positive time rounds down to a multiple of 60 within the same minute; any other time gives 0 |
| Helpers.MtimeRoundedMinuteMonotone | app.py:149-150 | rounding is idempotent and monotone |
| Helpers.Trunc | app.py:131 | `int(float(x))` truncates toward zero: never further from 0 than x, and less than 1 away |
| Helpers.ToIntSafe | app.py:127-133 | a missing value gives 0; any other gives the integer toward zero from it and less than 1 away |
| Helpers.GetMetricValue | app.py:167-176 | 0 for a missing or empty sheet, a missing column, or no row naming the metric; otherwise the truncated count of the first such row |
| Helpers.FirstMatch | app.py:171-175 | the count of the first matching row, 0 when none matches |
| Helpers.GetMetricValueIgnoresLaterRows | app.py:175 | rows appended after a matching row do not change the value |
| Helpers.TotalPages | app.py:997 | enough pages for every row, no page more than needed, and exactly 1 page for an empty table |
| Helpers.PageStart | app.py:999 | page 1 starts at row 0 |
| Helpers.PageEnd | app.py:1000 | a page spans exactly one page size of rows and ends where the next page starts; with `RowOnExactlyOnePage`, the pages split the rows without overlap |
| Helpers.PagesInOrder | app.py:999-1000 | an earlier page ends no later than a later page starts, so no row slot is on two pages |
| Helpers.RowOnExactlyOnePage | app.py:997-1000 | every row is shown on exactly one page, and that page is within 1..total pages |
| Helpers.PaginationExample | app.py:995-1001 | 120 rows at the default 50 per page make 3 pages, the last showing rows 101..120; an empty table has 1 page |

## Left out

- Streamlit UI, page styling, tabs, widgets, presets, session state, the password check, Excel loading, file-time reads, caching, and chart and table rendering (app.py:23-48, 182-270, 436-478, 507-1087): presentation, I/O and framework code.
- Date parsing and month-end timestamps. Months are integer ids. A window s..e of month ids stands for the month-end timestamps that `filter_range` compares (app.py:135-137, 162-165).
- The "opportunity" quantile/median heuristic and the `nlargest` top-N selection (app.py:342-350, 727-730): float interpolation and library tie order.
- Rounding and formatting: `round(..., 1)`, `text_label`, `"{:.1f}%"`, `int(round(...))` on KPI values, the `"{:+.1f} pts"` activation delta (app.py:160, 399, 403-405, 419-420, 655-661). Percentages and drops are exact reals.
- The caller's choice of the biggest drop, and everything else downstream of `compute_funnel`.
- Reading the funnel's Stage and All Count columns (app.py:380-381, `Coerce` in funnel.dfy): stage counts are integers. `to_num_series` on fractional counts, and `to_int_safe` truncating a fractional first or maximum count, are not modelled.
- Funnel.Lower: lower-cases ASCII letters only. Python's `str.lower` also folds other scripts.
- Funnel.SortByOrd: the model's insertion sort is stable, pandas' default sort is not. The contracts say only that the result is a permutation in non-decreasing configured order, so they hold for any tie order.
- Aggregate.FilterRange: likewise, the contract does not fix the order of rows that share a month. Aggregate.LastInWindow therefore promises the value of some row with the latest month, not a particular one.
- Aggregate.SumInWindow, Aggregate.LastInWindow: the value column is read as exact reals. Float rounding in the pandas sum is not modelled.
- Helpers.ShortName: maxLen is a natural number. Python would also accept a negative `max_len`.
- Helpers.Trunc: `int(float(x))` on infinities (OverflowError, giving the default 0) is not modelled. Values are finite reals.
- Helpers.GetMetricValue: metric names compare as strings. Cells of other types, and the exceptions that those could raise, are not modelled.
- Helpers.TotalPages: requires a positive page size. The page-size widget allows only 25..200.
- Kpi.SumCard, Kpi.LastCard, Kpi.ActivationCard: the choice between the business and all-user value columns (app.py:644, 649) is made by the caller, which passes the projected sheet.
