# HPIC membership dashboard: the metrics step, in Dafny

The HPIC Membership Dashboard is a Streamlit page. It reads a monthly
membership timeline (one row per month with `month_start`, `active_members`,
`classic_members`, `champion_members`, `hpic_members` and `pmp_members`). It
lets the visitor pick a start and an end date, and shows four metric tiles
above a timeline chart. This project models the logic between loading and
drawing, which the program writes inline in `main()`:

1. **Date-range filter.** A row is kept when the calendar date of its
   `month_start` lies in `[start_date, end_date]`, inclusive at both ends.
   The kept rows are taken with a boolean mask, in table order.
2. **Empty range.** When no row survives, a "no data" warning replaces the
   metrics and the chart.
3. **Snapshot and delta.** The last kept row is the current month. The
   previous month is the row before it, or the current row itself when only
   one row was kept. The "Total Members" tile shows the change in
   `active_members` as a signed label (`:+d`), only when the change is nonzero.
4. **Shares.** The classic, champion and HPIC-system counts of the current
   month are each shown as a percentage of its `active_members`.

Modules, in dependency order:

- `Dates` (`dates.dfy`): calendar dates compared field by field, as Python's
  `datetime.date` compares them. Timestamps carry a date plus a time of day.
  The day ordinal of `date.toordinal()` is proved to give the same order on
  valid dates.
- `Wrappers`, `SignedFormat` (`signed_format.dfy`): `Option`, and
  `format(n, '+d')` with a parser that reads the label back.
- `Selection` (`selection.dfy`): boolean-mask indexing (`df[mask]`) and the
  increasing list of selected positions that describes it.
- `Membership` (`membership.dfy`): the row datatype, ascending month order,
  and the column minimum and maximum that seed the date pickers.
- `DateFilter` (`date_filter.dfy`): the inclusive range filter and its
  properties.
- `Metrics` (`metrics.dfy`): the snapshot, the change, the delta label,
  the shares and the four tiles.
- `Dashboard` (`dashboard.dfy`): one pass of `main()` after loading, from the
  table and the selected range to either the warning or the tiles and chart
  rows.

The start and end dates are parameters. Loading, widgets and drawing are
outside the model (see "Left out").

## Model

| member | source | states |
|---|---|---|
| Dates.DateLeIffOrdinalLe | hpic_dashboard_public.py:79 | On valid dates, the field-by-field date comparison the filter uses holds exactly when the day ordinals compare the same way, so the bounds are chronological |
| Dates.DateLeTotalOrder | hpic_dashboard_public.py:79 | The date comparison is reflexive, total, antisymmetric and transitive |
| Membership.MinDate | hpic_dashboard_public.py:61 | The default start date is the date of some row and no row's date is earlier |
| Membership.MaxDate | hpic_dashboard_public.py:62 | The default end date is the date of some row and no row's date is later |
| Dates.StampLeDate | hpic_dashboard_public.py:61-62 | Taking the date of a timestamp keeps the order, so the date of the earliest timestamp is the earliest date |
| Membership.EarliestStamp | hpic_dashboard_public.py:61 | The column minimum is the `month_start` of some row and is at or before every row's `month_start` |
| Membership.LatestStamp | hpic_dashboard_public.py:62 | The column maximum is the `month_start` of some row and is at or after every row's `month_start` |
| Selection.Select | hpic_dashboard_public.py:80 | Mask indexing returns as many rows as the mask has true entries |
| Selection.SelectByIndices | hpic_dashboard_public.py:80 | The k-th row that mask indexing returns is the source row at the k-th true position; there are as many results as true entries |
| Selection.TrueIndices | hpic_dashboard_public.py:80 | The selected positions strictly increase, each is a true position, and every true position is among them |
| Selection.SelectMembership | hpic_dashboard_public.py:80 | A value is in the selection exactly when it sits at some true position of the source |
| Selection.SelectAllTrue | hpic_dashboard_public.py:80 | An all-true mask returns the table unchanged |
| Selection.SelectEmptyIff | hpic_dashboard_public.py:80-82 | The selection is empty exactly when the mask has no true entry |
| DateFilter.Mask | hpic_dashboard_public.py:79 | The mask has one entry per row, true exactly when the row's date is at or after the start date and at or before the end date |
| DateFilter.Filter | hpic_dashboard_public.py:79-80 | The filtered table has one row per true mask entry, never more rows than the table, and every row in it is dated within `[start, end]` |
| DateFilter.FilterKeepsExactlyInRange | hpic_dashboard_public.py:79-80 | Every kept row is a table row whose date lies in `[start, end]`, and a table row is kept exactly when its date lies in that range |
| DateFilter.FilterIsSubsequence | hpic_dashboard_public.py:79-80 | The filtered table is the table read at strictly increasing positions, which are exactly the in-range positions: order kept, nothing changed or duplicated |
| DateFilter.FilterDefaultBoundsIsIdentity | hpic_dashboard_public.py:61-80 | With the pickers' default values, the earliest and latest dates of a nonempty table, the filter returns the whole table |
| DateFilter.FilterEmptyIff | hpic_dashboard_public.py:79-82 | The filtered table is empty exactly when no row's date is in range |
| DateFilter.FilterEmptyWhenStartAfterEnd | hpic_dashboard_public.py:79-80 | A start date after the end date keeps no row |
| DateFilter.FilterEmptyOutsideSpan | hpic_dashboard_public.py:61-80 | A range ending before the earliest date or starting after the latest date keeps no row |
| DateFilter.FilterIdempotent | hpic_dashboard_public.py:79-80 | Filtering the filtered table by the same range changes nothing |
| DateFilter.SortedInRangeBetween | hpic_dashboard_public.py:79 | On a table in month order, a row lying between two in-range rows is itself in range |
| DateFilter.SortedInRangeIndicesConsecutive | hpic_dashboard_public.py:79-80 | On a table in month order, consecutive in-range positions are adjacent table positions |
| DateFilter.SortedFilterIsSlice | hpic_dashboard_public.py:79-80 | On a table in month order, the filtered table is one contiguous slice of the table |
| DateFilter.LastInRangeIndex | hpic_dashboard_public.py:87 | Reference definition of the current row's position: an in-range position with no in-range row after it, or none when no row is in range |
| DateFilter.LastOfInRangeIndices | hpic_dashboard_public.py:87 | The reference last in-range position is the last of the filter's selected positions, and exists exactly when some position is selected |
| SignedFormat.Digits | hpic_dashboard_public.py:97 | The magnitude is written as at least one decimal digit, with a leading zero only for zero itself |
| SignedFormat.DigitsRoundTrip | hpic_dashboard_public.py:97 | Reading the digits of a magnitude back gives the magnitude |
| SignedFormat.FormatSigned | hpic_dashboard_public.py:97 | The `:+d` label starts with `+` for zero and positive changes and `-` for negative ones, followed by digits only |
| SignedFormat.SignedRoundTrip | hpic_dashboard_public.py:97 | Parsing a `:+d` label gives back the change it was made from |
| SignedFormat.FormatSignedInjective | hpic_dashboard_public.py:97 | Two different changes never get the same label |
| Metrics.TakeSnapshot | hpic_dashboard_public.py:87-88 | Current and previous are both kept rows, and with one kept row previous is current; that current is the last kept row and previous the one before it is proved of the whole pass in `Dashboard.CurrentIsLastInRange` and `Dashboard.PreviousIsSecondLastInRange` |
| Metrics.TotalChange | hpic_dashboard_public.py:93 | The change added to the previous month's total gives the current month's total, and it is zero when previous is current |
| Metrics.DeltaLabel | hpic_dashboard_public.py:93-97 | A delta is shown exactly when the change is nonzero; it starts with `+` exactly for a gain and `-` exactly for a loss, and parses back to the change |
| Metrics.Share | hpic_dashboard_public.py:101 | The share times the total equals one hundred times the part |
| Metrics.SharesOfSplitSumToHundred | hpic_dashboard_public.py:101-109 | Two counts that split the total have shares adding up to exactly 100 |
| Metrics.ShareBounds | hpic_dashboard_public.py:101 | A part between zero and a positive total has a share between 0 and 100 |
| Metrics.ShareMonotone | hpic_dashboard_public.py:101 | Against a positive total, a larger part never has a smaller share |
| Metrics.ComputeTiles | hpic_dashboard_public.py:90-122 | The tiles show the current total, a change that takes it back to the previous total, the delta label of that change (present only when the totals differ), the current classic, champion and HPIC counts, and each of those counts' share of the current total |
| Dashboard.Render | hpic_dashboard_public.py:78-88 | The warning is shown exactly when no row's date is in range; otherwise the chart gets the filtered table |
| Dashboard.CurrentIsLastInRange | hpic_dashboard_public.py:87 | Tiles are shown exactly when some row is in range, and the current row is the last in-range row by table position, with no sorting |
| Dashboard.PreviousIsSecondLastInRange | hpic_dashboard_public.py:88 | With two or more rows in range the previous row is the second-to-last in-range row by position; with one it is the current row |
| Dashboard.SingleRowHasNoDelta | hpic_dashboard_public.py:88-97 | With exactly one row in range the tiles are shown, the change is 0 and no delta appears |
| Dashboard.DeltaShownIffChanged | hpic_dashboard_public.py:93-97 | The delta appears exactly when current and previous totals differ, and then carries the sign and size of the change |
| Dashboard.SortedCurrentIsLatest | hpic_dashboard_public.py:87-88 | On a table in ascending month order, current and previous are in range, previous is not later than current, and no in-range month is later than current |
| Dashboard.DefaultBoundsShowWholeTable | hpic_dashboard_public.py:61-88 | With the default bounds on a nonempty table, the tiles are shown, the chart gets the whole table and the current row is the table's last row |
| Dashboard.OutOfSpanShowsNoData | hpic_dashboard_public.py:61-84 | A reversed range, or one wholly before or after the table's dates, shows the warning |
| Dashboard.TierSharesSumToHundred | hpic_dashboard_public.py:100-114 | When classic and champion counts split the current total, the two tier shares on the tiles add up to 100 |

## Left out

- Data loading (hpic_dashboard_public.py:25-45): choosing the CSV path, reading it, parsing `month_start`, the one-hour cache and the error-and-stop path are file I/O and library calls. The model starts from the parsed table.
- The date pickers (hpic_dashboard_public.py:64-76): the widget's default values are modelled as `MinDate`/`MaxDate`. Clamping a typed date into `[min_date, max_date]` is widget behaviour and is not modelled. Any start and end dates are accepted as parameters.
- Page output: titles, columns, `st.metric`, the warning text, the expander and the footer. The footer's `datetime.now()` reads the wall clock.
- The Plotly timeline (hpic_dashboard_public.py:131-179) is chart configuration. The model only states which rows it plots.
- Thousands separators on the counts and one-decimal rounding of the percentages are display formatting. The `:+d` delta label is modelled.
- Share: exact real division, not IEEE double arithmetic. The shares can differ from the float values the page rounds.
- Share: requires a nonzero `active_members`. The page does not guard this division. What it shows for a zero total depends on whether pandas hands back NumPy integers (infinite or NaN percentages) or Python integers (a `ZeroDivisionError`), and neither is visible in the code.
- Render: requires the current month's total to be nonzero (`CurrentTotalNonzero`), for the same reason as `Share`.
- ComputeTiles: requires the current month's total to be nonzero, for the same reason as `Share`.
- Counts are unbounded integers. The int64 wrap-around of a NumPy subtraction cannot happen with membership counts.
- An empty table: `min()`/`max()` of an empty column give NaT and the pickers cannot be built. `MinDate`/`MaxDate` require a nonempty table.
- `pmp_members` is carried in the row but this page never reads it.
- This page computes no revenue totals and no growth figures (peak, average growth, six-month growth).
- Time zones on timestamps and missing (NaT) dates are not modelled.
