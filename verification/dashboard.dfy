/**
 The metrics step of `main()`: filter the timeline by the selected range,
 stop with a "no data" warning when nothing survives, otherwise take the
 current/previous snapshot and compute the four tiles. The filtered rows
 are also what the timeline chart plots.
 */
module Dashboard {
  import opened Wrappers
  import opened Dates
  import opened Selection
  import opened Membership
  import opened DateFilter
  import opened Metrics

  datatype View =
    | NoData
    | Shown(chartRows: seq<MembershipRow>, snapshot: Snapshot, tiles: Tiles)

  /**
   The tiles divide by the current month's total; the dashboard does not
   define what it shows when that total is zero.
   */
  predicate CurrentTotalNonzero(rows: seq<MembershipRow>, start: Date, end: Date) {
    var filtered := Filter(rows, start, end);
    |filtered| == 0 || filtered[|filtered| - 1].activeMembers != 0
  }

  /** One pass of `main()` past data loading, for the selected `[start, end]`. */
  function Render(rows: seq<MembershipRow>, start: Date, end: Date): (v: View)
    requires CurrentTotalNonzero(rows, start, end)
    ensures v.NoData? <==> forall i :: 0 <= i < |rows| ==> !RowInRange(rows[i], start, end)
    ensures v.Shown? ==> v.chartRows == Filter(rows, start, end)
  {
    FilterEmptyIff(rows, start, end);
    var filtered := Filter(rows, start, end);
    if |filtered| == 0 then NoData
    else
      var s := TakeSnapshot(filtered);
      Shown(filtered, s, ComputeTiles(s))
  }

  /**
   The current month is the table's last in-range row by position: the
   dashboard takes the last filtered row and does not sort.
   */
  lemma CurrentIsLastInRange(rows: seq<MembershipRow>, start: Date, end: Date)
    requires CurrentTotalNonzero(rows, start, end)
    ensures Render(rows, start, end).Shown? <==> LastInRangeIndex(rows, start, end).Some?
    ensures Render(rows, start, end).Shown? ==>
              Render(rows, start, end).snapshot.current == rows[LastInRangeIndex(rows, start, end).value]
  {
    FilterIsSubsequence(rows, start, end);
    LastOfInRangeIndices(rows, start, end);
  }

  /**
   The previous month is the in-range row just before the current one in
   table order when at least two rows are in range, and the current row
   itself otherwise.
   */
  lemma PreviousIsSecondLastInRange(rows: seq<MembershipRow>, start: Date, end: Date)
    requires CurrentTotalNonzero(rows, start, end)
    ensures var idx := InRangeIndices(rows, start, end);
            var v := Render(rows, start, end);
            && (v.Shown? && |idx| >= 2 ==> idx[|idx| - 2] < |rows| && v.snapshot.previous == rows[idx[|idx| - 2]])
            && (v.Shown? && |idx| == 1 ==> v.snapshot.previous == v.snapshot.current)
  {
    FilterIsSubsequence(rows, start, end);
  }

  /** With exactly one row in range the change is zero and no delta is shown. */
  lemma SingleRowHasNoDelta(rows: seq<MembershipRow>, start: Date, end: Date)
    requires CurrentTotalNonzero(rows, start, end)
    requires |InRangeIndices(rows, start, end)| == 1
    ensures Render(rows, start, end).Shown?
    ensures Render(rows, start, end).tiles.totalChange == 0
    ensures Render(rows, start, end).tiles.delta == None
  {
    FilterIsSubsequence(rows, start, end);
  }

  /**
   The delta appears exactly when the total moved between the two months
   in range that are compared, carrying the sign and the size of the move.
   */
  lemma DeltaShownIffChanged(rows: seq<MembershipRow>, start: Date, end: Date)
    requires CurrentTotalNonzero(rows, start, end)
    requires Render(rows, start, end).Shown?
    ensures var v := Render(rows, start, end);
            var change := v.snapshot.current.activeMembers - v.snapshot.previous.activeMembers;
            && (v.tiles.delta.Some? <==> change != 0)
            && (v.tiles.delta.Some? ==> SignedFormat.ParseSigned(v.tiles.delta.value) == Some(change))
            && (v.tiles.delta.Some? ==> (v.tiles.delta.value[0] == '+' <==> change > 0))
  {
  }

  /**
   On a table in ascending month order, the current month is the latest
   in-range month and the previous month is not later than it.
   */
  lemma SortedCurrentIsLatest(rows: seq<MembershipRow>, start: Date, end: Date)
    requires CurrentTotalNonzero(rows, start, end)
    requires SortedByMonth(rows)
    requires Render(rows, start, end).Shown?
    ensures var s := Render(rows, start, end).snapshot;
            && RowInRange(s.current, start, end)
            && RowInRange(s.previous, start, end)
            && StampLe(s.previous.monthStart, s.current.monthStart)
            && forall i :: 0 <= i < |rows| && RowInRange(rows[i], start, end) ==>
                 StampLe(rows[i].monthStart, s.current.monthStart)
  {
    CurrentIsLastInRange(rows, start, end);
    FilterIsSubsequence(rows, start, end);
    var last := LastInRangeIndex(rows, start, end).value;
    var idx := InRangeIndices(rows, start, end);
    var filtered := Filter(rows, start, end);
    assert filtered[|filtered| - 1] == rows[last];
    if |filtered| > 1 {
      assert idx[|idx| - 2] < idx[|idx| - 1];
    }
    forall i | 0 <= i < |rows| && RowInRange(rows[i], start, end)
      ensures StampLe(rows[i].monthStart, rows[last].monthStart)
    {
      if i != last {
        assert i < last;
      }
    }
  }

  /**
   With the picker's default bounds on a nonempty table, the chart shows
   the whole table and the current month is its last row.
   */
  lemma DefaultBoundsShowWholeTable(rows: seq<MembershipRow>)
    requires |rows| > 0
    requires rows[|rows| - 1].activeMembers != 0
    ensures CurrentTotalNonzero(rows, MinDate(rows), MaxDate(rows))
    ensures Render(rows, MinDate(rows), MaxDate(rows)).Shown?
    ensures Render(rows, MinDate(rows), MaxDate(rows)).chartRows == rows
    ensures Render(rows, MinDate(rows), MaxDate(rows)).snapshot.current == rows[|rows| - 1]
  {
    FilterDefaultBoundsIsIdentity(rows);
  }

  /** A reversed range, or one wholly outside the table's span, shows the warning. */
  lemma OutOfSpanShowsNoData(rows: seq<MembershipRow>, start: Date, end: Date)
    requires DateLt(end, start) || (|rows| > 0 && (DateLt(end, MinDate(rows)) || DateLt(MaxDate(rows), start)))
    ensures CurrentTotalNonzero(rows, start, end)
    ensures Render(rows, start, end) == NoData
  {
    if DateLt(end, start) {
      FilterEmptyWhenStartAfterEnd(rows, start, end);
    } else {
      FilterEmptyOutsideSpan(rows, start, end);
    }
  }

  /**
   When the current month's classic and champion counts split its total,
   the two tier shares on the tiles add up to one hundred percent.
   */
  lemma TierSharesSumToHundred(rows: seq<MembershipRow>, start: Date, end: Date)
    requires CurrentTotalNonzero(rows, start, end)
    requires Render(rows, start, end).Shown?
    requires var c := Render(rows, start, end).snapshot.current;
             c.classicMembers + c.championMembers == c.activeMembers
    ensures Render(rows, start, end).tiles.classicShare + Render(rows, start, end).tiles.championShare == 100.0
  {
    var c := Render(rows, start, end).snapshot.current;
    SharesOfSplitSumToHundred(c.classicMembers, c.championMembers, c.activeMembers);
  }
}
