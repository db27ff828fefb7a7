/**
 The sidebar date-range filter: a row is kept when the calendar date of
 its `month_start` is at or after the selected start date and at or
 before the selected end date. Both ends are inclusive and only the date
 is compared, so the time of day a timestamp carries never matters. The
 kept rows are taken with a boolean mask, in table order.
 */
module DateFilter {
  import opened Wrappers
  import opened Dates
  import opened Selection
  import opened Membership

  /** `start <= d <= end`, both ends inclusive. */
  predicate InRange(d: Date, start: Date, end: Date) {
    DateLe(start, d) && DateLe(d, end)
  }

  predicate RowInRange(row: MembershipRow, start: Date, end: Date) {
    InRange(row.monthStart.date, start, end)
  }

  /** The boolean mask, one entry per row. */
  function Mask(rows: seq<MembershipRow>, start: Date, end: Date): (mask: seq<bool>)
    ensures |mask| == |rows|
    ensures forall i :: 0 <= i < |rows| ==> (mask[i] <==> RowInRange(rows[i], start, end))
  {
    seq(|rows|, i requires 0 <= i < |rows| => RowInRange(rows[i], start, end))
  }

  /** `timeline_df[mask]`. */
  function Filter(rows: seq<MembershipRow>, start: Date, end: Date): (r: seq<MembershipRow>)
    ensures |r| == CountTrue(Mask(rows, start, end)) <= |rows|
    ensures forall k :: 0 <= k < |r| ==> RowInRange(r[k], start, end)
  {
    var mask := Mask(rows, start, end);
    SelectByIndices(rows, mask);
    Select(rows, mask)
  }

  /** The positions of the rows that survive, in increasing order. */
  function InRangeIndices(rows: seq<MembershipRow>, start: Date, end: Date): (idx: seq<nat>) {
    TrueIndices(Mask(rows, start, end))
  }

  /**
   Every surviving row is a row of the table whose date lies in
   `[start, end]`, and a row of the table survives exactly when its date
   lies in that range.
   */
  lemma FilterKeepsExactlyInRange(rows: seq<MembershipRow>, start: Date, end: Date)
    ensures forall x :: x in Filter(rows, start, end) ==> x in rows && RowInRange(x, start, end)
    ensures forall i :: 0 <= i < |rows| ==>
              (rows[i] in Filter(rows, start, end) <==> RowInRange(rows[i], start, end))
  {
    var mask := Mask(rows, start, end);
    forall x | x in Filter(rows, start, end)
      ensures x in rows && RowInRange(x, start, end)
    {
      SelectMembership(rows, mask, x);
    }
    forall i | 0 <= i < |rows|
      ensures rows[i] in Filter(rows, start, end) <==> RowInRange(rows[i], start, end)
    {
      SelectMembership(rows, mask, rows[i]);
    }
  }

  /**
   The filter result is an order-preserving subsequence of the table: its
   k-th row is the table's row at the k-th in-range position, the
   positions strictly increase (no reordering, no duplication), and they
   are exactly the positions whose date is in range.
   */
  lemma FilterIsSubsequence(rows: seq<MembershipRow>, start: Date, end: Date)
    ensures StrictlyIncreasing(InRangeIndices(rows, start, end))
    ensures |Filter(rows, start, end)| == |InRangeIndices(rows, start, end)|
    ensures forall k :: 0 <= k < |Filter(rows, start, end)| ==>
              InRangeIndices(rows, start, end)[k] < |rows|
              && Filter(rows, start, end)[k] == rows[InRangeIndices(rows, start, end)[k]]
    ensures forall i :: 0 <= i < |rows| ==>
              (i in InRangeIndices(rows, start, end) <==> RowInRange(rows[i], start, end))
  {
    SelectByIndices(rows, Mask(rows, start, end));
  }

  /**
   With the picker's default bounds, the earliest and the latest date of
   the table, nothing is filtered out.
   */
  lemma FilterDefaultBoundsIsIdentity(rows: seq<MembershipRow>)
    requires |rows| > 0
    ensures Filter(rows, MinDate(rows), MaxDate(rows)) == rows
  {
    var mask := Mask(rows, MinDate(rows), MaxDate(rows));
    forall i | 0 <= i < |rows|
      ensures mask[i]
    {
      StampLeDate(EarliestStamp(rows), rows[i].monthStart);
      StampLeDate(rows[i].monthStart, LatestStamp(rows));
    }
    SelectAllTrue(rows, mask);
  }

  /** The result is empty exactly when no row's date is in range. */
  lemma FilterEmptyIff(rows: seq<MembershipRow>, start: Date, end: Date)
    ensures Filter(rows, start, end) == [] <==>
              forall i :: 0 <= i < |rows| ==> !RowInRange(rows[i], start, end)
  {
    var mask := Mask(rows, start, end);
    SelectEmptyIff(rows, mask);
    assert forall i :: 0 <= i < |rows| ==> (mask[i] <==> RowInRange(rows[i], start, end));
  }

  /** A reversed range (`start > end`) selects nothing. */
  lemma FilterEmptyWhenStartAfterEnd(rows: seq<MembershipRow>, start: Date, end: Date)
    requires DateLt(end, start)
    ensures Filter(rows, start, end) == []
  {
    forall i | 0 <= i < |rows|
      ensures !RowInRange(rows[i], start, end)
    {
      var d := rows[i].monthStart.date;
      if RowInRange(rows[i], start, end) {
        DateLeTotalOrder(start, d, end);
        DateLeTotalOrder(end, start, start);
      }
    }
    FilterEmptyIff(rows, start, end);
  }

  /** A range entirely before or entirely after the table's span selects nothing. */
  lemma FilterEmptyOutsideSpan(rows: seq<MembershipRow>, start: Date, end: Date)
    requires |rows| > 0
    requires DateLt(end, MinDate(rows)) || DateLt(MaxDate(rows), start)
    ensures Filter(rows, start, end) == []
  {
    forall i | 0 <= i < |rows|
      ensures !RowInRange(rows[i], start, end)
    {
      var d := rows[i].monthStart.date;
      StampLeDate(EarliestStamp(rows), rows[i].monthStart);
      StampLeDate(rows[i].monthStart, LatestStamp(rows));
      if RowInRange(rows[i], start, end) {
        DateLeTotalOrder(MinDate(rows), d, end);
        DateLeTotalOrder(end, MinDate(rows), MinDate(rows));
        DateLeTotalOrder(start, d, MaxDate(rows));
        DateLeTotalOrder(MaxDate(rows), start, start);
      }
    }
    FilterEmptyIff(rows, start, end);
  }

  /** Filtering an already filtered table by the same range changes nothing. */
  lemma FilterIdempotent(rows: seq<MembershipRow>, start: Date, end: Date)
    ensures Filter(Filter(rows, start, end), start, end) == Filter(rows, start, end)
  {
    var once := Filter(rows, start, end);
    FilterKeepsExactlyInRange(rows, start, end);
    var mask := Mask(once, start, end);
    assert forall i :: 0 <= i < |once| ==> once[i] in once;
    SelectAllTrue(once, mask);
  }

  /**
   Reference definition: the position of the last row, in table order,
   whose date is in range; `None` when there is none.
   */
  function LastInRangeIndex(rows: seq<MembershipRow>, start: Date, end: Date): (r: Option<nat>)
    ensures r.Some? ==> r.value < |rows| && RowInRange(rows[r.value], start, end)
    ensures r.Some? ==> forall j :: r.value < j < |rows| ==> !RowInRange(rows[j], start, end)
    ensures r.None? ==> forall j :: 0 <= j < |rows| ==> !RowInRange(rows[j], start, end)
    decreases |rows|
  {
    if |rows| == 0 then None
    else if RowInRange(rows[|rows| - 1], start, end) then Some(|rows| - 1)
    else LastInRangeIndex(rows[..|rows| - 1], start, end)
  }

  /** The last in-range position is the last entry of `InRangeIndices`. */
  lemma {:induction false} LastOfInRangeIndices(rows: seq<MembershipRow>, start: Date, end: Date)
    ensures LastInRangeIndex(rows, start, end).None? <==> |InRangeIndices(rows, start, end)| == 0
    ensures LastInRangeIndex(rows, start, end).Some? ==>
              var idx := InRangeIndices(rows, start, end);
              LastInRangeIndex(rows, start, end).value == idx[|idx| - 1]
    decreases |rows|
  {
    var mask := Mask(rows, start, end);
    if |rows| > 0 {
      var init := rows[..|rows| - 1];
      assert mask[..|mask| - 1] == Mask(init, start, end);
      LastOfInRangeIndices(init, start, end);
    }
  }
  /** On a table in month order, a row between two in-range rows is in range too. */
  lemma SortedInRangeBetween(rows: seq<MembershipRow>, start: Date, end: Date, i: nat, j: nat, k: nat)
    requires SortedByMonth(rows)
    requires i <= j <= k < |rows|
    requires RowInRange(rows[i], start, end) && RowInRange(rows[k], start, end)
    ensures RowInRange(rows[j], start, end)
  {
    var di, dj, dk := rows[i].monthStart.date, rows[j].monthStart.date, rows[k].monthStart.date;
    if i < j {
      StampLeDate(rows[i].monthStart, rows[j].monthStart);
    }
    if j < k {
      StampLeDate(rows[j].monthStart, rows[k].monthStart);
    }
    DateLeTotalOrder(start, di, dj);
    DateLeTotalOrder(dj, dk, end);
  }

  /** On a table in month order, the in-range positions are consecutive. */
  lemma SortedInRangeIndicesConsecutive(rows: seq<MembershipRow>, start: Date, end: Date)
    requires SortedByMonth(rows)
    ensures var idx := InRangeIndices(rows, start, end);
            forall k :: 0 <= k < |idx| - 1 ==> idx[k + 1] == idx[k] + 1
  {
    FilterIsSubsequence(rows, start, end);
    var idx := InRangeIndices(rows, start, end);
    forall k | 0 <= k < |idx| - 1
      ensures idx[k + 1] == idx[k] + 1
    {
      assert idx[k] < idx[k + 1];
      if idx[k] + 1 < idx[k + 1] {
        var j := idx[k] + 1;
        SortedInRangeBetween(rows, start, end, idx[k], j, idx[k + 1]);
        assert false;
      }
    }
  }

  /**
   On a table in ascending month order the selected range is one
   contiguous run of months: the filtered table is a slice of the table.
   */
  lemma SortedFilterIsSlice(rows: seq<MembershipRow>, start: Date, end: Date)
    requires SortedByMonth(rows)
    ensures exists lo, hi :: 0 <= lo <= hi <= |rows| && Filter(rows, start, end) == rows[lo..hi]
  {
    FilterIsSubsequence(rows, start, end);
    var filtered := Filter(rows, start, end);
    var idx := InRangeIndices(rows, start, end);
    if |idx| == 0 {
      assert filtered == rows[0..0];
    } else {
      SortedInRangeIndicesConsecutive(rows, start, end);
      ContiguousIndices(idx);
      var lo := idx[0];
      var hi := lo + |idx|;
      assert idx[|idx| - 1] < |rows|;
      assert filtered == rows[lo..hi];
    }
  }

  /** Consecutive entries one apart: the k-th entry is the first plus k. */
  lemma {:induction false} ContiguousIndices(idx: seq<nat>)
    requires |idx| > 0
    requires forall k :: 0 <= k < |idx| - 1 ==> idx[k + 1] == idx[k] + 1
    ensures forall k :: 0 <= k < |idx| ==> idx[k] == idx[0] + k
    decreases |idx|
  {
    if |idx| > 1 {
      var init := idx[..|idx| - 1];
      assert forall k :: 0 <= k < |init| - 1 ==> init[k + 1] == init[k] + 1;
      ContiguousIndices(init);
      assert idx[|idx| - 1] == init[|init| - 1] + 1;
    }
  }
}
