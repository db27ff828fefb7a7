/**
 The membership timeline: one row per month, as loaded from
 `membership_timeline.csv` with `month_start` parsed into a timestamp.
 */
module Membership {
  import opened Dates

  /**
   One month of aggregated counts. `classicMembers` and `championMembers`
   split `activeMembers` by tier, `hpicMembers` and `pmpMembers` split it
   by source system; the dashboard assumes these splits but never checks
   them, so the datatype does not enforce them either.
   */
  datatype MembershipRow = MembershipRow(
    monthStart: Timestamp,
    activeMembers: int,
    classicMembers: int,
    championMembers: int,
    hpicMembers: int,
    pmpMembers: int)

  /** The table is in ascending `month_start` order. */
  predicate SortedByMonth(rows: seq<MembershipRow>) {
    forall i, j :: 0 <= i < j < |rows| ==> StampLe(rows[i].monthStart, rows[j].monthStart)
  }

  /** `timeline_df['month_start'].min()`. */
  function EarliestStamp(rows: seq<MembershipRow>): (t: Timestamp)
    requires |rows| > 0
    ensures exists i :: 0 <= i < |rows| && rows[i].monthStart == t
    ensures forall i :: 0 <= i < |rows| ==> StampLe(t, rows[i].monthStart)
    decreases |rows|
  {
    if |rows| == 1 then rows[0].monthStart
    else
      var rest := EarliestStamp(rows[1..]);
      assert forall i :: 1 <= i < |rows| ==> rows[i] == rows[1..][i - 1];
      if StampLe(rows[0].monthStart, rest) then rows[0].monthStart else rest
  }

  /** `timeline_df['month_start'].max()`. */
  function LatestStamp(rows: seq<MembershipRow>): (t: Timestamp)
    requires |rows| > 0
    ensures exists i :: 0 <= i < |rows| && rows[i].monthStart == t
    ensures forall i :: 0 <= i < |rows| ==> StampLe(rows[i].monthStart, t)
    decreases |rows|
  {
    if |rows| == 1 then rows[0].monthStart
    else
      var rest := LatestStamp(rows[1..]);
      assert forall i :: 1 <= i < |rows| ==> rows[i] == rows[1..][i - 1];
      if StampLe(rest, rows[0].monthStart) then rows[0].monthStart else rest
  }

  /** `min_date`, the default start of the range picker. */
  function MinDate(rows: seq<MembershipRow>): (d: Date)
    requires |rows| > 0
    ensures exists i :: 0 <= i < |rows| && rows[i].monthStart.date == d
    ensures forall i :: 0 <= i < |rows| ==> DateLe(d, rows[i].monthStart.date)
  {
    var t := EarliestStamp(rows);
    assert forall i :: 0 <= i < |rows| ==> DateLe(t.date, rows[i].monthStart.date) by {
      forall i | 0 <= i < |rows| {
        StampLeDate(t, rows[i].monthStart);
      }
    }
    t.date
  }

  /** `max_date`, the default end of the range picker. */
  function MaxDate(rows: seq<MembershipRow>): (d: Date)
    requires |rows| > 0
    ensures exists i :: 0 <= i < |rows| && rows[i].monthStart.date == d
    ensures forall i :: 0 <= i < |rows| ==> DateLe(rows[i].monthStart.date, d)
  {
    var t := LatestStamp(rows);
    assert forall i :: 0 <= i < |rows| ==> DateLe(rows[i].monthStart.date, t.date) by {
      forall i | 0 <= i < |rows| {
        StampLeDate(rows[i].monthStart, t);
      }
    }
    t.date
  }
}
