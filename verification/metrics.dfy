/**
 The four metric tiles shown above the timeline chart: the current
 total with its change from the previous month, and the classic,
 champion and HPIC-system counts each with its share of the total.
 */
module Metrics {
  import opened Wrappers
  import opened SignedFormat
  import opened Membership

  /** `current_data` and `previous_data`. */
  datatype Snapshot = Snapshot(current: MembershipRow, previous: MembershipRow)

  /**
   The last filtered row is current; the row before it is previous, or
   current itself when only one row survived the filter.
   */
  function TakeSnapshot(filtered: seq<MembershipRow>): (s: Snapshot)
    requires |filtered| > 0
    ensures s.current in filtered && s.previous in filtered
    ensures |filtered| == 1 ==> s.previous == s.current
  {
    var current := filtered[|filtered| - 1];
    var previous := if |filtered| > 1 then filtered[|filtered| - 2] else current;
    Snapshot(current, previous)
  }

  /** `total_change`: how many active members were gained (negative: lost). */
  function TotalChange(s: Snapshot): (change: int)
    ensures s.previous.activeMembers + change == s.current.activeMembers
    ensures s.previous == s.current ==> change == 0
  {
    s.current.activeMembers - s.previous.activeMembers
  }

  /**
   The tile's delta: the change formatted with an explicit sign when it is nonzero,
   no delta at all when it is zero. A shown label carries the sign of the
   change and reads back as exactly the change.
   */
  function DeltaLabel(change: int): (shown: Option<string>)
    ensures shown.Some? <==> change != 0
    ensures shown.Some? ==> ParseSigned(shown.value) == Some(change)
    ensures shown.Some? ==> (shown.value[0] == '+' <==> change > 0)
    ensures shown.Some? ==> (shown.value[0] == '-' <==> change < 0)
  {
    if change != 0 then
      SignedRoundTrip(change);
      Some(FormatSigned(change))
    else None
  }

  /**
   `part / active * 100`, as an exact real: the unique value that,
   multiplied by the total, gives one hundred times the part.
   */
  function Share(part: int, active: int): (pct: real)
    requires active != 0
    ensures pct * (active as real) == (part as real) * 100.0
  {
    (part as real) / (active as real) * 100.0
  }

  /** When two counts split the total, their shares add up to one hundred percent. */
  lemma SharesOfSplitSumToHundred(a: int, b: int, active: int)
    requires active != 0
    requires a + b == active
    ensures Share(a, active) + Share(b, active) == 100.0
  {
    var total := active as real;
    assert Share(a, active) + Share(b, active) == ((a as real) + (b as real)) / total * 100.0;
  }

  /** A part between zero and a positive total has a share between 0 and 100. */
  lemma ShareBounds(part: int, active: int)
    requires 0 <= part <= active
    requires active > 0
    ensures 0.0 <= Share(part, active) <= 100.0
  {
  }

  /** Against a positive total, a larger part never has a smaller share. */
  lemma ShareMonotone(p1: int, p2: int, active: int)
    requires p1 <= p2
    requires active > 0
    ensures Share(p1, active) <= Share(p2, active)
  {
  }

  /** What the four tiles show. */
  datatype Tiles = Tiles(
    totalMembers: int,
    totalChange: int,
    delta: Option<string>,
    classicMembers: int,
    classicShare: real,
    championMembers: int,
    championShare: real,
    hpicMembers: int,
    hpicShare: real)

  /** The tiles for a snapshot whose current month has a nonzero total. */
  function ComputeTiles(s: Snapshot): (t: Tiles)
    requires s.current.activeMembers != 0
    ensures t.totalMembers == s.current.activeMembers
    ensures t.totalMembers - t.totalChange == s.previous.activeMembers
    ensures t.delta.Some? <==> s.current.activeMembers != s.previous.activeMembers
    ensures t.delta == DeltaLabel(t.totalChange)
    ensures t.classicMembers == s.current.classicMembers
    ensures t.championMembers == s.current.championMembers
    ensures t.hpicMembers == s.current.hpicMembers
    ensures t.classicShare * (t.totalMembers as real) == (s.current.classicMembers as real) * 100.0
    ensures t.championShare * (t.totalMembers as real) == (s.current.championMembers as real) * 100.0
    ensures t.hpicShare * (t.totalMembers as real) == (s.current.hpicMembers as real) * 100.0
  {
    var current := s.current;
    var change := TotalChange(s);
    Tiles(
      current.activeMembers,
      change,
      DeltaLabel(change),
      current.classicMembers,
      Share(current.classicMembers, current.activeMembers),
      current.championMembers,
      Share(current.championMembers, current.activeMembers),
      current.hpicMembers,
      Share(current.hpicMembers, current.activeMembers))
  }
}
