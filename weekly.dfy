/** The weekly histogram (`get_weekly_activity`, app.py:374-389).
 *
 *  The records dated from six days before `now` up to `now` (to the
 *  second) have their durations added into a table keyed by weekday; the
 *  table is then read out for the seven weekdays from six days ago to
 *  today. The weekday short name of the code is modelled as the day number
 *  modulo 7, which names the weekdays just as faithfully.
 */
module Weekly {
  import opened Records

  /** `CompletedWorkout.date.between(now - timedelta(days=6), now)`. */
  predicate InWeek(r: Record, now: int) {
    now - 6 * SecondsPerDay <= r.date <= now
  }

  /** `date.strftime('%a')`, as a weekday index. */
  function Weekday(t: int): int {
    DayOf(t) % 7
  }

  /** What the table holds under weekday `wd` once `records` are added. */
  function WeekdayTotal(records: seq<Record>, now: int, wd: int): nat {
    if records == [] then 0
    else
      var r := records[|records| - 1];
      WeekdayTotal(records[..|records| - 1], now, wd)
        + (if InWeek(r, now) && Weekday(r.date) == wd then DurationOrZero(r) else 0)
  }

  /** The list the function returns: the table read at the weekdays of
   *  `now - 6 days`, ..., `now - 1 day`, `now`. */
  function WeeklyActivity(records: seq<Record>, now: int): seq<int> {
    seq(7, k requires 0 <= k < 7 => WeekdayTotal(records, now, Weekday(now - (6 - k) * SecondsPerDay)))
  }

  method GetWeeklyActivity(records: seq<Record>, now: int) returns (activity: seq<int>)
    ensures activity == WeeklyActivity(records, now)
  {
    var daily: map<int, nat> := map[];
    var i := 0;
    while i < |records|
      invariant 0 <= i <= |records|
      invariant forall wd :: Lookup(daily, wd) == WeekdayTotal(records[..i], now, wd)
    {
      var r := records[i];
      assert records[..i + 1][..i] == records[..i];
      if InWeek(r, now) {
        var wd := Weekday(r.date);
        daily := daily[wd := Lookup(daily, wd) + DurationOrZero(r)];
      }
      i := i + 1;
    }
    assert records[..i] == records;
    var days := seq(7, k requires 0 <= k < 7 => Weekday(now - (6 - k) * SecondsPerDay));
    activity := seq(7, k requires 0 <= k < 7 => Lookup(daily, days[k]));
  }

  // ---------------------------------------------------------------------
  // What the histogram means.

  /** Total duration of the records of the window dated on calendar day `day`. */
  function DayTotal(records: seq<Record>, now: int, day: int): nat {
    if records == [] then 0
    else
      var r := records[|records| - 1];
      DayTotal(records[..|records| - 1], now, day)
        + (if InWeek(r, now) && DayOf(r.date) == day then DurationOrZero(r) else 0)
  }

  /** Total non-null duration of the records of the window. */
  function WeekTotal(records: seq<Record>, now: int): nat {
    if records == [] then 0
    else
      var r := records[|records| - 1];
      WeekTotal(records[..|records| - 1], now) + (if InWeek(r, now) then DurationOrZero(r) else 0)
  }

  function SumSeq(s: seq<int>): int {
    if s == [] then 0 else SumSeq(s[..|s| - 1]) + s[|s| - 1]
  }

  /** A record of the window falls on one of the seven days ending today. */
  lemma InWeekDays(r: Record, now: int)
    requires InWeek(r, now)
    ensures DayOf(now) - 6 <= DayOf(r.date) <= DayOf(now)
  {
    DayOfShift(now, -6);
    DayOfMonotone(now - 6 * SecondsPerDay, r.date);
    DayOfMonotone(r.date, now);
  }

  /** Within the window, two dates share a weekday only when they share a day. */
  lemma {:induction false} WeekdayTotalIsDayTotal(records: seq<Record>, now: int, k: int)
    requires 0 <= k < 7
    ensures WeekdayTotal(records, now, Weekday(now - (6 - k) * SecondsPerDay))
         == DayTotal(records, now, DayOf(now) - 6 + k)
  {
    DayOfShift(now, -(6 - k));
    if records != [] {
      var r := records[|records| - 1];
      WeekdayTotalIsDayTotal(records[..|records| - 1], now, k);
      if InWeek(r, now) {
        InWeekDays(r, now);
      }
    }
  }

  /** Bucket k of the result holds the durations of exactly the records
   *  dated k days after the day six days before today. */
  lemma WeeklyActivityByDay(records: seq<Record>, now: int)
    ensures |WeeklyActivity(records, now)| == 7
    ensures forall k :: 0 <= k < 7 ==>
      WeeklyActivity(records, now)[k] == DayTotal(records, now, DayOf(now) - 6 + k)
  {
    forall k | 0 <= k < 7
      ensures WeeklyActivity(records, now)[k] == DayTotal(records, now, DayOf(now) - 6 + k)
    {
      WeeklyActivityAt(records, now, k);
    }
  }

  /** Bucket k, on its own. */
  lemma WeeklyActivityAt(records: seq<Record>, now: int, k: int)
    requires 0 <= k < 7
    ensures WeeklyActivity(records, now)[k] == DayTotal(records, now, DayOf(now) - 6 + k)
  {
    var wd := Weekday(now - (6 - k) * SecondsPerDay);
    assert WeeklyActivity(records, now)[k] == WeekdayTotal(records, now, wd);
    WeekdayTotalIsDayTotal(records, now, k);
  }

  function DayTotals(records: seq<Record>, now: int): seq<int> {
    seq(7, k requires 0 <= k < 7 => DayTotal(records, now, DayOf(now) - 6 + k))
  }

  lemma SumSevenOf(s: seq<int>)
    requires |s| == 7
    ensures SumSeq(s) == s[0] + s[1] + s[2] + s[3] + s[4] + s[5] + s[6]
  {
    assert s[..6][..5] == s[..5] && s[..5][..4] == s[..4] && s[..4][..3] == s[..3];
    assert s[..3][..2] == s[..2] && s[..2][..1] == s[..1] && s[..1][..0] == [];
    assert SumSeq(s[..1]) == s[0];
    assert SumSeq(s[..2]) == s[0] + s[1];
    assert SumSeq(s[..3]) == s[0] + s[1] + s[2];
    assert SumSeq(s[..4]) == s[0] + s[1] + s[2] + s[3];
    assert SumSeq(s[..5]) == s[0] + s[1] + s[2] + s[3] + s[4];
    assert SumSeq(s[..6]) == s[0] + s[1] + s[2] + s[3] + s[4] + s[5];
  }

  lemma {:induction false} DayTotalsSum(records: seq<Record>, now: int)
    ensures SumSeq(DayTotals(records, now)) == WeekTotal(records, now)
  {
    var d := DayTotals(records, now);
    SumSevenOf(d);
    if records != [] {
      var init := records[..|records| - 1];
      var r := records[|records| - 1];
      DayTotalsSum(init, now);
      var e := DayTotals(init, now);
      SumSevenOf(e);
      var base := DayOf(now) - 6;
      var c := seq(7, k requires 0 <= k < 7 =>
        if InWeek(r, now) && DayOf(r.date) == base + k then DurationOrZero(r) else 0);
      forall k | 0 <= k < 7
        ensures d[k] == e[k] + c[k]
      {
        assert d[k] == DayTotal(records, now, base + k);
        assert e[k] == DayTotal(init, now, base + k);
      }
      if InWeek(r, now) {
        InWeekDays(r, now);
        var j := DayOf(r.date) - base;
        assert 0 <= j < 7 && c[j] == DurationOrZero(r);
        assert forall k :: 0 <= k < 7 && k != j ==> c[k] == 0;
        assert c[0] + c[1] + c[2] + c[3] + c[4] + c[5] + c[6] == DurationOrZero(r);
      } else {
        assert forall k :: 0 <= k < 7 ==> c[k] == 0;
      }
      assert WeekTotal(records, now)
          == WeekTotal(init, now) + c[0] + c[1] + c[2] + c[3] + c[4] + c[5] + c[6];
      assert d[0] + d[1] + d[2] + d[3] + d[4] + d[5] + d[6]
          == e[0] + e[1] + e[2] + e[3] + e[4] + e[5] + e[6]
           + (c[0] + c[1] + c[2] + c[3] + c[4] + c[5] + c[6]);
      assert SumSeq(e) == WeekTotal(init, now);
    } else {
      forall k | 0 <= k < 7
        ensures d[k] == 0
      {
        assert d[k] == DayTotal(records, now, DayOf(now) - 6 + k);
      }
    }
  }

  /** The histogram has seven buckets and adds up to the total non-null
   *  duration of the records of the window. */
  lemma WeeklyActivitySum(records: seq<Record>, now: int)
    ensures |WeeklyActivity(records, now)| == 7
    ensures SumSeq(WeeklyActivity(records, now)) == WeekTotal(records, now)
  {
    assert WeeklyActivity(records, now) == DayTotals(records, now) by {
      WeeklyActivityByDay(records, now);
    }
    DayTotalsSum(records, now);
  }
}
