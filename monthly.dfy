/** The monthly aggregator (`get_monthly_stats`, app.py:355-372): the
 *  records dated from the first to the last second of the current month,
 *  counted, with their durations and calories summed.
 */
module Monthly {
  import opened Records
  import opened Calendar

  datatype MonthStats = MonthStats(totalDuration: nat, totalCalories: nat, totalWorkouts: nat)

  /** `start_date`: midnight on the first day of the month of `now`. */
  function MonthStart(now: DateTime): int
    requires ValidDateTime(now)
  {
    Ordinal(now.year, now.month, 1) * SecondsPerDay
  }

  /** `end_date`: the first day of the next month, one second earlier. The
   *  code reaches the next month by adding 32 days to the first of this
   *  month and resetting the day to 1; `ThirtyTwoDaysLater` shows that this
   *  is the first day of the next month. */
  function MonthEnd(now: DateTime): int
    requires ValidDateTime(now)
  {
    var (ny, nm) := NextMonth(now.year, now.month);
    Ordinal(ny, nm, 1) * SecondsPerDay - 1
  }

  /** `CompletedWorkout.date.between(start_date, end_date)`, inclusive. */
  predicate InMonth(r: Record, now: DateTime)
    requires ValidDateTime(now)
  {
    MonthStart(now) <= r.date <= MonthEnd(now)
  }

  /** The window contains `now`, spans exactly the days of its month, and
   *  its two ends are the first and the last second of that month. */
  lemma MonthWindow(now: DateTime)
    requires ValidDateTime(now)
    ensures MonthStart(now) <= Stamp(now) <= MonthEnd(now)
    ensures MonthEnd(now) - MonthStart(now) + 1 == DaysInMonth(now.year, now.month) * SecondsPerDay
    ensures MonthStart(now) == Stamp(DateTime(now.year, now.month, 1, 0))
    ensures MonthEnd(now)
         == Stamp(DateTime(now.year, now.month, DaysInMonth(now.year, now.month), SecondsPerDay - 1))
  {
    NextMonthOrdinal(now.year, now.month);
  }

  /** The records of the month, in the order the query returns them. */
  function Window(records: seq<Record>, now: DateTime): (w: seq<Record>)
    requires ValidDateTime(now)
    ensures |w| <= |records|
    ensures forall r :: multiset(w)[r] == if InMonth(r, now) then multiset(records)[r] else 0
  {
    if records == [] then []
    else
      assert records == [records[0]] + records[1..];
      if InMonth(records[0], now) then [records[0]] + Window(records[1..], now)
      else Window(records[1..], now)
  }

  /** `sum(workout.duration for workout in workouts if workout.duration)`. */
  function SumDurations(records: seq<Record>): nat {
    if records == [] then 0 else DurationOrZero(records[0]) + SumDurations(records[1..])
  }

  /** `sum(workout.calories_burn for workout in workouts if workout.calories_burn)`. */
  function SumCalories(records: seq<Record>): nat {
    if records == [] then 0 else CaloriesOrZero(records[0]) + SumCalories(records[1..])
  }

  /** `get_monthly_stats`: the number of the month's records and the sums
   *  of their non-null durations and calories. */
  function MonthlyStats(records: seq<Record>, now: DateTime): (m: MonthStats)
    requires ValidDateTime(now)
    ensures m.totalWorkouts <= |records|
    ensures m.totalWorkouts == 0 ==> m.totalDuration == 0 && m.totalCalories == 0
  {
    var w := Window(records, now);
    MonthStats(SumDurations(w), SumCalories(w), |w|)
  }

  /** A record outside the month changes none of the totals; a record
   *  inside adds one workout and its non-null duration and calories. */
  lemma {:induction false} MonthlyStatsCons(r: Record, records: seq<Record>, now: DateTime)
    requires ValidDateTime(now)
    ensures var before := MonthlyStats(records, now);
      MonthlyStats([r] + records, now)
        == if InMonth(r, now)
           then MonthStats(before.totalDuration + DurationOrZero(r),
                           before.totalCalories + CaloriesOrZero(r),
                           before.totalWorkouts + 1)
           else before
  {
    assert ([r] + records)[1..] == records;
    var w := Window(records, now);
    if InMonth(r, now) {
      assert ([r] + w)[1..] == w;
    }
  }

  /** A workout on the first second and one on the last second of the
   *  month (`MonthWindow` says which seconds those are) are both counted;
   *  one a second before or after is not. */
  lemma MonthBoundaries(now: DateTime, first: Record, last: Record, before: Record, after: Record)
    requires ValidDateTime(now)
    requires first.date == MonthStart(now) && last.date == MonthEnd(now)
    requires before.date == first.date - 1 && after.date == last.date + 1
    ensures MonthlyStats([before, first, last, after], now).totalWorkouts == 2
  {
    MonthWindow(now);
    assert !InMonth(before, now) && InMonth(first, now) && InMonth(last, now) && !InMonth(after, now);
    assert [before] + [first, last, after] == [before, first, last, after];
    assert [first] + [last, after] == [first, last, after];
    assert [last] + [after] == [last, after];
    assert [after] + [] == [after];
    MonthlyStatsCons(after, [], now);
    MonthlyStatsCons(last, [after], now);
    MonthlyStatsCons(first, [last, after], now);
    MonthlyStatsCons(before, [first, last, after], now);
  }
}
