/** The streak calculator (`calculate_streak`, app.py:324-353).
 *
 *  The history arrives newest first. One pass keeps the running streak
 *  (`temp`), the best closed streak and the previously visited day. The
 *  model follows the code literally; the two places where the literal code
 *  disagrees with what the application evidently wants are exhibited by
 *  lemmas and a corrected definition is given beside it.
 */
module Streak {
  import opened Records

  /** The loop state of `calculate_streak`: `temp_streak`, `best_streak`
   *  and `last_date` (None before the first record). */
  datatype Scan = Scan(temp: nat, best: nat, last: Option<int>)

  /** One iteration of the loop on the record dated `day`. */
  function Step(s: Scan, day: int, today: int): Scan {
    match s.last
    case None => Scan(if today - day <= 1 then 1 else 0, s.best, Some(day))
    case Some(prev) =>
      if prev - day == 1 then Scan(s.temp + 1, s.best, Some(day))
      else Scan(1, if s.temp > s.best then s.temp else s.best, Some(day))
  }

  /** The loop state after visiting `days` in order. */
  function Walk(days: seq<int>, today: int): Scan {
    if days == [] then Scan(0, 0, None)
    else Step(Walk(days[..|days| - 1], today), days[|days| - 1], today)
  }

  /** The calendar days of the records, in the order given. */
  function Days(records: seq<Record>): seq<int> {
    seq(|records|, i requires 0 <= i < |records| => DayOf(records[i].date))
  }

  /** `(current_streak, best_streak)` as `calculate_streak` returns them:
   *  the final run counts as current only when the LAST visited day (the
   *  oldest record) is at most one day before today. */
  function StreakOf(days: seq<int>, today: int): (nat, nat) {
    if days == [] then (0, 0)
    else
      var s := Walk(days, today);
      (if today - s.last.value <= 1 then s.temp else 0,
       if s.best >= s.temp then s.best else s.temp)
  }

  method CalculateStreak(records: seq<Record>, today: int) returns (current: nat, best: nat)
    ensures (current, best) == StreakOf(Days(records), today)
  {
    if records == [] {
      return 0, 0;
    }
    ghost var days := Days(records);
    var temp: nat := 0;
    var last: Option<int> := None;
    best := 0;
    var i := 0;
    while i < |records|
      invariant 0 <= i <= |records|
      invariant Walk(days[..i], today) == Scan(temp, best, last)
    {
      var day := DayOf(records[i].date);
      if last.None? {
        if today - day <= 1 {
          temp := 1;
        }
      } else if last.value - day == 1 {
        temp := temp + 1;
      } else {
        if temp > best {
          best := temp;
        }
        temp := 1;
      }
      last := Some(day);
      assert days[..i + 1][..i] == days[..i];
      i := i + 1;
    }
    assert days[..i] == days;
    current := if today - last.value <= 1 then temp else 0;
    best := if best >= temp then best else temp;
  }

  lemma {:induction false} WalkBounds(days: seq<int>, today: int)
    ensures Walk(days, today).temp <= |days| && Walk(days, today).best <= |days|
    ensures Walk(days, today).last == if days == [] then None else Some(days[|days| - 1])
  {
    if days != [] {
      WalkBounds(days[..|days| - 1], today);
    }
  }

  /** Empty history gives (0, 0); the current streak never exceeds the
   *  best one, which never exceeds the number of records; a non-zero
   *  current streak means the oldest record is today or yesterday. */
  lemma StreakBounds(days: seq<int>, today: int)
    ensures days == [] ==> StreakOf(days, today) == (0, 0)
    ensures StreakOf(days, today).0 <= StreakOf(days, today).1 <= |days|
    ensures StreakOf(days, today).0 > 0 ==> today - days[|days| - 1] <= 1
  {
    WalkBounds(days, today);
  }

  /** Two records on the same day do not extend a run: the second one
   *  closes it and restarts the count at 1. */
  lemma SameDayBreaksRun(days: seq<int>, day: int, today: int)
    ensures var before := Walk(days + [day], today);
      Walk(days + [day, day], today)
        == Scan(1, if before.temp > before.best then before.temp else before.best, Some(day))
  {
    WalkBounds(days + [day], today);
    assert (days + [day, day])[..|days| + 1] == days + [day];
  }

  /** Workouts today, yesterday and the day before give (0, 3): the run is
   *  anchored at the oldest of the three, two days back. */
  lemma ThreeDayRunReportsNoCurrentStreak(today: int)
    ensures StreakOf([today, today - 1, today - 2], today) == (0, 3)
  {
    var days := [today, today - 1, today - 2];
    assert days[..2][..1] == [today];
    assert days[..2] == [today, today - 1];
    assert Walk([today], today) == Scan(1, 0, Some(today));
    assert Walk(days[..2], today) == Scan(2, 0, Some(today - 1));
  }

  /** A lone workout five days old gives (0, 0): the first record starts no
   *  run unless it is today or yesterday, so even the best streak is 0. */
  lemma LoneOldWorkoutReportsNoBestStreak(today: int)
    ensures StreakOf([today - 5], today) == (0, 0)
  {
    assert [today - 5][..0] == [];
    assert Walk([today - 5], today) == Scan(0, 0, Some(today - 5));
  }

  /** Over a newest-first history, the running count is bounded by the
   *  span from the newest to the last visited day. */
  lemma {:induction false} WalkTempFromNewest(days: seq<int>, today: int)
    requires days != []
    requires forall i, j :: 0 <= i < j < |days| ==> days[j] <= days[i]
    ensures Walk(days, today).last.Some?
    ensures Walk(days, today).temp <= days[0] - Walk(days, today).last.value + 1
  {
    var n := |days|;
    if n == 1 {
      assert days[..0] == [];
    } else {
      var init := days[..n - 1];
      assert init[0] == days[0];
      WalkTempFromNewest(init, today);
      WalkBounds(init, today);
      assert Walk(init, today).last.value == days[n - 2];
      assert days[n - 1] <= days[n - 2] && days[n - 1] <= days[0];
    }
  }

  /** Over a newest-first history, the current streak as written is at most
   *  3 when no record is dated after tomorrow, and at most 2 when none is
   *  dated after today: it needs the OLDEST record to be today or
   *  yesterday, so every record lies between that day and the newest one.
   *  (The records are stamped in UTC and `today` is the local date, so a
   *  record can carry tomorrow's date.) */
  lemma CurrentStreakAsWrittenShort(days: seq<int>, today: int)
    requires forall i, j :: 0 <= i < j < |days| ==> days[j] <= days[i]
    requires forall i :: 0 <= i < |days| ==> days[i] <= today + 1
    ensures StreakOf(days, today).0 <= 3
    ensures (forall i :: 0 <= i < |days| ==> days[i] <= today) ==> StreakOf(days, today).0 <= 2
  {
    if days != [] {
      WalkTempFromNewest(days, today);
    }
  }

  // ---------------------------------------------------------------------
  // The streak the application evidently intends: the current streak is
  // the run that contains the NEWEST record, provided that record is today
  // or yesterday; every run, the first included, counts from 1. Same-day
  // records still break a run, as in the code.

  /** Length of the run of consecutive days (each one day before the
   *  previous) at the front of `days`. */
  function LeadingRun(days: seq<int>): (n: nat)
    requires days != []
    ensures 1 <= n <= |days|
  {
    if |days| == 1 || days[0] - days[1] != 1 then 1 else 1 + LeadingRun(days[1..])
  }

  /** The leading run is a run of consecutive days, and it cannot be
   *  extended. */
  lemma {:induction false} LeadingRunIsRun(days: seq<int>)
    requires days != []
    ensures forall i :: 0 <= i < LeadingRun(days) ==> days[i] == days[0] - i
    ensures LeadingRun(days) < |days| ==> days[LeadingRun(days)] != days[0] - LeadingRun(days)
  {
    if |days| > 1 && days[0] - days[1] == 1 {
      LeadingRunIsRun(days[1..]);
    }
  }

  /** Length of the longest run of consecutive days anywhere in `days`. */
  function LongestRun(days: seq<int>): (n: nat)
    ensures n <= |days|
    ensures days != [] ==> LeadingRun(days) <= n
  {
    if days == [] then 0
    else
      var rest := LongestRun(days[1..]);
      if LeadingRun(days) >= rest then LeadingRun(days) else rest
  }

  /** No run anywhere in `days` is longer than `LongestRun`, and some run
   *  is exactly that long. */
  lemma {:induction false} LongestRunIsLongest(days: seq<int>)
    ensures forall k :: 0 <= k < |days| ==> LeadingRun(days[k..]) <= LongestRun(days)
    ensures days != [] ==> exists k :: 0 <= k < |days| && LeadingRun(days[k..]) == LongestRun(days)
  {
    if days != [] {
      var rest := days[1..];
      LongestRunIsLongest(rest);
      assert forall k :: 1 <= k < |days| ==> days[k..] == rest[k - 1..];
      assert days[0..] == days;
      if LeadingRun(days) < LongestRun(rest) {
        var k :| 0 <= k < |rest| && LeadingRun(rest[k..]) == LongestRun(rest);
        assert days[k + 1..] == rest[k..];
      }
    }
  }

  /** The longest run is the first run or the longest one after it. */
  lemma {:induction false} LongestRunSplit(days: seq<int>)
    requires days != []
    ensures LeadingRun(days) <= |days|
    ensures LongestRun(days) == Max(LeadingRun(days), LongestRun(days[LeadingRun(days)..]))
  {
    var n := LeadingRun(days);
    var rest := LongestRun(days[1..]);
    assert LongestRun(days) == Max(n, rest);
    if n > 1 {
      LongestRunSplit(days[1..]);
      assert days[1..][n - 1..] == days[n..];
      assert rest == Max(n - 1, LongestRun(days[n..]));
    }
  }

  /** The corrected `(current_streak, best_streak)`. */
  function IntendedStreak(days: seq<int>, today: int): (r: (nat, nat))
    ensures r.0 <= r.1 <= |days|
    ensures days != [] ==> r.1 >= 1
    ensures r.0 > 0 ==> today - days[0] <= 1
  {
    (if days != [] && today - days[0] <= 1 then LeadingRun(days) else 0, LongestRun(days))
  }

  // ---------------------------------------------------------------------
  // What the best streak as written measures.

  /** The loop state after visiting `days` in order, starting from `s`. */
  function Resume(s: Scan, days: seq<int>, today: int): Scan
    decreases |days|
  {
    if days == [] then s else Resume(Step(s, days[0], today), days[1..], today)
  }

  lemma {:induction false} WalkAppend(a: seq<int>, b: seq<int>, today: int)
    ensures Walk(a + b, today) == Resume(Walk(a, today), b, today)
    decreases |b|
  {
    if b == [] {
      assert a + b == a;
    } else {
      var a' := a + [b[0]];
      assert a'[..|a|] == a;
      assert a + b == a' + b[1..];
      WalkAppend(a', b[1..], today);
    }
  }

  /** How many of `days` continue a run whose last day was `prev`. */
  function Continues(prev: int, days: seq<int>): nat {
    if days != [] && prev - days[0] == 1 then LeadingRun(days) else 0
  }

  /** A run's length is one more than the days that continue it. */
  lemma LeadingRunCons(days: seq<int>)
    requires days != []
    ensures LeadingRun(days) == 1 + Continues(days[0], days[1..])
    ensures days[1..][Continues(days[0], days[1..])..] == days[LeadingRun(days)..]
  {
    if |days| > 1 {
      assert days[1..][0] == days[1];
    }
  }

  /** Resuming a scan that has visited a day: at the end, the larger of the
   *  best and running counts is the larger of the old best, the running
   *  count extended by the days that continue its run, and the longest run
   *  after those. */
  predicate ResumeClaim(s: Scan, days: seq<int>, today: int)
    requires s.last.Some?
  {
    var c := Continues(s.last.value, days);
    var e := Resume(s, days, today);
    c <= |days| && Max(e.best, e.temp) == Max(Max(s.best, s.temp + c), LongestRun(days[c..]))
  }

  lemma {:induction false} ResumeBest(s: Scan, days: seq<int>, today: int)
    requires s.last.Some?
    ensures ResumeClaim(s, days, today)
    decreases |days|
  {
    if days == [] {
      assert Resume(s, days, today) == s;
      assert LongestRun(days[0..]) == 0;
    } else {
      ResumeBest(Step(s, days[0], today), days[1..], today);
      ResumeBestStep(s, days, today);
    }
  }

  /** One step of `ResumeBest`'s induction. */
  lemma ResumeBestStep(s: Scan, days: seq<int>, today: int)
    requires s.last.Some? && days != []
    requires ResumeClaim(Step(s, days[0], today), days[1..], today)
    ensures ResumeClaim(s, days, today)
  {
    assert Resume(s, days, today) == Resume(Step(s, days[0], today), days[1..], today);
    LeadingRunCons(days);
    if s.last.value - days[0] == 1 {
      ResumeContinues(s, days, today);
    } else {
      ResumeBreaks(s, days, today);
    }
  }

  lemma ResumeContinues(s: Scan, days: seq<int>, today: int)
    requires s.last.Some? && days != [] && s.last.value - days[0] == 1
    requires ResumeClaim(Step(s, days[0], today), days[1..], today)
    requires Resume(s, days, today) == Resume(Step(s, days[0], today), days[1..], today)
    requires LeadingRun(days) == 1 + Continues(days[0], days[1..])
    requires days[1..][Continues(days[0], days[1..])..] == days[LeadingRun(days)..]
    ensures ResumeClaim(s, days, today)
  {
    var s' := Step(s, days[0], today);
    assert s' == Scan(s.temp + 1, s.best, Some(days[0]));
    assert Continues(s.last.value, days) == LeadingRun(days);
  }

  lemma ResumeBreaks(s: Scan, days: seq<int>, today: int)
    requires s.last.Some? && days != [] && s.last.value - days[0] != 1
    requires ResumeClaim(Step(s, days[0], today), days[1..], today)
    requires Resume(s, days, today) == Resume(Step(s, days[0], today), days[1..], today)
    requires LeadingRun(days) == 1 + Continues(days[0], days[1..])
    requires days[1..][Continues(days[0], days[1..])..] == days[LeadingRun(days)..]
    ensures ResumeClaim(s, days, today)
  {
    var e := Resume(s, days, today);
    var run := LeadingRun(days);
    var after := LongestRun(days[run..]);
    assert Step(s, days[0], today) == Scan(1, Max(s.best, s.temp), Some(days[0]));
    assert Max(e.best, e.temp) == Max(Max(Max(s.best, s.temp), run), after);
    LongestRunSplit(days);
    MaxRegroup(s.best, s.temp, run, after);
    assert Continues(s.last.value, days) == 0 && days[0..] == days;
  }

  lemma MaxRegroup(a: int, b: int, c: int, d: int)
    ensures Max(Max(Max(a, b), c), d) == Max(Max(a, b), Max(c, d))
  {
  }

  /** The best streak as written, in terms of the first run and the
   *  longest run after it. */
  lemma BestStreakFromRuns(days: seq<int>, today: int)
    requires days != []
    ensures LeadingRun(days) <= |days|
    ensures StreakOf(days, today).1
         == Max((if today - days[0] <= 1 then 1 else 0) + LeadingRun(days) - 1,
                LongestRun(days[LeadingRun(days)..]))
  {
    var d := days[0];
    var a: nat := if today - d <= 1 then 1 else 0;
    assert Walk([d], today) == Scan(a, 0, Some(d)) by {
      assert [d][..0] == [];
    }
    assert Walk(days, today) == Resume(Scan(a, 0, Some(d)), days[1..], today) by {
      assert [d] + days[1..] == days;
      WalkAppend([d], days[1..], today);
    }
    ResumeBest(Scan(a, 0, Some(d)), days[1..], today);
    LeadingRunCons(days);
  }

  /** The best streak as written: with the newest record today or
   *  yesterday it is the longest run; otherwise the first run is counted
   *  one short. So it is the corrected best streak, or one less. */
  lemma BestStreakAsWritten(days: seq<int>, today: int)
    requires days != []
    ensures today - days[0] <= 1 ==> StreakOf(days, today).1 == LongestRun(days)
    ensures today - days[0] > 1 ==>
      StreakOf(days, today).1 == Max(LeadingRun(days) - 1, LongestRun(days[LeadingRun(days)..]))
    ensures IntendedStreak(days, today).1 - 1 <= StreakOf(days, today).1 <= IntendedStreak(days, today).1
  {
    var best := StreakOf(days, today).1;
    var anchored := today - days[0] <= 1;
    var run := LeadingRun(days);
    var after := LongestRun(days[run..]);
    assert best == Max((if anchored then 1 else 0) + run - 1, after) by {
      BestStreakFromRuns(days, today);
    }
    assert LongestRun(days) == Max(run, after) by {
      LongestRunSplit(days);
    }
    BestOfRuns(anchored, best, run, after, LongestRun(days));
  }

  /** The arithmetic of `BestStreakAsWritten`. */
  lemma BestOfRuns(anchored: bool, best: int, run: int, after: int, longest: int)
    requires best == Max((if anchored then 1 else 0) + run - 1, after)
    requires longest == Max(run, after)
    ensures anchored ==> best == longest
    ensures !anchored ==> best == Max(run - 1, after)
    ensures longest - 1 <= best <= longest
  {
  }

  lemma IntendedThreeDayRun(today: int)
    ensures IntendedStreak([today, today - 1, today - 2], today) == (3, 3)
  {
    var days := [today, today - 1, today - 2];
    assert days[1..] == [today - 1, today - 2];
    assert days[1..][1..] == [today - 2];
  }

  lemma IntendedLoneOldWorkout(today: int)
    ensures IntendedStreak([today - 5], today) == (0, 1)
  {
  }
}
