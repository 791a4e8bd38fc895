/** The proleptic Gregorian calendar of Python's `datetime`, reduced to what
 *  the monthly window needs: day ordinals (day 1 is 0001-01-01, as in
 *  `date.toordinal`) and the length of each month. A timestamp in seconds
 *  is `ordinal * 86400 + second of the day`.
 */
module Calendar {
  import opened Records

  function IsLeap(year: int): bool {
    year % 4 == 0 && (year % 100 != 0 || year % 400 == 0)
  }

  function DaysInYear(year: int): int {
    if IsLeap(year) then 366 else 365
  }

  function DaysInMonth(year: int, month: int): (n: int)
    requires 1 <= month <= 12
    ensures 28 <= n <= 31
    ensures n == 29 <==> month == 2 && IsLeap(year)
  {
    if month == 2 then (if IsLeap(year) then 29 else 28)
    else if month == 4 || month == 6 || month == 9 || month == 11 then 30
    else 31
  }

  /** Days in the years before `year` (the closed form used by `datetime`). */
  function DaysBeforeYear(year: int): int
    requires year >= 1
  {
    var y := year - 1;
    y * 365 + y / 4 - y / 100 + y / 400
  }

  /** Days in the months of `year` before `month`. */
  function DaysBeforeMonth(year: int, month: int): int
    requires 1 <= month <= 12
    decreases month
  {
    if month == 1 then 0 else DaysBeforeMonth(year, month - 1) + DaysInMonth(year, month - 1)
  }

  function Ordinal(year: int, month: int, day: int): int
    requires year >= 1 && 1 <= month <= 12
  {
    DaysBeforeYear(year) + DaysBeforeMonth(year, month) + day
  }

  /** A wall-clock reading at second precision. */
  datatype DateTime = DateTime(year: int, month: int, day: int, second: int)

  predicate ValidDateTime(d: DateTime) {
    d.year >= 1 && 1 <= d.month <= 12 && 1 <= d.day <= DaysInMonth(d.year, d.month)
    && 0 <= d.second < SecondsPerDay
  }

  function Stamp(d: DateTime): int
    requires ValidDateTime(d)
  {
    Ordinal(d.year, d.month, d.day) * SecondsPerDay + d.second
  }

  /** The month after (`year`, `month`). */
  function NextMonth(year: int, month: int): (r: (int, int))
    requires year >= 1 && 1 <= month <= 12
    ensures r.0 >= 1 && 1 <= r.1 <= 12
  {
    if month == 12 then (year + 1, 1) else (year, month + 1)
  }

  lemma DaysBeforeNextYear(year: int)
    requires year >= 1
    ensures DaysBeforeYear(year + 1) == DaysBeforeYear(year) + DaysInYear(year)
  {
    var y := year - 1;
    assert (y + 1) / 4 == y / 4 + (if year % 4 == 0 then 1 else 0);
    assert (y + 1) / 100 == y / 100 + (if year % 100 == 0 then 1 else 0);
    assert (y + 1) / 400 == y / 400 + (if year % 400 == 0 then 1 else 0);
  }

  lemma {:induction false} DaysBeforeDecember(year: int)
    ensures DaysBeforeMonth(year, 12) + DaysInMonth(year, 12) == DaysInYear(year)
  {
    assert DaysBeforeMonth(year, 2) == 31;
    assert DaysBeforeMonth(year, 3) == 31 + DaysInMonth(year, 2);
    assert DaysBeforeMonth(year, 12) == 334 + DaysInMonth(year, 2) - 28;
  }

  /** The first day of the next month follows the last day of this one. */
  lemma NextMonthOrdinal(year: int, month: int)
    requires year >= 1 && 1 <= month <= 12
    ensures Ordinal(NextMonth(year, month).0, NextMonth(year, month).1, 1)
         == Ordinal(year, month, 1) + DaysInMonth(year, month)
  {
    if month == 12 {
      DaysBeforeNextYear(year);
      DaysBeforeDecember(year);
    }
  }

  /** `first.replace(day=1) + timedelta(days=32)` lands on day
   *  `33 - DaysInMonth` (between 2 and 5) of the next month, so replacing
   *  its day by 1 gives the first day of the next month. */
  lemma ThirtyTwoDaysLater(year: int, month: int)
    requires year >= 1 && 1 <= month <= 12
    ensures var (ny, nm) := NextMonth(year, month);
      var d := 33 - DaysInMonth(year, month);
      2 <= d <= 5 && d <= DaysInMonth(ny, nm)
      && Ordinal(year, month, 1) + 32 == Ordinal(ny, nm, d)
  {
    NextMonthOrdinal(year, month);
  }
}
