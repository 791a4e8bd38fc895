/** The completed-workout history that every statistic reads.
 *
 *  The database queries of the application become explicit inputs: each
 *  statistic receives the user's records as a sequence, plus the clock
 *  reading (`today` as a day number, `now` as a second number).
 */
module Records {

  datatype Option<+T> = None | Some(value: T)

  /** A stored completed workout. `date` is a timestamp in seconds; the
   *  numeric columns are nullable, so they are options. */
  datatype Record = Record(
    date: int,
    programId: int,
    rating: Option<int>,
    duration: Option<nat>,
    calories: Option<nat>,
    category: string,
    exercises: seq<string>)

  const SecondsPerDay: int := 86400

  /** Calendar day of a timestamp: the time of day is dropped. */
  function DayOf(t: int): int {
    t / SecondsPerDay
  }

  /** `x or 0` on a nullable column: null and zero both give 0. */
  function DurationOrZero(r: Record): nat {
    if r.duration.Some? then r.duration.value else 0
  }

  function CaloriesOrZero(r: Record): nat {
    if r.calories.Some? then r.calories.value else 0
  }

  function RatingOrZero(r: Record): int {
    if r.rating.Some? then r.rating.value else 0
  }

  /** Reading a `defaultdict(int)`: a missing key reads as 0. */
  function Lookup<K>(m: map<K, nat>, k: K): nat {
    if k in m then m[k] else 0
  }

  function Max(a: int, b: int): int {
    if a >= b then a else b
  }

  function Min(a: int, b: int): int {
    if a <= b then a else b
  }

  /** Number of occurrences of `x` in `s`. */
  function Occurrences<T(==)>(s: seq<T>, x: T): nat {
    if s == [] then 0 else (if s[0] == x then 1 else 0) + Occurrences(s[1..], x)
  }

  lemma {:induction false} OccurrencesAppend<T>(s: seq<T>, t: seq<T>, x: T)
    ensures Occurrences(s + t, x) == Occurrences(s, x) + Occurrences(t, x)
  {
    if s == [] {
      assert s + t == t;
    } else {
      assert (s + t)[1..] == s[1..] + t;
      OccurrencesAppend(s[1..], t, x);
    }
  }

  lemma {:induction false} OccurrencesPositive<T>(s: seq<T>, x: T)
    ensures Occurrences(s, x) > 0 <==> x in s
  {
    if s != [] {
      OccurrencesPositive(s[1..], x);
      assert x in s <==> s[0] == x || x in s[1..];
    }
  }

  /** The time of day of a timestamp does not move it to another day. */
  lemma DayOfBounds(t: int)
    ensures DayOf(t) * SecondsPerDay <= t < DayOf(t) * SecondsPerDay + SecondsPerDay
  {
  }

  lemma DayOfShift(t: int, k: int)
    ensures DayOf(t + k * SecondsPerDay) == DayOf(t) + k
  {
    DayOfBounds(t);
    DayOfBounds(t + k * SecondsPerDay);
  }

  lemma DayOfMonotone(s: int, t: int)
    requires s <= t
    ensures DayOf(s) <= DayOf(t)
  {
    DayOfBounds(s);
    DayOfBounds(t);
  }

  /** The distinct elements of `s`, in the order they first occur: the key
   *  order of a dict filled while walking `s`. */
  function Distinct(s: seq<string>): (d: seq<string>)
    ensures forall x :: x in d <==> x in s
    ensures forall i, j :: 0 <= i < j < |d| ==> d[i] != d[j]
  {
    if s == [] then []
    else
      var d := Distinct(s[..|s| - 1]);
      assert forall x :: x in s <==> x in s[..|s| - 1] || x == s[|s| - 1];
      if s[|s| - 1] in d then d else d + [s[|s| - 1]]
  }

  /** Position of the first occurrence of `x` in `s`. */
  function FirstIndex<T(==)>(s: seq<T>, x: T): (i: nat)
    requires x in s
    ensures i < |s| && s[i] == x && x !in s[..i]
  {
    if s[0] == x then 0
    else
      assert x in s[1..];
      var j := FirstIndex(s[1..], x);
      assert s[..j + 1] == [s[0]] + s[1..][..j];
      j + 1
  }

  lemma {:induction false} FirstIndexAppend<T>(t: seq<T>, x: T, y: T)
    requires y in t
    ensures FirstIndex(t + [x], y) == FirstIndex(t, y)
  {
    if t[0] != y {
      assert (t + [x])[1..] == t[1..] + [x];
      FirstIndexAppend(t[1..], x, y);
    }
  }

  /** The labels come in the order their categories are first met. */
  lemma {:induction false} DistinctInFirstEncounterOrder(s: seq<string>)
    ensures forall i, j :: 0 <= i < j < |Distinct(s)| ==>
      FirstIndex(s, Distinct(s)[i]) < FirstIndex(s, Distinct(s)[j])
  {
    if s != [] {
      var t, x := s[..|s| - 1], s[|s| - 1];
      assert s == t + [x];
      DistinctInFirstEncounterOrder(t);
      var d := Distinct(t);
      forall y | y in d ensures FirstIndex(s, y) == FirstIndex(t, y) {
        FirstIndexAppend(t, x, y);
      }
      if x !in d {
        assert x !in t;
        assert x !in s[..|t|];
        assert FirstIndex(s, x) == |t|;
      }
    }
  }

  lemma {:induction false} OccurrencesInDistinct(d: seq<string>, x: string)
    requires forall i, j :: 0 <= i < j < |d| ==> d[i] != d[j]
    ensures Occurrences(d, x) == if x in d then 1 else 0
  {
    if d != [] {
      OccurrencesInDistinct(d[1..], x);
      assert x in d <==> d[0] == x || x in d[1..];
      if d[0] == x {
        assert x !in d[1..];
      }
    }
  }

  lemma {:induction false} OccurrencesAtMostLength(s: seq<string>, x: string)
    ensures Occurrences(s, x) <= |s|
  {
    if s != [] {
      OccurrencesAtMostLength(s[1..], x);
    }
  }

}
