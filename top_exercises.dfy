/** The most-used exercises (`get_most_used_exercises`, app.py:408-439).
 *
 *  Every name in every record's exercise list is tallied, in a dict whose
 *  keys keep the order names are first met: the number of occurrences
 *  (`sets`), the largest rating of a record listing the name (kept under
 *  the name `max_weight`), an image file name, and a progress score. The
 *  tallies are then sorted by `sets`, largest first and stably, and the
 *  first five are returned.
 */
module TopExercises {
  import opened Records
  import opened Strings

  /** A value of `exercise_stats`. */
  datatype Tally = Tally(name: string, sets: nat, maxWeight: int, image: string, progress: int)

  /** An entry of the result, `{'id': k, **v}`. */
  datatype ExerciseStat = ExerciseStat(id: string, name: string, sets: nat, maxWeight: int, image: string, progress: int)

  /** What the `defaultdict` factory yields for a name met for the first time. */
  const FreshTally := Tally("", 0, 0, "", 0)

  /** `f"{exercise.lower().replace(' ', '-')}.svg"`. */
  function ImageName(name: string): string {
    ReplaceChar(Lower(name), ' ', "-") + ".svg"
  }

  /** The image name is the lower-cased name with each space turned into a
   *  dash, then `.svg`: no space and no upper-case letter is left before
   *  the suffix. */
  lemma ImageNameShape(name: string)
    ensures ImageName(name) == Join(Split(Lower(name), ' '), "-") + ".svg"
    ensures var image := ImageName(name);
      |image| >= 4 && image[|image| - 4..] == ".svg"
      && ' ' !in image[..|image| - 4]
      && forall i :: 0 <= i < |image| ==> !IsUpper(image[i])
  {
    var lower := Lower(name);
    ReplaceCharIsJoinSplit(lower, ' ', "-");
    ReplaceCharRemoves(lower, ' ', "-");
    LowerIsLowerCase(name);
    ReplaceCharNoUpper(lower, ' ', "-");
    var stem := ReplaceChar(lower, ' ', "-");
    var image := stem + ".svg";
    assert image[..|stem|] == stem;
    assert forall i :: |stem| <= i < |image| ==> image[i] == ".svg"[i - |stem|];
  }

  // ---------------------------------------------------------------------
  // The progress score.

  predicate SameProgramAndRating(r: Record, programId: int, rating: Option<int>) {
    r.programId == programId && r.rating == rating
  }

  /** `CompletedWorkout.query.filter_by(user_id=..., program_id=programId,
   *  rating=rating).order_by(CompletedWorkout.date).first()`: the earliest
   *  matching record (among records with the same date, the first one). */
  function Earliest(records: seq<Record>, programId: int, rating: Option<int>): (e: Option<Record>)
    ensures e.Some? ==> e.value in records && SameProgramAndRating(e.value, programId, rating)
    ensures e.Some? ==> forall r :: r in records && SameProgramAndRating(r, programId, rating) ==> e.value.date <= r.date
    ensures e.None? <==> forall r :: r in records ==> !SameProgramAndRating(r, programId, rating)
  {
    if records == [] then None
    else
      var rest := Earliest(records[1..], programId, rating);
      assert forall r :: r in records <==> r == records[0] || r in records[1..];
      if SameProgramAndRating(records[0], programId, rating) && (rest.None? || records[0].date <= rest.value.date)
      then Some(records[0])
      else rest
  }

  /** `min(max(round(progress), 0), 100)`. */
  function Clamp(v: int): (c: int)
    ensures 0 <= c <= 100
    ensures 0 <= v <= 100 ==> c == v
    ensures v < 0 ==> c == 0
    ensures v > 100 ==> c == 100
  {
    Min(Max(v, 0), 100)
  }

  /** The progress the loop writes for an occurrence in `workout`, or None
   *  when it leaves the tally's progress alone (no earlier record, or an
   *  earlier record whose rating is null or 0). The score
   *  `(rating - initial) / 5 * 100` is the whole number `20 * (rating - initial)`.
   *  Since the earlier record is looked up by the same rating, the score is
   *  always 0. */
  function ProgressUpdate(records: seq<Record>, workout: Record): (u: Option<int>)
    ensures u.None? || u == Some(0)
  {
    var initial := Earliest(records, workout.programId, workout.rating);
    if initial.Some? && initial.value.rating.Some? && initial.value.rating.value != 0
    then Some(Clamp(20 * (RatingOrZero(workout) - initial.value.rating.value)))
    else None
  }

  /** Two workouts of program 7, rated 2 and then 4: the code scores the
   *  second one 0, because its query finds the second workout itself. */
  lemma ProgressAsWrittenIgnoresImprovement()
    ensures var first := Record(1, 7, Some(2), None, None, "", ["Squat"]);
      var second := Record(2, 7, Some(4), None, None, "", ["Squat"]);
      ProgressUpdate([first, second], second) == Some(0)
  {
    var first := Record(1, 7, Some(2), None, None, "", ["Squat"]);
    var second := Record(2, 7, Some(4), None, None, "", ["Squat"]);
    assert !SameProgramAndRating(first, 7, Some(4));
    assert Earliest([first, second], 7, Some(4)) == Some(second);
  }

  /** The first workout of a program, whatever its rating. */
  function FirstOfProgram(records: seq<Record>, programId: int): (e: Option<Record>)
    ensures e.Some? ==> e.value in records && e.value.programId == programId
    ensures e.Some? ==> forall r :: r in records && r.programId == programId ==> e.value.date <= r.date
    ensures e.None? <==> forall r :: r in records ==> r.programId != programId
  {
    if records == [] then None
    else
      var rest := FirstOfProgram(records[1..], programId);
      assert forall r :: r in records <==> r == records[0] || r in records[1..];
      if records[0].programId == programId && (rest.None? || records[0].date <= rest.value.date)
      then Some(records[0])
      else rest
  }

  /** The score the comment asks for: the rise in rating since the first
   *  workout of the same program, 20 points per rating step, kept within
   *  0..100. It is positive exactly when the rating rose. */
  function IntendedProgressUpdate(records: seq<Record>, workout: Record): (u: Option<int>)
    ensures u.Some? ==> 0 <= u.value <= 100
    ensures var initial := FirstOfProgram(records, workout.programId);
      u.Some? <==> initial.Some? && initial.value.rating.Some? && initial.value.rating.value != 0
    ensures u.Some? ==>
      var rise := RatingOrZero(workout) - FirstOfProgram(records, workout.programId).value.rating.value;
      && (u.value > 0 <==> rise > 0)
      && (0 <= rise <= 5 ==> u.value == 20 * rise)
      && (rise >= 5 ==> u.value == 100)
  {
    var initial := FirstOfProgram(records, workout.programId);
    if initial.Some? && initial.value.rating.Some? && initial.value.rating.value != 0
    then Some(Clamp(20 * (RatingOrZero(workout) - initial.value.rating.value)))
    else None
  }

  /** The same two workouts: the intended score of the second is 40. */
  lemma IntendedProgressRewardsImprovement()
    ensures var first := Record(1, 7, Some(2), None, None, "", ["Squat"]);
      var second := Record(2, 7, Some(4), None, None, "", ["Squat"]);
      IntendedProgressUpdate([first, second], second) == Some(40)
  {
    var first := Record(1, 7, Some(2), None, None, "", ["Squat"]);
    var second := Record(2, 7, Some(4), None, None, "", ["Squat"]);
    assert FirstOfProgram([first, second], 7) == Some(first);
  }

  // ---------------------------------------------------------------------
  // The occurrences the loop visits: one (name, rating or 0) pair for each
  // name of each record, in order.

  type Use = (string, int)

  function RecordUses(r: Record): seq<Use> {
    seq(|r.exercises|, k requires 0 <= k < |r.exercises| => (r.exercises[k], RatingOrZero(r)))
  }

  function Uses(records: seq<Record>): seq<Use> {
    if records == [] then []
    else Uses(records[..|records| - 1]) + RecordUses(records[|records| - 1])
  }

  function UseNames(u: seq<Use>): seq<string> {
    seq(|u|, k requires 0 <= k < |u| => u[k].0)
  }

  /** Every name of every exercise list, in order. */
  function Names(records: seq<Record>): seq<string> {
    UseNames(Uses(records))
  }

  /** `max_weight` for `name`: 0 to start with, then the maximum with the
   *  rating of each use of the name. */
  function MaxRating(u: seq<Use>, name: string): (m: int)
    ensures m >= 0
    ensures forall k :: 0 <= k < |u| && u[k].0 == name ==> u[k].1 <= m
    ensures m == 0 || exists k :: 0 <= k < |u| && u[k].0 == name && u[k].1 == m
  {
    if u == [] then 0
    else
      var prev := MaxRating(u[..|u| - 1], name);
      assert forall k :: 0 <= k < |u| - 1 ==> u[..|u| - 1][k] == u[k];
      if u[|u| - 1].0 == name then Max(prev, u[|u| - 1].1) else prev
  }

  /** The tally the loop holds for `name` after visiting the uses `u`. */
  function TallyOf(u: seq<Use>, name: string): Tally {
    Tally(name, Occurrences(UseNames(u), name), MaxRating(u, name), ImageName(name), 0)
  }

  /** One pass of the inner loop body on the table, for a use of `name` by
   *  a record rated `rating`: the `defaultdict` creates the tally when the
   *  name is new. The progress field is left as it is, which is what the
   *  code's progress update amounts to (`ProgressUpdate`). */
  function Bump(table: map<string, Tally>, name: string, rating: int): map<string, Tally> {
    var st := if name in table then table[name] else FreshTally;
    table[name := Tally(name, st.sets + 1, Max(st.maxWeight, rating), ImageName(name), st.progress)]
  }

  /** The table after visiting the uses `u` in order. */
  function TableOf(u: seq<Use>): map<string, Tally> {
    if u == [] then map[] else Bump(TableOf(u[..|u| - 1]), u[|u| - 1].0, u[|u| - 1].1)
  }

  lemma UseNamesAppend(u: seq<Use>, p: Use)
    ensures UseNames(u + [p]) == UseNames(u) + [p.0]
  {
  }

  lemma UseNamesPrefix(u: seq<Use>)
    requires u != []
    ensures UseNames(u[..|u| - 1]) == UseNames(u)[..|u| - 1]
    ensures UseNames(u) == UseNames(u[..|u| - 1]) + [u[|u| - 1].0]
  {
  }

  lemma {:induction false} MaxRatingUnused(u: seq<Use>, name: string)
    requires name !in UseNames(u)
    ensures MaxRating(u, name) == 0
  {
    if u != [] {
      UseNamesPrefix(u);
      MaxRatingUnused(u[..|u| - 1], name);
    }
  }

  /** The table's keys are the names met, and no tally's progress is moved
   *  from 0. */
  lemma {:induction false} TableOfKeys(u: seq<Use>, name: string)
    ensures name in TableOf(u) <==> name in UseNames(u)
    ensures name in TableOf(u) ==> TableOf(u)[name].progress == 0
  {
    if u != [] {
      UseNamesPrefix(u);
      TableOfKeys(u[..|u| - 1], name);
    }
  }

  /** The table holds one tally for each name met, and that tally counts
   *  the uses of the name and keeps the largest rating among them. */
  lemma {:induction false} TableOfEntry(u: seq<Use>, name: string)
    ensures name in TableOf(u) <==> name in UseNames(u)
    ensures name in TableOf(u) ==> TableOf(u)[name] == TallyOf(u, name)
  {
    if u != [] {
      var init, last := u[..|u| - 1], u[|u| - 1];
      UseNamesPrefix(u);
      TableOfEntry(init, name);
      OccurrencesAppend(UseNames(init), [last.0], name);
      if name == last.0 && name !in UseNames(init) {
        OccurrencesPositive(UseNames(init), name);
        MaxRatingUnused(init, name);
      }
    }
  }

  lemma TableOfSnoc(u: seq<Use>, name: string, rating: int)
    ensures TableOf(u + [(name, rating)]) == Bump(TableOf(u), name, rating)
  {
    assert (u + [(name, rating)])[..|u|] == u;
  }

  lemma RecordUsesPrefix(r: Record, j: nat)
    requires j < |r.exercises|
    ensures RecordUses(r)[..j + 1] == RecordUses(r)[..j] + [(r.exercises[j], RatingOrZero(r))]
  {
  }

  /** The body of the inner loop: one occurrence of `exercise` in a record
   *  rated `rating`, whose progress query gave `progress`. */
  method Visit(keys: seq<string>, stats: map<string, Tally>, ghost seen: seq<Use>,
               exercise: string, rating: int, progress: Option<int>)
    returns (keys': seq<string>, stats': map<string, Tally>)
    requires keys == Distinct(UseNames(seen)) && stats == TableOf(seen)
    requires progress.None? || progress == Some(0)
    ensures keys' == Distinct(UseNames(seen + [(exercise, rating)]))
    ensures stats' == TableOf(seen + [(exercise, rating)])
  {
    TableOfKeys(seen, exercise);
    TableOfSnoc(seen, exercise, rating);
    UseNamesAppend(seen, (exercise, rating));
    assert (UseNames(seen) + [exercise])[..|seen|] == UseNames(seen);
    var st := if exercise in stats then stats[exercise] else FreshTally;
    keys' := keys;
    if exercise !in stats {
      keys' := keys + [exercise];
    }
    var tally := Tally(exercise, st.sets + 1, Max(st.maxWeight, rating), ImageName(exercise), st.progress);
    if progress.Some? {
      tally := tally.(progress := progress.value);
    }
    stats' := stats[exercise := tally];
  }

  /** The `for workout` / `for exercise` loops: the table they leave, and
   *  the order its keys were created in. */
  method TallyExercises(records: seq<Record>) returns (keys: seq<string>, stats: map<string, Tally>)
    ensures keys == Distinct(Names(records))
    ensures stats == TableOf(Uses(records))
  {
    keys, stats := [], map[];
    ghost var seen: seq<Use> := [];
    var i := 0;
    while i < |records|
      invariant 0 <= i <= |records|
      invariant seen == Uses(records[..i])
      invariant keys == Distinct(UseNames(seen)) && stats == TableOf(seen)
    {
      var workout := records[i];
      var j := 0;
      while j < |workout.exercises|
        invariant 0 <= j <= |workout.exercises|
        invariant seen == Uses(records[..i]) + RecordUses(workout)[..j]
        invariant keys == Distinct(UseNames(seen)) && stats == TableOf(seen)
      {
        var exercise := workout.exercises[j];
        var progress := ProgressUpdate(records, workout);
        keys, stats := Visit(keys, stats, seen, exercise, RatingOrZero(workout), progress);
        RecordUsesPrefix(workout, j);
        seen := seen + [(exercise, RatingOrZero(workout))];
        j := j + 1;
      }
      assert RecordUses(workout)[..j] == RecordUses(workout);
      assert records[..i + 1][..i] == records[..i];
      i := i + 1;
    }
    assert records[..i] == records;
  }

  // ---------------------------------------------------------------------
  // What the table means, in terms of the records.

  /** The table's keys are exactly the names met. */
  lemma TableOfDomain(u: seq<Use>)
    ensures forall n :: n in TableOf(u) <==> n in UseNames(u)
  {
    forall n ensures n in TableOf(u) <==> n in UseNames(u) {
      TableOfKeys(u, n);
    }
  }

  /** The uses of a record name its exercises, in order. */
  lemma UseNamesOfRecord(r: Record)
    ensures UseNames(RecordUses(r)) == r.exercises
  {
  }

  /** Number of times `name` is listed, over all the records. */
  function TimesListed(records: seq<Record>, name: string): nat {
    if records == [] then 0
    else TimesListed(records[..|records| - 1], name) + Occurrences(records[|records| - 1].exercises, name)
  }

  /** `sets` counts every time the name is listed, in every record. */
  lemma {:induction false} SetsAreTimesListed(records: seq<Record>, name: string)
    ensures Occurrences(Names(records), name) == TimesListed(records, name)
  {
    if records != [] {
      var init, last := records[..|records| - 1], records[|records| - 1];
      SetsAreTimesListed(init, name);
      assert Names(records) == UseNames(Uses(init) + RecordUses(last));
      assert UseNames(Uses(init) + RecordUses(last)) == UseNames(Uses(init)) + UseNames(RecordUses(last));
      UseNamesOfRecord(last);
      OccurrencesAppend(Names(init), last.exercises, name);
    }
  }

  /** Each use pairs a name listed by some record with that record's rating
   *  (or 0), and each listed name of each record gives such a use. */
  lemma {:induction false} UsesOfRecords(records: seq<Record>)
    ensures forall k :: 0 <= k < |Uses(records)| ==>
      exists r :: r in records && Uses(records)[k].0 in r.exercises && Uses(records)[k].1 == RatingOrZero(r)
    ensures forall r, n :: r in records && n in r.exercises ==> (n, RatingOrZero(r)) in Uses(records)
  {
    if records != [] {
      var init, last := records[..|records| - 1], records[|records| - 1];
      UsesOfRecords(init);
      var u: seq<Use>, w: seq<Use> := Uses(init), RecordUses(last);
      assert Uses(records) == u + w;
      assert forall r :: r in records <==> r in init || r == last;
      forall k: int | 0 <= k < |Uses(records)|
        ensures exists r: Record :: r in records && Uses(records)[k].0 in r.exercises && Uses(records)[k].1 == RatingOrZero(r)
      {
        if k < |u| {
          assert Uses(records)[k] == u[k];
          var r :| r in init && u[k].0 in r.exercises && u[k].1 == RatingOrZero(r);
          assert r in records;
        } else {
          assert Uses(records)[k] == w[k - |u|];
          assert w[k - |u|].0 == last.exercises[k - |u|];
          assert last in records;
        }
      }
      forall r, n | r in records && n in r.exercises
        ensures (n, RatingOrZero(r)) in u + w
      {
        if r in init {
          assert (n, RatingOrZero(r)) in u;
        } else {
          var k :| 0 <= k < |last.exercises| && last.exercises[k] == n;
          assert w[k] == (n, RatingOrZero(r));
        }
      }
    } else {
      assert Uses(records) == [];
    }
  }

  /** `max_weight` is the largest rating (null read as 0) of a record
   *  listing the name, or 0 when all of those are negative. */
  lemma MaxWeightMeaning(records: seq<Record>, name: string)
    ensures MaxRating(Uses(records), name) >= 0
    ensures forall r :: r in records && name in r.exercises ==> RatingOrZero(r) <= MaxRating(Uses(records), name)
    ensures MaxRating(Uses(records), name) == 0
         || exists r :: r in records && name in r.exercises && RatingOrZero(r) == MaxRating(Uses(records), name)
  {
    UsesOfRecords(records);
    var u := Uses(records);
    var m := MaxRating(u, name);
    forall r | r in records && name in r.exercises
      ensures RatingOrZero(r) <= m
    {
      var k :| 0 <= k < |u| && u[k] == (name, RatingOrZero(r));
    }
    if m != 0 {
      var k :| 0 <= k < |u| && u[k].0 == name && u[k].1 == m;
      var r :| r in records && u[k].0 in r.exercises && u[k].1 == RatingOrZero(r);
    }
  }

  // ---------------------------------------------------------------------
  // The listing and its sort.

  /** `[{'id': k, **v} for k, v in exercise_stats.items()]`. */
  function Listing(keys: seq<string>, stats: map<string, Tally>): (l: seq<ExerciseStat>)
    requires forall k :: k in keys ==> k in stats
    ensures |l| == |keys|
  {
    seq(|keys|, i requires 0 <= i < |keys| =>
      var t := stats[keys[i]];
      ExerciseStat(keys[i], t.name, t.sets, t.maxWeight, t.image, t.progress))
  }

  /** The listing the loops leave for `records`. */
  function Entries(records: seq<Record>): seq<ExerciseStat> {
    TableOfDomain(Uses(records));
    Listing(Distinct(Names(records)), TableOf(Uses(records)))
  }

  /** One entry per distinct exercise name, in first-encounter order, with
   *  its occurrence count, its largest rating, its image and progress 0. */
  lemma EntriesMeaning(records: seq<Record>)
    ensures var d := Distinct(Names(records));
      |Entries(records)| == |d|
      && forall i :: 0 <= i < |d| ==>
        Entries(records)[i]
          == ExerciseStat(d[i], d[i], Occurrences(Names(records), d[i]),
                          MaxRating(Uses(records), d[i]), ImageName(d[i]), 0)
  {
    var d := Distinct(Names(records));
    forall i | 0 <= i < |d|
      ensures Entries(records)[i]
          == ExerciseStat(d[i], d[i], Occurrences(Names(records), d[i]),
                          MaxRating(Uses(records), d[i]), ImageName(d[i]), 0)
    {
      TableOfEntry(Uses(records), d[i]);
    }
  }

  /** Largest `sets` first. */
  ghost predicate BySetsDescending(s: seq<ExerciseStat>) {
    forall i, j :: 0 <= i < j < |s| ==> s[i].sets >= s[j].sets
  }

  /** Places `x` after every entry of `s` with at least as many sets. */
  function Insert(x: ExerciseStat, s: seq<ExerciseStat>): seq<ExerciseStat> {
    if s == [] then [x]
    else if s[0].sets >= x.sets then [s[0]] + Insert(x, s[1..])
    else [x] + s
  }

  /** `sorted(..., key=lambda x: x['sets'], reverse=True)`: a stable sort,
   *  largest `sets` first. */
  function SortBySets(s: seq<ExerciseStat>): seq<ExerciseStat> {
    if s == [] then []
    else Insert(s[|s| - 1], SortBySets(s[..|s| - 1]))
  }

  /** The entries of `s` with `v` sets, in order. */
  function WithSets(s: seq<ExerciseStat>, v: nat): seq<ExerciseStat> {
    if s == [] then []
    else (if s[0].sets == v then [s[0]] else []) + WithSets(s[1..], v)
  }

  lemma {:induction false} WithSetsAppend(s: seq<ExerciseStat>, t: seq<ExerciseStat>, v: nat)
    ensures WithSets(s + t, v) == WithSets(s, v) + WithSets(t, v)
  {
    if s == [] {
      assert s + t == t;
    } else {
      assert (s + t)[1..] == s[1..] + t;
      WithSetsAppend(s[1..], t, v);
    }
  }

  lemma {:induction false} WithSetsNone(s: seq<ExerciseStat>, v: nat)
    requires forall i :: 0 <= i < |s| ==> s[i].sets != v
    ensures WithSets(s, v) == []
  {
    if s != [] {
      WithSetsNone(s[1..], v);
    }
  }

  lemma {:induction false} InsertPermutes(x: ExerciseStat, s: seq<ExerciseStat>)
    ensures multiset(Insert(x, s)) == multiset(s) + multiset{x}
  {
    if s != [] && s[0].sets >= x.sets {
      InsertPermutes(x, s[1..]);
      assert s == [s[0]] + s[1..];
    }
  }

  lemma {:induction false} InsertSorted(x: ExerciseStat, s: seq<ExerciseStat>)
    requires BySetsDescending(s)
    ensures BySetsDescending(Insert(x, s))
  {
    if s != [] && s[0].sets >= x.sets {
      InsertSorted(x, s[1..]);
      InsertPermutes(x, s[1..]);
      var t := Insert(x, s[1..]);
      forall i | 0 <= i < |t| ensures t[i].sets <= s[0].sets {
        assert t[i] in multiset(s[1..]) + multiset{x};
        if t[i] != x {
          assert t[i] in s[1..];
        }
      }
    }
  }

  lemma {:induction false} InsertStable(x: ExerciseStat, s: seq<ExerciseStat>, v: nat)
    requires BySetsDescending(s)
    ensures WithSets(Insert(x, s), v) == WithSets(s, v) + WithSets([x], v)
  {
    assert [x][1..] == [];
    if s == [] {
    } else if s[0].sets >= x.sets {
      InsertStable(x, s[1..], v);
      assert ([s[0]] + Insert(x, s[1..]))[1..] == Insert(x, s[1..]);
    } else {
      WithSetsNone(s, x.sets);
      assert ([x] + s)[1..] == s;
    }
  }

  /** The sort orders by `sets`, largest first, keeps every entry, and
   *  keeps the entries with equal `sets` in their original order. */
  lemma {:induction false} SortBySetsProperties(s: seq<ExerciseStat>)
    ensures BySetsDescending(SortBySets(s))
    ensures multiset(SortBySets(s)) == multiset(s)
    ensures forall v :: WithSets(SortBySets(s), v) == WithSets(s, v)
  {
    if s != [] {
      var init, last := s[..|s| - 1], s[|s| - 1];
      SortBySetsProperties(init);
      InsertPermutes(last, SortBySets(init));
      InsertSorted(last, SortBySets(init));
      assert s == init + [last];
      forall v ensures WithSets(SortBySets(s), v) == WithSets(s, v) {
        InsertStable(last, SortBySets(init), v);
        WithSetsAppend(init, [last], v);
      }
    }
  }

  /** `sorted(...)[:5]`. */
  function TopFive(entries: seq<ExerciseStat>): seq<ExerciseStat> {
    var sorted := SortBySets(entries);
    sorted[..Min(5, |sorted|)]
  }

  /** At most five entries, largest `sets` first, all taken from the
   *  listing; an entry left out has no more sets than any entry kept; and
   *  among entries with equal `sets`, those kept are the first in the
   *  listing. */
  lemma TopFiveProperties(entries: seq<ExerciseStat>)
    ensures |TopFive(entries)| == Min(5, |entries|)
    ensures BySetsDescending(TopFive(entries))
    ensures multiset(TopFive(entries)) <= multiset(entries)
    ensures forall e, k :: e in entries && e !in TopFive(entries) && 0 <= k < |TopFive(entries)|
                           ==> e.sets <= TopFive(entries)[k].sets
    ensures forall v :: WithSets(TopFive(entries), v) <= WithSets(entries, v)
  {
    var sorted := SortBySets(entries);
    SortBySetsProperties(entries);
    assert |sorted| == |entries| by {
      assert |sorted| == |multiset(sorted)| == |multiset(entries)| == |entries|;
    }
    var m := Min(5, |sorted|);
    var top := sorted[..m];
    assert sorted == top + sorted[m..];
    assert multiset(sorted) == multiset(top) + multiset(sorted[m..]);
    TopFiveDominates(entries, sorted, m);
    forall v ensures WithSets(top, v) <= WithSets(entries, v) {
      WithSetsAppend(top, sorted[m..], v);
    }
  }

  /** An entry left out of the first `m` of the sorted entries has no more
   *  sets than any entry kept. */
  lemma TopFiveDominates(entries: seq<ExerciseStat>, sorted: seq<ExerciseStat>, m: nat)
    requires m <= |sorted| && BySetsDescending(sorted)
    requires multiset(sorted) == multiset(entries)
    ensures forall e, k :: e in entries && e !in sorted[..m] && 0 <= k < m ==> e.sets <= sorted[..m][k].sets
  {
    var top := sorted[..m];
    forall e, k | e in entries && e !in top && 0 <= k < m
      ensures e.sets <= top[k].sets
    {
      assert e in multiset(sorted);
      var p :| 0 <= p < |sorted| && sorted[p] == e;
      assert p >= m;
    }
  }

  /** The value `get_most_used_exercises` returns. */
  function MostUsed(records: seq<Record>): seq<ExerciseStat> {
    TopFive(Entries(records))
  }

  method GetMostUsedExercises(records: seq<Record>) returns (top: seq<ExerciseStat>)
    ensures top == MostUsed(records)
  {
    var keys, stats := TallyExercises(records);
    TableOfDomain(Uses(records));
    var listing := Listing(keys, stats);
    var sorted := SortBySets(listing);
    top := sorted[..Min(5, |sorted|)];
  }

  /** The result holds five entries, or one per distinct exercise name when
   *  there are fewer. */
  lemma MostUsedLength(records: seq<Record>)
    ensures |MostUsed(records)| == Min(5, |Distinct(Names(records))|)
  {
    EntriesMeaning(records);
    TopFiveProperties(Entries(records));
  }
}
