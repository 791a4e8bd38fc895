/** Achievement awarding (`check_achievements`, app.py:511-576).
 *
 *  Six catalogue entries, each with a threshold on the number of completed
 *  workouts or on the current streak. Walking the catalogue in order, an
 *  entry is stored for the user when its threshold is met and the user
 *  holds no achievement of that name yet. The two statistics are inputs:
 *  they are what the workout-count query and `calculate_streak` return.
 */
module Achievements {
  import Records
  import Streak

  /** A stored `Achievement` row of the user. */
  datatype Achievement = Achievement(name: string, description: string, icon: string)

  /** The `condition` of a catalogue entry. */
  datatype Condition = WorkoutsAtLeast(count: nat) | StreakAtLeast(days: nat)

  datatype Entry = Entry(achievement: Achievement, condition: Condition)

  predicate Holds(c: Condition, completed: nat, streak: nat) {
    match c
    case WorkoutsAtLeast(n) => completed >= n
    case StreakAtLeast(n) => streak >= n
  }

  /** The `achievements` list, in its order. */
  const Catalogue: seq<Entry> := [
    Entry(Achievement("Бірінші қадам", "Алғашқы жаттығуды аяқтадыңыз", "first-workout.svg"), WorkoutsAtLeast(1)),
    Entry(Achievement("Апта жауынгері", "7 күн қатарынан жаттығу", "streak-7.svg"), StreakAtLeast(7)),
    Entry(Achievement("Жаттығу шебері", "30 жаттығуды аяқтадыңыз", "workout-master.svg"), WorkoutsAtLeast(30)),
    Entry(Achievement("Күшті жауынгер", "14 күн қатарынан жаттығу", "streak-14.svg"), StreakAtLeast(14)),
    Entry(Achievement("Алтын жауынгер", "30 күн қатарынан жаттығу", "streak-30.svg"), StreakAtLeast(30)),
    Entry(Achievement("Жаттығу фанаты", "100 жаттығуды аяқтадыңыз", "workout-100.svg"), WorkoutsAtLeast(100))
  ]

  /** The names of a list of achievements. */
  function NamesOf(held: seq<Achievement>): (names: seq<string>)
    ensures |names| == |held|
    ensures forall i :: 0 <= i < |held| ==> names[i] == held[i].name
  {
    if held == [] then [] else NamesOf(held[..|held| - 1]) + [held[|held| - 1].name]
  }

  lemma NamesOfAppend(a: seq<Achievement>, b: seq<Achievement>)
    ensures NamesOf(a + b) == NamesOf(a) + NamesOf(b)
  {
  }

  /** No two entries name the same achievement. */
  ghost predicate DistinctNames(entries: seq<Entry>) {
    forall i, j :: 0 <= i < j < |entries| ==> entries[i].achievement.name != entries[j].achievement.name
  }

  lemma CatalogueNamesDistinct()
    ensures DistinctNames(Catalogue)
  {
  }

  /** What the walk over `entries` stores for a user holding `held`. */
  function AwardedFrom(entries: seq<Entry>, held: seq<Achievement>, completed: nat, streak: nat): seq<Achievement> {
    if entries == [] then []
    else
      var e := entries[|entries| - 1];
      AwardedFrom(entries[..|entries| - 1], held, completed, streak)
        + (if Holds(e.condition, completed, streak) && e.achievement.name !in NamesOf(held)
           then [e.achievement] else [])
  }

  /** What one call stores. */
  function Awarded(held: seq<Achievement>, completed: nat, streak: nat): seq<Achievement> {
    AwardedFrom(Catalogue, held, completed, streak)
  }

  /** Every achievement stored comes from one of the entries walked, met its
   *  threshold, and was not held before. */
  lemma {:induction false} AwardedFromSound(entries: seq<Entry>, held: seq<Achievement>, completed: nat, streak: nat)
    ensures forall a :: a in AwardedFrom(entries, held, completed, streak) ==>
      a.name !in NamesOf(held) && exists i :: 0 <= i < |entries| && entries[i].achievement == a && Holds(entries[i].condition, completed, streak)
  {
    if entries != [] {
      var init := entries[..|entries| - 1];
      AwardedFromSound(init, held, completed, streak);
      forall a | a in AwardedFrom(init, held, completed, streak)
        ensures exists i :: 0 <= i < |entries| && entries[i].achievement == a && Holds(entries[i].condition, completed, streak)
      {
        var i :| 0 <= i < |init| && init[i].achievement == a && Holds(init[i].condition, completed, streak);
        assert entries[i] == init[i];
      }
    }
  }

  /** An entry walked whose threshold is met ends up held, either from
   *  before or stored now. */
  lemma {:induction false} AwardedFromComplete(entries: seq<Entry>, held: seq<Achievement>, completed: nat, streak: nat)
    ensures forall i :: 0 <= i < |entries| && Holds(entries[i].condition, completed, streak) ==>
      entries[i].achievement.name in NamesOf(held) || entries[i].achievement in AwardedFrom(entries, held, completed, streak)
  {
    if entries != [] {
      var init := entries[..|entries| - 1];
      AwardedFromComplete(init, held, completed, streak);
      forall i | 0 <= i < |init|
        ensures entries[i] == init[i]
      {
      }
    }
  }

  /** With distinct entry names, the entry after a prefix is not among the
   *  names that prefix stored. */
  lemma NextNameNotStored(entries: seq<Entry>, i: nat, held: seq<Achievement>, completed: nat, streak: nat)
    requires DistinctNames(entries) && i < |entries|
    ensures entries[i].achievement.name !in NamesOf(AwardedFrom(entries[..i], held, completed, streak))
  {
    var added := AwardedFrom(entries[..i], held, completed, streak);
    AwardedFromSound(entries[..i], held, completed, streak);
    forall k | 0 <= k < |added|
      ensures added[k].name != entries[i].achievement.name
    {
      assert added[k] in added;
      var j :| 0 <= j < i && entries[..i][j].achievement == added[k] && Holds(entries[..i][j].condition, completed, streak);
      assert entries[..i][j] == entries[j];
    }
  }

  lemma AwardedFromStep(entries: seq<Entry>, i: nat, held: seq<Achievement>, completed: nat, streak: nat)
    requires i < |entries|
    ensures var e := entries[i];
      AwardedFrom(entries[..i + 1], held, completed, streak)
        == AwardedFrom(entries[..i], held, completed, streak)
           + (if Holds(e.condition, completed, streak) && e.achievement.name !in NamesOf(held)
              then [e.achievement] else [])
  {
    assert entries[..i + 1][..i] == entries[..i];
  }

  /** With distinct entry names, no name is stored twice. */
  lemma {:induction false} AwardedFromDistinct(entries: seq<Entry>, held: seq<Achievement>, completed: nat, streak: nat)
    requires DistinctNames(entries)
    ensures var a := AwardedFrom(entries, held, completed, streak);
      forall i, j :: 0 <= i < j < |a| ==> a[i].name != a[j].name
  {
    if entries != [] {
      var n := |entries| - 1;
      var init, e := entries[..n], entries[n];
      assert DistinctNames(init) by {
        forall i, j | 0 <= i < j < |init|
          ensures init[i].achievement.name != init[j].achievement.name
        {
          assert init[i] == entries[i] && init[j] == entries[j];
        }
      }
      AwardedFromDistinct(init, held, completed, streak);
      NextNameNotStored(entries, n, held, completed, streak);
      var a := AwardedFrom(init, held, completed, streak);
      var r := AwardedFrom(entries, held, completed, streak);
      forall i, j | 0 <= i < j < |r|
        ensures r[i].name != r[j].name
      {
        if j < |a| {
          assert r[i] == a[i] && r[j] == a[j];
        } else {
          assert r[i] == a[i] && r[j] == e.achievement;
          assert NamesOf(a)[i] == a[i].name;
        }
      }
    }
  }

  /** After a walk over entries with distinct names, the user holds every
   *  achievement whose threshold is met; everything stored met its
   *  threshold and was not held before, and no name is stored twice. */
  lemma AwardedFromProperties(entries: seq<Entry>, held: seq<Achievement>, completed: nat, streak: nat)
    requires DistinctNames(entries)
    ensures forall i :: 0 <= i < |entries| && Holds(entries[i].condition, completed, streak) ==>
      entries[i].achievement.name in NamesOf(held + AwardedFrom(entries, held, completed, streak))
    ensures forall a :: a in AwardedFrom(entries, held, completed, streak) ==>
      a.name !in NamesOf(held) && exists i :: 0 <= i < |entries| && entries[i].achievement == a && Holds(entries[i].condition, completed, streak)
    ensures var a := AwardedFrom(entries, held, completed, streak);
      forall i, j :: 0 <= i < j < |a| ==> a[i].name != a[j].name
  {
    AwardedFromSound(entries, held, completed, streak);
    AwardedFromDistinct(entries, held, completed, streak);
    HeldAfter(entries, held, completed, streak);
  }

  /** Every entry whose threshold is met is held after the walk. */
  lemma HeldAfter(entries: seq<Entry>, held: seq<Achievement>, completed: nat, streak: nat)
    ensures forall i :: 0 <= i < |entries| && Holds(entries[i].condition, completed, streak) ==>
      entries[i].achievement.name in NamesOf(held + AwardedFrom(entries, held, completed, streak))
  {
    var a := AwardedFrom(entries, held, completed, streak);
    AwardedFromComplete(entries, held, completed, streak);
    NamesOfAppend(held, a);
    forall i | 0 <= i < |entries| && Holds(entries[i].condition, completed, streak)
      ensures entries[i].achievement.name in NamesOf(held + a)
    {
      if entries[i].achievement in a {
        var k :| 0 <= k < |a| && a[k] == entries[i].achievement;
        assert NamesOf(held + a)[|held| + k] == entries[i].achievement.name;
      }
    }
  }

  lemma NoMemberEmpty(s: seq<Achievement>)
    requires forall a :: a !in s
    ensures s == []
  {
    if s != [] {
      FirstIsMember(s);
      assert false;
    }
  }

  lemma FirstIsMember(s: seq<Achievement>)
    requires s != []
    ensures s[0] in s
  {
  }

  /** A second walk with the same statistics stores nothing. */
  lemma AwardedFromIdempotent(entries: seq<Entry>, held: seq<Achievement>, completed: nat, streak: nat)
    ensures AwardedFrom(entries, held + AwardedFrom(entries, held, completed, streak), completed, streak) == []
  {
    var after := held + AwardedFrom(entries, held, completed, streak);
    HeldAfter(entries, held, completed, streak);
    AwardedFromSound(entries, after, completed, streak);
    var again := AwardedFrom(entries, after, completed, streak);
    assert forall a :: a !in again;
    NoMemberEmpty(again);
  }

  /** Thirty workouts and a seven-day streak, from nothing: the first-step,
   *  week-warrior and workout-master achievements, in catalogue order. */
  lemma ThirtyWorkoutsWeekStreak()
    ensures Awarded([], 30, 7) == [Catalogue[0].achievement, Catalogue[1].achievement, Catalogue[2].achievement]
  {
    var c := Catalogue;
    assert c[..6][..5] == c[..5] && c[..5][..4] == c[..4] && c[..4][..3] == c[..3];
    assert c[..3][..2] == c[..2] && c[..2][..1] == c[..1] && c[..1][..0] == [];
    assert AwardedFrom(c[..1], [], 30, 7) == [c[0].achievement];
    assert AwardedFrom(c[..2], [], 30, 7) == [c[0].achievement, c[1].achievement];
    assert AwardedFrom(c[..3], [], 30, 7) == [c[0].achievement, c[1].achievement, c[2].achievement];
    assert AwardedFrom(c[..4], [], 30, 7) == AwardedFrom(c[..3], [], 30, 7);
    assert AwardedFrom(c[..5], [], 30, 7) == AwardedFrom(c[..4], [], 30, 7);
    assert c[..6] == c;
  }

  /** Two streak values under which every entry's condition has the same
   *  truth value give the same awards. */
  lemma {:induction false} AwardedFromStreakInsensitive(entries: seq<Entry>, held: seq<Achievement>, completed: nat, s: nat, t: nat)
    requires forall i :: 0 <= i < |entries| ==>
      Holds(entries[i].condition, completed, s) == Holds(entries[i].condition, completed, t)
    ensures AwardedFrom(entries, held, completed, s) == AwardedFrom(entries, held, completed, t)
  {
    if entries != [] {
      var init := entries[..|entries| - 1];
      assert forall i :: 0 <= i < |init| ==> init[i] == entries[i];
      AwardedFromStreakInsensitive(init, held, completed, s, t);
    }
  }

  /** Below seven days the streak plays no part in the awards: the
   *  catalogue's smallest streak threshold is seven. */
  lemma ShortStreakIrrelevant(held: seq<Achievement>, completed: nat, streak: nat)
    requires streak < 7
    ensures Awarded(held, completed, streak) == Awarded(held, completed, 0)
  {
    var c := Catalogue;
    assert forall i :: 0 <= i < |c| ==> c[i].condition.StreakAtLeast? ==> c[i].condition.days >= 7;
    AwardedFromStreakInsensitive(c, held, completed, streak, 0);
  }

  /** With the streak as `calculate_streak` computes it, for a history
   *  listed newest first with nothing after tomorrow, the streak achievements
   *  can never be earned: the awards are those of a zero streak. */
  lemma StreakAsWrittenNeverCounts(held: seq<Achievement>, records: seq<Records.Record>, today: int)
    requires forall i, j :: 0 <= i < j < |records| ==> records[j].date <= records[i].date
    requires forall i :: 0 <= i < |records| ==> Records.DayOf(records[i].date) <= today + 1
    ensures var current := Streak.StreakOf(Streak.Days(records), today).0;
            Awarded(held, |records|, current) == Awarded(held, |records|, 0)
  {
    var days := Streak.Days(records);
    forall i, j | 0 <= i < j < |days|
      ensures days[j] <= days[i]
    {
      Records.DayOfMonotone(records[j].date, records[i].date);
    }
    Streak.CurrentStreakAsWrittenShort(days, today);
    ShortStreakIrrelevant(held, |records|, Streak.StreakOf(days, today).0);
  }

  /** The user's stored achievements. */
  class AchievementLog {
    var held: seq<Achievement>

    constructor (initial: seq<Achievement>)
      ensures held == initial
    {
      held := initial;
    }

    /** The awarding loop over the catalogue. */
    method CheckAchievements(completed: nat, streak: nat)
      modifies this
      ensures held == old(held) + Awarded(old(held), completed, streak)
    {
      CatalogueNamesDistinct();
      AwardFrom(Catalogue, completed, streak);
    }

    /** The loop over `entries`. The existence query sees the rows added
     *  earlier in the same call (the session flushes before querying);
     *  since the entry names are distinct, this does not change the
     *  outcome. */
    method AwardFrom(entries: seq<Entry>, completed: nat, streak: nat)
      requires DistinctNames(entries)
      modifies this
      ensures held == old(held) + AwardedFrom(entries, old(held), completed, streak)
    {
      var i := 0;
      while i < |entries|
        invariant 0 <= i <= |entries|
        invariant held == old(held) + AwardedFrom(entries[..i], old(held), completed, streak)
      {
        var entry := entries[i];
        NextNameNotStored(entries, i, old(held), completed, streak);
        NamesOfAppend(old(held), AwardedFrom(entries[..i], old(held), completed, streak));
        AwardedFromStep(entries, i, old(held), completed, streak);
        var existing := entry.achievement.name in NamesOf(held);
        if Holds(entry.condition, completed, streak) && !existing {
          held := held + [entry.achievement];
        }
        i := i + 1;
      }
      assert entries[..i] == entries;
    }
  }
}
