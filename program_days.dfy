/** How a workout program's day map is numbered for display (the loop over
 *  the parsed `exercises` object in `view_program`, app.py:790-803).
 *
 *  The parsed JSON object is an ordered list of (key, exercises) pairs. A
 *  key that mentions a day ("Күн" in Kazakh, "День" in Russian) is filed
 *  under the number its digits spell; any other key, or a day key with no
 *  digits, is filed under one more than the number of days filed so far.
 *  Filing under a number that is already taken replaces what was there.
 */
module ProgramDays {
  import opened Strings

  /** The key names a day. */
  predicate Labelled(day: string) {
    Contains(day, "Күн") || Contains(day, "День")
  }

  /** The number the key `day` is filed under when `count` days are filed. */
  function DayNumber(day: string, count: nat): int {
    var ds := Digits(day);
    if Labelled(day) && ds != [] then DigitsValue(ds) else count + 1
  }

  /** The day map after filing every pair of `days` in order. */
  function Numbered<V>(days: seq<(string, V)>): map<int, V> {
    if days == [] then map[]
    else
      var filed := Numbered(days[..|days| - 1]);
      var (day, exercises) := days[|days| - 1];
      filed[DayNumber(day, |filed|) := exercises]
  }

  /** The loop of `view_program`. */
  method NumberDays<V>(days: seq<(string, V)>) returns (dayExercises: map<int, V>)
    ensures dayExercises == Numbered(days)
  {
    dayExercises := map[];
    for i := 0 to |days|
      invariant dayExercises == Numbered(days[..i])
    {
      assert days[..i + 1][..i] == days[..i];
      var (day, exercises) := days[i];
      var dayNum: int;
      if Contains(day, "Күн") || Contains(day, "День") {
        var ds := Digits(day);
        if ds == [] {
          // `int('')` raises `ValueError`: sequential numbering.
          dayNum := |dayExercises| + 1;
        } else {
          dayNum := DigitsValue(ds);
        }
      } else {
        dayNum := |dayExercises| + 1;
      }
      dayExercises := dayExercises[dayNum := exercises];
    }
    assert days[..|days|] == days;
  }

  /** The numbers 1 to `n`. */
  function UpTo(n: nat): (s: set<int>)
    ensures |s| == n
    ensures forall k :: k in s <==> 1 <= k <= n
  {
    if n == 0 then {} else UpTo(n - 1) + {n}
  }

  /** Keys that name no day are numbered 1, 2, 3, ... in order, so nothing
   *  is lost. */
  lemma {:induction false} PlainDaysInOrder<V>(days: seq<(string, V)>)
    requires forall j :: 0 <= j < |days| ==> !Labelled(days[j].0)
    ensures Numbered(days).Keys == UpTo(|days|)
    ensures forall k :: 1 <= k <= |days| ==> Numbered(days)[k] == days[k - 1].1
  {
    if days != [] {
      var init := days[..|days| - 1];
      PlainDaysInOrder(init);
      var filed := Numbered(init);
      assert |filed| == |filed.Keys| == |days| - 1;
      assert DayNumber(days[|days| - 1].0, |filed|) == |days|;
    }
  }

  /** Every filed value comes from the input, and there are never more days
   *  than keys. */
  lemma {:induction false} NumberedValuesFromInput<V>(days: seq<(string, V)>)
    ensures |Numbered(days)| <= |days|
    ensures forall k :: k in Numbered(days) ==>
      exists j :: 0 <= j < |days| && Numbered(days)[k] == days[j].1
  {
    if days != [] {
      var init := days[..|days| - 1];
      NumberedValuesFromInput(init);
      var filed := Numbered(init);
      var last := days[|days| - 1];
      var key := DayNumber(last.0, |filed|);
      assert Numbered(days).Keys <= filed.Keys + {key};
      forall k | k in Numbered(days)
        ensures exists j :: 0 <= j < |days| && Numbered(days)[k] == days[j].1
      {
        if k == key {
          assert Numbered(days)[k] == days[|days| - 1].1;
        } else {
          var j :| 0 <= j < |init| && filed[k] == init[j].1;
          assert Numbered(days)[k] == days[j].1;
        }
      }
      assert |filed.Keys + {key}| <= |filed.Keys| + 1;
    }
  }

  /** A day heading without digits followed by `str(n)` is filed under `n`,
   *  however many days came before. */
  lemma LabelledDayNumber(heading: string, n: nat, count: nat)
    requires Labelled(heading) && Digits(heading) == []
    ensures DayNumber(heading + DigitsOf(n), count) == n
  {
    var ds := DigitsOf(n);
    if Contains(heading, "Күн") {
      ContainsExtend(heading, "Күн", ds);
    } else {
      ContainsExtend(heading, "День", ds);
    }
    DigitsAppend(heading, ds);
    assert [] + ds == ds;
    DigitsOfDigitString(ds);
    DigitsOfValue(n);
  }

  /** `"Күн " + str(n)` is filed under `n`. */
  lemma KunDayNumber(n: nat, count: nat)
    ensures DayNumber("Күн " + DigitsOf(n), count) == n
  {
    assert "Күн " == "Күн" + " ";
    ContainsPrefix("Күн", " ");
    NoDigits("Күн ");
    LabelledDayNumber("Күн ", n, count);
  }

  lemma ContainsExtend(s: string, t: string, u: string)
    requires Contains(s, t)
    ensures Contains(s + u, t)
  {
    var i :| 0 <= i <= |s| && OccursAt(s, t, i);
    assert (s + u)[i..i + |t|] == s[i..i + |t|];
    assert OccursAt(s + u, t, i);
  }

  /** A plain key after a day key can land on that day and replace its
   *  exercises: `{"Күн 2": a, "3": b}` is shown as `{2: b}`. */
  lemma PlainKeyReplacesLabelledDay<V>(a: V, b: V)
    ensures Numbered([("Күн 2", a), ("3", b)]) == map[2 := b]
  {
    assert DayNumber("Күн 2", 0) == 2 by {
      KunDayNumber(2, 0);
      assert DigitsOf(2)[0] == '2';
      assert "Күн " + DigitsOf(2) == "Күн 2";
    }
    NumberedSnoc([], ("Күн 2", a));
    assert [] + [("Күн 2", a)] == [("Күн 2", a)];
    var first := Numbered([("Күн 2", a)]);
    assert first == map[2 := a];
    assert |first| == 1 by {
      assert first.Keys == {2};
    }
    assert DayNumber("3", 1) == 2 by {
      NotContains("3", "Күн");
      NotContains("3", "День");
    }
    NumberedSnoc([("Күн 2", a)], ("3", b));
    assert [("Күн 2", a)] + [("3", b)] == [("Күн 2", a), ("3", b)];
  }

  lemma NumberedSnoc<V>(days: seq<(string, V)>, d: (string, V))
    ensures Numbered(days + [d]) == Numbered(days)[DayNumber(d.0, |Numbered(days)|) := d.1]
  {
    assert (days + [d])[..|days|] == days;
  }

  /** A string without the first character of `t` does not contain `t`. */
  lemma NotContains(s: string, t: string)
    requires t != [] && t[0] !in s
    ensures !Contains(s, t)
  {
  }

  lemma {:induction false} NoDigits(s: string)
    requires forall i :: 0 <= i < |s| ==> !IsDigit(s[i])
    ensures Digits(s) == []
  {
    if s != [] {
      NoDigits(s[1..]);
    }
  }
}
