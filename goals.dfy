/** The goal progress update (`update_goal_progress`, app.py:715-742).
 *
 *  Only the owner may update a goal. The submitted progress goes through
 *  `int(...)`; when that fails, or the value lies outside 0..100, the goal
 *  is left as it is. Otherwise the progress is stored and the goal is
 *  completed exactly when the progress is 100.
 */
module Goals {
  import opened Strings
  import opened Records

  /** What `progress` holds before `int(progress)`: a form field (a
   *  string), a JSON integer or boolean, or nothing (the default 0). */
  datatype ProgressInput = Text(text: string) | Whole(number: int) | Flag(flag: bool) | Absent

  /** The digit part `int` accepts: digits, where an underscore may stand
   *  between two digits (so not first, not last, and never two in a row). */
  predicate WellGrouped(s: string) {
    && s != []
    && IsDigit(s[0])
    && IsDigit(s[|s| - 1])
    && (forall i :: 0 <= i < |s| && s[i] != '_' ==> IsDigit(s[i]))
    && (forall i, j :: 0 <= i < |s| && 0 <= j < |s| && j == i + 1 && s[i] == '_' ==> IsDigit(s[j]))
  }

  /** The digits of `s` with the grouping underscores removed, in order:
   *  one character is kept unless it is an underscore, and
   *  `DropUnderscoresAppend` extends this to any text. */
  function DropUnderscores(s: string): (d: string)
    ensures |d| <= |s|
    ensures '_' !in d
    ensures |s| == 1 ==> d == (if s[0] == '_' then [] else s)
    ensures (forall i :: 0 <= i < |s| && s[i] != '_' ==> IsDigit(s[i])) ==> AllDigits(d)
  {
    if s == [] then []
    else if s[|s| - 1] == '_' then DropUnderscores(s[..|s| - 1])
    else DropUnderscores(s[..|s| - 1]) + [s[|s| - 1]]
  }

  lemma {:induction false} DropUnderscoresAppend(s: string, t: string)
    ensures DropUnderscores(s + t) == DropUnderscores(s) + DropUnderscores(t)
  {
    if t == [] {
      assert s + t == s;
    } else {
      var init := t[..|t| - 1];
      DropUnderscoresAppend(s, init);
      assert (s + t)[..|s + t| - 1] == s + init;
      assert (s + t)[|s + t| - 1] == t[|t| - 1];
    }
  }

  /** `int(s)` for a string, base 10, ASCII: surrounding whitespace is
   *  ignored, then one sign may come first, then grouped digits; anything
   *  else is a `ValueError`, modelled as None. */
  function ParseInt(s: string): (r: Option<int>)
    ensures r.Some? ==> Strip(s) != [] && (r.value < 0 ==> Strip(s)[0] == '-')
  {
    ParseStripped(Strip(s))
  }

  /** `int` on text with no surrounding whitespace. */
  function ParseStripped(t: string): (r: Option<int>)
    ensures r.Some? ==> t != [] && (r.value < 0 ==> t[0] == '-')
  {
    if t == [] then None
    else
      var body := if t[0] == '-' || t[0] == '+' then t[1..] else t;
      if !WellGrouped(body) then None
      else
        Some(Signed(t[0] == '-', DigitsValue(DropUnderscores(body))))
  }

  function Signed(negative: bool, v: nat): int {
    if negative then -(v as int) else v
  }

  /** `int(progress)`: a JSON integer is itself, `True`/`False` are 1/0, and
   *  the default is 0. Only text can fail to convert. */
  function ProgressValue(input: ProgressInput): (r: Option<int>)
    ensures r.None? ==> input.Text?
    ensures input.Flag? ==> r.Some? && 0 <= r.value <= 1
  {
    match input
    case Text(s) => ParseInt(s)
    case Whole(n) => Some(n)
    case Flag(b) => Some(if b then 1 else 0)
    case Absent => Some(0)
  }

  datatype Outcome = Forbidden | InvalidProgress | Updated(progress: int)

  /** Which branch the handler takes for a goal owned by `owner`, submitted
   *  by `user`. */
  function Decide(owner: int, user: int, input: ProgressInput): (o: Outcome)
    ensures o == Forbidden <==> owner != user
    ensures o.Updated? ==> 0 <= o.progress <= 100 && ProgressValue(input) == Some(o.progress)
  {
    if owner != user then Forbidden
    else
      match ProgressValue(input)
      case None => InvalidProgress
      case Some(v) => if 0 <= v <= 100 then Updated(v) else InvalidProgress
  }

  /** A goal is updated exactly when its owner submits a whole number from
   *  0 to 100, and then to that number. */
  lemma DecideUpdates(owner: int, user: int, input: ProgressInput, v: int)
    ensures Decide(owner, user, input) == Updated(v)
        <==> owner == user && ProgressValue(input) == Some(v) && 0 <= v <= 100
    ensures owner != user <==> Decide(owner, user, input) == Forbidden
  {
  }

  // ---------------------------------------------------------------------
  // What `ParseInt` accepts.

  lemma {:induction false} DropUnderscoresOfDigits(ds: string)
    requires AllDigits(ds)
    ensures DropUnderscores(ds) == ds
  {
    if ds != [] {
      DropUnderscoresOfDigits(ds[..|ds| - 1]);
    }
  }

  /** A sign (or none) followed by plain digits parses to their value. */
  lemma ParseSignedDigits(sign: string, ds: string)
    requires sign == "" || sign == "-" || sign == "+"
    requires ds != [] && AllDigits(ds)
    ensures ParseInt(sign + ds) == Some(Signed(sign == "-", DigitsValue(ds)))
  {
    var s := sign + ds;
    assert Strip(s) == s by {
      assert s[|s| - 1] == ds[|ds| - 1];
      assert !IsSpace(s[0]) by {
        if sign != "" { assert s[0] == sign[0]; } else { assert s[0] == ds[0]; }
      }
      StripTrimmed(s);
    }
    ParseStrippedSigned(sign, ds);
  }

  lemma ParseStrippedSigned(sign: string, ds: string)
    requires sign == "" || sign == "-" || sign == "+"
    requires ds != [] && AllDigits(ds)
    ensures ParseStripped(sign + ds) == Some(Signed(sign == "-", DigitsValue(ds)))
  {
    var s := sign + ds;
    assert (if s[0] == '-' || s[0] == '+' then s[1..] else s) == ds by {
      if sign != "" {
        assert s[1..] == ds;
      } else {
        assert s == ds;
        assert ds[0] != '-' && ds[0] != '+';
      }
    }
    DigitsWellGrouped(ds);
    assert s[0] == '-' <==> sign == "-";
  }

  lemma DigitsWellGrouped(ds: string)
    requires ds != [] && AllDigits(ds)
    ensures WellGrouped(ds) && DropUnderscores(ds) == ds
  {
    DropUnderscoresOfDigits(ds);
  }

  /** `int(str(n)) == n`: every integer's decimal form parses back to it. */
  lemma ParseDecimal(n: int)
    ensures ParseInt(Decimal(n)) == Some(n)
  {
    var m: nat := if n < 0 then -n else n;
    var ds := DigitsOf(m);
    DigitsOfValue(m);
    if n < 0 {
      assert Decimal(n) == "-" + ds;
      ParseSignedDigits("-", ds);
    } else {
      assert Decimal(n) == "" + ds;
      ParseSignedDigits("", ds);
    }
  }

  /** Whitespace around the text is ignored. */
  lemma ParseSurroundedBySpace(w1: string, t: string, w2: string)
    requires forall i :: 0 <= i < |w1| ==> IsSpace(w1[i])
    requires forall i :: 0 <= i < |w2| ==> IsSpace(w2[i])
    requires t == [] || (!IsSpace(t[0]) && !IsSpace(t[|t| - 1]))
    ensures ParseInt(w1 + t + w2) == ParseStripped(t)
  {
    StripSurrounded(w1, t, w2);
  }

  /** An underscore between two runs of digits is accepted and ignored. */
  lemma ParseGrouped(a: string, b: string)
    requires a != [] && AllDigits(a)
    requires b != [] && AllDigits(b)
    ensures ParseInt(a + "_" + b) == ParseInt(a + b)
  {
    var s := a + "_" + b;
    assert s[0] == a[0] && s[|s| - 1] == b[|b| - 1];
    StripTrimmed(s);
    GroupedDigits(a, b);
    DropGroupedUnderscore(a, b);
    assert ParseInt(s) == Some(DigitsValue(a + b));
    assert "" + (a + b) == a + b;
    ParseSignedDigits("", a + b);
  }

  lemma GroupedDigits(a: string, b: string)
    requires a != [] && AllDigits(a)
    requires b != [] && AllDigits(b)
    ensures WellGrouped(a + "_" + b)
  {
    var s := a + "_" + b;
    forall i | 0 <= i < |s| && s[i] != '_'
      ensures IsDigit(s[i])
    {
      if i < |a| {
        assert s[i] == a[i];
      } else {
        assert s[i] == b[i - |a| - 1];
      }
    }
    forall i, j | 0 <= i < |s| && 0 <= j < |s| && j == i + 1 && s[i] == '_'
      ensures IsDigit(s[j])
    {
      if i == |a| {
        assert s[j] == b[0];
      }
    }
  }

  lemma DropGroupedUnderscore(a: string, b: string)
    requires AllDigits(a) && AllDigits(b)
    ensures DropUnderscores(a + "_" + b) == a + b
  {
    assert a + "_" + b == a + ("_" + b);
    DropUnderscoresAppend("_", b);
    DropUnderscoresOfDigits(b);
    assert DropUnderscores("_") == [];
    assert DropUnderscores("_" + b) == b;
    DropUnderscoresAppend(a, "_" + b);
    DropUnderscoresOfDigits(a);
  }

  /** Text that is empty once stripped, that starts with an underscore, or
   *  that holds a decimal point or two underscores in a row is rejected. */
  lemma ParseRejects(s: string)
    ensures Strip(s) == [] ==> ParseInt(s) == None
    ensures Strip(s) != [] && Strip(s)[0] == '_' ==> ParseInt(s) == None
    ensures '.' in s ==> ParseInt(s) == None
    ensures Contains(s, "__") ==> ParseInt(s) == None
  {
    if '.' in s {
      var i :| 0 <= i < |s| && s[i] == '.';
      StripKeeps(s, i);
      RejectsAt(Strip(s), i - LeadingSpaces(s), '.');
    }
    if Contains(s, "__") {
      RejectsDoubleUnderscore(s);
    }
  }

  lemma RejectsDoubleUnderscore(s: string)
    requires Contains(s, "__")
    ensures ParseInt(s) == None
  {
    var i :| 0 <= i <= |s| && OccursAt(s, "__", i);
    assert s[i] == '_' && s[i + 1] == '_' by {
      assert s[i..i + 2] == "__";
    }
    StripKeeps(s, i);
    StripKeeps(s, i + 1);
    RejectsAt(Strip(s), i - LeadingSpaces(s), '_');
  }

  /** A character other than a digit at position `k` of stripped text, and
   *  for an underscore one more right after it, makes `int` fail. */
  lemma RejectsAt(t: string, k: int, c: char)
    requires c == '.' || c == '_'
    requires 0 <= k < |t| && t[k] == c
    requires c == '_' ==> k + 1 < |t| && t[k + 1] == '_'
    ensures ParseStripped(t) == None
  {
    var body := if t[0] == '-' || t[0] == '+' then t[1..] else t;
    if t[0] == '-' || t[0] == '+' {
      assert k >= 1;
      assert body[k - 1] == c;
      if c == '_' {
        assert body[k] == '_';
      }
    } else {
      assert body[k] == c;
    }
  }

  /** A `Goal` row: its owner, progress and completion flag. */
  class Goal {
    var userId: int
    var progress: int
    var isCompleted: bool

    constructor (owner: int, initialProgress: int, completed: bool)
      ensures userId == owner && progress == initialProgress && isCompleted == completed
    {
      userId := owner;
      progress := initialProgress;
      isCompleted := completed;
    }

    /** The handler's checks and assignments. */
    method UpdateProgress(user: int, input: ProgressInput) returns (outcome: Outcome)
      modifies this
      ensures outcome == Decide(old(userId), user, input)
      ensures outcome.Updated? ==> progress == outcome.progress && isCompleted == (progress == 100)
      ensures !outcome.Updated? ==> progress == old(progress) && isCompleted == old(isCompleted)
      ensures userId == old(userId)
    {
      if userId != user {
        return Forbidden;
      }
      var value := ProgressValue(input);
      if value.None? || !(0 <= value.value <= 100) {
        return InvalidProgress;
      }
      progress := value.value;
      isCompleted := value.value == 100;
      outcome := Updated(value.value);
    }
  }
}
