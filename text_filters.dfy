/** The small text rules of the application: which uploads are accepted
 *  (`allowed_file`, app.py:186-187), the `nl2br` template filter
 *  (app.py:818-823) and the translation of an exercise's labels for the
 *  exercise list (app.py:1141-1152).
 */
module TextFilters {
  import opened Strings
  import opened Records

  // ---------------------------------------------------------------------
  // Uploads.

  /** `ALLOWED_EXTENSIONS`. */
  const AllowedExtensions: set<string> := {"png", "jpg", "jpeg", "gif", "mp4", "webm"}

  /** `filename.rsplit('.', 1)[1]`: what follows the last dot. */
  function Extension(filename: string): string
    requires '.' in filename
  {
    filename[LastIndexOf(filename, '.') + 1..]
  }

  /** `allowed_file`: the name has a dot and its extension, lower-cased, is
   *  one of the allowed ones. A name with no dot is refused, and an
   *  accepted extension has three or four characters. */
  function AllowedFile(filename: string): (allowed: bool)
    ensures '.' !in filename ==> !allowed
    ensures allowed ==> '.' in filename && 3 <= |Extension(filename)| <= 4
  {
    '.' in filename && Lower(Extension(filename)) in AllowedExtensions
  }

  /** Only the part after the last dot decides, whatever the case of its
   *  letters and whatever comes before it. */
  lemma AllowedFileIff(base: string, ext: string)
    requires '.' !in ext
    ensures AllowedFile(base + "." + ext) <==> Lower(ext) in AllowedExtensions
  {
    LastIndexOfSuffix(base, '.', ext);
    var f := base + "." + ext;
    assert f[|base| + 1..] == ext;
  }

  /** The case of the extension does not matter. */
  lemma UpperCaseExtensionAllowed()
    ensures AllowedFile("photo.JPG")
  {
    assert "photo.JPG" == "photo" + "." + "JPG";
    assert Lower("JPG") == "jpg";
    AllowedFileIff("photo", "JPG");
  }

  /** Only the last extension counts: an allowed one earlier in the name
   *  does not help. */
  lemma EarlierExtensionIgnored()
    ensures !AllowedFile("clip.mp4.exe")
  {
    assert "clip.mp4.exe" == "clip.mp4" + "." + "exe";
    assert Lower("exe") == "exe";
    AllowedFileIff("clip.mp4", "exe");
  }

  // ---------------------------------------------------------------------
  // `nl2br`.

  /** `nl2br`: a missing or empty value is returned as it is, any other text
   *  has each newline replaced by `<br>`. */
  function NlToBr(value: Option<string>): (r: Option<string>)
    ensures r.None? <==> value.None?
    ensures r.Some? ==> '\n' !in r.value || r == Some([])
  {
    match value
    case None => None
    case Some(s) =>
      if s == [] then value
      else
        ReplaceCharRemoves(s, '\n', "<br>");
        Some(ReplaceChar(s, '\n', "<br>"))
  }

  /** Turns each `<br>` back into a newline. */
  function BrToNl(s: string): string {
    if |s| >= 4 && s[..4] == "<br>" then "\n" + BrToNl(s[4..])
    else if s == [] then []
    else [s[0]] + BrToNl(s[1..])
  }

  /** The filter is `'<br>'.join(s.split('\n'))`, leaves no newline behind,
   *  and grows the text by three characters per newline. */
  lemma NlToBrProperties(s: string)
    ensures NlToBr(Some(s)) == Some(Join(Split(s, '\n'), "<br>"))
    ensures '\n' !in NlToBr(Some(s)).value
    ensures |NlToBr(Some(s)).value| == |s| + 3 * Records.Occurrences(s, '\n')
  {
    ReplaceCharIsJoinSplit(s, '\n', "<br>");
    ReplaceCharRemoves(s, '\n', "<br>");
    NewlinesLength(s);
  }

  lemma {:induction false} NewlinesLength(s: string)
    ensures |ReplaceChar(s, '\n', "<br>")| == |s| + 3 * Records.Occurrences(s, '\n')
  {
    if s != [] {
      NewlinesLength(s[1..]);
    }
  }

  /** Text with no `<` in it is recovered from its filtered form. */
  lemma {:induction false} NlToBrRoundTrip(s: string)
    requires '<' !in s
    ensures BrToNl(ReplaceChar(s, '\n', "<br>")) == s
  {
    if s != [] {
      NlToBrRoundTrip(s[1..]);
      var rest := ReplaceChar(s[1..], '\n', "<br>");
      if s[0] == '\n' {
        var t := "<br>" + rest;
        assert t[..4] == "<br>" && t[4..] == rest;
      } else {
        var t := [s[0]] + rest;
        assert t[1..] == rest;
        assert t[0] != '<';
      }
    }
  }

  // ---------------------------------------------------------------------
  // Exercise labels.

  /** `MUSCLE_GROUP_TRANSLATIONS`. */
  const MuscleGroupTranslations: map<string, string> := map[
    "Chest" := "Кеуде",
    "Back" := "Арқа",
    "Shoulders" := "Иық",
    "Legs" := "Аяқ",
    "Biceps" := "Бицепс",
    "Triceps" := "Трицепс"]

  /** `DIFFICULTY_TRANSLATIONS`. */
  const DifficultyTranslations: map<string, string> := map[
    "Beginner" := "Бастауыш",
    "Intermediate" := "Орташа",
    "Advanced" := "Жоғары"]

  /** `EQUIPMENT_TRANSLATIONS`. */
  const EquipmentTranslations: map<string, string> := map[
    "Barbell" := "Штанга",
    "Pull-up Bar" := "Турник",
    "Bench" := "Орындық",
    "Cable Machine" := "Блок құрылғысы",
    "Dumbbells" := "Гантельдер"]

  /** `table.get(name, name)`. */
  function Translate(table: map<string, string>, name: string): string {
    if name in table then table[name] else name
  }

  function TranslateOption(table: map<string, string>, name: Option<string>): Option<string> {
    if name.Some? && name.value in table then Some(table[name.value]) else name
  }

  /** Each comma-separated piece, stripped and translated. */
  function TranslatePieces(pieces: seq<string>, table: map<string, string>): (items: seq<string>)
    ensures |items| == |pieces|
  {
    seq(|pieces|, i requires 0 <= i < |pieces| => Translate(table, Strip(pieces[i])))
  }

  /** The rewrite of a comma-separated column: empty or missing stays as it
   *  is, otherwise split on commas, strip and translate each piece, and
   *  join with `", "`. */
  function TranslateList(field: Option<string>, table: map<string, string>): (r: Option<string>)
    ensures r.None? <==> field.None?
    ensures field.Some? && field.value != [] && ',' !in field.value ==>
      r == Some(Translate(table, Strip(field.value)))
  {
    if field.None? || field.value == [] then field
    else Some(Join(TranslatePieces(Split(field.value, ','), table), ", "))
  }

  /** The columns of an exercise that the list page rewrites. */
  datatype ExerciseLabels = ExerciseLabels(
    muscleGroup: Option<string>,
    difficulty: Option<string>,
    equipment: Option<string>,
    secondaryMuscles: Option<string>)

  /** The four labels translated: a known muscle group or difficulty
   *  becomes its translation, the two comma-separated columns go through
   *  `TranslateList`, a null label stays null and a label the table does not
   *  know is kept as it is. */
  function TranslateExercise(e: ExerciseLabels): (r: ExerciseLabels)
    ensures r.muscleGroup.None? <==> e.muscleGroup.None?
    ensures r.difficulty.None? <==> e.difficulty.None?
    ensures r.equipment.None? <==> e.equipment.None?
    ensures r.secondaryMuscles.None? <==> e.secondaryMuscles.None?
    ensures e.muscleGroup.Some? && e.muscleGroup.value !in MuscleGroupTranslations ==> r.muscleGroup == e.muscleGroup
    ensures e.difficulty.Some? && e.difficulty.value !in DifficultyTranslations ==> r.difficulty == e.difficulty
    ensures e.muscleGroup.Some? && e.muscleGroup.value in MuscleGroupTranslations ==>
      r.muscleGroup == Some(MuscleGroupTranslations[e.muscleGroup.value])
    ensures e.difficulty.Some? && e.difficulty.value in DifficultyTranslations ==>
      r.difficulty == Some(DifficultyTranslations[e.difficulty.value])
    ensures r.equipment == TranslateList(e.equipment, EquipmentTranslations)
    ensures r.secondaryMuscles == TranslateList(e.secondaryMuscles, MuscleGroupTranslations)
  {
    ExerciseLabels(
      TranslateOption(MuscleGroupTranslations, e.muscleGroup),
      TranslateOption(DifficultyTranslations, e.difficulty),
      TranslateList(e.equipment, EquipmentTranslations),
      TranslateList(e.secondaryMuscles, MuscleGroupTranslations))
  }

  /** No translation has a comma in it or whitespace at either end. */
  predicate CleanValues(table: map<string, string>) {
    forall k :: k in table ==> ',' !in table[k] && Strip(table[k]) == table[k]
  }

  /** Splitting the rewritten column on commas again gives one piece per
   *  original piece, and each, stripped, is the translation of the
   *  original piece stripped. */
  lemma TranslateListResplit(field: string, table: map<string, string>)
    requires field != []
    requires CleanValues(table)
    ensures var pieces := Split(field, ',');
            var again := Split(TranslateList(Some(field), table).value, ',');
            |again| == |pieces|
            && forall i :: 0 <= i < |pieces| ==> Strip(again[i]) == Translate(table, Strip(pieces[i]))
  {
    var pieces := Split(field, ',');
    ResplitIsSpaced(field, table);
    SpacedItems(pieces, table);
  }

  /** The rewritten column splits back into the spaced items. */
  lemma ResplitIsSpaced(field: string, table: map<string, string>)
    requires field != []
    requires CleanValues(table)
    ensures Split(TranslateList(Some(field), table).value, ',')
         == Spaced(TranslatePieces(Split(field, ','), table))
  {
    var pieces := Split(field, ',');
    var items := TranslatePieces(pieces, table);
    var spaced := Spaced(items);
    assert forall i :: 0 <= i < |spaced| ==> ',' !in spaced[i] by {
      forall i | 0 <= i < |items|
        ensures ',' !in spaced[i]
      {
        TranslatedItem(pieces[i], table);
        assert items[i] == Translate(table, Strip(pieces[i]));
      }
    }
    JoinSpaced(items);
    SplitJoin(spaced, ',');
  }

  /** Each spaced item, stripped, is its piece stripped and translated. */
  lemma SpacedItems(pieces: seq<string>, table: map<string, string>)
    requires CleanValues(table)
    requires forall i :: 0 <= i < |pieces| ==> ',' !in pieces[i]
    ensures var spaced := Spaced(TranslatePieces(pieces, table));
            forall i :: 0 <= i < |pieces| ==> Strip(spaced[i]) == Translate(table, Strip(pieces[i]))
  {
    var items := TranslatePieces(pieces, table);
    forall i | 0 <= i < |pieces|
      ensures Strip(Spaced(items)[i]) == Translate(table, Strip(pieces[i]))
    {
      var item := Translate(table, Strip(pieces[i]));
      assert items[i] == item;
      TranslatedItem(pieces[i], table);
      if i > 0 {
        StripSpacePrefix(item);
      }
    }
  }

  /** A piece stripped and translated has no comma and strips to itself. */
  lemma TranslatedItem(p: string, table: map<string, string>)
    requires CleanValues(table) && ',' !in p
    ensures var item := Translate(table, Strip(p)); ',' !in item && Strip(item) == item
  {
    StripClean(p);
  }

  /** A stripped piece of a comma split has no comma and strips to itself. */
  lemma StripClean(p: string)
    ensures var t := Strip(p); (',' in t ==> ',' in p) && Strip(t) == t
  {
    var t := Strip(p);
    StripTrimmed(t);
    if ',' in t {
      var k :| 0 <= k < |t| && t[k] == ',';
      StripFrom(p, k);
    }
  }

  /** Every item after the first with a space in front of it. */
  function Spaced(items: seq<string>): (r: seq<string>)
    ensures |r| == |items|
  {
    seq(|items|, i requires 0 <= i < |items| => if i == 0 then items[i] else " " + items[i])
  }

  /** Joining with `", "` is joining the spaced items with `","`. */
  lemma {:induction false} JoinSpaced(items: seq<string>)
    ensures Join(items, ", ") == Join(Spaced(items), ",")
  {
    if |items| > 1 {
      JoinSpaced(items[1..]);
      var tail := Spaced(items[1..]);
      var s := Spaced(items);
      assert s[1..] == [" " + tail[0]] + tail[1..];
      JoinConsHead(" ", tail, ",");
    }
  }

  lemma StripSpacePrefix(t: string)
    ensures Strip(" " + t) == Strip(t)
  {
    assert (" " + t)[1..] == t;
  }

  /** The three translation tables meet the condition of the re-split
   *  property. */
  lemma MuscleGroupTranslationsClean()
    ensures CleanValues(MuscleGroupTranslations)
  {
    var m: map<string, string> := map[];
    CleanAdd(m, "Chest", "Кеуде");
    m := m["Chest" := "Кеуде"];
    CleanAdd(m, "Back", "Арқа");
    m := m["Back" := "Арқа"];
    CleanAdd(m, "Shoulders", "Иық");
    m := m["Shoulders" := "Иық"];
    CleanAdd(m, "Legs", "Аяқ");
    m := m["Legs" := "Аяқ"];
    CleanAdd(m, "Biceps", "Бицепс");
    m := m["Biceps" := "Бицепс"];
    CleanAdd(m, "Triceps", "Трицепс");
    m := m["Triceps" := "Трицепс"];
    assert m == MuscleGroupTranslations;
  }

  lemma DifficultyTranslationsClean()
    ensures CleanValues(DifficultyTranslations)
  {
    var m: map<string, string> := map[];
    CleanAdd(m, "Beginner", "Бастауыш");
    m := m["Beginner" := "Бастауыш"];
    CleanAdd(m, "Intermediate", "Орташа");
    m := m["Intermediate" := "Орташа"];
    CleanAdd(m, "Advanced", "Жоғары");
    m := m["Advanced" := "Жоғары"];
    assert m == DifficultyTranslations;
  }

  lemma EquipmentTranslationsClean()
    ensures CleanValues(EquipmentTranslations)
  {
    var m: map<string, string> := map[];
    CleanAdd(m, "Barbell", "Штанга");
    m := m["Barbell" := "Штанга"];
    CleanAdd(m, "Pull-up Bar", "Турник");
    m := m["Pull-up Bar" := "Турник"];
    CleanAdd(m, "Bench", "Орындық");
    m := m["Bench" := "Орындық"];
    CleanAdd(m, "Cable Machine", "Блок құрылғысы");
    m := m["Cable Machine" := "Блок құрылғысы"];
    CleanAdd(m, "Dumbbells", "Гантельдер");
    m := m["Dumbbells" := "Гантельдер"];
    assert m == EquipmentTranslations;
  }

  lemma CleanAdd(m: map<string, string>, k: string, v: string)
    requires CleanValues(m)
    requires v != [] && !IsSpace(v[0]) && !IsSpace(v[|v| - 1]) && ',' !in v
    ensures CleanValues(m[k := v])
  {
    StripTrimmed(v);
  }
}
