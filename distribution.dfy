/** The category distribution (`get_workout_types_distribution`,
 *  app.py:391-406): the records are tallied by category in first-encounter
 *  order, and each tally becomes a whole percentage of the total.
 */
module Distribution {
  import opened Records

  function Categories(records: seq<Record>): seq<string> {
    seq(|records|, i requires 0 <= i < |records| => records[i].category)
  }

  /** `round(n / d)` with ties to the even neighbour, on exact rationals. */
  function RoundHalfEven(n: nat, d: nat): (r: nat)
    requires d > 0
    ensures 2 * (n - r * d) <= d && 2 * (r * d - n) <= d
    ensures 2 * (n - r * d) == d || 2 * (r * d - n) == d ==> r % 2 == 0
  {
    var q, rem := n / d, n % d;
    DivMod(n, d);
    if 2 * rem < d then q
    else if 2 * rem > d || q % 2 == 1 then q + 1
    else q
  }

  lemma DivMod(n: nat, d: nat)
    requires d > 0
    ensures n == (n / d) * d + n % d && 0 <= n % d < d
    ensures (n / d + 1) * d == (n / d) * d + d
  {
  }

  /** `round((count / total) * 100)`. */
  function Percent(count: nat, total: nat): nat
    requires total > 0
  {
    RoundHalfEven(count * 100, total)
  }

  /** `(labels, data)` as the function returns them. */
  function DistributionOf(records: seq<Record>): (seq<string>, seq<int>) {
    var cats := Categories(records);
    var labels := Distinct(cats);
    if records == [] then ([], [])
    else (labels, seq(|labels|, i requires 0 <= i < |labels| => Percent(Occurrences(cats, labels[i]), |records|)))
  }

  /** `sum(type_counts.values())`. */
  function SumTally(labels: seq<string>, counts: map<string, nat>): nat {
    if labels == [] then 0 else Lookup(counts, labels[0]) + SumTally(labels[1..], counts)
  }

  method GetWorkoutTypesDistribution(records: seq<Record>) returns (labels: seq<string>, data: seq<int>)
    ensures (labels, data) == DistributionOf(records)
  {
    ghost var cats := Categories(records);
    var counts: map<string, nat> := map[];
    labels := [];
    var i := 0;
    while i < |records|
      invariant 0 <= i <= |records|
      invariant labels == Distinct(cats[..i])
      invariant forall c :: Lookup(counts, c) == Occurrences(cats[..i], c)
    {
      var c := records[i].category;
      assert cats[..i + 1] == cats[..i] + [c];
      assert cats[..i + 1][..i] == cats[..i];
      forall x ensures Occurrences(cats[..i + 1], x) == Occurrences(cats[..i], x) + (if x == c then 1 else 0) {
        OccurrencesAppend(cats[..i], [c], x);
      }
      if c !in labels {
        labels := labels + [c];
      }
      var old_counts := counts;
      counts := counts[c := Lookup(counts, c) + 1];
      assert forall x :: Lookup(counts, x) == Lookup(old_counts, x) + (if x == c then 1 else 0);
      i := i + 1;
    }
    assert cats[..i] == cats;
    var total := SumTally(labels, counts);
    TallyTotal(cats, counts);
    if total == 0 {
      assert records == [];
      return [], [];
    }
    data := seq(|labels|, j requires 0 <= j < |labels| => Percent(Lookup(counts, labels[j]), total));
    assert |cats| == |records|;
    assert data == DistributionOf(records).1;
  }

  // ---------------------------------------------------------------------
  // What the distribution means.

  /** Sum of the occurrences in `s` of each of `labels`. */
  function SumOccurrences(labels: seq<string>, s: seq<string>): nat {
    if labels == [] then 0 else Occurrences(s, labels[0]) + SumOccurrences(labels[1..], s)
  }

  lemma {:induction false} SumTallyIsSumOccurrences(labels: seq<string>, counts: map<string, nat>, s: seq<string>)
    requires forall c :: Lookup(counts, c) == Occurrences(s, c)
    ensures SumTally(labels, counts) == SumOccurrences(labels, s)
  {
    if labels != [] {
      SumTallyIsSumOccurrences(labels[1..], counts, s);
    }
  }

  lemma {:induction false} SumOccurrencesAppendLabel(labels: seq<string>, x: string, s: seq<string>)
    ensures SumOccurrences(labels + [x], s) == SumOccurrences(labels, s) + Occurrences(s, x)
  {
    if labels == [] {
      assert [] + [x] == [x];
      assert [x][1..] == [];
    } else {
      assert (labels + [x])[1..] == labels[1..] + [x];
      SumOccurrencesAppendLabel(labels[1..], x, s);
    }
  }

  lemma {:induction false} SumOccurrencesAppendElement(labels: seq<string>, t: seq<string>, x: string)
    ensures SumOccurrences(labels, t + [x]) == SumOccurrences(labels, t) + Occurrences(labels, x)
  {
    if labels != [] {
      OccurrencesAppend(t, [x], labels[0]);
      assert Occurrences([x], labels[0]) == if labels[0] == x then 1 else 0;
      SumOccurrencesAppendElement(labels[1..], t, x);
    }
  }

  /** The tallies of the distinct categories add up to the number of
   *  records: `sum(type_counts.values())` is the length of the history. */
  lemma {:induction false} SumOccurrencesOfDistinct(s: seq<string>)
    ensures SumOccurrences(Distinct(s), s) == |s|
  {
    if s == [] {
    } else {
      var t, x := s[..|s| - 1], s[|s| - 1];
      assert s == t + [x];
      SumOccurrencesOfDistinct(t);
      var d := Distinct(t);
      SumOccurrencesAppendElement(d, t, x);
      OccurrencesInDistinct(d, x);
      if x !in d {
        SumOccurrencesAppendLabel(d, x, s);
        OccurrencesAppend(t, [x], x);
        OccurrencesPositive(t, x);
      }
    }
  }

  lemma TallyTotal(cats: seq<string>, counts: map<string, nat>)
    requires forall c :: Lookup(counts, c) == Occurrences(cats, c)
    ensures SumTally(Distinct(cats), counts) == |cats|
  {
    SumTallyIsSumOccurrences(Distinct(cats), counts, cats);
    SumOccurrencesOfDistinct(cats);
  }

  lemma MulStrict(a: int, b: int, t: int)
    requires t > 0 && a > b
    ensures a * t > b * t
  {
  }

  lemma PercentAtMostHundred(count: nat, total: nat)
    requires 0 < total && count <= total
    ensures Percent(count, total) <= 100
  {
    var r := Percent(count, total);
    if r > 100 {
      MulStrict(2 * r, 201, total);
    }
  }

  /** Empty history gives ([], []). Otherwise the labels are the distinct
   *  categories, each once, in first-encounter order; the data are aligned
   *  with them; each entry is the percentage of that category rounded half
   *  to even, so it lies between 0 and 100. */
  lemma DistributionShape(records: seq<Record>)
    ensures records == [] ==> DistributionOf(records) == ([], [])
    ensures var (labels, data) := DistributionOf(records);
      && |labels| == |data|
      && (forall c :: c in labels <==> exists r :: r in records && r.category == c)
      && (forall i, j :: 0 <= i < j < |labels| ==> labels[i] != labels[j])
      && (forall i, j :: 0 <= i < j < |labels| ==>
            FirstIndex(Categories(records), labels[i]) < FirstIndex(Categories(records), labels[j]))
      && (forall i :: 0 <= i < |data| ==> 0 <= data[i] <= 100)
      && (forall i :: 0 <= i < |data| ==>
            var count := Occurrences(Categories(records), labels[i]);
            2 * (count * 100 - data[i] * |records|) <= |records|
            && 2 * (data[i] * |records| - count * 100) <= |records|)
  {
    var cats := Categories(records);
    DistinctInFirstEncounterOrder(cats);
    forall c ensures c in cats <==> exists r :: r in records && r.category == c {
      if c in cats {
        var i :| 0 <= i < |cats| && cats[i] == c;
        assert records[i] in records;
      }
      if exists r :: r in records && r.category == c {
        var r :| r in records && r.category == c;
        var i :| 0 <= i < |records| && records[i] == r;
        assert cats[i] == c;
      }
    }
    var (labels, data) := DistributionOf(records);
    forall i | 0 <= i < |data| ensures 0 <= data[i] <= 100 {
      OccurrencesAtMostLength(cats, labels[i]);
      PercentAtMostHundred(Occurrences(cats, labels[i]), |records|);
    }
  }

  /** Categories A, A, B give labels A, B and percentages 67, 33. */
  lemma TwoThirdsOneThird(r1: Record, r2: Record, r3: Record)
    requires r1.category == "A" && r2.category == "A" && r3.category == "B"
    ensures DistributionOf([r1, r2, r3]) == (["A", "B"], [67, 33])
  {
    var cats := Categories([r1, r2, r3]);
    assert cats == ["A", "A", "B"];
    DistinctAAB();
    OccurrencesAAB();
    ThirdsRounded();
    var (labels, data) := DistributionOf([r1, r2, r3]);
    assert labels == ["A", "B"];
    assert |data| == 2 && data[0] == 67 && data[1] == 33;
    assert data == [67, 33];
  }

  lemma DistinctAAB()
    ensures Distinct(["A", "A", "B"]) == ["A", "B"]
  {
    var a: seq<string>, aa: seq<string>, aab: seq<string> := ["A"], ["A", "A"], ["A", "A", "B"];
    assert aab[..2] == aa && aa[..1] == a && a[..0] == [];
    assert Distinct(a) == ["A"];
    assert Distinct(aa) == ["A"];
  }

  lemma OccurrencesAAB()
    ensures Occurrences(["A", "A", "B"], "A") == 2 && Occurrences(["A", "A", "B"], "B") == 1
  {
    var aab: seq<string>, ab: seq<string>, b: seq<string> := ["A", "A", "B"], ["A", "B"], ["B"];
    assert aab[1..] == ab && ab[1..] == b && b[1..] == [];
    assert Occurrences(b, "A") == 0 && Occurrences(b, "B") == 1;
    assert Occurrences(ab, "A") == 1 && Occurrences(ab, "B") == 1;
  }

  lemma ThirdsRounded()
    ensures Percent(2, 3) == 67 && Percent(1, 3) == 33
  {
    assert 200 / 3 == 66 && 200 % 3 == 2;
    assert 100 / 3 == 33 && 100 % 3 == 1;
  }
}
