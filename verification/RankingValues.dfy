/** The exact values of the ranking measures, over any description of what is shown and of the ideal order. */
module RankingValues {
  import opened Sorting
  import opened RankingQuality

  // ----- What is shown -----

  /** The places of the ranking that name a candidate, in order. */
  ghost predicate ArePlaces(ranking: seq<int>, n: nat, places: seq<nat>) {
    && (forall j, k :: 0 <= j < k < |places| ==> places[j] < places[k])
    && (forall p :: p in places <==> 0 <= p < |ranking| && 0 <= ranking[p] < n)
  }

  /** The grades shown at these places. */
  ghost predicate AreShown(ranking: seq<int>, grades: seq<nat>, places: seq<nat>, shown: seq<nat>) {
    && ArePlaces(ranking, |grades|, places) && |shown| == |places|
    && forall k :: 0 <= k < |shown| ==>
         places[k] < |ranking| && 0 <= ranking[places[k]] < |grades| && shown[k] == grades[ranking[places[k]]]
  }

  lemma {:induction false} RankedAppend(grades: seq<nat>, front: seq<int>, x: int)
    ensures RankedGrades(grades, front + [x])
            == RankedGrades(grades, front) + if 0 <= x < |grades| then [grades[x]] else []
  {
    if front == [] {
      assert [x][1..] == [] && front + [x] == [x];
    } else {
      assert (front + [x])[1..] == front[1..] + [x];
      RankedAppend(grades, front[1..], x);
    }
  }

  lemma LastPlace(ranking: seq<int>, n: nat, places: seq<nat>)
    requires ranking != [] && ArePlaces(ranking, n, places) && 0 <= ranking[|ranking| - 1] < n
    ensures places != [] && places[|places| - 1] == |ranking| - 1
    ensures ArePlaces(ranking[..|ranking| - 1], n, places[..|places| - 1])
  {
    var last: nat := |ranking| - 1;
    assert last in places;
    var k :| 0 <= k < |places| && places[k] == last;
    var top := places[|places| - 1];
    assert top in places && places[k] <= top;
    var front := places[..|places| - 1];
    assert places == front + [top];
    assert forall p :: p in places <==> p in front || p == top;
  }

  lemma NoLastPlace(ranking: seq<int>, n: nat, places: seq<nat>)
    requires ranking != [] && ArePlaces(ranking, n, places) && !(0 <= ranking[|ranking| - 1] < n)
    ensures ArePlaces(ranking[..|ranking| - 1], n, places)
  {
  }

  lemma ShownWithoutLast(ranking: seq<int>, grades: seq<nat>, places: seq<nat>, shown: seq<nat>)
    requires ranking != [] && AreShown(ranking, grades, places, shown)
    requires 0 <= ranking[|ranking| - 1] < |grades|
    ensures var n := |ranking| - 1; var m := |places| - 1;
            m >= 0 && places[m] == n && AreShown(ranking[..n], grades, places[..m], shown[..m])
  {
    var n := |ranking| - 1;
    LastPlace(ranking, |grades|, places);
    var m := |places| - 1;
    forall k | 0 <= k < m
      ensures places[k] < n && ranking[..n][places[k]] == ranking[places[k]]
    {
      assert places[k] < places[m];
    }
  }

  lemma ShownWithoutForeign(ranking: seq<int>, grades: seq<nat>, places: seq<nat>, shown: seq<nat>)
    requires ranking != [] && AreShown(ranking, grades, places, shown)
    requires !(0 <= ranking[|ranking| - 1] < |grades|)
    ensures AreShown(ranking[..|ranking| - 1], grades, places, shown)
  {
    NoLastPlace(ranking, |grades|, places);
    forall k | 0 <= k < |places|
      ensures places[k] < |ranking| - 1
    {
      assert places[k] in places;
    }
  }

  lemma SomePlace(places: seq<nat>)
    requires places != []
    ensures exists p :: p in places
  {
    assert places[0] in places;
  }

  lemma ShownGrows(ranking: seq<int>, grades: seq<nat>, places: seq<nat>, shown: seq<nat>)
    requires ranking != [] && AreShown(ranking, grades, places, shown) && shown != []
    requires 0 <= ranking[|ranking| - 1] < |grades| && places[|places| - 1] == |ranking| - 1
    requires RankedGrades(grades, ranking[..|ranking| - 1]) == shown[..|shown| - 1]
    ensures RankedGrades(grades, ranking) == shown
  {
    var n, m := |ranking| - 1, |shown| - 1;
    assert ranking == ranking[..n] + [ranking[n]];
    RankedAppend(grades, ranking[..n], ranking[n]);
    assert shown == shown[..m] + [shown[m]];
    assert places[m] == n;
  }

  lemma {:induction false} ShownAreRanked(ranking: seq<int>, grades: seq<nat>, places: seq<nat>, shown: seq<nat>)
    requires AreShown(ranking, grades, places, shown)
    ensures RankedGrades(grades, ranking) == shown
  {
    if ranking == [] {
      if places != [] {
        SomePlace(places);
        assert false;
      }
    } else {
      var n := |ranking| - 1;
      if 0 <= ranking[n] < |grades| {
        var m := |places| - 1;
        ShownWithoutLast(ranking, grades, places, shown);
        ShownAreRanked(ranking[..n], grades, places[..m], shown[..m]);
        ShownGrows(ranking, grades, places, shown);
      } else {
        ShownWithoutForeign(ranking, grades, places, shown);
        ShownAreRanked(ranking[..n], grades, places, shown);
        assert ranking == ranking[..n] + [ranking[n]];
        RankedAppend(grades, ranking[..n], ranking[n]);
      }
    }
  }

  // ----- Discounted gain -----

  function TwoTo(grade: nat): real {
    if grade == 0 then 1.0 else TwoTo(grade - 1) + TwoTo(grade - 1)
  }

  /** The sum of (2^grade - 1) times the discount over the first n ranks. */
  function Discounted(grades: seq<nat>, w: Weights, n: nat): real
    requires n <= |grades|
  {
    if n == 0 then 0.0 else Discounted(grades, w, n - 1) + (TwoTo(grades[n - 1]) - 1.0) * w(n - 1)
  }

  function Ten(n: nat): nat {
    if n < 10 then n else 10
  }

  /** All grades, the highest first. */
  ghost predicate IsIdeal(ideal: seq<nat>, grades: seq<nat>) {
    multiset(ideal) == multiset(grades) && forall i, j :: 0 <= i < j < |ideal| ==> ideal[i] >= ideal[j]
  }

  lemma {:induction false} GainIsPower(grade: nat)
    ensures Gain(grade) == TwoTo(grade) - 1.0 && TwoTo(grade) >= 1.0 && (grade > 0 ==> TwoTo(grade) >= 2.0)
    ensures Pow2(grade) as real == TwoTo(grade)
  {
    if grade > 0 {
      GainIsPower(grade - 1);
    }
  }

  lemma {:induction false} GainedAppend(grades: seq<nat>, last: nat, w: Weights, rank: nat)
    ensures Gained(grades + [last], w, rank) == Gained(grades, w, rank) + Gain(last) * w(rank + |grades|)
  {
    if grades == [] {
      assert [last][1..] == [] && grades + [last] == [last];
      assert Gained([], w, rank + 1) == 0.0;
    } else {
      assert (grades + [last])[1..] == grades[1..] + [last];
      GainedAppend(grades[1..], last, w, rank + 1);
    }
  }

  lemma {:induction false} GainedIsDiscounted(grades: seq<nat>, w: Weights, n: nat)
    requires n <= |grades|
    ensures Gained(grades[..n], w, 0) == Discounted(grades, w, n)
  {
    if n > 0 {
      GainedIsDiscounted(grades, w, n - 1);
      assert grades[..n] == grades[..n - 1] + [grades[n - 1]];
      GainedAppend(grades[..n - 1], grades[n - 1], w, 0);
      GainIsPower(grades[n - 1]);
    }
  }

  lemma TopIsDiscounted(grades: seq<nat>, w: Weights)
    ensures Gained(AtMost(grades, 10), w, 0) == Discounted(grades, w, Ten(|grades|))
  {
    GainedIsDiscounted(grades, w, Ten(|grades|));
    assert grades[..|grades|] == grades;
  }

  lemma {:induction false} IdealIsSorted(ideal: seq<nat>, grades: seq<nat>)
    requires IsIdeal(ideal, grades)
    ensures Sort(GradeGeq, grades) == ideal
  {
    SortSorts(GradeGeq, grades);
    SortKeepsElements(GradeGeq, grades);
    SortedIsUnique(GradeGeq, Sort(GradeGeq, grades), ideal);
  }

  lemma WeightIsPositive(w: Weights, rank: nat)
    requires Discounts(w)
    ensures w(rank) > 0.0
  {
    assert Outweighs(w, rank, rank + 1);
  }

  lemma Positive(x: real, y: real)
    requires x >= 0.0 && y > 0.0
    ensures x * y >= 0.0 && (x > 0.0 ==> x * y > 0.0)
  {
  }

  lemma {:induction false} DiscountedSign(grades: seq<nat>, w: Weights, n: nat)
    requires n <= |grades| && Discounts(w)
    ensures Discounted(grades, w, n) >= 0.0
    ensures Discounted(grades, w, n) == 0.0 <==> forall i :: 0 <= i < n ==> grades[i] == 0
  {
    if n > 0 {
      DiscountedSign(grades, w, n - 1);
      GainIsPower(grades[n - 1]);
      WeightIsPositive(w, n - 1);
      Positive(TwoTo(grades[n - 1]) - 1.0, w(n - 1));
    }
  }

  lemma NothingToShow(ranking: seq<int>, grades: seq<nat>, places: seq<nat>, shown: seq<nat>, ideal: seq<nat>)
    requires AreShown(ranking, grades, places, shown) && IsIdeal(ideal, grades)
    requires forall i :: 0 <= i < Ten(|ideal|) ==> ideal[i] == 0
    ensures forall k :: 0 <= k < |shown| ==> shown[k] == 0
  {
    forall k | 0 <= k < |shown|
      ensures shown[k] == 0
    {
      var grade := grades[ranking[places[k]]];
      assert grade in multiset(grades);
      assert grade in multiset(ideal);
      var i :| 0 <= i < |ideal| && ideal[i] == grade;
      assert i > 0 ==> ideal[0] >= ideal[i];
    }
  }

  lemma Quotient(x: real, y: real)
    requires y != 0.0
    ensures x / y * y == x
  {
  }

  function Ratio(x: real, y: real): real {
    if y != 0.0 then x / y else 0.0
  }

  /** `q` is x divided by y, and zero if y is. */
  predicate Divides(q: real, x: real, y: real) {
    q * y == x && (y == 0.0 ==> q == 0.0)
  }

  lemma RatioLaw(q: real, x: real, y: real)
    requires q == Ratio(x, y) && (y == 0.0 ==> x == 0.0)
    ensures Divides(q, x, y)
  {
    if y != 0.0 {
      Quotient(x, y);
    }
  }

  lemma NdcgIsRatio(ranking: seq<int>, grades: seq<nat>, w: Weights, shown: seq<nat>, ideal: seq<nat>)
    requires RankedGrades(grades, ranking) == shown && Sort(GradeGeq, grades) == ideal
    ensures QualityOf(ranking, grades, w).ndcg
            == Ratio(Gained(AtMost(shown, 10), w, 0), Gained(AtMost(ideal, 10), w, 0))
  {
  }

  lemma NdcgIsDiscountedRatio(
      ranking: seq<int>, grades: seq<nat>, w: Weights, places: seq<nat>, shown: seq<nat>, ideal: seq<nat>)
    requires AreShown(ranking, grades, places, shown) && IsIdeal(ideal, grades)
    ensures QualityOf(ranking, grades, w).ndcg
            == Ratio(Discounted(shown, w, Ten(|shown|)), Discounted(ideal, w, Ten(|ideal|)))
  {
    ShownAreRanked(ranking, grades, places, shown);
    IdealIsSorted(ideal, grades);
    TopIsDiscounted(shown, w);
    TopIsDiscounted(ideal, w);
    NdcgIsRatio(ranking, grades, w, shown, ideal);
  }

  lemma NothingWithoutIdeal(
      ranking: seq<int>, grades: seq<nat>, w: Weights, places: seq<nat>, shown: seq<nat>, ideal: seq<nat>)
    requires Discounts(w) && AreShown(ranking, grades, places, shown) && IsIdeal(ideal, grades)
    requires Discounted(ideal, w, Ten(|ideal|)) == 0.0
    ensures Discounted(shown, w, Ten(|shown|)) == 0.0
  {
    DiscountedSign(ideal, w, Ten(|ideal|));
    NothingToShow(ranking, grades, places, shown, ideal);
    DiscountedSign(shown, w, Ten(|shown|));
  }

  /** NDCG@10 times the discounted gain of the ideal order is the discounted gain of what is shown, and it is zero
      when the ideal gain is. */
  lemma NdcgIsExact(
      ranking: seq<int>, grades: seq<nat>, w: Weights, places: seq<nat>, shown: seq<nat>, ideal: seq<nat>)
    requires Discounts(w) && AreShown(ranking, grades, places, shown) && IsIdeal(ideal, grades)
    ensures Divides(QualityOf(ranking, grades, w).ndcg, Discounted(shown, w, Ten(|shown|)),
                    Discounted(ideal, w, Ten(|ideal|)))
  {
    var dcg, idcg := Discounted(shown, w, Ten(|shown|)), Discounted(ideal, w, Ten(|ideal|));
    NdcgIsDiscountedRatio(ranking, grades, w, places, shown, ideal);
    if idcg == 0.0 {
      NothingWithoutIdeal(ranking, grades, w, places, shown, ideal);
    }
    RatioLaw(QualityOf(ranking, grades, w).ndcg, dcg, idcg);
  }

  lemma DiscountedOne(grades: seq<nat>, w: Weights)
    requires |grades| >= 1
    ensures Discounted(grades, w, 1) == (TwoTo(grades[0]) - 1.0) * w(0)
  {
    assert Discounted(grades, w, 0) == 0.0;
  }

  lemma DiscountedTwo(grades: seq<nat>, w: Weights)
    requires |grades| == 2
    ensures Discounted(grades, w, |grades|) == (TwoTo(grades[0]) - 1.0) * w(0) + (TwoTo(grades[1]) - 1.0) * w(1)
  {
    DiscountedOne(grades, w);
  }

  lemma DiscountedSwapped(grades: seq<nat>, ideal: seq<nat>, w: Weights)
    requires |grades| == |ideal| == 2 && ideal[0] == grades[1] && ideal[1] == grades[0]
    ensures Discounted(ideal, w, |ideal|) == (TwoTo(grades[1]) - 1.0) * w(0) + (TwoTo(grades[0]) - 1.0) * w(1)
  {
    DiscountedTwo(ideal, w);
  }

  lemma BothArePlaces(ranking: seq<int>, places: seq<nat>)
    requires |ranking| == 2 && ranking[0] == 0 && ranking[1] == 1
    requires |places| == 2 && places[0] == 0 && places[1] == 1
    ensures ArePlaces(ranking, 2, places)
  {
    assert places == [places[0]] + [places[1]];
    assert forall p :: p in places <==> p == 0 || p == 1;
  }

  lemma SwappedIsIdeal(grades: seq<nat>, ideal: seq<nat>)
    requires |grades| == |ideal| == 2 && ideal[0] == grades[1] && ideal[1] == grades[0] && grades[0] < grades[1]
    ensures IsIdeal(ideal, grades)
  {
    assert grades == [grades[0]] + [grades[1]];
    assert ideal == [grades[1]] + [grades[0]];
  }

  lemma TwoAreCompared(ranking: seq<int>, grades: seq<nat>, w: Weights, places: seq<nat>, ideal: seq<nat>)
    requires |ranking| == 2 && ranking[0] == 0 && ranking[1] == 1 && Discounts(w)
    requires |places| == 2 && places[0] == 0 && places[1] == 1
    requires |grades| == |ideal| == 2 && ideal[0] == grades[1] && ideal[1] == grades[0] && grades[0] < grades[1]
    ensures Divides(QualityOf(ranking, grades, w).ndcg,
                    Discounted(grades, w, |grades|), Discounted(ideal, w, |ideal|))
  {
    BothArePlaces(ranking, places);
    SwappedIsIdeal(grades, ideal);
    NdcgIsExact(ranking, grades, w, places, grades, ideal);
  }

  lemma Substitute(q: real, s: real, t: real, e: real, f: real)
    requires Divides(q, t, s) && s == e && t == f
    ensures Divides(q, f, e)
  {
  }

  lemma TwoSums(grades: seq<nat>, ideal: seq<nat>, w: Weights, q: real)
    requires |grades| == |ideal| == 2 && ideal[0] == grades[1] && ideal[1] == grades[0]
    requires Divides(q, Discounted(grades, w, |grades|), Discounted(ideal, w, |ideal|))
    ensures Divides(q, (TwoTo(grades[0]) - 1.0) * w(0) + (TwoTo(grades[1]) - 1.0) * w(1),
                    (TwoTo(grades[1]) - 1.0) * w(0) + (TwoTo(grades[0]) - 1.0) * w(1))
  {
    DiscountedTwo(grades, w);
    DiscountedSwapped(grades, ideal, w);
    Substitute(q, Discounted(ideal, w, |ideal|), Discounted(grades, w, |grades|),
               (TwoTo(grades[1]) - 1.0) * w(0) + (TwoTo(grades[0]) - 1.0) * w(1),
               (TwoTo(grades[0]) - 1.0) * w(0) + (TwoTo(grades[1]) - 1.0) * w(1));
  }

  /** What it costs to show the better of two candidates second. */
  lemma WorseFirst(ranking: seq<int>, grades: seq<nat>, w: Weights)
    requires |ranking| == 2 && ranking[0] == 0 && ranking[1] == 1
    requires Discounts(w) && |grades| == 2 && grades[0] < grades[1]
    ensures Divides(QualityOf(ranking, grades, w).ndcg,
                    (TwoTo(grades[0]) - 1.0) * w(0) + (TwoTo(grades[1]) - 1.0) * w(1),
                    (TwoTo(grades[1]) - 1.0) * w(0) + (TwoTo(grades[0]) - 1.0) * w(1))
  {
    var ideal := [grades[1], grades[0]];
    TwoAreCompared(ranking, grades, w, [0, 1], ideal);
    TwoSums(grades, ideal, w, QualityOf(ranking, grades, w).ndcg);
  }

  // ----- MRR@10 and the hit rate -----

  lemma RelevantIsFirst(shown: seq<nat>, rank: nat)
    requires rank < |shown| && shown[rank] >= 1 && forall i :: 0 <= i < rank ==> shown[i] == 0
    ensures FirstRelevant(shown) == rank + 1
  {
    FirstRelevantIsFirst(shown);
  }

  lemma NoneIsRelevant(shown: seq<nat>)
    requires forall i :: 0 <= i < |shown| ==> shown[i] == 0
    ensures FirstRelevant(shown) == 0
  {
    FirstRelevantIsFirst(shown);
  }

  /** The reciprocal rank of the first relevant candidate among the first ten, zero without one. */
  lemma ReciprocalRankIsExact(
      ranking: seq<int>, grades: seq<nat>, w: Weights, places: seq<nat>, shown: seq<nat>, rank: nat)
    requires AreShown(ranking, grades, places, shown)
    requires forall i :: 0 <= i < rank && i < |shown| ==> shown[i] == 0
    ensures rank < Ten(|shown|) && shown[rank] >= 1 ==>
      QualityOf(ranking, grades, w).mrr * (rank + 1) as real == 1.0
    ensures rank >= Ten(|shown|) ==> QualityOf(ranking, grades, w).mrr == 0.0
  {
    ShownAreRanked(ranking, grades, places, shown);
    var top := AtMost(shown, 10);
    if rank < Ten(|shown|) && shown[rank] >= 1 {
      RelevantIsFirst(top, rank);
      Quotient(1.0, (rank + 1) as real);
    } else if rank >= Ten(|shown|) {
      NoneIsRelevant(top);
    }
  }

  /** A hit is a relevant candidate among the first five. */
  lemma HitRateIsExact(ranking: seq<int>, grades: seq<nat>, w: Weights, places: seq<nat>, shown: seq<nat>)
    requires AreShown(ranking, grades, places, shown)
    ensures QualityOf(ranking, grades, w).hitRate
            == if exists i :: 0 <= i < 5 && i < |shown| && shown[i] >= 1 then 1.0 else 0.0
  {
    ShownAreRanked(ranking, grades, places, shown);
    var five := AtMost(shown, 5);
    if i :| 0 <= i < 5 && i < |shown| && shown[i] >= 1 {
      assert five[i] == shown[i];
    }
  }
}
