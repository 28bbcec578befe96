/** Exactly when NDCG@10 stays within 1: when the first ten shown candidates do not repeat. */
module RankingRepeats {
  import opened Sorting
  import opened RankingQuality

  // ----- Repeats and counting -----

  function Members(s: seq<int>): set<int> {
    set x | x in s
  }

  lemma {:induction false} MembersCount(s: seq<int>)
    ensures |Members(s)| <= |s|
    ensures !NoRepeats(s) ==> |Members(s)| < |s|
  {
    if s != [] {
      var n := |s| - 1;
      MembersCount(s[..n]);
      assert s == s[..n] + [s[n]];
      assert Members(s) == Members(s[..n]) + {s[n]};
      if s[n] in s[..n] {
        assert Members(s) == Members(s[..n]);
      }
    }
  }

  lemma SubsetSize(a: set<int>, b: set<int>)
    requires a <= b
    ensures |a| <= |b|
  {
    assert b == a + (b - a) && a !! (b - a);
  }

  /** Grade one for every shown candidate, and zero for the others. */
  function Marks(top: seq<int>, n: nat): (grades: seq<nat>)
    ensures |grades| == n && forall i :: 0 <= i < n ==> grades[i] == if i in top then 1 else 0
  {
    seq(n, i requires 0 <= i < n => if i in top then 1 else 0)
  }

  function Marked(top: seq<int>, n: nat): (r: set<int>)
    ensures forall i :: i in r <==> 0 <= i < n && i in top
  {
    if n == 0 then {} else Marked(top, n - 1) + if n - 1 in top then {n - 1} else {}
  }

  lemma CountAppend(s: seq<nat>, last: nat, x: nat)
    ensures multiset(s + [last])[x] == multiset(s)[x] + if last == x then 1 else 0
  {
  }

  lemma MarksStep(top: seq<int>, n: nat)
    ensures multiset(Marks(top, n + 1))[1] == multiset(Marks(top, n))[1] + if n in top then 1 else 0
  {
    assert Marks(top, n + 1) == Marks(top, n) + [if n in top then 1 else 0];
    CountAppend(Marks(top, n), if n in top then 1 else 0, 1);
  }

  function MarkCount(top: seq<int>, n: nat): nat {
    if n == 0 then 0 else MarkCount(top, n - 1) + if n - 1 in top then 1 else 0
  }

  lemma {:induction false} MarksCount(top: seq<int>, n: nat)
    ensures multiset(Marks(top, n))[1] == MarkCount(top, n)
  {
    if n > 0 {
      MarksCount(top, n - 1);
      MarksStep(top, n - 1);
    }
  }

  lemma {:induction false} MarkedSize(top: seq<int>, n: nat)
    ensures |Marked(top, n)| == MarkCount(top, n)
  {
    if n > 0 {
      MarkedSize(top, n - 1);
      assert n - 1 !in Marked(top, n - 1);
    }
  }

  lemma FewerMarksThanShown(top: seq<int>, n: nat)
    requires !NoRepeats(top)
    ensures multiset(Marks(top, n))[1] < |top|
  {
    MarksCount(top, n);
    MarkedSize(top, n);
    MembersCount(top);
    SubsetSize(Marked(top, n), Members(top));
  }

  lemma {:induction false} OnesCount(s: seq<nat>, m: nat)
    requires m <= |s| && forall i :: 0 <= i < m ==> s[i] == 1
    ensures multiset(s)[1] >= m
  {
    if m > 0 {
      assert s == [s[0]] + s[1..];
      OnesCount(s[1..], m - 1);
    }
  }

  lemma {:induction false} ShownMarksAreOnes(part: seq<int>, top: seq<int>, n: nat)
    requires forall i :: 0 <= i < |part| ==> 0 <= part[i] < n && part[i] in top
    ensures var ranked := RankedGrades(Marks(top, n), part);
            |ranked| == |part| && forall i :: 0 <= i < |ranked| ==> ranked[i] == 1
  {
    if part != [] {
      ShownMarksAreOnes(part[1..], top, n);
    }
  }

  // ----- Sums of grades that dominate one another -----

  function Tail(s: seq<nat>): seq<nat> {
    if s == [] then [] else s[1..]
  }

  ghost predicate Dominated(a: seq<nat>, b: seq<nat>) {
    forall i: nat {:trigger GradeAt(a, i)} {:trigger GradeAt(b, i)} :: GradeAt(a, i) <= GradeAt(b, i)
  }

  lemma TailsDominated(a: seq<nat>, b: seq<nat>)
    requires Dominated(a, b)
    ensures Dominated(Tail(a), Tail(b)) && GradeAt(a, 0) <= GradeAt(b, 0)
  {
    forall i: nat
      ensures GradeAt(Tail(a), i) <= GradeAt(Tail(b), i)
    {
      assert GradeAt(a, i + 1) <= GradeAt(b, i + 1);
    }
  }

  lemma GainedUnfolds(s: seq<nat>, w: Weights, rank: nat)
    ensures Gained(s, w, rank) == Gain(GradeAt(s, 0)) * w(rank) + Gained(Tail(s), w, rank + 1)
  {
    GainOrder(0, 0);
  }

  lemma GainsOfHead(a: nat, b: nat, weight: real)
    requires a <= b && weight > 0.0
    ensures Gain(a) * weight <= Gain(b) * weight && (a < b ==> Gain(a) * weight < Gain(b) * weight)
  {
    GainOrder(a, b);
    GainOrder(b, a);
    ProductOrder(weight, Gain(b), Gain(a));
  }

  /** What the first grades contribute. */
  lemma CompareHeads(a: seq<nat>, b: seq<nat>, w: Weights, rank: nat) returns (x: real, y: real)
    requires GradeAt(a, 0) <= GradeAt(b, 0) && w(rank) > 0.0
    ensures Gained(a, w, rank) == x + Gained(Tail(a), w, rank + 1)
    ensures Gained(b, w, rank) == y + Gained(Tail(b), w, rank + 1)
    ensures x <= y && (GradeAt(a, 0) < GradeAt(b, 0) ==> x < y)
  {
    x, y := Gain(GradeAt(a, 0)) * w(rank), Gain(GradeAt(b, 0)) * w(rank);
    GainedUnfolds(a, w, rank);
    GainedUnfolds(b, w, rank);
    GainsOfHead(GradeAt(a, 0), GradeAt(b, 0), w(rank));
  }

  /** Larger grades gain more, and strictly more when one of them is strictly larger. */
  lemma {:induction false} DominatedGainsLess(a: seq<nat>, b: seq<nat>, w: Weights, rank: nat, k: nat)
    requires Dominated(a, b) && Discounts(w)
    ensures Gained(a, w, rank) <= Gained(b, w, rank)
    ensures GradeAt(a, k) < GradeAt(b, k) ==> Gained(a, w, rank) < Gained(b, w, rank)
    decreases |a| + |b|
  {
    if a != [] || b != [] {
      assert Outweighs(w, rank, rank + 1);
      TailsDominated(a, b);
      var x, y := CompareHeads(a, b, w, rank);
      DominatedGainsLess(Tail(a), Tail(b), w, rank + 1, if k == 0 then 0 else k - 1);
      if k > 0 {
        assert GradeAt(Tail(a), k - 1) == GradeAt(a, k) && GradeAt(Tail(b), k - 1) == GradeAt(b, k);
      }
    }
  }

  // ----- The exact bound -----

  /** In the ideal order the marks run out before the shown candidates do. */
  lemma IdealRunsOut(top: seq<int>, n: nat)
    requires !NoRepeats(top) && forall i :: 0 <= i < |top| ==> 0 <= top[i] < n
    ensures var ideal := Sort(GradeGeq, Marks(top, n));
            && |top| > 0 && GradeAt(ideal, 0) == 1
            && (forall i: nat :: GradeAt(ideal, i) <= 1 && (i >= |top| - 1 ==> GradeAt(ideal, i) == 0))
  {
    var marks := Marks(top, n);
    var ideal, m := Sort(GradeGeq, marks), |top| - 1;
    SortSorts(GradeGeq, marks);
    SortKeepsElements(GradeGeq, marks);
    SameElements(ideal, marks);
    FewerMarksThanShown(top, n);
    forall i | 0 <= i < |ideal|
      ensures ideal[i] <= 1
    {
      assert ideal[i] in marks;
    }
    assert marks[top[0]] in ideal;
    var j :| 0 <= j < |ideal| && ideal[j] == marks[top[0]];
    assert j == 0 || GradeGeq(ideal[0], ideal[j]);
    forall i: nat | i >= m
      ensures GradeAt(ideal, i) == 0
    {
      if i < |ideal| && ideal[i] == 1 {
        forall x | 0 <= x < i + 1
          ensures ideal[x] == 1
        {
          assert x == i || GradeGeq(ideal[x], ideal[i]);
        }
        OnesCount(ideal, i + 1);
      }
    }
  }

  lemma RepeatsExceed(ranking: seq<int>, n: nat, w: Weights)
    requires Discounts(w) && !NoRepeats(Shown(ranking, n))
    ensures QualityOf(ranking, Marks(Shown(ranking, n), n), w).ndcg > 1.0
  {
    var top := Shown(ranking, n);
    var marks := Marks(top, n);
    var ranked, ideal := RankedGrades(marks, top), AtMost(Sort(GradeGeq, marks), 10);
    ShownMarksAreOnes(top, top, n);
    IdealRunsOut(top, n);
    assert AtMost(ranked, 10) == ranked;
    forall i: nat
      ensures GradeAt(ideal, i) <= GradeAt(ranked, i)
    {
      assert i < 10 ==> GradeAt(ideal, i) == GradeAt(Sort(GradeGeq, marks), i);
    }
    assert GradeAt(ideal, |top| - 1) == GradeAt(Sort(GradeGeq, marks), |top| - 1) == 0;
    DominatedGainsLess(ideal, ranked, w, 0, |top| - 1);
    assert GradeAt(ideal, 0) == GradeAt(Sort(GradeGeq, marks), 0) == 1;
    DominatedGainsLess([], ideal, w, 0, 0);
    QuotientExceeds(Gained(ranked, w, 0), Gained(ideal, w, 0));
    OnlyShownMatters(ranking, marks, w);
  }

  /** A ranking keeps NDCG@10 within 1 for all grades of n candidates exactly when the candidates at its
      first ten ranks do not repeat. */
  lemma NdcgBoundIsExact(ranking: seq<int>, n: nat, w: Weights)
    requires Discounts(w)
    ensures (forall grades: seq<nat> :: |grades| == n ==> QualityOf(ranking, grades, w).ndcg <= 1.0)
            <==> NoRepeats(Shown(ranking, n))
  {
    if NoRepeats(Shown(ranking, n)) {
      forall grades: seq<nat> | |grades| == n
        ensures QualityOf(ranking, grades, w).ndcg <= 1.0
      {
        NdcgIsNormalised(ranking, grades, w);
      }
    } else {
      RepeatsExceed(ranking, n, w);
    }
  }
}
