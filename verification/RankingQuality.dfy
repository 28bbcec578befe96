/** Graded ranking quality: NDCG@10, MRR@10 and hit rate @5. The discounts 1/log2(rank+2) enter as
    any strictly decreasing positive weights. */
module RankingQuality {
  import opened Sorting

  type Weights = nat -> real

  ghost predicate Outweighs(w: Weights, i: nat, j: nat) {
    w(i) > w(j) > 0.0
  }

  ghost predicate Discounts(w: Weights) {
    forall i, j {:trigger Outweighs(w, i, j)} :: i < j ==> Outweighs(w, i, j)
  }

  function Pow2(n: nat): nat {
    if n == 0 then 1 else 2 * Pow2(n - 1)
  }

  function Gain(grade: nat): real {
    (Pow2(grade) - 1) as real
  }

  /** The grades of the ranked candidates; indices outside the candidates are dropped. */
  function RankedGrades<T>(grades: seq<T>, ranking: seq<int>): seq<T> {
    if ranking == [] then []
    else
      var rest := RankedGrades(grades, ranking[1..]);
      if 0 <= ranking[0] < |grades| then [grades[ranking[0]]] + rest else rest
  }

  function AtMost<T>(s: seq<T>, n: nat): seq<T> {
    if |s| <= n then s else s[..n]
  }

  /** The discounted gain of grades placed from `rank` on. */
  function Gained(grades: seq<nat>, w: Weights, rank: nat): real {
    if grades == [] then 0.0 else Gain(grades[0]) * w(rank) + Gained(grades[1..], w, rank + 1)
  }

  predicate GradeGeq(a: nat, b: nat) {
    a >= b
  }

  datatype Quality = Quality(ndcg: real, mrr: real, hitRate: real)

  /** The rank, from one, of the first grade of at least one; zero when there is none. */
  function FirstRelevant(grades: seq<nat>): nat {
    if grades == [] then 0
    else if grades[0] >= 1 then 1
    else
      var r := FirstRelevant(grades[1..]);
      if r == 0 then 0 else r + 1
  }

  function QualityOf(ranking: seq<int>, grades: seq<nat>, w: Weights): Quality {
    var ranked := RankedGrades(grades, ranking);
    var ideal := Sort(GradeGeq, grades);
    var dcg, idcg := Gained(AtMost(ranked, 10), w, 0), Gained(AtMost(ideal, 10), w, 0);
    var first := FirstRelevant(AtMost(ranked, 10));
    Quality(
      if idcg != 0.0 then dcg / idcg else 0.0,
      if first != 0 then 1.0 / first as real else 0.0,
      if exists i :: 0 <= i < |AtMost(ranked, 5)| && AtMost(ranked, 5)[i] >= 1 then 1.0 else 0.0)
  }

  // ----- Gains and truncated weights -----

  lemma {:induction false} PowGrows(a: nat, b: nat)
    requires a < b
    ensures 1 <= Pow2(a) < Pow2(b)
  {
    if a == 0 {
      if b > 1 {
        PowGrows(0, b - 1);
      }
    } else {
      PowGrows(a - 1, b - 1);
    }
  }

  lemma GainOrder(a: nat, b: nat)
    ensures Gain(a) >= 0.0 && (a <= b <==> Gain(a) <= Gain(b))
    ensures Gain(0) == 0.0
  {
    if a < b {
      PowGrows(a, b);
    } else if b < a {
      PowGrows(b, a);
    }
    if a > 0 {
      PowGrows(0, a);
    }
  }

  function Gains(grades: seq<nat>): (r: seq<real>)
    ensures |r| == |grades| && forall i :: 0 <= i < |grades| ==> r[i] == Gain(grades[i])
  {
    seq(|grades|, i requires 0 <= i < |grades| => Gain(grades[i]))
  }

  /** The weight of a rank, zero from the cut on. */
  function Weight(w: Weights, cut: nat, rank: nat): real {
    if rank < cut then w(rank) else 0.0
  }

  lemma WeightOrder(w: Weights, cut: nat, i: nat, j: nat)
    requires Discounts(w) && i < j
    ensures 0.0 <= Weight(w, cut, j) <= Weight(w, cut, i)
    ensures i < cut ==> Weight(w, cut, j) < Weight(w, cut, i)
  {
    assert Outweighs(w, i, j);
  }

  /** The weighted sum of values placed from `rank` on. */
  function CutSum(xs: seq<real>, w: Weights, cut: nat, rank: nat): real {
    if xs == [] then 0.0 else xs[0] * Weight(w, cut, rank) + CutSum(xs[1..], w, cut, rank + 1)
  }

  lemma {:induction false} CutMeansTruncate(grades: seq<nat>, w: Weights, cut: nat, rank: nat)
    requires rank <= cut
    ensures Gained(AtMost(grades, cut - rank), w, rank) == CutSum(Gains(grades), w, cut, rank)
  {
    if grades != [] {
      assert Gains(grades)[1..] == Gains(grades[1..]);
      if rank < cut {
        assert AtMost(grades, cut - rank)[1..] == AtMost(grades[1..], cut - rank - 1);
        CutMeansTruncate(grades[1..], w, cut, rank + 1);
      } else {
        NothingAfterCut(Gains(grades), w, cut, rank);
      }
    }
  }

  lemma {:induction false} NothingAfterCut(xs: seq<real>, w: Weights, cut: nat, rank: nat)
    requires cut <= rank
    ensures CutSum(xs, w, cut, rank) == 0.0
  {
    if xs != [] {
      NothingAfterCut(xs[1..], w, cut, rank + 1);
    }
  }

  // ----- The rearrangement inequality -----

  lemma ProductOrder(d: real, u: real, v: real)
    requires d >= 0.0 && u >= v
    ensures d * u >= d * v
    ensures d > 0.0 && u > v ==> d * u > d * v
  {
    assert d * u - d * v == d * (u - v);
  }

  ghost predicate Descending(s: seq<real>) {
    forall i, j :: 0 <= i < j < |s| ==> s[i] >= s[j]
  }

  ghost predicate NonNegative(s: seq<real>) {
    forall i :: 0 <= i < |s| ==> s[i] >= 0.0
  }

  /** A value, or zero past the end of the list. */
  function At(s: seq<real>, i: nat): real {
    if i < |s| then s[i] else 0.0
  }

  ghost predicate SameTop(a: seq<real>, b: seq<real>, n: int) {
    forall i: nat {:trigger At(a, i)} {:trigger At(b, i)} :: i < n ==> At(a, i) == At(b, i)
  }

  function IndexOf(s: seq<real>, x: real): (j: nat)
    requires x in s
    ensures j < |s| && s[j] == x
  {
    if s[0] == x then 0 else 1 + IndexOf(s[1..], x)
  }

  lemma Distribute(x: real, y: real, weight: real)
    ensures x * weight == y * weight + (x - y) * weight
  {
  }

  /** Changing one value changes the sum by the difference at that rank. */
  lemma {:induction false} ReplaceOne(xs: seq<real>, w: Weights, cut: nat, rank: nat, j: nat, was: real, x: real)
    requires j < |xs| && xs[j] == was
    ensures CutSum(xs[j := x], w, cut, rank) == CutSum(xs, w, cut, rank) + (x - was) * Weight(w, cut, rank + j)
  {
    if j > 0 {
      assert xs[j := x][1..] == xs[1..][j - 1 := x];
      ReplaceOne(xs[1..], w, cut, rank + 1, j - 1, was, x);
    } else {
      assert xs[0 := x][1..] == xs[1..];
      Distribute(x, was, Weight(w, cut, rank));
    }
  }

  /** `rest` with `x` in the place of the best value, if that is in it. */
  function Exchange(rest: seq<real>, x: real, best: real): seq<real> {
    if x != best && best in rest then rest[IndexOf(rest, best) := x] else rest
  }

  lemma TakeOut(a: multiset<real>, b: multiset<real>, x: real, y: real, r: multiset<real>)
    requires a + multiset{x} <= b && y in b
    requires r == if x != y && y in a then a - multiset{y} + multiset{x} else a
    ensures r <= b - multiset{y}
  {
    forall g
      ensures r[g] <= (b - multiset{y})[g]
    {
    }
  }

  lemma ExchangeKeepsElements(rest: seq<real>, b: seq<real>, x: real, best: real)
    requires multiset(rest) + multiset{x} <= multiset([best] + b)
    ensures multiset(Exchange(rest, x, best)) <= multiset(b)
  {
    assert multiset([best] + b) == multiset{best} + multiset(b);
    assert multiset([best] + b) - multiset{best} == multiset(b);
    if x != best && best in rest {
      var j := IndexOf(rest, best);
      assert multiset(rest[j := x]) == multiset(rest) - multiset{rest[j]} + multiset{x};
    }
    TakeOut(multiset(rest), multiset([best] + b), x, best, multiset(Exchange(rest, x, best)));
  }

  /** Moving the greater value to the greater weight. */
  lemma ExchangeSum(low: real, high: real, u: real, v: real, rest: real, exchanged: real)
    requires low <= high && v <= u && exchanged == rest + (low - high) * v
    ensures low * u + rest <= high * u + exchanged
    ensures low < high && v < u ==> low * u + rest < high * u + exchanged
  {
    ProductOrder(high - low, u, v);
    assert high * u == low * u + (high - low) * u;
    assert (low - high) * v == -((high - low) * v);
  }

  lemma ExchangeGains(rest: seq<real>, x: real, best: real, w: Weights, cut: nat, rank: nat)
    requires x <= best && Discounts(w)
    ensures x * Weight(w, cut, rank) + CutSum(rest, w, cut, rank + 1)
            <= best * Weight(w, cut, rank) + CutSum(Exchange(rest, x, best), w, cut, rank + 1)
    ensures rank < cut && x < best ==>
      x * Weight(w, cut, rank) + CutSum(rest, w, cut, rank + 1)
      < best * Weight(w, cut, rank) + CutSum(Exchange(rest, x, best), w, cut, rank + 1)
  {
    var r := Exchange(rest, x, best);
    WeightOrder(w, cut, rank, rank + 1);
    if x != best && best in rest {
      var j := IndexOf(rest, best);
      WeightOrder(w, cut, rank, rank + 1 + j);
      ReplaceOne(rest, w, cut, rank + 1, j, best, x);
      ExchangeSum(x, best, Weight(w, cut, rank), Weight(w, cut, rank + 1 + j),
                  CutSum(rest, w, cut, rank + 1), CutSum(r, w, cut, rank + 1));
    } else {
      ExchangeSum(x, best, Weight(w, cut, rank), 0.0, CutSum(rest, w, cut, rank + 1), CutSum(r, w, cut, rank + 1));
    }
  }

  lemma TopSplits(a: seq<real>, b: seq<real>, r: seq<real>, s: seq<real>, n: int)
    requires At(a, 0) == At(b, 0)
    requires forall i: nat :: At(a, i + 1) == At(r, i) && At(b, i + 1) == At(s, i)
    ensures SameTop(a, b, n) <==> SameTop(r, s, n - 1)
  {
    if SameTop(a, b, n) {
      forall i: nat | i < n - 1
        ensures At(r, i) == At(s, i)
      {
        assert At(a, i + 1) == At(b, i + 1);
      }
    }
    if SameTop(r, s, n - 1) {
      forall i: nat | i < n
        ensures At(a, i) == At(b, i)
      {
        if i > 0 {
          assert At(a, (i - 1) + 1) == At(r, i - 1);
        }
      }
    }
  }

  lemma {:induction false} NothingAgainstSome(b: seq<real>, w: Weights, cut: nat, rank: nat)
    requires Discounts(w) && NonNegative(b)
    ensures 0.0 <= CutSum(b, w, cut, rank)
    ensures CutSum(b, w, cut, rank) == 0.0 <==> SameTop([], b, cut - rank)
  {
    if b != [] {
      NothingAgainstSome(b[1..], w, cut, rank + 1);
      WeightOrder(w, cut, rank, rank + 1);
      ProductOrder(b[0], Weight(w, cut, rank), 0.0);
      if rank >= cut {
        NothingAfterCut(b, w, cut, rank);
      } else if b[0] == 0.0 {
        TopSplits([], b, [], b[1..], cut - rank);
      } else {
        assert At([], 0) != At(b, 0);
      }
    }
  }

  lemma DescendingTail(b: seq<real>, x: real)
    requires b != [] && Descending(b) && NonNegative(b) && x in multiset(b)
    ensures x <= b[0] && Descending(b[1..]) && NonNegative(b[1..])
  {
  }

  lemma TopOfTails(a: seq<real>, b: seq<real>, n: int)
    requires a != [] && b != []
    ensures a[0] == b[0] ==> (SameTop(a, b, n) <==> SameTop(a[1..], b[1..], n - 1))
    ensures a[0] != b[0] && n > 0 ==> !SameTop(a, b, n)
  {
    if a[0] == b[0] {
      TopSplits(a, b, a[1..], b[1..], n);
    } else {
      assert At(a, 0) != At(b, 0);
    }
  }

  lemma FirstInLarger(a: seq<real>, b: seq<real>)
    requires a != [] && multiset(a) <= multiset(b)
    ensures b != [] && a[0] in multiset(b)
    ensures multiset(a[1..]) + multiset{a[0]} <= multiset([b[0]] + b[1..])
  {
    assert a[0] in multiset(a);
    assert a == [a[0]] + a[1..] && b == [b[0]] + b[1..];
  }

  /** Sums that start with the larger value, or with the same one before the larger rest; p and q are the
      first terms. */
  lemma HeadAndRest(x: real, best: real, p: real, q: real, rest: real, r: real, t: real, a: real, b: real)
    requires a == p + rest && b == q + t && r <= t
    requires if x == best then p == q && rest == r else p + rest < q + r
    ensures a <= b && (a == b <==> x == best && r == t)
  {
  }

  lemma RearrangementStep(a: seq<real>, b: seq<real>, w: Weights, cut: nat, rank: nat, r: real, t: real)
    requires a != [] && b != [] && a[0] <= b[0] && Discounts(w)
    requires r == CutSum(Exchange(a[1..], a[0], b[0]), w, cut, rank + 1) && t == CutSum(b[1..], w, cut, rank + 1)
    requires r <= t
    requires a[0] == b[0] ==> (r == t <==> SameTop(a[1..], b[1..], cut - rank - 1))
    ensures CutSum(a, w, cut, rank) <= CutSum(b, w, cut, rank)
    ensures CutSum(a, w, cut, rank) == CutSum(b, w, cut, rank) <==> SameTop(a, b, cut - rank)
  {
    TopOfTails(a, b, cut - rank);
    if rank >= cut {
      NothingAfterCut(a, w, cut, rank);
      NothingAfterCut(b, w, cut, rank);
    } else {
      ExchangeGains(a[1..], a[0], b[0], w, cut, rank);
      var weight := Weight(w, cut, rank);
      HeadAndRest(a[0], b[0], a[0] * weight, b[0] * weight, CutSum(a[1..], w, cut, rank + 1), r, t,
                  CutSum(a, w, cut, rank), CutSum(b, w, cut, rank));
    }
  }

  /** No selection of the values, in any order, sums to more than the values in descending order;
      and it sums to as much only when it shows the same value at every rank before the cut. */
  lemma {:induction false} Rearrangement(a: seq<real>, b: seq<real>, w: Weights, cut: nat, rank: nat)
    requires multiset(a) <= multiset(b) && Descending(b) && NonNegative(b) && Discounts(w)
    ensures CutSum(a, w, cut, rank) <= CutSum(b, w, cut, rank)
    ensures CutSum(a, w, cut, rank) == CutSum(b, w, cut, rank) <==> SameTop(a, b, cut - rank)
    decreases |b|
  {
    if a == [] {
      NothingAgainstSome(b, w, cut, rank);
    } else {
      FirstInLarger(a, b);
      DescendingTail(b, a[0]);
      ExchangeKeepsElements(a[1..], b[1..], a[0], b[0]);
      var r, tail := Exchange(a[1..], a[0], b[0]), b[1..];
      Rearrangement(r, tail, w, cut, rank + 1);
      RearrangementStep(a, b, w, cut, rank, CutSum(r, w, cut, rank + 1), CutSum(tail, w, cut, rank + 1));
    }
  }

  // ----- NDCG -----

  lemma {:induction false} DropLastCandidate<T>(grades: seq<T>, ranking: seq<int>)
    requires grades != [] && NoRepeats(ranking)
    ensures var n := |grades| - 1;
            multiset(RankedGrades(grades, ranking))
            <= multiset(RankedGrades(grades[..n], ranking)) + multiset{grades[n]}
    ensures (|grades| - 1 !in ranking) ==>
      RankedGrades(grades, ranking) == RankedGrades(grades[..|grades| - 1], ranking)
  {
    if ranking != [] {
      DropLastCandidate(grades, ranking[1..]);
    }
  }

  /** A duplicate-free ranking shows each candidate at most once. */
  lemma {:induction false} RankedAreCandidates<T>(grades: seq<T>, ranking: seq<int>)
    requires NoRepeats(ranking)
    ensures multiset(RankedGrades(grades, ranking)) <= multiset(grades)
  {
    if grades == [] {
      NoCandidates<T>(ranking);
    } else {
      var n := |grades| - 1;
      DropLastCandidate(grades, ranking);
      RankedAreCandidates(grades[..n], ranking);
      assert grades == grades[..n] + [grades[n]];
    }
  }

  lemma {:induction false} NoCandidates<T>(ranking: seq<int>)
    ensures RankedGrades<T>([], ranking) == []
  {
    if ranking != [] {
      NoCandidates<T>(ranking[1..]);
    }
  }

  // ----- From grades to gains -----

  lemma {:induction false} GainsOfInsert(x: nat, s: seq<nat>)
    ensures multiset(Gains(Insert(GradeGeq, x, s))) == multiset(Gains(s)) + multiset{Gain(x)}
  {
    if s == [] || GradeGeq(x, s[0]) {
      assert Gains([x] + s) == [Gain(x)] + Gains(s);
    } else {
      GainsOfInsert(x, s[1..]);
      assert Gains([s[0]] + Insert(GradeGeq, x, s[1..])) == [Gain(s[0])] + Gains(Insert(GradeGeq, x, s[1..]));
      assert Gains(s) == [Gain(s[0])] + Gains(s[1..]);
    }
  }

  lemma {:induction false} GainsOfSort(s: seq<nat>)
    ensures multiset(Gains(Sort(GradeGeq, s))) == multiset(Gains(s))
  {
    if s != [] {
      GainsOfSort(s[1..]);
      GainsOfInsert(s[0], Sort(GradeGeq, s[1..]));
      assert Gains(s) == [Gain(s[0])] + Gains(s[1..]);
    }
  }

  lemma IdealGains(grades: seq<nat>)
    ensures var ideal := Gains(Sort(GradeGeq, grades));
            Descending(ideal) && NonNegative(ideal) && multiset(ideal) == multiset(Gains(grades))
  {
    var sorted := Sort(GradeGeq, grades);
    SortSorts(GradeGeq, grades);
    GainsOfSort(grades);
    forall i | 0 <= i < |sorted|
      ensures Gains(sorted)[i] >= 0.0
    {
      GainOrder(sorted[i], 0);
    }
    forall i, j | 0 <= i < j < |sorted|
      ensures Gains(sorted)[i] >= Gains(sorted)[j]
    {
      assert GradeGeq(sorted[i], sorted[j]);
      GainOrder(sorted[j], sorted[i]);
    }
  }

  lemma {:induction false} RankedGains(grades: seq<nat>, ranking: seq<int>)
    ensures Gains(RankedGrades(grades, ranking)) == RankedGrades(Gains(grades), ranking)
  {
    if ranking != [] {
      RankedGains(grades, ranking[1..]);
    }
  }

  /** A grade, or zero past the end of the list. */
  function GradeAt(s: seq<nat>, i: nat): nat {
    if i < |s| then s[i] else 0
  }

  ghost predicate SameGrades(a: seq<nat>, b: seq<nat>, n: nat) {
    forall i: nat {:trigger GradeAt(a, i)} {:trigger GradeAt(b, i)} :: i < n ==> GradeAt(a, i) == GradeAt(b, i)
  }

  lemma SameGradesSameGains(a: seq<nat>, b: seq<nat>, n: nat)
    ensures SameGrades(a, b, n) <==> SameTop(Gains(a), Gains(b), n)
  {
    forall i: nat
      ensures GradeAt(a, i) == GradeAt(b, i) <==> At(Gains(a), i) == At(Gains(b), i)
    {
      GainOrder(GradeAt(a, i), GradeAt(b, i));
      GainOrder(GradeAt(b, i), GradeAt(a, i));
    }
    if SameTop(Gains(a), Gains(b), n) {
      forall i: nat | i < n
        ensures GradeAt(a, i) == GradeAt(b, i)
      {
        assert At(Gains(a), i) == At(Gains(b), i);
      }
    }
    if SameGrades(a, b, n) {
      forall i: nat | i < n
        ensures At(Gains(a), i) == At(Gains(b), i)
      {
        assert GradeAt(a, i) == GradeAt(b, i);
      }
    }
  }

  lemma SomeGradeIsPositive(grades: seq<nat>, n: nat)
    requires n > 0
    ensures SameGrades([], Sort(GradeGeq, grades), n) <==> forall i :: 0 <= i < |grades| ==> grades[i] == 0
  {
    var sorted := Sort(GradeGeq, grades);
    SortSorts(GradeGeq, grades);
    SortKeepsElements(GradeGeq, grades);
    SameElements(sorted, grades);
    if SameGrades([], sorted, n) {
      forall i | 0 <= i < |grades|
        ensures grades[i] == 0
      {
        assert grades[i] in sorted;
        var k :| 0 <= k < |sorted| && sorted[k] == grades[i];
        assert GradeAt([], 0) == GradeAt(sorted, 0);
        assert k == 0 || GradeGeq(sorted[0], sorted[k]);
      }
    }
    if forall i :: 0 <= i < |grades| ==> grades[i] == 0 {
      forall k: nat
        ensures GradeAt(sorted, k) == 0
      {
        if k < |sorted| {
          assert sorted[k] in grades;
        }
      }
    }
  }

  lemma QuotientBounds(x: real, y: real)
    requires 0.0 <= x <= y && y > 0.0
    ensures 0.0 <= x / y <= 1.0 && (x / y == 1.0 <==> x == y)
  {
    var q := x / y;
    assert q * y == x;
  }

  lemma NdcgWithoutRepeats(ranking: seq<int>, grades: seq<nat>, w: Weights)
    requires NoRepeats(ranking) && Discounts(w)
    ensures 0.0 <= QualityOf(ranking, grades, w).ndcg <= 1.0
    ensures QualityOf(ranking, grades, w).ndcg == 1.0 <==>
      (exists i :: 0 <= i < |grades| && grades[i] > 0)
      && SameGrades(RankedGrades(grades, ranking), Sort(GradeGeq, grades), 10)
  {
    var ranked, ideal := RankedGrades(grades, ranking), Sort(GradeGeq, grades);
    var a, b := Gains(ranked), Gains(ideal);
    RankedAreCandidates(Gains(grades), ranking);
    RankedGains(grades, ranking);
    IdealGains(grades);
    assert NonNegative(a) by {
      forall i | 0 <= i < |a|
        ensures a[i] >= 0.0
      {
        GainOrder(ranked[i], 0);
      }
    }
    CutMeansTruncate(ranked, w, 10, 0);
    CutMeansTruncate(ideal, w, 10, 0);
    var dcg, idcg := CutSum(a, w, 10, 0), CutSum(b, w, 10, 0);
    Rearrangement(a, b, w, 10, 0);
    NothingAgainstSome(a, w, 10, 0);
    NothingAgainstSome(b, w, 10, 0);
    SameGradesSameGains(ranked, ideal, 10);
    SameGradesSameGains([], ideal, 10);
    SomeGradeIsPositive(grades, 10);
    if idcg != 0.0 {
      QuotientBounds(dcg, idcg);
    }
  }

  // ----- Only the first ten shown candidates matter -----

  /** The entries of a ranking that are candidates. */
  function InRange(ranking: seq<int>, n: nat): (r: seq<int>)
    ensures forall i :: 0 <= i < |r| ==> 0 <= r[i] < n
  {
    if ranking == [] then []
    else
      var rest := InRange(ranking[1..], n);
      if 0 <= ranking[0] < n then [ranking[0]] + rest else rest
  }

  /** The candidates at the first ten ranks. */
  function Shown(ranking: seq<int>, n: nat): (r: seq<int>)
    ensures |r| <= 10 && forall i :: 0 <= i < |r| ==> 0 <= r[i] < n
  {
    AtMost(InRange(ranking, n), 10)
  }

  lemma {:induction false} RankedOfFirst<T>(grades: seq<T>, ranking: seq<int>, k: nat)
    ensures RankedGrades(grades, AtMost(InRange(ranking, |grades|), k)) == AtMost(RankedGrades(grades, ranking), k)
  {
    if ranking != [] {
      var rest := InRange(ranking[1..], |grades|);
      if 0 <= ranking[0] < |grades| && k > 0 {
        RankedOfFirst(grades, ranking[1..], k - 1);
        assert AtMost([ranking[0]] + rest, k) == [ranking[0]] + AtMost(rest, k - 1);
        assert ([ranking[0]] + AtMost(rest, k - 1))[1..] == AtMost(rest, k - 1);
      } else {
        RankedOfFirst(grades, ranking[1..], k);
      }
    }
  }

  lemma OnlyShownMatters(ranking: seq<int>, grades: seq<nat>, w: Weights)
    ensures QualityOf(Shown(ranking, |grades|), grades, w).ndcg == QualityOf(ranking, grades, w).ndcg
    ensures SameGrades(RankedGrades(grades, Shown(ranking, |grades|)), Sort(GradeGeq, grades), 10)
            <==> SameGrades(RankedGrades(grades, ranking), Sort(GradeGeq, grades), 10)
  {
    RankedOfFirst(grades, ranking, 10);
    var ranked, ideal := RankedGrades(grades, ranking), Sort(GradeGeq, grades);
    var top := RankedGrades(grades, Shown(ranking, |grades|));
    assert top == AtMost(ranked, 10) && AtMost(top, 10) == top;
    TopDecides(ranked, ideal);
  }

  lemma TopDecides(ranked: seq<nat>, ideal: seq<nat>)
    ensures SameGrades(AtMost(ranked, 10), ideal, 10) <==> SameGrades(ranked, ideal, 10)
  {
    forall i: nat | i < 10
      ensures GradeAt(AtMost(ranked, 10), i) == GradeAt(ranked, i)
    {
    }
  }

  /** If the first ten shown candidates do not repeat, NDCG@10 lies in [0,1]; it is 1 exactly when some
      grade is positive and the first ten ranks show the grades of the ideal order. */
  lemma NdcgIsNormalised(ranking: seq<int>, grades: seq<nat>, w: Weights)
    requires NoRepeats(Shown(ranking, |grades|)) && Discounts(w)
    ensures 0.0 <= QualityOf(ranking, grades, w).ndcg <= 1.0
    ensures QualityOf(ranking, grades, w).ndcg == 1.0 <==>
      (exists i :: 0 <= i < |grades| && grades[i] > 0)
      && SameGrades(RankedGrades(grades, ranking), Sort(GradeGeq, grades), 10)
  {
    NdcgWithoutRepeats(Shown(ranking, |grades|), grades, w);
    OnlyShownMatters(ranking, grades, w);
  }

  /** Ordering all candidates by decreasing grade reaches 1. */
  lemma SortedRankingIsPerfect(ranking: seq<int>, grades: seq<nat>, w: Weights)
    requires NoRepeats(ranking) && Discounts(w)
    requires SortedBy(GradeGeq, RankedGrades(grades, ranking)) && |RankedGrades(grades, ranking)| == |grades|
    requires exists i :: 0 <= i < |grades| && grades[i] > 0
    ensures QualityOf(ranking, grades, w).ndcg == 1.0
  {
    var ranked, ideal := RankedGrades(grades, ranking), Sort(GradeGeq, grades);
    RankedAreCandidates(grades, ranking);
    SortSorts(GradeGeq, grades);
    SortKeepsElements(GradeGeq, grades);
    assert |multiset(grades) - multiset(ranked)| == 0;
    assert multiset(ranked) == multiset(grades);
    SortedIsUnique(GradeGeq, ranked, ideal);
    NdcgWithoutRepeats(ranking, grades, w);
  }

  /** A repeated candidate is counted twice, and then NDCG exceeds 1. */
  lemma RepeatedCandidateBreaksNdcg(w: Weights)
    requires Discounts(w)
    ensures QualityOf([0, 0], [1, 0], w).ndcg > 1.0
  {
    var grades: seq<nat>, ranking := [1, 0], [0, 0];
    assert RankedGrades(grades, ranking[1..][1..]) == [];
    assert RankedGrades(grades, ranking[1..]) == [1];
    assert RankedGrades(grades, ranking) == [1, 1];
    assert Sort(GradeGeq, grades) == [1, 0] by {
      assert Sort(GradeGeq, grades[1..][1..]) == [];
      assert Sort(GradeGeq, grades[1..]) == [0];
    }
    assert Gain(1) == 1.0 && Gain(0) == 0.0;
    TwoGains(1, 1, w);
    TwoGains(1, 0, w);
    assert Outweighs(w, 0, 1);
    QuotientExceeds(w(0) + w(1), w(0));
  }

  lemma QuotientExceeds(x: real, y: real)
    requires x > y > 0.0
    ensures x / y > 1.0
  {
    var q := x / y;
    assert q * y == x;
  }

  lemma TwoGains(a: nat, b: nat, w: Weights)
    ensures Gained([a, b], w, 0) == Gain(a) * w(0) + Gain(b) * w(1)
  {
    assert [a, b][1..] == [b] && [b][1..] == [];
    assert Gained([b], w, 1) == Gain(b) * w(1) + Gained([], w, 2);
  }

  // ----- MRR and hit rate -----

  lemma {:induction false} FirstRelevantIsFirst(grades: seq<nat>)
    ensures var r := FirstRelevant(grades);
            && r <= |grades|
            && (r == 0 ==> forall i :: 0 <= i < |grades| ==> grades[i] == 0)
            && (r > 0 ==> grades[r - 1] >= 1 && forall i :: 0 <= i < r - 1 ==> grades[i] == 0)
  {
    if grades != [] {
      FirstRelevantIsFirst(grades[1..]);
    }
  }

  /** The reciprocal rank is in [0,1], and reaches one fifth exactly when the hit rate counts a hit. */
  lemma HitsAreHighReciprocalRanks(ranking: seq<int>, grades: seq<nat>, w: Weights)
    ensures var q := QualityOf(ranking, grades, w);
            0.0 <= q.mrr <= 1.0 && (q.hitRate == 1.0 <==> q.mrr >= 0.2) && (q.hitRate == 0.0 <==> q.mrr < 0.2)
  {
    var ranked := RankedGrades(grades, ranking);
    var top, five := AtMost(ranked, 10), AtMost(ranked, 5);
    var r := FirstRelevant(top);
    FirstRelevantIsFirst(top);
    assert forall i :: 0 <= i < |five| ==> five[i] == top[i];
    if 0 < r <= 5 {
      assert five[r - 1] >= 1;
      ReciprocalOrder(r, 5);
    } else if r > 5 {
      ReciprocalOrder(5, r);
    }
  }

  lemma ReciprocalOrder(a: nat, b: nat)
    requires 1 <= a <= b
    ensures 0.0 < 1.0 / b as real <= 1.0 / a as real <= 1.0
    ensures a < b ==> 1.0 / b as real < 1.0 / a as real
  {
    var x, y := 1.0 / a as real, 1.0 / b as real;
    assert x * a as real == 1.0 && y * b as real == 1.0;
    assert x * b as real - 1.0 == x * (b - a) as real;
    assert (x - y) * b as real == x * (b - a) as real;
  }
}
