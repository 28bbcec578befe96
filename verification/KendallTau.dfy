/** Kendall's rank correlation over the items two rankings share. */
module KendallTau {
  import opened Sorting

  /** The items of `first` that `second` also holds, in the order of `first`. */
  function Common(first: seq<int>, second: seq<int>): (c: seq<int>)
    ensures forall x :: x in c <==> x in first && x in second
  {
    if first == [] then []
    else if first[0] in second then [first[0]] + Common(first[1..], second)
    else Common(first[1..], second)
  }

  /** The dictionary from items to indices; a repeated item keeps its last. */
  function Positions(s: seq<int>): (m: map<int, nat>)
    ensures forall x :: x in m <==> x in s
    ensures forall x :: x in m ==> m[x] < |s| && s[m[x]] == x
  {
    if s == [] then map[]
    else
      assert s == s[..|s| - 1] + [s[|s| - 1]];
      Positions(s[..|s| - 1])[s[|s| - 1] := |s| - 1]
  }

  function Place(pos: map<int, nat>, x: int): int {
    if x in pos then pos[x] else -1
  }

  /** How many of `rest` come after `x`. */
  function After(x: int, rest: seq<int>, pos: map<int, nat>): nat {
    if rest == [] then 0
    else
      var n := |rest| - 1;
      After(x, rest[..n], pos) + (if Place(pos, x) < Place(pos, rest[n]) then 1 else 0)
  }

  /** The pairs that keep their order, with the first member among the first n of `c`. */
  function Concordant(c: seq<int>, n: nat, pos: map<int, nat>): nat
    requires n <= |c|
  {
    if n == 0 then 0 else Concordant(c, n - 1, pos) + After(c[n - 1], c[n..], pos)
  }

  /** All pairs with the smaller index among the first n of `size`. */
  function Pairs(n: nat, size: nat): nat
    requires n <= size
  {
    if n == 0 then 0 else Pairs(n - 1, size) + (size - n)
  }

  function Score(concordant: int, pairs: int): real {
    if pairs == 0 then 0.0 else (concordant - (pairs - concordant)) as real / pairs as real
  }

  function Tau(first: seq<int>, second: seq<int>): real {
    var c := Common(first, second);
    if |c| < 2 then 0.0 else Score(Concordant(c, |c|, Positions(second)), Pairs(|c|, |c|))
  }

  method KendallTau(first: seq<int>, second: seq<int>) returns (tau: real)
    ensures tau == Tau(first, second)
  {
    var common := Common(first, second);
    if |common| < 2 {
      return 0.0;
    }
    var concordant, discordant := CountPairs(common, Positions(second));
    tau := Score(concordant, concordant + discordant);
  }

  method CountPairs(c: seq<int>, positions: map<int, nat>) returns (concordant: nat, discordant: nat)
    ensures concordant == Concordant(c, |c|, positions)
    ensures concordant + discordant == Pairs(|c|, |c|)
  {
    concordant, discordant := 0, 0;
    for left := 0 to |c|
      invariant concordant == Concordant(c, left, positions)
      invariant concordant + discordant == Pairs(left, |c|)
    {
      var x := c[left];
      ghost var rest := c[left + 1..];
      ghost var before := concordant;
      for right := left + 1 to |c|
        invariant concordant == before + After(x, rest[..right - left - 1], positions)
        invariant concordant + discordant == Pairs(left, |c|) + (right - left - 1)
      {
        AfterGrows(x, rest, right - left - 1, positions);
        if Place(positions, x) < Place(positions, c[right]) {
          concordant := concordant + 1;
        } else {
          discordant := discordant + 1;
        }
      }
      assert rest[..|c| - left - 1] == rest;
    }
  }

  lemma AfterGrows(x: int, rest: seq<int>, k: nat, pos: map<int, nat>)
    requires k < |rest|
    ensures After(x, rest[..k + 1], pos)
            == After(x, rest[..k], pos) + if Place(pos, x) < Place(pos, rest[k]) then 1 else 0
  {
    assert rest[..k + 1][..k] == rest[..k];
  }

  // ----- Counting concordant pairs as a set -----

  ghost function AfterSet(x: int, rest: seq<int>, pos: map<int, nat>): set<(int, int)> {
    set y | y in rest && Place(pos, x) < Place(pos, y) :: (x, y)
  }

  lemma {:induction false} AfterIsCardinality(x: int, rest: seq<int>, pos: map<int, nat>)
    requires NoRepeats(rest)
    ensures After(x, rest, pos) == |AfterSet(x, rest, pos)|
  {
    if rest != [] {
      var n := |rest| - 1;
      var front, last := rest[..n], rest[n];
      AfterIsCardinality(x, front, pos);
      AfterSetGrows(x, front, last, pos);
      assert rest == front + [last] && last !in front;
    }
  }

  lemma AfterSetGrows(x: int, front: seq<int>, last: int, pos: map<int, nat>)
    ensures AfterSet(x, front + [last], pos)
            == AfterSet(x, front, pos) + if Place(pos, x) < Place(pos, last) then {(x, last)} else {}
    ensures last !in front ==> (x, last) !in AfterSet(x, front, pos)
  {
    assert forall y :: y in front + [last] <==> y in front || y == last;
  }

  ghost function ConcordantSet(c: seq<int>, n: nat, pos: map<int, nat>): set<(int, int)>
    requires n <= |c|
  {
    if n == 0 then {} else ConcordantSet(c, n - 1, pos) + AfterSet(c[n - 1], c[n..], pos)
  }

  lemma {:induction false} FirstsOfConcordantSet(c: seq<int>, n: nat, pos: map<int, nat>, p: (int, int))
    requires n <= |c| && p in ConcordantSet(c, n, pos)
    ensures p.0 in c[..n]
  {
    if p in ConcordantSet(c, n - 1, pos) {
      FirstsOfConcordantSet(c, n - 1, pos, p);
      assert c[..n] == c[..n - 1] + [c[n - 1]];
    } else {
      assert p.0 == c[n - 1] == c[..n][n - 1];
    }
  }

  lemma LaterFirstsAreNew(c: seq<int>, n: nat, pos: map<int, nat>)
    requires n < |c| && NoRepeats(c)
    ensures ConcordantSet(c, n, pos) !! AfterSet(c[n], c[n + 1..], pos)
  {
    var before, added := ConcordantSet(c, n, pos), AfterSet(c[n], c[n + 1..], pos);
    assert c[n] !in c[..n];
    if p :| p in before && p in added {
      FirstsOfConcordantSet(c, n, pos, p);
    }
  }

  lemma UnionSize(a: set<(int, int)>, b: set<(int, int)>)
    requires a !! b
    ensures |a + b| == |a| + |b|
  {
  }

  lemma {:induction false} ConcordantIsCardinality(c: seq<int>, n: nat, pos: map<int, nat>)
    requires n <= |c| && NoRepeats(c)
    ensures Concordant(c, n, pos) == |ConcordantSet(c, n, pos)|
  {
    if n > 0 {
      var m, x, rest := n - 1, c[n - 1], c[n..];
      ConcordantIsCardinality(c, m, pos);
      DistinctSuffix(c, n);
      AfterIsCardinality(x, rest, pos);
      LaterFirstsAreNew(c, m, pos);
      UnionSize(ConcordantSet(c, m, pos), AfterSet(x, rest, pos));
    }
  }

  lemma DistinctSuffix(c: seq<int>, n: nat)
    requires n <= |c| && NoRepeats(c)
    ensures NoRepeats(c[n..])
  {
  }

  /** What comes after the place of `x` in a list without repeats. */
  lemma LaterIsAfter(c: seq<int>, n: nat, y: int)
    requires 0 < n <= |c| && NoRepeats(c)
    ensures y in c[n..] <==> y in c && PlaceIn(c, c[n - 1]) < PlaceIn(c, y)
  {
    PlaceInList(c, n - 1);
    if y in c {
      var j :| 0 <= j < |c| && c[j] == y;
      PlaceInList(c, j);
      if j >= n {
        assert c[n..][j - n] == y;
      }
    }
  }

  lemma AfterSetMembers(c: seq<int>, n: nat, pos: map<int, nat>, x: int, y: int)
    requires 0 < n <= |c| && NoRepeats(c)
    ensures (x, y) in AfterSet(c[n - 1], c[n..], pos) <==>
      x == c[n - 1] && y in c && PlaceIn(c, x) < PlaceIn(c, y) && Place(pos, x) < Place(pos, y)
  {
    LaterIsAfter(c, n, y);
  }

  /** A pair counts exactly when the list and the positions put its members in the same order. */
  lemma {:induction false} ConcordantSetMembers(c: seq<int>, n: nat, pos: map<int, nat>, x: int, y: int)
    requires n <= |c| && NoRepeats(c)
    ensures (x, y) in ConcordantSet(c, n, pos) <==>
      x in c[..n] && y in c && PlaceIn(c, x) < PlaceIn(c, y) && Place(pos, x) < Place(pos, y)
  {
    if n > 0 {
      ConcordantSetMembers(c, n - 1, pos, x, y);
      AfterSetMembers(c, n, pos, x, y);
      assert c[..n] == c[..n - 1] + [c[n - 1]];
      assert x in c[..n] <==> x in c[..n - 1] || x == c[n - 1];
    }
  }

  function PlaceIn(s: seq<int>, x: int): int {
    Place(Positions(s), x)
  }

  lemma PlaceInList(s: seq<int>, i: nat)
    requires i < |s| && NoRepeats(s)
    ensures PlaceIn(s, s[i]) == i
  {
    assert s[i] in Positions(s);
  }

  // ----- Symmetry -----

  /** Shared items keep their order of the first ranking. */
  lemma {:induction false} CommonIndices(first: seq<int>, second: seq<int>, i: nat, j: nat) returns (k: nat, l: nat)
    requires i < j < |Common(first, second)|
    ensures k < l < |first| && first[k] == Common(first, second)[i] && first[l] == Common(first, second)[j]
  {
    if first[0] !in second {
      k, l := CommonIndices(first[1..], second, i, j);
      k, l := k + 1, l + 1;
    } else if i > 0 {
      k, l := CommonIndices(first[1..], second, i - 1, j - 1);
      k, l := k + 1, l + 1;
    } else {
      var y := Common(first, second)[j];
      assert y in first[1..];
      k := 0;
      l :| 0 < l < |first| && first[l] == y;
    }
  }

  lemma CommonIsDistinct(first: seq<int>, second: seq<int>)
    requires NoRepeats(first)
    ensures NoRepeats(Common(first, second))
  {
    var c := Common(first, second);
    forall i, j | 0 <= i < j < |c|
      ensures c[i] != c[j]
    {
      var k, l := CommonIndices(first, second, i, j);
    }
  }

  lemma CommonKeepsOrder(first: seq<int>, second: seq<int>, x: int, y: int)
    requires NoRepeats(first) && x in Common(first, second) && y in Common(first, second)
    ensures PlaceIn(Common(first, second), x) < PlaceIn(Common(first, second), y)
            <==> PlaceIn(first, x) < PlaceIn(first, y)
  {
    var c := Common(first, second);
    CommonIsDistinct(first, second);
    var i :| 0 <= i < |c| && c[i] == x;
    var j :| 0 <= j < |c| && c[j] == y;
    PlaceInList(c, i);
    PlaceInList(c, j);
    if i < j {
      var k, l := CommonIndices(first, second, i, j);
      PlaceInList(first, k);
      PlaceInList(first, l);
    } else if j < i {
      var k, l := CommonIndices(first, second, j, i);
      PlaceInList(first, k);
      PlaceInList(first, l);
    }
  }

  ghost function SharedPairs(first: seq<int>, second: seq<int>): set<(int, int)> {
    ConcordantSet(Common(first, second), |Common(first, second)|, Positions(second))
  }

  /** Both rankings hold the two items, in this order. */
  ghost predicate Agree(first: seq<int>, second: seq<int>, x: int, y: int) {
    x in first && x in second && y in first && y in second
    && PlaceIn(first, x) < PlaceIn(first, y) && PlaceIn(second, x) < PlaceIn(second, y)
  }

  lemma SharedPairsAgree(first: seq<int>, second: seq<int>, x: int, y: int)
    requires NoRepeats(first) && NoRepeats(second)
    ensures (x, y) in SharedPairs(first, second) <==> Agree(first, second, x, y)
  {
    var c := Common(first, second);
    CommonIsDistinct(first, second);
    ConcordantSetMembers(c, |c|, Positions(second), x, y);
    assert c[..|c|] == c;
    if x in c && y in c {
      CommonKeepsOrder(first, second, x, y);
    }
  }

  lemma {:induction false} DistinctSize(s: seq<int>)
    requires NoRepeats(s)
    ensures |set x | x in s| == |s|
  {
    if s != [] {
      var n := |s| - 1;
      DistinctSize(s[..n]);
      assert s == s[..n] + [s[n]];
      assert (set x | x in s) == (set x | x in s[..n]) + {s[n]};
      assert s[n] !in s[..n];
    }
  }

  lemma CommonSizes(first: seq<int>, second: seq<int>)
    requires NoRepeats(first) && NoRepeats(second)
    ensures |Common(first, second)| == |Common(second, first)|
  {
    var c, d := Common(first, second), Common(second, first);
    CommonIsDistinct(first, second);
    CommonIsDistinct(second, first);
    DistinctSize(c);
    DistinctSize(d);
    assert (set x | x in c) == (set x | x in d);
  }

  lemma SharedPairsAreSymmetric(first: seq<int>, second: seq<int>)
    requires NoRepeats(first) && NoRepeats(second)
    ensures SharedPairs(first, second) == SharedPairs(second, first)
  {
    var p, q := SharedPairs(first, second), SharedPairs(second, first);
    forall t: (int, int)
      ensures t in p <==> t in q
    {
      var (x, y) := t;
      SharedPairsAgree(first, second, x, y);
      SharedPairsAgree(second, first, x, y);
    }
  }

  /** Tau does not depend on which ranking comes first, even when they share only some items. */
  lemma TauIsSymmetric(first: seq<int>, second: seq<int>)
    requires NoRepeats(first) && NoRepeats(second)
    ensures Tau(first, second) == Tau(second, first)
  {
    CommonSizes(first, second);
    SharedPairsAreSymmetric(first, second);
    CommonIsDistinct(first, second);
    CommonIsDistinct(second, first);
    ConcordantIsCardinality(Common(first, second), |Common(first, second)|, Positions(second));
    ConcordantIsCardinality(Common(second, first), |Common(second, first)|, Positions(first));
  }

  // ----- Range, identity and reversal -----

  lemma {:induction false} AfterIsBounded(x: int, rest: seq<int>, pos: map<int, nat>)
    ensures After(x, rest, pos) <= |rest|
  {
    if rest != [] {
      AfterIsBounded(x, rest[..|rest| - 1], pos);
    }
  }

  lemma {:induction false} ConcordantIsBounded(c: seq<int>, n: nat, pos: map<int, nat>)
    requires n <= |c|
    ensures Concordant(c, n, pos) <= Pairs(n, |c|)
  {
    if n > 0 {
      ConcordantIsBounded(c, n - 1, pos);
      AfterIsBounded(c[n - 1], c[n..], pos);
    }
  }

  lemma ZeroFactor(x: real, p: real)
    requires p > 0.0 && x * p == 0.0
    ensures x == 0.0
  {
  }

  lemma QuotientRange(d: real, p: real)
    requires p > 0.0 && -p <= d <= p
    ensures -1.0 <= d / p <= 1.0 && (-d) / p == -(d / p)
  {
    var q, r := d / p, (-d) / p;
    assert q * p == d && r * p == -d;
    assert (q + r) * p == 0.0;
    ZeroFactor(q + r, p);
    assert (1.0 - q) * p == p - d;
    assert (1.0 + q) * p == p + d;
  }

  lemma ScoreRange(concordant: nat, pairs: nat)
    requires concordant <= pairs
    ensures -1.0 <= Score(concordant, pairs) <= 1.0
    ensures Score(pairs - concordant, pairs) == -Score(concordant, pairs)
    ensures pairs > 0 && concordant == pairs ==> Score(concordant, pairs) == 1.0
  {
    if pairs > 0 {
      var d := concordant - (pairs - concordant);
      QuotientRange(d as real, pairs as real);
      assert (pairs - concordant) - (pairs - (pairs - concordant)) == -d;
      assert (-d) as real == -(d as real);
    }
  }

  /** Tau lies in [-1,1] for any two rankings. */
  lemma TauIsBounded(first: seq<int>, second: seq<int>)
    ensures -1.0 <= Tau(first, second) <= 1.0
  {
    var c := Common(first, second);
    ConcordantIsBounded(c, |c|, Positions(second));
    ScoreRange(Concordant(c, |c|, Positions(second)), Pairs(|c|, |c|));
  }

  lemma {:induction false} CommonWithSuperset(first: seq<int>, second: seq<int>)
    requires forall x :: x in first ==> x in second
    ensures Common(first, second) == first
  {
    if first != [] {
      var x0 := first[0];
      assert x0 in first;
      forall x | x in first[1..]
        ensures x in second
      {
        assert x in first;
      }
      CommonWithSuperset(first[1..], second);
      assert [x0] + first[1..] == first;
    }
  }

  lemma {:induction false} AllAfter(x: int, rest: seq<int>, pos: map<int, nat>)
    requires forall y :: y in rest ==> Place(pos, x) < Place(pos, y)
    ensures After(x, rest, pos) == |rest|
  {
    if rest != [] {
      AllAfter(x, rest[..|rest| - 1], pos);
    }
  }

  ghost predicate Increasing(c: seq<int>, pos: map<int, nat>) {
    forall i, j :: 0 <= i < j < |c| ==> Place(pos, c[i]) < Place(pos, c[j])
  }

  lemma SuffixIsLater(c: seq<int>, n: nat, pos: map<int, nat>)
    requires Increasing(c, pos) && 0 < n <= |c|
    ensures forall y :: y in c[n..] ==> Place(pos, c[n - 1]) < Place(pos, y)
  {
    forall y | y in c[n..]
      ensures Place(pos, c[n - 1]) < Place(pos, y)
    {
      var j :| 0 <= j < |c[n..]| && c[n..][j] == y;
      assert c[n + j] == y;
    }
  }

  lemma {:induction false} AllConcordant(c: seq<int>, n: nat, pos: map<int, nat>)
    requires Increasing(c, pos) && n <= |c|
    ensures Concordant(c, n, pos) == Pairs(n, |c|)
  {
    if n > 0 {
      AllConcordant(c, n - 1, pos);
      SuffixIsLater(c, n, pos);
      AllAfter(c[n - 1], c[n..], pos);
    }
  }

  lemma PositionsIncrease(s: seq<int>)
    requires NoRepeats(s)
    ensures Increasing(s, Positions(s))
  {
    forall i, j | 0 <= i < j < |s|
      ensures Place(Positions(s), s[i]) < Place(Positions(s), s[j])
    {
      PlaceInList(s, i);
      PlaceInList(s, j);
    }
  }

  lemma {:induction false} AfterMisses(x: int, rest: seq<int>, pos: map<int, nat>, k: nat)
    requires k < |rest| && !(Place(pos, x) < Place(pos, rest[k]))
    ensures After(x, rest, pos) < |rest|
  {
    var n := |rest| - 1;
    if k < n {
      AfterMisses(x, rest[..n], pos, k);
    } else {
      AfterIsBounded(x, rest[..n], pos);
    }
  }

  lemma {:induction false} ConcordantMisses(c: seq<int>, n: nat, pos: map<int, nat>, i: nat, j: nat)
    requires i < j < |c| && i < n <= |c| && !(Place(pos, c[i]) < Place(pos, c[j]))
    ensures Concordant(c, n, pos) < Pairs(n, |c|)
  {
    if i < n - 1 {
      ConcordantMisses(c, n - 1, pos, i, j);
      AfterIsBounded(c[n - 1], c[n..], pos);
    } else {
      assert c[n..][j - n] == c[j];
      AfterMisses(c[i], c[n..], pos, j - n);
      ConcordantIsBounded(c, n - 1, pos);
    }
  }

  lemma PositiveFactor(x: real, p: real)
    requires p > 0.0 && x * p > 0.0
    ensures x > 0.0
  {
  }

  lemma ScoreBelowOne(concordant: nat, pairs: nat)
    requires concordant < pairs
    ensures Score(concordant, pairs) < 1.0
  {
    var x, p := Score(concordant, pairs), pairs as real;
    assert x * p == (2 * concordant - pairs) as real;
    assert (1.0 - x) * p == p - x * p;
    PositiveFactor(1.0 - x, p);
  }

  /** A ranking of at least two items agrees fully with itself exactly when it repeats none. */
  lemma TauWithItself(s: seq<int>)
    requires |s| >= 2
    ensures Tau(s, s) == 1.0 <==> NoRepeats(s)
  {
    CommonWithSuperset(s, s);
    if NoRepeats(s) {
      PositionsIncrease(s);
      AllConcordant(s, |s|, Positions(s));
      assert Pairs(|s|, |s|) == Pairs(|s| - 1, |s|);
      assert Pairs(1, |s|) == Pairs(0, |s|) + (|s| - 1);
      PairsGrow(1, |s|, |s|);
      ScoreRange(Pairs(|s|, |s|), Pairs(|s|, |s|));
    } else {
      var i, j :| 0 <= i < j < |s| && s[i] == s[j];
      ConcordantMisses(s, |s|, Positions(s), i, j);
      ScoreBelowOne(Concordant(s, |s|, Positions(s)), Pairs(|s|, |s|));
    }
  }

  /** A pair of equal items counts as discordant. */
  lemma RepeatedPairIsDiscordant()
    ensures Tau([0, 0], [0, 0]) == -1.0
  {
    var s := [0, 0];
    CommonWithSuperset(s, s);
    assert s[1..] == [0] && s[2..] == [] && [0][..0] == [];
    assert After(0, [0], Positions(s)) == 0;
    assert Concordant(s, 2, Positions(s)) == 0 && Pairs(2, 2) == 1;
  }

  lemma {:induction false} PairsGrow(m: nat, n: nat, size: nat)
    requires m <= n <= size
    ensures Pairs(m, size) <= Pairs(n, size)
  {
    if m < n {
      PairsGrow(m, n - 1, size);
    }
  }

  lemma ReversePlaces(s: seq<int>, x: int)
    requires NoRepeats(s)
    ensures NoRepeats(Reversed(s)) && (x in Reversed(s) <==> x in s)
    ensures x in s ==> PlaceIn(Reversed(s), x) == |s| - 1 - PlaceIn(s, x)
  {
    var r := Reversed(s);
    if x in s {
      var i :| 0 <= i < |s| && s[i] == x;
      PlaceInList(s, i);
      assert r[|s| - 1 - i] == x;
      PlaceInList(r, |s| - 1 - i);
    }
  }

  /** The same items at mirrored, distinct positions. */
  ghost predicate Mirrored(pos: map<int, nat>, rev: map<int, nat>, size: nat) {
    && (forall x :: x in pos ==> x in rev && rev[x] == size - 1 - pos[x])
    && (forall x, y :: x in pos && y in pos && x != y ==> pos[x] != pos[y])
  }

  lemma ReversalMirrors(s: seq<int>)
    requires NoRepeats(s)
    ensures Mirrored(Positions(s), Positions(Reversed(s)), |s|)
  {
    forall x | x in Positions(s)
      ensures x in Positions(Reversed(s)) && Positions(Reversed(s))[x] == |s| - 1 - Positions(s)[x]
    {
      ReversePlaces(s, x);
    }
  }

  lemma {:induction false} AfterFlips(x: int, rest: seq<int>, pos: map<int, nat>, rev: map<int, nat>, size: nat)
    requires Mirrored(pos, rev, size) && x in pos && x !in rest && forall y :: y in rest ==> y in pos
    ensures After(x, rest, rev) == |rest| - After(x, rest, pos)
  {
    if rest != [] {
      var n := |rest| - 1;
      assert rest[n] in rest;
      AfterFlips(x, rest[..n], pos, rev, size);
    }
  }

  lemma {:induction false} ConcordantFlips(c: seq<int>, n: nat, pos: map<int, nat>, rev: map<int, nat>, size: nat)
    requires NoRepeats(c) && Mirrored(pos, rev, size) && n <= |c| && forall y :: y in c ==> y in pos
    ensures Concordant(c, n, rev) == Pairs(n, |c|) - Concordant(c, n, pos)
  {
    if n > 0 {
      ConcordantFlips(c, n - 1, pos, rev, size);
      assert c[n - 1] in c;
      AfterFlips(c[n - 1], c[n..], pos, rev, size);
    }
  }

  lemma {:induction false} CommonDependsOnMembers(first: seq<int>, second: seq<int>, other: seq<int>)
    requires forall x :: x in second <==> x in other
    ensures Common(first, second) == Common(first, other)
  {
    if first != [] {
      CommonDependsOnMembers(first[1..], second, other);
    }
  }

  /** Reversing either ranking negates tau. */
  lemma ReversalNegatesTau(first: seq<int>, second: seq<int>)
    requires NoRepeats(first) && NoRepeats(second)
    ensures Tau(first, Reversed(second)) == -Tau(first, second)
    ensures Tau(Reversed(first), second) == -Tau(first, second)
  {
    ReversingTheSecond(first, second);
    ReversingTheSecond(second, first);
    ReversePlaces(first, 0);
    TauIsSymmetric(first, second);
    TauIsSymmetric(Reversed(first), second);
  }

  lemma ReversingTheSecond(first: seq<int>, second: seq<int>)
    requires NoRepeats(first) && NoRepeats(second)
    ensures Tau(first, Reversed(second)) == -Tau(first, second)
  {
    forall x
      ensures x in Reversed(second) <==> x in second
    {
      ReversePlaces(second, x);
    }
    var c := Common(first, second);
    CommonDependsOnMembers(first, Reversed(second), second);
    CommonIsDistinct(first, second);
    ReversalMirrors(second);
    ConcordantFlips(c, |c|, Positions(second), Positions(Reversed(second)), |second|);
    ConcordantIsBounded(c, |c|, Positions(second));
    ScoreRange(Concordant(c, |c|, Positions(second)), Pairs(|c|, |c|));
  }
}
