/** Stable sorting by a comparison, as `list.sort` and `sorted` do it, reversal, and the order of texts. */
module Sorting {
  import opened Texts

  ghost predicate TotalPreorder<T(!new)>(leq: (T, T) -> bool) {
    && (forall x, y :: leq(x, y) || leq(y, x))
    && (forall x, y, z :: leq(x, y) && leq(y, z) ==> leq(x, z))
  }

  ghost predicate SortedBy<T>(leq: (T, T) -> bool, s: seq<T>) {
    forall i, j :: 0 <= i < j < |s| ==> leq(s[i], s[j])
  }

  function Insert<T>(leq: (T, T) -> bool, x: T, s: seq<T>): seq<T> {
    if s == [] then [x] else if leq(x, s[0]) then [x] + s else [s[0]] + Insert(leq, x, s[1..])
  }

  function Sort<T>(leq: (T, T) -> bool, s: seq<T>): seq<T> {
    if s == [] then [] else Insert(leq, s[0], Sort(leq, s[1..]))
  }

  lemma {:induction false} InsertKeepsElements<T>(leq: (T, T) -> bool, x: T, s: seq<T>)
    ensures multiset(Insert(leq, x, s)) == multiset(s) + multiset{x}
  {
    if s != [] && !leq(x, s[0]) {
      assert s == [s[0]] + s[1..];
      InsertKeepsElements(leq, x, s[1..]);
    }
  }

  lemma {:induction false} SortKeepsElements<T>(leq: (T, T) -> bool, s: seq<T>)
    ensures multiset(Sort(leq, s)) == multiset(s)
    ensures |Sort(leq, s)| == |s|
  {
    if s != [] {
      assert s == [s[0]] + s[1..];
      SortKeepsElements(leq, s[1..]);
      InsertKeepsElements(leq, s[0], Sort(leq, s[1..]));
    }
    assert |multiset(Sort(leq, s))| == |Sort(leq, s)|;
  }

  lemma SameElements<T>(s: seq<T>, t: seq<T>)
    requires multiset(s) == multiset(t)
    ensures forall x :: x in s <==> x in t
  {
    forall x
      ensures x in s <==> x in t
    {
      assert x in multiset(s) <==> x in multiset(t);
    }
  }

  ghost predicate NoRepeats<T>(s: seq<T>) {
    forall i, j :: 0 <= i < j < |s| ==> s[i] != s[j]
  }

  lemma {:induction false} OnceEach<T>(s: seq<T>, x: T)
    requires NoRepeats(s)
    ensures multiset(s)[x] <= 1
  {
    if s != [] {
      assert s == [s[0]] + s[1..];
      OnceEach(s[1..], x);
    }
  }

  /** A rearrangement of a sequence without repeats has none. */
  lemma RearrangedHasNoRepeats<T>(s: seq<T>, t: seq<T>)
    requires multiset(s) == multiset(t) && NoRepeats(s)
    ensures NoRepeats(t)
  {
    forall i, j | 0 <= i < j < |t|
      ensures t[i] != t[j]
    {
      OnceEach(s, t[i]);
      assert t == t[..j] + [t[j]] + t[j + 1..];
      assert t[..j][i] == t[i];
      assert t[i] in multiset(t[..j]);
    }
  }

  lemma {:induction false} InsertSorts<T(!new)>(leq: (T, T) -> bool, x: T, s: seq<T>)
    requires TotalPreorder(leq) && SortedBy(leq, s)
    ensures SortedBy(leq, Insert(leq, x, s))
  {
    if s != [] && !leq(x, s[0]) {
      var rest := Insert(leq, x, s[1..]);
      InsertSorts(leq, x, s[1..]);
      InsertKeepsElements(leq, x, s[1..]);
      forall i | 0 <= i < |rest|
        ensures leq(s[0], rest[i])
      {
        assert rest[i] in multiset(rest);
      }
    }
  }

  lemma {:induction false} SortSorts<T(!new)>(leq: (T, T) -> bool, s: seq<T>)
    requires TotalPreorder(leq)
    ensures SortedBy(leq, Sort(leq, s))
  {
    if s != [] {
      SortSorts(leq, s[1..]);
      InsertSorts(leq, s[0], Sort(leq, s[1..]));
    }
  }

  /** The elements that the comparison cannot tell from x, in order. */
  function Ties<T>(leq: (T, T) -> bool, x: T, s: seq<T>): seq<T> {
    if s == [] then []
    else (if leq(x, s[0]) && leq(s[0], x) then [s[0]] else []) + Ties(leq, x, s[1..])
  }

  lemma TiesCons<T>(leq: (T, T) -> bool, x: T, head: T, rest: seq<T>)
    ensures Ties(leq, x, [head] + rest) == (if leq(x, head) && leq(head, x) then [head] else []) + Ties(leq, x, rest)
  {
    assert ([head] + rest)[1..] == rest;
  }

  lemma {:induction false} InsertIsStable<T(!new)>(leq: (T, T) -> bool, x: T, s: seq<T>, y: T)
    requires TotalPreorder(leq)
    ensures Ties(leq, y, Insert(leq, x, s)) == Ties(leq, y, [x] + s)
  {
    TiesCons(leq, y, x, s);
    if s != [] && !leq(x, s[0]) {
      var head := s[0];
      InsertIsStable(leq, x, s[1..], y);
      TiesCons(leq, y, x, s[1..]);
      TiesCons(leq, y, head, Insert(leq, x, s[1..]));
      assert !(leq(x, y) && leq(y, head));
    }
  }

  /** Sorting leaves elements that tie in the order they had. */
  lemma {:induction false} SortIsStable<T(!new)>(leq: (T, T) -> bool, s: seq<T>, y: T)
    requires TotalPreorder(leq)
    ensures Ties(leq, y, Sort(leq, s)) == Ties(leq, y, s)
  {
    if s != [] {
      SortIsStable(leq, s[1..], y);
      InsertIsStable(leq, s[0], Sort(leq, s[1..]), y);
      TiesCons(leq, y, s[0], Sort(leq, s[1..]));
    }
  }

  lemma SortedHeadsAgree<T(!new)>(leq: (T, T) -> bool, s: seq<T>, t: seq<T>)
    requires SortedBy(leq, s) && SortedBy(leq, t) && s != [] && t != []
    requires s[0] in t && t[0] in s
    requires leq(s[0], t[0]) && leq(t[0], s[0]) ==> s[0] == t[0]
    ensures s[0] == t[0]
  {
    var i :| 0 <= i < |t| && t[i] == s[0];
    var j :| 0 <= j < |s| && s[j] == t[0];
  }

  lemma TailsMatch<T>(s: seq<T>, t: seq<T>)
    requires s != [] && t != [] && s[0] == t[0] && multiset(s) == multiset(t)
    ensures multiset(s[1..]) == multiset(t[1..]) && forall x :: x in s[1..] ==> x in s
  {
    assert s == [s[0]] + s[1..] && t == [t[0]] + t[1..];
    assert multiset(s[1..]) == multiset(s) - multiset{s[0]};
    assert multiset(t[1..]) == multiset(t) - multiset{t[0]};
  }

  /** Two sorted arrangements of the same elements are one, when no two of them tie. */
  lemma {:induction false} SortedIsUnique<T(!new)>(leq: (T, T) -> bool, s: seq<T>, t: seq<T>)
    requires SortedBy(leq, s) && SortedBy(leq, t) && multiset(s) == multiset(t)
    requires forall x, y :: x in s && y in s && leq(x, y) && leq(y, x) ==> x == y
    ensures s == t
  {
    assert |s| == |multiset(s)| == |t|;
    if s != [] {
      SameElements(s, t);
      SortedHeadsAgree(leq, s, t);
      TailsMatch(s, t);
      SortedIsUnique(leq, s[1..], t[1..]);
      assert s == [s[0]] + s[1..] && t == [t[0]] + t[1..];
    }
  }

  function Reversed<T>(s: seq<T>): (r: seq<T>)
    ensures |r| == |s| && forall i :: 0 <= i < |s| ==> r[i] == s[|s| - 1 - i]
  {
    seq(|s|, i requires 0 <= i < |s| => s[|s| - 1 - i])
  }

  // ----- Texts compare by code points -----

  predicate TextLeq(a: Text, b: Text) {
    a == [] || (b != [] && (a[0] < b[0] || (a[0] == b[0] && TextLeq(a[1..], b[1..]))))
  }

  lemma {:induction false} TextLeqTotal(a: Text, b: Text)
    ensures TextLeq(a, b) || TextLeq(b, a)
    ensures TextLeq(a, b) && TextLeq(b, a) ==> a == b
  {
    if a != [] && b != [] && a[0] == b[0] {
      TextLeqTotal(a[1..], b[1..]);
      assert a == [a[0]] + a[1..] && b == [b[0]] + b[1..];
    }
  }

  lemma {:induction false} TextLeqTransitive(a: Text, b: Text, c: Text)
    requires TextLeq(a, b) && TextLeq(b, c)
    ensures TextLeq(a, c)
  {
    if a != [] && a[0] == b[0] == c[0] {
      TextLeqTransitive(a[1..], b[1..], c[1..]);
    }
  }

  /** The texts first differ at n, and `a` is the smaller there. */
  predicate SmallerAt(a: Text, b: Text, n: nat) {
    n < |a| && n < |b| && (forall i :: 0 <= i < n ==> a[i] == b[i]) && a[n] < b[n]
  }

  /** `b` continues `a`, or is larger where they first differ. */
  ghost predicate NotAfter(a: Text, b: Text) {
    a <= b || exists n: nat :: SmallerAt(a, b, n)
  }

  lemma SameHead(a: Text, b: Text)
    requires a != [] && b != [] && a[0] == b[0]
    ensures NotAfter(a, b) <==> NotAfter(a[1..], b[1..])
  {
    var c, d := a[1..], b[1..];
    if n: nat :| SmallerAt(c, d, n) {
      assert a[n + 1] == c[n] && b[n + 1] == d[n];
      assert SmallerAt(a, b, n + 1);
    }
    if n: nat :| SmallerAt(a, b, n) {
      assert SmallerAt(c, d, n - 1);
    }
    if c <= d {
      assert a == [a[0]] + c && b == [a[0]] + d;
    }
  }

  lemma {:induction false} TextLeqIsLexicographic(a: Text, b: Text)
    ensures TextLeq(a, b) <==> NotAfter(a, b)
  {
    if a != [] && b != [] {
      if a[0] == b[0] {
        TextLeqIsLexicographic(a[1..], b[1..]);
        SameHead(a, b);
      } else if a[0] < b[0] {
        assert SmallerAt(a, b, 0);
      }
    }
  }
}
