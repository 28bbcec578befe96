/** Exact memory search: eligible chunks in score order, at most `cap` per source message, the first k. */
module MemorySearch {
  import opened Wrappers
  import opened Texts
  import opened Sorting

  /** An index entry with the similarity of its vector to the query. */
  datatype Entry = Entry(
    artifactId: Text, tenant: Text, conversation: Text, indexVersion: Text, source: Text,
    sequence: int, ordinal: int, similarity: real)

  datatype Scope = Scope(
    tenant: Text, conversation: Text, indexVersion: Text, excluded: set<Text>, threshold: Option<real>)

  datatype SearchError = NegativeTopK | NonPositiveCap

  predicate Eligible(e: Entry, s: Scope) {
    e.tenant == s.tenant && e.conversation == s.conversation && e.indexVersion == s.indexVersion
    && e.source !in s.excluded && (s.threshold.Some? ==> e.similarity >= s.threshold.value)
  }

  /** Higher similarity first, then sequence, ordinal and artifact identifier. */
  predicate Before(a: Entry, b: Entry) {
    if a.similarity != b.similarity then a.similarity > b.similarity
    else if a.sequence != b.sequence then a.sequence < b.sequence
    else if a.ordinal != b.ordinal then a.ordinal < b.ordinal
    else TextLeq(a.artifactId, b.artifactId)
  }

  function Candidates(entries: seq<Entry>, s: Scope): seq<Entry> {
    if entries == [] then []
    else
      var front, last := Candidates(entries[..|entries| - 1], s), entries[|entries| - 1];
      if Eligible(last, s) then front + [last] else front
  }

  function Ranked(entries: seq<Entry>, s: Scope): seq<Entry> {
    Sort(Before, Candidates(entries, s))
  }

  function FromSource(entries: seq<Entry>, source: Text): nat {
    if entries == [] then 0
    else FromSource(entries[..|entries| - 1], source) + if entries[|entries| - 1].source == source then 1 else 0
  }

  predicate HasArtifact(entries: seq<Entry>, id: Text) {
    exists i :: 0 <= i < |entries| && entries[i].artifactId == id
  }

  /** What is kept once entry `e` has been looked at. */
  function Offer(kept: seq<Entry>, e: Entry, cap: nat): seq<Entry> {
    if HasArtifact(kept, e.artifactId) || FromSource(kept, e.source) >= cap then kept else kept + [e]
  }

  /** What the selection loop keeps of the ranked entries when it is not stopped. */
  function Kept(ranked: seq<Entry>, cap: nat): seq<Entry> {
    if ranked == [] then [] else Offer(Kept(ranked[..|ranked| - 1], cap), ranked[|ranked| - 1], cap)
  }

  function Take<T>(s: seq<T>, n: nat): seq<T> {
    if n >= |s| then s else s[..n]
  }

  function Chosen(entries: seq<Entry>, s: Scope, k: nat, cap: nat): seq<Entry> {
    Take(Kept(Ranked(entries, s), cap), if k == 0 then 1 else k)
  }

  /** The loop checks its limit only after it has selected, so a limit of zero still yields one. */
  method Search(entries: seq<Entry>, s: Scope, k: int, cap: int) returns (r: Result<seq<Entry>, SearchError>)
    ensures k < 0 ==> r == Failure(NegativeTopK)
    ensures k >= 0 && cap <= 0 ==> r == Failure(NonPositiveCap)
    ensures k >= 0 && cap > 0 ==> r == Success(Chosen(entries, s, k, cap))
    ensures r.Success? ==> IsAnswer(entries, s, r.value, if k == 0 then 1 else k, cap)
  {
    if k < 0 {
      return Failure(NegativeTopK);
    }
    if cap <= 0 {
      return Failure(NonPositiveCap);
    }
    var selected := Select(Ranked(entries, s), k, cap);
    ChosenIsAnswer(entries, s, k, cap);
    r := Success(selected);
  }

  function Used(perSource: map<Text, nat>, id: Text): nat {
    if id in perSource then perSource[id] else 0
  }

  /** The loop's set and counters describe what it has selected. */
  ghost predicate Tallies(seen: set<Text>, perSource: map<Text, nat>, selected: seq<Entry>) {
    && (forall id :: id in seen <==> HasArtifact(selected, id))
    && (forall id :: Used(perSource, id) == FromSource(selected, id))
  }

  lemma TalliesDecide(seen: set<Text>, perSource: map<Text, nat>, selected: seq<Entry>, e: Entry, cap: nat)
    requires Tallies(seen, perSource, selected)
    ensures e.artifactId in seen || Used(perSource, e.source) >= cap ==> Offer(selected, e, cap) == selected
    ensures e.artifactId !in seen && Used(perSource, e.source) < cap ==> Offer(selected, e, cap) == selected + [e]
  {
    assert Used(perSource, e.source) == FromSource(selected, e.source);
    assert e.artifactId in seen <==> HasArtifact(selected, e.artifactId);
  }

  lemma SourceAppend(entries: seq<Entry>, e: Entry, id: Text)
    ensures FromSource(entries + [e], id) == FromSource(entries, id) + if e.source == id then 1 else 0
  {
    assert (entries + [e])[..|entries|] == entries;
  }

  lemma TalliesStep(seen: set<Text>, perSource: map<Text, nat>, selected: seq<Entry>, e: Entry)
    requires Tallies(seen, perSource, selected)
    ensures Tallies(seen + {e.artifactId}, perSource[e.source := Used(perSource, e.source) + 1], selected + [e])
  {
    var more, now := perSource[e.source := Used(perSource, e.source) + 1], selected + [e];
    forall id
      ensures Used(more, id) == FromSource(now, id)
    {
      SourceAppend(selected, e, id);
      assert Used(perSource, id) == FromSource(selected, id);
    }
    forall id
      ensures id in seen + {e.artifactId} <==> HasArtifact(now, id)
    {
      assert id in seen <==> HasArtifact(selected, id);
      assert now[|selected|] == e;
      if HasArtifact(selected, id) {
        var i :| 0 <= i < |selected| && selected[i].artifactId == id;
        assert now[i].artifactId == id;
      }
    }
  }

  /** The selection loop. */
  method Select(ranked: seq<Entry>, k: nat, cap: nat) returns (selected: seq<Entry>)
    ensures selected == Take(Kept(ranked, cap), if k == 0 then 1 else k)
  {
    selected := [];
    var seen: set<Text>, perSource: map<Text, nat> := {}, map[];
    for i := 0 to |ranked|
      invariant selected == Kept(ranked[..i], cap)
      invariant selected == [] || |selected| < k
      invariant Tallies(seen, perSource, selected)
    {
      var e := ranked[i];
      KeptStep(ranked, i, cap);
      TalliesDecide(seen, perSource, selected, e, cap);
      if e.artifactId in seen || Used(perSource, e.source) >= cap {
        continue;
      }
      TalliesStep(seen, perSource, selected, e);
      selected := selected + [e];
      seen := seen + {e.artifactId};
      perSource := perSource[e.source := Used(perSource, e.source) + 1];
      if |selected| >= k {
        KeptIsPrefix(ranked, i + 1, cap);
        return;
      }
    }
    assert ranked[..|ranked|] == ranked;
  }

  lemma KeptStep(ranked: seq<Entry>, i: nat, cap: nat)
    requires i < |ranked|
    ensures Kept(ranked[..i + 1], cap) == Offer(Kept(ranked[..i], cap), ranked[i], cap)
  {
    assert ranked[..i + 1][..i] == ranked[..i];
  }

  lemma {:induction false} KeptIsPrefix(ranked: seq<Entry>, n: nat, cap: nat)
    requires n <= |ranked|
    ensures Kept(ranked[..n], cap) <= Kept(ranked, cap)
    decreases |ranked| - n
  {
    if n < |ranked| {
      assert ranked[..n + 1][..n] == ranked[..n];
      KeptIsPrefix(ranked, n + 1, cap);
    } else {
      assert ranked[..n] == ranked;
    }
  }

  // ----- The order of the ranked entries -----

  ghost predicate DistinctArtifacts(entries: seq<Entry>) {
    forall i, j :: 0 <= i < j < |entries| ==> entries[i].artifactId != entries[j].artifactId
  }

  lemma BeforeIsTotal()
    ensures TotalPreorder(Before)
    ensures forall a, b :: Before(a, b) && Before(b, a) ==> a.artifactId == b.artifactId
  {
    forall a: Entry, b: Entry
      ensures Before(a, b) || Before(b, a)
      ensures Before(a, b) && Before(b, a) ==> a.artifactId == b.artifactId
    {
      TextLeqTotal(a.artifactId, b.artifactId);
    }
    forall a: Entry, b: Entry, c: Entry | Before(a, b) && Before(b, c)
      ensures Before(a, c)
    {
      if TextLeq(a.artifactId, b.artifactId) && TextLeq(b.artifactId, c.artifactId) {
        TextLeqTransitive(a.artifactId, b.artifactId, c.artifactId);
      }
    }
  }

  lemma {:induction false} CandidatesAreEligible(entries: seq<Entry>, s: Scope)
    ensures forall e :: e in Candidates(entries, s) <==> e in entries && Eligible(e, s)
    ensures DistinctArtifacts(entries) ==> DistinctArtifacts(Candidates(entries, s))
  {
    if entries != [] {
      var front, last := entries[..|entries| - 1], entries[|entries| - 1];
      CandidatesAreEligible(front, s);
      assert entries == front + [last];
      assert forall e :: e in entries <==> e in front || e == last;
      if DistinctArtifacts(entries) && Eligible(last, s) {
        LastIsDistinct(front, last, Candidates(front, s));
      }
    }
  }

  lemma LastIsDistinct(front: seq<Entry>, last: Entry, c: seq<Entry>)
    requires DistinctArtifacts(front + [last]) && DistinctArtifacts(c)
    requires forall i :: 0 <= i < |c| ==> c[i] in front
    ensures DistinctArtifacts(c + [last])
  {
    var all := front + [last];
    forall i | 0 <= i < |c|
      ensures c[i].artifactId != last.artifactId
    {
      var j :| 0 <= j < |front| && front[j] == c[i];
      assert all[j] == front[j] && all[|front|] == last;
    }
  }

  lemma DistinctAreEqual(entries: seq<Entry>, a: Entry, b: Entry)
    requires DistinctArtifacts(entries) && a in entries && b in entries && a.artifactId == b.artifactId
    ensures a == b
  {
    var i :| 0 <= i < |entries| && entries[i] == a;
    var j :| 0 <= j < |entries| && entries[j] == b;
  }

  lemma {:induction false} CandidatesMultiset(entries: seq<Entry>, s: Scope, e: Entry)
    ensures multiset(Candidates(entries, s))[e] == if Eligible(e, s) then multiset(entries)[e] else 0
  {
    if entries != [] {
      CandidatesMultiset(entries[..|entries| - 1], s, e);
      assert entries == entries[..|entries| - 1] + [entries[|entries| - 1]];
    }
  }

  /** The answer does not depend on the order of the entries. */
  lemma OrderDoesNotMatter(entries: seq<Entry>, other: seq<Entry>, s: Scope)
    requires multiset(entries) == multiset(other) && DistinctArtifacts(entries)
    ensures Ranked(entries, s) == Ranked(other, s)
  {
    var c, d := Candidates(entries, s), Candidates(other, s);
    forall e
      ensures multiset(c)[e] == multiset(d)[e]
    {
      CandidatesMultiset(entries, s, e);
      CandidatesMultiset(other, s, e);
    }
    assert multiset(c) == multiset(d);
    BeforeIsTotal();
    SortSorts(Before, c);
    SortSorts(Before, d);
    SortKeepsElements(Before, c);
    SortKeepsElements(Before, d);
    CandidatesAreEligible(entries, s);
    SameElements(Sort(Before, c), c);
    forall x, y | x in Sort(Before, c) && y in Sort(Before, c) && Before(x, y) && Before(y, x)
      ensures x == y
    {
      DistinctAreEqual(c, x, y);
    }
    SortedIsUnique(Before, Sort(Before, c), Sort(Before, d));
  }

  // ----- What is kept, for distinct artifacts -----

  /** Only source messages that already have `cap` better entries lose one. */
  function BestPerSource(ranked: seq<Entry>, cap: nat): seq<Entry> {
    if ranked == [] then []
    else
      var front, last := ranked[..|ranked| - 1], ranked[|ranked| - 1];
      BestPerSource(front, cap) + if FromSource(front, last.source) < cap then [last] else []
  }

  lemma {:induction false} BestCounts(ranked: seq<Entry>, cap: nat, source: Text)
    ensures FromSource(BestPerSource(ranked, cap), source)
            == if FromSource(ranked, source) < cap then FromSource(ranked, source) else cap
  {
    if ranked != [] {
      var front, last := ranked[..|ranked| - 1], ranked[|ranked| - 1];
      var best := BestPerSource(front, cap);
      BestCounts(front, cap, source);
      assert FromSource(ranked, source) == FromSource(front, source) + if last.source == source then 1 else 0;
      if FromSource(front, last.source) < cap {
        SourceAppend(best, last, source);
        assert BestPerSource(ranked, cap) == best + [last];
      } else {
        assert BestPerSource(ranked, cap) == best;
      }
    }
  }

  lemma {:induction false} BestAreRanked(ranked: seq<Entry>, cap: nat)
    ensures forall e :: e in BestPerSource(ranked, cap) ==> e in ranked
  {
    if ranked != [] {
      BestAreRanked(ranked[..|ranked| - 1], cap);
      assert ranked == ranked[..|ranked| - 1] + [ranked[|ranked| - 1]];
    }
  }

  /** The loop keeps exactly the best `cap` of each source message, in score order. */
  lemma {:induction false} KeptAreBest(ranked: seq<Entry>, cap: nat)
    requires DistinctArtifacts(ranked)
    ensures Kept(ranked, cap) == BestPerSource(ranked, cap)
  {
    if ranked != [] {
      var front, last := ranked[..|ranked| - 1], ranked[|ranked| - 1];
      KeptAreBest(front, cap);
      BestCounts(front, cap, last.source);
      BestAreRanked(front, cap);
      var best := BestPerSource(front, cap);
      forall i | 0 <= i < |best|
        ensures best[i].artifactId != last.artifactId
      {
        assert best[i] in best;
        var j :| 0 <= j < |front| && front[j] == best[i];
        assert ranked[j] == front[j];
      }
    }
  }

  // ----- What the answer holds and why the rest is not in it -----

  lemma {:induction false} SourcesAdd(a: seq<Entry>, b: seq<Entry>, source: Text)
    ensures FromSource(a + b, source) == FromSource(a, source) + FromSource(b, source)
  {
    if b == [] {
      assert a + b == a;
    } else {
      var front, last := b[..|b| - 1], b[|b| - 1];
      assert a + b == (a + front) + [last];
      SourceAppend(a + front, last, source);
      SourcesAdd(a, front, source);
    }
  }

  lemma {:induction false} NoneFromSource(entries: seq<Entry>, source: Text)
    requires FromSource(entries, source) == 0
    ensures forall e :: e in entries ==> e.source != source
  {
    if entries != [] {
      NoneFromSource(entries[..|entries| - 1], source);
      assert entries == entries[..|entries| - 1] + [entries[|entries| - 1]];
    }
  }

  lemma {:induction false} KeptAreCapped(ranked: seq<Entry>, cap: nat, source: Text)
    ensures FromSource(Kept(ranked, cap), source) <= cap
  {
    if ranked != [] {
      var kept, last := Kept(ranked[..|ranked| - 1], cap), ranked[|ranked| - 1];
      KeptAreCapped(ranked[..|ranked| - 1], cap, source);
      SourceAppend(kept, last, source);
    }
  }

  lemma {:induction false} KeptAreRanked(ranked: seq<Entry>, cap: nat)
    ensures forall e :: e in Kept(ranked, cap) ==> e in ranked
  {
    if ranked != [] {
      KeptAreRanked(ranked[..|ranked| - 1], cap);
      assert ranked == ranked[..|ranked| - 1] + [ranked[|ranked| - 1]];
    }
  }

  lemma {:induction false} KeptAreDistinct(ranked: seq<Entry>, cap: nat)
    ensures DistinctArtifacts(Kept(ranked, cap))
  {
    if ranked != [] {
      KeptAreDistinct(ranked[..|ranked| - 1], cap);
    }
  }

  lemma {:induction false} KeptAreSorted(ranked: seq<Entry>, cap: nat)
    requires SortedBy(Before, ranked)
    ensures SortedBy(Before, Kept(ranked, cap))
  {
    if ranked != [] {
      var front := ranked[..|ranked| - 1];
      KeptAreSorted(front, cap);
      KeptAreRanked(front, cap);
      var kept := Kept(front, cap);
      forall i | 0 <= i < |kept|
        ensures Before(kept[i], ranked[|ranked| - 1])
      {
        assert kept[i] in front;
        var j :| 0 <= j < |front| && front[j] == kept[i];
        assert Before(ranked[j], ranked[|ranked| - 1]);
      }
    }
  }

  lemma RankedIsSorted(entries: seq<Entry>, s: Scope)
    ensures SortedBy(Before, Ranked(entries, s))
    ensures forall e :: e in Ranked(entries, s) <==> e in entries && Eligible(e, s)
  {
    var c := Candidates(entries, s);
    BeforeIsTotal();
    SortSorts(Before, c);
    SortKeepsElements(Before, c);
    SameElements(Sort(Before, c), c);
    CandidatesAreEligible(entries, s);
  }

  /** Every result is in scope and above the threshold, none repeats, no source exceeds its cap, and they
      come in order. */
  lemma AnswersAreSound(entries: seq<Entry>, s: Scope, k: nat, cap: nat)
    ensures var chosen := Chosen(entries, s, k, cap);
            && (forall e :: e in chosen ==> e in entries && Eligible(e, s))
            && DistinctArtifacts(chosen) && SortedBy(Before, chosen)
            && (forall id :: FromSource(chosen, id) <= cap)
            && |chosen| <= (if k == 0 then 1 else k)
  {
    var ranked, chosen := Ranked(entries, s), Chosen(entries, s, k, cap);
    var kept := Kept(ranked, cap);
    RankedIsSorted(entries, s);
    KeptAreRanked(ranked, cap);
    KeptAreDistinct(ranked, cap);
    KeptAreSorted(ranked, cap);
    assert kept == chosen + kept[|chosen|..];
    forall id
      ensures FromSource(chosen, id) <= cap
    {
      KeptAreCapped(ranked, cap, id);
      SourcesAdd(chosen, kept[|chosen|..], id);
    }
  }

  /** `chosen` is full of entries that come before `e`. */
  ghost predicate FullOfBetter(chosen: seq<Entry>, e: Entry, limit: nat) {
    |chosen| == limit && forall r :: r in chosen ==> Before(r, e)
  }

  /** `chosen` has all the entries it may have from the source of `e`, and they come before `e`. */
  ghost predicate SourceIsSpent(chosen: seq<Entry>, e: Entry, cap: nat) {
    FromSource(chosen, e.source) == cap && forall r :: r in chosen && r.source == e.source ==> Before(r, e)
  }

  predicate HasBetterCopy(chosen: seq<Entry>, e: Entry) {
    exists j :: 0 <= j < |chosen| && chosen[j].artifactId == e.artifactId && Before(chosen[j], e)
  }

  /** An eligible entry is left out for one of three reasons only; the first cannot arise with distinct artifacts. */
  lemma OmissionsAreExplained(entries: seq<Entry>, s: Scope, k: nat, cap: nat, e: Entry)
    requires e in entries && Eligible(e, s) && e !in Chosen(entries, s, k, cap)
    ensures var chosen := Chosen(entries, s, k, cap);
            || (HasArtifact(chosen, e.artifactId) && !DistinctArtifacts(entries))
            || FullOfBetter(chosen, e, if k == 0 then 1 else k)
            || SourceIsSpent(chosen, e, cap)
  {
    RankedIsSorted(entries, s);
    var ranked := Ranked(entries, s);
    var i :| 0 <= i < |ranked| && ranked[i] == e;
    AnswersAreSound(entries, s, k, cap);
    OmissionAt(ranked, i, cap, if k == 0 then 1 else k);
    var chosen := Chosen(entries, s, k, cap);
    if HasArtifact(chosen, e.artifactId) && DistinctArtifacts(entries) {
      var j :| 0 <= j < |chosen| && chosen[j].artifactId == e.artifactId;
      assert chosen[j] in chosen;
      DistinctAreEqual(entries, chosen[j], e);
    }
  }

  lemma EarlierAreBetter(ranked: seq<Entry>, i: nat, cap: nat)
    requires SortedBy(Before, ranked) && i < |ranked|
    ensures forall r :: r in Kept(ranked[..i], cap) ==> Before(r, ranked[i])
  {
    KeptAreRanked(ranked[..i], cap);
    forall r | r in ranked[..i]
      ensures Before(r, ranked[i])
    {
      var j :| 0 <= j < i && ranked[..i][j] == r;
      assert ranked[j] == r;
    }
  }

  lemma OmissionAt(ranked: seq<Entry>, i: nat, cap: nat, limit: nat)
    requires SortedBy(Before, ranked) && i < |ranked| && ranked[i] !in Take(Kept(ranked, cap), limit)
    ensures var chosen := Take(Kept(ranked, cap), limit);
            || HasBetterCopy(chosen, ranked[i])
            || FullOfBetter(chosen, ranked[i], limit)
            || SourceIsSpent(chosen, ranked[i], cap)
  {
    KeptIsPrefix(ranked, i, cap);
    KeptIsPrefix(ranked, i + 1, cap);
    KeptStep(ranked, i, cap);
    EarlierAreBetter(ranked, i, cap);
    KeptAreCapped(ranked, cap, ranked[i].source);
    var kept, soFar := Kept(ranked, cap), Kept(ranked[..i], cap);
    if |soFar| >= limit {
      FullBefore(kept, soFar, ranked[i], limit);
    } else {
      OfferedEntry(kept, soFar, ranked[i], cap, limit);
    }
  }

  lemma FullBefore(kept: seq<Entry>, soFar: seq<Entry>, e: Entry, limit: nat)
    requires soFar <= kept && limit <= |soFar| && forall r :: r in soFar ==> Before(r, e)
    ensures FullOfBetter(Take(kept, limit), e, limit)
  {
    assert Take(kept, limit) == soFar[..limit];
  }

  lemma CopyIsKept(soFar: seq<Entry>, chosen: seq<Entry>, e: Entry)
    requires soFar <= chosen && HasArtifact(soFar, e.artifactId) && forall r :: r in soFar ==> Before(r, e)
    ensures HasBetterCopy(chosen, e)
  {
    var j :| 0 <= j < |soFar| && soFar[j].artifactId == e.artifactId;
    assert soFar[j] in soFar && chosen[j] == soFar[j];
  }

  lemma OfferedEntry(kept: seq<Entry>, soFar: seq<Entry>, e: Entry, cap: nat, limit: nat)
    requires soFar <= kept && Offer(soFar, e, cap) <= kept && |soFar| < limit
    requires FromSource(kept, e.source) <= cap && forall r :: r in soFar ==> Before(r, e)
    ensures var chosen := Take(kept, limit);
            e in chosen || HasBetterCopy(chosen, e) || SourceIsSpent(chosen, e, cap)
  {
    var chosen := Take(kept, limit);
    assert soFar <= chosen;
    if HasArtifact(soFar, e.artifactId) {
      CopyIsKept(soFar, chosen, e);
    } else if FromSource(soFar, e.source) >= cap {
      assert soFar + chosen[|soFar|..] == chosen && chosen + kept[|chosen|..] == kept;
      SpentStaysSpent(soFar, chosen[|soFar|..], kept[|chosen|..], e, cap);
    } else {
      assert (soFar + [e])[|soFar|] == kept[|soFar|] == chosen[|soFar|];
    }
  }

  lemma SpentStaysSpent(soFar: seq<Entry>, more: seq<Entry>, cut: seq<Entry>, e: Entry, cap: nat)
    requires FromSource(soFar, e.source) >= cap && FromSource(soFar + more + cut, e.source) <= cap
    requires forall r :: r in soFar ==> Before(r, e)
    ensures SourceIsSpent(soFar + more, e, cap)
  {
    SourcesAdd(soFar, more, e.source);
    SourcesAdd(soFar + more, cut, e.source);
    NoneFromSource(more, e.source);
  }

  lemma SomethingIsKept(ranked: seq<Entry>, cap: nat)
    requires ranked != [] && cap > 0
    ensures Kept(ranked, cap) != []
  {
    KeptStep(ranked, 0, cap);
    KeptIsPrefix(ranked, 1, cap);
  }

  /** The limit is kept exactly when it is positive or nothing is eligible. */
  lemma LimitIsKept(entries: seq<Entry>, s: Scope, k: nat, cap: nat)
    requires cap > 0
    ensures |Chosen(entries, s, k, cap)| <= k <==> k >= 1 || Candidates(entries, s) == []
  {
    SortKeepsElements(Before, Candidates(entries, s));
    if Candidates(entries, s) != [] {
      SomethingIsKept(Ranked(entries, s), cap);
    }
  }

  // ----- The answer in terms of the fields -----

  /** In the scope of the query, from no excluded message, and not below the threshold. */
  ghost predicate InScope(e: Entry, s: Scope) {
    && e.tenant == s.tenant && e.conversation == s.conversation && e.indexVersion == s.indexVersion
    && !(e.source in s.excluded)
    && forall t :: s.threshold == Some(t) ==> !(e.similarity < t)
  }

  /** At least as similar; among equals not later in the conversation, then in the message, then by artifact. */
  ghost predicate AtLeastAsGood(a: Entry, b: Entry) {
    && a.similarity >= b.similarity
    && (a.similarity == b.similarity ==>
          && a.sequence <= b.sequence
          && (a.sequence == b.sequence ==>
                && a.ordinal <= b.ordinal
                && (a.ordinal == b.ordinal ==> NotAfter(a.artifactId, b.artifactId))))
  }

  function Places(entries: seq<Entry>, source: Text): set<nat> {
    set i: nat | i < |entries| && entries[i].source == source
  }

  ghost predicate IsSelection(entries: seq<Entry>, s: Scope, chosen: seq<Entry>, limit: nat, cap: nat) {
    && |chosen| <= limit
    && (forall i :: 0 <= i < |chosen| ==> chosen[i] in entries && InScope(chosen[i], s))
    && (forall i, j :: 0 <= i < j < |chosen| ==> AtLeastAsGood(chosen[i], chosen[j]))
    && (forall i, j :: 0 <= i < j < |chosen| ==> chosen[i].artifactId != chosen[j].artifactId)
    && (forall id :: |Places(chosen, id)| <= cap)
  }

  /** All `limit` results are at least as good. */
  ghost predicate Crowded(chosen: seq<Entry>, e: Entry, limit: nat) {
    |chosen| == limit && forall i :: 0 <= i < |chosen| ==> AtLeastAsGood(chosen[i], e)
  }

  /** `cap` results are from the same message and at least as good. */
  ghost predicate Exhausted(chosen: seq<Entry>, e: Entry, cap: nat) {
    |Places(chosen, e.source)| == cap && forall i :: i in Places(chosen, e.source) ==> AtLeastAsGood(chosen[i], e)
  }

  /** The same artifact is among the results already, at least as good. */
  ghost predicate Repeated(chosen: seq<Entry>, e: Entry) {
    exists i :: 0 <= i < |chosen| && chosen[i].artifactId == e.artifactId && AtLeastAsGood(chosen[i], e)
  }

  /** A selection that leaves out only what it has to. */
  ghost predicate IsAnswer(entries: seq<Entry>, s: Scope, chosen: seq<Entry>, limit: nat, cap: nat) {
    && IsSelection(entries, s, chosen, limit, cap)
    && forall e :: e in entries && InScope(e, s) && e !in chosen ==>
         Crowded(chosen, e, limit) || Exhausted(chosen, e, cap) || Repeated(chosen, e)
  }

  lemma EligibleMeans(e: Entry, s: Scope)
    ensures Eligible(e, s) <==> InScope(e, s)
  {
  }

  lemma BeforeMeans(a: Entry, b: Entry)
    ensures Before(a, b) <==> AtLeastAsGood(a, b)
  {
    TextLeqIsLexicographic(a.artifactId, b.artifactId);
  }

  lemma {:induction false} PlacesAreCounted(entries: seq<Entry>, source: Text)
    ensures |Places(entries, source)| == FromSource(entries, source)
  {
    if entries == [] {
      assert Places(entries, source) == {};
    } else {
      var n := |entries| - 1;
      PlacesAreCounted(entries[..n], source);
      assert Places(entries, source)
          == Places(entries[..n], source) + if entries[n].source == source then {n} else {};
    }
  }

  lemma ChosenIsSelection(entries: seq<Entry>, s: Scope, k: nat, cap: nat)
    ensures IsSelection(entries, s, Chosen(entries, s, k, cap), if k == 0 then 1 else k, cap)
  {
    var chosen := Chosen(entries, s, k, cap);
    AnswersAreSound(entries, s, k, cap);
    forall i | 0 <= i < |chosen|
      ensures chosen[i] in entries && InScope(chosen[i], s)
    {
      assert chosen[i] in chosen;
      EligibleMeans(chosen[i], s);
    }
    forall i, j | 0 <= i < j < |chosen|
      ensures AtLeastAsGood(chosen[i], chosen[j])
    {
      BeforeMeans(chosen[i], chosen[j]);
    }
    forall id
      ensures |Places(chosen, id)| <= cap
    {
      PlacesAreCounted(chosen, id);
    }
  }

  lemma BetterAreGood(chosen: seq<Entry>, e: Entry, limit: nat, cap: nat)
    ensures FullOfBetter(chosen, e, limit) ==> Crowded(chosen, e, limit)
    ensures SourceIsSpent(chosen, e, cap) ==> Exhausted(chosen, e, cap)
  {
    PlacesAreCounted(chosen, e.source);
    forall i | 0 <= i < |chosen|
      ensures Before(chosen[i], e) <==> AtLeastAsGood(chosen[i], e)
      ensures chosen[i] in chosen
    {
      BeforeMeans(chosen[i], e);
    }
  }

  lemma ChosenIsAnswer(entries: seq<Entry>, s: Scope, k: nat, cap: nat)
    ensures IsAnswer(entries, s, Chosen(entries, s, k, cap), if k == 0 then 1 else k, cap)
  {
    var chosen, limit := Chosen(entries, s, k, cap), if k == 0 then 1 else k;
    ChosenIsSelection(entries, s, k, cap);
    forall e | e in entries && InScope(e, s) && e !in chosen
      ensures Crowded(chosen, e, limit) || Exhausted(chosen, e, cap) || Repeated(chosen, e)
    {
      EligibleMeans(e, s);
      RankedIsSorted(entries, s);
      var ranked := Ranked(entries, s);
      var i :| 0 <= i < |ranked| && ranked[i] == e;
      OmissionAt(ranked, i, cap, limit);
      BetterAreGood(chosen, e, limit, cap);
      if j :| 0 <= j < |chosen| && chosen[j].artifactId == e.artifactId && Before(chosen[j], e) {
        BeforeMeans(chosen[j], e);
      }
    }
  }

  // ----- The description leaves one answer -----

  lemma GoodIsOrder(a: Entry, b: Entry, c: Entry)
    ensures AtLeastAsGood(a, b) || AtLeastAsGood(b, a)
    ensures AtLeastAsGood(a, b) && AtLeastAsGood(b, a) ==> a.artifactId == b.artifactId
    ensures AtLeastAsGood(a, b) && AtLeastAsGood(b, c) ==> AtLeastAsGood(a, c)
  {
    BeforeIsTotal();
    BeforeMeans(a, b);
    BeforeMeans(b, a);
    BeforeMeans(b, c);
    BeforeMeans(a, c);
  }

  /** After a common beginning, an answer cannot miss an entry that comes before its own next one. */
  lemma NothingBetterIsMissed(
      entries: seq<Entry>, s: Scope, a: seq<Entry>, b: seq<Entry>, i: nat, limit: nat, cap: nat)
    requires DistinctArtifacts(entries)
    requires IsSelection(entries, s, a, limit, cap) && IsAnswer(entries, s, b, limit, cap)
    requires i < |a| && i <= |b| && a[..i] == b[..i]
    ensures i < |b| && AtLeastAsGood(b[i], a[i])
  {
    var e := a[i];
    if i == |b| || !AtLeastAsGood(b[i], e) {
      forall j | 0 <= j < |b|
        ensures b[j] != e && b[j].artifactId != e.artifactId && (j >= i ==> !AtLeastAsGood(b[j], e))
      {
        if j < i {
          assert b[j] == b[..i][j] == a[..i][j] == a[j];
        } else {
          GoodIsOrder(b[i], b[j], e);
          assert j > i ==> AtLeastAsGood(b[i], b[j]);
          if b[j].artifactId == e.artifactId {
            DistinctAreEqual(entries, b[j], e);
            GoodIsOrder(e, e, e);
          }
        }
      }
      assert e in entries && InScope(e, s) && e !in b;
      if Exhausted(b, e, cap) {
        ExhaustedEarlier(a, b, i, cap);
      }
      assert false;
    }
  }

  lemma ExhaustedEarlier(a: seq<Entry>, b: seq<Entry>, i: nat, cap: nat)
    requires i < |a| && i <= |b| && a[..i] == b[..i]
    requires |Places(b, a[i].source)| == cap
    requires forall j :: j in Places(b, a[i].source) ==> j < i
    ensures |Places(a, a[i].source)| > cap
  {
    var id := a[i].source;
    forall j | j in Places(b, id)
      ensures j in Places(a, id)
    {
      assert a[..i][j] == b[..i][j];
    }
    assert Places(b, id) + {i} <= Places(a, id);
    SubsetSize(Places(b, id) + {i}, Places(a, id));
  }

  lemma SubsetSize(a: set<nat>, b: set<nat>)
    requires a <= b
    ensures |a| <= |b|
  {
    assert b == a + (b - a);
  }

  /** For distinct artifacts there is one such answer. */
  lemma AnswerIsUnique(
      entries: seq<Entry>, s: Scope, a: seq<Entry>, b: seq<Entry>, limit: nat, cap: nat)
    requires DistinctArtifacts(entries)
    requires IsAnswer(entries, s, a, limit, cap) && IsAnswer(entries, s, b, limit, cap)
    ensures a == b
  {
    if |a| <= |b| {
      AnswersAgree(entries, s, a, b, |a|, limit, cap);
      if |a| < |b| {
        NothingBetterIsMissed(entries, s, b, a, |a|, limit, cap);
      }
    } else {
      AnswersAgree(entries, s, a, b, |b|, limit, cap);
      NothingBetterIsMissed(entries, s, a, b, |b|, limit, cap);
    }
    assert a[..|a|] == a && b[..|b|] == b;
  }

  lemma {:induction false} AnswersAgree(
      entries: seq<Entry>, s: Scope, a: seq<Entry>, b: seq<Entry>, n: nat, limit: nat, cap: nat)
    requires DistinctArtifacts(entries) && n <= |a| && n <= |b|
    requires IsAnswer(entries, s, a, limit, cap) && IsAnswer(entries, s, b, limit, cap)
    ensures a[..n] == b[..n]
  {
    if n > 0 {
      var i := n - 1;
      AnswersAgree(entries, s, a, b, i, limit, cap);
      NothingBetterIsMissed(entries, s, a, b, i, limit, cap);
      NothingBetterIsMissed(entries, s, b, a, i, limit, cap);
      GoodIsOrder(a[i], b[i], a[i]);
      DistinctAreEqual(entries, a[i], b[i]);
      assert a[..n] == a[..i] + [a[i]] && b[..n] == b[..i] + [b[i]];
    }
  }
}
