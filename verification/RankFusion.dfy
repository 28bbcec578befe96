/** Reciprocal rank fusion of a dense and a lexical ranking of memory chunks. */
module RankFusion {
  import opened Wrappers
  import opened Texts
  import opened Sorting

  datatype Chunk = Chunk(id: Text, eventSequence: int, eventId: Text, ordinal: int, content: Text)

  datatype RankedChunk = RankedChunk(chunk: Chunk, score: real, denseRank: Option<nat>, lexicalRank: Option<nat>)

  datatype Lane = Dense | Lexical

  datatype FusionError = ZeroDivision

  /** The credit a place in a ranking earns; the caller never asks for it when the denominator is zero. */
  function Share(constant: int, rank: nat): real {
    if constant + rank == 0 then 0.0 else 1.0 / (constant + rank) as real
  }

  function IndexOf(rows: seq<RankedChunk>, id: Text): (i: nat)
    ensures i <= |rows| && (i < |rows| ==> rows[i].chunk.id == id)
    ensures forall j :: 0 <= j < i ==> rows[j].chunk.id != id
  {
    if rows == [] || rows[0].chunk.id == id then 0 else 1 + IndexOf(rows[1..], id)
  }

  /** The row of `chunk`, made when it is new, credited for its `rank` in one of the rankings. */
  function Credit(rows: seq<RankedChunk>, chunk: Chunk, lane: Lane, rank: nat, constant: int): seq<RankedChunk> {
    var i := IndexOf(rows, chunk.id);
    var row := if i < |rows| then rows[i] else RankedChunk(chunk, 0.0, None, None);
    var credited := Credited(row, lane, rank, constant);
    if i < |rows| then rows[i := credited] else rows + [credited]
  }

  function Credited(row: RankedChunk, lane: Lane, rank: nat, constant: int): RankedChunk {
    var scored := row.(score := row.score + Share(constant, rank));
    if lane.Dense? then scored.(denseRank := Some(rank)) else scored.(lexicalRank := Some(rank))
  }

  function CreditAll(rows: seq<RankedChunk>, ranking: seq<RankedChunk>, lane: Lane, constant: int): seq<RankedChunk> {
    if ranking == [] then rows
    else
      var front, last := ranking[..|ranking| - 1], ranking[|ranking| - 1];
      Credit(CreditAll(rows, front, lane, constant), last.chunk, lane, |ranking|, constant)
  }

  function Rows(dense: seq<RankedChunk>, lexical: seq<RankedChunk>, constant: int): seq<RankedChunk> {
    CreditAll(CreditAll([], dense, Dense, constant), lexical, Lexical, constant)
  }

  /** Higher score first, then event sequence, event identifier and chunk ordinal. */
  predicate Precedes(a: RankedChunk, b: RankedChunk) {
    if a.score != b.score then a.score > b.score
    else if a.chunk.eventSequence != b.chunk.eventSequence then a.chunk.eventSequence < b.chunk.eventSequence
    else if a.chunk.eventId != b.chunk.eventId then TextLeq(a.chunk.eventId, b.chunk.eventId)
    else a.chunk.ordinal <= b.chunk.ordinal
  }

  /** The slice `s[:k]`, which counts a negative `k` from the end. */
  function Upto<T>(s: seq<T>, k: int): (r: seq<T>)
    ensures r <= s
  {
    if k >= |s| then s else if k >= 0 then s[..k] else if |s| + k >= 0 then s[..|s| + k] else []
  }

  function Fused(dense: seq<RankedChunk>, lexical: seq<RankedChunk>, constant: int): seq<RankedChunk> {
    Sort(Precedes, Rows(dense, lexical, constant))
  }

  /** One pass over a ranking, ranks counted from one. */
  method CreditRanking(rows: seq<RankedChunk>, ranking: seq<RankedChunk>, lane: Lane, constant: int)
    returns (r: Result<seq<RankedChunk>, FusionError>)
    ensures r == if -|ranking| <= constant < 0 then Failure(ZeroDivision)
                 else Success(CreditAll(rows, ranking, lane, constant))
  {
    var current := rows;
    for n := 0 to |ranking|
      invariant !(-n <= constant < 0)
      invariant current == CreditAll(rows, ranking[..n], lane, constant)
    {
      if constant + n + 1 == 0 {
        return Failure(ZeroDivision);
      }
      assert ranking[..n + 1][..n] == ranking[..n];
      var i := IndexOf(current, ranking[n].chunk.id);
      if i == |current| {
        current := current + [RankedChunk(ranking[n].chunk, 0.0, None, None)];
      }
      var share := 1.0 / (constant + n + 1) as real;
      if lane.Dense? {
        current := current[i := current[i].(score := current[i].score + share, denseRank := Some(n + 1))];
      } else {
        current := current[i := current[i].(score := current[i].score + share, lexicalRank := Some(n + 1))];
      }
    }
    assert ranking[..|ranking|] == ranking;
    r := Success(current);
  }

  method Fuse(dense: seq<RankedChunk>, lexical: seq<RankedChunk>, constant: int, topK: int)
    returns (r: Result<seq<RankedChunk>, FusionError>)
    ensures r.Failure? <==> (-|dense| <= constant < 0 || -|lexical| <= constant < 0)
    ensures r.Success? ==> r.value == Upto(Fused(dense, lexical, constant), topK)
  {
    r := CreditRanking([], dense, Dense, constant);
    if r.Success? {
      r := CreditRanking(r.value, lexical, Lexical, constant);
    }
    if r.Success? {
      r := Success(Upto(Sort(Precedes, r.value), topK));
    }
  }

  // ----- What the rows hold -----

  /** The credit of `id` over a whole ranking. */
  function Total(ranking: seq<RankedChunk>, id: Text, constant: int): real {
    if ranking == [] then 0.0
    else
      Total(ranking[..|ranking| - 1], id, constant)
      + if ranking[|ranking| - 1].chunk.id == id then Share(constant, |ranking|) else 0.0
  }

  function LastRank(ranking: seq<RankedChunk>, id: Text): Option<nat> {
    if ranking == [] then None
    else if ranking[|ranking| - 1].chunk.id == id then Some(|ranking|)
    else LastRank(ranking[..|ranking| - 1], id)
  }

  function FirstChunk(items: seq<RankedChunk>, id: Text): Option<Chunk> {
    var i := IndexOf(items, id);
    if i < |items| then Some(items[i].chunk) else None
  }

  ghost predicate NoRepeatedIds(items: seq<RankedChunk>) {
    forall i, j :: 0 <= i < j < |items| ==> items[i].chunk.id != items[j].chunk.id
  }

  /** The score and ranks of a row are those of its chunk. */
  ghost predicate Exact(row: RankedChunk, dense: seq<RankedChunk>, lexical: seq<RankedChunk>, constant: int) {
    var id := row.chunk.id;
    && row.score == Total(dense, id, constant) + Total(lexical, id, constant)
    && row.denseRank == LastRank(dense, id)
    && row.lexicalRank == LastRank(lexical, id)
  }

  ghost predicate AllExact(rows: seq<RankedChunk>, dense: seq<RankedChunk>, lexical: seq<RankedChunk>, constant: int) {
    forall row :: row in rows ==> Exact(row, dense, lexical, constant)
  }

  /** One row for every chunk of `items`, with the first of the chunks that share its identifier. */
  ghost predicate OneRowEach(rows: seq<RankedChunk>, items: seq<RankedChunk>) {
    NoRepeatedIds(rows) && forall id :: FirstChunk(rows, id) == FirstChunk(items, id)
  }

  lemma IndexAppend(items: seq<RankedChunk>, item: RankedChunk, id: Text)
    ensures IndexOf(items + [item], id)
            == if IndexOf(items, id) < |items| then IndexOf(items, id)
               else if item.chunk.id == id then |items| else |items| + 1
  {
    var i, j := IndexOf(items + [item], id), IndexOf(items, id);
    assert forall n :: 0 <= n < |items| ==> (items + [item])[n] == items[n];
    assert (items + [item])[|items|] == item;
  }

  lemma {:induction false} AbsentEarnsNothing(ranking: seq<RankedChunk>, id: Text, constant: int)
    requires IndexOf(ranking, id) == |ranking|
    ensures Total(ranking, id, constant) == 0.0 && LastRank(ranking, id) == None
  {
    if ranking != [] {
      var front, last := ranking[..|ranking| - 1], ranking[|ranking| - 1];
      assert ranking == front + [last];
      IndexAppend(front, last, id);
      AbsentEarnsNothing(front, id, constant);
    }
  }

  lemma CreditKeepsRows(
      rows: seq<RankedChunk>, items: seq<RankedChunk>, item: RankedChunk, lane: Lane, rank: nat, constant: int)
    requires OneRowEach(rows, items)
    ensures OneRowEach(Credit(rows, item.chunk, lane, rank, constant), items + [item])
  {
    var more := Credit(rows, item.chunk, lane, rank, constant);
    var i := IndexOf(rows, item.chunk.id);
    forall id
      ensures FirstChunk(more, id) == FirstChunk(items + [item], id)
    {
      IndexAppend(items, item, id);
      assert FirstChunk(rows, id) == FirstChunk(items, id);
      assert FirstChunk(rows, item.chunk.id) == FirstChunk(items, item.chunk.id);
      if i < |rows| {
        assert forall n :: 0 <= n < |rows| ==> more[n].chunk == rows[n].chunk;
        assert IndexOf(more, id) == IndexOf(rows, id);
      } else {
        IndexAppend(rows, more[i], id);
      }
    }
  }

  lemma Grow(front: seq<RankedChunk>, item: RankedChunk, id: Text, constant: int)
    ensures Total(front + [item], id, constant)
            == Total(front, id, constant) + if item.chunk.id == id then Share(constant, |front| + 1) else 0.0
    ensures LastRank(front + [item], id)
            == if item.chunk.id == id then Some(|front| + 1) else LastRank(front, id)
  {
    assert (front + [item])[..|front|] == front;
  }

  /** The row credited for `item` was exact, or is new and the chunk had earned nothing so far. */
  lemma StartIsExact(
      rows: seq<RankedChunk>, dense: seq<RankedChunk>, lexical: seq<RankedChunk>, chunk: Chunk, constant: int)
    requires OneRowEach(rows, dense + lexical) && AllExact(rows, dense, lexical, constant)
    requires IndexOf(rows, chunk.id) == |rows|
    ensures Exact(RankedChunk(chunk, 0.0, None, None), dense, lexical, constant)
  {
    assert FirstChunk(rows, chunk.id) == FirstChunk(dense + lexical, chunk.id);
    var i, j := IndexOf(dense, chunk.id), IndexOf(lexical, chunk.id);
    assert forall n :: 0 <= n < |dense| ==> dense[n] == (dense + lexical)[n];
    assert forall n :: 0 <= n < |lexical| ==> lexical[n] == (dense + lexical)[|dense| + n];
    AbsentEarnsNothing(dense, chunk.id, constant);
    AbsentEarnsNothing(lexical, chunk.id, constant);
  }

  lemma CreditDense(rows: seq<RankedChunk>, front: seq<RankedChunk>, item: RankedChunk, constant: int)
    requires OneRowEach(rows, front) && AllExact(rows, front, [], constant)
    ensures AllExact(Credit(rows, item.chunk, Dense, |front| + 1, constant), front + [item], [], constant)
  {
    var i := IndexOf(rows, item.chunk.id);
    var more := Credit(rows, item.chunk, Dense, |front| + 1, constant);
    assert front + [] == front;
    if i == |rows| {
      StartIsExact(rows, front, [], item.chunk, constant);
    } else {
      assert rows[i] in rows;
    }
    forall row | row in more
      ensures Exact(row, front + [item], [], constant)
    {
      Grow(front, item, row.chunk.id, constant);
      var n :| 0 <= n < |more| && more[n] == row;
      if n != i {
        assert row == rows[n] && rows[n] in rows;
      }
    }
  }

  lemma CreditLexical(
      rows: seq<RankedChunk>, dense: seq<RankedChunk>, front: seq<RankedChunk>, item: RankedChunk, constant: int)
    requires OneRowEach(rows, dense + front) && AllExact(rows, dense, front, constant)
    ensures AllExact(Credit(rows, item.chunk, Lexical, |front| + 1, constant), dense, front + [item], constant)
  {
    var i := IndexOf(rows, item.chunk.id);
    var more := Credit(rows, item.chunk, Lexical, |front| + 1, constant);
    if i == |rows| {
      StartIsExact(rows, dense, front, item.chunk, constant);
    } else {
      assert rows[i] in rows;
    }
    forall row | row in more
      ensures Exact(row, dense, front + [item], constant)
    {
      Grow(front, item, row.chunk.id, constant);
      var n :| 0 <= n < |more| && more[n] == row;
      if n != i {
        assert row == rows[n] && rows[n] in rows;
      }
    }
  }

  lemma {:induction false} DenseRows(dense: seq<RankedChunk>, constant: int)
    ensures OneRowEach(CreditAll([], dense, Dense, constant), dense)
    ensures AllExact(CreditAll([], dense, Dense, constant), dense, [], constant)
  {
    if dense != [] {
      var front, last := dense[..|dense| - 1], dense[|dense| - 1];
      var rows := CreditAll([], front, Dense, constant);
      DenseRows(front, constant);
      assert dense == front + [last];
      CreditKeepsRows(rows, front, last, Dense, |dense|, constant);
      CreditDense(rows, front, last, constant);
    }
  }

  lemma {:induction false} LexicalRows(
      rows: seq<RankedChunk>, dense: seq<RankedChunk>, lexical: seq<RankedChunk>, constant: int)
    requires OneRowEach(rows, dense) && AllExact(rows, dense, [], constant)
    ensures OneRowEach(CreditAll(rows, lexical, Lexical, constant), dense + lexical)
    ensures AllExact(CreditAll(rows, lexical, Lexical, constant), dense, lexical, constant)
  {
    if lexical == [] {
      assert dense + lexical == dense;
    } else {
      var front, last := lexical[..|lexical| - 1], lexical[|lexical| - 1];
      var current := CreditAll(rows, front, Lexical, constant);
      LexicalRows(rows, dense, front, constant);
      assert lexical == front + [last] && dense + lexical == (dense + front) + [last];
      CreditKeepsRows(current, dense + front, last, Lexical, |lexical|, constant);
      CreditLexical(current, dense, front, last, constant);
    }
  }

  /** Every chunk of either ranking has one row, whose score and ranks are exact; this needs no
      assumption on repeats. */
  lemma RowsAreExact(dense: seq<RankedChunk>, lexical: seq<RankedChunk>, constant: int)
    ensures OneRowEach(Rows(dense, lexical, constant), dense + lexical)
    ensures AllExact(Rows(dense, lexical, constant), dense, lexical, constant)
  {
    DenseRows(dense, constant);
    LexicalRows(CreditAll([], dense, Dense, constant), dense, lexical, constant);
  }

  // ----- What comes out -----

  lemma PrecedesIsTotal()
    ensures TotalPreorder(Precedes)
  {
    forall a: RankedChunk, b: RankedChunk
      ensures Precedes(a, b) || Precedes(b, a)
    {
      TextLeqTotal(a.chunk.eventId, b.chunk.eventId);
    }
    forall a: RankedChunk, b: RankedChunk, c: RankedChunk | Precedes(a, b) && Precedes(b, c)
      ensures Precedes(a, c)
    {
      TextLeqTotal(a.chunk.eventId, c.chunk.eventId);
      TextLeqTotal(a.chunk.eventId, b.chunk.eventId);
      TextLeqTotal(b.chunk.eventId, c.chunk.eventId);
      if TextLeq(a.chunk.eventId, b.chunk.eventId) && TextLeq(b.chunk.eventId, c.chunk.eventId) {
        TextLeqTransitive(a.chunk.eventId, b.chunk.eventId, c.chunk.eventId);
      }
    }
  }

  /** The place of `id` in a ranking, from one, or None. */
  function Place(ranking: seq<RankedChunk>, id: Text): Option<nat> {
    var i := IndexOf(ranking, id);
    if i < |ranking| then Some(i + 1) else None
  }

  function Earned(place: Option<nat>, constant: int): real {
    if place.Some? then Share(constant, place.value) else 0.0
  }

  lemma {:induction false} OneShare(ranking: seq<RankedChunk>, id: Text, constant: int)
    requires NoRepeatedIds(ranking)
    ensures LastRank(ranking, id) == Place(ranking, id)
    ensures Total(ranking, id, constant) == Earned(Place(ranking, id), constant)
  {
    if ranking != [] {
      var front, last := ranking[..|ranking| - 1], ranking[|ranking| - 1];
      assert ranking == front + [last];
      IndexAppend(front, last, id);
      OneShare(front, id, constant);
    }
  }

  lemma SortKeepsRows(rows: seq<RankedChunk>)
    requires NoRepeatedIds(rows)
    ensures var out := Sort(Precedes, rows);
            SortedBy(Precedes, out) && NoRepeatedIds(out) && forall row :: row in out <==> row in rows
  {
    var out := Sort(Precedes, rows);
    PrecedesIsTotal();
    SortSorts(Precedes, rows);
    SortKeepsElements(Precedes, rows);
    SameElements(out, rows);
    RearrangedHasNoRepeats(rows, out);
    forall i, j | 0 <= i < j < |out|
      ensures out[i].chunk.id != out[j].chunk.id
    {
      assert out[i] in out && out[j] in out;
      var x :| 0 <= x < |rows| && rows[x] == out[i];
      var y :| 0 <= y < |rows| && rows[y] == out[j];
    }
  }

  lemma RowIsThere(rows: seq<RankedChunk>, out: seq<RankedChunk>, id: Text)
    requires forall row :: row in out <==> row in rows
    ensures IndexOf(out, id) < |out| <==> IndexOf(rows, id) < |rows|
  {
    var i, j := IndexOf(rows, id), IndexOf(out, id);
    if i < |rows| {
      assert rows[i] in out;
    }
    if j < |out| {
      assert out[j] in rows;
    }
  }

  lemma EitherPlace(dense: seq<RankedChunk>, lexical: seq<RankedChunk>, id: Text)
    ensures FirstChunk(dense + lexical, id).Some? <==> Place(dense, id).Some? || Place(lexical, id).Some?
  {
    var items := dense + lexical;
    var i, j, n := IndexOf(dense, id), IndexOf(lexical, id), IndexOf(items, id);
    assert i < |dense| ==> items[i] == dense[i];
    assert j < |lexical| ==> items[|dense| + j] == lexical[j];
    assert n < |dense| ==> items[n] == dense[n];
    assert |dense| <= n < |items| ==> items[n] == lexical[n - |dense|];
  }

  /** The result holds each chunk of either ranking once, in order of score. */
  lemma FusionHoldsEachOnce(dense: seq<RankedChunk>, lexical: seq<RankedChunk>, constant: int)
    ensures var out := Fused(dense, lexical, constant);
            && SortedBy(Precedes, out) && NoRepeatedIds(out)
            && forall id :: IndexOf(out, id) < |out| <==> Place(dense, id).Some? || Place(lexical, id).Some?
  {
    var rows, out := Rows(dense, lexical, constant), Fused(dense, lexical, constant);
    RowsAreExact(dense, lexical, constant);
    SortKeepsRows(rows);
    forall id
      ensures IndexOf(out, id) < |out| <==> Place(dense, id).Some? || Place(lexical, id).Some?
    {
      RowIsThere(rows, out, id);
      EitherPlace(dense, lexical, id);
      assert FirstChunk(rows, id) == FirstChunk(dense + lexical, id);
    }
  }

  /** For rankings without repeats each score is the sum of the credits of the places the chunk holds. */
  lemma FusionIsExact(dense: seq<RankedChunk>, lexical: seq<RankedChunk>, constant: int, row: RankedChunk)
    requires NoRepeatedIds(dense) && NoRepeatedIds(lexical) && row in Fused(dense, lexical, constant)
    ensures row.denseRank == Place(dense, row.chunk.id) && row.lexicalRank == Place(lexical, row.chunk.id)
    ensures row.score == Earned(row.denseRank, constant) + Earned(row.lexicalRank, constant)
  {
    RowsAreExact(dense, lexical, constant);
    SortKeepsRows(Rows(dense, lexical, constant));
    OneShare(dense, row.chunk.id, constant);
    OneShare(lexical, row.chunk.id, constant);
  }

  // ----- Pareto consistency -----

  /** Where the ranking holds `b`, it holds `a` no later. */
  predicate NoWorse(ranking: seq<RankedChunk>, a: Text, b: Text) {
    Place(ranking, b).Some? ==> Place(ranking, a).Some? && Place(ranking, a).value <= Place(ranking, b).value
  }

  lemma SharesShrink(constant: int, m: nat, n: nat)
    requires constant >= 0 && 0 < m < n
    ensures Share(constant, m) > Share(constant, n) > 0.0
  {
    var x, y := (constant + m) as real, (constant + n) as real;
    Inverse(x, y);
  }

  lemma Inverse(x: real, y: real)
    requires 0.0 < x < y
    ensures 1.0 / x > 1.0 / y > 0.0
  {
    var p, q := 1.0 / x, 1.0 / y;
    assert p * x == 1.0 && q * y == 1.0;
    Ordered(p, q, x, y);
  }

  lemma Ordered(p: real, q: real, x: real, y: real)
    requires 0.0 < x < y && p * x == q * y == 1.0
    ensures p > q > 0.0
  {
    assert q > 0.0;
    assert p * x == q * x + q * (y - x) && q * (y - x) > 0.0;
  }

  lemma EarnsMore(ranking: seq<RankedChunk>, a: Text, b: Text, constant: int)
    requires constant >= 0 && a != b && NoWorse(ranking, a, b)
    ensures var p, q := Place(ranking, a), Place(ranking, b);
            Earned(p, constant) >= Earned(q, constant) >= 0.0 && (q.Some? ==> Earned(p, constant) > Earned(q, constant))
  {
    var p, q := Place(ranking, a), Place(ranking, b);
    if q.Some? {
      SharesShrink(constant, p.value, q.value);
    } else if p.Some? {
      SharesShrink(constant, p.value, p.value + 1);
    }
  }

  /** A ranking too short to divide by zero cannot place two chunks when the constant is -1 or -2. */
  lemma ShortRankingsHoldOne(ranking: seq<RankedChunk>, a: Text, b: Text)
    requires |ranking| <= 1 && a != b && NoWorse(ranking, a, b)
    ensures Place(ranking, b) == None
  {
  }

  /** A chunk that no ranking puts behind another comes out before it, and survives the cut when the other does. */
  lemma ParetoConsistent(dense: seq<RankedChunk>, lexical: seq<RankedChunk>, constant: int, topK: int, a: Text, b: Text)
    requires NoRepeatedIds(dense) && NoRepeatedIds(lexical) && a != b
    requires NoWorse(dense, a, b) && NoWorse(lexical, a, b)
    requires constant >= -2 && !(-|dense| <= constant < 0) && !(-|lexical| <= constant < 0)
    ensures var out := Upto(Fused(dense, lexical, constant), topK);
            IndexOf(out, b) < |out| ==> IndexOf(out, a) < IndexOf(out, b)
  {
    var fused := Fused(dense, lexical, constant);
    FusionHoldsEachOnce(dense, lexical, constant);
    if constant < 0 {
      ShortRankingsHoldOne(dense, a, b);
      ShortRankingsHoldOne(lexical, a, b);
    } else if IndexOf(fused, b) < |fused| {
      BetterComesFirst(dense, lexical, constant, a, b);
    }
    IndexUpto(fused, topK, a);
    IndexUpto(fused, topK, b);
  }

  lemma IndexUpto(s: seq<RankedChunk>, k: int, id: Text)
    ensures var r := Upto(s, k); IndexOf(r, id) == if IndexOf(s, id) < |r| then IndexOf(s, id) else |r|
  {
    var r := Upto(s, k);
    assert forall i :: 0 <= i < |r| ==> r[i] == s[i];
  }

  /** The row of `a` scores more than the row of `b`. */
  lemma BetterScoresMore(
      dense: seq<RankedChunk>, lexical: seq<RankedChunk>, constant: int, better: RankedChunk, worse: RankedChunk)
    requires NoRepeatedIds(dense) && NoRepeatedIds(lexical) && constant >= 0
    requires better in Fused(dense, lexical, constant) && worse in Fused(dense, lexical, constant)
    requires var a, b := better.chunk.id, worse.chunk.id;
             && a != b && NoWorse(dense, a, b) && NoWorse(lexical, a, b)
             && (Place(dense, b).Some? || Place(lexical, b).Some?)
    ensures better.score > worse.score
  {
    var a, b := better.chunk.id, worse.chunk.id;
    FusionIsExact(dense, lexical, constant, better);
    FusionIsExact(dense, lexical, constant, worse);
    EarnsMore(dense, a, b, constant);
    EarnsMore(lexical, a, b, constant);
  }

  lemma HigherScoreComesFirst(out: seq<RankedChunk>, i: nat, j: nat)
    requires SortedBy(Precedes, out) && i < |out| && j < |out| && out[i].score > out[j].score
    ensures i < j
  {
    assert !Precedes(out[j], out[i]);
  }

  lemma BetterComesFirst(dense: seq<RankedChunk>, lexical: seq<RankedChunk>, constant: int, a: Text, b: Text)
    requires NoRepeatedIds(dense) && NoRepeatedIds(lexical) && a != b && constant >= 0
    requires NoWorse(dense, a, b) && NoWorse(lexical, a, b)
    requires IndexOf(Fused(dense, lexical, constant), b) < |Fused(dense, lexical, constant)|
    ensures IndexOf(Fused(dense, lexical, constant), a) < IndexOf(Fused(dense, lexical, constant), b)
  {
    var out := Fused(dense, lexical, constant);
    FusionHoldsEachOnce(dense, lexical, constant);
    var i, j := IndexOf(out, a), IndexOf(out, b);
    assert i < |out|;
    BetterScoresMore(dense, lexical, constant, out[i], out[j]);
    HigherScoreComesFirst(out, i, j);
  }

  function Item(id: Text): RankedChunk {
    RankedChunk(Chunk(id, 0, [], 0, []), 0.0, None, None)
  }

  lemma PlacesOfTwo(a: Text, b: Text)
    requires a != b
    ensures var r := [Item(a), Item(b)]; NoRepeatedIds(r) && Place(r, a) == Some(1) && Place(r, b) == Some(2)
    ensures forall x :: x != a && x != b ==> Place([Item(a), Item(b)], x).None?
  {
    var r := [Item(a), Item(b)];
    assert r[0].chunk.id == a && r[1].chunk.id == b;
    assert IndexOf(r, a) == 0 && IndexOf(r, b) == 1;
  }

  lemma SecondCreditLoses(dense: seq<RankedChunk>, lexical: seq<RankedChunk>, constant: int, a: Text, b: Text)
    requires constant <= -3 && NoRepeatedIds(dense) && NoRepeatedIds(lexical)
    requires Place(dense, a) == Some(2) && Place(lexical, a) == Some(1)
    requires Place(dense, b) == None && Place(lexical, b) == Some(2)
    ensures IndexOf(Fused(dense, lexical, constant), b) < IndexOf(Fused(dense, lexical, constant), a)
  {
    var out := Fused(dense, lexical, constant);
    FusionHoldsEachOnce(dense, lexical, constant);
    var i, j := IndexOf(out, a), IndexOf(out, b);
    assert i < |out| && j < |out|;
    FusionIsExact(dense, lexical, constant, out[i]);
    FusionIsExact(dense, lexical, constant, out[j]);
    assert Share(constant, 1) < 0.0;
    assert out[i].score < out[j].score;
    assert !Precedes(out[i], out[j]);
  }

  /** Below -2 a second credit is a loss: with rankings [x, a] and [a, b] the chunk `a` comes out behind `b`. */
  lemma NegativeConstantsBreakIt(constant: int, a: Text, b: Text, x: Text)
    requires constant <= -3 && a != b && a != x && b != x
    ensures var dense, lexical := [Item(x), Item(a)], [Item(a), Item(b)];
            && !(-|dense| <= constant < 0) && !(-|lexical| <= constant < 0)
            && NoRepeatedIds(dense) && NoRepeatedIds(lexical) && NoWorse(dense, a, b) && NoWorse(lexical, a, b)
            && IndexOf(Fused(dense, lexical, constant), b) < IndexOf(Fused(dense, lexical, constant), a)
  {
    PlacesOfTwo(x, a);
    PlacesOfTwo(a, b);
    SecondCreditLoses([Item(x), Item(a)], [Item(a), Item(b)], constant, a, b);
  }
}
