/** The fused ranking field by field: the scores as sums of reciprocals, and the order with its ties. */
module FusionOrder {
  import opened Wrappers
  import opened Texts
  import opened Sorting
  import opened RankFusion

  function Denominator(constant: int, rank: nat): int {
    constant + rank
  }

  /** No rank of the ranking gives a zero denominator. */
  predicate IsDefined(ranking: seq<RankedChunk>, constant: int) {
    forall rank :: 1 <= rank <= |ranking| ==> Denominator(constant, rank) != 0
  }

  /** The sum of 1 / (constant + rank) over the ranks, counted from one, that hold the chunk. */
  function Reciprocals(ranking: seq<RankedChunk>, id: Text, constant: int): real
    requires IsDefined(ranking, constant)
  {
    if ranking == [] then 0.0
    else
      var n := |ranking|;
      Reciprocals(ranking[..n - 1], id, constant)
      + if ranking[n - 1].chunk.id == id then 1.0 / Denominator(constant, n) as real else 0.0
  }

  /** The last rank that holds the chunk, if any does. */
  ghost predicate IsLastRank(ranking: seq<RankedChunk>, id: Text, rank: Option<nat>) {
    match rank
    case None => forall i :: 0 <= i < |ranking| ==> ranking[i].chunk.id != id
    case Some(r) =>
      1 <= r <= |ranking| && ranking[r - 1].chunk.id == id
      && forall i :: r <= i < |ranking| ==> ranking[i].chunk.id != id
  }

  ghost predicate IsFirstOf(items: seq<RankedChunk>, chunk: Chunk, i: nat) {
    i < |items| && items[i].chunk == chunk && forall j :: 0 <= j < i ==> items[j].chunk.id != chunk.id
  }

  ghost predicate IsRow(dense: seq<RankedChunk>, lexical: seq<RankedChunk>, constant: int, row: RankedChunk)
    requires IsDefined(dense, constant) && IsDefined(lexical, constant)
  {
    var id := row.chunk.id;
    && row.score == Reciprocals(dense, id, constant) + Reciprocals(lexical, id, constant)
    && IsLastRank(dense, id, row.denseRank) && IsLastRank(lexical, id, row.lexicalRank)
    && exists i: nat :: IsFirstOf(dense + lexical, row.chunk, i)
  }

  /** A higher score; among equals an earlier event, then the lesser event identifier, then the lower ordinal. */
  ghost predicate NotBehind(a: RankedChunk, b: RankedChunk) {
    && a.score >= b.score
    && (a.score == b.score ==>
          && a.chunk.eventSequence <= b.chunk.eventSequence
          && (a.chunk.eventSequence == b.chunk.eventSequence ==>
                && NotAfter(a.chunk.eventId, b.chunk.eventId)
                && (a.chunk.eventId == b.chunk.eventId ==> a.chunk.ordinal <= b.chunk.ordinal)))
  }

  /** One row for every chunk of either ranking, in that order. */
  ghost predicate IsFusion(dense: seq<RankedChunk>, lexical: seq<RankedChunk>, constant: int, out: seq<RankedChunk>)
    requires IsDefined(dense, constant) && IsDefined(lexical, constant)
  {
    && (forall i :: 0 <= i < |out| ==> IsRow(dense, lexical, constant, out[i]))
    && (forall i, j :: 0 <= i < j < |out| ==> out[i].chunk.id != out[j].chunk.id && NotBehind(out[i], out[j]))
    && (forall k :: 0 <= k < |dense| ==> HasRow(out, dense[k].chunk.id))
    && (forall k :: 0 <= k < |lexical| ==> HasRow(out, lexical[k].chunk.id))
  }

  ghost predicate HasRow(out: seq<RankedChunk>, id: Text) {
    exists i :: 0 <= i < |out| && out[i].chunk.id == id
  }

  lemma OrderIsByFields(a: RankedChunk, b: RankedChunk)
    ensures Precedes(a, b) <==> NotBehind(a, b)
  {
    TextLeqIsLexicographic(a.chunk.eventId, b.chunk.eventId);
  }

  lemma {:induction false} TotalIsReciprocals(ranking: seq<RankedChunk>, id: Text, constant: int)
    requires IsDefined(ranking, constant)
    ensures Total(ranking, id, constant) == Reciprocals(ranking, id, constant)
  {
    if ranking != [] {
      var n := |ranking| - 1;
      TotalIsReciprocals(ranking[..n], id, constant);
      assert Denominator(constant, n + 1) != 0;
    }
  }

  lemma {:induction false} LastRankIsLast(ranking: seq<RankedChunk>, id: Text)
    ensures IsLastRank(ranking, id, LastRank(ranking, id))
  {
    if ranking != [] && ranking[|ranking| - 1].chunk.id != id {
      LastRankIsLast(ranking[..|ranking| - 1], id);
    }
  }

  lemma RowIsRow(dense: seq<RankedChunk>, lexical: seq<RankedChunk>, constant: int, row: RankedChunk)
    requires IsDefined(dense, constant) && IsDefined(lexical, constant)
    requires Exact(row, dense, lexical, constant) && FirstChunk(dense + lexical, row.chunk.id) == Some(row.chunk)
    ensures IsRow(dense, lexical, constant, row)
  {
    var id := row.chunk.id;
    TotalIsReciprocals(dense, id, constant);
    TotalIsReciprocals(lexical, id, constant);
    LastRankIsLast(dense, id);
    LastRankIsLast(lexical, id);
    assert IsFirstOf(dense + lexical, row.chunk, IndexOf(dense + lexical, id));
  }

  lemma OutRowIsExact(dense: seq<RankedChunk>, lexical: seq<RankedChunk>, constant: int, i: nat)
    requires i < |Fused(dense, lexical, constant)|
    ensures var row := Fused(dense, lexical, constant)[i];
            Exact(row, dense, lexical, constant) && FirstChunk(dense + lexical, row.chunk.id) == Some(row.chunk)
  {
    var rows, row := Rows(dense, lexical, constant), Fused(dense, lexical, constant)[i];
    RowsAreExact(dense, lexical, constant);
    SortKeepsRows(rows);
    assert row in Fused(dense, lexical, constant) && row in rows;
    var k :| 0 <= k < |rows| && rows[k] == row;
    assert IndexOf(rows, row.chunk.id) == k;
    assert FirstChunk(rows, row.chunk.id) == FirstChunk(dense + lexical, row.chunk.id);
  }

  lemma EveryChunkHasRow(dense: seq<RankedChunk>, lexical: seq<RankedChunk>, constant: int, id: Text)
    requires Place(dense, id).Some? || Place(lexical, id).Some?
    ensures HasRow(Fused(dense, lexical, constant), id)
  {
    FusionHoldsEachOnce(dense, lexical, constant);
    var out := Fused(dense, lexical, constant);
    assert out[IndexOf(out, id)].chunk.id == id;
  }

  /** Whenever no denominator is zero, the fused ranking is the fusion. */
  lemma FusedIsFusion(dense: seq<RankedChunk>, lexical: seq<RankedChunk>, constant: int)
    requires IsDefined(dense, constant) && IsDefined(lexical, constant)
    ensures IsFusion(dense, lexical, constant, Fused(dense, lexical, constant))
  {
    var out := Fused(dense, lexical, constant);
    FusionHoldsEachOnce(dense, lexical, constant);
    forall i | 0 <= i < |out|
      ensures IsRow(dense, lexical, constant, out[i])
    {
      OutRowIsExact(dense, lexical, constant, i);
      RowIsRow(dense, lexical, constant, out[i]);
    }
    forall i, j | 0 <= i < j < |out|
      ensures NotBehind(out[i], out[j])
    {
      OrderIsByFields(out[i], out[j]);
    }
    forall k | 0 <= k < |dense|
      ensures HasRow(out, dense[k].chunk.id)
    {
      EveryChunkHasRow(dense, lexical, constant, dense[k].chunk.id);
    }
    forall k | 0 <= k < |lexical|
      ensures HasRow(out, lexical[k].chunk.id)
    {
      EveryChunkHasRow(dense, lexical, constant, lexical[k].chunk.id);
    }
  }

  /** `Fuse` succeeds exactly then, and the slice keeps the first k, or for a negative k all but the last -k. */
  lemma SliceIsPrefix<T>(s: seq<T>, k: int)
    ensures var size := if k >= 0 then (if k < |s| then k else |s|) else if |s| + k > 0 then |s| + k else 0;
            Upto(s, k) == s[..size]
  {
  }

  lemma DefinedExactly(ranking: seq<RankedChunk>, constant: int)
    ensures IsDefined(ranking, constant) <==> !(-|ranking| <= constant < 0)
  {
    if -|ranking| <= constant < 0 {
      assert Denominator(constant, -constant) == 0;
    }
  }
}
