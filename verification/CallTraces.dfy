/** Every reachable external-call ledger, with any number of calls open at once. */
module CallTraces {
  import opened ExternalCalls

  datatype Action = ReserveCall(kind: Kind, call: CallId) | CloseCall(reservation: Reservation, success: bool)

  function Step(rows: seq<Row>, a: Action): seq<Row> {
    match a
    case ReserveCall(kind, call) =>
      rows + [if MayStart(rows, kind) then Started(kind, call) else BudgetBlocked(kind)]
    case CloseCall(r, success) =>
      if MayClose(rows, r.call) then rows + [if success then Succeeded(r.kind, r.call) else Failed(r.kind, r.call)]
      else rows
  }

  /** The call that an action stands for has the effect of the step. */
  method Perform(ledger: ExternalCallLedger, a: Action)
    modifies ledger
    ensures ledger.rows == Step(old(ledger.rows), a)
  {
    match a
    case ReserveCall(kind, call) =>
      var reservation := ledger.Reserve(kind, call);
    case CloseCall(reservation, success) =>
      var error := ledger.Terminal(reservation, success);
  }

  function Run(actions: seq<Action>): seq<Row> {
    if actions == [] then [] else Step(Run(actions[..|actions| - 1]), actions[|actions| - 1])
  }

  /** New calls get identifiers that no earlier call had. */
  ghost predicate FreshIds(actions: seq<Action>) {
    forall i :: 0 <= i < |actions| && actions[i].ReserveCall? ==> actions[i].call !in StartedCalls(Run(actions[..i]))
  }

  ghost predicate WithinLimits(rows: seq<Row>) {
    forall kind :: StartedOf(rows, kind) <= Limit(kind)
  }

  lemma CountAppend(rows: seq<Row>, r: Row, p: Row -> bool)
    ensures Count(rows + [r], p) == Count(rows, p) + if p(r) then 1 else 0
  {
    assert (rows + [r])[..|rows|] == rows;
  }

  lemma CallsAppend(rows: seq<Row>, r: Row)
    ensures (rows + [r])[..|rows|] == rows
    ensures StartedCalls(rows + [r]) == StartedCalls(rows) + if r.Started? then {r.call} else {}
    ensures ClosedCalls(rows + [r]) == ClosedCalls(rows) + if IsTerminal(r) then {r.call} else {}
  {
    RowAdds(rows + [r], |rows|);
    assert (rows + [r])[..|rows|] == rows;
    assert (rows + [r])[..|rows| + 1] == rows + [r];
  }

  // ----- Counting the rows of a well-formed trace -----

  /** A call is started at most once, closed at most once, and closed only when started. */
  lemma {:induction false} CallsAreCountedOnce(rows: seq<Row>, call: CallId)
    requires WellFormed(rows)
    ensures StartsOfCall(rows, call) == if call in StartedCalls(rows) then 1 else 0
    ensures TerminalsOfCall(rows, call) == if call in ClosedCalls(rows) then 1 else 0
    ensures call in ClosedCalls(rows) ==> call in StartedCalls(rows)
  {
    if rows != [] {
      var front, last := rows[..|rows| - 1], rows[|rows| - 1];
      CallsAreCountedOnce(front, call);
      assert rows == front + [last];
      CallsAppend(front, last);
    }
  }

  lemma {:induction false} RowsAreCalls(rows: seq<Row>)
    requires WellFormed(rows)
    ensures StartedTotal(rows) == |StartedCalls(rows)|
    ensures Count(rows, (r: Row) => r.Succeeded?) + Count(rows, (r: Row) => r.Failed?) == |ClosedCalls(rows)|
  {
    if rows != [] {
      var front, last := rows[..|rows| - 1], rows[|rows| - 1];
      RowsAreCalls(front);
      assert rows == front + [last];
      CallsAppend(front, last);
    }
  }

  /** Every started call has succeeded, failed or is unknown. */
  lemma OutcomesAddUp(rows: seq<Row>)
    requires WellFormed(rows)
    ensures var s := SummaryOf(rows); s.started == s.succeeded + s.failed + s.unknown
  {
    RowsAreCalls(rows);
    forall call | call in ClosedCalls(rows)
      ensures call in StartedCalls(rows)
    {
      CallsAreCountedOnce(rows, call);
    }
    var open, closed := StartedCalls(rows) - ClosedCalls(rows), ClosedCalls(rows);
    assert StartedCalls(rows) == open + closed;
    assert open !! closed;
  }

  lemma {:induction false} KindsAddUp(rows: seq<Row>)
    ensures StartedTotal(rows)
            == StartedOf(rows, Generation) + StartedOf(rows, SemanticExtraction) + StartedOf(rows, EmbeddingBatch)
  {
    if rows != [] {
      KindsAddUp(rows[..|rows| - 1]);
    }
  }

  /** The kind limits sum to the total limit, so the total check never blocks a call that its kind allows. */
  lemma TotalCheckNeverBinds(rows: seq<Row>, kind: Kind)
    requires WithinLimits(rows)
    ensures MayStart(rows, kind) <==> StartedOf(rows, kind) < Limit(kind)
  {
    KindsAddUp(rows);
    assert StartedOf(rows, Generation) <= Limit(Generation);
    assert StartedOf(rows, SemanticExtraction) <= Limit(SemanticExtraction);
    assert StartedOf(rows, EmbeddingBatch) <= Limit(EmbeddingBatch);
  }

  // ----- Reachable ledgers -----

  lemma StepKeepsLimits(rows: seq<Row>, a: Action)
    requires WithinLimits(rows)
    ensures WithinLimits(Step(rows, a))
  {
    var after := Step(rows, a);
    forall kind
      ensures StartedOf(after, kind) <= Limit(kind)
    {
      assert StartedOf(rows, kind) <= Limit(kind);
      if |after| > |rows| {
        CountAppend(rows, after[|rows|], (r: Row) => r.Started? && r.kind == kind);
      }
    }
  }

  lemma StepKeepsWellFormed(rows: seq<Row>, a: Action)
    requires WellFormed(rows) && (a.ReserveCall? ==> a.call !in StartedCalls(rows))
    ensures WellFormed(Step(rows, a))
  {
    var after := Step(rows, a);
    if a.CloseCall? {
      CallsAreCountedOnce(rows, a.reservation.call);
    }
    if |after| > |rows| {
      CallsAppend(rows, after[|rows|]);
    }
  }

  lemma {:induction false} ReachableTracesAreSound(actions: seq<Action>)
    requires FreshIds(actions)
    ensures WellFormed(Run(actions)) && WithinLimits(Run(actions))
  {
    if actions != [] {
      var n := |actions| - 1;
      forall i | 0 <= i < n && actions[..n][i].ReserveCall?
        ensures actions[..n][i].call !in StartedCalls(Run(actions[..n][..i]))
      {
        assert actions[..n][..i] == actions[..i];
      }
      ReachableTracesAreSound(actions[..n]);
      StepKeepsLimits(Run(actions[..n]), actions[n]);
      StepKeepsWellFormed(Run(actions[..n]), actions[n]);
    }
  }

  /** In every reachable ledger each kind and the total stay within their limits, every started call is
      accounted for, and opening it again succeeds exactly when no outcome is unknown. */
  lemma ReachableLedgers(actions: seq<Action>)
    requires FreshIds(actions)
    ensures var rows := Run(actions);
            && (forall kind :: StartedOf(rows, kind) <= Limit(kind)) && StartedTotal(rows) <= TOTAL_LIMIT
            && SummaryOf(rows).started == SummaryOf(rows).succeeded + SummaryOf(rows).failed + SummaryOf(rows).unknown
            && (WellFormed(rows) && StartedCalls(rows) <= ClosedCalls(rows) <==> SummaryOf(rows).unknown == 0)
  {
    var rows := Run(actions);
    ReachableTracesAreSound(actions);
    OutcomesAddUp(rows);
    KindsAddUp(rows);
    assert StartedOf(rows, Generation) <= Limit(Generation);
    assert StartedOf(rows, SemanticExtraction) <= Limit(SemanticExtraction);
    assert StartedOf(rows, EmbeddingBatch) <= Limit(EmbeddingBatch);
    NothingLeft(StartedCalls(rows), ClosedCalls(rows));
  }

  /** A terminal is accepted exactly for a call that is open. */
  lemma OnlyOpenCallsClose(actions: seq<Action>, call: CallId)
    requires FreshIds(actions)
    ensures var rows := Run(actions); MayClose(rows, call) <==> call in StartedCalls(rows) - ClosedCalls(rows)
  {
    ReachableTracesAreSound(actions);
    CallsAreCountedOnce(Run(actions), call);
  }

  // ----- The approved numbers -----

  function StartPlaces(rows: seq<Row>, kinds: set<Kind>): set<nat> {
    set i: nat | i < |rows| && rows[i].Started? && rows[i].kind in kinds
  }

  function PlacesOf(rows: seq<Row>, succeeded: bool): set<nat> {
    set i: nat | i < |rows| && if succeeded then rows[i].Succeeded? else rows[i].Failed?
  }

  const ALL_KINDS: set<Kind> := {Generation, SemanticExtraction, EmbeddingBatch}

  lemma {:induction false} CountIsPlaces(rows: seq<Row>, p: Row -> bool, places: set<nat>)
    requires forall i: nat :: i in places <==> i < |rows| && p(rows[i])
    ensures Count(rows, p) == |places|
  {
    if rows == [] {
      assert places == {};
    } else {
      var n := |rows| - 1;
      CountIsPlaces(rows[..n], p, places - {n});
      assert places == places - {n} + if p(rows[n]) then {n} else {};
    }
  }

  lemma StartsAreCounted(rows: seq<Row>, kind: Kind)
    ensures StartedOf(rows, kind) == |StartPlaces(rows, {kind})|
    ensures StartedTotal(rows) == |StartPlaces(rows, ALL_KINDS)|
  {
    assert forall k: Kind :: k in ALL_KINDS <==> k.Generation? || k.SemanticExtraction? || k.EmbeddingBatch?;
    CountIsPlaces(rows, (r: Row) => r.Started? && r.kind == kind, StartPlaces(rows, {kind}));
    CountIsPlaces(rows, (r: Row) => r.Started?, StartPlaces(rows, ALL_KINDS));
  }

  lemma OutcomesAreCounted(rows: seq<Row>)
    ensures SummaryOf(rows).succeeded == |PlacesOf(rows, true)| && SummaryOf(rows).failed == |PlacesOf(rows, false)|
    ensures SummaryOf(rows).started == |StartPlaces(rows, ALL_KINDS)|
  {
    StartsAreCounted(rows, Generation);
    CountIsPlaces(rows, (r: Row) => r.Succeeded?, PlacesOf(rows, true));
    CountIsPlaces(rows, (r: Row) => r.Failed?, PlacesOf(rows, false));
  }

  /** At most 528 generations, 144 extractions and 120 embedding batches are ever started, 792 calls in all; and a
      further call is started exactly while its kind is below its number. */
  lemma ApprovedNumbers(actions: seq<Action>, kind: Kind)
    requires FreshIds(actions)
    ensures var rows := Run(actions);
            && |StartPlaces(rows, {Generation})| <= 528 && |StartPlaces(rows, {SemanticExtraction})| <= 144
            && |StartPlaces(rows, {EmbeddingBatch})| <= 120 && |StartPlaces(rows, ALL_KINDS)| <= 792
            && (MayStart(rows, kind) <==>
                  |StartPlaces(rows, {kind})|
                  < match kind case Generation => 528 case SemanticExtraction => 144 case EmbeddingBatch => 120)
  {
    var rows := Run(actions);
    ReachableLedgers(actions);
    ReachableTracesAreSound(actions);
    StartsAreCounted(rows, Generation);
    StartsAreCounted(rows, SemanticExtraction);
    StartsAreCounted(rows, EmbeddingBatch);
    TotalCheckNeverBinds(rows, kind);
    assert StartedOf(rows, Generation) <= Limit(Generation);
    assert StartedOf(rows, SemanticExtraction) <= Limit(SemanticExtraction);
    assert StartedOf(rows, EmbeddingBatch) <= Limit(EmbeddingBatch);
  }
}
