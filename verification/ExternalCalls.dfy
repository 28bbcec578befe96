/** The external-call ledger: hard limits per kind and in total, and a trace of terminal outcomes. */
module ExternalCalls {
  import opened Wrappers

  datatype Kind = Generation | SemanticExtraction | EmbeddingBatch

  type CallId = nat

  datatype Row =
    | Started(kind: Kind, call: CallId)
    | Succeeded(kind: Kind, call: CallId)
    | Failed(kind: Kind, call: CallId)
    | BudgetBlocked(kind: Kind)

  datatype CallError =
    | BudgetExceeded
    | TerminalInconsistent
    | DuplicateStart
    | OrphanOrDuplicateTerminal
    | UnknownOutcome

  datatype Reservation = Reservation(kind: Kind, call: CallId)

  // The operator-approved limits, which a manifest must state exactly.
  const GENERATION_LIMIT: nat := 528
  const EXTRACTION_LIMIT: nat := 144
  const EMBEDDING_LIMIT: nat := 120
  const TOTAL_LIMIT: nat := 792

  function Limit(kind: Kind): nat {
    match kind
    case Generation => GENERATION_LIMIT
    case SemanticExtraction => EXTRACTION_LIMIT
    case EmbeddingBatch => EMBEDDING_LIMIT
  }

  predicate IsTerminal(r: Row) {
    r.Succeeded? || r.Failed?
  }

  function Count(rows: seq<Row>, p: Row -> bool): nat {
    if rows == [] then 0
    else Count(rows[..|rows| - 1], p) + if p(rows[|rows| - 1]) then 1 else 0
  }

  function StartedOf(rows: seq<Row>, kind: Kind): nat {
    Count(rows, (r: Row) => r.Started? && r.kind == kind)
  }

  function StartedTotal(rows: seq<Row>): nat {
    Count(rows, (r: Row) => r.Started?)
  }

  predicate MayStart(rows: seq<Row>, kind: Kind) {
    StartedOf(rows, kind) < Limit(kind) && StartedTotal(rows) < TOTAL_LIMIT
  }

  function StartsOfCall(rows: seq<Row>, call: CallId): nat {
    Count(rows, (r: Row) => r.Started? && r.call == call)
  }

  function TerminalsOfCall(rows: seq<Row>, call: CallId): nat {
    Count(rows, (r: Row) => IsTerminal(r) && r.call == call)
  }

  predicate MayClose(rows: seq<Row>, call: CallId) {
    StartsOfCall(rows, call) == 1 && TerminalsOfCall(rows, call) == 0
  }

  function StartedCalls(rows: seq<Row>): set<CallId> {
    set r | r in rows && r.Started? :: r.call
  }

  function ClosedCalls(rows: seq<Row>): set<CallId> {
    set r | r in rows && IsTerminal(r) :: r.call
  }

  /** Every start is the first of its call, and every terminal the first after its start. */
  predicate WellFormed(rows: seq<Row>) {
    if rows == [] then true
    else
      var front, last := rows[..|rows| - 1], rows[|rows| - 1];
      WellFormed(front)
      && match last
         case Started(_, call) => call !in StartedCalls(front)
         case Succeeded(_, call) => call in StartedCalls(front) && call !in ClosedCalls(front)
         case Failed(_, call) => call in StartedCalls(front) && call !in ClosedCalls(front)
         case BudgetBlocked(_) => true
  }

  class ExternalCallLedger {
    var rows: seq<Row>

    constructor (rows: seq<Row>)
      ensures this.rows == rows
    {
      this.rows := rows;
    }

    /** What opening a ledger checks about the rows it finds. */
    method ValidateTrace() returns (error: Option<CallError>)
      ensures error.None? <==> WellFormed(rows) && StartedCalls(rows) <= ClosedCalls(rows)
      ensures error == Some(UnknownOutcome) <==> WellFormed(rows) && !(StartedCalls(rows) <= ClosedCalls(rows))
    {
      var starts: set<CallId>, terminals: set<CallId> := {}, {};
      for k := 0 to |rows|
        invariant WellFormed(rows[..k])
        invariant starts == StartedCalls(rows[..k]) && terminals == ClosedCalls(rows[..k])
      {
        RowAdds(rows, k);
        var row := rows[k];
        if row.Started? {
          if row.call in starts {
            MalformedStaysSo(rows, k + 1);
            return Some(DuplicateStart);
          }
          starts := starts + {row.call};
        } else if IsTerminal(row) {
          if row.call !in starts || row.call in terminals {
            MalformedStaysSo(rows, k + 1);
            return Some(OrphanOrDuplicateTerminal);
          }
          terminals := terminals + {row.call};
        }
      }
      assert rows[..|rows|] == rows;
      NothingLeft(starts, terminals);
      error := if starts - terminals != {} then Some(UnknownOutcome) else None;
    }

    /** `call` is the fresh identifier that an accepted reservation gets. */
    method Reserve(kind: Kind, call: CallId) returns (r: Result<Reservation, CallError>)
      modifies this
      ensures if MayStart(old(rows), kind) then
          r == Success(Reservation(kind, call)) && rows == old(rows) + [Started(kind, call)]
        else r == Failure(BudgetExceeded) && rows == old(rows) + [BudgetBlocked(kind)]
    {
      if StartedOf(rows, kind) >= Limit(kind) || StartedTotal(rows) >= TOTAL_LIMIT {
        rows := rows + [BudgetBlocked(kind)];
        return Failure(BudgetExceeded);
      }
      rows := rows + [Started(kind, call)];
      r := Success(Reservation(kind, call));
    }

    method Terminal(call: Reservation, success: bool) returns (error: Option<CallError>)
      modifies this
      ensures if MayClose(old(rows), call.call) then
          error == None
          && rows == old(rows) + [if success then Succeeded(call.kind, call.call) else Failed(call.kind, call.call)]
        else error == Some(TerminalInconsistent) && rows == old(rows)
    {
      if StartsOfCall(rows, call.call) != 1 || TerminalsOfCall(rows, call.call) != 0 {
        return Some(TerminalInconsistent);
      }
      rows := rows + [if success then Succeeded(call.kind, call.call) else Failed(call.kind, call.call)];
      error := None;
    }
  }

  lemma NothingLeft(a: set<CallId>, b: set<CallId>)
    ensures a - b == {} <==> a <= b
  {
    if a - b == {} {
      forall x | x in a
        ensures x in b
      {
        assert x in b || x in a - b;
      }
    }
  }

  lemma RowAdds(rows: seq<Row>, k: nat)
    requires k < |rows|
    ensures rows[..k + 1][..k] == rows[..k]
    ensures StartedCalls(rows[..k + 1]) == StartedCalls(rows[..k]) + if rows[k].Started? then {rows[k].call} else {}
    ensures ClosedCalls(rows[..k + 1]) == ClosedCalls(rows[..k]) + if IsTerminal(rows[k]) then {rows[k].call} else {}
  {
    assert rows[..k + 1] == rows[..k] + [rows[k]];
    assert forall r :: r in rows[..k + 1] <==> r in rows[..k] || r == rows[k];
  }

  lemma {:induction false} MalformedStaysSo(rows: seq<Row>, k: nat)
    requires k <= |rows| && !WellFormed(rows[..k])
    ensures !WellFormed(rows)
    decreases |rows| - k
  {
    if k < |rows| {
      assert rows[..k + 1][..k] == rows[..k];
      MalformedStaysSo(rows, k + 1);
    } else {
      assert rows[..k] == rows;
    }
  }

  datatype Summary = Summary(started: nat, succeeded: nat, failed: nat, unknown: nat)

  function SummaryOf(rows: seq<Row>): Summary {
    Summary(StartedTotal(rows), Count(rows, (r: Row) => r.Succeeded?), Count(rows, (r: Row) => r.Failed?),
            |StartedCalls(rows) - ClosedCalls(rows)|)
  }
}
