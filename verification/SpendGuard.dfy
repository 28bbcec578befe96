/** The reserve-before-dispatch spend guard and the ledger that several stages may share.
    Money is exact; the ledger's entries are the events whose chain has verified. */
module SpendGuard {
  import opened Wrappers
  import opened Texts
  import opened Numerals

  type Usd = real

  datatype Pricing = Pricing(inputPerMillion: Usd, outputPerMillion: Usd) {
    function Cost(inputTokens: int, outputTokens: int): Usd {
      (inputTokens as real * inputPerMillion + outputTokens as real * outputPerMillion) / 1000000.0
    }
  }

  datatype Entry =
    | Reservation(callId: Text, usd: Usd, maxInput: int, maxOutput: int, attempts: int)
    | CallResult(callId: Text, charge: Option<Usd>)
    | OtherEvent

  datatype Usage = Usage(inputTokens: int, outputTokens: int)

  datatype SpendError = InvalidCaps | InvalidBounds | Refused | DuplicateReservation | ResultWithoutReservation

  /** Open reservations in the order of the dictionary. */
  type Open = seq<(Text, Usd)>

  datatype Totals = Totals(committed: Usd, open: Open, ordinal: nat) {
    function Spent(): Usd {
      committed + Sum(open)
    }
  }

  function Sum(open: Open): Usd {
    if open == [] then 0.0 else Sum(open[..|open| - 1]) + open[|open| - 1].1
  }

  function Find(open: Open, id: Text): (r: Option<nat>)
    ensures r.Some? ==> r.value < |open| && open[r.value].0 == id
    ensures r.None? ==> forall i :: 0 <= i < |open| ==> open[i].0 != id
  {
    if open == [] then None
    else
      var n := |open| - 1;
      if open[n].0 == id then Some(n) else Find(open[..n], id)
  }

  function Without(open: Open, i: nat): Open
    requires i < |open|
  {
    open[..i] + open[i + 1..]
  }

  /** One event of `_state`. */
  function Account(t: Totals, e: Entry): Result<Totals, SpendError> {
    match e
    case Reservation(id, usd, _, _, _) =>
      if Find(t.open, id).Some? then Failure(DuplicateReservation)
      else Success(t.(open := t.open + [(id, usd)], ordinal := t.ordinal + 1))
    case CallResult(id, charge) =>
      (match Find(t.open, id)
       case None => Failure(ResultWithoutReservation)
       case Some(i) =>
         var paid := if charge.Some? then charge.value else t.open[i].1;
         Success(t.(committed := t.committed + paid, open := Without(t.open, i))))
    case OtherEvent => Success(t)
  }

  function StateOf(entries: seq<Entry>): Result<Totals, SpendError> {
    if entries == [] then Success(Totals(0.0, [], 0))
    else
      match StateOf(entries[..|entries| - 1])
      case Failure(e) => Failure(e)
      case Success(t) => Account(t, entries[|entries| - 1])
  }

  datatype Guard = Guard(stage: Text, ceiling: Usd, subCap: Usd, pricing: Pricing) {
    function Budget(): Usd {
      if ceiling <= subCap then ceiling else subCap
    }

    predicate ValidCaps() {
      0.0 < subCap <= ceiling
    }
  }

  function CallId(stage: Text, ordinal: nat): Text {
    stage + [0x2D] + Padded(ordinal, 6)
  }

  function Proposal(g: Guard, t: Totals, maxInput: int, maxOutput: int, attempts: int): Entry {
    Reservation(CallId(g.stage, t.ordinal), g.pricing.Cost(maxInput, maxOutput) * attempts as real,
                maxInput, maxOutput, attempts)
  }

  /** The reservation that `reserve` records on this ledger, or why it refuses. */
  function Decide(g: Guard, entries: seq<Entry>, maxInput: int, maxOutput: int, attempts: int)
    : Result<Entry, SpendError>
  {
    if maxInput < 0 || maxOutput < 0 || attempts < 1 then Failure(InvalidBounds)
    else
      match StateOf(entries)
      case Failure(e) => Failure(e)
      case Success(t) =>
        var entry := Proposal(g, t, maxInput, maxOutput, attempts);
        if t.Spent() + entry.usd > g.Budget() then Failure(Refused) else Success(entry)
  }

  function ResultEntry(g: Guard, callId: Text, usage: Option<Usage>): Entry {
    CallResult(callId, match usage
      case None => None
      case Some(u) => Some(g.pricing.Cost(u.inputTokens, u.outputTokens)))
  }

  /** The ledger file. */
  class Ledger {
    var entries: seq<Entry>

    constructor ()
      ensures entries == []
    {
      entries := [];
    }
  }

  class SpendGuard {
    const guard: Guard
    const ledger: Ledger

    constructor (guard: Guard, ledger: Ledger)
      requires guard.ValidCaps()
      ensures this.guard == guard && this.ledger == ledger
    {
      this.guard, this.ledger := guard, ledger;
    }

    method State() returns (r: Result<Totals, SpendError>)
      ensures r == StateOf(ledger.entries)
    {
      var entries := ledger.entries;
      var committed: Usd, reserved: Open, ordinal := 0.0, [], 0;
      for k := 0 to |entries|
        invariant StateOf(entries[..k]) == Success(Totals(committed, reserved, ordinal))
      {
        assert entries[..k + 1][..k] == entries[..k];
        match entries[k]
        case Reservation(id, usd, _, _, _) =>
          if Find(reserved, id).Some? {
            FailureIsFinal(entries, k + 1);
            return Failure(DuplicateReservation);
          }
          reserved, ordinal := reserved + [(id, usd)], ordinal + 1;
        case CallResult(id, charge) =>
          var i := Find(reserved, id);
          if i.None? {
            FailureIsFinal(entries, k + 1);
            return Failure(ResultWithoutReservation);
          }
          committed := committed + if charge.Some? then charge.value else reserved[i.value].1;
          reserved := Without(reserved, i.value);
        case OtherEvent =>
      }
      assert entries[..|entries|] == entries;
      r := Success(Totals(committed, reserved, ordinal));
    }

    method Reserve(maxInput: int, maxOutput: int, attempts: int) returns (r: Result<Entry, SpendError>)
      modifies ledger
      ensures r == Decide(guard, old(ledger.entries), maxInput, maxOutput, attempts)
      ensures ledger.entries == if r.Success? then old(ledger.entries) + [r.value] else old(ledger.entries)
    {
      if maxInput < 0 || maxOutput < 0 || attempts < 1 {
        return Failure(InvalidBounds);
      }
      var state := State();
      if state.Failure? {
        return Failure(state.error);
      }
      var entry := Proposal(guard, state.value, maxInput, maxOutput, attempts);
      if state.value.Spent() + entry.usd > guard.Budget() {
        return Failure(Refused);
      }
      ledger.entries := ledger.entries + [entry];
      r := Success(entry);
    }

    method Settle(reservation: Entry, usage: Option<Usage>) returns (charged: Usd)
      requires reservation.Reservation?
      modifies ledger
      ensures ledger.entries == old(ledger.entries) + [ResultEntry(guard, reservation.callId, usage)]
      ensures charged == match usage
        case None => reservation.usd
        case Some(u) => guard.pricing.Cost(u.inputTokens, u.outputTokens)
    {
      var entry := ResultEntry(guard, reservation.callId, usage);
      ledger.entries := ledger.entries + [entry];
      charged := if entry.charge.Some? then entry.charge.value else reservation.usd;
    }
  }

  /** An inconsistent ledger stays unreadable whatever is appended to it. */
  lemma {:induction false} FailureIsFinal(entries: seq<Entry>, k: nat)
    requires k <= |entries| && StateOf(entries[..k]).Failure?
    ensures StateOf(entries) == Failure(StateOf(entries[..k]).error)
    decreases |entries| - k
  {
    if k < |entries| {
      assert entries[..k + 1][..k] == entries[..k];
      FailureIsFinal(entries, k + 1);
    } else {
      assert entries[..k] == entries;
    }
  }

  // ----- Validating a ledger afterwards -----

  datatype Report = Report(passed: bool, calls: nat, total: Usd)

  /** What `validate_ledger` has accumulated; its dictionary overwrites a repeated key. */
  datatype Audit = Audit(committed: Usd, open: Open, calls: nat, allFit: bool)

  function Put(open: Open, id: Text, usd: Usd): Open {
    match Find(open, id)
    case None => open + [(id, usd)]
    case Some(i) => open[i := (id, usd)]
  }

  /** One event of `validate_ledger`; None stands for its KeyError. */
  function AuditStep(a: Audit, e: Entry, budget: Usd): Option<Audit> {
    match e
    case Reservation(id, usd, _, _, _) =>
      Some(Audit(a.committed, Put(a.open, id, usd), a.calls + 1,
                 a.allFit && a.committed + Sum(a.open) + usd <= budget))
    case CallResult(id, charge) =>
      (match Find(a.open, id)
       case None => None
       case Some(i) =>
         var paid := if charge.Some? then charge.value else a.open[i].1;
         Some(a.(committed := a.committed + paid, open := Without(a.open, i))))
    case OtherEvent => Some(a)
  }

  function AuditOf(entries: seq<Entry>, budget: Usd): Option<Audit> {
    if entries == [] then Some(Audit(0.0, [], 0, true))
    else
      match AuditOf(entries[..|entries| - 1], budget)
      case None => None
      case Some(a) => AuditStep(a, entries[|entries| - 1], budget)
  }

  function Verdict(a: Audit, budget: Usd): Report {
    var total := a.committed + Sum(a.open);
    Report(a.allFit && total <= budget, a.calls, total)
  }

  function ReportOf(entries: seq<Entry>, ceiling: Usd, subCap: Usd): Option<Report> {
    var budget := if ceiling <= subCap then ceiling else subCap;
    match AuditOf(entries, budget)
    case None => None
    case Some(a) => Some(Verdict(a, budget))
  }

  lemma AuditGrows(entries: seq<Entry>, k: nat, a: Audit, budget: Usd)
    requires k < |entries| && AuditOf(entries[..k], budget) == Some(a)
    ensures AuditOf(entries[..k + 1], budget) == AuditStep(a, entries[k], budget)
  {
    assert entries[..k + 1][..k] == entries[..k];
  }

  method ValidateLedger(entries: seq<Entry>, ceiling: Usd, subCap: Usd) returns (r: Option<Report>)
    ensures r == ReportOf(entries, ceiling, subCap)
  {
    var budget := if ceiling <= subCap then ceiling else subCap;
    var audit := Audit(0.0, [], 0, true);
    for k := 0 to |entries|
      invariant AuditOf(entries[..k], budget) == Some(audit)
    {
      AuditGrows(entries, k, audit, budget);
      var next := AuditStep(audit, entries[k], budget);
      if next.None? {
        AuditFailureIsFinal(entries, k + 1, budget);
        return None;
      }
      audit := next.value;
    }
    assert entries[..|entries|] == entries;
    r := Some(Verdict(audit, budget));
  }

  lemma {:induction false} AuditFailureIsFinal(entries: seq<Entry>, k: nat, budget: Usd)
    requires k <= |entries| && AuditOf(entries[..k], budget).None?
    ensures AuditOf(entries, budget).None?
    decreases |entries| - k
  {
    if k < |entries| {
      assert entries[..k + 1][..k] == entries[..k];
      AuditFailureIsFinal(entries, k + 1, budget);
    } else {
      assert entries[..k] == entries;
    }
  }
}
