/** Every sequential run of reservations, settlements and crashes over a ledger that stages share. */
module SpendHistory {
  import opened Wrappers
  import opened Texts
  import opened Numerals
  import opened SpendGuard

  // ----- Call identifiers -----

  lemma DigitsAfterDash(a: Text, p: Text, b: Text, q: Text)
    requires AllDigits(p) && AllDigits(q) && a + [0x2D] + p == b + [0x2D] + q
    ensures p == q && a == b
  {
    var s, t := a + [0x2D] + p, b + [0x2D] + q;
    assert s[|a|] == 0x2D && t[|b|] == 0x2D;
    NoDashAfter(a, p);
    NoDashAfter(b, q);
    assert |a| == |b|;
    assert p == s[|a| + 1..] && q == t[|b| + 1..];
    assert a == s[..|a|] && b == t[..|b|];
  }

  lemma NoDashAfter(a: Text, p: Text)
    requires AllDigits(p)
    ensures forall i :: |a| < i < |a| + 1 + |p| ==> (a + [0x2D] + p)[i] != 0x2D
  {
    forall i | |a| < i < |a| + 1 + |p|
      ensures (a + [0x2D] + p)[i] != 0x2D
    {
      assert (a + [0x2D] + p)[i] == p[i - |a| - 1];
    }
  }

  /** An identifier determines its stage and its ordinal, whatever the stage names are. */
  lemma CallIdsDiffer(stage: Text, ordinal: nat, stage': Text, ordinal': nat)
    requires CallId(stage, ordinal) == CallId(stage', ordinal')
    ensures ordinal == ordinal' && stage == stage'
  {
    DigitsAfterDash(stage, Padded(ordinal, 6), stage', Padded(ordinal', 6));
    PaddedRoundTrip(ordinal, 6);
    PaddedRoundTrip(ordinal', 6);
  }

  // ----- Sums over open reservations -----

  lemma SumAppend(open: Open, id: Text, usd: Usd)
    ensures Sum(open + [(id, usd)]) == Sum(open) + usd
  {
    assert (open + [(id, usd)])[..|open|] == open;
  }

  lemma {:induction false} SumWithout(open: Open, i: nat)
    requires i < |open|
    ensures Sum(Without(open, i)) == Sum(open) - open[i].1
  {
    var n := |open| - 1;
    if i < n {
      SumWithout(open[..n], i);
      assert Without(open, i) == Without(open[..n], i) + [open[n]];
      SumAppend(Without(open[..n], i), open[n].0, open[n].1);
    } else {
      assert Without(open, i) == open[..n];
    }
  }

  // ----- Orderly ledgers -----

  ghost predicate IssuedBefore(id: Text, n: nat) {
    exists stage, k: nat :: k < n && id == CallId(stage, k)
  }

  ghost predicate HasReservation(entries: seq<Entry>, id: Text, usd: Usd) {
    exists i :: 0 <= i < |entries| && entries[i].Reservation? && entries[i].callId == id && entries[i].usd == usd
  }

  ghost predicate DistinctCalls(entries: seq<Entry>) {
    forall i, j :: 0 <= i < j < |entries| && entries[i].Reservation? && entries[j].Reservation?
      ==> entries[i].callId != entries[j].callId
  }

  /** Readable, with every identifier issued once and every open amount backed by its reservation. */
  ghost predicate Orderly(entries: seq<Entry>) {
    && StateOf(entries).Success?
    && var t := StateOf(entries).value;
    && DistinctCalls(entries) && DistinctKeys(t.open)
    && (forall i :: 0 <= i < |entries| && entries[i].Reservation? ==> IssuedBefore(entries[i].callId, t.ordinal))
    && (forall i :: 0 <= i < |t.open| ==> HasReservation(entries, t.open[i].0, t.open[i].1))
  }

  lemma StateAfter(entries: seq<Entry>, e: Entry)
    ensures StateOf(entries + [e]) ==
      match StateOf(entries)
      case Failure(x) => Failure(x)
      case Success(t) => Account(t, e)
  {
    assert (entries + [e])[..|entries|] == entries;
  }

  lemma ReservationsOf(entries: seq<Entry>, e: Entry, id: Text, usd: Usd)
    ensures HasReservation(entries, id, usd) ==> HasReservation(entries + [e], id, usd)
    ensures e.Reservation? && e.callId == id && e.usd == usd ==> HasReservation(entries + [e], id, usd)
  {
    var after := entries + [e];
    if HasReservation(entries, id, usd) {
      var i :| 0 <= i < |entries| && entries[i].Reservation? && entries[i].callId == id && entries[i].usd == usd;
      assert after[i] == entries[i];
    }
    assert after[|entries|] == e;
  }

  lemma ReserveKeepsOrder(g: Guard, entries: seq<Entry>, maxInput: int, maxOutput: int, attempts: int)
    requires Orderly(entries)
    requires Decide(g, entries, maxInput, maxOutput, attempts).Success?
    ensures var e := Decide(g, entries, maxInput, maxOutput, attempts).value;
            && Orderly(entries + [e])
            && var t, u := StateOf(entries).value, StateOf(entries + [e]).value;
            && u.ordinal == t.ordinal + 1 && u.committed == t.committed
            && u.Spent() == t.Spent() + e.usd
  {
    var e := Decide(g, entries, maxInput, maxOutput, attempts).value;
    var t := StateOf(entries).value;
    var after := entries + [e];
    StateAfter(entries, e);
    forall i | 0 <= i < |entries| && entries[i].Reservation?
      ensures entries[i].callId != e.callId && IssuedBefore(entries[i].callId, t.ordinal + 1)
    {
      var stage, k: nat :| k < t.ordinal && entries[i].callId == CallId(stage, k);
      if entries[i].callId == e.callId {
        CallIdsDiffer(stage, k, g.stage, t.ordinal);
      }
    }
    forall i | 0 <= i < |t.open|
      ensures t.open[i].0 != e.callId
    {
      assert HasReservation(entries, t.open[i].0, t.open[i].1);
    }
    assert IssuedBefore(e.callId, t.ordinal + 1);
    SumAppend(t.open, e.callId, e.usd);
    var u := StateOf(after).value;
    forall i | 0 <= i < |u.open|
      ensures HasReservation(after, u.open[i].0, u.open[i].1)
    {
      ReservationsOf(entries, e, u.open[i].0, u.open[i].1);
    }
  }

  ghost predicate IsReserved(entries: seq<Entry>, id: Text) {
    exists i :: 0 <= i < |entries| && entries[i].Reservation? && entries[i].callId == id
  }

  ghost predicate IsSettled(entries: seq<Entry>, id: Text) {
    exists i :: 0 <= i < |entries| && entries[i].CallResult? && entries[i].callId == id
  }

  lemma MarksAppend(entries: seq<Entry>, e: Entry, id: Text)
    ensures IsReserved(entries + [e], id) <==> IsReserved(entries, id) || (e.Reservation? && e.callId == id)
    ensures IsSettled(entries + [e], id) <==> IsSettled(entries, id) || (e.CallResult? && e.callId == id)
  {
    var after := entries + [e];
    assert after[|entries|] == e;
    assert forall i :: 0 <= i < |entries| ==> after[i] == entries[i];
  }

  lemma FindAppend(open: Open, key: Text, usd: Usd, id: Text)
    ensures Find(open + [(key, usd)], id).Some? <==> key == id || Find(open, id).Some?
  {
    assert (open + [(key, usd)])[..|open|] == open;
  }

  lemma FindWithout(open: Open, k: nat, id: Text)
    requires k < |open| && DistinctKeys(open)
    ensures DistinctKeys(Without(open, k))
    ensures Find(Without(open, k), id).Some? <==> open[k].0 != id && Find(open, id).Some?
  {
    WithoutIsSmaller(open, k);
    var rest := Without(open, k);
    if Find(open, id).Some? && open[k].0 != id {
      var i := Find(open, id).value;
      assert rest[if i < k then i else i - 1].0 == id;
    }
  }

  /** A call is open exactly from its reservation to its first result. */
  lemma {:induction false} OpenMeansUnsettled(entries: seq<Entry>, id: Text)
    requires StateOf(entries).Success? && DistinctCalls(entries)
    ensures DistinctKeys(StateOf(entries).value.open)
    ensures Find(StateOf(entries).value.open, id).Some? <==> IsReserved(entries, id) && !IsSettled(entries, id)
    ensures IsSettled(entries, id) ==> IsReserved(entries, id)
  {
    if entries != [] {
      var front, e := entries[..|entries| - 1], entries[|entries| - 1];
      assert entries == front + [e];
      OpenMeansUnsettled(front, id);
      MarksAppend(front, e, id);
      OpenStep(front, e, id);
    }
  }

  lemma OpenStep(front: seq<Entry>, e: Entry, id: Text)
    requires StateOf(front + [e]).Success? && StateOf(front).Success? && DistinctCalls(front + [e])
    requires DistinctKeys(StateOf(front).value.open)
    ensures var t, u := StateOf(front).value, StateOf(front + [e]).value;
            && DistinctKeys(u.open)
            && (e.Reservation? && e.callId == id ==> !IsReserved(front, id))
            && (e.CallResult? && e.callId == id ==> Find(t.open, id).Some?)
            && (Find(u.open, id).Some? <==>
                  if !e.OtherEvent? && e.callId == id then e.Reservation? else Find(t.open, id).Some?)
  {
    var t := StateOf(front).value;
    StateAfter(front, e);
    assert (front + [e])[|front|] == e;
    assert forall i :: 0 <= i < |front| ==> (front + [e])[i] == front[i];
    if e.Reservation? {
      FindAppend(t.open, e.callId, e.usd, id);
    } else if e.CallResult? {
      FindWithout(t.open, Find(t.open, e.callId).value, id);
    }
  }

  /** Settling leaves the ledger readable exactly when the call was reserved and has no result yet. */
  lemma SettleNeedsOpenCall(entries: seq<Entry>, id: Text, charge: Option<Usd>)
    requires StateOf(entries).Success? && DistinctCalls(entries)
    ensures StateOf(entries + [CallResult(id, charge)]).Success? <==> IsReserved(entries, id) && !IsSettled(entries, id)
    ensures StateOf(entries + [CallResult(id, charge)]).Success? <==> Find(StateOf(entries).value.open, id).Some?
  {
    StateAfter(entries, CallResult(id, charge));
    OpenMeansUnsettled(entries, id);
  }

  /** The amount held open for a call is the amount of its reservation. */
  lemma OpenAmount(entries: seq<Entry>, r: Entry)
    requires Orderly(entries) && r in entries && r.Reservation?
    requires Find(StateOf(entries).value.open, r.callId).Some?
    ensures var t := StateOf(entries).value; t.open[Find(t.open, r.callId).value] == (r.callId, r.usd)
  {
    var t := StateOf(entries).value;
    var k := Find(t.open, r.callId).value;
    assert HasReservation(entries, t.open[k].0, t.open[k].1);
    var i :| 0 <= i < |entries| && entries[i].Reservation?
             && entries[i].callId == r.callId && entries[i].usd == t.open[k].1;
    var j :| 0 <= j < |entries| && entries[j] == r;
    assert i == j;
  }

  lemma WithoutIsSmaller(open: Open, k: nat)
    requires k < |open| && DistinctKeys(open)
    ensures DistinctKeys(Without(open, k))
    ensures forall i :: 0 <= i < |open| - 1 ==> Without(open, k)[i] == open[if i < k then i else i + 1]
    ensures Find(Without(open, k), open[k].0).None?
  {
  }

  lemma ResultKeepsReservations(entries: seq<Entry>, e: Entry)
    requires Orderly(entries) && e.CallResult? && StateOf(entries + [e]).Success?
    requires StateOf(entries + [e]).value.ordinal == StateOf(entries).value.ordinal
    ensures DistinctCalls(entries + [e])
    ensures forall i :: 0 <= i < |entries + [e]| && (entries + [e])[i].Reservation? ==>
      IssuedBefore((entries + [e])[i].callId, StateOf(entries).value.ordinal)
  {
    var after := entries + [e];
    assert after[|entries|] == e;
    assert forall i :: 0 <= i < |entries| ==> after[i] == entries[i];
  }

  lemma SettleKeepsOrder(entries: seq<Entry>, r: Entry, charge: Option<Usd>)
    requires Orderly(entries) && r in entries && r.Reservation?
    requires Find(StateOf(entries).value.open, r.callId).Some?
    ensures var e := CallResult(r.callId, charge);
            && Orderly(entries + [e])
            && var t, u := StateOf(entries).value, StateOf(entries + [e]).value;
            && u.ordinal == t.ordinal
            && u.Spent() == t.Spent() - r.usd + (if charge.Some? then charge.value else r.usd)
            && Find(u.open, r.callId).None?
  {
    var e := CallResult(r.callId, charge);
    var t := StateOf(entries).value;
    var k := Find(t.open, r.callId).value;
    StateAfter(entries, e);
    OpenAmount(entries, r);
    SumWithout(t.open, k);
    WithoutIsSmaller(t.open, k);
    ResultKeepsReservations(entries, e);
    var u := StateOf(entries + [e]).value;
    forall i | 0 <= i < |u.open|
      ensures HasReservation(entries + [e], u.open[i].0, u.open[i].1)
    {
      ReservationsOf(entries, e, u.open[i].0, u.open[i].1);
    }
  }

  // ----- Runs -----

  datatype Action =
    | ReserveCall(guard: Guard, maxInput: int, maxOutput: int, attempts: int)
    | SettleCall(guard: Guard, reservation: Entry, usage: Option<Usage>)

  /** A crash is a reservation that no later action settles. */
  function NextLedger(entries: seq<Entry>, a: Action): seq<Entry> {
    match a
    case ReserveCall(g, maxInput, maxOutput, attempts) =>
      (match Decide(g, entries, maxInput, maxOutput, attempts)
       case Success(e) => entries + [e]
       case Failure(_) => entries)
    case SettleCall(g, r, usage) =>
      if r.Reservation? then entries + [ResultEntry(g, r.callId, usage)] else entries
  }

  /** The call that an action stands for has the effect of the step. */
  method Perform(ledger: Ledger, a: Action)
    requires a.guard.ValidCaps() && (a.SettleCall? ==> a.reservation.Reservation?)
    modifies ledger
    ensures ledger.entries == NextLedger(old(ledger.entries), a)
  {
    var guard := new SpendGuard(a.guard, ledger);
    match a
    case ReserveCall(_, maxInput, maxOutput, attempts) =>
      var reservation := guard.Reserve(maxInput, maxOutput, attempts);
    case SettleCall(_, reservation, usage) =>
      var charged := guard.Settle(reservation, usage);
  }

  ghost predicate FairPrices(p: Pricing) {
    p.inputPerMillion >= 0.0 && p.outputPerMillion >= 0.0
  }

  /** Prices are not negative, caps are within the bound, and a call is settled at most once, by the
      stage that reserved it, with usage inside the reserved token bounds. */
  ghost predicate Lawful(bound: Usd, entries: seq<Entry>, a: Action) {
    match a
    case ReserveCall(g, _, _, _) => FairPrices(g.pricing) && g.ValidCaps() && g.Budget() <= bound
    case SettleCall(g, r, usage) =>
      && r in entries && r.Reservation? && WithinReservation(g.pricing, r, usage)
      && StateOf(entries).Success? && Find(StateOf(entries).value.open, r.callId).Some?
  }

  /** The reservation was priced with these prices, and the usage stays inside its token bounds. */
  ghost predicate WithinReservation(p: Pricing, r: Entry, usage: Option<Usage>)
    requires r.Reservation?
  {
    && FairPrices(p)
    && r.attempts >= 1 && r.maxInput >= 0 && r.maxOutput >= 0
    && r.usd == p.Cost(r.maxInput, r.maxOutput) * r.attempts as real
    && (usage.Some? ==> usage.value.inputTokens <= r.maxInput && usage.value.outputTokens <= r.maxOutput)
  }

  lemma ChargeIsCovered(g: Guard, r: Entry, usage: Option<Usage>)
    requires r.Reservation? && WithinReservation(g.pricing, r, usage)
    ensures var e := ResultEntry(g, r.callId, usage); e.charge.Some? ==> e.charge.value <= r.usd
  {
    if usage.Some? {
      CostIsMonotone(g.pricing, usage.value.inputTokens, usage.value.outputTokens, r.maxInput, r.maxOutput, r.attempts);
    }
  }

  ghost predicate LawfulRun(bound: Usd, actions: seq<Action>) {
    actions == []
    || (LawfulRun(bound, actions[..|actions| - 1])
        && Lawful(bound, LedgerAfter(actions[..|actions| - 1]), actions[|actions| - 1]))
  }

  function LedgerAfter(actions: seq<Action>): seq<Entry> {
    if actions == [] then []
    else NextLedger(LedgerAfter(actions[..|actions| - 1]), actions[|actions| - 1])
  }

  lemma ScaleMonotone(a: int, b: int, price: real)
    requires a <= b && price >= 0.0
    ensures a as real * price <= b as real * price
  {
    assert (b - a) as real * price >= 0.0;
    assert b as real * price - a as real * price == (b - a) as real * price;
  }

  lemma FewerTokensCostLess(p: Pricing, input: int, output: int, maxInput: int, maxOutput: int)
    requires FairPrices(p) && input <= maxInput && output <= maxOutput
    ensures p.Cost(input, output) <= p.Cost(maxInput, maxOutput)
  {
    ScaleMonotone(input, maxInput, p.inputPerMillion);
    ScaleMonotone(output, maxOutput, p.outputPerMillion);
  }

  lemma RetriesCostMore(cost: Usd, attempts: int)
    requires cost >= 0.0 && attempts >= 1
    ensures cost <= cost * attempts as real
  {
    ScaleMonotone(1, attempts, cost);
  }

  lemma CostIsMonotone(p: Pricing, input: int, output: int, maxInput: int, maxOutput: int, attempts: int)
    requires FairPrices(p) && input <= maxInput && output <= maxOutput
    requires maxInput >= 0 && maxOutput >= 0 && attempts >= 1
    ensures p.Cost(input, output) <= p.Cost(maxInput, maxOutput) * attempts as real
  {
    FewerTokensCostLess(p, input, output, maxInput, maxOutput);
    FewerTokensCostLess(p, 0, 0, maxInput, maxOutput);
    RetriesCostMore(p.Cost(maxInput, maxOutput), attempts);
  }

  /** At every reservation, what was spent before it and the reservation fit the bound. */
  ghost predicate EveryCallFits(entries: seq<Entry>, bound: Usd) {
    forall k :: 0 <= k < |entries| && entries[k].Reservation? ==>
      StateOf(entries[..k]).Success? && StateOf(entries[..k]).value.Spent() + entries[k].usd <= bound
  }

  lemma FitsGrows(entries: seq<Entry>, e: Entry, bound: Usd)
    requires EveryCallFits(entries, bound)
    requires e.Reservation? ==> StateOf(entries).Success? && StateOf(entries).value.Spent() + e.usd <= bound
    ensures EveryCallFits(entries + [e], bound)
  {
    var after := entries + [e];
    forall k | 0 <= k < |after| && after[k].Reservation?
      ensures StateOf(after[..k]).Success? && StateOf(after[..k]).value.Spent() + after[k].usd <= bound
    {
      if k < |entries| {
        assert after[..k] == entries[..k] && after[k] == entries[k];
      } else {
        assert after[..k] == entries;
      }
    }
  }

  ghost predicate WithinBudget(bound: Usd, entries: seq<Entry>) {
    Orderly(entries) && StateOf(entries).value.Spent() <= bound && EveryCallFits(entries, bound)
  }

  lemma LawfulReserve(bound: Usd, entries: seq<Entry>, a: Action)
    requires a.ReserveCall? && WithinBudget(bound, entries) && Lawful(bound, entries, a)
    ensures WithinBudget(bound, NextLedger(entries, a))
  {
    var decision := Decide(a.guard, entries, a.maxInput, a.maxOutput, a.attempts);
    if decision.Success? {
      ReserveKeepsOrder(a.guard, entries, a.maxInput, a.maxOutput, a.attempts);
      FitsGrows(entries, decision.value, bound);
    }
  }

  lemma SettleWithin(bound: Usd, entries: seq<Entry>, r: Entry, charge: Option<Usd>)
    requires WithinBudget(bound, entries) && r in entries && r.Reservation?
    requires Find(StateOf(entries).value.open, r.callId).Some?
    requires charge.Some? ==> charge.value <= r.usd
    ensures WithinBudget(bound, entries + [CallResult(r.callId, charge)])
  {
    SettleKeepsOrder(entries, r, charge);
    FitsGrows(entries, CallResult(r.callId, charge), bound);
  }

  lemma LawfulSettle(bound: Usd, entries: seq<Entry>, a: Action)
    requires a.SettleCall? && WithinBudget(bound, entries) && Lawful(bound, entries, a)
    ensures WithinBudget(bound, NextLedger(entries, a))
  {
    ChargeIsCovered(a.guard, a.reservation, a.usage);
    var e := ResultEntry(a.guard, a.reservation.callId, a.usage);
    SettleWithin(bound, entries, a.reservation, e.charge);
  }

  /** Committed plus unresolved never exceeds the bound, and no call identifier is ever issued twice. */
  lemma {:induction false} SpendStaysWithinBudget(bound: Usd, actions: seq<Action>)
    requires bound >= 0.0 && LawfulRun(bound, actions)
    ensures var entries := LedgerAfter(actions);
            Orderly(entries) && StateOf(entries).value.Spent() <= bound && EveryCallFits(entries, bound)
  {
    if actions != [] {
      var before, a := LedgerAfter(actions[..|actions| - 1]), actions[|actions| - 1];
      SpendStaysWithinBudget(bound, actions[..|actions| - 1]);
      if a.ReserveCall? {
        LawfulReserve(bound, before, a);
      } else {
        LawfulSettle(bound, before, a);
      }
    }
  }

  // ----- The validator agrees with the guard -----

  /** On a readable ledger the validator finds the guard's totals, and passes it exactly when every
      call fitted as it was dispatched and the total fits. */
  lemma {:induction false} AuditAgrees(entries: seq<Entry>, budget: Usd)
    requires StateOf(entries).Success?
    ensures var t := StateOf(entries).value;
            AuditOf(entries, budget) == Some(Audit(t.committed, t.open, t.ordinal, EveryCallFits(entries, budget)))
  {
    if entries != [] {
      var front, e := entries[..|entries| - 1], entries[|entries| - 1];
      AuditAgrees(front, budget);
      assert entries == front + [e];
      FitsAppend(front, e, budget);
      AuditStepAgrees(StateOf(front).value, e, budget, EveryCallFits(front, budget));
    }
  }

  lemma AuditStepAgrees(t: Totals, e: Entry, budget: Usd, fits: bool)
    requires Account(t, e).Success?
    ensures var u := Account(t, e).value;
            AuditStep(Audit(t.committed, t.open, t.ordinal, fits), e, budget)
            == Some(Audit(u.committed, u.open, u.ordinal, fits && (e.Reservation? ==> t.Spent() + e.usd <= budget)))
  {
  }

  lemma FitsAppend(entries: seq<Entry>, e: Entry, bound: Usd)
    requires StateOf(entries).Success?
    ensures EveryCallFits(entries + [e], bound) <==>
      EveryCallFits(entries, bound) && (e.Reservation? ==> StateOf(entries).value.Spent() + e.usd <= bound)
  {
    var after := entries + [e];
    assert after[|entries|] == e && after[..|entries|] == entries;
    if EveryCallFits(after, bound) {
      FitsShrinks(entries, e, bound);
    } else if EveryCallFits(entries, bound) && (e.Reservation? ==> StateOf(entries).value.Spent() + e.usd <= bound) {
      FitsGrows(entries, e, bound);
    }
  }

  lemma FitsShrinks(entries: seq<Entry>, e: Entry, bound: Usd)
    requires EveryCallFits(entries + [e], bound)
    ensures EveryCallFits(entries, bound)
  {
    var after := entries + [e];
    forall k | 0 <= k < |entries| && entries[k].Reservation?
      ensures StateOf(entries[..k]).Success? && StateOf(entries[..k]).value.Spent() + entries[k].usd <= bound
    {
      assert after[..k] == entries[..k] && after[k] == entries[k];
    }
  }

  lemma ReportAgrees(entries: seq<Entry>, ceiling: Usd, subCap: Usd)
    requires StateOf(entries).Success?
    ensures var t, budget := StateOf(entries).value, if ceiling <= subCap then ceiling else subCap;
            ReportOf(entries, ceiling, subCap)
            == Some(Report(EveryCallFits(entries, budget) && t.Spent() <= budget, t.ordinal, t.Spent()))
  {
    var budget := if ceiling <= subCap then ceiling else subCap;
    AuditAgrees(entries, budget);
    VerdictAgrees(StateOf(entries).value, EveryCallFits(entries, budget), budget);
  }

  lemma VerdictAgrees(t: Totals, fits: bool, budget: Usd)
    ensures Verdict(Audit(t.committed, t.open, t.ordinal, fits), budget)
            == Report(fits && t.Spent() <= budget, t.ordinal, t.Spent())
  {
  }

  /** The ledger of any lawful run passes validation against the bound, with the total the guard reports. */
  lemma LawfulLedgersPass(bound: Usd, actions: seq<Action>)
    requires bound >= 0.0 && LawfulRun(bound, actions)
    ensures var entries := LedgerAfter(actions);
            var report := ReportOf(entries, bound, bound);
            report.Some? && report.value.passed && StateOf(entries).Success?
            && report.value.total == StateOf(entries).value.Spent()
  {
    SpendStaysWithinBudget(bound, actions);
    ReportAgrees(LedgerAfter(actions), bound, bound);
  }

  /** Settling the same call twice makes the ledger unreadable for good. */
  lemma SecondSettlementIsFatal(
      entries: seq<Entry>, r: Entry, charge: Option<Usd>, again: Option<Usd>, more: seq<Entry>)
    requires Orderly(entries) && r in entries && r.Reservation?
    requires Find(StateOf(entries).value.open, r.callId).Some?
    ensures StateOf(entries + [CallResult(r.callId, charge)] + [CallResult(r.callId, again)] + more).Failure?
  {
    var once := entries + [CallResult(r.callId, charge)];
    SettleKeepsOrder(entries, r, charge);
    SettleNeedsOpenCall(once, r.callId, again);
    var twice := once + [CallResult(r.callId, again)];
    assert (twice + more)[..|twice|] == twice;
    FailureIsFinal(twice + more, |twice|);
  }
}
