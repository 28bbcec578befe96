/** Any stages on one ledger, each with its own caps and its own prices: exactly which limits bound what
    all of them spend. The stages are listed in the order of their budgets. */
module StageBudgets {
  import opened Wrappers
  import opened Texts
  import opened SpendGuard
  import opened SpendHistory
  import opened SharedLedgers
  import opened Allotments

  // ----- Runs of the stages -----

  /** Valid caps, fair prices, different names, smaller budgets first. */
  ghost predicate Stages(gs: seq<Guard>) {
    && (forall k :: 0 <= k < |gs| ==> gs[k].ValidCaps() && FairPrices(gs[k].pricing))
    && (forall j, k :: 0 <= j < k < |gs| ==> gs[j].stage != gs[k].stage && gs[j].Budget() <= gs[k].Budget())
  }

  ghost predicate IssuedBy(g: Guard, id: Text) {
    exists ordinal: nat :: id == CallId(g.stage, ordinal)
  }

  /** A stage reserves, or settles an open call of its own within the tokens it reserved. */
  ghost predicate StageAction(gs: seq<Guard>, entries: seq<Entry>, a: Action) {
    a.guard in gs
    && (a.SettleCall? ==>
          && a.reservation in entries && a.reservation.Reservation?
          && IssuedBy(a.guard, a.reservation.callId) && !IsSettled(entries, a.reservation.callId)
          && (a.usage.Some? ==>
                0 <= a.usage.value.inputTokens <= a.reservation.maxInput
                && 0 <= a.usage.value.outputTokens <= a.reservation.maxOutput))
  }

  ghost predicate StageRun(gs: seq<Guard>, actions: seq<Action>) {
    actions == []
    || (StageRun(gs, actions[..|actions| - 1])
        && StageAction(gs, LedgerAfter(actions[..|actions| - 1]), actions[|actions| - 1]))
  }

  ghost predicate RunSpendsMore(gs: seq<Guard>, limit: Usd, actions: seq<Action>) {
    StageRun(gs, actions)
    && !(StateOf(LedgerAfter(actions)).Success? && StateOf(LedgerAfter(actions)).value.Spent() <= limit)
  }

  // ----- Amounts per stage -----

  function Budgets(gs: seq<Guard>): (r: seq<Usd>)
    ensures |r| == |gs| && forall k :: 0 <= k < |gs| ==> r[k] == gs[k].Budget()
  {
    if gs == [] then [] else Budgets(gs[..|gs| - 1]) + [gs[|gs| - 1].Budget()]
  }

  ghost predicate AllPriced(gs: seq<Guard>, xs: seq<Usd>) {
    |xs| == |gs| && forall k :: 0 <= k < |gs| ==> IsPrice(gs[k].pricing, xs[k])
  }

  /** Each amount is a price of its stage, and up to each stage they fit its budget. */
  ghost predicate Affordable(gs: seq<Guard>, xs: seq<Usd>) {
    AllPriced(gs, xs) && Fits(Budgets(gs), xs)
  }

  lemma PriceIsNoDebt(p: Pricing, usd: Usd)
    requires FairPrices(p) && IsPrice(p, usd)
    ensures usd >= 0.0
  {
    var input: nat, output: nat :| usd == p.Cost(input, output);
    FewerTokensCostLess(p, 0, 0, input, output);
    assert p.Cost(0, 0) == 0.0;
  }

  lemma PricesAreNoDebts(gs: seq<Guard>, xs: seq<Usd>)
    requires Stages(gs) && AllPriced(gs, xs)
    ensures NoDebts(xs)
  {
    forall k | 0 <= k < |xs|
      ensures xs[k] >= 0.0
    {
      PriceIsNoDebt(gs[k].pricing, xs[k]);
    }
  }

  // ----- What a stage holds open -----

  ghost function OpenShare(g: Guard, open: Open): Usd {
    if open == [] then 0.0
    else
      var n := |open| - 1;
      OpenShare(g, open[..n]) + if IssuedBy(g, open[n].0) then open[n].1 else 0.0
  }

  lemma OpenShareAppend(g: Guard, open: Open, id: Text, usd: Usd)
    ensures OpenShare(g, open + [(id, usd)]) == OpenShare(g, open) + if IssuedBy(g, id) then usd else 0.0
  {
    assert (open + [(id, usd)])[..|open|] == open;
  }

  lemma {:induction false} OpenShareWithout(g: Guard, open: Open, i: nat)
    requires i < |open|
    ensures OpenShare(g, Without(open, i)) == OpenShare(g, open) - if IssuedBy(g, open[i].0) then open[i].1 else 0.0
  {
    var n := |open| - 1;
    if i < n {
      OpenShareWithout(g, open[..n], i);
      assert Without(open, i) == Without(open[..n], i) + [open[n]];
      OpenShareAppend(g, Without(open[..n], i), open[n].0, open[n].1);
    } else {
      assert Without(open, i) == open[..n];
    }
  }

  lemma {:induction false} OpenShareIsPriced(g: Guard, open: Open)
    requires forall i :: 0 <= i < |open| && IssuedBy(g, open[i].0) ==> IsPrice(g.pricing, open[i].1)
    ensures IsPrice(g.pricing, OpenShare(g, open))
  {
    if open == [] {
      assert g.pricing.Cost(0, 0) == 0.0;
    } else {
      var n := |open| - 1;
      OpenShareIsPriced(g, open[..n]);
      if IssuedBy(g, open[n].0) {
        PricesAdd(g.pricing, OpenShare(g, open[..n]), open[n].1);
      }
    }
  }

  lemma OneIssuer(gs: seq<Guard>, j: nat, k: nat, id: Text)
    requires Stages(gs) && j < |gs| && k < |gs| && IssuedBy(gs[j], id) && IssuedBy(gs[k], id)
    ensures j == k
  {
    var m: nat :| id == CallId(gs[j].stage, m);
    var n: nat :| id == CallId(gs[k].stage, n);
    CallIdsDiffer(gs[j].stage, m, gs[k].stage, n);
  }

  // ----- The accounts of a ledger -----

  /** What each stage has committed and holds open. */
  ghost predicate AreShares(gs: seq<Guard>, open: Open, committed: seq<Usd>, xs: seq<Usd>) {
    |committed| == |gs| == |xs|
    && forall k :: 0 <= k < |gs| ==> xs[k] == committed[k] + OpenShare(gs[k], open)
  }

  /** Reservations of these stages are priced by the stage that issued them. */
  ghost predicate StagePriced(gs: seq<Guard>, entries: seq<Entry>) {
    forall r, k :: r in entries && r.Reservation? && 0 <= k < |gs| && IssuedBy(gs[k], r.callId)
      ==> WithinReservation(gs[k].pricing, r, None)
  }

  ghost predicate OpenPriced(gs: seq<Guard>, open: Open) {
    forall i, k :: 0 <= i < |open| && 0 <= k < |gs| && IssuedBy(gs[k], open[i].0) ==> IsPrice(gs[k].pricing, open[i].1)
  }

  ghost predicate Books(gs: seq<Guard>, entries: seq<Entry>, committed: seq<Usd>) {
    Orderly(entries) && StagePriced(gs, entries) && AllPriced(gs, committed)
    && OpenPriced(gs, StateOf(entries).value.open)
  }

  /** The shares fit the budgets, and they make up the spending. */
  ghost predicate Balanced(gs: seq<Guard>, t: Totals, committed: seq<Usd>, xs: seq<Usd>) {
    AreShares(gs, t.open, committed, xs) && Fits(Budgets(gs), xs) && Total(xs) == t.Spent()
  }

  lemma SharesArePriced(gs: seq<Guard>, open: Open, committed: seq<Usd>, xs: seq<Usd>)
    requires AllPriced(gs, committed) && OpenPriced(gs, open) && AreShares(gs, open, committed, xs)
    ensures AllPriced(gs, xs)
  {
    forall k | 0 <= k < |gs|
      ensures IsPrice(gs[k].pricing, xs[k])
    {
      OpenShareIsPriced(gs[k], open);
      PricesAdd(gs[k].pricing, committed[k], OpenShare(gs[k], open));
    }
  }

  lemma SharesAfterReserve(gs: seq<Guard>, open: Open, committed: seq<Usd>, xs: seq<Usd>, j: nat, id: Text, usd: Usd)
    requires Stages(gs) && AreShares(gs, open, committed, xs) && j < |gs| && IssuedBy(gs[j], id)
    ensures AreShares(gs, open + [(id, usd)], committed, xs[j := xs[j] + usd])
  {
    forall k | 0 <= k < |gs|
      ensures xs[j := xs[j] + usd][k] == committed[k] + OpenShare(gs[k], open + [(id, usd)])
    {
      OpenShareAppend(gs[k], open, id, usd);
      if IssuedBy(gs[k], id) {
        OneIssuer(gs, j, k, id);
      }
    }
  }

  lemma SharesAfterSettle(gs: seq<Guard>, open: Open, committed: seq<Usd>, xs: seq<Usd>, j: nat, i: nat, paid: Usd)
    requires Stages(gs) && AreShares(gs, open, committed, xs) && j < |gs| && i < |open| && IssuedBy(gs[j], open[i].0)
    ensures AreShares(gs, Without(open, i), committed[j := committed[j] + paid], xs[j := xs[j] - open[i].1 + paid])
  {
    forall k | 0 <= k < |gs|
      ensures xs[j := xs[j] - open[i].1 + paid][k]
              == committed[j := committed[j] + paid][k] + OpenShare(gs[k], Without(open, i))
    {
      OpenShareWithout(gs[k], open, i);
      if IssuedBy(gs[k], open[i].0) {
        OneIssuer(gs, j, k, open[i].0);
      }
    }
  }

  lemma BudgetsAscend(gs: seq<Guard>)
    requires Stages(gs)
    ensures Ascending(Budgets(gs))
  {
  }

  /** A reservation that fits the budget of its stage keeps the balance. */
  lemma ReserveBalances(
      gs: seq<Guard>, t: Totals, committed: seq<Usd>, xs: seq<Usd>, j: nat, id: Text, usd: Usd, ordinal: nat)
    requires Stages(gs) && Balanced(gs, t, committed, xs) && NoDebts(xs) && usd >= 0.0
    requires j < |gs| && IssuedBy(gs[j], id) && t.Spent() + usd <= gs[j].Budget()
    ensures Balanced(gs, Totals(t.committed, t.open + [(id, usd)], ordinal), committed, xs[j := xs[j] + usd])
  {
    BudgetsAscend(gs);
    SharesAfterReserve(gs, t.open, committed, xs, j, id, usd);
    RaiseFits(Budgets(gs), xs, j, xs[j] + usd);
    SumAppend(t.open, id, usd);
  }

  /** A settlement that costs no more than was reserved keeps the balance. */
  lemma SettleBalances(
      gs: seq<Guard>, t: Totals, committed: seq<Usd>, xs: seq<Usd>, j: nat, i: nat, paid: Usd, ordinal: nat)
    requires Stages(gs) && Balanced(gs, t, committed, xs)
    requires j < |gs| && i < |t.open| && IssuedBy(gs[j], t.open[i].0) && paid <= t.open[i].1
    ensures Balanced(gs, Totals(t.committed + paid, Without(t.open, i), ordinal),
                     committed[j := committed[j] + paid], xs[j := xs[j] - t.open[i].1 + paid])
  {
    SharesAfterSettle(gs, t.open, committed, xs, j, i, paid);
    FallFits(Budgets(gs), xs, j, xs[j] - t.open[i].1 + paid);
    SumWithout(t.open, i);
  }

  // ----- Every run keeps its books -----

  lemma ReserveKeepsBooks(gs: seq<Guard>, entries: seq<Entry>, committed: seq<Usd>, j: nat, e: Entry)
    requires Stages(gs) && Books(gs, entries, committed) && Orderly(entries + [e]) && j < |gs|
    requires e.Reservation? && IssuedBy(gs[j], e.callId)
    requires WithinReservation(gs[j].pricing, e, None) && IsPrice(gs[j].pricing, e.usd)
    ensures Books(gs, entries + [e], committed)
  {
    StateAfter(entries, e);
    forall k | 0 <= k < |gs| && IssuedBy(gs[k], e.callId)
      ensures k == j
    {
      OneIssuer(gs, j, k, e.callId);
    }
    assert forall r :: r in entries + [e] <==> r in entries || r == e;
  }

  lemma SettleKeepsBooks(gs: seq<Guard>, entries: seq<Entry>, committed: seq<Usd>, j: nat, e: Entry, paid: Usd)
    requires Books(gs, entries, committed) && Orderly(entries + [e]) && j < |gs|
    requires e.CallResult? && Find(StateOf(entries).value.open, e.callId).Some? && IsPrice(gs[j].pricing, paid)
    ensures Books(gs, entries + [e], committed[j := committed[j] + paid])
  {
    var open := StateOf(entries).value.open;
    StateAfter(entries, e);
    RestIsPriced(gs, open, Find(open, e.callId).value);
    PricesAdd(gs[j].pricing, committed[j], paid);
    assert forall r :: r in entries + [e] <==> r in entries || r == e;
  }

  lemma RestIsPriced(gs: seq<Guard>, open: Open, i: nat)
    requires OpenPriced(gs, open) && i < |open|
    ensures OpenPriced(gs, Without(open, i))
  {
    var rest := Without(open, i);
    assert forall n :: 0 <= n < |rest| ==> rest[n] == open[if n < i then n else n + 1];
  }

  /** What a ledger must keep for the books to balance. */
  ghost predicate Accounts(gs: seq<Guard>, entries: seq<Entry>, committed: seq<Usd>, xs: seq<Usd>) {
    Books(gs, entries, committed) && Balanced(gs, StateOf(entries).value, committed, xs)
  }

  /** What the books of stage j must know of a reservation. */
  ghost predicate Issued(gs: seq<Guard>, entries: seq<Entry>, j: nat, e: Entry)
    requires j < |gs|
  {
    && e.Reservation? && IssuedBy(gs[j], e.callId)
    && WithinReservation(gs[j].pricing, e, None) && IsPrice(gs[j].pricing, e.usd)
    && Orderly(entries) && Orderly(entries + [e]) && StateOf(entries).value.Spent() + e.usd <= gs[j].Budget()
  }

  lemma DecisionIsOrdered(g: Guard, entries: seq<Entry>, maxInput: int, maxOutput: int, attempts: int, e: Entry)
    requires Orderly(entries) && Decide(g, entries, maxInput, maxOutput, attempts) == Success(e)
    ensures IssuedBy(g, e.callId) && Orderly(entries + [e])
  {
    ReserveKeepsOrder(g, entries, maxInput, maxOutput, attempts);
    assert e.callId == CallId(g.stage, StateOf(entries).value.ordinal);
  }

  /** A stage that asks for a reservation leaves the ledger alone or adds one that it issued. */
  lemma Outcome(gs: seq<Guard>, entries: seq<Entry>, a: Action, j: nat) returns (issued: Option<Entry>)
    requires Stages(gs) && Orderly(entries) && a.ReserveCall? && j < |gs| && a.guard == gs[j]
    ensures issued.None? ==> NextLedger(entries, a) == entries
    ensures issued.Some? ==> NextLedger(entries, a) == entries + [issued.value] && Issued(gs, entries, j, issued.value)
  {
    var decision := Decide(a.guard, entries, a.maxInput, a.maxOutput, a.attempts);
    if decision.Failure? {
      return None;
    }
    var e := decision.value;
    DecisionIsOrdered(a.guard, entries, a.maxInput, a.maxOutput, a.attempts, e);
    DecisionIsPriced(a.guard, entries, a.maxInput, a.maxOutput, a.attempts);
    issued := Some(e);
  }

  lemma StateAfterReservation(entries: seq<Entry>, e: Entry)
    requires e.Reservation? && StateOf(entries).Success? && StateOf(entries + [e]).Success?
    ensures var t := StateOf(entries).value;
            StateOf(entries + [e]).value == Totals(t.committed, t.open + [(e.callId, e.usd)], t.ordinal + 1)
  {
    StateAfter(entries, e);
  }

  lemma StageIsPaid(gs: seq<Guard>, open: Open, committed: seq<Usd>, xs: seq<Usd>, j: nat, usd: Usd)
    requires Stages(gs) && AllPriced(gs, committed) && OpenPriced(gs, open) && AreShares(gs, open, committed, xs)
    requires j < |gs| && IsPrice(gs[j].pricing, usd)
    ensures NoDebts(xs) && usd >= 0.0
  {
    SharesArePriced(gs, open, committed, xs);
    PricesAreNoDebts(gs, xs);
    PriceIsNoDebt(gs[j].pricing, usd);
  }

  lemma ReservationBalances(
      gs: seq<Guard>, entries: seq<Entry>, e: Entry, j: nat, committed: seq<Usd>, xs: seq<Usd>)
    requires Stages(gs) && StateOf(entries).Success? && StateOf(entries + [e]).Success?
    requires Balanced(gs, StateOf(entries).value, committed, xs) && NoDebts(xs)
    requires j < |gs| && e.Reservation? && IssuedBy(gs[j], e.callId) && e.usd >= 0.0
    requires StateOf(entries).value.Spent() + e.usd <= gs[j].Budget()
    ensures Balanced(gs, StateOf(entries + [e]).value, committed, xs[j := xs[j] + e.usd])
  {
    var t := StateOf(entries).value;
    ReserveBalances(gs, t, committed, xs, j, e.callId, e.usd, t.ordinal + 1);
    StateAfterReservation(entries, e);
  }

  lemma ReservationAccounted(
      gs: seq<Guard>, entries: seq<Entry>, e: Entry, j: nat, committed: seq<Usd>, xs: seq<Usd>)
    requires Stages(gs) && Accounts(gs, entries, committed, xs) && j < |gs| && Issued(gs, entries, j, e)
    ensures Accounts(gs, entries + [e], committed, xs[j := xs[j] + e.usd])
  {
    var t := StateOf(entries).value;
    StageIsPaid(gs, t.open, committed, xs, j, e.usd);
    ReservationBalances(gs, entries, e, j, committed, xs);
    ReserveKeepsBooks(gs, entries, committed, j, e);
  }

  lemma ReservedAndOpen(entries: seq<Entry>, r: Entry)
    requires Orderly(entries) && r in entries && r.Reservation? && !IsSettled(entries, r.callId)
    ensures Find(StateOf(entries).value.open, r.callId).Some?
  {
    OpenMeansUnsettled(entries, r.callId);
  }

  /** What a stage pays for a call of its own is priced and covered by the reservation. */
  lemma PaymentIsCovered(gs: seq<Guard>, entries: seq<Entry>, a: Action, j: nat) returns (paid: Usd)
    requires StagePriced(gs, entries) && Orderly(entries) && OpenPriced(gs, StateOf(entries).value.open)
    requires a.SettleCall? && StageAction(gs, entries, a) && j < |gs| && a.guard == gs[j]
    requires Find(StateOf(entries).value.open, a.reservation.callId).Some?
    ensures var r, e := a.reservation, ResultEntry(a.guard, a.reservation.callId, a.usage);
            paid == (if e.charge.Some? then e.charge.value else r.usd) && paid <= r.usd
            && IsPrice(gs[j].pricing, paid)
  {
    var r := a.reservation;
    var e := ResultEntry(a.guard, r.callId, a.usage);
    ChargeIsCovered(a.guard, r, a.usage);
    OpenAmount(entries, r);
    paid := if e.charge.Some? then e.charge.value else r.usd;
  }

  lemma SettlementAccounted(
      gs: seq<Guard>, entries: seq<Entry>, r: Entry, charge: Option<Usd>, paid: Usd, j: nat,
      committed: seq<Usd>, xs: seq<Usd>) returns (ys: seq<Usd>)
    requires Stages(gs) && Accounts(gs, entries, committed, xs) && j < |gs|
    requires r in entries && r.Reservation? && IssuedBy(gs[j], r.callId)
    requires Find(StateOf(entries).value.open, r.callId).Some?
    requires paid == (if charge.Some? then charge.value else r.usd) && paid <= r.usd && IsPrice(gs[j].pricing, paid)
    ensures Accounts(gs, entries + [CallResult(r.callId, charge)], committed[j := committed[j] + paid], ys)
  {
    var t, e := StateOf(entries).value, CallResult(r.callId, charge);
    var i := Find(t.open, r.callId).value;
    OpenAmount(entries, r);
    SettleKeepsOrder(entries, r, charge);
    StateAfter(entries, e);
    SettleBalances(gs, t, committed, xs, j, i, paid, t.ordinal);
    SettleKeepsBooks(gs, entries, committed, j, e, paid);
    ys := xs[j := xs[j] - t.open[i].1 + paid];
  }

  lemma SettleKeepsAccounts(gs: seq<Guard>, entries: seq<Entry>, a: Action, j: nat, committed: seq<Usd>, xs: seq<Usd>)
    returns (after: seq<Usd>, ys: seq<Usd>)
    requires Stages(gs) && Accounts(gs, entries, committed, xs) && a.SettleCall? && StageAction(gs, entries, a)
    requires j < |gs| && a.guard == gs[j]
    ensures Accounts(gs, NextLedger(entries, a), after, ys)
  {
    ReservedAndOpen(entries, a.reservation);
    var paid := PaymentIsCovered(gs, entries, a, j);
    var e := ResultEntry(a.guard, a.reservation.callId, a.usage);
    ys := SettlementAccounted(gs, entries, a.reservation, e.charge, paid, j, committed, xs);
    after := committed[j := committed[j] + paid];
  }

  lemma NothingSpent(gs: seq<Guard>) returns (committed: seq<Usd>)
    requires Stages(gs)
    ensures Accounts(gs, [], committed, committed)
  {
    committed := seq(|gs|, k requires 0 <= k < |gs| => 0.0);
    forall k | 0 <= k < |gs|
      ensures IsPrice(gs[k].pricing, committed[k]) && Prefix(committed, k + 1) <= Budgets(gs)[k]
    {
      assert gs[k].pricing.Cost(0, 0) == 0.0;
      NothingAddsUp(committed, k + 1);
    }
    NothingAddsUp(committed, |gs|);
  }

  ghost predicate HasAccounts(gs: seq<Guard>, entries: seq<Entry>) {
    exists committed, xs :: Accounts(gs, entries, committed, xs)
  }

  lemma IssuedKeepsAccounts(gs: seq<Guard>, entries: seq<Entry>, e: Entry, j: nat)
    requires Stages(gs) && HasAccounts(gs, entries) && j < |gs| && Issued(gs, entries, j, e)
    ensures HasAccounts(gs, entries + [e])
  {
    var committed, xs :| Accounts(gs, entries, committed, xs);
    ReservationAccounted(gs, entries, e, j, committed, xs);
  }

  lemma SettledKeepsAccounts(gs: seq<Guard>, entries: seq<Entry>, a: Action, j: nat)
    requires Stages(gs) && HasAccounts(gs, entries) && a.SettleCall? && StageAction(gs, entries, a)
    requires j < |gs| && a.guard == gs[j]
    ensures HasAccounts(gs, NextLedger(entries, a))
  {
    var committed, xs :| Accounts(gs, entries, committed, xs);
    var after, ys := SettleKeepsAccounts(gs, entries, a, j, committed, xs);
  }

  lemma AccountsAreOrderly(gs: seq<Guard>, entries: seq<Entry>)
    requires HasAccounts(gs, entries)
    ensures Orderly(entries)
  {
    var committed, xs :| Accounts(gs, entries, committed, xs);
  }

  lemma StepKeepsAccounts(gs: seq<Guard>, entries: seq<Entry>, a: Action)
    requires Stages(gs) && HasAccounts(gs, entries) && StageAction(gs, entries, a)
    ensures HasAccounts(gs, NextLedger(entries, a))
  {
    var j :| 0 <= j < |gs| && gs[j] == a.guard;
    if a.ReserveCall? {
      AccountsAreOrderly(gs, entries);
      var issued := Outcome(gs, entries, a, j);
      if issued.Some? {
        IssuedKeepsAccounts(gs, entries, issued.value, j);
      }
    } else {
      SettledKeepsAccounts(gs, entries, a, j);
    }
  }

  lemma {:induction false} RunsKeepAccounts(gs: seq<Guard>, actions: seq<Action>)
    requires Stages(gs) && StageRun(gs, actions)
    ensures HasAccounts(gs, LedgerAfter(actions))
  {
    if actions == [] {
      var committed := NothingSpent(gs);
    } else {
      RunsKeepAccounts(gs, actions[..|actions| - 1]);
      StepKeepsAccounts(gs, LedgerAfter(actions[..|actions| - 1]), actions[|actions| - 1]);
    }
  }

  // ----- Every affordable allotment is spent by a run -----

  lemma OneMoreCall(gs: seq<Guard>, before: seq<Action>, k: nat, input: nat, output: nat) returns (actions: seq<Action>)
    requires k < |gs| && StageRun(gs, before) && Orderly(LedgerAfter(before))
    requires StateOf(LedgerAfter(before)).value.Spent() + gs[k].pricing.Cost(input, output) <= gs[k].Budget()
    ensures StageRun(gs, actions) && Orderly(LedgerAfter(actions))
    ensures StateOf(LedgerAfter(actions)).value.Spent()
            == StateOf(LedgerAfter(before)).value.Spent() + gs[k].pricing.Cost(input, output)
  {
    var a := ReserveCall(gs[k], input, output, 1);
    actions := before + [a];
    assert actions[..|before|] == before;
    CallSpends(gs[k], LedgerAfter(before), input, output);
  }

  lemma TokensFor(p: Pricing, usd: Usd) returns (input: nat, output: nat)
    requires IsPrice(p, usd)
    ensures usd == p.Cost(input, output)
  {
    input, output :| usd == p.Cost(input, output);
  }

  /** The stages reserve their amounts in turn, one call each. */
  lemma {:induction false} PlanSpends(gs: seq<Guard>, xs: seq<Usd>, k: nat) returns (actions: seq<Action>)
    requires k <= |gs| && Affordable(gs, xs)
    ensures StageRun(gs, actions) && Orderly(LedgerAfter(actions))
    ensures StateOf(LedgerAfter(actions)).value.Spent() == Prefix(xs, k)
  {
    if k == 0 {
      actions := [];
    } else {
      actions := PlanSpends(gs, xs, k - 1);
      assert IsPrice(gs[k - 1].pricing, xs[k - 1]) && Prefix(xs, k) <= Budgets(gs)[k - 1];
      var input, output := TokensFor(gs[k - 1].pricing, xs[k - 1]);
      actions := OneMoreCall(gs, actions, k - 1, input, output);
    }
  }

  /** Some run of the stages spends more than the limit exactly when amounts they can price, each within the
      budget of its stage together with those of smaller budgets, add up to more. */
  lemma StagesCanSpend(gs: seq<Guard>, limit: Usd)
    requires Stages(gs)
    ensures (exists actions :: RunSpendsMore(gs, limit, actions))
            <==> (exists xs :: Affordable(gs, xs) && Total(xs) > limit)
  {
    if actions :| RunSpendsMore(gs, limit, actions) {
      RunsKeepAccounts(gs, actions);
      var committed, xs :| Accounts(gs, LedgerAfter(actions), committed, xs);
      SharesArePriced(gs, StateOf(LedgerAfter(actions)).value.open, committed, xs);
      assert Affordable(gs, xs) && Total(xs) > limit;
    }
    if xs :| Affordable(gs, xs) && Total(xs) > limit {
      var actions := PlanSpends(gs, xs, |gs|);
      assert RunSpendsMore(gs, limit, actions);
    }
  }
}
