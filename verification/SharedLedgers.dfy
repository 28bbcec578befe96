/** Stages with caps of their own on one ledger: exactly when a cap bounds what all of them spend. */
module SharedLedgers {
  import opened Wrappers
  import opened Texts
  import opened SpendGuard
  import opened SpendHistory

  // ----- Guards with one price list -----

  /** Guards with valid caps that price alike. */
  ghost predicate Sharing(guards: set<Guard>, p: Pricing) {
    FairPrices(p) && forall g :: g in guards ==> g.ValidCaps() && g.pricing == p
  }

  /** A guard reserves, or an open call is settled within the tokens it reserved. */
  ghost predicate GuardAction(guards: set<Guard>, entries: seq<Entry>, a: Action) {
    a.guard in guards
    && (a.SettleCall? ==>
          && a.reservation in entries && a.reservation.Reservation?
          && IsReserved(entries, a.reservation.callId) && !IsSettled(entries, a.reservation.callId)
          && (a.usage.Some? ==>
                0 <= a.usage.value.inputTokens <= a.reservation.maxInput
                && 0 <= a.usage.value.outputTokens <= a.reservation.maxOutput))
  }

  ghost predicate GuardRun(guards: set<Guard>, actions: seq<Action>) {
    actions == []
    || (GuardRun(guards, actions[..|actions| - 1])
        && GuardAction(guards, LedgerAfter(actions[..|actions| - 1]), actions[|actions| - 1]))
  }

  /** Some guard may reserve a call priced above the limit. */
  ghost predicate CanOvershoot(guards: set<Guard>, p: Pricing, limit: Usd) {
    exists g, input: nat, output: nat :: g in guards && Overshoots(g, p, limit, input, output)
  }

  predicate Overshoots(g: Guard, p: Pricing, limit: Usd, input: nat, output: nat) {
    limit < p.Cost(input, output) <= g.Budget()
  }

  /** An amount that is the price of some tokens. */
  ghost predicate IsPrice(p: Pricing, usd: Usd) {
    exists input: nat, output: nat :: usd == p.Cost(input, output)
  }

  lemma CostAdds(p: Pricing, i: nat, o: nat, i': nat, o': nat)
    ensures p.Cost(i, o) + p.Cost(i', o') == p.Cost(i + i', o + o')
  {
    var a, b := p.inputPerMillion, p.outputPerMillion;
    assert (i + i') as real * a == i as real * a + i' as real * a;
    assert (o + o') as real * b == o as real * b + o' as real * b;
  }

  lemma PricesAdd(p: Pricing, x: Usd, y: Usd)
    requires IsPrice(p, x) && IsPrice(p, y)
    ensures IsPrice(p, x + y)
  {
    var i: nat, o: nat :| x == p.Cost(i, o);
    var i': nat, o': nat :| y == p.Cost(i', o');
    CostAdds(p, i, o, i', o');
  }

  lemma {:induction false} RetriesArePriced(p: Pricing, input: nat, output: nat, attempts: nat)
    ensures IsPrice(p, p.Cost(input, output) * attempts as real)
  {
    var cost := p.Cost(input, output);
    if attempts == 0 {
      assert cost * 0.0 == p.Cost(0, 0);
    } else {
      RetriesArePriced(p, input, output, attempts - 1);
      PricesAdd(p, cost * (attempts - 1) as real, cost);
      assert cost * attempts as real == cost * (attempts - 1) as real + cost;
    }
  }

  /** Every amount on the ledger is the price of some tokens. */
  ghost predicate Metered(p: Pricing, t: Totals) {
    IsPrice(p, t.committed) && forall k :: 0 <= k < |t.open| ==> IsPrice(p, t.open[k].1)
  }

  lemma {:induction false} SumIsPriced(p: Pricing, open: Open)
    requires forall k :: 0 <= k < |open| ==> IsPrice(p, open[k].1)
    ensures IsPrice(p, Sum(open))
  {
    if open == [] {
      assert p.Cost(0, 0) == 0.0;
    } else {
      SumIsPriced(p, open[..|open| - 1]);
      PricesAdd(p, Sum(open[..|open| - 1]), open[|open| - 1].1);
    }
  }

  /** What these guards reserve is priced, with at least one attempt and no negative bound. */
  ghost predicate Priced(p: Pricing, entries: seq<Entry>) {
    forall r :: r in entries && r.Reservation? ==> WithinReservation(p, r, None)
  }

  ghost predicate Capped(p: Pricing, limit: Usd, entries: seq<Entry>) {
    && Orderly(entries) && Priced(p, entries)
    && Metered(p, StateOf(entries).value) && StateOf(entries).value.Spent() <= limit
  }

  /** A total with one more reservation is a price that a single call could have. */
  lemma TotalIsPriced(p: Pricing, t: Totals, usd: Usd)
    requires Metered(p, t) && IsPrice(p, usd)
    ensures IsPrice(p, t.Spent() + usd)
  {
    SumIsPriced(p, t.open);
    PricesAdd(p, t.committed, Sum(t.open));
    PricesAdd(p, t.Spent(), usd);
  }

  lemma PriceWithinLimit(guards: set<Guard>, p: Pricing, limit: Usd, g: Guard, usd: Usd)
    requires !CanOvershoot(guards, p, limit) && g in guards && IsPrice(p, usd) && usd <= g.Budget()
    ensures usd <= limit
  {
    var input: nat, output: nat :| usd == p.Cost(input, output);
    assert !Overshoots(g, p, limit, input, output);
  }

  lemma ProposalIsPriced(g: Guard, t: Totals, input: nat, output: nat, attempts: nat)
    requires FairPrices(g.pricing) && attempts >= 1
    ensures var e := Proposal(g, t, input, output, attempts);
            WithinReservation(g.pricing, e, None) && IsPrice(g.pricing, e.usd)
  {
    RetriesArePriced(g.pricing, input, output, attempts);
  }

  /** A reservation that was decided is priced and fits the budget of its guard. */
  lemma DecisionIsPriced(g: Guard, entries: seq<Entry>, maxInput: int, maxOutput: int, attempts: int)
    requires FairPrices(g.pricing) && Decide(g, entries, maxInput, maxOutput, attempts).Success?
    ensures var e := Decide(g, entries, maxInput, maxOutput, attempts).value;
            && e.Reservation? && WithinReservation(g.pricing, e, None) && IsPrice(g.pricing, e.usd)
            && StateOf(entries).value.Spent() + e.usd <= g.Budget()
  {
    ProposalIsPriced(g, StateOf(entries).value, maxInput, maxOutput, attempts);
  }

  lemma ReservationIsMetered(p: Pricing, entries: seq<Entry>, e: Entry)
    requires StateOf(entries).Success? && StateOf(entries + [e]).Success? && Priced(p, entries)
    requires Metered(p, StateOf(entries).value) && e.Reservation? && IsPrice(p, e.usd) && WithinReservation(p, e, None)
    ensures Priced(p, entries + [e]) && Metered(p, StateOf(entries + [e]).value)
  {
    StateAfter(entries, e);
    assert forall r :: r in entries + [e] <==> r in entries || r == e;
  }

  lemma ReserveStaysCapped(guards: set<Guard>, p: Pricing, limit: Usd, entries: seq<Entry>, a: Action)
    requires Sharing(guards, p) && !CanOvershoot(guards, p, limit) && Capped(p, limit, entries)
    requires a.ReserveCall? && a.guard in guards
    ensures Capped(p, limit, NextLedger(entries, a))
  {
    var decision := Decide(a.guard, entries, a.maxInput, a.maxOutput, a.attempts);
    if decision.Success? {
      var t, e := StateOf(entries).value, decision.value;
      ReserveKeepsOrder(a.guard, entries, a.maxInput, a.maxOutput, a.attempts);
      DecisionIsPriced(a.guard, entries, a.maxInput, a.maxOutput, a.attempts);
      TotalIsPriced(p, t, e.usd);
      PriceWithinLimit(guards, p, limit, a.guard, t.Spent() + e.usd);
      ReservationIsMetered(p, entries, e);
    }
  }

  lemma SettlementIsMetered(p: Pricing, entries: seq<Entry>, r: Entry, charge: Option<Usd>)
    requires Orderly(entries) && Metered(p, StateOf(entries).value)
    requires r.Reservation? && Find(StateOf(entries).value.open, r.callId).Some?
    requires charge.Some? ==> IsPrice(p, charge.value)
    requires StateOf(entries + [CallResult(r.callId, charge)]).Success?
    ensures Metered(p, StateOf(entries + [CallResult(r.callId, charge)]).value)
  {
    var t := StateOf(entries).value;
    var k := Find(t.open, r.callId).value;
    StateAfter(entries, CallResult(r.callId, charge));
    PricesAdd(p, t.committed, if charge.Some? then charge.value else t.open[k].1);
    WithoutIsSmaller(t.open, k);
  }

  lemma UsageIsPriced(g: Guard, r: Entry, usage: Option<Usage>)
    requires r.Reservation? && WithinReservation(g.pricing, r, usage)
    requires usage.Some? ==> usage.value.inputTokens >= 0 && usage.value.outputTokens >= 0
    ensures var charge := ResultEntry(g, r.callId, usage).charge;
            charge.Some? ==> IsPrice(g.pricing, charge.value) && charge.value <= r.usd
  {
    ChargeIsCovered(g, r, usage);
  }

  lemma SettlementStaysCapped(p: Pricing, limit: Usd, entries: seq<Entry>, r: Entry, charge: Option<Usd>)
    requires Capped(p, limit, entries) && r in entries && r.Reservation?
    requires Find(StateOf(entries).value.open, r.callId).Some?
    requires charge.Some? ==> IsPrice(p, charge.value) && charge.value <= r.usd
    ensures Capped(p, limit, entries + [CallResult(r.callId, charge)])
  {
    var e := CallResult(r.callId, charge);
    SettleKeepsOrder(entries, r, charge);
    SettlementIsMetered(p, entries, r, charge);
    assert forall x :: x in entries + [e] <==> x in entries || x == e;
  }

  lemma SettleStaysCapped(guards: set<Guard>, p: Pricing, limit: Usd, entries: seq<Entry>, a: Action)
    requires Sharing(guards, p) && Capped(p, limit, entries) && a.SettleCall? && GuardAction(guards, entries, a)
    ensures Capped(p, limit, NextLedger(entries, a))
  {
    var r := a.reservation;
    OpenMeansUnsettled(entries, r.callId);
    UsageIsPriced(a.guard, r, a.usage);
    SettlementStaysCapped(p, limit, entries, r, ResultEntry(a.guard, r.callId, a.usage).charge);
  }

  lemma {:induction false} RunsStayCapped(guards: set<Guard>, p: Pricing, limit: Usd, actions: seq<Action>)
    requires Sharing(guards, p) && limit >= 0.0 && !CanOvershoot(guards, p, limit) && GuardRun(guards, actions)
    ensures Capped(p, limit, LedgerAfter(actions))
  {
    if actions == [] {
      assert p.Cost(0, 0) == 0.0;
    } else {
      var before, a := LedgerAfter(actions[..|actions| - 1]), actions[|actions| - 1];
      RunsStayCapped(guards, p, limit, actions[..|actions| - 1]);
      if a.ReserveCall? {
        ReserveStaysCapped(guards, p, limit, before, a);
      } else {
        SettleStaysCapped(guards, p, limit, before, a);
      }
    }
  }

  ghost predicate SpendsMore(guards: set<Guard>, limit: Usd, actions: seq<Action>) {
    GuardRun(guards, actions)
    && !(StateOf(LedgerAfter(actions)).Success? && StateOf(LedgerAfter(actions)).value.Spent() <= limit)
  }

  lemma OneCallOvershoots(guards: set<Guard>, p: Pricing, limit: Usd, g: Guard, input: nat, output: nat)
    requires Sharing(guards, p) && g in guards && Overshoots(g, p, limit, input, output)
    ensures SpendsMore(guards, limit, [ReserveCall(g, input, output, 1)])
  {
    var a := ReserveCall(g, input, output, 1);
    assert [a][..0] == [] && GuardRun(guards, []);
    assert StateOf([]) == Success(Totals(0.0, [], 0)) && LedgerAfter([]) == [];
    var e := Proposal(g, Totals(0.0, [], 0), input, output, 1);
    assert e.usd == p.Cost(input, output);
    assert LedgerAfter([a]) == [e];
    assert [e][..0] == [];
    SumAppend([], e.callId, e.usd);
  }

  /** Among guards that price alike, a cap bounds every run exactly when no guard may reserve a call priced
      above the cap and within its own budget. */
  lemma CapBoundsEveryRun(guards: set<Guard>, p: Pricing, limit: Usd)
    requires Sharing(guards, p) && limit >= 0.0
    ensures (exists actions :: SpendsMore(guards, limit, actions)) <==> CanOvershoot(guards, p, limit)
  {
    if CanOvershoot(guards, p, limit) {
      var g, input: nat, output: nat :| g in guards && Overshoots(g, p, limit, input, output);
      OneCallOvershoots(guards, p, limit, g, input, output);
    } else {
      forall actions | GuardRun(guards, actions)
        ensures !SpendsMore(guards, limit, actions)
      {
        RunsStayCapped(guards, p, limit, actions);
      }
    }
  }

  /** A stage capped at five beside a stage capped at ten, both at one dollar per input token: a call of
      seven tokens takes the shared ledger past the smaller cap. */
  lemma SmallerCapIsOvershot()
    ensures var p := Pricing(1000000.0, 0.0);
            var large, small := Guard([0x41], 10.0, 10.0, p), Guard([0x42], 10.0, 5.0, p);
            var run := [ReserveCall(large, 7, 0, 1)];
            && GuardRun({large, small}, run) && StateOf(LedgerAfter(run)).Success?
            && StateOf(LedgerAfter(run)).value.Spent() > small.Budget()
  {
    var p := Pricing(1000000.0, 0.0);
    var large, small := Guard([0x41], 10.0, 10.0, p), Guard([0x42], 10.0, 5.0, p);
    var run := [ReserveCall(large, 7, 0, 1)];
    assert p.Cost(7, 0) == 7.0;
    OneCallOvershoots({large, small}, p, 5.0, large, 7, 0);
    assert run[..0] == [] && LedgerAfter([]) == [];
    var e := Proposal(large, Totals(0.0, [], 0), 7, 0, 1);
    assert LedgerAfter(run) == [e] && [e][..0] == [];
  }

  lemma CallSpends(g: Guard, entries: seq<Entry>, input: nat, output: nat)
    requires Orderly(entries) && StateOf(entries).value.Spent() + g.pricing.Cost(input, output) <= g.Budget()
    ensures var after := NextLedger(entries, ReserveCall(g, input, output, 1));
            Orderly(after)
            && StateOf(after).value.Spent() == StateOf(entries).value.Spent() + g.pricing.Cost(input, output)
  {
    assert Decide(g, entries, input, output, 1).Success?;
    ReserveKeepsOrder(g, entries, input, output, 1);
  }

  lemma TwoActions(a: Action, b: Action)
    ensures LedgerAfter([a, b]) == NextLedger(NextLedger([], a), b)
  {
    assert [a, b][..1] == [a] && [a][..0] == [] && LedgerAfter([]) == [];
    assert LedgerAfter([a]) == NextLedger([], a);
  }

  /** With different prices the condition is not enough: calls of three and of two dollars add up to five
      beside a cap of four, though neither price list has an amount between four and five. */
  lemma MixedPricesAddUp()
    ensures var three, two := Pricing(3000000.0, 0.0), Pricing(2000000.0, 0.0);
            var first, second := Guard([0x41], 5.0, 5.0, three), Guard([0x42], 5.0, 5.0, two);
            var run := [ReserveCall(first, 1, 0, 1), ReserveCall(second, 1, 0, 1)];
            && StateOf(LedgerAfter(run)).Success? && StateOf(LedgerAfter(run)).value.Spent() == 5.0
            && !CanOvershoot({first}, three, 4.0) && !CanOvershoot({second}, two, 4.0)
  {
    var first := Guard([0x41], 5.0, 5.0, Pricing(3000000.0, 0.0));
    var second := Guard([0x42], 5.0, 5.0, Pricing(2000000.0, 0.0));
    NoPriceBetween(first, 3);
    NoPriceBetween(second, 2);
    assert first.pricing.Cost(1, 0) == 3.0 && second.pricing.Cost(1, 0) == 2.0;
    CallSpends(first, [], 1, 0);
    CallSpends(second, NextLedger([], ReserveCall(first, 1, 0, 1)), 1, 0);
    TwoActions(ReserveCall(first, 1, 0, 1), ReserveCall(second, 1, 0, 1));
  }

  lemma NoPriceBetween(g: Guard, price: int)
    requires price == 2 || price == 3
    requires g.pricing == Pricing(price as real * 1000000.0, 0.0) && g.Budget() == 5.0
    ensures !CanOvershoot({g}, g.pricing, 4.0)
  {
    forall input: nat, output: nat
      ensures !Overshoots(g, g.pricing, 4.0, input, output)
    {
      assert g.pricing.Cost(input, output) == (input * price) as real;
    }
  }
}
