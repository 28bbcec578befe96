/** Amounts for a list of stages, and the budgets they must fit up to each stage. */
module Allotments {
  import opened SpendGuard

  function Prefix(xs: seq<Usd>, n: nat): Usd
    requires n <= |xs|
  {
    if n == 0 then 0.0 else Prefix(xs, n - 1) + xs[n - 1]
  }

  function Total(xs: seq<Usd>): Usd {
    Prefix(xs, |xs|)
  }

  ghost predicate Ascending(budgets: seq<Usd>) {
    forall j, k :: 0 <= j < k < |budgets| ==> budgets[j] <= budgets[k]
  }

  /** Up to each stage the amounts fit the budget of that stage. */
  ghost predicate Fits(budgets: seq<Usd>, xs: seq<Usd>) {
    |xs| == |budgets| && forall k :: 0 <= k < |xs| ==> Prefix(xs, k + 1) <= budgets[k]
  }

  ghost predicate NoDebts(xs: seq<Usd>) {
    forall k :: 0 <= k < |xs| ==> xs[k] >= 0.0
  }

  lemma {:induction false} PrefixUpdate(xs: seq<Usd>, j: nat, x: Usd, n: nat)
    requires j < |xs| && n <= |xs|
    ensures Prefix(xs[j := x], n) == Prefix(xs, n) + if j < n then x - xs[j] else 0.0
  {
    if n > 0 {
      PrefixUpdate(xs, j, x, n - 1);
    }
  }

  lemma {:induction false} PrefixGrows(xs: seq<Usd>, m: nat, n: nat)
    requires m <= n <= |xs| && NoDebts(xs)
    ensures Prefix(xs, m) <= Prefix(xs, n)
  {
    if m < n {
      PrefixGrows(xs, m, n - 1);
    }
  }

  lemma {:induction false} NothingAddsUp(xs: seq<Usd>, n: nat)
    requires n <= |xs| && forall k :: 0 <= k < |xs| ==> xs[k] == 0.0
    ensures Prefix(xs, n) == 0.0
  {
    if n > 0 {
      NothingAddsUp(xs, n - 1);
    }
  }

  /** More for stage j still fits when the new total fits its budget: later budgets are larger. */
  lemma RaiseFits(budgets: seq<Usd>, xs: seq<Usd>, j: nat, x: Usd)
    requires Ascending(budgets) && Fits(budgets, xs) && j < |xs| && NoDebts(xs[j := x])
    requires Total(xs) + x - xs[j] <= budgets[j]
    ensures Fits(budgets, xs[j := x]) && Total(xs[j := x]) == Total(xs) + x - xs[j]
  {
    var ys := xs[j := x];
    PrefixUpdate(xs, j, x, |xs|);
    forall k | 0 <= k < |ys|
      ensures Prefix(ys, k + 1) <= budgets[k]
    {
      PrefixUpdate(xs, j, x, k + 1);
      if k >= j {
        PrefixGrows(ys, k + 1, |ys|);
        assert k > j ==> budgets[j] <= budgets[k];
      }
    }
  }

  lemma FallFits(budgets: seq<Usd>, xs: seq<Usd>, j: nat, x: Usd)
    requires Fits(budgets, xs) && j < |xs| && x <= xs[j]
    ensures Fits(budgets, xs[j := x]) && Total(xs[j := x]) == Total(xs) + x - xs[j]
  {
    PrefixUpdate(xs, j, x, |xs|);
    forall k | 0 <= k < |xs|
      ensures Prefix(xs[j := x], k + 1) <= budgets[k]
    {
      PrefixUpdate(xs, j, x, k + 1);
    }
  }
}
