/** On any log at all: exactly which attempts may start, and which may be closed. */
module AttemptDecisions {
  import opened Wrappers
  import opened HeldoutAttempts

  // ----- Places in a log -----

  function StartPlaces(log: seq<Event>): set<nat> {
    set i: nat | i < |log| && log[i].status.Started?
  }

  function StartPlacesOf(log: seq<Event>, run: RunId): set<nat> {
    set i: nat | i < |log| && log[i].status.Started? && log[i].run == run
  }

  function TerminalPlacesOf(log: seq<Event>, run: RunId): set<nat> {
    set i: nat | i < |log| && !log[i].status.Started? && log[i].run == run
  }

  ghost predicate IsLastOf(i: nat, places: set<nat>) {
    i in places && forall k :: k in places ==> k <= i
  }

  /** The k-th start carries the number k, counted from one. */
  ghost predicate Numbered(log: seq<Event>) {
    forall i :: 0 <= i < |log| && log[i].status.Started? ==> log[i].attempt == |StartPlaces(log[..i])| + 1
  }

  lemma StartPlacesGrow(front: seq<Event>, e: Event)
    ensures StartPlaces(front + [e]) == StartPlaces(front) + if e.status.Started? then {|front|} else {}
    ensures forall run :: StartPlacesOf(front + [e], run)
              == StartPlacesOf(front, run) + if e.status.Started? && e.run == run then {|front|} else {}
    ensures forall run :: TerminalPlacesOf(front + [e], run)
              == TerminalPlacesOf(front, run) + if !e.status.Started? && e.run == run then {|front|} else {}
  {
    var log := front + [e];
    assert forall i :: 0 <= i < |front| ==> log[i] == front[i];
    assert log[|front|] == e;
  }

  lemma StartsGrow(front: seq<Event>, e: Event)
    ensures Starts(front + [e]) == if e.status.Started? then Starts(front) + [e] else Starts(front)
    ensures forall run :: StartsOf(front + [e], run)
              == if e.status.Started? && e.run == run then StartsOf(front, run) + [e] else StartsOf(front, run)
  {
    assert (front + [e])[..|front|] == front;
  }

  lemma OneMore(places: set<nat>, n: nat)
    requires n !in places
    ensures |places + {n}| == |places| + 1
  {
  }

  lemma {:induction false} StartsAreCounted(log: seq<Event>)
    ensures |Starts(log)| == |StartPlaces(log)|
  {
    if log == [] {
      assert StartPlaces(log) == {};
    } else {
      var front, last := log[..|log| - 1], log[|log| - 1];
      assert log == front + [last];
      StartsAreCounted(front);
      StartsGrow(front, last);
      StartPlacesGrow(front, last);
      OneMore(StartPlaces(front), |front|);
    }
  }

  lemma WellNumberedGrows(front: seq<Event>, e: Event)
    ensures WellNumbered(front + [e]) <==>
      WellNumbered(front) && (e.status.Started? ==> e.attempt == |Starts(front)| + 1)
  {
    StartsGrow(front, e);
    var starts := Starts(front);
    if e.status.Started? {
      assert (starts + [e])[|starts|] == e;
      assert forall i :: 0 <= i < |starts| ==> (starts + [e])[i] == starts[i];
    }
  }

  lemma {:induction false} NumberingIsByPlace(log: seq<Event>)
    ensures WellNumbered(log) <==> Numbered(log)
  {
    if log != [] {
      var front, last := log[..|log| - 1], log[|log| - 1];
      assert log == front + [last];
      NumberingIsByPlace(front);
      StartsAreCounted(front);
      WellNumberedGrows(front, last);
      NumberedGrows(front, last);
    }
  }

  lemma NumberedGrows(front: seq<Event>, e: Event)
    ensures Numbered(front + [e]) <==>
      Numbered(front) && (e.status.Started? ==> e.attempt == |StartPlaces(front)| + 1)
  {
    var log := front + [e];
    assert log[..|front|] == front;
    assert forall i :: 0 <= i < |front| ==> log[i] == front[i] && log[..i] == front[..i];
  }

  // ----- Terminals -----

  lemma {:induction false} LastTerminal(log: seq<Event>, run: RunId)
    ensures TerminalOf(log, run).None? <==> TerminalPlacesOf(log, run) == {}
    ensures TerminalOf(log, run).Some? ==>
      exists j: nat :: IsLastOf(j, TerminalPlacesOf(log, run)) && log[j] == TerminalOf(log, run).value
  {
    if log == [] {
      assert TerminalPlacesOf(log, run) == {};
    } else {
      var n := |log| - 1;
      var front, last := log[..n], log[n];
      assert log == front + [last];
      StartPlacesGrow(front, last);
      if last.run == run && !last.status.Started? {
        assert IsLastOf(n, TerminalPlacesOf(log, run));
      } else {
        LastTerminal(front, run);
        if TerminalOf(front, run).Some? {
          var j: nat :| IsLastOf(j, TerminalPlacesOf(front, run)) && front[j] == TerminalOf(front, run).value;
          assert IsLastOf(j, TerminalPlacesOf(log, run)) && log[j] == front[j];
        }
      }
    }
  }

  lemma LastIsOne(i: nat, j: nat, places: set<nat>)
    requires IsLastOf(i, places) && IsLastOf(j, places)
    ensures i == j
  {
  }

  /** Some start of the run is this event. */
  ghost predicate IsStartOf(log: seq<Event>, run: RunId, e: Event) {
    exists i :: i in StartPlacesOf(log, run) && log[i] == e
  }

  lemma IsStartGrows(front: seq<Event>, last: Event, run: RunId, e: Event)
    ensures IsStartOf(front, run, e) ==> IsStartOf(front + [last], run, e)
    ensures last.status.Started? && last.run == run ==> IsStartOf(front + [last], run, last)
  {
    var log := front + [last];
    StartPlacesGrow(front, last);
    if i :| i in StartPlacesOf(front, run) && front[i] == e {
      assert i in StartPlacesOf(log, run) && log[i] == e;
    }
    if last.status.Started? && last.run == run {
      assert |front| in StartPlacesOf(log, run) && log[|front|] == last;
    }
  }

  lemma {:induction false} StartsOfAreCounted(log: seq<Event>, run: RunId)
    ensures |StartsOf(log, run)| == |StartPlacesOf(log, run)|
    ensures forall k :: 0 <= k < |StartsOf(log, run)| ==> IsStartOf(log, run, StartsOf(log, run)[k])
  {
    if log == [] {
      assert StartPlacesOf(log, run) == {};
    } else {
      var front, last := log[..|log| - 1], log[|log| - 1];
      assert log == front + [last];
      StartsOfAreCounted(front, run);
      StartsGrow(front, last);
      StartPlacesGrow(front, last);
      OneMore(StartPlacesOf(front, run), |front|);
      var starts := StartsOf(front, run);
      forall k | 0 <= k < |StartsOf(log, run)|
        ensures IsStartOf(log, run, StartsOf(log, run)[k])
      {
        IsStartGrows(front, last, run, if k < |starts| then starts[k] else last);
      }
    }
  }

  lemma OnlyMember(places: set<nat>, i: nat)
    requires |places| == 1 && i in places
    ensures places == {i}
  {
    var rest := places - {i};
    assert places == rest + {i};
    assert |rest| == 0;
  }

  /** A terminal is accepted exactly for a run that has started once and has none, on a log whose starts are
      numbered; it closes that start. */
  lemma TerminalIsExact(log: seq<Event>, run: RunId, e: Event)
    ensures TerminalDecision(log, run) == Success(e) <==>
      && Numbered(log) && TerminalPlacesOf(log, run) == {}
      && exists i :: StartPlacesOf(log, run) == {i} && log[i] == e
  {
    NumberingIsByPlace(log);
    LastTerminal(log, run);
    StartsOfAreCounted(log, run);
    var starts := StartsOf(log, run);
    if |starts| == 1 {
      var i :| i in StartPlacesOf(log, run) && log[i] == starts[0];
      OnlyMember(StartPlacesOf(log, run), i);
    }
  }

  // ----- Starts -----

  lemma {:induction false} LastStart(log: seq<Event>)
    ensures Starts(log) == [] <==> StartPlaces(log) == {}
    ensures Starts(log) != [] ==>
      exists i: nat :: IsLastOf(i, StartPlaces(log)) && log[i] == Starts(log)[|Starts(log)| - 1]
  {
    if log == [] {
      assert StartPlaces(log) == {};
    } else {
      var n := |log| - 1;
      var front, last := log[..n], log[n];
      assert log == front + [last];
      StartPlacesGrow(front, last);
      StartsGrow(front, last);
      LastStart(front);
      if last.status.Started? {
        assert IsLastOf(n, StartPlaces(log));
      } else if Starts(front) != [] {
        var i: nat :| IsLastOf(i, StartPlaces(front)) && front[i] == Starts(front)[|Starts(front)| - 1];
        assert IsLastOf(i, StartPlaces(log)) && log[i] == front[i];
      }
    }
  }

  /** The run of the last start has a terminal, and its last one is invalid and eligible for a retry. */
  ghost predicate MayBeReplaced(log: seq<Event>, i: nat) {
    i < |log| && exists j: nat :: IsLastOf(j, TerminalPlacesOf(log, log[i].run)) && IsRetryable(log, j)
  }

  ghost predicate IsRetryable(log: seq<Event>, j: nat) {
    j < |log| && log[j].status == Invalid && log[j].retryEligible
  }

  ghost predicate LastMayBeReplaced(log: seq<Event>) {
    forall i: nat :: IsLastOf(i, StartPlaces(log)) ==> MayBeReplaced(log, i)
  }

  lemma RetryIsDecided(log: seq<Event>, i: nat)
    requires i < |log|
    ensures var terminal := TerminalOf(log, log[i].run);
            MayBeReplaced(log, i) <==>
              terminal.Some? && terminal.value.status.Invalid? && terminal.value.retryEligible
  {
    var run := log[i].run;
    LastTerminal(log, run);
    var terminal := TerminalOf(log, run);
    if terminal.Some? {
      var j: nat :| IsLastOf(j, TerminalPlacesOf(log, run)) && log[j] == terminal.value;
      assert IsRetryable(log, j) <==> terminal.value.status.Invalid? && terminal.value.retryEligible;
      if k: nat :| IsLastOf(k, TerminalPlacesOf(log, run)) && IsRetryable(log, k) {
        LastIsOne(j, k, TerminalPlacesOf(log, run));
      }
    }
  }

  lemma OneDecides(log: seq<Event>, i: nat)
    requires IsLastOf(i, StartPlaces(log))
    ensures LastMayBeReplaced(log) <==> MayBeReplaced(log, i)
  {
    forall k: nat | IsLastOf(k, StartPlaces(log))
      ensures k == i
    {
      LastIsOne(k, i, StartPlaces(log));
    }
  }

  lemma ReplacementIsDecided(log: seq<Event>)
    ensures var starts := Starts(log);
            LastMayBeReplaced(log) <==>
              (starts == []
               || (var terminal := TerminalOf(log, starts[|starts| - 1].run);
                   terminal.Some? && terminal.value.status.Invalid? && terminal.value.retryEligible))
  {
    LastStart(log);
    var starts := Starts(log);
    if starts != [] {
      var i: nat :| IsLastOf(i, StartPlaces(log)) && log[i] == starts[|starts| - 1];
      OneDecides(log, i);
      RetryIsDecided(log, i);
    }
  }

  /** An attempt may start exactly under a policy that adds up, on a numbered log without a completed attempt, for a
      run that the log does not mention, within the limit, when the last attempt may be replaced; it gets the next
      number. */
  lemma StartIsExact(policy: Policy, log: seq<Event>, run: RunId, n: nat)
    ensures StartDecision(policy, log, run) == Success(n) <==>
      && policy.maximumReplacements >= 0 && policy.maximumTotal == 1 + policy.maximumReplacements
      && Numbered(log) && LastMayBeReplaced(log)
      && (forall i :: 0 <= i < |log| ==> log[i].status != Completed && log[i].run != run)
      && n == |StartPlaces(log)| + 1 && n <= policy.maximumTotal
  {
    StartsAreCounted(log);
    NumberingIsByPlace(log);
    ReplacementIsDecided(log);
  }
}
