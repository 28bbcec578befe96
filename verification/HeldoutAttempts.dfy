/** The held-out attempt ledger: at most one attempt at a time, replaced only after an invalid,
    retry-eligible one. `start` reads the log, creates a reservation file exclusively, and
    appends, as three separate steps, so that several processes may interleave. */
module HeldoutAttempts {
  import opened Wrappers

  /** One process, one run identifier. */
  type RunId = nat

  datatype Status = Started | Invalid | Completed

  datatype Event = Event(run: RunId, attempt: nat, status: Status, retryEligible: bool)

  datatype Attempt = Attempt(run: RunId, attempt: nat)

  datatype Policy = Policy(maximumTotal: int, maximumReplacements: int)

  datatype AttemptError =
    | BadPolicy
    | LedgerInvalid
    | AlreadyCompleted
    | NoTerminal
    | NotReplaceable
    | LimitExhausted
    | RunExists
    | AlreadyReserved
    | TerminalStateInvalid

  // ----- Reading the log -----

  function Starts(log: seq<Event>): seq<Event> {
    if log == [] then []
    else
      var front := Starts(log[..|log| - 1]);
      if log[|log| - 1].status.Started? then front + [log[|log| - 1]] else front
  }

  /** `_read_events` insists that the started attempts are numbered from one. */
  predicate WellNumbered(log: seq<Event>) {
    forall i :: 0 <= i < |Starts(log)| ==> Starts(log)[i].attempt == i + 1
  }

  /** The last terminal event of a run, as the dictionary built from the log holds it. */
  function TerminalOf(log: seq<Event>, run: RunId): Option<Event> {
    if log == [] then None
    else
      var last := log[|log| - 1];
      if last.run == run && !last.status.Started? then Some(last) else TerminalOf(log[..|log| - 1], run)
  }

  predicate HasCompleted(log: seq<Event>) {
    exists i :: 0 <= i < |log| && log[i].status.Completed?
  }

  predicate Mentions(log: seq<Event>, run: RunId) {
    exists i :: 0 <= i < |log| && log[i].run == run
  }

  /** The number of the attempt that may start on this log, or why none may. */
  function StartDecision(policy: Policy, log: seq<Event>, run: RunId): Result<nat, AttemptError> {
    if policy.maximumTotal <= 0 || policy.maximumReplacements < 0
       || policy.maximumTotal != policy.maximumReplacements + 1 then Failure(BadPolicy)
    else if !WellNumbered(log) then Failure(LedgerInvalid)
    else if HasCompleted(log) then Failure(AlreadyCompleted)
    else
      var starts := Starts(log);
      var terminal := if starts == [] then None else TerminalOf(log, starts[|starts| - 1].run);
      if starts != [] && terminal.None? then Failure(NoTerminal)
      else if starts != [] && !(terminal.value.status.Invalid? && terminal.value.retryEligible) then
        Failure(NotReplaceable)
      else if |starts| + 1 > policy.maximumTotal then Failure(LimitExhausted)
      else if Mentions(log, run) then Failure(RunExists)
      else Success(|starts| + 1)
  }

  function StartsOf(log: seq<Event>, run: RunId): seq<Event> {
    if log == [] then []
    else
      var front := StartsOf(log[..|log| - 1], run);
      if log[|log| - 1].run == run && log[|log| - 1].status.Started? then front + [log[|log| - 1]] else front
  }

  /** The start event that a terminal may close, or why there is none. */
  function TerminalDecision(log: seq<Event>, run: RunId): Result<Event, AttemptError> {
    if !WellNumbered(log) then Failure(LedgerInvalid)
    else if |StartsOf(log, run)| != 1 || TerminalOf(log, run).Some? then Failure(TerminalStateInvalid)
    else Success(StartsOf(log, run)[0])
  }

  // ----- The ledger used by one process at a time -----

  /** The file of events and the set of reservation files beside it. */
  class HeldoutAttemptLedger {
    var events: seq<Event>
    var reserved: set<nat>

    constructor ()
      ensures events == [] && reserved == {}
    {
      events, reserved := [], {};
    }

    /** A refusal after the decision leaves no trace; success leaves a reservation and a start event. */
    method Start(policy: Policy, run: RunId) returns (r: Result<Attempt, AttemptError>)
      modifies this
      ensures match StartDecision(policy, old(events), run)
        case Failure(e) => r == Failure(e) && events == old(events) && reserved == old(reserved)
        case Success(n) =>
          if n in old(reserved) then r == Failure(AlreadyReserved) && events == old(events) && reserved == old(reserved)
          else
            r == Success(Attempt(run, n)) && reserved == old(reserved) + {n}
            && events == old(events) + [Event(run, n, Started, false)]
    {
      var decision := StartDecision(policy, events, run);
      if decision.Failure? {
        return Failure(decision.error);
      }
      var attempt := decision.value;
      var taken := Reserve(attempt);
      if taken {
        return Failure(AlreadyReserved);
      }
      events := events + [Event(run, attempt, Started, false)];
      r := Success(Attempt(run, attempt));
    }

    /** Opens a reservation file that must not exist yet. */
    method Reserve(attempt: nat) returns (taken: bool)
      modifies this`reserved
      ensures taken <==> attempt in old(reserved)
      ensures reserved == old(reserved) + {attempt}
    {
      taken := attempt in reserved;
      reserved := reserved + {attempt};
    }

    method Terminal(attempt: Attempt, status: Status, retryEligible: bool) returns (r: Result<Event, AttemptError>)
      requires !status.Started? && (status.Completed? ==> !retryEligible)
      modifies this`events
      ensures match TerminalDecision(old(events), attempt.run)
        case Failure(e) => r == Failure(e) && events == old(events)
        case Success(started) =>
          r == Success(started.(status := status, retryEligible := retryEligible))
          && events == old(events) + [r.value]
    {
      var decision := TerminalDecision(events, attempt.run);
      if decision.Failure? {
        return Failure(decision.error);
      }
      var event := decision.value.(status := status, retryEligible := retryEligible);
      events := events + [event];
      r := Success(event);
    }
  }
}
