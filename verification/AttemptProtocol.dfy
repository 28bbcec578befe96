/** Any number of processes interleaving the steps of `start` and of the terminal calls, with
    crashes anywhere: the log is still a run of closed attempts. */
module AttemptProtocol {
  import opened Wrappers
  import opened HeldoutAttempts

  /** Where one process is inside its calls; a snapshot is the log it last read. */
  datatype Process =
    | Idle
    | Decided(attempt: nat, snapshot: seq<Event>)
    | Holding(attempt: nat, snapshot: seq<Event>)
    | Running(attempt: nat)
    | Closing(event: Event)
    | Finished
    | Crashed

  datatype State = State(log: seq<Event>, reserved: set<nat>, processes: map<RunId, Process>)

  datatype Action =
    | Read(run: RunId)
    | Reserve(run: RunId)
    | AppendStart(run: RunId)
    | ReadToClose(run: RunId, status: Status, retryEligible: bool)
    | AppendTerminal(run: RunId)
    | Crash(run: RunId)

  const INITIAL: State := State([], {}, map[])

  function ProcessOf(s: State, run: RunId): Process {
    if run in s.processes then s.processes[run] else Idle
  }

  function Move(s: State, run: RunId, p: Process): State {
    s.(processes := s.processes[run := p])
  }

  /** One step of one process; an action that its process is not ready for changes nothing. */
  function Step(policy: Policy, s: State, a: Action): (t: State)
    ensures forall q :: q != a.run ==> ProcessOf(t, q) == ProcessOf(s, q)
    ensures s.log <= t.log && s.reserved <= t.reserved
  {
    match (a, ProcessOf(s, a.run))
    case (Read(run), Idle) =>
      (match StartDecision(policy, s.log, run)
       case Success(n) => Move(s, run, Decided(n, s.log))
       case Failure(_) => s)
    case (Reserve(run), Decided(n, snapshot)) =>
      if n in s.reserved then Move(s, run, Idle)
      else Move(s.(reserved := s.reserved + {n}), run, Holding(n, snapshot))
    case (AppendStart(run), Holding(n, _)) =>
      Move(s.(log := s.log + [Event(run, n, Started, false)]), run, Running(n))
    case (ReadToClose(run, status, retryEligible), Running(_)) =>
      if status.Started? || (status.Completed? && retryEligible) then s
      else
        (match TerminalDecision(s.log, run)
         case Success(started) => Move(s, run, Closing(started.(status := status, retryEligible := retryEligible)))
         case Failure(_) => s)
    case (AppendTerminal(run), Closing(event)) =>
      Move(s.(log := s.log + [event]), run, Finished)
    case (Crash(run), _) => Move(s, run, Crashed)
    case _ => s
  }

  function RunFrom(policy: Policy, s: State, actions: seq<Action>): State {
    if actions == [] then s
    else Step(policy, RunFrom(policy, s, actions[..|actions| - 1]), actions[|actions| - 1])
  }

  function Reach(policy: Policy, actions: seq<Action>): State {
    RunFrom(policy, INITIAL, actions)
  }

  lemma ThreeSteps(policy: Policy, s: State, a: Action, b: Action, c: Action)
    ensures RunFrom(policy, s, [a, b, c]) == Step(policy, Step(policy, Step(policy, s, a), b), c)
  {
    assert [a, b, c][..2] == [a, b] && [a, b][..1] == [a] && [a][..0] == [];
    assert RunFrom(policy, s, [a]) == Step(policy, s, a);
    assert RunFrom(policy, s, [a, b]) == Step(policy, RunFrom(policy, s, [a]), b);
  }

  /** The three steps without an interruption are what `HeldoutAttemptLedger.Start` does. */
  lemma UninterruptedStart(policy: Policy, s: State, run: RunId)
    requires ProcessOf(s, run).Idle?
    ensures var t := RunFrom(policy, s, [Read(run), Reserve(run), AppendStart(run)]);
            match StartDecision(policy, s.log, run)
            case Failure(_) => t.log == s.log && t.reserved == s.reserved
            case Success(n) =>
              if n in s.reserved then t.log == s.log && t.reserved == s.reserved
              else
                t.log == s.log + [Event(run, n, Started, false)] && t.reserved == s.reserved + {n}
                && ProcessOf(t, run) == Running(n)
  {
    ThreeSteps(policy, s, Read(run), Reserve(run), AppendStart(run));
    var read := Step(policy, s, Read(run));
    var reserved := Step(policy, read, Reserve(run));
    if StartDecision(policy, s.log, run).Success? {
      assert ProcessOf(read, run).Decided?;
      if ProcessOf(read, run).attempt !in s.reserved {
        assert ProcessOf(reserved, run).Holding?;
      } else {
        assert ProcessOf(reserved, run).Idle?;
      }
    }
  }

  lemma TwoSteps(policy: Policy, s: State, a: Action, b: Action)
    ensures RunFrom(policy, s, [a, b]) == Step(policy, Step(policy, s, a), b)
  {
    assert [a, b][..1] == [a] && [a][..0] == [];
    assert RunFrom(policy, s, [a]) == Step(policy, s, a);
  }

  /** The two steps without an interruption are what `HeldoutAttemptLedger.Terminal` does. */
  lemma UninterruptedTerminal(policy: Policy, s: State, run: RunId, status: Status, retryEligible: bool)
    requires ProcessOf(s, run).Running? && !status.Started? && (status.Completed? ==> !retryEligible)
    ensures var t := RunFrom(policy, s, [ReadToClose(run, status, retryEligible), AppendTerminal(run)]);
            match TerminalDecision(s.log, run)
            case Failure(_) => t.log == s.log
            case Success(started) => t.log == s.log + [started.(status := status, retryEligible := retryEligible)]
  {
    TwoSteps(policy, s, ReadToClose(run, status, retryEligible), AppendTerminal(run));
    var read := Step(policy, s, ReadToClose(run, status, retryEligible));
    assert TerminalDecision(s.log, run).Success? ==> ProcessOf(read, run).Closing?;
  }

  // ----- What a log must look like -----

  /** Attempts in order, each a start followed by its own terminal; only the last may be open,
      and only the last may be anything but invalid and retry-eligible. */
  ghost predicate ClosedRuns(log: seq<Event>) {
    && (forall i :: 0 <= i < |log| ==> log[i].attempt == i / 2 + 1)
    && (forall i :: 0 <= i < |log| ==> (log[i].status.Started? <==> i % 2 == 0))
    && (forall i :: 0 <= i < |log| && i % 2 == 1 ==> log[i].run == log[i - 1].run)
    && (forall i, j :: 0 <= i < j < |log| && log[i].run == log[j].run ==> i % 2 == 0 && j == i + 1)
    && (forall i :: 0 <= i < |log| - 1 && i % 2 == 1 ==> log[i].status.Invalid? && log[i].retryEligible)
    && (forall i :: 0 <= i < |log| && log[i].status.Completed? ==> !log[i].retryEligible)
  }

  ghost predicate GoodLog(policy: Policy, log: seq<Event>) {
    ClosedRuns(log) && (log != [] ==> (|log| + 1) / 2 <= policy.maximumTotal)
  }

  /** The last attempt is closed and may be replaced. */
  predicate MayStart(log: seq<Event>) {
    |log| % 2 == 0 && (log == [] || (log[|log| - 1].status.Invalid? && log[|log| - 1].retryEligible))
  }

  lemma ClosedRunsFront(log: seq<Event>)
    requires ClosedRuns(log) && log != []
    ensures ClosedRuns(log[..|log| - 1])
  {
  }

  lemma {:induction false} StartsOfGoodLog(log: seq<Event>)
    requires ClosedRuns(log)
    ensures |Starts(log)| == (|log| + 1) / 2 && WellNumbered(log)
    ensures forall k :: 0 <= k < |Starts(log)| ==> Starts(log)[k] == log[2 * k]
  {
    if log != [] {
      ClosedRunsFront(log);
      StartsOfGoodLog(log[..|log| - 1]);
      assert log[|log| - 1].status.Started? <==> |log| % 2 == 1;
    }
  }

  lemma {:induction false} TerminalInLog(log: seq<Event>, run: RunId)
    ensures TerminalOf(log, run).None? <==> forall i :: 0 <= i < |log| ==> log[i].run == run ==> log[i].status.Started?
    ensures TerminalOf(log, run).Some? ==>
      exists i :: 0 <= i < |log| && log[i].run == run && !log[i].status.Started? && TerminalOf(log, run).value == log[i]
  {
    if log != [] {
      TerminalInLog(log[..|log| - 1], run);
    }
  }

  /** On a good log `start` decides exactly by the last attempt, the limit and the run identifier. */
  lemma StartDecisionOnGoodLog(policy: Policy, log: seq<Event>, run: RunId)
    requires ClosedRuns(log)
    requires 0 < policy.maximumTotal == policy.maximumReplacements + 1
    ensures StartDecision(policy, log, run).Success? <==>
      MayStart(log) && |log| / 2 + 1 <= policy.maximumTotal && !Mentions(log, run)
    ensures StartDecision(policy, log, run).Success? ==> StartDecision(policy, log, run).value == |log| / 2 + 1
  {
    StartsOfGoodLog(log);
    if log != [] {
      var m := |log|;
      var lastStart := log[2 * ((m + 1) / 2 - 1)];
      TerminalInLog(log, lastStart.run);
      if m % 2 == 0 {
        assert log[m - 1].run == lastStart.run;
      }
    }
  }

  // ----- The invariant of every interleaving -----

  function StartCount(log: seq<Event>): nat {
    (|log| + 1) / 2
  }

  /** Reservations are the started attempts and at most the next one, which only an open log may have. */
  ghost predicate ReservationsFit(s: State) {
    && (forall r :: r in s.reserved ==> 1 <= r <= StartCount(s.log) + 1)
    && (forall r :: 1 <= r <= StartCount(s.log) ==> r in s.reserved)
    && (StartCount(s.log) + 1 in s.reserved ==> MayStart(s.log))
  }

  ghost predicate Owns(log: seq<Event>, run: RunId) {
    |log| % 2 == 1 && log[|log| - 1].run == run
  }

  ghost predicate ProcessFits(policy: Policy, s: State, run: RunId) {
    match ProcessOf(s, run)
    case Idle => !Mentions(s.log, run)
    case Decided(n, snapshot) =>
      !Mentions(s.log, run) && snapshot <= s.log && MayStart(snapshot)
      && n == |snapshot| / 2 + 1 && n <= policy.maximumTotal
    case Holding(n, snapshot) =>
      !Mentions(s.log, run) && snapshot == s.log && MayStart(snapshot)
      && n == |snapshot| / 2 + 1 && n <= policy.maximumTotal && n in s.reserved
    case Running(n) => Owns(s.log, run) && n == StartCount(s.log)
    case Closing(event) =>
      Owns(s.log, run)
      && event == s.log[|s.log| - 1].(status := event.status, retryEligible := event.retryEligible)
      && !event.status.Started? && (event.status.Completed? ==> !event.retryEligible)
    case Finished => true
    case Crashed => true
  }

  predicate Holds(s: State, run: RunId) {
    ProcessOf(s, run).Holding?
  }

  ghost predicate AtMostOneHolder(s: State) {
    forall p, q :: Holds(s, p) && Holds(s, q) ==> p == q
  }

  /** A step makes a new holder only when there was none. */
  lemma HolderStaysUnique(s: State, t: State, run: RunId)
    requires AtMostOneHolder(s)
    requires forall q :: q != run ==> ProcessOf(t, q) == ProcessOf(s, q)
    requires Holds(t, run) ==> Holds(s, run) || forall q :: !Holds(s, q)
    ensures AtMostOneHolder(t)
  {
    forall p, q | Holds(t, p) && Holds(t, q)
      ensures p == q
    {
      assert p != run ==> Holds(s, p);
      assert q != run ==> Holds(s, q);
    }
  }

  ghost predicate Consistent(policy: Policy, s: State) {
    && GoodLog(policy, s.log)
    && ReservationsFit(s)
    && (forall run :: ProcessFits(policy, s, run))
    && AtMostOneHolder(s)
  }

  ghost predicate ValidPolicy(policy: Policy) {
    0 < policy.maximumTotal == policy.maximumReplacements + 1
  }

  lemma ReadKeeps(policy: Policy, s: State, run: RunId)
    requires ValidPolicy(policy) && Consistent(policy, s) && ProcessOf(s, run).Idle?
    ensures Consistent(policy, Step(policy, s, Read(run)))
  {
    assert ProcessFits(policy, s, run);
    StartDecisionOnGoodLog(policy, s.log, run);
    var t := Step(policy, s, Read(run));
    HolderStaysUnique(s, t, run);
    forall q
      ensures ProcessFits(policy, t, q)
    {
      assert ProcessFits(policy, s, q);
    }
  }

  /** The heart of the protocol: whoever creates reservation n has read the log as it still is. */
  lemma ReservationPinsTheLog(policy: Policy, s: State, run: RunId)
    requires Consistent(policy, s) && ProcessOf(s, run).Decided?
    requires ProcessOf(s, run).attempt !in s.reserved
    ensures ProcessOf(s, run).snapshot == s.log
    ensures forall q :: !Holds(s, q)
  {
    assert ProcessFits(policy, s, run);
    forall q
      ensures !Holds(s, q)
    {
      assert ProcessFits(policy, s, q);
    }
  }

  lemma ReserveKeeps(policy: Policy, s: State, run: RunId)
    requires ValidPolicy(policy) && Consistent(policy, s) && ProcessOf(s, run).Decided?
    ensures Consistent(policy, Step(policy, s, Reserve(run)))
  {
    var n := ProcessOf(s, run).attempt;
    assert ProcessFits(policy, s, run);
    if n !in s.reserved {
      ReservationPinsTheLog(policy, s, run);
    }
    var t := Step(policy, s, Reserve(run));
    HolderStaysUnique(s, t, run);
    forall q
      ensures ProcessFits(policy, t, q)
    {
      assert ProcessFits(policy, s, q);
    }
  }

  lemma MentionsAppend(log: seq<Event>, e: Event, run: RunId)
    ensures Mentions(log + [e], run) <==> Mentions(log, run) || e.run == run
  {
    var after := log + [e];
    assert after[|log|] == e;
    assert forall i :: 0 <= i < |log| ==> after[i] == log[i];
  }

  /** A start by a new run extends a log that may be started. */
  lemma StartingKeepsLog(policy: Policy, log: seq<Event>, run: RunId, n: nat)
    requires GoodLog(policy, log) && MayStart(log) && !Mentions(log, run)
    requires n == |log| / 2 + 1 && n <= policy.maximumTotal
    ensures GoodLog(policy, log + [Event(run, n, Started, false)])
    ensures StartCount(log + [Event(run, n, Started, false)]) == n == StartCount(log) + 1
  {
    assert forall i :: 0 <= i < |log| ==> log[i].run != run;
  }

  lemma StartingKeepsProcess(policy: Policy, s: State, run: RunId, q: RunId)
    requires ProcessFits(policy, s, run) && ProcessFits(policy, s, q) && AtMostOneHolder(s)
    requires ProcessOf(s, run).Holding? && q != run
    ensures ProcessFits(policy, Step(policy, s, AppendStart(run)), q)
  {
    assert Holds(s, run) && !Holds(s, q);
    MentionsAppend(s.log, Event(run, ProcessOf(s, run).attempt, Started, false), q);
  }

  lemma AppendStartKeeps(policy: Policy, s: State, run: RunId)
    requires ValidPolicy(policy) && Consistent(policy, s) && ProcessOf(s, run).Holding?
    ensures Consistent(policy, Step(policy, s, AppendStart(run)))
  {
    assert ProcessFits(policy, s, run);
    var t := Step(policy, s, AppendStart(run));
    StartingKeepsLog(policy, s.log, run, ProcessOf(s, run).attempt);
    HolderStaysUnique(s, t, run);
    forall q
      ensures ProcessFits(policy, t, q)
    {
      assert ProcessFits(policy, s, q);
      if q != run {
        StartingKeepsProcess(policy, s, run, q);
      }
    }
  }

  lemma {:induction false} OwnedStart(log: seq<Event>, run: RunId, i: nat)
    requires i < |log| && log[i].run == run && log[i].status.Started?
    requires forall j :: 0 <= j < |log| && j != i ==> log[j].run != run
    ensures StartsOf(log, run) == [log[i]]
  {
    var last := |log| - 1;
    if i < last {
      OwnedStart(log[..last], run, i);
    } else {
      NoStarts(log[..last], run);
    }
  }

  lemma {:induction false} NoStarts(log: seq<Event>, run: RunId)
    requires forall j :: 0 <= j < |log| ==> log[j].run != run
    ensures StartsOf(log, run) == []
  {
    if log != [] {
      NoStarts(log[..|log| - 1], run);
    }
  }

  /** The owner of an open attempt may close it, with the start it recorded. */
  lemma OwnerMayClose(log: seq<Event>, run: RunId)
    requires ClosedRuns(log) && Owns(log, run)
    ensures TerminalDecision(log, run) == Success(log[|log| - 1])
  {
    var last := |log| - 1;
    StartsOfGoodLog(log);
    TerminalInLog(log, run);
    OwnedStart(log, run, last);
  }

  lemma ReadToCloseKeeps(policy: Policy, s: State, a: Action)
    requires ValidPolicy(policy) && Consistent(policy, s) && a.ReadToClose? && ProcessOf(s, a.run).Running?
    ensures Consistent(policy, Step(policy, s, a))
  {
    assert ProcessFits(policy, s, a.run);
    OwnerMayClose(s.log, a.run);
    var t := Step(policy, s, a);
    HolderStaysUnique(s, t, a.run);
    forall q
      ensures ProcessFits(policy, t, q)
    {
      assert ProcessFits(policy, s, q);
    }
  }

  /** The owner's terminal closes the open attempt. */
  lemma ClosingKeepsLog(policy: Policy, log: seq<Event>, run: RunId, event: Event)
    requires GoodLog(policy, log) && Owns(log, run)
    requires event == log[|log| - 1].(status := event.status, retryEligible := event.retryEligible)
    requires !event.status.Started? && (event.status.Completed? ==> !event.retryEligible)
    ensures GoodLog(policy, log + [event]) && StartCount(log + [event]) == StartCount(log) && !MayStart(log)
  {
    var m, after := |log|, log + [event];
    assert event.run == log[m - 1].run == run && event.attempt == log[m - 1].attempt;
    forall i, j | 0 <= i < j < |after| && after[i].run == after[j].run
      ensures i % 2 == 0 && j == i + 1
    {
      if j == m {
        assert log[i].run == log[m - 1].run;
      }
    }
  }

  lemma ClosingKeepsProcess(policy: Policy, s: State, run: RunId, q: RunId)
    requires ProcessFits(policy, s, run) && ProcessFits(policy, s, q) && ProcessOf(s, run).Closing?
    requires q != run && !MayStart(s.log)
    ensures ProcessFits(policy, Step(policy, s, AppendTerminal(run)), q)
  {
    assert s.log[|s.log| - 1].run == run;
    MentionsAppend(s.log, ProcessOf(s, run).event, q);
    assert Mentions(s.log, run);
  }

  lemma AppendTerminalKeeps(policy: Policy, s: State, run: RunId)
    requires ValidPolicy(policy) && Consistent(policy, s) && ProcessOf(s, run).Closing?
    ensures Consistent(policy, Step(policy, s, AppendTerminal(run)))
  {
    assert ProcessFits(policy, s, run);
    var t := Step(policy, s, AppendTerminal(run));
    ClosingKeepsLog(policy, s.log, run, ProcessOf(s, run).event);
    HolderStaysUnique(s, t, run);
    forall q
      ensures ProcessFits(policy, t, q)
    {
      assert ProcessFits(policy, s, q);
      if q != run {
        ClosingKeepsProcess(policy, s, run, q);
      }
    }
  }

  lemma CrashKeeps(policy: Policy, s: State, run: RunId)
    requires Consistent(policy, s)
    ensures Consistent(policy, Step(policy, s, Crash(run)))
  {
    var t := Step(policy, s, Crash(run));
    HolderStaysUnique(s, t, run);
    forall q
      ensures ProcessFits(policy, t, q)
    {
      assert ProcessFits(policy, s, q);
    }
  }

  lemma StepKeepsConsistent(policy: Policy, s: State, a: Action)
    requires ValidPolicy(policy) && Consistent(policy, s)
    ensures Consistent(policy, Step(policy, s, a))
  {
    match (a, ProcessOf(s, a.run))
    case (Read(run), Idle) => ReadKeeps(policy, s, run);
    case (Reserve(run), Decided(_, _)) => ReserveKeeps(policy, s, run);
    case (AppendStart(run), Holding(_, _)) => AppendStartKeeps(policy, s, run);
    case (ReadToClose(_, _, _), Running(_)) => ReadToCloseKeeps(policy, s, a);
    case (AppendTerminal(run), Closing(_)) => AppendTerminalKeeps(policy, s, run);
    case (Crash(run), _) => CrashKeeps(policy, s, run);
    case _ =>
  }

  // ----- The main results -----

  lemma {:induction false} RunsStayConsistent(policy: Policy, s: State, actions: seq<Action>)
    requires ValidPolicy(policy) && Consistent(policy, s)
    ensures Consistent(policy, RunFrom(policy, s, actions))
  {
    if actions != [] {
      var front := actions[..|actions| - 1];
      RunsStayConsistent(policy, s, front);
      StepKeepsConsistent(policy, RunFrom(policy, s, front), actions[|actions| - 1]);
    }
  }

  lemma EveryInterleavingIsConsistent(policy: Policy, actions: seq<Action>)
    requires ValidPolicy(policy)
    ensures Consistent(policy, Reach(policy, actions))
  {
    RunsStayConsistent(policy, INITIAL, actions);
  }

  /** In every reachable log the attempts are numbered in order and within the limit, all but the
      last are invalid and retry-eligible, and nothing follows a completed one. */
  lemma EveryReachableLogIsGood(policy: Policy, actions: seq<Action>)
    requires ValidPolicy(policy)
    ensures var log := Reach(policy, actions).log;
            && GoodLog(policy, log)
            && WellNumbered(log) && |Starts(log)| <= policy.maximumTotal
            && forall i :: 0 <= i < |log| && log[i].status.Completed? ==> i == |log| - 1
  {
    EveryInterleavingIsConsistent(policy, actions);
    StartsOfGoodLog(Reach(policy, actions).log);
  }

  /** A step that appends a start does so on the very log its decision was taken on. */
  lemma StartsAreNeverStale(policy: Policy, actions: seq<Action>, run: RunId)
    requires ValidPolicy(policy)
    requires Holds(Reach(policy, actions), run)
    ensures var s := Reach(policy, actions);
            && ProcessOf(s, run).snapshot == s.log
            && StartDecision(policy, s.log, run) == Success(ProcessOf(s, run).attempt)
            && forall q :: q != run ==> !Holds(s, q)
  {
    EveryInterleavingIsConsistent(policy, actions);
    var s := Reach(policy, actions);
    assert ProcessFits(policy, s, run);
    StartDecisionOnGoodLog(policy, s.log, run);
  }

  ghost predicate Orphaned(s: State) {
    StartCount(s.log) + 1 in s.reserved && forall q :: !Holds(s, q)
  }

  lemma OrphanedReservationBlocks(policy: Policy, s: State, a: Action)
    requires ValidPolicy(policy) && Consistent(policy, s) && Orphaned(s)
    ensures var t := Step(policy, s, a);
            t.log == s.log && Orphaned(t)
  {
    assert ProcessFits(policy, s, a.run) && !Holds(s, a.run);
    var t := Step(policy, s, a);
    forall q
      ensures !Holds(t, q)
    {
      assert !Holds(s, q);
    }
  }

  /** A crash between a reservation and its event freezes the log whatever happens next: it fails closed. */
  lemma {:induction false} OrphanedReservationBlocksForever(policy: Policy, s: State, actions: seq<Action>)
    requires ValidPolicy(policy) && Consistent(policy, s) && Orphaned(s)
    ensures var t := RunFrom(policy, s, actions);
            t.log == s.log && Orphaned(t)
  {
    if actions != [] {
      var front := actions[..|actions| - 1];
      OrphanedReservationBlocksForever(policy, s, front);
      RunsStayConsistent(policy, s, front);
      OrphanedReservationBlocks(policy, RunFrom(policy, s, front), actions[|actions| - 1]);
    }
  }

  lemma CrashOrphans(policy: Policy, s: State, run: RunId)
    requires Consistent(policy, s) && Holds(s, run)
    ensures Orphaned(Step(policy, s, Crash(run)))
  {
    assert ProcessFits(policy, s, run);
    var t := Step(policy, s, Crash(run));
    forall q
      ensures !Holds(t, q)
    {
      assert Holds(s, q) ==> q == run;
    }
  }

  /** If a process that holds a reservation crashes, in any reachable state, no attempt ever starts again. */
  lemma CrashBlocksForever(policy: Policy, actions: seq<Action>, run: RunId, more: seq<Action>)
    requires ValidPolicy(policy) && Holds(Reach(policy, actions), run)
    ensures var s := Reach(policy, actions);
            RunFrom(policy, Step(policy, s, Crash(run)), more).log == s.log
  {
    EveryInterleavingIsConsistent(policy, actions);
    var s := Reach(policy, actions);
    CrashOrphans(policy, s, run);
    CrashKeeps(policy, s, run);
    OrphanedReservationBlocksForever(policy, Step(policy, s, Crash(run)), more);
  }
}
