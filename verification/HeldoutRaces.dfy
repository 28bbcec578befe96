/** Seals and invalidations of several processes as the two steps they are: a check of the log, and the
    append of the event. Exactly which interleavings keep every pool at no live seal or one. */
module HeldoutRaces {
  import opened Wrappers
  import opened Texts
  import opened HeldoutAccess
  import opened HeldoutRuns

  /** A log and, for each process, the event it has checked and not yet appended. */
  datatype State = State(log: seq<Event>, files: map<PoolKey, Bytes>, pending: map<nat, Event>)

  datatype Move =
    | CheckSeal(process: nat, pool: PoolKey)
    | CheckInvalidation(process: nat, pool: PoolKey, reason: Text)
    | Append(process: nat)
    | Crash(process: nat)
    | ReadPool(pool: PoolKey, purpose: Text)
    | Write(pool: PoolKey, content: Option<Bytes>)

  /** A check that refuses leaves its process without an event. */
  function After(digest: Bytes -> Digest, s: State, m: Move): State {
    match m
    case CheckSeal(process, pool) =>
      if SealRefusal(s.log, s.files, pool).Some? then s
      else s.(pending := s.pending[process := Sealed(pool, digest(s.files[pool]))])
    case CheckInvalidation(process, pool, reason) =>
      (match InvalidationDecision(s.log, pool, reason)
       case Failure(_) => s
       case Success(retired) => s.(pending := s.pending[process := Invalidated(pool, retired, Strip(reason))]))
    case Append(process) =>
      if process !in s.pending then s
      else s.(log := s.log + [s.pending[process]], pending := s.pending - {process})
    case Crash(process) => s.(pending := s.pending - {process})
    case ReadPool(pool, purpose) =>
      s.(log := HeldoutRuns.Step(digest, World(s.log, s.files, map[]), HeldoutRuns.ReadPool(pool, purpose)).log)
    case Write(pool, content) =>
      s.(files := if content.Some? then s.files[pool := content.value] else s.files - {pool})
  }

  function Reached(digest: Bytes -> Digest, files: map<PoolKey, Bytes>, moves: seq<Move>): State {
    if moves == [] then State([], files, map[])
    else After(digest, Reached(digest, files, moves[..|moves| - 1]), moves[|moves| - 1])
  }

  /** No live seal, or one. */
  ghost predicate AtMostOneSeal(log: seq<Event>, pool: PoolKey) {
    LiveStack(log, pool).Success? && |LiveStack(log, pool).value| <= 1
  }

  /** The check that the event passed would pass on this log too. */
  predicate StillPasses(log: seq<Event>, e: Event) {
    match e
    case Sealed(pool, _) => LiveCount(log, pool) <= 0
    case Invalidated(pool, _, _) => SealedDigest(log, pool).Success?
    case _ => true
  }

  ghost predicate IsAppendTo(s: State, m: Move, pool: PoolKey) {
    m.Append? && m.process in s.pending && !s.pending[m.process].Unrelated? && s.pending[m.process].pool == pool
  }

  /** At every append to the pool the check still passes. */
  ghost predicate AppendsStillPass(
      digest: Bytes -> Digest, files: map<PoolKey, Bytes>, moves: seq<Move>, pool: PoolKey)
  {
    moves == []
    || var front, m := moves[..|moves| - 1], moves[|moves| - 1];
       var s := Reached(digest, files, front);
       AppendsStillPass(digest, files, front, pool)
       && (IsAppendTo(s, m, pool) ==> StillPasses(s.log, s.pending[m.process]))
  }

  /** The pool has no live seal or one after every move. */
  ghost predicate AlwaysSound(digest: Bytes -> Digest, files: map<PoolKey, Bytes>, moves: seq<Move>, pool: PoolKey) {
    AtMostOneSeal(Reached(digest, files, moves).log, pool)
    && (moves != [] ==> AlwaysSound(digest, files, moves[..|moves| - 1], pool))
  }

  /** Only seals and invalidations are ever checked and not yet appended. */
  ghost predicate OnlySeals(s: State) {
    forall p :: p in s.pending ==> s.pending[p].Sealed? || s.pending[p].Invalidated?
  }

  lemma {:induction false} PendingAreSeals(digest: Bytes -> Digest, files: map<PoolKey, Bytes>, moves: seq<Move>)
    ensures OnlySeals(Reached(digest, files, moves))
  {
    if moves != [] {
      PendingAreSeals(digest, files, moves[..|moves| - 1]);
    }
  }

  lemma AppendDecides(log: seq<Event>, e: Event)
    requires (e.Sealed? || e.Invalidated?) && AtMostOneSeal(log, e.pool)
    ensures AtMostOneSeal(log + [e], e.pool) <==> StillPasses(log, e)
  {
    CountIsStackHeight(log, e.pool);
    assert (log + [e])[..|log|] == log;
  }

  lemma OtherMovesKeep(digest: Bytes -> Digest, s: State, m: Move, pool: PoolKey)
    requires OnlySeals(s) && !IsAppendTo(s, m, pool)
    ensures LiveStack(After(digest, s, m).log, pool) == LiveStack(s.log, pool)
  {
    var after := After(digest, s, m).log;
    if |after| > |s.log| {
      StackAfter(s.log, after[|s.log|], pool);
    }
  }

  /** Every pool keeps at most one live seal throughout exactly when at each append to it the check that
      went before would still pass. */
  lemma {:induction false} SoundExactlyWhenChecksHold(
      digest: Bytes -> Digest, files: map<PoolKey, Bytes>, moves: seq<Move>, pool: PoolKey)
    ensures AlwaysSound(digest, files, moves, pool) <==> AppendsStillPass(digest, files, moves, pool)
  {
    if moves != [] {
      var front, m := moves[..|moves| - 1], moves[|moves| - 1];
      var s := Reached(digest, files, front);
      SoundExactlyWhenChecksHold(digest, files, front, pool);
      PendingAreSeals(digest, files, front);
      if IsAppendTo(s, m, pool) {
        if AtMostOneSeal(s.log, pool) {
          AppendDecides(s.log, s.pending[m.process]);
        }
      } else {
        OtherMovesKeep(digest, s, m, pool);
      }
    }
  }

  // ----- One operation of a pool at a time -----

  ghost predicate Waits(s: State, process: nat, pool: PoolKey) {
    process in s.pending && !s.pending[process].Unrelated? && s.pending[process].pool == pool
  }

  /** Nobody checks a pool while another process has a checked event of that pool to append. */
  ghost predicate OneAtATime(digest: Bytes -> Digest, files: map<PoolKey, Bytes>, moves: seq<Move>, pool: PoolKey) {
    moves == []
    || var front, m := moves[..|moves| - 1], moves[|moves| - 1];
       OneAtATime(digest, files, front, pool)
       && ((m.CheckSeal? || m.CheckInvalidation?) && m.pool == pool ==>
             forall p :: Waits(Reached(digest, files, front), p, pool) ==> p == m.process)
  }

  /** At most one event of the pool waits, and its check still passes. */
  ghost predicate WaitingHolds(s: State, pool: PoolKey) {
    && (forall p, q :: Waits(s, p, pool) && Waits(s, q, pool) ==> p == q)
    && (forall p :: Waits(s, p, pool) ==> StillPasses(s.log, s.pending[p]))
  }

  lemma CountAfter(log: seq<Event>, e: Event, pool: PoolKey)
    requires e.Unrelated? || e.Accessed? || e.pool != pool
    ensures LiveCount(log + [e], pool) == LiveCount(log, pool)
    ensures SealedDigest(log + [e], pool) == SealedDigest(log, pool)
  {
    StackAfter(log, e, pool);
  }

  lemma MoveKeepsWaiting(digest: Bytes -> Digest, s: State, m: Move, pool: PoolKey)
    requires OnlySeals(s) && WaitingHolds(s, pool)
    requires (m.CheckSeal? || m.CheckInvalidation?) && m.pool == pool ==>
      forall p :: Waits(s, p, pool) ==> p == m.process
    ensures WaitingHolds(After(digest, s, m), pool)
  {
    var t := After(digest, s, m);
    if |t.log| > |s.log| {
      var e := t.log[|s.log|];
      if e.Unrelated? || e.Accessed? || e.pool != pool {
        CountAfter(s.log, e, pool);
      } else {
        assert Waits(s, m.process, pool);
      }
    }
    forall p | Waits(t, p, pool)
      ensures StillPasses(t.log, t.pending[p])
    {
      if m.Append? || m.Crash? || m.ReadPool? || m.Write? || m.process != p {
        assert Waits(s, p, pool);
      }
    }
    forall p, q | Waits(t, p, pool) && Waits(t, q, pool)
      ensures p == q
    {
      assert Waits(s, p, pool) || ((m.CheckSeal? || m.CheckInvalidation?) && m.process == p);
      assert Waits(s, q, pool) || ((m.CheckSeal? || m.CheckInvalidation?) && m.process == q);
    }
  }

  lemma {:induction false} OneAtATimeHolds(
      digest: Bytes -> Digest, files: map<PoolKey, Bytes>, moves: seq<Move>, pool: PoolKey)
    requires OneAtATime(digest, files, moves, pool)
    ensures WaitingHolds(Reached(digest, files, moves), pool) && AppendsStillPass(digest, files, moves, pool)
  {
    if moves != [] {
      var front, m := moves[..|moves| - 1], moves[|moves| - 1];
      var s := Reached(digest, files, front);
      OneAtATimeHolds(digest, files, front, pool);
      PendingAreSeals(digest, files, front);
      MoveKeepsWaiting(digest, s, m, pool);
      if IsAppendTo(s, m, pool) {
        assert Waits(s, m.process, pool);
      }
    }
  }

  /** If the operations of a pool exclude one another, it has no live seal or one after every move. */
  lemma ExclusionSuffices(digest: Bytes -> Digest, files: map<PoolKey, Bytes>, moves: seq<Move>, pool: PoolKey)
    requires OneAtATime(digest, files, moves, pool)
    ensures AlwaysSound(digest, files, moves, pool)
  {
    OneAtATimeHolds(digest, files, moves, pool);
    SoundExactlyWhenChecksHold(digest, files, moves, pool);
  }

  // ----- Two invalidations that race -----

  /** Two invalidations whose checks both saw the one live seal leave the pool unreadable for good, though
      the next seal is still accepted. */
  lemma RacedInvalidationsStrandPool(
      digest: Bytes -> Digest, w: World, pool: PoolKey, sealedDigest: Digest, reason: Text, other: Text,
      actions: seq<Action>)
    requires LiveStack(w.log, pool) == Success([sealedDigest])
    ensures var log := w.log + [Invalidated(pool, sealedDigest, reason)] + [Invalidated(pool, sealedDigest, other)];
            && SealedDigest(RunFrom(digest, w.(log := log), actions).log, pool) == Failure(InvalidationWithoutSeal)
            && LiveCount(log, pool) == -1
            && (pool in w.files ==> SealRefusal(log, w.files, pool) == None)
  {
    var once := w.log + [Invalidated(pool, sealedDigest, reason)];
    var log := once + [Invalidated(pool, sealedDigest, other)];
    StackAfter(w.log, Invalidated(pool, sealedDigest, reason), pool);
    StackAfter(once, Invalidated(pool, sealedDigest, other), pool);
    CountIsStackHeight(w.log, pool);
    LogsOnlyGrow(digest, w.(log := log), actions);
    var after := RunFrom(digest, w.(log := log), actions).log;
    assert after[..|log|] == log;
    StackFailureIsFinal(after, pool, |log|);
  }

  lemma {:induction false} LogsOnlyGrow(digest: Bytes -> Digest, w: World, actions: seq<Action>)
    ensures w.log <= RunFrom(digest, w, actions).log
  {
    if actions != [] {
      LogsOnlyGrow(digest, w, actions[..|actions| - 1]);
    }
  }
}
