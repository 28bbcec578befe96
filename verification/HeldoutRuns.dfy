/** Every run of seals, invalidations, reads and outside writes over any number of pools. */
module HeldoutRuns {
  import opened Wrappers
  import opened Texts
  import opened HeldoutAccess

  /** The counter and the stack of one pool agree on every readable log. */
  lemma {:induction false} CountIsStackHeight(log: seq<Event>, pool: PoolKey)
    requires LiveStack(log, pool).Success?
    ensures LiveCount(log, pool) == |LiveStack(log, pool).value|
  {
    if log != [] {
      CountIsStackHeight(log[..|log| - 1], pool);
    }
  }

  /** The world of a run: the log, the files, and, for the proof only, what was in a pool when it was last sealed. */
  datatype World = World(log: seq<Event>, files: map<PoolKey, Bytes>, sealedAs: map<PoolKey, Bytes>)

  datatype Action =
    | SealPool(pool: PoolKey)
    | InvalidatePool(pool: PoolKey, reason: Text)
    | ReadPool(pool: PoolKey, purpose: Text)
    | OutsideWrite(pool: PoolKey, content: Option<Bytes>)
    | OtherAppend

  function Step(digest: Bytes -> Digest, w: World, a: Action): World {
    match a
    case SealPool(pool) =>
      if SealRefusal(w.log, w.files, pool).Some? then w
      else World(w.log + [Sealed(pool, digest(w.files[pool]))], w.files, w.sealedAs[pool := w.files[pool]])
    case InvalidatePool(pool, reason) =>
      (match InvalidationDecision(w.log, pool, reason)
       case Failure(_) => w
       case Success(retired) => w.(log := w.log + [Invalidated(pool, retired, Strip(reason))]))
    case ReadPool(pool, purpose) =>
      (match SealedDigest(w.log, pool)
       case Failure(_) => w
       case Success(expected) =>
         if pool !in w.files then w
         else
           var actual := digest(w.files[pool]);
           w.(log := w.log + [Accessed(pool, purpose, actual, expected, actual == expected)]))
    case OutsideWrite(pool, content) =>
      w.(files := if content.Some? then w.files[pool := content.value] else w.files - {pool})
    case OtherAppend => w.(log := w.log + [Unrelated])
  }

  /** The call that an action stands for has the effect of the step. */
  method Perform(pools: Pools, a: Action)
    modifies pools
    ensures var w := Step(pools.digest, World(old(pools.log), old(pools.files), map[]), a);
            pools.log == w.log && pools.files == w.files
  {
    match a
    case SealPool(pool) =>
      var event := pools.Seal(pool);
    case InvalidatePool(pool, reason) =>
      var event := pools.InvalidateSeal(pool, reason);
    case ReadPool(pool, purpose) =>
      var data := pools.Read(pool, purpose);
    case OutsideWrite(pool, content) =>
      pools.files := if content.Some? then pools.files[pool := content.value] else pools.files - {pool};
    case OtherAppend =>
      pools.log := pools.log + [Unrelated];
  }

  function RunFrom(digest: Bytes -> Digest, w: World, actions: seq<Action>): World {
    if actions == [] then w
    else Step(digest, RunFrom(digest, w, actions[..|actions| - 1]), actions[|actions| - 1])
  }

  function Run(digest: Bytes -> Digest, files: map<PoolKey, Bytes>, actions: seq<Action>): World {
    RunFrom(digest, World([], files, map[]), actions)
  }

  /** No live seal, or one, whose digest is that of the bytes present when it was made. */
  ghost predicate PoolSound(digest: Bytes -> Digest, w: World, pool: PoolKey) {
    LiveStack(w.log, pool) == Success([])
    || (pool in w.sealedAs && LiveStack(w.log, pool) == Success([digest(w.sealedAs[pool])]))
  }

  lemma StackAfter(log: seq<Event>, e: Event, pool: PoolKey)
    ensures (log + [e])[..|log|] == log
    ensures e.Unrelated? || e.Accessed? || e.pool != pool ==> LiveStack(log + [e], pool) == LiveStack(log, pool)
  {
    assert (log + [e])[..|log|] == log;
  }

  /** An operation on one pool leaves every other pool's seals as they were. */
  lemma PoolsAreIndependent(digest: Bytes -> Digest, w: World, a: Action, other: PoolKey)
    requires a.OtherAppend? || a.pool != other
    ensures LiveStack(Step(digest, w, a).log, other) == LiveStack(w.log, other)
  {
    var after := Step(digest, w, a).log;
    if |after| > |w.log| {
      StackAfter(w.log, after[|w.log|], other);
    }
  }

  lemma StepKeepsSound(digest: Bytes -> Digest, w: World, a: Action, pool: PoolKey)
    requires PoolSound(digest, w, pool)
    ensures PoolSound(digest, Step(digest, w, a), pool)
  {
    var after := Step(digest, w, a).log;
    CountIsStackHeight(w.log, pool);
    if |after| > |w.log| {
      var e := after[|w.log|];
      StackAfter(w.log, e, pool);
      if e.Sealed? && e.pool == pool {
        assert LiveStack(after, pool) == Success([] + [e.digest]);
        assert [] + [e.digest] == [e.digest];
      } else if e.Invalidated? && e.pool == pool {
        assert LiveStack(w.log, pool).value[..0] == [];
      }
    }
  }

  lemma {:induction false} EveryRunIsSound(
      digest: Bytes -> Digest, files: map<PoolKey, Bytes>, actions: seq<Action>, pool: PoolKey)
    ensures var w := Run(digest, files, actions);
            PoolSound(digest, w, pool) && 0 <= LiveCount(w.log, pool) <= 1
  {
    if actions != [] {
      EveryRunIsSound(digest, files, actions[..|actions| - 1], pool);
      StepKeepsSound(digest, Run(digest, files, actions[..|actions| - 1]), actions[|actions| - 1], pool);
    }
    CountIsStackHeight(Run(digest, files, actions).log, pool);
  }

  /** A read that succeeds returns bytes with the digest of those present when the live seal was made: the
      same bytes, or these two byte strings collide. It leaves a matching access event. */
  lemma ReadsReturnSealedBytes(
      digest: Bytes -> Digest, files: map<PoolKey, Bytes>, actions: seq<Action>, pool: PoolKey, purpose: Text)
    requires var w := Run(digest, files, actions);
             pool in w.files && SealedDigest(w.log, pool) == Success(digest(w.files[pool]))
    ensures var w := Run(digest, files, actions);
            && pool in w.sealedAs && digest(w.files[pool]) == digest(w.sealedAs[pool])
            && var after := Step(digest, w, ReadPool(pool, purpose)).log;
            && |after| == |w.log| + 1 && after[|w.log|].Accessed? && after[|w.log|].matches
            && after[|w.log|].pool == pool
  {
    EveryRunIsSound(digest, files, actions, pool);
  }

  /** While no seal is live nothing is served, and a pool may be sealed exactly when it has no live seal. */
  lemma SealingIsExclusive(digest: Bytes -> Digest, files: map<PoolKey, Bytes>, actions: seq<Action>, pool: PoolKey)
    requires pool in Run(digest, files, actions).files
    ensures var w := Run(digest, files, actions);
            SealRefusal(w.log, w.files, pool).None? <==> SealedDigest(w.log, pool).Failure?
  {
    EveryRunIsSound(digest, files, actions, pool);
    CountIsStackHeight(Run(digest, files, actions).log, pool);
  }

  /** In every run, a seal is refused as a second one exactly while one is live, and for a missing file otherwise. */
  lemma RefusalsAreExact(digest: Bytes -> Digest, files: map<PoolKey, Bytes>, actions: seq<Action>, pool: PoolKey)
    ensures var w := Run(digest, files, actions); var r := SealRefusal(w.log, w.files, pool);
            && (r == Some(AlreadySealed) <==> LiveStack(w.log, pool) != Success([]))
            && (r == Some(FileMissing) <==> LiveStack(w.log, pool) == Success([]) && pool !in w.files)
            && (r == None <==> LiveStack(w.log, pool) == Success([]) && pool in w.files)
  {
    EveryRunIsSound(digest, files, actions, pool);
    CountIsStackHeight(Run(digest, files, actions).log, pool);
  }

  /** A seal is retired exactly when it is the one live seal and the reason, from its first to its last visible
      character, is at least twenty characters long. */
  lemma RetiringIsExact(log: seq<Event>, pool: PoolKey, reason: Text, retired: Digest)
    ensures InvalidationDecision(log, pool, reason) == Success(retired) <==>
      && LiveStack(log, pool) == Success([retired])
      && exists first: nat, last: nat ::
           first + 19 <= last < |reason| && !IsSpace(reason[first]) && !IsSpace(reason[last])
  {
    var a, b := StripShape(reason);
    if LiveStack(log, pool).Success? && |LiveStack(log, pool).value| == 1 {
      var live := LiveStack(log, pool).value;
      assert live == [live[0]];
    }
    if b - a >= 20 {
      assert a + 19 <= b - 1 < |reason| && !IsSpace(reason[a]) && !IsSpace(reason[b - 1]);
    }
  }

  // ----- Two seals that race -----

  /** The events of one pool. */
  function EventsOf(log: seq<Event>, pool: PoolKey): seq<Event> {
    if log == [] then []
    else
      var front, last := EventsOf(log[..|log| - 1], pool), log[|log| - 1];
      if !last.Unrelated? && last.pool == pool then front + [last] else front
  }

  ghost predicate DoublySealed(log: seq<Event>, pool: PoolKey) {
    LiveStack(log, pool).Success? && |LiveStack(log, pool).value| == 2
  }

  lemma DoubleSealRefuses(digest: Bytes -> Digest, w: World, pool: PoolKey, a: Action)
    requires DoublySealed(w.log, pool)
    ensures var after := Step(digest, w, a).log;
            DoublySealed(after, pool) && EventsOf(after, pool) == EventsOf(w.log, pool)
  {
    CountIsStackHeight(w.log, pool);
    var after := Step(digest, w, a).log;
    if |after| > |w.log| {
      StackAfter(w.log, after[|w.log|], pool);
    }
  }

  /** With two live seals a pool is frozen: no run ever adds an event of the pool or removes a seal. */
  lemma {:induction false} DoublySealedForever(digest: Bytes -> Digest, w: World, pool: PoolKey, actions: seq<Action>)
    requires DoublySealed(w.log, pool)
    ensures var after := RunFrom(digest, w, actions).log;
            DoublySealed(after, pool) && EventsOf(after, pool) == EventsOf(w.log, pool)
            && SealedDigest(after, pool) == Failure(NotExactlyOneSeal)
  {
    if actions != [] {
      DoublySealedForever(digest, w, pool, actions[..|actions| - 1]);
      DoubleSealRefuses(digest, RunFrom(digest, w, actions[..|actions| - 1]), pool, actions[|actions| - 1]);
    }
  }

  /** Two seals whose checks both ran before either append leave two live seals. Whatever happens next, to
      this pool, to others or to the files, no read, seal or invalidation of this pool is accepted again. */
  lemma RacedSealsFailClosed(
      digest: Bytes -> Digest, w: World, pool: PoolKey, first: Bytes, second: Bytes, actions: seq<Action>)
    requires LiveStack(w.log, pool) == Success([])
    ensures var raced := w.(log := w.log + [Sealed(pool, digest(first))] + [Sealed(pool, digest(second))]);
            var after := RunFrom(digest, raced, actions).log;
            && EventsOf(after, pool) == EventsOf(raced.log, pool)
            && SealedDigest(after, pool) == Failure(NotExactlyOneSeal)
  {
    var once := w.log + [Sealed(pool, digest(first))];
    var log := once + [Sealed(pool, digest(second))];
    StackAfter(w.log, Sealed(pool, digest(first)), pool);
    StackAfter(once, Sealed(pool, digest(second)), pool);
    assert DoublySealed(log, pool);
    DoublySealedForever(digest, w.(log := log), pool, actions);
  }
}
