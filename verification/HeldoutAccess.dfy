/** Sealed held-out pools: a pool is read only while its bytes are those of its one live seal,
    and every read leaves an event. Outside writes to the pool file are not policed. */
module HeldoutAccess {
  import opened Wrappers
  import opened Texts

  type Bytes = seq<int>

  type Digest = Text

  type PoolKey = Text

  datatype Event =
    | Sealed(pool: PoolKey, digest: Digest)
    | Invalidated(pool: PoolKey, retired: Digest, reason: Text)
    | Accessed(pool: PoolKey, purpose: Text, digest: Digest, sealedDigest: Digest, matches: bool)
    | Unrelated

  datatype SealError =
    | InvalidationWithoutSeal
    | NotExactlyOneSeal
    | ReasonTooShort
    | AlreadySealed
    | FileMissing
    | DigestDiffers

  /** The digests pushed by seals and not yet popped by invalidations of a pool. */
  function LiveStack(log: seq<Event>, pool: PoolKey): Result<seq<Digest>, SealError> {
    if log == [] then Success([])
    else
      match (LiveStack(log[..|log| - 1], pool), log[|log| - 1])
      case (Failure(e), _) => Failure(e)
      case (Success(live), Sealed(p, digest)) => if p == pool then Success(live + [digest]) else Success(live)
      case (Success(live), Invalidated(p, _, _)) =>
        if p != pool then Success(live)
        else if live == [] then Failure(InvalidationWithoutSeal)
        else Success(live[..|live| - 1])
      case (Success(live), _) => Success(live)
  }

  /** Seals minus invalidations of a pool. */
  function LiveCount(log: seq<Event>, pool: PoolKey): int {
    if log == [] then 0
    else
      LiveCount(log[..|log| - 1], pool) + match log[|log| - 1]
      case Sealed(p, _) => if p == pool then 1 else 0
      case Invalidated(p, _, _) => if p == pool then -1 else 0
      case _ => 0
  }

  function SealedDigest(log: seq<Event>, pool: PoolKey): Result<Digest, SealError> {
    match LiveStack(log, pool)
    case Failure(e) => Failure(e)
    case Success(live) => if |live| == 1 then Success(live[0]) else Failure(NotExactlyOneSeal)
  }

  /** Why `seal` refuses, if it does. */
  function SealRefusal(log: seq<Event>, files: map<PoolKey, Bytes>, pool: PoolKey): Option<SealError> {
    if LiveCount(log, pool) > 0 then Some(AlreadySealed)
    else if pool !in files then Some(FileMissing)
    else None
  }

  function InvalidationDecision(log: seq<Event>, pool: PoolKey, reason: Text): Result<Digest, SealError> {
    if |Strip(reason)| < 20 then Failure(ReasonTooShort) else SealedDigest(log, pool)
  }

  /** The event log and the pool files, under any digest function. */
  class Pools {
    const digest: Bytes -> Digest
    var log: seq<Event>
    var files: map<PoolKey, Bytes>

    constructor (digest: Bytes -> Digest, files: map<PoolKey, Bytes>)
      ensures this.digest == digest && log == [] && this.files == files
    {
      this.digest, log, this.files := digest, [], files;
    }

    method FindSealedDigest(pool: PoolKey) returns (r: Result<Digest, SealError>)
      ensures r == SealedDigest(log, pool)
    {
      var live: seq<Digest> := [];
      for k := 0 to |log|
        invariant LiveStack(log[..k], pool) == Success(live)
      {
        assert log[..k + 1][..k] == log[..k];
        match log[k]
        case Sealed(p, d) =>
          if p == pool {
            live := live + [d];
          }
        case Invalidated(p, _, _) =>
          if p == pool {
            if live == [] {
              StackFailureIsFinal(log, pool, k + 1);
              return Failure(InvalidationWithoutSeal);
            }
            live := live[..|live| - 1];
          }
        case Accessed(_, _, _, _, _) =>
        case Unrelated =>
      }
      assert log[..|log|] == log;
      r := if |live| == 1 then Success(live[0]) else Failure(NotExactlyOneSeal);
    }

    method CountLiveSeals(pool: PoolKey) returns (live: int)
      ensures live == LiveCount(log, pool)
    {
      live := 0;
      for k := 0 to |log|
        invariant live == LiveCount(log[..k], pool)
      {
        assert log[..k + 1][..k] == log[..k];
        if log[k].Sealed? && log[k].pool == pool {
          live := live + 1;
        } else if log[k].Invalidated? && log[k].pool == pool {
          live := live - 1;
        }
      }
      assert log[..|log|] == log;
    }

    method Seal(pool: PoolKey) returns (r: Result<Event, SealError>)
      modifies this`log
      ensures match SealRefusal(old(log), files, pool)
        case Some(e) => r == Failure(e) && log == old(log)
        case None => r == Success(Sealed(pool, digest(files[pool]))) && log == old(log) + [r.value]
    {
      var live := CountLiveSeals(pool);
      if live > 0 {
        return Failure(AlreadySealed);
      }
      if pool !in files {
        return Failure(FileMissing);
      }
      var event := Sealed(pool, digest(files[pool]));
      log := log + [event];
      r := Success(event);
    }

    method InvalidateSeal(pool: PoolKey, reason: Text) returns (r: Result<Event, SealError>)
      modifies this`log
      ensures match InvalidationDecision(old(log), pool, reason)
        case Failure(e) => r == Failure(e) && log == old(log)
        case Success(retired) => r == Success(Invalidated(pool, retired, Strip(reason))) && log == old(log) + [r.value]
    {
      if |Strip(reason)| < 20 {
        return Failure(ReasonTooShort);
      }
      var sealedDigest := FindSealedDigest(pool);
      if sealedDigest.Failure? {
        return Failure(sealedDigest.error);
      }
      var event := Invalidated(pool, sealedDigest.value, Strip(reason));
      log := log + [event];
      r := Success(event);
    }

    /** A failed comparison is logged as well; only bytes that match the seal are returned. */
    method Read(pool: PoolKey, purpose: Text) returns (r: Result<Bytes, SealError>)
      modifies this`log
      ensures match SealedDigest(old(log), pool)
        case Failure(e) => r == Failure(e) && log == old(log)
        case Success(expected) =>
          if pool !in files then r == Failure(FileMissing) && log == old(log)
          else
            var actual := digest(files[pool]);
            log == old(log) + [Accessed(pool, purpose, actual, expected, actual == expected)]
            && r == if actual == expected then Success(files[pool]) else Failure(DigestDiffers)
    {
      var expected := FindSealedDigest(pool);
      if expected.Failure? {
        return Failure(expected.error);
      }
      if pool !in files {
        return Failure(FileMissing);
      }
      var data := files[pool];
      var actual := digest(data);
      log := log + [Accessed(pool, purpose, actual, expected.value, actual == expected.value)];
      r := if actual == expected.value then Success(data) else Failure(DigestDiffers);
    }
  }

  lemma {:induction false} StackFailureIsFinal(log: seq<Event>, pool: PoolKey, k: nat)
    requires k <= |log| && LiveStack(log[..k], pool).Failure?
    ensures LiveStack(log, pool) == Failure(LiveStack(log[..k], pool).error)
    decreases |log| - k
  {
    if k < |log| {
      assert log[..k + 1][..k] == log[..k];
      StackFailureIsFinal(log, pool, k + 1);
    } else {
      assert log[..k] == log;
    }
  }
}
