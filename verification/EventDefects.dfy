/** What verifying an event file means, line by line: the events it yields, or the first line that does not fit and
    what is wrong with it. */
module EventDefects {
  import opened Wrappers
  import opened Texts
  import opened EventLog

  /** Sixty-four zeros. */
  predicate IsGenesis(d: Digest) {
    |d| == 64 && forall i :: 0 <= i < 64 ==> d[i] == 0x30
  }

  /** The event of line k names the digest of the line before it, or the first digest of all. */
  predicate NamesPrevious(lines: seq<Option<Event>>, k: nat)
    requires k < |lines| && lines[k].Some?
  {
    var previous := lines[k].value.content.previous;
    if k == 0 then IsGenesis(previous) else lines[k - 1].Some? && previous == lines[k - 1].value.hash
  }

  ghost predicate FitsAt(h: Hash, lines: seq<Option<Event>>, k: nat)
    requires k < |lines|
  {
    && lines[k].Some? && lines[k].value.content.sequence == k && NamesPrevious(lines, k)
    && lines[k].value.hash == h(lines[k].value.content)
  }

  ghost predicate AllFit(h: Hash, lines: seq<Option<Event>>, n: nat)
    requires n <= |lines|
  {
    forall k :: 0 <= k < n ==> FitsAt(h, lines, k)
  }

  /** What is wrong with line k, in the order of the checks. */
  ghost predicate DefectAt(h: Hash, lines: seq<Option<Event>>, k: nat, e: LogError)
    requires k < |lines|
  {
    match e
    case InvalidKind => false
    case Malformed => lines[k].None?
    case SequenceGap => lines[k].Some? && lines[k].value.content.sequence != k
    case ChainBroken => lines[k].Some? && lines[k].value.content.sequence == k && !NamesPrevious(lines, k)
    case HashMismatch =>
      lines[k].Some? && lines[k].value.content.sequence == k && NamesPrevious(lines, k)
      && lines[k].value.hash != h(lines[k].value.content)
  }

  ghost predicate FirstDefect(h: Hash, lines: seq<Option<Event>>, k: nat, e: LogError) {
    k < |lines| && AllFit(h, lines, k) && DefectAt(h, lines, k, e)
  }

  ghost predicate AreEvents(h: Hash, lines: seq<Option<Event>>, events: seq<Event>) {
    && |events| == |lines| && AllFit(h, lines, |lines|)
    && forall k :: 0 <= k < |lines| ==> lines[k] == Some(events[k])
  }

  lemma {:induction false} ZerosAreZeros(n: nat)
    ensures |Zeros(n)| == n && forall i :: 0 <= i < n ==> Zeros(n)[i] == 0x30
  {
    if n > 0 {
      ZerosAreZeros(n - 1);
    }
  }

  lemma GenesisIs(d: Digest)
    ensures IsGenesis(d) <==> d == GENESIS
  {
    ZerosAreZeros(64);
  }

  lemma DefectIsWhatIsWrong(h: Hash, lines: seq<Option<Event>>, events: seq<Event>)
    requires lines != [] && AreEvents(h, lines[..|lines| - 1], events)
    ensures var k := |lines| - 1;
            && (Defect(h, events, lines[k]).None? <==> FitsAt(h, lines, k))
            && (forall e :: Defect(h, events, lines[k]) == Some(e) <==> DefectAt(h, lines, k, e))
  {
    var k := |lines| - 1;
    if lines[k].Some? {
      GenesisIs(lines[k].value.content.previous);
      if k > 0 {
        assert lines[..k][k - 1] == Some(events[k - 1]);
      }
    }
  }

  lemma FrontFits(h: Hash, lines: seq<Option<Event>>, n: nat)
    requires n < |lines|
    ensures AllFit(h, lines[..|lines| - 1], n) <==> AllFit(h, lines, n)
  {
    var front := lines[..|lines| - 1];
    assert forall k :: 0 <= k < n ==> (FitsAt(h, front, k) <==> FitsAt(h, lines, k));
  }

  lemma EventsGrow(h: Hash, lines: seq<Option<Event>>, events: seq<Event>)
    requires lines != [] && AreEvents(h, lines[..|lines| - 1], events) && FitsAt(h, lines, |lines| - 1)
    ensures AreEvents(h, lines, events + [lines[|lines| - 1].value])
  {
    var n := |lines| - 1;
    FrontFits(h, lines, n);
    assert forall k :: 0 <= k < n ==> lines[..n][k] == lines[k];
  }

  /** The events of a file in which every line fits, or what is wrong with the first line that does not. */
  ghost predicate IsVerdict(h: Hash, lines: seq<Option<Event>>, r: Result<seq<Event>, LogError>) {
    match r
    case Success(events) => AreEvents(h, lines, events)
    case Failure(e) => exists k :: FirstDefect(h, lines, k, e)
  }

  lemma {:induction false} VerifiedIsVerdict(h: Hash, lines: seq<Option<Event>>)
    ensures IsVerdict(h, lines, Verified(h, lines))
  {
    if lines != [] {
      var n := |lines| - 1;
      var front := lines[..n];
      VerifiedIsVerdict(h, front);
      FrontFits(h, lines, n);
      match Verified(h, front)
      case Failure(e) =>
        var k :| FirstDefect(h, front, k, e);
        FrontFits(h, lines, k);
        assert FirstDefect(h, lines, k, e);
      case Success(events) =>
        DefectIsWhatIsWrong(h, lines, events);
        if Defect(h, events, lines[n]).Some? {
          assert FirstDefect(h, lines, n, Defect(h, events, lines[n]).value);
        } else {
          EventsGrow(h, lines, events);
        }
    }
  }

  lemma OneDefect(h: Hash, lines: seq<Option<Event>>, k: nat, e: LogError, k': nat, e': LogError)
    requires FirstDefect(h, lines, k, e) && FirstDefect(h, lines, k', e')
    ensures e == e'
  {
    assert k < k' ==> FitsAt(h, lines, k);
    assert k' < k ==> FitsAt(h, lines, k');
  }

  lemma DefectDoesNotFit(h: Hash, lines: seq<Option<Event>>, k: nat, e: LogError)
    requires FirstDefect(h, lines, k, e)
    ensures !FitsAt(h, lines, k)
  {
  }

  lemma OneVerdict(
      h: Hash, lines: seq<Option<Event>>, r: Result<seq<Event>, LogError>, r': Result<seq<Event>, LogError>)
    requires IsVerdict(h, lines, r) && IsVerdict(h, lines, r')
    ensures r == r'
  {
    if r.Failure? {
      var k :| FirstDefect(h, lines, k, r.error);
      DefectDoesNotFit(h, lines, k, r.error);
      if r'.Failure? {
        var k' :| FirstDefect(h, lines, k', r'.error);
        OneDefect(h, lines, k, r.error, k', r'.error);
      }
    } else if r'.Failure? {
      var k' :| FirstDefect(h, lines, k', r'.error);
      DefectDoesNotFit(h, lines, k', r'.error);
    } else {
      assert forall k :: 0 <= k < |lines| ==> Some(r.value[k]) == lines[k];
      assert r.value == r'.value;
    }
  }

  /** Verifying yields exactly the events of a file in which every line fits, and otherwise exactly what is wrong with
      the first line that does not. */
  lemma VerifyIsExact(h: Hash, lines: seq<Option<Event>>, r: Result<seq<Event>, LogError>)
    ensures Verified(h, lines) == r <==> IsVerdict(h, lines, r)
  {
    VerifiedIsVerdict(h, lines);
    if IsVerdict(h, lines, r) {
      OneVerdict(h, lines, r, Verified(h, lines));
    }
  }

  /** The character is a lower-case letter. */
  predicate IsLetter(c: CodePoint) {
    0x61 <= c <= 0x7A
  }

  /** A letter, and after it at most 63 letters, digits and underscores. */
  ghost predicate IsSpelled(kind: Text, c: CodePoint, rest: Text) {
    && kind == [c] + rest && IsLetter(c) && |rest| <= 63
    && forall i :: 0 <= i < |rest| ==> IsLetter(rest[i]) || 0x30 <= rest[i] <= 0x39 || rest[i] == 0x5F
  }

  lemma SpelledIsValid(kind: Text, c: CodePoint, rest: Text)
    requires IsSpelled(kind, c, rest)
    ensures ValidKind(kind)
  {
    assert forall i :: 0 < i < |kind| ==> kind[i] == rest[i - 1];
  }

  /** Exactly such kinds are valid. */
  lemma KindIsExact(kind: Text)
    ensures ValidKind(kind) <==> exists c, rest :: IsSpelled(kind, c, rest)
  {
    if ValidKind(kind) {
      assert IsSpelled(kind, kind[0], kind[1..]);
    }
    if c, rest :| IsSpelled(kind, c, rest) {
      SpelledIsValid(kind, c, rest);
    }
  }
}
