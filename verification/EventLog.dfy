/** The append-only, hash-chained event log. The digest is any function of an event's content:
    where a result rests on its collision resistance, a collision is produced instead of assumed away. */
module EventLog {
  import opened Wrappers
  import opened Texts

  type Digest = Text

  /** A payload is a JSON object, written canonically. */
  type Payload = Text

  datatype Content = Content(sequence: nat, kind: Text, payload: Payload, previous: Digest)

  datatype Event = Event(content: Content, hash: Digest)

  type Hash = Content -> Digest

  function Zeros(n: nat): Text {
    if n == 0 then [] else [0x30] + Zeros(n - 1)
  }

  const GENESIS: Digest := Zeros(64)

  datatype LogError = InvalidKind | Malformed | SequenceGap | ChainBroken | HashMismatch

  /** The digest that the next event must name. */
  function Tip(log: seq<Event>): Digest {
    if log == [] then GENESIS else log[|log| - 1].hash
  }

  /** Numbered from zero, each event naming the one before it and hashing to its own digest. */
  predicate Chained(h: Hash, log: seq<Event>) {
    log == []
    || var front, last := log[..|log| - 1], log[|log| - 1];
       Chained(h, front)
       && last.content.sequence == |front| && last.content.previous == Tip(front) && last.hash == h(last.content)
  }

  /** The events of a file's lines, None standing for a line that does not parse. */
  function Parsed(lines: seq<Option<Event>>): Option<seq<Event>> {
    if lines == [] then Some([])
    else
      match (Parsed(lines[..|lines| - 1]), lines[|lines| - 1])
      case (Some(front), Some(e)) => Some(front + [e])
      case (_, _) => None
  }

  /** What is wrong with a line after the given events, if anything. */
  function Defect(h: Hash, events: seq<Event>, line: Option<Event>): Option<LogError> {
    if line.None? then Some(Malformed)
    else if line.value.content.sequence != |events| then Some(SequenceGap)
    else if line.value.content.previous != Tip(events) then Some(ChainBroken)
    else if line.value.hash != h(line.value.content) then Some(HashMismatch)
    else None
  }

  /** The events of a file, or its first defect. */
  function Verified(h: Hash, lines: seq<Option<Event>>): Result<seq<Event>, LogError> {
    if lines == [] then Success([])
    else
      var last := lines[|lines| - 1];
      match Verified(h, lines[..|lines| - 1])
      case Failure(e) => Failure(e)
      case Success(events) =>
        match Defect(h, events, last)
        case Some(e) => Failure(e)
        case None => Success(events + [last.value])
  }

  /** A lower-case letter and at most 63 letters, digits and underscores. */
  predicate ValidKind(kind: Text) {
    && 1 <= |kind| <= 64 && 0x61 <= kind[0] <= 0x7A
    && forall i :: 0 <= i < |kind| ==> 0x61 <= kind[i] <= 0x7A || 0x30 <= kind[i] <= 0x39 || kind[i] == 0x5F
  }

  function NewEvent(h: Hash, log: seq<Event>, kind: Text, payload: Payload): Event {
    var content := Content(|log|, kind, payload, Tip(log));
    Event(content, h(content))
  }

  function Appended(h: Hash, log: seq<Event>, kind: Text, payload: Payload): seq<Event> {
    log + [NewEvent(h, log, kind, payload)]
  }

  /** The file of events, line by line. */
  class EventFile {
    const h: Hash
    var lines: seq<Option<Event>>

    constructor (h: Hash, lines: seq<Option<Event>>)
      ensures this.h == h && this.lines == lines
    {
      this.h, this.lines := h, lines;
    }

    method Verify() returns (r: Result<seq<Event>, LogError>)
      ensures r == Verified(h, lines)
    {
      var events: seq<Event>, expectedPrevious := [], GENESIS;
      for i := 0 to |lines|
        invariant Verified(h, lines[..i]) == Success(events)
        invariant expectedPrevious == Tip(events)
      {
        VerifiedStep(h, lines, i, events);
        if lines[i].None? {
          return Failure(Malformed);
        }
        var event := lines[i].value;
        if event.content.sequence != |events| {
          return Failure(SequenceGap);
        }
        if event.content.previous != expectedPrevious {
          return Failure(ChainBroken);
        }
        if event.hash != h(event.content) {
          return Failure(HashMismatch);
        }
        events := events + [event];
        expectedPrevious := event.hash;
      }
      assert lines[..|lines|] == lines;
      r := Success(events);
    }

    /** A file with a defect is left as it is. */
    method Append(kind: Text, payload: Payload) returns (r: Result<Event, LogError>)
      modifies this`lines
      ensures !ValidKind(kind) ==> r == Failure(InvalidKind) && lines == old(lines)
      ensures ValidKind(kind) ==>
        match Verified(h, old(lines))
        case Failure(e) => r == Failure(e) && lines == old(lines)
        case Success(log) =>
          r == Success(NewEvent(h, log, kind, payload)) && lines == old(lines) + [Some(r.value)]
    {
      if !ValidKind(kind) {
        return Failure(InvalidKind);
      }
      var events := Verify();
      if events.Failure? {
        return Failure(events.error);
      }
      var previous := if events.value != [] then events.value[|events.value| - 1].hash else GENESIS;
      var content := Content(|events.value|, kind, payload, previous);
      var event := Event(content, h(content));
      lines := lines + [Some(event)];
      r := Success(event);
    }
  }

  lemma {:induction false} DefectIsFinal(h: Hash, lines: seq<Option<Event>>, k: nat)
    requires k <= |lines| && Verified(h, lines[..k]).Failure?
    ensures Verified(h, lines) == Failure(Verified(h, lines[..k]).error)
    decreases |lines| - k
  {
    if k < |lines| {
      assert lines[..k + 1][..k] == lines[..k];
      DefectIsFinal(h, lines, k + 1);
    } else {
      assert lines[..k] == lines;
    }
  }

  lemma VerifiedStep(h: Hash, lines: seq<Option<Event>>, i: nat, events: seq<Event>)
    requires i < |lines| && Verified(h, lines[..i]) == Success(events)
    ensures match Defect(h, events, lines[i])
            case Some(e) => Verified(h, lines) == Failure(e)
            case None => Verified(h, lines[..i + 1]) == Success(events + [lines[i].value])
  {
    assert lines[..i + 1][..i] == lines[..i];
    if Defect(h, events, lines[i]).Some? {
      DefectIsFinal(h, lines, i + 1);
    }
  }

  /** A file verifies exactly when every line parses and the events are chained. */
  lemma {:induction false} VerifiedIsChained(h: Hash, lines: seq<Option<Event>>)
    ensures Verified(h, lines).Success? <==> Parsed(lines).Some? && Chained(h, Parsed(lines).value)
    ensures Verified(h, lines).Success? ==> Verified(h, lines).value == Parsed(lines).value
  {
    if lines != [] {
      var front, last := lines[..|lines| - 1], lines[|lines| - 1];
      VerifiedIsChained(h, front);
      if Parsed(front).Some? && last.Some? {
        ChainGrows(h, Parsed(front).value, last.value);
      }
    }
  }

  lemma ChainGrows(h: Hash, log: seq<Event>, e: Event)
    ensures Chained(h, log + [e]) <==>
      Chained(h, log) && e.content.sequence == |log| && e.content.previous == Tip(log) && e.hash == h(e.content)
  {
    assert (log + [e])[..|log|] == log;
  }

  lemma {:induction false} SequencesCount(h: Hash, log: seq<Event>)
    requires Chained(h, log)
    ensures forall i :: 0 <= i < |log| ==> log[i].content.sequence == i
  {
    if log != [] {
      SequencesCount(h, log[..|log| - 1]);
    }
  }

  // ----- Tamper evidence -----

  /** Appending to a verified log adds exactly one event and leaves it verified. */
  lemma AppendKeepsChain(h: Hash, log: seq<Event>, kind: Text, payload: Payload)
    requires Chained(h, log)
    ensures var after := Appended(h, log, kind, payload);
            Chained(h, after) && |after| == |log| + 1 && after[..|log|] == log
            && after[|log|].content.kind == kind && after[|log|].content.payload == payload
  {
    ChainGrows(h, log, NewEvent(h, log, kind, payload));
  }

  /** The file after an append verifies to the log before it and the new event. */
  lemma AppendedFileVerifies(h: Hash, lines: seq<Option<Event>>, kind: Text, payload: Payload)
    requires Verified(h, lines).Success?
    ensures var log := Verified(h, lines).value;
            Verified(h, lines + [Some(NewEvent(h, log, kind, payload))]) == Success(Appended(h, log, kind, payload))
  {
    var more := lines + [Some(NewEvent(h, Verified(h, lines).value, kind, payload))];
    assert more[..|lines|] == lines;
  }

  predicate Records(log: seq<Event>, content: Content) {
    exists i :: 0 <= i < |log| && log[i].content == content
  }

  /** Different contents of the two logs with one digest, or a content of either whose digest is the genesis value. */
  ghost predicate Collides(h: Hash, a: seq<Event>, b: seq<Event>, x: Content, y: Content) {
    || (Records(a, x) && Records(b, y) && x != y && h(x) == h(y))
    || ((Records(a, x) || Records(b, x)) && h(x) == GENESIS)
  }

  lemma CollidesLater(
      h: Hash, a: seq<Event>, b: seq<Event>, front: seq<Event>, front': seq<Event>, x: Content, y: Content)
    requires front <= a && front' <= b && Collides(h, front, front', x, y)
    ensures Collides(h, a, b, x, y)
  {
    RecordsLater(front, a, x);
    RecordsLater(front', b, x);
    RecordsLater(front', b, y);
  }

  lemma RecordsLater(front: seq<Event>, log: seq<Event>, x: Content)
    requires front <= log
    ensures Records(front, x) ==> Records(log, x)
  {
    if Records(front, x) {
      var i :| 0 <= i < |front| && front[i].content == x;
      assert log[i].content == x;
    }
  }

  lemma LastIsRecorded(h: Hash, log: seq<Event>)
    requires Chained(h, log) && log != []
    ensures Records(log, log[|log| - 1].content) && h(log[|log| - 1].content) == Tip(log)
  {
  }

  lemma TipsCollide(h: Hash, a: seq<Event>, b: seq<Event>) returns (x: Content, y: Content)
    requires Chained(h, a) && Chained(h, b) && Tip(a) == Tip(b)
    requires a != [] || b != []
    requires a != [] && b != [] ==> a[|a| - 1].content != b[|b| - 1].content
    ensures Collides(h, a, b, x, y)
  {
    if a != [] {
      LastIsRecorded(h, a);
    }
    if b != [] {
      LastIsRecorded(h, b);
    }
    x := (if a == [] then b else a)[|if a == [] then b else a| - 1].content;
    y := (if b == [] then a else b)[|if b == [] then a else b| - 1].content;
  }

  /** Verified logs that end in the same digest are the same log, or two of their contents collide. */
  lemma {:induction false} SameTipSameLog(h: Hash, a: seq<Event>, b: seq<Event>)
    returns (collision: Option<(Content, Content)>)
    requires Chained(h, a) && Chained(h, b) && Tip(a) == Tip(b)
    ensures collision.None? ==> a == b
    ensures collision.Some? ==> Collides(h, a, b, collision.value.0, collision.value.1)
    decreases |a|
  {
    if a == [] && b == [] {
      collision := None;
    } else if a == [] || b == [] || a[|a| - 1].content != b[|b| - 1].content {
      var x, y := TipsCollide(h, a, b);
      collision := Some((x, y));
    } else {
      var front, front' := a[..|a| - 1], b[..|b| - 1];
      collision := SameTipSameLog(h, front, front');
      assert a == front + [a[|a| - 1]] && b == front' + [b[|b| - 1]];
      if collision.Some? {
        CollidesLater(h, a, b, front, front', collision.value.0, collision.value.1);
      }
    }
  }

  // ----- Order -----

  function First(log: seq<Event>, p: Event -> bool): (r: Option<Event>) {
    if log == [] then None
    else if p(log[0]) then Some(log[0])
    else First(log[1..], p)
  }

  function Precedes(log: seq<Event>, earlier: Event -> bool, later: Event -> bool): bool {
    match (First(log, earlier), First(log, later))
    case (None, _) => false
    case (Some(_), None) => true
    case (Some(e), Some(l)) => e.content.sequence < l.content.sequence
  }

  lemma {:induction false} FirstIsFirst(log: seq<Event>, p: Event -> bool) returns (k: nat)
    ensures k <= |log| && forall i :: 0 <= i < k ==> !p(log[i])
    ensures k < |log| ==> p(log[k]) && First(log, p) == Some(log[k])
    ensures k == |log| ==> First(log, p) == None
  {
    if log == [] {
      k := 0;
    } else if p(log[0]) {
      k := 0;
    } else {
      k := FirstIsFirst(log[1..], p);
      k := k + 1;
    }
  }

  /** On a verified log `precedes` says that some earlier event comes before every later one. */
  lemma PrecedesMeans(h: Hash, log: seq<Event>, earlier: Event -> bool, later: Event -> bool)
    requires Chained(h, log)
    ensures Precedes(log, earlier, later) <==>
      exists i :: 0 <= i < |log| && earlier(log[i]) && forall j :: 0 <= j < |log| && later(log[j]) ==> i < j
  {
    SequencesCount(h, log);
    var e := FirstIsFirst(log, earlier);
    var l := FirstIsFirst(log, later);
    if Precedes(log, earlier, later) {
      assert earlier(log[e]);
    }
  }

  lemma {:induction false} FirstAfterAppend(log: seq<Event>, e: Event, p: Event -> bool)
    ensures First(log + [e], p) == if First(log, p).Some? then First(log, p) else if p(e) then Some(e) else None
  {
    if log == [] {
      assert ([] + [e])[1..] == [];
    } else {
      assert (log + [e])[1..] == log[1..] + [e];
      FirstAfterAppend(log[1..], e, p);
    }
  }

  lemma PrecedesAfterOne(
      h: Hash, log: seq<Event>, kind: Text, payload: Payload, earlier: Event -> bool, later: Event -> bool)
    requires Chained(h, log)
    ensures var after := Appended(h, log, kind, payload);
            && (Precedes(log, earlier, later) ==> Precedes(after, earlier, later))
            && (First(log, later).Some? ==> (Precedes(after, earlier, later) <==> Precedes(log, earlier, later)))
            && (First(log, later).Some? ==> First(after, later).Some?)
  {
    var after := Appended(h, log, kind, payload);
    SequencesCount(h, log);
    FirstAfterAppend(log, after[|log|], earlier);
    FirstAfterAppend(log, after[|log|], later);
    var e := FirstIsFirst(log, earlier);
    var l := FirstIsFirst(log, later);
  }

  function AppendedAll(h: Hash, log: seq<Event>, more: seq<(Text, Payload)>): seq<Event> {
    if more == [] then log
    else
      var last := more[|more| - 1];
      Appended(h, AppendedAll(h, log, more[..|more| - 1]), last.0, last.1)
  }

  /** Once true it stays true, and once false with a later event on record it stays false, under any appends. */
  lemma {:induction false} PrecedesIsStable(
      h: Hash, log: seq<Event>, more: seq<(Text, Payload)>, earlier: Event -> bool, later: Event -> bool)
    requires Chained(h, log)
    ensures var after := AppendedAll(h, log, more);
            && Chained(h, after)
            && (Precedes(log, earlier, later) ==> Precedes(after, earlier, later))
            && (First(log, later).Some? ==> (Precedes(after, earlier, later) <==> Precedes(log, earlier, later)))
            && (First(log, later).Some? ==> First(after, later).Some?)
  {
    if more != [] {
      var front, last := more[..|more| - 1], more[|more| - 1];
      PrecedesIsStable(h, log, front, earlier, later);
      var before := AppendedAll(h, log, front);
      PrecedesAfterOne(h, before, last.0, last.1, earlier, later);
      AppendKeepsChain(h, before, last.0, last.1);
    }
  }
}
