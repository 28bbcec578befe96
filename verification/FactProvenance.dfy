/** Where every field of every fact comes from: the operation that made the fact, the later assertions that
    agree with it, and the operation that ended it, read off the list of operations alone. */
module FactProvenance {
  import opened Wrappers
  import opened Texts
  import opened Facts
  import opened FactHistory

  /** An accepted operation with what it shares with the others of its extraction, and its place there. */
  datatype Event = Event(stamp: Stamp, op: Operation, index: nat)

  function Play(n: Normalizers, h: History, events: seq<Event>): History {
    if events == [] then h
    else
      var last := events[|events| - 1];
      Step(n, last.stamp, Play(n, h, events[..|events| - 1]), last.op, last.index)
  }

  // ----- What an event means to a fact -----

  /** It asserts the slot of the fact again, with a value that counts as the same. */
  predicate Agrees(n: Normalizers, e: Event, f: Fact) {
    e.op.Assert? && e.op.slotKey == f.slotKey && n.dedupKey(e.op.value) == n.dedupKey(f.value)
  }

  /** It says something else about the slot of the fact. */
  predicate Contradicts(n: Normalizers, e: Event, f: Fact) {
    e.op.slotKey == f.slotKey && !Agrees(n, e, f)
  }

  ghost predicate Unchallenged(n: Normalizers, events: seq<Event>, from: nat, to: nat, f: Fact)
    requires to <= |events|
  {
    forall r :: from <= r < to ==> !Contradicts(n, events[r], f)
  }

  /** The event at q cites the source in agreement with the fact while the fact is active. */
  ghost predicate CitedAt(n: Normalizers, events: seq<Event>, from: nat, q: nat, f: Fact, source: Text) {
    && from <= q < |events| && Agrees(n, events[q], f) && source in events[q].op.sources
    && Unchallenged(n, events, from, q, f)
  }

  ghost predicate CitedLater(n: Normalizers, events: seq<Event>, from: nat, f: Fact, source: Text) {
    exists q: nat :: CitedAt(n, events, from, q, f, source)
  }

  /** The event at q is the first that contradicts the fact. */
  ghost predicate EndsAt(n: Normalizers, events: seq<Event>, from: nat, q: nat, f: Fact) {
    from <= q < |events| && Contradicts(n, events[q], f) && Unchallenged(n, events, from, q, f)
  }

  function IdOf(e: Event): FactId {
    FactId(e.stamp.tenant, e.stamp.conversation, e.op.slotKey, e.stamp.sourceSequence, e.index)
  }

  /** The fact as the event that ended it leaves it. */
  ghost predicate EndedBy(f: Fact, e: Event) {
    match e.op
    case Retract(_, _, _) => f.status.Retracted? && f.supersededBy == None
    case Assert(_, _, _, _) => f.status.Superseded? && f.supersededBy == Some(IdOf(e))
  }

  /** The fate of a fact that was active, with the sources `base`, when event `from` was next. */
  ghost predicate Traced(n: Normalizers, events: seq<Event>, from: nat, f: Fact, base: seq<Text>) {
    && (Unchallenged(n, events, from, |events|, f) ==> f.status.Active? && f.supersededBy == None)
    && (forall q: nat :: EndsAt(n, events, from, q, f) ==> EndedBy(f, events[q]))
    && (forall t :: t in f.sources <==> t in base || CitedLater(n, events, from, f, t))
  }

  /** The fields that the operation which makes a fact fixes for good. */
  ghost predicate MadeBy(f: Fact, e: Event) {
    && e.op.Assert?
    && f.id == IdOf(e) && f.tenant == e.stamp.tenant && f.conversation == e.stamp.conversation
    && f.slotKey == e.op.slotKey && f.value == e.op.value && f.kind == e.op.kind
    && f.statement == e.stamp.statement && f.sourceSequence == e.stamp.sourceSequence
    && f.extractorVersion == e.stamp.extractorVersion
  }

  ghost predicate MadeAt(n: Normalizers, events: seq<Event>, p: nat, f: Fact) {
    p < |events| && MadeBy(f, events[p]) && Traced(n, events, p + 1, f, events[p].op.sources)
  }

  ghost predicate Inherited(n: Normalizers, events: seq<Event>, before: Fact, f: Fact) {
    if before.status.Active? then Evolves(before, f) && Traced(n, events, 0, f, before.sources) else f == before
  }

  ghost predicate FactAccounted(n: Normalizers, start: seq<Fact>, events: seq<Event>, i: nat, f: Fact) {
    if i < |start| then Inherited(n, events, start[i], f) else exists p: nat :: MadeAt(n, events, p, f)
  }

  /** Every fact is one of the start, or made by an operation, and its fate is that of the later operations. */
  ghost predicate Accounted(n: Normalizers, start: seq<Fact>, events: seq<Event>, facts: seq<Fact>) {
    |start| <= |facts| && forall i :: 0 <= i < |facts| ==> FactAccounted(n, start, events, i, facts[i])
  }

  // ----- One more event -----

  lemma LongerUnchallenged(n: Normalizers, events: seq<Event>, e: Event, from: nat, to: nat, f: Fact)
    requires to <= |events|
    ensures Unchallenged(n, events + [e], from, to, f) <==> Unchallenged(n, events, from, to, f)
  {
    assert forall r :: from <= r < to ==> (events + [e])[r] == events[r];
  }

  lemma LongerEnds(n: Normalizers, events: seq<Event>, e: Event, from: nat, q: nat, f: Fact)
    requires from <= |events|
    ensures EndsAt(n, events + [e], from, q, f)
            <==> EndsAt(n, events, from, q, f)
                 || (q == |events| && Contradicts(n, e, f) && Unchallenged(n, events, from, q, f))
  {
    if q <= |events| {
      LongerUnchallenged(n, events, e, from, q, f);
    }
  }

  lemma LongerCited(n: Normalizers, events: seq<Event>, e: Event, from: nat, f: Fact, source: Text)
    requires from <= |events|
    ensures CitedLater(n, events + [e], from, f, source)
            <==> CitedLater(n, events, from, f, source)
                 || (Agrees(n, e, f) && source in e.op.sources && Unchallenged(n, events, from, |events|, f))
  {
    var more := events + [e];
    assert more[|events|] == e;
    if q: nat :| CitedAt(n, events, from, q, f, source) {
      LongerUnchallenged(n, events, e, from, q, f);
      assert CitedAt(n, more, from, q, f, source);
    }
    LongerUnchallenged(n, events, e, from, |events|, f);
    if Agrees(n, e, f) && source in e.op.sources && Unchallenged(n, events, from, |events|, f) {
      assert CitedAt(n, more, from, |events|, f, source);
    }
    if q: nat :| CitedAt(n, more, from, q, f, source) {
      LongerUnchallenged(n, events, e, from, q, f);
      assert q < |events| ==> CitedAt(n, events, from, q, f, source);
    }
  }

  /** What the next event does to a fact. */
  ghost predicate Moves(n: Normalizers, e: Event, f: Fact, g: Fact) {
    && Evolves(f, g)
    && (f.status.Active? && Contradicts(n, e, f) ==> EndedBy(g, e))
    && (f.status.Active? && !Contradicts(n, e, f) ==> g.status.Active? && g.supersededBy == f.supersededBy)
    && (forall t :: t in g.sources <==> t in f.sources || (f.status.Active? && Agrees(n, e, f) && t in e.op.sources))
  }

  lemma {:induction false} EndedSomewhere(n: Normalizers, events: seq<Event>, from: nat, to: nat, f: Fact)
    requires to <= |events| && !Unchallenged(n, events, from, to, f)
    ensures exists q: nat :: q < to && EndsAt(n, events, from, q, f)
  {
    if Unchallenged(n, events, from, to - 1, f) {
      assert EndsAt(n, events, from, to - 1, f);
    } else {
      EndedSomewhere(n, events, from, to - 1, f);
    }
  }

  lemma ActiveIsUnchallenged(n: Normalizers, events: seq<Event>, from: nat, f: Fact, base: seq<Text>)
    requires Traced(n, events, from, f, base)
    ensures f.status.Active? <==> Unchallenged(n, events, from, |events|, f)
  {
    if !Unchallenged(n, events, from, |events|, f) {
      EndedSomewhere(n, events, from, |events|, f);
      var q: nat :| q < |events| && EndsAt(n, events, from, q, f);
      assert EndedBy(f, events[q]);
    }
  }

  lemma TracedMoves(n: Normalizers, events: seq<Event>, e: Event, from: nat, f: Fact, g: Fact, base: seq<Text>)
    requires from <= |events| && Traced(n, events, from, f, base) && Moves(n, e, f, g)
    ensures Traced(n, events + [e], from, g, base)
  {
    var more := events + [e];
    assert more[|events|] == e;
    SameMeaning(n, events, from, f, g);
    SameMeaning(n, more, from, f, g);
    ActiveIsUnchallenged(n, events, from, f, base);
    LongerUnchallenged(n, events, e, from, |events|, f);
    if Unchallenged(n, more, from, |more|, f) {
      assert Unchallenged(n, more, from, |events|, f);
      assert !Contradicts(n, more[|events|], f);
    }
    forall q: nat | EndsAt(n, more, from, q, f)
      ensures EndedBy(g, more[q])
    {
      LongerEnds(n, events, e, from, q, f);
      if EndsAt(n, events, from, q, f) {
        assert EndedBy(f, events[q]);
      }
    }
    forall t
      ensures t in g.sources <==> t in base || CitedLater(n, more, from, f, t)
    {
      LongerCited(n, events, e, from, f, t);
    }
  }

  /** Only the slot and the value of a fact decide what events mean to it. */
  lemma SameMeaning(n: Normalizers, events: seq<Event>, from: nat, f: Fact, g: Fact)
    requires f.slotKey == g.slotKey && f.value == g.value
    ensures Unchallenged(n, events, from, |events|, f) <==> Unchallenged(n, events, from, |events|, g)
    ensures forall q: nat :: EndsAt(n, events, from, q, f) <==> EndsAt(n, events, from, q, g)
    ensures forall t :: CitedLater(n, events, from, f, t) <==> CitedLater(n, events, from, g, t)
  {
    forall r | 0 <= r < |events|
      ensures Contradicts(n, events[r], f) <==> Contradicts(n, events[r], g)
      ensures Agrees(n, events[r], f) <==> Agrees(n, events[r], g)
    {
    }
    forall q: nat
      ensures EndsAt(n, events, from, q, f) <==> EndsAt(n, events, from, q, g)
    {
    }
    forall t
      ensures CitedLater(n, events, from, f, t) <==> CitedLater(n, events, from, g, t)
    {
      if q: nat :| CitedAt(n, events, from, q, f, t) {
        assert CitedAt(n, events, from, q, g, t);
      }
      if q: nat :| CitedAt(n, events, from, q, g, t) {
        assert CitedAt(n, events, from, q, f, t);
      }
    }
  }

  /** Active facts name no successor. */
  ghost predicate ActiveAreOpen(facts: seq<Fact>) {
    forall i :: 0 <= i < |facts| && facts[i].status.Active? ==> facts[i].supersededBy == None
  }

  lemma StepMoves(n: Normalizers, e: Event, h: History, i: nat)
    requires OneActivePerSlot(h.facts) && i < |h.facts|
    ensures var after := Step(n, e.stamp, h, e.op, e.index).facts;
            |h.facts| <= |after| && Moves(n, e, h.facts[i], after[i])
  {
    var f, after := h.facts[i], Step(n, e.stamp, h, e.op, e.index).facts;
    var active := ActiveIndex(h.facts, e.op.slotKey);
    StepEvolves(n, e.stamp, h, e.op, e.index, i);
    if f.status.Active? && f.slotKey == e.op.slotKey {
      assert IsActive(f, e.op.slotKey);
      assert active.Some? && active.value == i;
    }
  }

  lemma StepMakes(n: Normalizers, e: Event, h: History)
    ensures var after := Step(n, e.stamp, h, e.op, e.index).facts;
            |h.facts| <= |after| <= |h.facts| + 1
            && (|after| > |h.facts| ==>
                  var f := after[|h.facts|];
                  MadeBy(f, e) && f.sources == e.op.sources && f.status.Active? && f.supersededBy == None)
  {
  }

  lemma StepKeepsOpen(n: Normalizers, e: Event, h: History)
    requires OneActivePerSlot(h.facts) && ActiveAreOpen(h.facts)
    ensures ActiveAreOpen(Step(n, e.stamp, h, e.op, e.index).facts)
  {
  }

  lemma NothingYet(n: Normalizers, events: seq<Event>, f: Fact)
    requires f.status.Active? && f.supersededBy == None
    ensures Traced(n, events, |events|, f, f.sources)
  {
    forall t
      ensures !CitedLater(n, events, |events|, f, t)
    {
    }
  }

  lemma InheritedStays(n: Normalizers, before: Fact, events: seq<Event>, e: Event, f: Fact, g: Fact)
    requires Inherited(n, events, before, f) && Moves(n, e, f, g)
    ensures Inherited(n, events + [e], before, g)
  {
    if before.status.Active? {
      TracedMoves(n, events, e, 0, f, g, before.sources);
      EvolvesOn(before, f, g);
    }
  }

  lemma MadeStays(n: Normalizers, events: seq<Event>, e: Event, p: nat, f: Fact, g: Fact)
    requires MadeAt(n, events, p, f) && Moves(n, e, f, g)
    ensures MadeAt(n, events + [e], p, g)
  {
    TracedMoves(n, events, e, p + 1, f, g, events[p].op.sources);
    assert (events + [e])[p] == events[p];
  }

  lemma FactStays(n: Normalizers, start: seq<Fact>, events: seq<Event>, e: Event, i: nat, f: Fact, g: Fact)
    requires FactAccounted(n, start, events, i, f) && Moves(n, e, f, g)
    ensures FactAccounted(n, start, events + [e], i, g)
  {
    if i < |start| {
      InheritedStays(n, start[i], events, e, f, g);
    } else {
      var p: nat :| MadeAt(n, events, p, f);
      MadeStays(n, events, e, p, f, g);
    }
  }

  lemma EvolvesOn(a: Fact, b: Fact, c: Fact)
    requires Evolves(a, b) && Evolves(b, c)
    ensures Evolves(a, c)
  {
  }

  lemma FactIsNew(n: Normalizers, start: seq<Fact>, events: seq<Event>, e: Event, i: nat, f: Fact)
    requires |start| <= i && MadeBy(f, e) && f.sources == e.op.sources && f.status.Active? && f.supersededBy == None
    ensures FactAccounted(n, start, events + [e], i, f)
  {
    NothingYet(n, events + [e], f);
    assert (events + [e])[|events|] == e;
    assert MadeAt(n, events + [e], |events|, f);
  }

  lemma StartIsAccounted(n: Normalizers, start: seq<Fact>)
    requires ActiveAreOpen(start)
    ensures Accounted(n, start, [], start)
  {
    forall i | 0 <= i < |start|
      ensures FactAccounted(n, start, [], i, start[i])
    {
      if start[i].status.Active? {
        NothingYet(n, [], start[i]);
      }
    }
  }

  ghost predicate PlaySound(facts: seq<Fact>) {
    OneActivePerSlot(facts) && ActiveAreOpen(facts)
  }

  /** From any sound history, any list of operations leaves exactly the facts that the list accounts for. */
  lemma {:induction false} PlayIsAccounted(n: Normalizers, h: History, events: seq<Event>)
    requires PlaySound(h.facts)
    ensures PlaySound(Play(n, h, events).facts)
    ensures Accounted(n, h.facts, events, Play(n, h, events).facts)
  {
    if events == [] {
      StartIsAccounted(n, h.facts);
    } else {
      var front, e := events[..|events| - 1], events[|events| - 1];
      var before := Play(n, h, front);
      PlayIsAccounted(n, h, front);
      StepKeepsOneActive(n, e.stamp, before, e.op, e.index);
      StepKeepsOpen(n, e, before);
      StepMakes(n, e, before);
      assert events == front + [e];
      var after := Play(n, h, events).facts;
      forall i | 0 <= i < |after|
        ensures FactAccounted(n, h.facts, events, i, after[i])
      {
        if i < |before.facts| {
          StepMoves(n, e, before, i);
          FactStays(n, h.facts, front, e, i, before.facts[i], after[i]);
        } else {
          FactIsNew(n, h.facts, front, e, i, after[i]);
        }
      }
    }
  }

  // ----- No assertion is lost -----

  /** The fact holds what the assertion says and every source it cites. */
  ghost predicate Records(n: Normalizers, f: Fact, e: Event) {
    Agrees(n, e, f) && forall t :: t in e.op.sources ==> t in f.sources
  }

  ghost predicate IsRecorded(n: Normalizers, facts: seq<Fact>, e: Event) {
    exists i :: 0 <= i < |facts| && Records(n, facts[i], e)
  }

  /** Right after an assertion, the active fact of its slot holds every source it cites. */
  lemma AssertionIsRecorded(n: Normalizers, h: History, e: Event)
    requires OneActivePerSlot(h.facts) && e.op.Assert?
    ensures var after := Step(n, e.stamp, h, e.op, e.index).facts;
            ActiveIndex(after, e.op.slotKey).Some?
            && Records(n, after[ActiveIndex(after, e.op.slotKey).value], e)
  {
    var after := Step(n, e.stamp, h, e.op, e.index).facts;
    StepKeepsOneActive(n, e.stamp, h, e.op, e.index);
    var active := ActiveIndex(h.facts, e.op.slotKey);
    var i := if active.Some? && n.dedupKey(h.facts[active.value].value) == n.dedupKey(e.op.value) then active.value
             else |h.facts|;
    assert IsActive(after[i], e.op.slotKey) && Records(n, after[i], e);
    var found := ActiveIndex(after, e.op.slotKey);
    assert found.Some?;
    assert found.value == i;
  }

  /** And it stays on record, whatever follows. */
  lemma {:induction false} EveryAssertionIsRecorded(n: Normalizers, h: History, events: seq<Event>, p: nat)
    requires OneActivePerSlot(h.facts) && p < |events| && events[p].op.Assert?
    ensures OneActivePerSlot(Play(n, h, events).facts) && IsRecorded(n, Play(n, h, events).facts, events[p])
  {
    var front, e := events[..|events| - 1], events[|events| - 1];
    var before, after := Play(n, h, front), Play(n, h, events).facts;
    PlayKeepsOneActive(n, h, front);
    StepKeepsOneActive(n, e.stamp, before, e.op, e.index);
    if p < |front| {
      EveryAssertionIsRecorded(n, h, front, p);
      var i :| 0 <= i < |before.facts| && Records(n, before.facts[i], front[p]);
      StepMoves(n, e, before, i);
      assert Records(n, after[i], events[p]);
    } else {
      AssertionIsRecorded(n, before, e);
    }
  }

  lemma {:induction false} PlayKeepsOneActive(n: Normalizers, h: History, events: seq<Event>)
    requires OneActivePerSlot(h.facts)
    ensures OneActivePerSlot(Play(n, h, events).facts)
  {
    if events != [] {
      var e := events[|events| - 1];
      PlayKeepsOneActive(n, h, events[..|events| - 1]);
      StepKeepsOneActive(n, e.stamp, Play(n, h, events[..|events| - 1]), e.op, e.index);
    }
  }

  // ----- Whole runs of extractions -----

  function Stamped(x: Stamp, ops: seq<Operation>): (r: seq<Event>)
    ensures |r| == |ops| && forall i :: 0 <= i < |r| ==> r[i] == Event(x, ops[i], i)
  {
    seq(|ops|, i requires 0 <= i < |ops| => Event(x, ops[i], i))
  }

  lemma {:induction false} StepsArePlay(n: Normalizers, x: Stamp, h: History, ops: seq<Operation>)
    ensures Steps(n, x, h, ops) == Play(n, h, Stamped(x, ops))
  {
    if ops != [] {
      StepsArePlay(n, x, h, ops[..|ops| - 1]);
      assert Stamped(x, ops)[..|ops| - 1] == Stamped(x, ops[..|ops| - 1]);
    }
  }

  lemma {:induction false} PlayOn(n: Normalizers, h: History, a: seq<Event>, b: seq<Event>)
    ensures Play(n, h, a + b) == Play(n, Play(n, h, a), b)
  {
    if b == [] {
      assert a + b == a;
    } else {
      assert (a + b)[..|a + b| - 1] == a + b[..|b| - 1];
      PlayOn(n, h, a, b[..|b| - 1]);
    }
  }

  /** The message comes after the last one, and the statement is a text. */
  predicate IsAccepted(store: FactStore, call: Call) {
    store.lastSequence < call.sourceSequence && !IsBlank(call.statement) && Encodable(call.statement)
  }

  /** The operations of the accepted calls, in order. */
  function Trace(n: Normalizers, store: FactStore, calls: seq<Call>): seq<Event> {
    if calls == [] then []
    else
      var front, call := calls[..|calls| - 1], calls[|calls| - 1];
      Trace(n, store, front)
      + if IsAccepted(Run(n, store, front), call) then
          Stamped(Stamp(store.tenant, store.conversation, store.extractorVersion, call.sourceSequence,
                        n.nfc(call.statement)), call.ops)
        else []
  }

  lemma {:induction false} RunIsPlay(n: Normalizers, store: FactStore, calls: seq<Call>)
    ensures var after := Run(n, store, calls);
            && History(after.facts, after.audit) == Play(n, History(store.facts, store.audit), Trace(n, store, calls))
            && after.tenant == store.tenant && after.conversation == store.conversation
            && after.extractorVersion == store.extractorVersion
  {
    if calls != [] {
      var front, call := calls[..|calls| - 1], calls[|calls| - 1];
      var before, h := Run(n, store, front), History(store.facts, store.audit);
      RunIsPlay(n, store, front);
      if IsAccepted(before, call) {
        var x := Stamp(store.tenant, store.conversation, store.extractorVersion, call.sourceSequence,
                       n.nfc(call.statement));
        StepsArePlay(n, x, History(before.facts, before.audit), call.ops);
        PlayOn(n, h, Trace(n, store, front), Stamped(x, call.ops));
      } else {
        assert Trace(n, store, calls) == Trace(n, store, front);
      }
    }
  }

  /** Every fact of every reachable store is made, extended and ended by exactly the operations of the accepted
      calls, and every assertion among them is on record. */
  lemma RunsAreAccounted(n: Normalizers, store: FactStore, calls: seq<Call>)
    requires Sound(store.facts)
    ensures Accounted(n, store.facts, Trace(n, store, calls), Run(n, store, calls).facts)
    ensures forall p :: 0 <= p < |Trace(n, store, calls)| && Trace(n, store, calls)[p].op.Assert? ==>
      IsRecorded(n, Run(n, store, calls).facts, Trace(n, store, calls)[p])
  {
    var events := Trace(n, store, calls);
    RunIsPlay(n, store, calls);
    PlayIsAccounted(n, History(store.facts, store.audit), events);
    forall p | 0 <= p < |events| && events[p].op.Assert?
      ensures IsRecorded(n, Run(n, store, calls).facts, events[p])
    {
      EveryAssertionIsRecorded(n, History(store.facts, store.audit), events, p);
    }
  }

  lemma {:induction false} TraceIsStamped(n: Normalizers, store: FactStore, calls: seq<Call>)
    ensures forall p :: 0 <= p < |Trace(n, store, calls)| ==>
      var x := Trace(n, store, calls)[p].stamp;
      x.tenant == store.tenant && x.conversation == store.conversation && x.extractorVersion == store.extractorVersion
  {
    if calls != [] {
      TraceIsStamped(n, store, calls[..|calls| - 1]);
    }
  }

  /** A store that starts empty holds facts of its own scope only, with its identifiers in NFC. */
  lemma FactsBelongToTheStore(
      n: Normalizers, tenant: Text, conversation: Text, extractorVersion: Text, calls: seq<Call>, i: nat)
    requires NewStore(n, tenant, conversation, extractorVersion).Some?
    requires i < |Run(n, NewStore(n, tenant, conversation, extractorVersion).value, calls).facts|
    ensures var f := Run(n, NewStore(n, tenant, conversation, extractorVersion).value, calls).facts[i];
            f.tenant == n.nfc(tenant) && f.conversation == n.nfc(conversation)
            && f.extractorVersion == n.nfc(extractorVersion)
  {
    var store := NewStore(n, tenant, conversation, extractorVersion).value;
    RunsAreAccounted(n, store, calls);
    TraceIsStamped(n, store, calls);
    var f := Run(n, store, calls).facts[i];
    assert FactAccounted(n, store.facts, Trace(n, store, calls), i, f);
    var p: nat :| MadeAt(n, Trace(n, store, calls), p, f);
  }
}
