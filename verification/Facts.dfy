/** The fact lifecycle: an extraction folds assertions and retractions into a history of
    facts that is only ever extended. */
module Facts {
  import opened Wrappers
  import opened Texts

  datatype Kind = FactKind | Preference | Constraint | Decision | Goal

  datatype Operation =
    | Assert(slotKey: Text, value: Text, kind: Kind, sources: seq<Text>)
    | Retract(slotKey: Text, kind: Kind, sources: seq<Text>)

  /** The digest of a fact's identity, represented by the canonical record it is taken over. */
  datatype FactId = FactId(tenant: Text, conversation: Text, slotKey: Text, sourceSequence: nat, opIndex: nat)

  datatype Status = Active | Superseded | Retracted

  datatype Fact = Fact(
    id: FactId, tenant: Text, conversation: Text, slotKey: Text, value: Text, kind: Kind, statement: Text,
    sources: seq<Text>, sourceSequence: nat, status: Status,
    supersedes: Option<FactId>, supersededBy: Option<FactId>, extractorVersion: Text)

  datatype Audit =
    | RetractWithoutActiveFact(operation: Operation, sourceSequence: nat, opIndex: nat)
    | ValidationRejection(sourceSequence: nat, opIndex: nat)

  datatype FactStore = FactStore(
    tenant: Text, conversation: Text, extractorVersion: Text,
    facts: seq<Fact>, audit: seq<Audit>, lastSequence: int)

  datatype ApplyError = BackwardSequence | InvalidStatement

  /** A new store keeps its identifiers in NFC and refuses blank or unencodable ones. */
  function NewStore(n: Normalizers, tenant: Text, conversation: Text, extractorVersion: Text): Option<FactStore> {
    if IsText(tenant) && IsText(conversation) && IsText(extractorVersion) then
      Some(FactStore(n.nfc(tenant), n.nfc(conversation), n.nfc(extractorVersion), [], [], -1))
    else None
  }

  /** What is the same for every operation of one extraction. */
  datatype Stamp = Stamp(
    tenant: Text, conversation: Text, extractorVersion: Text, sourceSequence: nat, statement: Text)

  datatype History = History(facts: seq<Fact>, audit: seq<Audit>)

  predicate IsActive(f: Fact, slot: Text) {
    f.slotKey == slot && f.status.Active?
  }

  /** The first active fact of a slot. */
  function ActiveIndex(facts: seq<Fact>, slot: Text): (r: Option<nat>)
    ensures r.None? ==> forall i :: 0 <= i < |facts| ==> !IsActive(facts[i], slot)
    ensures r.Some? ==> r.value < |facts| && IsActive(facts[r.value], slot)
    ensures r.Some? ==> forall i :: 0 <= i < r.value ==> !IsActive(facts[i], slot)
  {
    if facts == [] then None
    else
      var n := |facts| - 1;
      var r := ActiveIndex(facts[..n], slot);
      if r.Some? then r else if IsActive(facts[n], slot) then Some(n) else None
  }

  /** First occurrences, in order. */
  function Distinct(s: seq<Text>): (r: seq<Text>)
    ensures forall t :: t in r <==> t in s
    ensures forall i, j :: 0 <= i < j < |r| ==> r[i] != r[j]
  {
    if s == [] then []
    else
      var n := |s| - 1;
      var r := Distinct(s[..n]);
      assert s == s[..n] + [s[n]];
      if s[n] in r then r else r + [s[n]]
  }

  /** What a list begins with stays first, however it is continued. */
  lemma {:induction false} DistinctGrows(a: seq<Text>, b: seq<Text>)
    ensures Distinct(a) <= Distinct(a + b)
  {
    if b == [] {
      assert a + b == a;
    } else {
      var front := b[..|b| - 1];
      assert (a + b)[..|a + b| - 1] == a + front;
      DistinctGrows(a, front);
    }
  }

  lemma {:induction false} DistinctStays(s: seq<Text>)
    ensures Distinct(Distinct(s)) == Distinct(s)
  {
    if s != [] {
      var r := Distinct(s[..|s| - 1]);
      DistinctStays(s[..|s| - 1]);
      assert (r + [s[|s| - 1]])[..|r|] == r;
    }
  }

  function NewFact(x: Stamp, op: Operation, index: nat, prior: Option<FactId>): Fact
    requires op.Assert?
  {
    Fact(FactId(x.tenant, x.conversation, op.slotKey, x.sourceSequence, index), x.tenant, x.conversation,
         op.slotKey, op.value, op.kind, x.statement, op.sources, x.sourceSequence, Active, prior, None,
         x.extractorVersion)
  }

  function Step(n: Normalizers, x: Stamp, h: History, op: Operation, index: nat): History {
    match (op, ActiveIndex(h.facts, op.slotKey))
    case (Retract(_, _, _), None) =>
      h.(audit := h.audit + [RetractWithoutActiveFact(op, x.sourceSequence, index)])
    case (Retract(_, _, _), Some(i)) =>
      h.(facts := h.facts[i := h.facts[i].(status := Retracted, supersededBy := None)])
    case (Assert(_, _, _, _), None) =>
      h.(facts := h.facts + [NewFact(x, op, index, None)])
    case (Assert(_, _, _, _), Some(i)) =>
      var prior := h.facts[i];
      if n.dedupKey(prior.value) == n.dedupKey(op.value) then
        h.(facts := h.facts[i := prior.(sources := Distinct(prior.sources + op.sources))])
      else
        var fact := NewFact(x, op, index, Some(prior.id));
        h.(facts := h.facts[i := prior.(status := Superseded, supersededBy := Some(fact.id))] + [fact])
  }

  function Steps(n: Normalizers, x: Stamp, h: History, ops: seq<Operation>): History {
    if ops == [] then h
    else Step(n, x, Steps(n, x, h, ops[..|ops| - 1]), ops[|ops| - 1], |ops| - 1)
  }

  function StampOf(n: Normalizers, store: FactStore, sourceSequence: nat, statement: Text): Stamp {
    Stamp(store.tenant, store.conversation, store.extractorVersion, sourceSequence, n.nfc(statement))
  }

  function Applied(n: Normalizers, store: FactStore, ops: seq<Operation>, sourceSequence: nat, statement: Text)
    : Result<FactStore, ApplyError>
  {
    if sourceSequence <= store.lastSequence then Failure(BackwardSequence)
    else if !IsText(statement) then Failure(InvalidStatement)
    else
      var h := Steps(n, StampOf(n, store, sourceSequence, statement), History(store.facts, store.audit), ops);
      Success(store.(facts := h.facts, audit := h.audit, lastSequence := sourceSequence))
  }

  method Apply(n: Normalizers, store: FactStore, ops: seq<Operation>, sourceSequence: nat, statement: Text)
    returns (r: Result<FactStore, ApplyError>)
    ensures r == Applied(n, store, ops, sourceSequence, statement)
  {
    if sourceSequence <= store.lastSequence {
      return Failure(BackwardSequence);
    }
    if !IsText(statement) {
      return Failure(InvalidStatement);
    }
    var x := StampOf(n, store, sourceSequence, statement);
    var facts, audit := store.facts, store.audit;
    for index := 0 to |ops|
      invariant History(facts, audit) == Steps(n, x, History(store.facts, store.audit), ops[..index])
    {
      assert ops[..index + 1][..index] == ops[..index];
      var op := ops[index];
      var active := ActiveIndex(facts, op.slotKey);
      if op.Retract? {
        if active.None? {
          audit := audit + [RetractWithoutActiveFact(op, x.sourceSequence, index)];
        } else {
          facts := facts[active.value := facts[active.value].(status := Retracted, supersededBy := None)];
        }
      } else if active.Some? && n.dedupKey(facts[active.value].value) == n.dedupKey(op.value) {
        var prior := facts[active.value];
        facts := facts[active.value := prior.(sources := Distinct(prior.sources + op.sources))];
      } else {
        var supersedes := None;
        if active.Some? {
          var prior := facts[active.value];
          supersedes := Some(prior.id);
          var identifier := NewFact(x, op, index, supersedes).id;
          facts := facts[active.value := prior.(status := Superseded, supersededBy := Some(identifier))];
        }
        facts := facts + [NewFact(x, op, index, supersedes)];
      }
    }
    assert ops[..|ops|] == ops;
    r := Success(store.(facts := facts, audit := audit, lastSequence := sourceSequence));
  }
}
