/** What one turn of extraction does, from the completion to the store. */
module TurnOutcomes {
  import opened Wrappers
  import opened Texts
  import opened Json
  import opened Facts
  import opened FactHistory
  import opened FactProvenance
  import opened Extraction
  import opened Acceptance
  import opened Requests

  /** The document is an object whose one member is the array of these payloads. */
  ghost predicate Carries(completion: Completion, payloads: seq<Json>)
    requires WellParsed(completion)
  {
    && completion.document.Some?
    && Meaning(completion.document.value.root) == Obj([(Ascii("facts"), Arr(payloads))])
  }

  lemma FactsArrayExactly(completion: Completion, payloads: seq<Json>)
    requires WellParsed(completion)
    ensures FactsArray(completion) == Some(payloads) <==> Carries(completion, payloads)
  {
    if FactsArray(completion) == Some(payloads) {
      var raw := Meaning(completion.document.value.root);
      assert raw.members == [(Ascii("facts"), Arr(payloads))];
    }
  }

  /** The operations and rejections that a completion amounts to. */
  ghost predicate Reads(completion: Completion, turn: Message, ops: seq<Operation>, audit: seq<Audit>)
    requires WellParsed(completion)
  {
    && (forall payloads :: Carries(completion, payloads) ==> Sorts(payloads, turn, ops, audit))
    && ((forall payloads :: !Carries(completion, payloads)) ==>
          ops == [] && audit == [ValidationRejection(turn.sequence, 0)])
  }

  /** Payloads that spell an operation of the turn become it, in order; each other one is a rejection. */
  ghost predicate Sorts(payloads: seq<Json>, turn: Message, ops: seq<Operation>, audit: seq<Audit>) {
    exists good: seq<nat>, bad: seq<nat> ::
      Divides(payloads, turn.id, good, bad) && AreSpelled(payloads, turn, good, ops) && AreRejected(turn, bad, audit)
  }

  ghost predicate AreSpelled(payloads: seq<Json>, turn: Message, good: seq<nat>, ops: seq<Operation>) {
    |ops| == |good| && forall k :: 0 <= k < |ops| ==>
      good[k] < |payloads| && Spells(payloads[good[k]], ops[k]) && ops[k].sources == [turn.id]
  }

  ghost predicate AreRejected(turn: Message, bad: seq<nat>, audit: seq<Audit>) {
    |audit| == |bad| && forall k :: 0 <= k < |audit| ==> audit[k] == ValidationRejection(turn.sequence, bad[k])
  }

  lemma CompletionIsRead(completion: Completion, turn: Message)
    requires WellParsed(completion)
    ensures Reads(completion, turn, Operations(completion, turn), RejectionAudit(completion, turn))
  {
    var ops, audit := Operations(completion, turn), RejectionAudit(completion, turn);
    var payloads := FactsArray(completion);
    forall items | Carries(completion, items)
      ensures Sorts(items, turn, ops, audit)
    {
      FactsArrayExactly(completion, items);
      var good, bad := ResponseIsSorted(items, turn);
      assert AreSpelled(items, turn, good, ops) && AreRejected(turn, bad, audit);
    }
    if payloads.Some? {
      FactsArrayExactly(completion, payloads.value);
    }
  }

  /** The stamp of a turn: the scope of the store, the place and the text of the turn. */
  function TurnStamp(n: Normalizers, store: FactStore, turn: Message): Stamp {
    Stamp(store.tenant, store.conversation, store.extractorVersion, turn.sequence, n.nfc(turn.content))
  }

  /** The store after a turn: facts accounted for by the operations, the audit trail continued by the retractions
      of nothing and then the rejections, and the place in the conversation advanced. */
  ghost predicate Follows(
      n: Normalizers, store: FactStore, turn: Message, m: map<Text, Text>,
      ops: seq<Operation>, audit: seq<Audit>, after: FactStore)
  {
    var x := TurnStamp(n, store, turn);
    && Accounted(n, store.facts, Stamped(x, ops), after.facts)
    && Shows(after.facts, MapSteps(n, m, ops))
    && after.audit == store.audit + MapAudits(n, x, m, ops) + audit
    && after.tenant == store.tenant && after.conversation == store.conversation
    && after.extractorVersion == store.extractorVersion && after.lastSequence == turn.sequence
    && StoreSound(after)
  }

  lemma OperationsAreAccounted(n: Normalizers, store: FactStore, x: Stamp, m: map<Text, Text>, ops: seq<Operation>)
    requires StoreSound(store) && Shows(store.facts, m) && store.lastSequence < x.sourceSequence
    ensures var after := Steps(n, x, History(store.facts, store.audit), ops);
            && Accounted(n, store.facts, Stamped(x, ops), after.facts)
            && Shows(after.facts, MapSteps(n, m, ops))
            && after.audit == store.audit + MapAudits(n, x, m, ops)
  {
    var h := History(store.facts, store.audit);
    StepsRefineMap(n, x, h, ops, m);
    StepsArePlay(n, x, h, ops);
    PlayIsAccounted(n, h, Stamped(x, ops));
  }

  lemma OperationsFollow(
      n: Normalizers, store: FactStore, turn: Message, m: map<Text, Text>, ops: seq<Operation>, audit: seq<Audit>)
    requires StoreSound(store) && Shows(store.facts, m)
    requires store.lastSequence < turn.sequence && IsText(turn.content)
    ensures var r := Applied(n, store, ops, turn.sequence, turn.content);
            r.Success? && Follows(n, store, turn, m, ops, audit, r.value.(audit := r.value.audit + audit))
  {
    OperationsAreAccounted(n, store, TurnStamp(n, store, turn), m, ops);
    AppliedKeepsSound(n, store, Call(ops, turn.sequence, turn.content));
  }

  /** A turn is extracted exactly when its request may be made and it is not blank. The result holds the operations
      that the completion spells, counts what else it holds, and the store follows from them. */
  lemma TurnIsExtracted(
      n: Normalizers, store: FactStore, c: Case, turn: Message, completion: Completion, m: map<Text, Text>)
    requires WellParsed(completion) && StoreSound(store) && Shows(store.facts, m)
    ensures var r := Extracted(n, store, c, turn, completion);
            && (r.Success? <==> MayAsk(store, c, turn) && !IsBlank(turn.content))
            && (r.Success? ==> exists audit ::
                  && Reads(completion, turn, r.value.operations, audit) && r.value.rejectedCount == |audit|
                  && Follows(n, store, turn, m, r.value.operations, audit, r.value.store))
  {
    RequestsAreExact(store, c, turn);
    CompletionIsRead(completion, turn);
    if MayAsk(store, c, turn) && !IsBlank(turn.content) {
      OperationsFollow(n, store, turn, m, Operations(completion, turn), RejectionAudit(completion, turn));
    }
  }
}
