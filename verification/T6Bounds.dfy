/** The T6 acceptance limit on responses and the byte bounds that follow from it. */
module T6Bounds {
  import opened Wrappers
  import opened Texts
  import opened Json
  import opened JsonSize
  import opened Facts
  import opened Sorting
  import opened Extraction
  import opened CausalRuns
  import opened ResponseSize

  const RESPONSE_BYTES: nat := 131072

  datatype T6Error = Stopped | ResponseRefused | NotExtracted(error: ExtractionError)

  /** `accept_response`: strict UTF-8, at most the allowance. */
  predicate Accepts(text: Text) {
    Encodable(text) && Utf8Len(text) <= RESPONSE_BYTES
  }

  /** Owns one conversation's store, and stops for good at the first refused response. */
  class T6Extractor {
    const n: Normalizers
    const c: Case
    var store: FactStore
    var stopped: bool

    constructor (n: Normalizers, c: Case, store: FactStore)
      requires NewStore(n, c.tenant, c.conversation, EXTRACTOR_VERSION) == Some(store)
      ensures this.n == n && this.c == c && this.store == store && !stopped
    {
      this.n, this.c, this.store, stopped := n, c, store, false;
    }

    /** `completion` is what the provider or its cache answers if it is asked at all. */
    method Extract(turn: Message, completion: Completion) returns (r: Result<ExtractionResult, T6Error>)
      requires WellParsed(completion)
      modifies this`store, this`stopped
      ensures old(stopped) ==> r == Failure(Stopped) && stopped && store == old(store)
      ensures !old(stopped) ==>
        match ExtractionRequest(old(store), c, turn)
        case Failure(e) => r == Failure(NotExtracted(BadRequest(e))) && !stopped && store == old(store)
        case Success(_) =>
          if !Accepts(completion.text) then r == Failure(ResponseRefused) && stopped && store == old(store)
          else
            !stopped
            && match Extracted(n, old(store), c, turn, completion)
               case Failure(e) => r == Failure(NotExtracted(e)) && store == old(store)
               case Success(result) => r == Success(result) && store == result.store
    {
      if stopped {
        return Failure(Stopped);
      }
      var request := ExtractionRequest(store, c, turn);
      if request.Failure? {
        return Failure(NotExtracted(BadRequest(request.error)));
      }
      if !Accepts(completion.text) {
        stopped := true;
        return Failure(ResponseRefused);
      }
      var result := ExtractTurn(n, store, c, turn, completion);
      if result.Failure? {
        return Failure(NotExtracted(result.error));
      }
      store := result.value.store;
      r := Success(result.value);
    }
  }

  // ----- One response -----

  datatype ResponseBounds = ResponseBounds(operations: nat, keyBytes: nat, valueBytes: nat)

  /** None stands for the refusal of an empty provenance. */
  function BoundsFor(p: nat): Option<ResponseBounds> {
    if p == 0 then None
    else
      var room := RESPONSE_BYTES - 93 - p;
      Some(ResponseBounds((RESPONSE_BYTES - 11) / (83 + p), if room > 0 then room else 0, if room > 0 then room else 0))
  }

  ghost predicate Nonempty(op: Operation) {
    op.slotKey != [] && (op.Assert? ==> op.value != [])
  }

  lemma {:induction false} AcceptedAreNonempty(payloads: seq<Json>, id: Text)
    ensures forall i :: 0 <= i < |AcceptedOps(payloads, id)| ==> Nonempty(AcceptedOps(payloads, id)[i])
  {
    if payloads != [] {
      AcceptedAreNonempty(payloads[..|payloads| - 1], id);
      var accepted := AcceptPayload(payloads[|payloads| - 1], id);
      assert accepted.Some? ==> IsSnakeCase(accepted.value.slotKey);
      assert accepted.Some? && accepted.value.Assert? ==> IsText(accepted.value.value);
    }
  }

  lemma OneFloor(op: Operation, p: nat)
    requires Nonempty(op)
    ensures 83 + p <= OperationFloor(op, p)
    ensures Utf8Len(op.slotKey) + 82 + p <= OperationFloor(op, p)
    ensures op.Assert? ==> Utf8Len(op.value) + 82 + p <= OperationFloor(op, p)
  {
    QuoteGrowth(op.slotKey);
    Utf8LenBounds(op.slotKey);
    if op.Assert? {
      QuoteGrowth(op.value);
      Utf8LenBounds(op.value);
    }
  }

  lemma {:induction false} FloorIsInTheSum(ops: seq<Operation>, p: nat, i: nat)
    requires i < |ops|
    ensures OperationFloor(ops[i], p) <= OperationsFloor(ops, p)
  {
    var last := |ops| - 1;
    if i < last {
      FloorIsInTheSum(ops[..last], p, i);
    }
  }

  lemma OneMore(count: nat, size: nat)
    ensures (count + 1) * size == count * size + size
  {
  }

  lemma {:induction false} FloorsAddUp(ops: seq<Operation>, p: nat, size: nat)
    requires size == 83 + p && forall i :: 0 <= i < |ops| ==> Nonempty(ops[i])
    ensures |ops| * size <= OperationsFloor(ops, p)
  {
    if ops != [] {
      var last := |ops| - 1;
      FloorsAddUp(ops[..last], p, size);
      OneFloor(ops[last], p);
      OneMore(last, size);
    }
  }

  lemma MulMonotone(a: nat, b: nat, size: nat, wide: nat)
    requires a <= b && size <= wide
    ensures a * size <= b * size <= b * wide
  {
  }

  lemma DivisionBound(count: nat, size: nat, total: nat)
    requires size > 0 && count * size <= total
    ensures count <= total / size
  {
    var q := total / size;
    var least := if count > q then q + 1 else count;
    MulMonotone(least, count, size, size);
    OneMore(q, size);
  }

  lemma CountIsBounded(ops: seq<Operation>, p: nat, q: nat, room: nat)
    requires p <= q && OperationsFloor(ops, q) <= room
    requires forall i :: 0 <= i < |ops| ==> Nonempty(ops[i])
    ensures |ops| <= room / (83 + p)
  {
    FloorsAddUp(ops, q, 83 + q);
    MulMonotone(|ops|, |ops|, 83 + p, 83 + q);
    DivisionBound(|ops|, 83 + p, room);
  }

  /** Every accepted response keeps the individual bounds, for any demonstrated provenance minimum. */
  lemma ResponseBoundsHold(c: Completion, turn: Message, p: nat)
    requires WellParsed(c) && Accepts(c.text)
    requires 0 < p <= Utf8Len(turn.id)
    ensures var ops, bounds := Operations(c, turn), BoundsFor(p).value;
            && |ops| <= bounds.operations
            && forall i :: 0 <= i < |ops| ==>
                 Utf8Len(ops[i].slotKey) <= bounds.keyBytes
                 && (ops[i].Assert? ==> Utf8Len(ops[i].value) <= bounds.valueBytes)
  {
    var ops := Operations(c, turn);
    if ops != [] {
      var q := Utf8Len(turn.id);
      ResponseHoldsItsOperations(c, turn);
      AcceptedAreNonempty(FactsArray(c).value, turn.id);
      CountIsBounded(ops, p, q, RESPONSE_BYTES - 11);
      forall i | 0 <= i < |ops|
        ensures Utf8Len(ops[i].slotKey) + 93 + p <= RESPONSE_BYTES
        ensures ops[i].Assert? ==> Utf8Len(ops[i].value) + 93 + p <= RESPONSE_BYTES
      {
        FloorIsInTheSum(ops, q, i);
        OneFloor(ops[i], q);
      }
    }
  }

  // ----- The active slots after any number of responses -----

  /** The pair bytes of every fact, live or not. */
  function FactsLen(facts: seq<Fact>): nat {
    if facts == [] then 0
    else FactsLen(facts[..|facts| - 1]) + PairLen(facts[|facts| - 1].slotKey, facts[|facts| - 1].value)
  }

  lemma {:induction false} SamePairsSameLen(a: seq<Fact>, b: seq<Fact>)
    requires |a| == |b| && forall i :: 0 <= i < |a| ==> a[i].slotKey == b[i].slotKey && a[i].value == b[i].value
    ensures FactsLen(a) == FactsLen(b)
  {
    if a != [] {
      SamePairsSameLen(a[..|a| - 1], b[..|b| - 1]);
    }
  }

  /** A step adds at most the pair of its own operation. */
  lemma StepCharge(n: Normalizers, x: Stamp, h: History, op: Operation, index: nat, p: nat)
    ensures FactsLen(Step(n, x, h, op, index).facts) <= FactsLen(h.facts) + OperationFloor(op, p)
  {
    var after := Step(n, x, h, op, index).facts;
    if |after| == |h.facts| {
      SamePairsSameLen(after, h.facts);
    } else {
      assert |after| == |h.facts| + 1;
      SamePairsSameLen(after[..|h.facts|], h.facts);
    }
  }

  lemma {:induction false} StepsCharge(n: Normalizers, x: Stamp, h: History, ops: seq<Operation>, p: nat)
    ensures FactsLen(Steps(n, x, h, ops).facts) <= FactsLen(h.facts) + OperationsFloor(ops, p)
  {
    if ops != [] {
      var index := |ops| - 1;
      StepsCharge(n, x, h, ops[..index], p);
      StepCharge(n, x, Steps(n, x, h, ops[..index]), ops[index], index, p);
    }
  }

  lemma {:induction false} ActivePairsLen(facts: seq<Fact>)
    ensures PairsLen(ActivePairs(facts)) <= FactsLen(facts)
  {
    if facts != [] {
      var front, last := facts[..|facts| - 1], facts[|facts| - 1];
      ActivePairsLen(front);
      if last.status.Active? {
        PairsLenAppend(ActivePairs(front), (last.slotKey, last.value));
      }
    }
  }

  lemma {:induction false} PairsLenAppend(pairs: seq<(Text, Text)>, pair: (Text, Text))
    ensures PairsLen(pairs + [pair]) == PairsLen(pairs) + PairLen(pair.0, pair.1)
  {
    if pairs != [] {
      assert (pairs + [pair])[1..] == pairs[1..] + [pair];
      PairsLenAppend(pairs[1..], pair);
    }
  }

  lemma {:induction false} InsertLen(pair: (Text, Text), pairs: seq<(Text, Text)>)
    ensures PairsLen(Insert(PairLeq, pair, pairs)) == PairLen(pair.0, pair.1) + PairsLen(pairs)
  {
    if pairs != [] && !PairLeq(pair, pairs[0]) {
      InsertLen(pair, pairs[1..]);
    }
  }

  lemma {:induction false} SortLen(pairs: seq<(Text, Text)>)
    ensures PairsLen(Sort(PairLeq, pairs)) == PairsLen(pairs)
  {
    if pairs != [] {
      SortLen(pairs[1..]);
      InsertLen(pairs[0], Sort(PairLeq, pairs[1..]));
    }
  }

  /** The serialised active dictionary of a store. */
  function ActiveSlotsText(store: FactStore): Text {
    CompactObject(Sort(PairLeq, ActivePairs(store.facts)))
  }

  function TotalLen(completions: seq<Completion>): nat {
    if completions == [] then 0
    else TotalLen(completions[..|completions| - 1]) + Utf8Len(completions[|completions| - 1].text)
  }

  lemma TurnCharge(n: Normalizers, c: Case, before: FactStore, turn: Message, last: Completion)
    requires WellParsed(last) && Extracted(n, before, c, turn, last).Success?
    ensures FactsLen(Extracted(n, before, c, turn, last).value.store.facts)
            <= FactsLen(before.facts) + Utf8Len(last.text)
  {
    var ops := Operations(last, turn);
    var x := StampOf(n, before, turn.sequence, turn.content);
    StepsCharge(n, x, History(before.facts, before.audit), ops, Utf8Len(turn.id));
    if ops != [] {
      ResponseHoldsItsOperations(last, turn);
    }
  }

  lemma {:induction false} FeedCharge(n: Normalizers, c: Case, completions: seq<Completion>)
    requires |completions| <= |UserTurns(c.turns)|
    requires forall i :: 0 <= i < |completions| ==> WellParsed(completions[i])
    requires Feed(n, c, completions).Some?
    ensures FactsLen(Feed(n, c, completions).value.facts) <= TotalLen(completions)
  {
    if completions != [] {
      var k := |completions| - 1;
      FeedCharge(n, c, completions[..k]);
      TurnCharge(n, c, Feed(n, c, completions[..k]).value, UserTurns(c.turns)[k], completions[k]);
    }
  }

  /** Each surviving pair is charged once, to the response it came from. */
  lemma ActiveSlotsFitTheResponses(n: Normalizers, c: Case, completions: seq<Completion>)
    requires |completions| <= |UserTurns(c.turns)|
    requires forall i :: 0 <= i < |completions| ==> WellParsed(completions[i])
    requires Feed(n, c, completions).Some?
    ensures Utf8Len(ActiveSlotsText(Feed(n, c, completions).value)) <= 2 + TotalLen(completions)
  {
    var facts := Feed(n, c, completions).value.facts;
    FeedCharge(n, c, completions);
    ActivePairsLen(facts);
    SortLen(ActivePairs(facts));
    CompactObjectLen(Sort(PairLeq, ActivePairs(facts)));
  }

  /** `active_slots_json_bytes`. */
  function ActiveSlotsBytes(responses: nat): nat {
    2 + responses * RESPONSE_BYTES
  }

  lemma {:induction false} TotalIsBounded(completions: seq<Completion>)
    requires forall i :: 0 <= i < |completions| ==> Accepts(completions[i].text)
    ensures 2 + TotalLen(completions) <= ActiveSlotsBytes(|completions|)
  {
    if completions != [] {
      TotalIsBounded(completions[..|completions| - 1]);
    }
  }

  /** The fixed shell: the payload with no content and no slots. */
  function ShellBytes(messageId: Text): nat {
    Utf8Len(PayloadText(Message(messageId, 0, User, []), []))
  }

  /** `extraction_payload_bytes`. */
  function PayloadBytes(responses: nat, turnBytes: nat, messageId: Text): int {
    ShellBytes(messageId) + 6 * turnBytes + ActiveSlotsBytes(responses) - 2
  }

  /** A payload is its shell with the quoted content and the serialised slots put in. */
  lemma PayloadLen(turn: Message, slots: seq<(Text, Text)>)
    ensures Utf8Len(PayloadText(turn, slots))
            == ShellBytes(turn.id) + (QuotedLen(turn.content) - 2) + (Utf8Len(CompactObject(slots)) - 2)
  {
    PayloadParts(turn, slots);
    PayloadParts(Message(turn.id, 0, User, []), []);
    Bracketed(QUOTE, Escape([]), QUOTE);
    CompactObjectLen([]);
  }

  lemma SevenParts(a: Text, b: Text, c: Text, d: Text, e: Text, f: Text, g: Text)
    ensures Utf8Len(a + b + c + d + e + f + g)
            == Utf8Len(a) + Utf8Len(b) + Utf8Len(c) + Utf8Len(d) + Utf8Len(e) + Utf8Len(f) + Utf8Len(g)
  {
    Utf8LenConcat(a, b);
    Utf8LenConcat(a + b, c);
    Utf8LenConcat(a + b + c, d);
    Utf8LenConcat(a + b + c + d, e);
    Utf8LenConcat(a + b + c + d + e, f);
    Utf8LenConcat(a + b + c + d + e + f, g);
  }

  lemma PayloadParts(turn: Message, slots: seq<(Text, Text)>)
    ensures Utf8Len(PayloadText(turn, slots))
            == Utf8Len(SLOTS_LEAD) + Utf8Len(CompactObject(slots))
               + Utf8Len(TURN_LEAD) + QuotedLen(turn.content)
               + Utf8Len(ID_LEAD) + QuotedLen(turn.id) + Utf8Len(PAYLOAD_END)
  {
    SevenParts(
      SLOTS_LEAD, CompactObject(slots), TURN_LEAD, Quote(turn.content),
      ID_LEAD, Quote(turn.id), PAYLOAD_END);
  }

  /** After any j accepted responses the next request's payload keeps the composed byte bound. */
  lemma PayloadIsBounded(n: Normalizers, c: Case, completions: seq<Completion>)
    requires ValidCase(c) && KeepsAscii(n) && |completions| < |UserTurns(c.turns)|
    requires forall i :: 0 <= i < |completions| ==> WellParsed(completions[i]) && Accepts(completions[i].text)
    requires forall i :: 0 <= i <= |completions| ==> Encodable(UserTurns(c.turns)[i].content)
    ensures var turn := UserTurns(c.turns)[|completions|];
            && Feed(n, c, completions).Some?
            && var request := ExtractionRequest(Feed(n, c, completions).value, c, turn);
            && request.Success?
            && Utf8Len(request.value.payload) <= PayloadBytes(|completions|, Utf8Len(turn.content), turn.id)
            && Utf8Len(ActiveSlotsText(Feed(n, c, completions).value)) <= ActiveSlotsBytes(|completions|)
  {
    var turn := UserTurns(c.turns)[|completions|];
    FeedingNeverRaises(n, c, completions);
    var store := Feed(n, c, completions).value;
    NextRequestSucceeds(c, |completions|, store);
    ActiveSlotsFitTheResponses(n, c, completions);
    TotalIsBounded(completions);
    PayloadLen(turn, Sort(PairLeq, ActivePairs(store.facts)));
    QuoteGrowth(turn.content);
  }
}
