/** Causal extraction: one user turn at a time, each answered by one completion of any content. */
module Extraction {
  import opened Wrappers
  import opened Texts
  import opened Json
  import opened Facts
  import opened Sorting

  datatype Role = User | Assistant

  datatype Message = Message(id: Text, sequence: nat, role: Role, content: Text)

  datatype Case = Case(tenant: Text, conversation: Text, turns: seq<Message>)

  datatype Request = Request(payload: Text, tenant: Text, conversation: Text, messageId: Text)

  datatype RequestError =
    | ScopeMismatch
    | VersionMismatch
    | NotTheNextUserTurn
    | SkippedUserTurn
    | ForeignOrFutureFacts
    | ProvenanceNotCausal
    | SlotConflict
    | NotEncodable

  /** A completion's text, with its syntax when `decode_json` accepts it. */
  datatype Completion = Completion(text: Text, document: Option<Document>)

  datatype ExtractionResult = ExtractionResult(store: FactStore, operations: seq<Operation>, rejectedCount: nat)

  datatype ExtractionError = BadRequest(request: RequestError) | NotApplied(apply: ApplyError)

  const EXTRACTOR_VERSION: Text := Ascii("orq39-extraction-v2")

  /** The syntax spells the text, and no object in it repeats a key. */
  ghost predicate WellParsed(c: Completion) {
    match c.document
    case None => true
    case Some(d) => ValidDocument(d) && SpellDocument(d) == c.text
  }

  // ----- The request -----

  function ActivePairs(facts: seq<Fact>): seq<(Text, Text)> {
    if facts == [] then []
    else
      var last := facts[|facts| - 1];
      var pairs := ActivePairs(facts[..|facts| - 1]);
      if last.status.Active? then pairs + [(last.slotKey, last.value)] else pairs
  }

  predicate PairLeq(a: (Text, Text), b: (Text, Text)) {
    if a.0 == b.0 then TextLeq(a.1, b.1) else TextLeq(a.0, b.0)
  }

  predicate RepeatsKey(pairs: seq<(Text, Text)>) {
    exists i, j :: 0 <= i < j < |pairs| && pairs[i].0 == pairs[j].0
  }

  predicate IsPriorUser(c: Case, turn: Message, id: Text) {
    exists i :: 0 <= i < |c.turns|
                && c.turns[i].role.User? && c.turns[i].sequence < turn.sequence && c.turns[i].id == id
  }

  predicate SkipsUserTurn(c: Case, lastSequence: int, turn: Message) {
    exists i :: 0 <= i < |c.turns| && c.turns[i].role.User? && lastSequence < c.turns[i].sequence < turn.sequence
  }

  predicate HasForeignOrFutureFact(store: FactStore, turn: Message) {
    exists i :: 0 <= i < |store.facts|
                && (store.facts[i].tenant != store.tenant || store.facts[i].conversation != store.conversation
                    || store.facts[i].sourceSequence >= turn.sequence)
  }

  predicate LacksCausalProvenance(store: FactStore, c: Case, turn: Message) {
    exists i :: 0 <= i < |store.facts|
                && (store.facts[i].sources == []
                    || exists j :: 0 <= j < |store.facts[i].sources|
                                   && !IsPriorUser(c, turn, store.facts[i].sources[j]))
  }

  const SLOTS_LEAD: Text := Ascii("{\"active_slots\":")
  const TURN_LEAD: Text := Ascii(",\"turn\":") + Ascii("{\"content\":")
  const ID_LEAD: Text := Ascii(",\"message_id\":")
  const PAYLOAD_END: Text := [0x7D, 0x7D]

  /** The canonical payload: keys in sorted order, no white space. */
  function PayloadText(turn: Message, slots: seq<(Text, Text)>): Text {
    SLOTS_LEAD + CompactObject(slots) + TURN_LEAD + Quote(turn.content)
    + ID_LEAD + Quote(turn.id) + PAYLOAD_END
  }

  function ExtractionRequest(store: FactStore, c: Case, turn: Message): Result<Request, RequestError> {
    if store.tenant != c.tenant || store.conversation != c.conversation then Failure(ScopeMismatch)
    else if store.extractorVersion != EXTRACTOR_VERSION then Failure(VersionMismatch)
    else if turn !in c.turns || !turn.role.User? || turn.sequence <= store.lastSequence then
      Failure(NotTheNextUserTurn)
    else if SkipsUserTurn(c, store.lastSequence, turn) then Failure(SkippedUserTurn)
    else if HasForeignOrFutureFact(store, turn) then Failure(ForeignOrFutureFacts)
    else if LacksCausalProvenance(store, c, turn) then Failure(ProvenanceNotCausal)
    else
      var slots := Sort(PairLeq, ActivePairs(store.facts));
      if RepeatsKey(slots) then Failure(SlotConflict)
      else
        var payload := PayloadText(turn, slots);
        if Encodable(payload) then Success(Request(payload, c.tenant, c.conversation, turn.id))
        else Failure(NotEncodable)
  }

  // ----- Operations from a decoded payload -----

  function Field(members: seq<(Text, Json)>, key: Text): Option<Json> {
    if members == [] then None
    else if members[0].0 == key then Some(members[0].1)
    else Field(members[1..], key)
  }

  predicate IsLower(c: CodePoint) {
    0x61 <= c <= 0x7A
  }

  /** Lower-case words of letters and digits, joined by single underscores, a letter first. */
  predicate IsSnakeCase(t: Text) {
    && t != [] && IsLower(t[0]) && t[|t| - 1] != 0x5F
    && (forall i :: 0 <= i < |t| ==> IsLower(t[i]) || 0x30 <= t[i] <= 0x39 || t[i] == 0x5F)
    && (forall i :: 0 < i < |t| ==> !(t[i - 1] == 0x5F && t[i] == 0x5F))
  }

  function KindOf(t: Text): Option<Kind> {
    if t == Ascii("fact") then Some(FactKind)
    else if t == Ascii("preference") then Some(Preference)
    else if t == Ascii("constraint") then Some(Constraint)
    else if t == Ascii("decision") then Some(Decision)
    else if t == Ascii("goal") then Some(Goal)
    else None
  }

  /** The texts of a JSON array of non-empty strings. */
  function SourceIds(items: seq<Json>): Option<seq<Text>> {
    if items == [] then Some([])
    else
      match (items[0], SourceIds(items[1..]))
      case (Str(t), Some(rest)) => if IsText(t) then Some([t] + rest) else None
      case (_, _) => None
  }

  /** The operation object's checks; None stands for any of its exceptions. */
  function NewOperation(op: Json, slot: Json, value: Json, kind: Json, sources: Json): Option<Operation> {
    if !sources.Arr? || !slot.Str? || !IsSnakeCase(slot.text) || !kind.Str? then None
    else
      match (KindOf(kind.text), SourceIds(sources.items))
      case (Some(k), Some(ids)) =>
        if ids == [] then None
        else if op == Str(Ascii("assert")) then
          if value.Str? && IsText(value.text) then Some(Assert(slot.text, value.text, k, ids)) else None
        else if op == Str(Ascii("retract")) && value.Null? then Some(Retract(slot.text, k, ids))
        else None
      case (_, _) => None
  }

  /** `Operation.from_payload`: exactly the five fields, none repaired. */
  function FromPayload(payload: Json): Option<Operation> {
    if !payload.Obj? || |payload.members| != 5 then None
    else
      var ms := payload.members;
      match (Field(ms, Ascii("op")), Field(ms, Ascii("slot_key")), Field(ms, Ascii("value")),
             Field(ms, Ascii("kind")), Field(ms, Ascii("source_message_ids")))
      case (Some(op), Some(slot), Some(value), Some(kind), Some(sources)) =>
        NewOperation(op, slot, value, kind, sources)
      case (_, _, _, _, _) => None
  }

  /** An operation counts only if its provenance is the current user turn, cited once. */
  function AcceptPayload(payload: Json, messageId: Text): Option<Operation> {
    match FromPayload(payload)
    case None => None
    case Some(op) => if op.sources == [messageId] then Some(op) else None
  }

  function AcceptedOps(payloads: seq<Json>, messageId: Text): seq<Operation> {
    if payloads == [] then []
    else
      var ops := AcceptedOps(payloads[..|payloads| - 1], messageId);
      match AcceptPayload(payloads[|payloads| - 1], messageId)
      case Some(op) => ops + [op]
      case None => ops
  }

  function Rejections(payloads: seq<Json>, messageId: Text, sequence: nat): seq<Audit> {
    if payloads == [] then []
    else
      var index := |payloads| - 1;
      var audit := Rejections(payloads[..index], messageId, sequence);
      if AcceptPayload(payloads[index], messageId).Some? then audit
      else audit + [ValidationRejection(sequence, index)]
  }

  /** The payloads of a document that is exactly one `facts` array. */
  function FactsArray(c: Completion): Option<seq<Json>>
    requires WellParsed(c)
  {
    if c.document.None? then None
    else
      var raw := Meaning(c.document.value.root);
      if raw.Obj? && |raw.members| == 1 && raw.members[0].0 == Ascii("facts") && raw.members[0].1.Arr?
      then Some(raw.members[0].1.items)
      else None
  }

  function Operations(c: Completion, turn: Message): seq<Operation>
    requires WellParsed(c)
  {
    match FactsArray(c)
    case None => []
    case Some(payloads) => AcceptedOps(payloads, turn.id)
  }

  /** A malformed response is one rejection; otherwise each bad operation is one. */
  function RejectionAudit(c: Completion, turn: Message): seq<Audit>
    requires WellParsed(c)
  {
    match FactsArray(c)
    case None => [ValidationRejection(turn.sequence, 0)]
    case Some(payloads) => Rejections(payloads, turn.id, turn.sequence)
  }

  function Extracted(n: Normalizers, store: FactStore, c: Case, turn: Message, completion: Completion)
    : Result<ExtractionResult, ExtractionError>
    requires WellParsed(completion)
  {
    match ExtractionRequest(store, c, turn)
    case Failure(e) => Failure(BadRequest(e))
    case Success(_) =>
      var ops, audit := Operations(completion, turn), RejectionAudit(completion, turn);
      match Applied(n, store, ops, turn.sequence, turn.content)
      case Failure(e) => Failure(NotApplied(e))
      case Success(updated) =>
        Success(ExtractionResult(updated.(audit := updated.audit + audit), ops, |audit|))
  }

  /** The loop over the payloads of a document. */
  method AcceptAll(payloads: seq<Json>, turn: Message) returns (accepted: seq<Operation>, audit: seq<Audit>)
    ensures accepted == AcceptedOps(payloads, turn.id)
    ensures audit == Rejections(payloads, turn.id, turn.sequence)
  {
    accepted, audit := [], [];
    for index := 0 to |payloads|
      invariant accepted == AcceptedOps(payloads[..index], turn.id)
      invariant audit == Rejections(payloads[..index], turn.id, turn.sequence)
    {
      assert payloads[..index + 1][..index] == payloads[..index];
      var operation := AcceptPayload(payloads[index], turn.id);
      if operation.None? {
        audit := audit + [ValidationRejection(turn.sequence, index)];
      } else {
        accepted := accepted + [operation.value];
      }
    }
    assert payloads[..|payloads|] == payloads;
  }

  method ExtractTurn(n: Normalizers, store: FactStore, c: Case, turn: Message, completion: Completion)
    returns (r: Result<ExtractionResult, ExtractionError>)
    requires WellParsed(completion)
    ensures r == Extracted(n, store, c, turn, completion)
  {
    var request := ExtractionRequest(store, c, turn);
    if request.Failure? {
      return Failure(BadRequest(request.error));
    }
    var accepted: seq<Operation>, audit: seq<Audit> := [], [];
    var raw := FactsArray(completion);
    if raw.None? {
      audit := [ValidationRejection(turn.sequence, 0)];
    } else {
      accepted, audit := AcceptAll(raw.value, turn);
    }
    var updated := Apply(n, store, accepted, turn.sequence, turn.content);
    if updated.Failure? {
      return Failure(NotApplied(updated.error));
    }
    var final := updated.value.(audit := updated.value.audit + audit);
    r := Success(ExtractionResult(final, accepted, |audit|));
  }
}
