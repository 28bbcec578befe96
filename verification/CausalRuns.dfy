/** Feeding a conversation's user turns in order: whatever the model answers, every request can be built. */
module CausalRuns {
  import opened Wrappers
  import opened Texts
  import opened Json
  import opened Facts
  import opened FactHistory
  import opened Sorting
  import opened Extraction

  /** What parsing a case guarantees: turns numbered from 1, non-blank contents, ASCII identifiers. */
  ghost predicate ValidCase(c: Case) {
    && IsAscii(c.tenant) && IsText(c.tenant) && IsAscii(c.conversation) && IsText(c.conversation)
    && forall i :: 0 <= i < |c.turns| ==>
         c.turns[i].sequence == i + 1 && IsAscii(c.turns[i].id) && IsText(c.turns[i].id) && !IsBlank(c.turns[i].content)
  }

  function UserTurns(turns: seq<Message>): seq<Message> {
    if turns == [] then []
    else
      var users := UserTurns(turns[..|turns| - 1]);
      if turns[|turns| - 1].role.User? then users + [turns[|turns| - 1]] else users
  }

  /** The stores after each answered user turn; None once a step has raised. */
  ghost function Feed(n: Normalizers, c: Case, completions: seq<Completion>): Option<FactStore>
    requires |completions| <= |UserTurns(c.turns)|
    requires forall i :: 0 <= i < |completions| ==> WellParsed(completions[i])
  {
    if completions == [] then NewStore(n, c.tenant, c.conversation, EXTRACTOR_VERSION)
    else
      var k := |completions| - 1;
      match Feed(n, c, completions[..k])
      case None => None
      case Some(store) =>
        match Extracted(n, store, c, UserTurns(c.turns)[k], completions[k])
        case Failure(_) => None
        case Success(result) => Some(result.store)
  }

  // ----- The user turns of a case -----

  ghost predicate IsUserAt(turns: seq<Message>, i: nat, m: Message) {
    i < |turns| && turns[i] == m && m.role.User?
  }

  /** Every user turn stands at its sequence number, and they are in order. */
  ghost predicate InPlace(turns: seq<Message>, users: seq<Message>) {
    && (forall k :: 0 <= k < |users| ==>
          1 <= users[k].sequence <= |turns| && IsUserAt(turns, users[k].sequence - 1, users[k]))
    && (forall k, l :: 0 <= k < l < |users| ==> users[k].sequence < users[l].sequence)
  }

  lemma StillInPlace(turns: seq<Message>, users: seq<Message>)
    requires turns != [] && InPlace(turns[..|turns| - 1], users)
    ensures InPlace(turns, users)
  {
    forall k | 0 <= k < |users|
      ensures 1 <= users[k].sequence <= |turns| && IsUserAt(turns, users[k].sequence - 1, users[k])
    {
      assert IsUserAt(turns[..|turns| - 1], users[k].sequence - 1, users[k]);
    }
  }

  lemma {:induction false} UsersInPlace(turns: seq<Message>)
    requires forall i :: 0 <= i < |turns| ==> turns[i].sequence == i + 1
    ensures InPlace(turns, UserTurns(turns))
  {
    if turns != [] {
      var front := turns[..|turns| - 1];
      UsersInPlace(front);
      StillInPlace(turns, UserTurns(front));
    }
  }

  lemma {:induction false} UsersAreAll(turns: seq<Message>, i: nat)
    requires i < |turns| && turns[i].role.User?
    ensures turns[i] in UserTurns(turns)
  {
    if i < |turns| - 1 {
      UsersAreAll(turns[..|turns| - 1], i);
    }
  }

  lemma UserTurnsAreTheUsers(turns: seq<Message>)
    requires forall i :: 0 <= i < |turns| ==> turns[i].sequence == i + 1
    ensures InPlace(turns, UserTurns(turns))
    ensures forall i :: 0 <= i < |turns| && turns[i].role.User? ==> turns[i] in UserTurns(turns)
  {
    UsersInPlace(turns);
    forall i | 0 <= i < |turns| && turns[i].role.User?
      ensures turns[i] in UserTurns(turns)
    {
      UsersAreAll(turns, i);
    }
  }

  /** The sequence of the last processed user turn. */
  function Progress(c: Case, k: nat): int
    requires k <= |UserTurns(c.turns)|
  {
    if k == 0 then -1 else UserTurns(c.turns)[k - 1].sequence
  }

  /** No user turn lies strictly between two neighbours. */
  lemma NoUserBetween(turns: seq<Message>, users: seq<Message>, k: nat, m: Message)
    requires InPlace(turns, users) && k < |users| && m in users
    ensures users[k].sequence <= m.sequence || (k > 0 && m.sequence <= users[k - 1].sequence)
  {
    var l :| 0 <= l < |users| && users[l] == m;
    assert k > 0 && l < k - 1 ==> users[l].sequence < users[k - 1].sequence;
    assert k < l ==> users[k].sequence < users[l].sequence;
  }

  lemma NextTurnIsUnskipped(c: Case, k: nat)
    requires ValidCase(c) && k < |UserTurns(c.turns)|
    ensures var turn := UserTurns(c.turns)[k];
            && turn in c.turns && turn.role.User? && Progress(c, k) < turn.sequence
            && !SkipsUserTurn(c, Progress(c, k), turn)
            && Encodable(turn.id) && !IsBlank(turn.content)
  {
    var users := UserTurns(c.turns);
    var turn := users[k];
    UserTurnsAreTheUsers(c.turns);
    assert IsUserAt(c.turns, turn.sequence - 1, turn);
    forall i | 0 <= i < |c.turns| && c.turns[i].role.User?
      ensures !(Progress(c, k) < c.turns[i].sequence < turn.sequence)
    {
      NoUserBetween(c.turns, users, k, c.turns[i]);
    }
  }

  // ----- The invariant -----

  predicate IsUserUpTo(c: Case, bound: int, id: Text) {
    exists i :: 0 <= i < |c.turns| && c.turns[i].role.User? && c.turns[i].sequence <= bound && c.turns[i].id == id
  }

  /** In scope, encodable, and supported by user turns up to `bound` only. */
  ghost predicate Supported(c: Case, bound: int, f: Fact) {
    && f.tenant == c.tenant && f.conversation == c.conversation && f.sourceSequence <= bound
    && Encodable(f.slotKey) && Encodable(f.value)
    && f.sources != [] && (forall t :: t in f.sources ==> IsUserUpTo(c, bound, t))
  }

  ghost predicate AllSupported(c: Case, bound: int, facts: seq<Fact>) {
    forall i :: 0 <= i < |facts| ==> Supported(c, bound, facts[i])
  }

  ghost predicate Causal(c: Case, k: nat, store: FactStore)
    requires k <= |UserTurns(c.turns)|
  {
    && store.tenant == c.tenant && store.conversation == c.conversation
    && store.extractorVersion == EXTRACTOR_VERSION
    && store.lastSequence == Progress(c, k)
    && StoreSound(store)
    && AllSupported(c, Progress(c, k), store.facts)
  }

  /** What every accepted operation of a turn satisfies. */
  ghost predicate FromTurn(op: Operation, turn: Message) {
    op.sources == [turn.id] && Encodable(op.slotKey) && (op.Assert? ==> Encodable(op.value))
  }

  lemma {:induction false} AcceptedOpsAreFromTurn(payloads: seq<Json>, turn: Message)
    ensures forall i :: 0 <= i < |AcceptedOps(payloads, turn.id)| ==> FromTurn(AcceptedOps(payloads, turn.id)[i], turn)
  {
    if payloads != [] {
      AcceptedOpsAreFromTurn(payloads[..|payloads| - 1], turn);
      var accepted := AcceptPayload(payloads[|payloads| - 1], turn.id);
      assert accepted.Some? ==> IsSnakeCase(accepted.value.slotKey);
    }
  }

  lemma StepKeepsSupported(
      n: Normalizers, c: Case, turn: Message, x: Stamp, h: History, op: Operation, index: nat)
    requires turn in c.turns && turn.role.User? && FromTurn(op, turn)
    requires x.tenant == c.tenant && x.conversation == c.conversation && x.sourceSequence == turn.sequence
    requires AllSupported(c, turn.sequence, h.facts)
    ensures AllSupported(c, turn.sequence, Step(n, x, h, op, index).facts)
  {
    assert IsUserUpTo(c, turn.sequence, turn.id);
    var active := ActiveIndex(h.facts, op.slotKey);
    if active.Some? {
      var joined := Distinct(h.facts[active.value].sources + op.sources);
      assert turn.id in joined;
    }
  }

  lemma {:induction false} StepsKeepSupported(
      n: Normalizers, c: Case, turn: Message, x: Stamp, h: History, ops: seq<Operation>)
    requires turn in c.turns && turn.role.User?
    requires forall i :: 0 <= i < |ops| ==> FromTurn(ops[i], turn)
    requires x.tenant == c.tenant && x.conversation == c.conversation && x.sourceSequence == turn.sequence
    requires AllSupported(c, turn.sequence, h.facts)
    ensures AllSupported(c, turn.sequence, Steps(n, x, h, ops).facts)
  {
    if ops != [] {
      var index := |ops| - 1;
      StepsKeepSupported(n, c, turn, x, h, ops[..index]);
      StepKeepsSupported(n, c, turn, x, Steps(n, x, h, ops[..index]), ops[index], index);
    }
  }

  lemma SupportWidens(c: Case, low: int, high: int, facts: seq<Fact>)
    requires low <= high && AllSupported(c, low, facts)
    ensures AllSupported(c, high, facts)
  {
    forall i, t | 0 <= i < |facts| && t in facts[i].sources
      ensures IsUserUpTo(c, high, t)
    {
      assert IsUserUpTo(c, low, t);
    }
  }

  // ----- The slots of a causal store can be serialised -----

  ghost predicate IsActivePair(facts: seq<Fact>, pair: (Text, Text)) {
    exists i :: 0 <= i < |facts| && facts[i].status.Active? && pair == (facts[i].slotKey, facts[i].value)
  }

  lemma {:induction false} ActivePairsAreFacts(facts: seq<Fact>)
    ensures forall k :: 0 <= k < |ActivePairs(facts)| ==> IsActivePair(facts, ActivePairs(facts)[k])
    ensures OneActivePerSlot(facts) ==> DistinctKeys(ActivePairs(facts))
  {
    if facts != [] {
      var front := facts[..|facts| - 1];
      ActivePairsAreFacts(front);
      forall pair | IsActivePair(front, pair)
        ensures IsActivePair(facts, pair)
      {
        var i :| 0 <= i < |front| && front[i].status.Active? && pair == (front[i].slotKey, front[i].value);
        assert facts[i] == front[i];
      }
    }
  }

  lemma RearrangedKeysDiffer(pairs: seq<(Text, Text)>, other: seq<(Text, Text)>)
    requires DistinctKeys(pairs) && multiset(pairs) == multiset(other)
    ensures DistinctKeys(other)
  {
    RearrangedHasNoRepeats(pairs, other);
    forall i, j | 0 <= i < j < |other|
      ensures other[i].0 != other[j].0
    {
      var first, second := other[i], other[j];
      assert first in multiset(other) && second in multiset(other);
      assert first in multiset(pairs) && second in multiset(pairs);
      var x :| 0 <= x < |pairs| && pairs[x] == first;
      var y :| 0 <= y < |pairs| && pairs[y] == second;
      assert first != second;
      assert x != y;
    }
  }

  lemma SortKeepsDistinctKeys(pairs: seq<(Text, Text)>)
    requires DistinctKeys(pairs)
    ensures DistinctKeys(Sort(PairLeq, pairs))
  {
    SortKeepsElements(PairLeq, pairs);
    RearrangedKeysDiffer(pairs, Sort(PairLeq, pairs));
  }

  lemma ConcatEncodable(a: Text, b: Text)
    ensures Encodable(a + b) <==> Encodable(a) && Encodable(b)
  {
    assert forall i :: 0 <= i < |a| ==> (a + b)[i] == a[i];
    assert forall i :: 0 <= i < |b| ==> (a + b)[|a| + i] == b[i];
  }

  lemma CharIsEncodable(c: CodePoint)
    ensures Encodable(EscapeChar(c)) <==> !IsSurrogate(c)
  {
    assert EscapeChar(c) == [c] ==> EscapeChar(c)[0] == c;
  }

  lemma HeadDecides(t: Text)
    requires t != []
    ensures Encodable(t) <==> !IsSurrogate(t[0]) && Encodable(t[1..])
  {
    assert forall i :: 0 <= i < |t| - 1 ==> t[1..][i] == t[i + 1];
    assert forall i :: 0 < i < |t| ==> t[i] == t[1..][i - 1];
  }

  lemma {:induction false} EscapeIsEncodable(t: Text)
    ensures Encodable(Escape(t)) <==> Encodable(t)
  {
    if t != [] {
      EscapeIsEncodable(t[1..]);
      CharIsEncodable(t[0]);
      HeadDecides(t);
      ConcatEncodable(EscapeChar(t[0]), Escape(t[1..]));
    }
  }

  lemma QuoteIsEncodable(t: Text)
    ensures Encodable(Quote(t)) <==> Encodable(t)
  {
    EscapeIsEncodable(t);
    ConcatEncodable([QUOTE] + Escape(t), [QUOTE]);
    ConcatEncodable([QUOTE], Escape(t));
  }

  ghost predicate EncodablePairs(pairs: seq<(Text, Text)>) {
    forall i :: 0 <= i < |pairs| ==> Encodable(pairs[i].0) && Encodable(pairs[i].1)
  }

  lemma {:induction false} PairsAreEncodable(pairs: seq<(Text, Text)>)
    ensures Encodable(CompactPairs(pairs)) <==> EncodablePairs(pairs)
  {
    if pairs != [] {
      var pair, rest := pairs[0], pairs[1..];
      QuoteIsEncodable(pair.0);
      QuoteIsEncodable(pair.1);
      ConcatEncodable(Quote(pair.0), [COLON]);
      ConcatEncodable(Quote(pair.0) + [COLON], Quote(pair.1));
      FirstPairDecides(pairs);
      if |pairs| > 1 {
        PairsAreEncodable(rest);
        ConcatEncodable(Quote(pair.0) + [COLON] + Quote(pair.1), [COMMA]);
        ConcatEncodable(Quote(pair.0) + [COLON] + Quote(pair.1) + [COMMA], CompactPairs(rest));
      }
    }
  }

  lemma FirstPairDecides(pairs: seq<(Text, Text)>)
    requires pairs != []
    ensures EncodablePairs(pairs) <==> Encodable(pairs[0].0) && Encodable(pairs[0].1) && EncodablePairs(pairs[1..])
  {
    assert pairs == [pairs[0]] + pairs[1..];
  }

  lemma PartsAreEncodable(a: Text, inner: Text, b: Text, content: Text, d: Text, id: Text, e: Text)
    ensures Encodable(a + inner + b + content + d + id + e)
            <==> Encodable(a) && Encodable(inner) && Encodable(b) && Encodable(content) && Encodable(d)
                 && Encodable(id) && Encodable(e)
  {
    ConcatEncodable(a, inner);
    ConcatEncodable(a + inner, b);
    ConcatEncodable(a + inner + b, content);
    ConcatEncodable(a + inner + b + content, d);
    ConcatEncodable(a + inner + b + content + d, id);
    ConcatEncodable(a + inner + b + content + d + id, e);
  }

  lemma PayloadIsEncodable(turn: Message, slots: seq<(Text, Text)>)
    ensures Encodable(PayloadText(turn, slots))
            <==> Encodable(turn.content) && Encodable(turn.id) && EncodablePairs(slots)
  {
    PairsAreEncodable(slots);
    QuoteIsEncodable(turn.content);
    QuoteIsEncodable(turn.id);
    ConcatEncodable([0x7B], CompactPairs(slots));
    ConcatEncodable([0x7B] + CompactPairs(slots), [0x7D]);
    AsciiIsEncodable(SLOTS_LEAD);
    AsciiIsEncodable(TURN_LEAD);
    AsciiIsEncodable(ID_LEAD);
    AsciiIsEncodable(PAYLOAD_END);
    PartsAreEncodable(
      SLOTS_LEAD, CompactObject(slots), TURN_LEAD, Quote(turn.content), ID_LEAD, Quote(turn.id), PAYLOAD_END);
  }

  lemma AsciiIsEncodable(t: Text)
    requires IsAscii(t)
    ensures Encodable(t)
  {
  }

  lemma RearrangedFactsAreEncodable(
      c: Case, bound: int, facts: seq<Fact>, pairs: seq<(Text, Text)>, slots: seq<(Text, Text)>)
    requires AllSupported(c, bound, facts)
    requires forall k :: 0 <= k < |pairs| ==> IsActivePair(facts, pairs[k])
    requires multiset(slots) == multiset(pairs)
    ensures forall i :: 0 <= i < |slots| ==> Encodable(slots[i].0) && Encodable(slots[i].1)
  {
    forall i | 0 <= i < |slots|
      ensures Encodable(slots[i].0) && Encodable(slots[i].1)
    {
      var pair := slots[i];
      assert pair in multiset(slots);
      assert pair in multiset(pairs);
      var k :| 0 <= k < |pairs| && pairs[k] == pair;
      assert IsActivePair(facts, pairs[k]);
      var j :| 0 <= j < |facts| && facts[j].status.Active? && pair == (facts[j].slotKey, facts[j].value);
      assert Supported(c, bound, facts[j]);
    }
  }

  lemma SlotsOfCausalStore(c: Case, bound: int, facts: seq<Fact>)
    requires AllSupported(c, bound, facts) && OneActivePerSlot(facts)
    ensures var slots := Sort(PairLeq, ActivePairs(facts));
            && !RepeatsKey(slots)
            && forall i :: 0 <= i < |slots| ==> Encodable(slots[i].0) && Encodable(slots[i].1)
  {
    var pairs := ActivePairs(facts);
    var slots := Sort(PairLeq, pairs);
    ActivePairsAreFacts(facts);
    SortKeepsDistinctKeys(pairs);
    SortKeepsElements(PairLeq, pairs);
    RearrangedFactsAreEncodable(c, bound, facts, pairs, slots);
  }

  // ----- The main results -----

  /** On a causal store the request for the next user turn fails only if that turn has no UTF-8 form. */
  lemma NextRequestSucceeds(c: Case, k: nat, store: FactStore)
    requires ValidCase(c) && k < |UserTurns(c.turns)| && Causal(c, k, store)
    ensures var turn := UserTurns(c.turns)[k];
            ExtractionRequest(store, c, turn)
            == if Encodable(turn.content) then
                 Success(Request(PayloadText(turn, Sort(PairLeq, ActivePairs(store.facts))),
                                 c.tenant, c.conversation, turn.id))
               else Failure(NotEncodable)
  {
    var turn := UserTurns(c.turns)[k];
    NextTurnIsUnskipped(c, k);
    assert !HasForeignOrFutureFact(store, turn);
    forall i, j | 0 <= i < |store.facts| && 0 <= j < |store.facts[i].sources|
      ensures IsPriorUser(c, turn, store.facts[i].sources[j])
    {
      assert IsUserUpTo(c, store.lastSequence, store.facts[i].sources[j]);
    }
    assert !LacksCausalProvenance(store, c, turn);
    SlotsOfCausalStore(c, store.lastSequence, store.facts);
    PayloadIsEncodable(turn, Sort(PairLeq, ActivePairs(store.facts)));
  }

  lemma OperationsAreFromTurn(completion: Completion, turn: Message)
    requires WellParsed(completion)
    ensures forall i :: 0 <= i < |Operations(completion, turn)| ==> FromTurn(Operations(completion, turn)[i], turn)
  {
    var payloads := FactsArray(completion);
    if payloads.Some? {
      AcceptedOpsAreFromTurn(payloads.value, turn);
    }
  }

  lemma ApplyingKeepsCausal(n: Normalizers, c: Case, k: nat, store: FactStore, ops: seq<Operation>)
    requires ValidCase(c) && k < |UserTurns(c.turns)| && Causal(c, k, store)
    requires Encodable(UserTurns(c.turns)[k].content)
    requires forall i :: 0 <= i < |ops| ==> FromTurn(ops[i], UserTurns(c.turns)[k])
    ensures var turn := UserTurns(c.turns)[k];
            var r := Applied(n, store, ops, turn.sequence, turn.content);
            r.Success? && Causal(c, k + 1, r.value)
  {
    var turn := UserTurns(c.turns)[k];
    NextTurnIsUnskipped(c, k);
    var x := StampOf(n, store, turn.sequence, turn.content);
    AppliedKeepsSound(n, store, Call(ops, turn.sequence, turn.content));
    SupportWidens(c, store.lastSequence, turn.sequence, store.facts);
    StepsKeepSupported(n, c, turn, x, History(store.facts, store.audit), ops);
  }

  lemma ExtractionKeepsCausal(n: Normalizers, c: Case, k: nat, store: FactStore, completion: Completion)
    requires ValidCase(c) && k < |UserTurns(c.turns)| && Causal(c, k, store) && WellParsed(completion)
    requires Encodable(UserTurns(c.turns)[k].content)
    ensures var r := Extracted(n, store, c, UserTurns(c.turns)[k], completion);
            r.Success? && Causal(c, k + 1, r.value.store)
  {
    var turn := UserTurns(c.turns)[k];
    NextRequestSucceeds(c, k, store);
    OperationsAreFromTurn(completion, turn);
    ApplyingKeepsCausal(n, c, k, store, Operations(completion, turn));
  }

  /** Whatever the completions are, no guard ever fires while the turns have a UTF-8 form. */
  lemma {:induction false} FeedingNeverRaises(n: Normalizers, c: Case, completions: seq<Completion>)
    requires ValidCase(c) && KeepsAscii(n) && |completions| <= |UserTurns(c.turns)|
    requires forall i :: 0 <= i < |completions| ==>
      Encodable(UserTurns(c.turns)[i].content)
    requires forall i :: 0 <= i < |completions| ==> WellParsed(completions[i])
    ensures Feed(n, c, completions).Some?
    ensures Causal(c, |completions|, Feed(n, c, completions).value)
  {
    if completions == [] {
      assert IsText(EXTRACTOR_VERSION) by {
        assert !IsSpace(EXTRACTOR_VERSION[0]);
      }
    } else {
      var k := |completions| - 1;
      FeedingNeverRaises(n, c, completions[..k]);
      ExtractionKeepsCausal(n, c, k, Feed(n, c, completions[..k]).value, completions[k]);
    }
  }

  ghost predicate AllEncodable(c: Case, k: nat)
    requires k <= |UserTurns(c.turns)|
  {
    forall i :: 0 <= i < k ==> Encodable(UserTurns(c.turns)[i].content)
  }

  lemma BadTurnRaises(n: Normalizers, c: Case, completions: seq<Completion>)
    requires ValidCase(c) && KeepsAscii(n) && 0 < |completions| <= |UserTurns(c.turns)|
    requires forall i :: 0 <= i < |completions| ==> WellParsed(completions[i])
    requires AllEncodable(c, |completions| - 1) && !Encodable(UserTurns(c.turns)[|completions| - 1].content)
    ensures Feed(n, c, completions).None?
  {
    var k := |completions| - 1;
    FeedingNeverRaises(n, c, completions[..k]);
    NextRequestSucceeds(c, k, Feed(n, c, completions[..k]).value);
  }

  lemma RaisedStaysRaised(n: Normalizers, c: Case, completions: seq<Completion>)
    requires completions != [] && |completions| <= |UserTurns(c.turns)|
    requires forall i :: 0 <= i < |completions| ==> WellParsed(completions[i])
    requires Feed(n, c, completions[..|completions| - 1]).None?
    ensures Feed(n, c, completions).None?
  {
  }

  /** Feeding raises exactly when it reaches a turn without a UTF-8 form. */
  lemma {:induction false} FeedingRaisesExactly(n: Normalizers, c: Case, completions: seq<Completion>)
    requires ValidCase(c) && KeepsAscii(n) && |completions| <= |UserTurns(c.turns)|
    requires forall i :: 0 <= i < |completions| ==> WellParsed(completions[i])
    ensures Feed(n, c, completions).Some? <==> AllEncodable(c, |completions|)
  {
    if AllEncodable(c, |completions|) {
      FeedingNeverRaises(n, c, completions);
    } else if AllEncodable(c, |completions| - 1) {
      BadTurnRaises(n, c, completions);
    } else {
      FeedingRaisesExactly(n, c, completions[..|completions| - 1]);
      RaisedStaysRaised(n, c, completions);
    }
  }
}
