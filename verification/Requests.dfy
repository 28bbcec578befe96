/** Exactly when an extraction request is built, and that its payload decodes to the turn and the active slots. */
module Requests {
  import opened Wrappers
  import opened Texts
  import opened Json
  import opened JsonRoundTrip
  import opened Facts
  import opened FactHistory
  import opened Sorting
  import opened Extraction
  import opened CausalRuns

  // ----- The payload -----

  /** What the payload says: the slots with their values, and the turn with its identifier. */
  function PayloadMeaning(turn: Message, slots: seq<(Text, Text)>): Json {
    Obj([(SLOTS, ObjectOf(slots)), (TURN, TurnMeaning(turn.content, turn.id))])
  }

  /** The text is a JSON document without repeated keys that means this. */
  ghost predicate DecodesTo(text: Text, meaning: Json) {
    exists tree :: TreeDecodes(tree, text, meaning)
  }

  function TurnText(content: Text, id: Text): Text {
    Spelled(CONTENT, Quote(content), ID, Quote(id))
  }

  ghost predicate TreeDecodes(tree: Tree, text: Text, meaning: Json) {
    ValidTree(tree) && UniqueKeys(tree) && Spell(tree) == text && Meaning(tree) == meaning
  }

  lemma TwoDecode(first: Text, a: Tree, x: Text, am: Json, second: Text, b: Tree, y: Text, bm: Json)
    requires first != second && TreeDecodes(a, x, am) && TreeDecodes(b, y, bm)
    ensures TreeDecodes(TwoTree(first, a, second, b), Spelled(first, x, second, y), Obj([(first, am), (second, bm)]))
  {
    TwoTreeMeans(first, a, second, b);
    TwoSpelled(first, a, second, b);
  }

  function TurnMeaning(content: Text, id: Text): Json {
    Obj([(CONTENT, Str(content)), (ID, Str(id))])
  }

  lemma TurnDecodes(content: Text, id: Text) returns (tree: Tree)
    ensures TreeDecodes(tree, TurnText(content, id), TurnMeaning(content, id))
  {
    var a, b := StringOf(content), StringOf(id);
    StringDecodes(content);
    StringDecodes(id);
    NamesDiffer();
    TwoDecode(CONTENT, a, Quote(content), Str(content), ID, b, Quote(id), Str(id));
    tree := TwoTree(CONTENT, a, ID, b);
  }

  /** The payload is JSON without repeated keys, and says exactly this. */
  lemma PayloadDecodes(turn: Message, slots: seq<(Text, Text)>)
    requires DistinctKeys(slots)
    ensures DecodesTo(PayloadText(turn, slots), PayloadMeaning(turn, slots))
  {
    var a := PairsTree(slots);
    CompactObjectDecodes(slots);
    var b := TurnDecodes(turn.content, turn.id);
    NamesDiffer();
    TwoDecode(SLOTS, a, CompactObject(slots), ObjectOf(slots),
              TURN, b, TurnText(turn.content, turn.id), TurnMeaning(turn.content, turn.id));
    PayloadIsSpelled(turn, slots);
    assert TreeDecodes(TwoTree(SLOTS, a, TURN, b), PayloadText(turn, slots), PayloadMeaning(turn, slots));
  }

  /** The text that leads up to the value of a member. */
  lemma Lead(mark: string, name: string, lead: string)
    requires |mark| == 1 && lead == mark + ['\"'] + name + ['\"'] + [':']
    requires forall i :: 0 <= i < |lead| ==> lead[i] as int < 0x80
    requires forall i :: 0 <= i < |name| ==> 0x20 <= name[i] as int < 0x80 && name[i] != '\"' && name[i] != '\\'
    ensures Ascii(lead) == [mark[0] as int] + Quote(Ascii(name)) + [COLON]
  {
    var n := Ascii(name);
    PlainIsUnescaped(n);
    Sandwich(mark[0] as int, n);
    Sandwiched(mark, name, lead);
    var r := [mark[0] as int] + Quote(n) + [COLON];
    forall i | 0 <= i < |lead|
      ensures lead[i] as int == r[i]
    {
      assert 2 <= i < |name| + 2 ==> r[i] == n[i - 2] && lead[i] == name[i - 2];
    }
  }

  lemma Sandwich(mark: CodePoint, n: Text)
    requires Escape(n) == n
    ensures var r := [mark] + Quote(n) + [COLON];
            |r| == |n| + 4 && r[0] == mark && r[1] == QUOTE && r[|n| + 2] == QUOTE && r[|n| + 3] == COLON
            && forall i :: 2 <= i < |n| + 2 ==> r[i] == n[i - 2]
  {
  }

  lemma Sandwiched(mark: string, name: string, lead: string)
    requires |mark| == 1 && lead == mark + ['\"'] + name + ['\"'] + [':']
    ensures |lead| == |name| + 4 && lead[0] == mark[0] && lead[1] == '\"'
    ensures lead[|name| + 2] == '\"' && lead[|name| + 3] == ':'
    ensures forall i :: 2 <= i < |name| + 2 ==> lead[i] == name[i - 2]
  {
  }

  const SLOTS: Text := Ascii("active_slots")
  const TURN: Text := Ascii("turn")
  const CONTENT: Text := Ascii("content")
  const ID: Text := Ascii("message_id")

  lemma SlotsLead()
    ensures SLOTS_LEAD == [0x7B] + Quote(SLOTS) + [COLON]
  {
    Lead("{", "active_slots", "{\"active_slots\":");
  }

  lemma IdLead()
    ensures ID_LEAD == [COMMA] + Quote(ID) + [COLON]
  {
    Lead(",", "message_id", ",\"message_id\":");
  }

  lemma TurnNameLead()
    ensures Ascii(",\"turn\":") == [COMMA] + Quote(TURN) + [COLON]
  {
    Lead(",", "turn", ",\"turn\":");
  }

  lemma ContentLead()
    ensures Ascii("{\"content\":") == [0x7B] + Quote(CONTENT) + [COLON]
  {
    Lead("{", "content", "{\"content\":");
  }

  lemma TurnLead()
    ensures TURN_LEAD == ([COMMA] + Quote(TURN) + [COLON]) + ([0x7B] + Quote(CONTENT) + [COLON])
  {
    TurnNameLead();
    ContentLead();
  }

  lemma NamesDiffer()
    ensures SLOTS != TURN && CONTENT != ID
  {
    assert |SLOTS| == 12 && |TURN| == 4 && |CONTENT| == 7 && |ID| == 10;
  }

  lemma Assembled(
      c1: Text, s: Text, c2: Text, content: Text, c3: Text, id: Text, c4: Text, k1: Text, k2: Text, k3: Text, k4: Text)
    requires c1 == [0x7B] + Quote(k1) + [COLON] && c3 == [COMMA] + Quote(k4) + [COLON] && c4 == [0x7D] + [0x7D]
    requires c2 == ([COMMA] + Quote(k2) + [COLON]) + ([0x7B] + Quote(k3) + [COLON])
    ensures c1 + s + c2 + content + c3 + id + c4 == Spelled(k1, s, k2, Spelled(k3, content, k4, id))
  {
    SpelledFlat(k3, content, k4, id);
    SpelledFlat(k1, s, k2, Spelled(k3, content, k4, id));
    Inline(c1 + s, [COMMA] + Quote(k2) + [COLON], [0x7B] + Quote(k3) + [COLON], content, c3, id, [0x7D]);
  }

  lemma PayloadIsSpelled(turn: Message, slots: seq<(Text, Text)>)
    ensures PayloadText(turn, slots) == Spelled(SLOTS, CompactObject(slots), TURN, TurnText(turn.content, turn.id))
  {
    SlotsLead();
    TurnLead();
    IdLead();
    Assembled(SLOTS_LEAD, CompactObject(slots), TURN_LEAD, Quote(turn.content), ID_LEAD, Quote(turn.id), PAYLOAD_END,
              SLOTS, TURN, CONTENT, ID);
  }

  lemma Inline(a: Text, b: Text, c: Text, x: Text, d: Text, y: Text, e: Text)
    ensures a + b + (c + x + d + y + e) + e == a + (b + c) + x + d + y + (e + e)
  {
    var ab := a + b;
    Regroup(ab, c + x + d + y, e);
    Regroup(ab, c + x + d, y);
    Regroup(ab, c + x, d);
    Regroup(ab, c, x);
    Regroup(a, b, c);
    Regroup(ab + c + x + d + y, e, e);
  }

  // ----- The active slots -----

  lemma {:induction false} ActiveFactsAreListed(facts: seq<Fact>, i: nat)
    requires i < |facts| && facts[i].status.Active?
    ensures (facts[i].slotKey, facts[i].value) in ActivePairs(facts)
  {
    if i < |facts| - 1 {
      ActiveFactsAreListed(facts[..|facts| - 1], i);
    }
  }

  lemma {:induction false} SharedSlotIsListedTwice(facts: seq<Fact>, i: nat, j: nat)
    requires i < j < |facts| && facts[i].status.Active? && facts[j].status.Active?
    requires facts[i].slotKey == facts[j].slotKey
    ensures !DistinctKeys(ActivePairs(facts))
  {
    var front, last := facts[..|facts| - 1], facts[|facts| - 1];
    var pairs := ActivePairs(front);
    if j < |front| {
      SharedSlotIsListedTwice(front, i, j);
      if last.status.Active? {
        FrontRepeats(pairs, (last.slotKey, last.value));
      }
    } else {
      ActiveFactsAreListed(front, i);
      LastRepeats(pairs, (front[i].slotKey, front[i].value), (last.slotKey, last.value));
    }
  }

  lemma FrontRepeats(pairs: seq<(Text, Text)>, last: (Text, Text))
    requires !DistinctKeys(pairs)
    ensures !DistinctKeys(pairs + [last])
  {
    var i, j :| 0 <= i < j < |pairs| && pairs[i].0 == pairs[j].0;
    assert (pairs + [last])[i] == pairs[i] && (pairs + [last])[j] == pairs[j];
  }

  lemma LastRepeats(pairs: seq<(Text, Text)>, pair: (Text, Text), last: (Text, Text))
    requires pair in pairs && pair.0 == last.0
    ensures !DistinctKeys(pairs + [last])
  {
    var i :| 0 <= i < |pairs| && pairs[i] == pair;
    assert (pairs + [last])[i] == pair && (pairs + [last])[|pairs|] == last;
  }

  lemma SlotsRepeatExactly(facts: seq<Fact>)
    ensures RepeatsKey(Sort(PairLeq, ActivePairs(facts))) <==> !OneActivePerSlot(facts)
  {
    var pairs := ActivePairs(facts);
    var slots := Sort(PairLeq, pairs);
    SortKeepsElements(PairLeq, pairs);
    if OneActivePerSlot(facts) {
      ActivePairsAreFacts(facts);
      RearrangedKeysDiffer(pairs, slots);
    } else {
      var i, j :| 0 <= i < j < |facts| && facts[i].status.Active? && facts[j].status.Active?
                  && facts[i].slotKey == facts[j].slotKey;
      SharedSlotIsListedTwice(facts, i, j);
      if DistinctKeys(slots) {
        RearrangedKeysDiffer(slots, pairs);
      }
    }
  }

  lemma PairLeqIsTotal()
    ensures TotalPreorder(PairLeq)
  {
    forall a: (Text, Text), b: (Text, Text)
      ensures PairLeq(a, b) || PairLeq(b, a)
    {
      TextLeqTotal(a.0, b.0);
      TextLeqTotal(a.1, b.1);
    }
    forall a: (Text, Text), b: (Text, Text), c: (Text, Text) | PairLeq(a, b) && PairLeq(b, c)
      ensures PairLeq(a, c)
    {
      PairsAreTransitive(a, b, c);
    }
  }

  lemma PairsAreTransitive(a: (Text, Text), b: (Text, Text), c: (Text, Text))
    requires PairLeq(a, b) && PairLeq(b, c)
    ensures PairLeq(a, c)
  {
    TextLeqTotal(a.0, b.0);
    if a.0 == b.0 == c.0 {
      TextLeqTransitive(a.1, b.1, c.1);
    } else if a.0 != b.0 && b.0 != c.0 {
      TextLeqTransitive(a.0, b.0, c.0);
    }
  }

  /** Exactly the active facts, each slot once, by ascending slot key. */
  ghost predicate AreActiveSlots(facts: seq<Fact>, slots: seq<(Text, Text)>) {
    && (forall pair :: pair in slots <==> IsActivePair(facts, pair))
    && (forall i, j :: 0 <= i < j < |slots| ==> slots[i].0 != slots[j].0 && NotAfter(slots[i].0, slots[j].0))
  }

  lemma ActivePairsAreExactly(facts: seq<Fact>, pair: (Text, Text))
    ensures pair in ActivePairs(facts) <==> IsActivePair(facts, pair)
  {
    ActivePairsAreFacts(facts);
    if i :| 0 <= i < |facts| && facts[i].status.Active? && pair == (facts[i].slotKey, facts[i].value) {
      ActiveFactsAreListed(facts, i);
    }
  }

  lemma SortedSlots(facts: seq<Fact>)
    requires OneActivePerSlot(facts)
    ensures AreActiveSlots(facts, Sort(PairLeq, ActivePairs(facts)))
  {
    var pairs := ActivePairs(facts);
    var slots := Sort(PairLeq, pairs);
    PairLeqIsTotal();
    SortSorts(PairLeq, pairs);
    SortKeepsElements(PairLeq, pairs);
    SlotsRepeatExactly(facts);
    forall pair
      ensures pair in slots <==> IsActivePair(facts, pair)
    {
      assert pair in slots <==> pair in multiset(slots);
      assert pair in pairs <==> pair in multiset(pairs);
      ActivePairsAreExactly(facts, pair);
    }
    forall i, j | 0 <= i < j < |slots|
      ensures slots[i].0 != slots[j].0 && NotAfter(slots[i].0, slots[j].0)
    {
      assert PairLeq(slots[i], slots[j]);
      TextLeqIsLexicographic(slots[i].0, slots[j].0);
    }
  }

  // ----- When a request is built -----

  /** The store belongs to the conversation and to this extractor. */
  predicate IsOwnStore(store: FactStore, c: Case) {
    && store.tenant == c.tenant && store.conversation == c.conversation
    && store.extractorVersion == Ascii("orq39-extraction-v2")
  }

  /** The first user turn of the conversation after the last one processed. */
  ghost predicate IsNextTurn(c: Case, lastSequence: int, turn: Message) {
    && turn in c.turns && turn.role == User && lastSequence < turn.sequence
    && forall m :: m in c.turns && m.role == User && lastSequence < m.sequence ==> turn.sequence <= m.sequence
  }

  ghost predicate SaidBefore(c: Case, turn: Message, id: Text) {
    exists m :: m in c.turns && m.role == User && m.sequence < turn.sequence && m.id == id
  }

  /** A fact of the conversation, from before the turn, cited from user turns before it and from nothing else. */
  ghost predicate IsCausalFact(store: FactStore, c: Case, turn: Message, f: Fact) {
    && f.tenant == store.tenant && f.conversation == store.conversation && f.sourceSequence < turn.sequence
    && f.sources != [] && forall id :: id in f.sources ==> SaidBefore(c, turn, id)
  }

  ghost predicate ActiveAreEncodable(facts: seq<Fact>) {
    forall pair :: IsActivePair(facts, pair) ==> Encodable(pair.0) && Encodable(pair.1)
  }

  ghost predicate MayAsk(store: FactStore, c: Case, turn: Message) {
    && IsOwnStore(store, c) && IsNextTurn(c, store.lastSequence, turn)
    && (forall f :: f in store.facts ==> IsCausalFact(store, c, turn, f))
    && OneActivePerSlot(store.facts) && ActiveAreEncodable(store.facts)
    && Encodable(turn.content) && Encodable(turn.id)
  }

  /** The request carries the turn and the active slots, and nothing else. */
  ghost predicate IsRequestFor(r: Request, store: FactStore, c: Case, turn: Message) {
    && r.tenant == c.tenant && r.conversation == c.conversation && r.messageId == turn.id
    && exists slots :: AreActiveSlots(store.facts, slots) && DecodesTo(r.payload, PayloadMeaning(turn, slots))
  }

  lemma NextTurnExactly(c: Case, lastSequence: int, turn: Message)
    ensures IsNextTurn(c, lastSequence, turn) <==>
      turn in c.turns && turn.role.User? && turn.sequence > lastSequence && !SkipsUserTurn(c, lastSequence, turn)
  {
    if turn in c.turns && turn.role.User? && turn.sequence > lastSequence && !SkipsUserTurn(c, lastSequence, turn) {
      forall m | m in c.turns && m.role == User && lastSequence < m.sequence
        ensures turn.sequence <= m.sequence
      {
        var i :| 0 <= i < |c.turns| && c.turns[i] == m;
      }
    }
    if IsNextTurn(c, lastSequence, turn) {
      forall i | 0 <= i < |c.turns| && c.turns[i].role.User? && lastSequence < c.turns[i].sequence
        ensures turn.sequence <= c.turns[i].sequence
      {
        assert c.turns[i] in c.turns;
      }
    }
  }

  lemma PriorMeansSaid(c: Case, turn: Message, id: Text)
    ensures IsPriorUser(c, turn, id) <==> SaidBefore(c, turn, id)
  {
    if i :| 0 <= i < |c.turns| && c.turns[i].role.User? && c.turns[i].sequence < turn.sequence && c.turns[i].id == id {
      assert c.turns[i] in c.turns;
    }
    if m :| m in c.turns && m.role == User && m.sequence < turn.sequence && m.id == id {
      var i :| 0 <= i < |c.turns| && c.turns[i] == m;
    }
  }

  lemma CausalExactly(store: FactStore, c: Case, turn: Message)
    ensures (forall f :: f in store.facts ==> IsCausalFact(store, c, turn, f))
            <==> !HasForeignOrFutureFact(store, turn) && !LacksCausalProvenance(store, c, turn)
  {
    if !HasForeignOrFutureFact(store, turn) && !LacksCausalProvenance(store, c, turn) {
      forall f | f in store.facts
        ensures IsCausalFact(store, c, turn, f)
      {
        var i :| 0 <= i < |store.facts| && store.facts[i] == f;
        forall id | id in f.sources
          ensures SaidBefore(c, turn, id)
        {
          var j :| 0 <= j < |f.sources| && f.sources[j] == id;
          PriorMeansSaid(c, turn, id);
        }
      }
    }
    if forall f :: f in store.facts ==> IsCausalFact(store, c, turn, f) {
      forall i | 0 <= i < |store.facts|
        ensures IsCausalFact(store, c, turn, store.facts[i])
      {
        assert store.facts[i] in store.facts;
      }
      forall i, j | 0 <= i < |store.facts| && 0 <= j < |store.facts[i].sources|
        ensures IsPriorUser(c, turn, store.facts[i].sources[j])
      {
        assert store.facts[i].sources[j] in store.facts[i].sources;
        PriorMeansSaid(c, turn, store.facts[i].sources[j]);
      }
    }
  }

  lemma SlotsAreEncodable(facts: seq<Fact>, slots: seq<(Text, Text)>)
    requires AreActiveSlots(facts, slots)
    ensures EncodablePairs(slots) <==> ActiveAreEncodable(facts)
  {
    if EncodablePairs(slots) {
      forall pair | IsActivePair(facts, pair)
        ensures Encodable(pair.0) && Encodable(pair.1)
      {
        assert pair in slots;
        var i :| 0 <= i < |slots| && slots[i] == pair;
      }
    }
    if ActiveAreEncodable(facts) {
      forall i | 0 <= i < |slots|
        ensures Encodable(slots[i].0) && Encodable(slots[i].1)
      {
        assert slots[i] in slots;
      }
    }
  }

  /** A request is built exactly for the next user turn of the store's own conversation, when every fact rests on
      user turns before it, no slot is active twice and all texts have a UTF-8 form; and then it says exactly the
      turn and the active slots. */
  lemma RequestsAreExact(store: FactStore, c: Case, turn: Message)
    ensures ExtractionRequest(store, c, turn).Success? <==> MayAsk(store, c, turn)
    ensures ExtractionRequest(store, c, turn).Success? ==>
      IsRequestFor(ExtractionRequest(store, c, turn).value, store, c, turn)
  {
    var slots := Sort(PairLeq, ActivePairs(store.facts));
    NextTurnExactly(c, store.lastSequence, turn);
    CausalExactly(store, c, turn);
    SlotsRepeatExactly(store.facts);
    PayloadIsEncodable(turn, slots);
    if OneActivePerSlot(store.facts) {
      SortedSlots(store.facts);
      SlotsAreEncodable(store.facts, slots);
      PayloadDecodes(turn, slots);
    }
  }
}
