/** Exactly which payloads count as operations: those that spell one, field by field, citing the current turn. */
module Acceptance {
  import opened Wrappers
  import opened Texts
  import opened Json
  import opened Facts
  import opened Extraction

  // ----- Snake case is words joined by underscores -----

  predicate IsWordChar(c: CodePoint) {
    0x61 <= c <= 0x7A || 0x30 <= c <= 0x39
  }

  predicate IsWord(w: Text) {
    w != [] && forall i :: 0 <= i < |w| ==> IsWordChar(w[i])
  }

  function Underscored(words: seq<Text>): Text {
    if words == [] then []
    else if |words| == 1 then words[0]
    else Underscored(words[..|words| - 1]) + [0x5F] + words[|words| - 1]
  }

  /** Words of lower-case letters and digits, of which the first begins with a letter. */
  ghost predicate AreSlotWords(words: seq<Text>) {
    && words != [] && (forall i :: 0 <= i < |words| ==> IsWord(words[i]))
    && 0x61 <= words[0][0] <= 0x7A
  }

  ghost predicate IsSlotKey(t: Text) {
    exists words :: AreSlotWords(words) && Underscored(words) == t
  }

  lemma {:induction false} WordsAreSnakeCase(words: seq<Text>)
    requires AreSlotWords(words)
    ensures IsSnakeCase(Underscored(words)) && Underscored(words)[0] == words[0][0]
  {
    if |words| > 1 {
      var front, last := words[..|words| - 1], words[|words| - 1];
      WordsAreSnakeCase(front);
      LongerSnake(Underscored(front), last);
    }
  }

  lemma LongerSnake(t: Text, word: Text)
    requires IsSnakeCase(t) && IsWord(word)
    ensures IsSnakeCase(t + [0x5F] + word)
  {
    var r := t + [0x5F] + word;
    forall i | 0 <= i < |r|
      ensures IsLower(r[i]) || 0x30 <= r[i] <= 0x39 || r[i] == 0x5F
      ensures i > 0 ==> !(r[i - 1] == 0x5F && r[i] == 0x5F)
    {
      if i < |t| {
        assert r[i] == t[i];
        assert i > 0 ==> r[i - 1] == t[i - 1];
      } else if i > |t| {
        assert r[i] == word[i - |t| - 1] && IsWordChar(word[i - |t| - 1]);
      }
    }
    assert r[|r| - 1] == word[|word| - 1] && IsWordChar(word[|word| - 1]);
  }

  /** The stretches between underscores. */
  function WordsOf(t: Text): (words: seq<Text>)
    ensures words != []
  {
    if t == [] then [[]]
    else
      var front, c := WordsOf(t[..|t| - 1]), t[|t| - 1];
      var last := |front| - 1;
      if c == 0x5F then front + [[]] else front[last := front[last] + [c]]
  }

  /** What a beginning of a snake-case text may look like. */
  predicate IsSnakeStart(t: Text) {
    && (t != [] ==> 0x61 <= t[0] <= 0x7A)
    && (forall i :: 0 <= i < |t| ==> IsWordChar(t[i]) || t[i] == 0x5F)
    && (forall i :: 0 < i < |t| ==> !(t[i - 1] == 0x5F && t[i] == 0x5F))
  }

  lemma {:induction false} WordsRejoin(t: Text)
    ensures Underscored(WordsOf(t)) == t
  {
    if t != [] {
      var front, c := WordsOf(t[..|t| - 1]), t[|t| - 1];
      WordsRejoin(t[..|t| - 1]);
      assert t == t[..|t| - 1] + [c];
      LastWordGrows(front, c);
    }
  }

  lemma LastWordGrows(words: seq<Text>, c: CodePoint)
    requires words != []
    ensures Underscored(words + [[]]) == Underscored(words) + [0x5F]
    ensures Underscored(words[|words| - 1 := words[|words| - 1] + [c]]) == Underscored(words) + [c]
  {
    var last := |words| - 1;
    assert (words + [[]])[..|words|] == words;
    assert words[last := words[last] + [c]][..last] == words[..last];
  }

  lemma {:induction false} WordsOfStart(t: Text)
    requires IsSnakeStart(t)
    ensures var words := WordsOf(t); var last := |words| - 1;
            && (forall i :: 0 <= i < last ==> IsWord(words[i]))
            && (forall i :: 0 <= i < |words[last]| ==> IsWordChar(words[last][i]))
            && (words[last] == [] <==> t == [] || t[|t| - 1] == 0x5F)
            && (t != [] ==> words[0] != [] && words[0][0] == t[0])
  {
    if t != [] {
      WordsOfStart(t[..|t| - 1]);
    }
  }

  lemma SnakeCaseIsWords(t: Text)
    ensures IsSnakeCase(t) <==> IsSlotKey(t)
  {
    if IsSnakeCase(t) {
      WordsOfStart(t);
      WordsRejoin(t);
      assert AreSlotWords(WordsOf(t));
    }
    if words :| AreSlotWords(words) && Underscored(words) == t {
      WordsAreSnakeCase(words);
    }
  }

  // ----- An operation written as an object -----

  function KindWord(k: Kind): Text {
    match k
    case FactKind => Ascii("fact")
    case Preference => Ascii("preference")
    case Constraint => Ascii("constraint")
    case Decision => Ascii("decision")
    case Goal => Ascii("goal")
  }

  function Strings(ts: seq<Text>): seq<Json> {
    seq(|ts|, i requires 0 <= i < |ts| => Str(ts[i]))
  }

  function Verb(op: Operation): Json {
    Str(if op.Assert? then Ascii("assert") else Ascii("retract"))
  }

  function Value(op: Operation): Json {
    if op.Assert? then Str(op.value) else Null
  }

  function Fields(op: Operation): (r: seq<(Text, Json)>)
    ensures |r| == 5
  {
    [(Ascii("op"), Verb(op)),
     (Ascii("slot_key"), Str(op.slotKey)),
     (Ascii("value"), Value(op)),
     (Ascii("kind"), Str(KindWord(op.kind))),
     (Ascii("source_message_ids"), Arr(Strings(op.sources)))]
  }

  /** Something visible, and nothing that UTF-8 cannot hold. */
  ghost predicate HasText(t: Text) {
    (exists i :: 0 <= i < |t| && !IsSpace(t[i])) && (forall i :: 0 <= i < |t| ==> !(0xD800 <= t[i] <= 0xDFFF))
  }

  ghost predicate IsAdmissible(op: Operation) {
    && IsSlotKey(op.slotKey) && (op.Assert? ==> HasText(op.value))
    && op.sources != [] && forall i :: 0 <= i < |op.sources| ==> HasText(op.sources[i])
  }

  /** The object has exactly the fields of the operation, in any order, and their contents are admissible. */
  ghost predicate Spells(payload: Json, op: Operation) {
    && payload.Obj? && |payload.members| == 5
    && (forall i :: 0 <= i < 5 ==> Fields(op)[i] in payload.members)
    && IsAdmissible(op)
  }

  // ----- Keys of an object -----

  ghost function Keys(ms: seq<(Text, Json)>): set<Text> {
    set i | 0 <= i < |ms| :: ms[i].0
  }

  lemma {:induction false} KeysCount(ms: seq<(Text, Json)>)
    ensures |Keys(ms)| <= |ms|
    ensures |Keys(ms)| == |ms| <==> DistinctKeys(ms)
  {
    if ms == [] {
      assert Keys(ms) == {};
    } else {
      var front, last := ms[..|ms| - 1], ms[|ms| - 1];
      KeysCount(front);
      assert forall i :: 0 <= i < |front| ==> front[i] == ms[i];
      assert Keys(ms) == Keys(front) + {last.0};
      assert DistinctKeys(ms) <==> DistinctKeys(front) && last.0 !in Keys(front);
    }
  }

  lemma SubsetSize<T>(a: set<T>, b: set<T>)
    requires a <= b
    ensures |a| <= |b|
  {
    assert b == a + (b - a);
  }

  /** Members that hold as many distinct keys as there are members repeat none. */
  lemma NoOtherKeys(ms: seq<(Text, Json)>, fields: seq<(Text, Json)>)
    requires |ms| == |fields| && DistinctKeys(fields)
    requires forall i :: 0 <= i < |fields| ==> fields[i] in ms
    ensures DistinctKeys(ms)
  {
    forall key | key in Keys(fields)
      ensures key in Keys(ms)
    {
      var i :| 0 <= i < |fields| && fields[i].0 == key;
      var field := fields[i];
      assert field in ms;
      var j :| 0 <= j < |ms| && ms[j] == field;
    }
    KeysCount(fields);
    KeysCount(ms);
    SubsetSize(Keys(fields), Keys(ms));
  }

  lemma {:induction false} FieldIsMember(ms: seq<(Text, Json)>, key: Text)
    ensures Field(ms, key).Some? ==> (key, Field(ms, key).value) in ms
  {
    if ms != [] && ms[0].0 != key {
      FieldIsMember(ms[1..], key);
    } else if ms != [] {
      assert ms[0] == (key, ms[0].1);
    }
  }

  lemma {:induction false} MemberIsField(ms: seq<(Text, Json)>, i: nat)
    requires DistinctKeys(ms) && i < |ms|
    ensures Field(ms, ms[i].0) == Some(ms[i].1)
  {
    if i > 0 {
      MemberIsField(ms[1..], i - 1);
    }
  }

  lemma FieldHolds(ms: seq<(Text, Json)>, field: (Text, Json))
    requires DistinctKeys(ms) && field in ms
    ensures Field(ms, field.0) == Some(field.1)
  {
    var i :| 0 <= i < |ms| && ms[i] == field;
    MemberIsField(ms, i);
  }

  // ----- Contents -----

  lemma TextMeans(t: Text)
    ensures IsText(t) <==> HasText(t)
  {
  }

  lemma KindsAreWords(t: Text, k: Kind)
    ensures KindOf(t) == Some(k) <==> t == KindWord(k)
  {
    assert Ascii("fact")[0] == 0x66 && Ascii("goal")[0] == 0x67;
    assert Ascii("preference")[0] == 0x70 && Ascii("constraint")[0] == 0x63;
  }

  lemma {:induction false} SourcesAreStrings(items: seq<Json>, ids: seq<Text>)
    ensures SourceIds(items) == Some(ids) <==>
      items == Strings(ids) && forall i :: 0 <= i < |ids| ==> HasText(ids[i])
  {
    if items == [] {
      assert ids == [] <==> Strings(ids) == [];
    } else if ids != [] {
      SourcesAreStrings(items[1..], ids[1..]);
      TextMeans(ids[0]);
      assert Strings(ids) == [Str(ids[0])] + Strings(ids[1..]);
      assert items == [items[0]] + items[1..] && ids == [ids[0]] + ids[1..];
      assert (forall i :: 0 <= i < |ids| ==> HasText(ids[i]))
          <==> HasText(ids[0]) && forall i :: 0 <= i < |ids[1..]| ==> HasText(ids[1..][i]);
    }
  }

  lemma WordsDiffer()
    ensures Ascii("assert") != Ascii("retract")
  {
    assert |Ascii("assert")| != |Ascii("retract")|;
  }

  lemma AdmissibleIsAccepted(op: Operation)
    requires IsAdmissible(op)
    ensures NewOperation(Verb(op), Str(op.slotKey), Value(op), Str(KindWord(op.kind)), Arr(Strings(op.sources)))
            == Some(op)
  {
    WordsDiffer();
    SnakeCaseIsWords(op.slotKey);
    SourcesAreStrings(Strings(op.sources), op.sources);
    KindsAreWords(KindWord(op.kind), op.kind);
    if op.Assert? {
      TextMeans(op.value);
    }
  }

  lemma AcceptedIsAdmissible(verb: Json, slot: Json, value: Json, kind: Json, sources: Json, op: Operation)
    requires NewOperation(verb, slot, value, kind, sources) == Some(op)
    ensures IsAdmissible(op)
    ensures verb == Verb(op) && slot == Str(op.slotKey) && value == Value(op)
    ensures kind == Str(KindWord(op.kind)) && sources == Arr(Strings(op.sources))
  {
    WordsDiffer();
    SnakeCaseIsWords(op.slotKey);
    SourcesAreStrings(sources.items, op.sources);
    KindsAreWords(kind.text, op.kind);
    if op.Assert? {
      TextMeans(op.value);
    }
  }

  lemma FieldsAreDistinct(op: Operation)
    ensures DistinctKeys(Fields(op))
  {
    forall i, j | 0 <= i < j < 5
      ensures |Fields(op)[i].0| != |Fields(op)[j].0|
    {
    }
  }

  lemma FieldsAreRead(payload: Json, op: Operation)
    requires Spells(payload, op)
    ensures FromPayload(payload) == Some(op)
  {
    var ms, fields := payload.members, Fields(op);
    FieldsAreDistinct(op);
    NoOtherKeys(ms, fields);
    FieldHolds(ms, fields[0]);
    FieldHolds(ms, fields[1]);
    FieldHolds(ms, fields[2]);
    FieldHolds(ms, fields[3]);
    FieldHolds(ms, fields[4]);
    AdmissibleIsAccepted(op);
  }

  lemma ReadFieldsAreThere(payload: Json, op: Operation)
    requires FromPayload(payload) == Some(op)
    ensures Spells(payload, op)
  {
    var ms := payload.members;
    FieldIsMember(ms, Ascii("op"));
    FieldIsMember(ms, Ascii("slot_key"));
    FieldIsMember(ms, Ascii("value"));
    FieldIsMember(ms, Ascii("kind"));
    FieldIsMember(ms, Ascii("source_message_ids"));
    AcceptedIsAdmissible(
      Field(ms, Ascii("op")).value, Field(ms, Ascii("slot_key")).value, Field(ms, Ascii("value")).value,
      Field(ms, Ascii("kind")).value, Field(ms, Ascii("source_message_ids")).value, op);

  }

  /** A payload is accepted as an operation exactly when it spells that operation and the operation cites the
      current turn, once and alone. */
  lemma AcceptedExactly(payload: Json, messageId: Text, op: Operation)
    ensures AcceptPayload(payload, messageId) == Some(op) <==> Spells(payload, op) && op.sources == [messageId]
  {
    if Spells(payload, op) {
      FieldsAreRead(payload, op);
    }
    if AcceptPayload(payload, messageId) == Some(op) {
      ReadFieldsAreThere(payload, op);
    }
  }

  // ----- A whole response -----

  ghost predicate IsOperation(payload: Json, messageId: Text) {
    exists op :: Spells(payload, op) && op.sources == [messageId]
  }

  predicate Increasing(s: seq<nat>) {
    forall i, j :: 0 <= i < j < |s| ==> s[i] < s[j]
  }

  /** `good` are the places of the operations among the payloads, and `bad` the others. */
  ghost predicate Divides(payloads: seq<Json>, messageId: Text, good: seq<nat>, bad: seq<nat>) {
    && Increasing(good) && Increasing(bad)
    && (forall i :: i in good <==> 0 <= i < |payloads| && IsOperation(payloads[i], messageId))
    && (forall i :: i in bad <==> 0 <= i < |payloads| && !IsOperation(payloads[i], messageId))
  }

  lemma AcceptedMeansOperation(payload: Json, messageId: Text)
    ensures AcceptPayload(payload, messageId).Some? <==> IsOperation(payload, messageId)
  {
    var accepted := AcceptPayload(payload, messageId);
    if accepted.Some? {
      AcceptedExactly(payload, messageId, accepted.value);
    }
    if op :| Spells(payload, op) && op.sources == [messageId] {
      AcceptedExactly(payload, messageId, op);
    }
  }

  lemma Longer(s: seq<nat>, n: nat)
    requires Increasing(s) && forall i :: i in s ==> i < n
    ensures Increasing(s + [n]) && forall i :: i in s + [n] <==> i in s || i == n
  {
    assert forall i :: 0 <= i < |s| ==> s[i] in s;
  }

  lemma DivisionGrows(payloads: seq<Json>, messageId: Text, good: seq<nat>, bad: seq<nat>)
    requires payloads != [] && Divides(payloads[..|payloads| - 1], messageId, good, bad)
    ensures var n := |payloads| - 1;
            if IsOperation(payloads[n], messageId) then Divides(payloads, messageId, good + [n], bad)
            else Divides(payloads, messageId, good, bad + [n])
  {
    var n := |payloads| - 1;
    Longer(good, n);
    Longer(bad, n);
    assert forall i :: 0 <= i < n ==> payloads[..n][i] == payloads[i];
  }

  /** The operations of a response are the payloads that spell one, in order; each other one is a rejection. */
  lemma {:induction false} ResponseIsSorted(payloads: seq<Json>, turn: Message) returns (good: seq<nat>, bad: seq<nat>)
    ensures Divides(payloads, turn.id, good, bad)
    ensures var ops := AcceptedOps(payloads, turn.id);
            |ops| == |good| && forall k :: 0 <= k < |ops| ==>
              good[k] < |payloads| && Spells(payloads[good[k]], ops[k]) && ops[k].sources == [turn.id]
    ensures var audit := Rejections(payloads, turn.id, turn.sequence);
            |audit| == |bad| && forall k :: 0 <= k < |audit| ==> audit[k] == ValidationRejection(turn.sequence, bad[k])
  {
    if payloads == [] {
      good, bad := [], [];
    } else {
      var n := |payloads| - 1;
      good, bad := ResponseIsSorted(payloads[..n], turn);
      assert forall k :: 0 <= k < |good| ==> good[k] in good;
      DivisionGrows(payloads, turn.id, good, bad);
      AcceptedMeansOperation(payloads[n], turn.id);
      var accepted := AcceptPayload(payloads[n], turn.id);
      if accepted.Some? {
        AcceptedExactly(payloads[n], turn.id, accepted.value);
        good := good + [n];
      } else {
        bad := bad + [n];
      }
    }
  }
}
