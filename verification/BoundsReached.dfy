/** The bounds on a response are exact: responses that reach them exist. */
module BoundsReached {
  import opened Wrappers
  import opened Texts
  import opened Json
  import opened JsonSize
  import opened JsonRoundTrip
  import opened Facts
  import opened Extraction
  import opened Acceptance
  import opened ResponseSize
  import opened T6Bounds

  // ----- Plain texts take two bytes more when quoted -----

  predicate IsPlainAscii(t: Text) {
    IsPlain(t) && IsAscii(t)
  }

  lemma PlainQuotedLen(t: Text)
    requires IsPlainAscii(t)
    ensures QuotedLen(t) == |t| + 2 && Utf8Len(t) == |t|
  {
    PlainIsUnescaped(t);
    Bracketed(QUOTE, t, QUOTE);
    Utf8LenBounds(t);
  }

  // ----- The compact object of an operation -----

  function ProvenanceTree(id: Text): Tree {
    ArrayTree([], [Element([], StringOf(id), [])])
  }

  function ValueTree(op: Operation): Tree {
    if op.Assert? then StringOf(op.value) else NullTree
  }

  function VerbText(op: Operation): Text {
    if op.Assert? then Ascii("assert") else Ascii("retract")
  }

  /** The values of the five members, in the order of the fields. */
  function FieldTree(op: Operation, id: Text, i: nat): Tree {
    if i == 0 then StringOf(VerbText(op))
    else if i == 1 then StringOf(op.slotKey)
    else if i == 2 then ValueTree(op)
    else if i == 3 then StringOf(KindWord(op.kind))
    else ProvenanceTree(id)
  }

  function OperationMembers(op: Operation, id: Text): (ms: seq<Member>)
    ensures |ms| == 5
    ensures forall i :: 0 <= i < 5 ==> ms[i] == MemberOf(Fields(op)[i].0, FieldTree(op, id, i))
  {
    seq(5, i requires 0 <= i < 5 => MemberOf(Fields(op)[i].0, FieldTree(op, id, i)))
  }

  function OperationTree(op: Operation, id: Text): Tree {
    ObjectTree([], OperationMembers(op, id))
  }

  lemma ProvenanceDecodes(id: Text)
    ensures var t := ProvenanceTree(id);
            && ValidTree(t) && UniqueKeys(t) && Meaning(t) == Arr(Strings([id]))
            && Utf8Len(Spell(t)) == QuotedLen(id) + 2
  {
    StringDecodes(id);
    var t := ProvenanceTree(id);
    assert Meaning(t).items == [Str(id)] == Strings([id]);
    assert [] + Quote(id) + [] == Quote(id);
    assert SpellElements(t.elements) == Quote(id);
    Bracketed(0x5B, Quote(id), 0x5D);
  }

  lemma ValueDecodes(op: Operation)
    ensures var t := ValueTree(op);
            && ValidTree(t) && UniqueKeys(t) && Meaning(t) == Value(op)
            && Utf8Len(Spell(t)) == if op.Assert? then QuotedLen(op.value) else 4
  {
    if op.Assert? {
      StringDecodes(op.value);
    } else {
      Utf8LenBounds(Spell(NullTree));
    }
  }

  lemma MemberDecodes(key: Text, value: Tree)
    requires ValidTree(value)
    ensures var m := MemberOf(key, value);
            ValidPieces(m.key) && PiecesMeaning(m.key) == key
            && Utf8Len(SpellMember(m)) == QuotedLen(key) + 1 + Utf8Len(Spell(value))
  {
    QuoteDecodes(key);
    MemberIsSpelled(key, value);
    Utf8LenConcat(Quote(key) + [COLON], Spell(value));
    Utf8LenConcat(Quote(key), [COLON]);
  }

  lemma FieldDecodes(op: Operation, id: Text, i: nat)
    requires op.sources == [id] && i < 5
    ensures var t := FieldTree(op, id, i); ValidTree(t) && UniqueKeys(t) && Meaning(t) == Fields(op)[i].1
  {
    if i == 0 {
      StringDecodes(VerbText(op));
    } else if i == 1 {
      StringDecodes(op.slotKey);
    } else if i == 2 {
      ValueDecodes(op);
    } else if i == 3 {
      StringDecodes(KindWord(op.kind));
    } else {
      ProvenanceDecodes(id);
    }
  }

  lemma OperationDecodes(op: Operation, id: Text)
    requires op.sources == [id]
    ensures var t := OperationTree(op, id);
            ValidTree(t) && UniqueKeys(t) && Meaning(t) == Obj(Fields(op))
  {
    var ms := OperationMembers(op, id);
    FieldsAreDistinct(op);
    forall i | 0 <= i < 5
      ensures ValidTree(ms[i].value) && UniqueKeys(ms[i].value) && Meaning(ms[i].value) == Fields(op)[i].1
      ensures ValidPieces(ms[i].key) && PiecesMeaning(ms[i].key) == Fields(op)[i].0
    {
      FieldDecodes(op, id, i);
      MemberDecodes(Fields(op)[i].0, ms[i].value);
    }
    var t := OperationTree(op, id);
    assert Meaning(t).members == Fields(op);
  }

  lemma OperationIsAccepted(op: Operation, id: Text)
    requires IsAdmissible(op) && op.sources == [id]
    ensures AcceptPayload(Obj(Fields(op)), id) == Some(op)
  {
    forall i | 0 <= i < 5
      ensures Fields(op)[i] in Fields(op)
    {
    }
    AcceptedExactly(Obj(Fields(op)), id, op);
  }

  // ----- Its bytes -----

  /** The bytes of members, each with its comma. */
  function SpelledLen(ms: seq<Member>): nat {
    if ms == [] then 0 else Utf8Len(SpellMember(ms[0])) + 1 + SpelledLen(ms[1..])
  }

  lemma {:induction false} MembersAreSpelled(ms: seq<Member>)
    requires ms != []
    ensures Utf8Len(SpellMembers(ms)) + 1 == SpelledLen(ms)
  {
    if |ms| > 1 {
      MembersAreSpelled(ms[1..]);
      Utf8LenConcat(SpellMember(ms[0]) + [COMMA], SpellMembers(ms[1..]));
      Utf8LenConcat(SpellMember(ms[0]), [COMMA]);
    } else {
      assert ms[1..] == [];
    }
  }

  lemma ObjectIsSpelled(ms: seq<Member>)
    requires ms != []
    ensures Utf8Len(Spell(ObjectTree([], ms))) == SpelledLen(ms) + 1
  {
    MembersAreSpelled(ms);
    Bracketed(0x7B, SpellMembers(ms), 0x7D);
  }

  lemma FiveAreSpelled(ms: seq<Member>, a: nat, b: nat, c: nat, d: nat, e: nat)
    requires |ms| == 5 && Utf8Len(SpellMember(ms[0])) == a && Utf8Len(SpellMember(ms[1])) == b
    requires Utf8Len(SpellMember(ms[2])) == c && Utf8Len(SpellMember(ms[3])) == d && Utf8Len(SpellMember(ms[4])) == e
    ensures SpelledLen(ms) == a + b + c + d + e + 5
  {
    assert ms[1..][1..] == ms[2..] && ms[2..][1..] == ms[3..] && ms[3..][1..] == ms[4..] && ms[4..][1..] == [];
    assert SpelledLen(ms) == a + 1 + SpelledLen(ms[1..]);
    assert SpelledLen(ms[1..]) == b + 1 + SpelledLen(ms[2..]);
    assert SpelledLen(ms[2..]) == c + 1 + SpelledLen(ms[3..]);
    assert SpelledLen(ms[3..]) == d + 1 + SpelledLen(ms[4..]);
  }

  lemma MemberLenIs(key: Text, value: Tree, size: nat)
    requires ValidTree(value) && IsPlainAscii(key) && Utf8Len(Spell(value)) == size
    ensures Utf8Len(SpellMember(MemberOf(key, value))) == |key| + 3 + size
  {
    MemberDecodes(key, value);
    PlainQuotedLen(key);
  }

  lemma WordLen(t: Text)
    requires IsPlainAscii(t)
    ensures ValidTree(StringOf(t)) && Utf8Len(Spell(StringOf(t))) == |t| + 2
  {
    StringDecodes(t);
    PlainQuotedLen(t);
  }

  lemma KeysArePlain(op: Operation, i: nat)
    requires i < 5
    ensures IsPlainAscii(Fields(op)[i].0)
    ensures |Fields(op)[i].0|
            == if i == 0 then 2 else if i == 1 then 8 else if i == 2 then 5 else if i == 3 then 4 else 18
  {
  }

  /** The bytes of a value; kinds of four letters, and an identifier without escapes. */
  function FieldLen(op: Operation, id: Text, i: nat): nat {
    if i == 0 then |VerbText(op)| + 2
    else if i == 1 then QuotedLen(op.slotKey)
    else if i == 2 then (if op.Assert? then QuotedLen(op.value) else 4)
    else if i == 3 then 6
    else |id| + 4
  }

  lemma FieldIsSpelled(op: Operation, id: Text, i: nat)
    requires (op.kind == FactKind || op.kind == Goal) && IsPlainAscii(id) && op.sources == [id] && i < 5
    ensures Utf8Len(Spell(FieldTree(op, id, i))) == FieldLen(op, id, i)
  {
    if i == 0 {
      WordLen(VerbText(op));
    } else if i == 1 {
      StringDecodes(op.slotKey);
    } else if i == 2 {
      ValueDecodes(op);
    } else if i == 3 {
      WordLen(KindWord(op.kind));
    } else {
      ProvenanceDecodes(id);
      PlainQuotedLen(id);
    }
  }

  lemma MemberOfOperationLen(op: Operation, id: Text, i: nat)
    requires (op.kind == FactKind || op.kind == Goal) && IsPlainAscii(id) && op.sources == [id] && i < 5
    ensures Utf8Len(SpellMember(OperationMembers(op, id)[i])) == |Fields(op)[i].0| + 3 + FieldLen(op, id, i)
  {
    FieldDecodes(op, id, i);
    FieldIsSpelled(op, id, i);
    KeysArePlain(op, i);
    MemberLenIs(Fields(op)[i].0, FieldTree(op, id, i), FieldLen(op, id, i));
  }

  lemma FieldsAddUp(op: Operation, id: Text)
    ensures (5 + FieldLen(op, id, 0)) + (11 + FieldLen(op, id, 1)) + (8 + FieldLen(op, id, 2))
            + (7 + FieldLen(op, id, 3)) + (21 + FieldLen(op, id, 4)) + 7 == OperationFloor(op, |id|)
  {
  }

  /** With a kind of four letters and an identifier without escapes, the object and a comma take the floor exactly. */
  lemma OperationTreeLen(op: Operation, id: Text)
    requires (op.kind == FactKind || op.kind == Goal) && IsPlainAscii(id) && op.sources == [id]
    ensures Utf8Len(Spell(OperationTree(op, id))) + 1 == OperationFloor(op, |id|)
  {
    var ms := OperationMembers(op, id);
    forall i | 0 <= i < 5
      ensures Utf8Len(SpellMember(ms[i])) == |Fields(op)[i].0| + 3 + FieldLen(op, id, i)
    {
      MemberOfOperationLen(op, id, i);
    }
    KeysArePlain(op, 0);
    KeysArePlain(op, 1);
    KeysArePlain(op, 2);
    KeysArePlain(op, 3);
    KeysArePlain(op, 4);
    FiveAreSpelled(ms, 5 + FieldLen(op, id, 0), 11 + FieldLen(op, id, 1), 8 + FieldLen(op, id, 2),
                   7 + FieldLen(op, id, 3), 21 + FieldLen(op, id, 4));
    ObjectIsSpelled(ms);
    FieldsAddUp(op, id);
  }

  // ----- A whole response -----

  function OperationElements(ops: seq<Operation>, id: Text): (es: seq<Element>)
    ensures |es| == |ops|
    ensures forall i :: 0 <= i < |ops| ==> es[i] == Element([], OperationTree(ops[i], id), [])
  {
    seq(|ops|, i requires 0 <= i < |ops| => Element([], OperationTree(ops[i], id), []))
  }

  function ListTree(ops: seq<Operation>, id: Text): Tree {
    ArrayTree([], OperationElements(ops, id))
  }

  const FACTS: Text := Ascii("facts")

  function RootTree(list: Tree): Tree {
    ObjectTree([], [MemberOf(FACTS, list)])
  }

  function ResponseOf(ops: seq<Operation>, id: Text): Completion {
    var d := Document([], RootTree(ListTree(ops, id)), []);
    Completion(SpellDocument(d), Some(d))
  }

  /** Operations that cite the one identifier, with kinds of four letters. */
  ghost predicate AreShort(ops: seq<Operation>, id: Text) {
    && IsPlainAscii(id)
    && forall i :: 0 <= i < |ops| ==>
         IsAdmissible(ops[i]) && ops[i].sources == [id] && (ops[i].kind == FactKind || ops[i].kind == Goal)
  }

  function Objects(ops: seq<Operation>): (r: seq<Json>)
    ensures |r| == |ops| && forall i :: 0 <= i < |ops| ==> r[i] == Obj(Fields(ops[i]))
  {
    seq(|ops|, i requires 0 <= i < |ops| => Obj(Fields(ops[i])))
  }

  lemma ListDecodes(ops: seq<Operation>, id: Text)
    requires AreShort(ops, id)
    ensures var t := ListTree(ops, id); ValidTree(t) && UniqueKeys(t) && Meaning(t) == Arr(Objects(ops))
  {
    forall i | 0 <= i < |ops|
      ensures var t := OperationTree(ops[i], id);
              ValidTree(t) && UniqueKeys(t) && Meaning(t) == Obj(Fields(ops[i]))
    {
      OperationDecodes(ops[i], id);
    }
    assert Meaning(ListTree(ops, id)).items == Objects(ops);
  }

  lemma RootDecodes(list: Tree)
    requires ValidTree(list) && UniqueKeys(list)
    ensures var t := RootTree(list);
            ValidTree(t) && UniqueKeys(t) && Meaning(t) == Obj([(FACTS, Meaning(list))])
  {
    MemberDecodes(FACTS, list);
    assert Meaning(RootTree(list)).members == [(FACTS, Meaning(list))];
  }

  lemma DocumentIsRead(c: Completion, d: Document, items: seq<Json>)
    requires c.document == Some(d) && c.text == SpellDocument(d) && ValidDocument(d)
    requires Meaning(d.root) == Obj([(FACTS, Arr(items))])
    ensures WellParsed(c) && FactsArray(c) == Some(items)
  {
  }

  lemma ResponseDecodes(ops: seq<Operation>, id: Text)
    requires AreShort(ops, id)
    ensures WellParsed(ResponseOf(ops, id)) && FactsArray(ResponseOf(ops, id)) == Some(Objects(ops))
  {
    ListDecodes(ops, id);
    RootDecodes(ListTree(ops, id));
    DocumentIsRead(ResponseOf(ops, id), Document([], RootTree(ListTree(ops, id)), []), Objects(ops));
  }

  /** Each payload is accepted as the operation at its place. */
  ghost predicate AreAcceptedAs(payloads: seq<Json>, ops: seq<Operation>, id: Text) {
    |payloads| == |ops|
    && (ops == []
        || (var n := |ops| - 1;
            AreAcceptedAs(payloads[..n], ops[..n], id) && AcceptPayload(payloads[n], id) == Some(ops[n])))
  }

  lemma AcceptedAppend(payloads: seq<Json>, id: Text, op: Operation)
    requires payloads != [] && AcceptPayload(payloads[|payloads| - 1], id) == Some(op)
    ensures AcceptedOps(payloads, id) == AcceptedOps(payloads[..|payloads| - 1], id) + [op]
  {
  }

  lemma {:induction false} AllAreAccepted(payloads: seq<Json>, ops: seq<Operation>, id: Text)
    requires AreAcceptedAs(payloads, ops, id)
    ensures AcceptedOps(payloads, id) == ops
  {
    if ops != [] {
      var front, last := ops[..|ops| - 1], ops[|ops| - 1];
      AllAreAccepted(payloads[..|ops| - 1], front, id);
      AcceptedAppend(payloads, id, last);
      assert ops == front + [last];
    }
  }

  lemma {:induction false} ObjectsAreAccepted(ops: seq<Operation>, id: Text)
    requires AreShort(ops, id)
    ensures AreAcceptedAs(Objects(ops), ops, id)
  {
    if ops != [] {
      var n := |ops| - 1;
      ObjectsAreAccepted(ops[..n], id);
      assert Objects(ops)[..n] == Objects(ops[..n]);
      OperationIsAccepted(ops[n], id);
    }
  }

  lemma {:induction false} ElementsAreSpelled(es: seq<Element>)
    requires es != [] && forall i :: 0 <= i < |es| ==> es[i].before == [] && es[i].after == []
    ensures Utf8Len(SpellElements(es)) + 1 == ElementsLen(es)
  {
    assert [] + Spell(es[0].value) + [] == Spell(es[0].value);
    if |es| > 1 {
      ElementsAreSpelled(es[1..]);
      Utf8LenConcat(SpellElement(es[0]) + [COMMA], SpellElements(es[1..]));
      Utf8LenConcat(SpellElement(es[0]), [COMMA]);
    } else {
      assert es[1..] == [];
    }
  }

  /** Each element takes the floor of the operation at its place, its comma included. */
  ghost predicate AreFloors(es: seq<Element>, ops: seq<Operation>, p: nat) {
    |es| == |ops|
    && (ops == []
        || (var n := |ops| - 1;
            AreFloors(es[..n], ops[..n], p) && Utf8Len(Spell(es[n].value)) + 1 == OperationFloor(ops[n], p)))
  }

  lemma {:induction false} FloorsAddUpExactly(es: seq<Element>, ops: seq<Operation>, p: nat)
    requires AreFloors(es, ops, p)
    ensures ElementsLen(es) == OperationsFloor(ops, p)
  {
    if ops != [] {
      var n := |ops| - 1;
      FloorsAddUpExactly(es[..n], ops[..n], p);
      ElementsLenSplit(es);
    }
  }

  lemma {:induction false} ElementsTakeTheFloors(ops: seq<Operation>, id: Text)
    requires AreShort(ops, id)
    ensures AreFloors(OperationElements(ops, id), ops, |id|)
  {
    if ops != [] {
      var n := |ops| - 1;
      ElementsTakeTheFloors(ops[..n], id);
      assert OperationElements(ops, id)[..n] == OperationElements(ops[..n], id);
      OperationTreeLen(ops[n], id);
    }
  }

  lemma ArrayIsSpelled(es: seq<Element>)
    requires es != [] && forall i :: 0 <= i < |es| ==> es[i].before == [] && es[i].after == []
    ensures Utf8Len(Spell(ArrayTree([], es))) == 1 + ElementsLen(es)
  {
    ElementsAreSpelled(es);
    Bracketed(0x5B, SpellElements(es), 0x5D);
  }

  lemma ListLen(ops: seq<Operation>, id: Text)
    requires AreShort(ops, id) && ops != []
    ensures Utf8Len(Spell(ListTree(ops, id))) == 1 + OperationsFloor(ops, |id|)
  {
    ElementsTakeTheFloors(ops, id);
    FloorsAddUpExactly(OperationElements(ops, id), ops, |id|);
    ArrayIsSpelled(OperationElements(ops, id));
  }

  lemma RootLen(list: Tree)
    requires ValidTree(list)
    ensures Utf8Len(Spell(RootTree(list))) == 10 + Utf8Len(Spell(list))
  {
    var ms := [MemberOf(FACTS, list)];
    assert IsPlainAscii(FACTS) && |FACTS| == 5;
    MemberLenIs(FACTS, list, Utf8Len(Spell(list)));
    assert ms[1..] == [];
    assert SpelledLen(ms) == Utf8Len(SpellMember(ms[0])) + 1;
    ObjectIsSpelled(ms);
  }

  lemma ResponseLen(ops: seq<Operation>, id: Text)
    requires AreShort(ops, id) && ops != []
    ensures Utf8Len(ResponseOf(ops, id).text) == 11 + OperationsFloor(ops, |id|)
  {
    ListLen(ops, id);
    ListDecodes(ops, id);
    RootLen(ListTree(ops, id));
    var root := Spell(RootTree(ListTree(ops, id)));
    assert [] + root + [] == root;
  }

  /** Any such operations have a response of exactly eleven bytes and their floors. */
  lemma FloorsAreReached(ops: seq<Operation>, turn: Message)
    requires AreShort(ops, turn.id) && ops != []
    ensures var c := ResponseOf(ops, turn.id);
            WellParsed(c) && Operations(c, turn) == ops
            && Utf8Len(c.text) == 11 + OperationsFloor(ops, Utf8Len(turn.id))
  {
    ResponseDecodes(ops, turn.id);
    ObjectsAreAccepted(ops, turn.id);
    AllAreAccepted(Objects(ops), ops, turn.id);
    ResponseLen(ops, turn.id);
    Utf8LenBounds(turn.id);
  }

  // ----- It is ASCII -----

  /** Contents that are written as they are. */
  ghost predicate AllAscii(ops: seq<Operation>) {
    forall i :: 0 <= i < |ops| ==> IsPlainAscii(ops[i].slotKey) && (ops[i].Assert? ==> IsPlainAscii(ops[i].value))
  }

  lemma PlainStringIsAscii(t: Text)
    requires IsPlainAscii(t)
    ensures IsAscii(Quote(t)) && IsAscii(Spell(StringOf(t)))
  {
    PlainIsUnescaped(t);
    StringDecodes(t);
  }

  lemma MemberIsAscii(key: Text, value: Tree)
    requires IsPlainAscii(key) && IsAscii(Spell(value))
    ensures IsAscii(SpellMember(MemberOf(key, value)))
  {
    PlainStringIsAscii(key);
    MemberIsSpelled(key, value);
  }

  lemma {:induction false} MembersAreAscii(ms: seq<Member>)
    requires forall i :: 0 <= i < |ms| ==> IsAscii(SpellMember(ms[i]))
    ensures IsAscii(SpellMembers(ms))
  {
    if |ms| > 1 {
      MembersAreAscii(ms[1..]);
    }
  }

  lemma {:induction false} ElementsAreAscii(es: seq<Element>)
    requires forall i :: 0 <= i < |es| ==> IsAscii(SpellElement(es[i]))
    ensures IsAscii(SpellElements(es))
  {
    if |es| > 1 {
      ElementsAreAscii(es[1..]);
    }
  }

  lemma ProvenanceIsAscii(id: Text)
    requires IsPlainAscii(id)
    ensures IsAscii(Spell(ProvenanceTree(id)))
  {
    PlainStringIsAscii(id);
    ElementsAreAscii(ProvenanceTree(id).elements);
  }

  lemma VerbIsPlain(op: Operation)
    ensures IsPlainAscii(VerbText(op))
  {
  }

  lemma KindIsPlain(k: Kind)
    requires k == FactKind || k == Goal
    ensures IsPlainAscii(KindWord(k))
  {
  }

  lemma FieldIsAscii(op: Operation, id: Text, i: nat)
    requires i < 5 && IsPlainAscii(id) && AllAscii([op]) && (op.kind == FactKind || op.kind == Goal)
    ensures IsAscii(Spell(FieldTree(op, id, i)))
  {
    assert [op][0] == op;
    if i == 0 {
      VerbIsPlain(op);
      PlainStringIsAscii(VerbText(op));
    } else if i == 1 {
      PlainStringIsAscii(op.slotKey);
    } else if i == 2 && op.Assert? {
      PlainStringIsAscii(op.value);
    } else if i == 3 {
      KindIsPlain(op.kind);
      PlainStringIsAscii(KindWord(op.kind));
    } else if i == 4 {
      ProvenanceIsAscii(id);
    }
  }

  lemma OperationMemberIsAscii(op: Operation, id: Text, i: nat)
    requires i < 5 && IsPlainAscii(id) && AllAscii([op]) && (op.kind == FactKind || op.kind == Goal)
    ensures IsAscii(SpellMember(OperationMembers(op, id)[i]))
  {
    FieldIsAscii(op, id, i);
    KeysArePlain(op, i);
    MemberIsAscii(Fields(op)[i].0, FieldTree(op, id, i));
  }

  lemma OperationIsAscii(op: Operation, id: Text)
    requires IsPlainAscii(id) && AllAscii([op]) && (op.kind == FactKind || op.kind == Goal)
    ensures IsAscii(Spell(OperationTree(op, id)))
  {
    var ms := OperationMembers(op, id);
    forall i | 0 <= i < 5
      ensures IsAscii(SpellMember(ms[i]))
    {
      OperationMemberIsAscii(op, id, i);
    }
    MembersAreAscii(ms);
  }

  lemma ListIsAscii(ops: seq<Operation>, id: Text)
    requires AreShort(ops, id) && AllAscii(ops) && ops != []
    ensures IsAscii(Spell(ListTree(ops, id)))
  {
    var es := OperationElements(ops, id);
    forall i | 0 <= i < |ops|
      ensures IsAscii(SpellElement(es[i]))
    {
      OperationIsAscii(ops[i], id);
    }
    ElementsAreAscii(es);
  }

  lemma ResponseIsAscii(ops: seq<Operation>, id: Text)
    requires AreShort(ops, id) && AllAscii(ops) && ops != []
    ensures IsAscii(ResponseOf(ops, id).text)
  {
    ListIsAscii(ops, id);
    assert IsPlainAscii(FACTS);
    MemberIsAscii(FACTS, ListTree(ops, id));
    MembersAreAscii([MemberOf(FACTS, ListTree(ops, id))]);
  }

  // ----- The three bounds -----

  function Copies<T>(x: T, n: nat): (r: seq<T>)
    ensures |r| == n && forall i :: 0 <= i < n ==> r[i] == x
  {
    seq(n, i => x)
  }

  function Letters(n: nat): (t: Text)
    ensures |t| == n && forall i :: 0 <= i < n ==> t[i] == 0x61
  {
    seq(n, i => 0x61)
  }

  const LETTER: Text := [0x61]

  lemma LettersArePlain(n: nat)
    requires n > 0
    ensures var t := Letters(n);
            IsPlainAscii(t) && HasText(t) && IsSlotKey(t) && QuotedLen(t) == n + 2 && Utf8Len(t) == n
  {
    var t := Letters(n);
    PlainQuotedLen(t);
    assert !IsSpace(t[0]);
    assert AreSlotWords([t]) && Underscored([t]) == t;
  }

  function Said(slot: Text, value: Text, id: Text): Operation {
    Assert(slot, value, FactKind, [id])
  }

  lemma SaidIsShort(slot: nat, value: nat, id: Text)
    requires slot > 0 && value > 0 && IsPlainAscii(id) && HasText(id)
    ensures var op := Said(Letters(slot), Letters(value), id);
            AreShort([op], id) && OperationFloor(op, |id|) == 81 + |id| + slot + value
  {
    LettersArePlain(slot);
    LettersArePlain(value);
  }

  lemma {:induction false} CopiesTake(op: Operation, p: nat, n: nat)
    ensures OperationsFloor(Copies(op, n), p) == n * OperationFloor(op, p)
  {
    if n > 0 {
      assert Copies(op, n)[..n - 1] == Copies(op, n - 1);
      CopiesTake(op, p, n - 1);
      OneMore(n - 1, OperationFloor(op, p));
    }
  }

  lemma LongOperations(id: Text, n: nat)
    requires IsPlainAscii(id) && HasText(id) && n + 93 + |id| == RESPONSE_BYTES && n > 0
    ensures var a, b := Said(LETTER, Letters(n), id), Said(Letters(n), LETTER, id);
            && AreShort([a], id) && 11 + OperationsFloor([a], |id|) == RESPONSE_BYTES
            && AreShort([b], id) && 11 + OperationsFloor([b], |id|) == RESPONSE_BYTES
  {
    assert LETTER == Letters(1);
    SaidIsShort(1, n, id);
    SaidIsShort(n, 1, id);
  }

  lemma ManyOperations(id: Text, n: nat)
    requires IsPlainAscii(id) && HasText(id) && n == (RESPONSE_BYTES - 11) / (83 + |id|)
    ensures var ops := Copies(Said(LETTER, LETTER, id), n);
            AreShort(ops, id) && |ops| == n && 11 + OperationsFloor(ops, |id|) <= RESPONSE_BYTES
  {
    assert LETTER == Letters(1);
    SaidIsShort(1, 1, id);
    var op := Said(LETTER, LETTER, id);
    assert [op][0] == op;
    CopiesTake(op, |id|, n);
    AtMostWhole(RESPONSE_BYTES - 11, 83 + |id|);
  }

  lemma AtMostWhole(whole: nat, size: nat)
    requires size > 0
    ensures whole / size * size <= whole
  {
  }

  /** An accepted response of the turn yields these operations. */
  ghost predicate IsAnsweredWith(turn: Message, ops: seq<Operation>) {
    exists c :: WellParsed(c) && Accepts(c.text) && Operations(c, turn) == ops
  }

  lemma ShortOperationsAreAnswered(turn: Message, ops: seq<Operation>)
    requires AreShort(ops, turn.id) && ops != [] && AllAscii(ops)
    requires 11 + OperationsFloor(ops, |turn.id|) <= RESPONSE_BYTES
    ensures IsAnsweredWith(turn, ops)
  {
    FloorsAreReached(ops, turn);
    PlainQuotedLen(turn.id);
    ResponseIsAscii(ops, turn.id);
    var c := ResponseOf(ops, turn.id);
    assert WellParsed(c) && Accepts(c.text) && Operations(c, turn) == ops;
  }

  lemma LettersAreAscii(slot: nat, value: nat, id: Text, n: nat)
    requires slot > 0 && value > 0
    ensures AllAscii(Copies(Said(Letters(slot), Letters(value), id), n))
  {
    LettersArePlain(slot);
    LettersArePlain(value);
  }

  lemma CountBoundIsReached(turn: Message, n: nat)
    requires IsPlainAscii(turn.id) && HasText(turn.id) && n > 0 && n == (RESPONSE_BYTES - 11) / (83 + |turn.id|)
    ensures IsAnsweredWith(turn, Copies(Said(LETTER, LETTER, turn.id), n))
  {
    assert LETTER == Letters(1);
    ManyOperations(turn.id, n);
    LettersAreAscii(1, 1, turn.id, n);
    ShortOperationsAreAnswered(turn, Copies(Said(LETTER, LETTER, turn.id), n));
  }

  lemma ValueBoundIsReached(turn: Message, n: nat)
    requires IsPlainAscii(turn.id) && HasText(turn.id) && n + 93 + |turn.id| == RESPONSE_BYTES && n > 0
    ensures IsAnsweredWith(turn, [Said(LETTER, Letters(n), turn.id)])
  {
    var op := Said(LETTER, Letters(n), turn.id);
    assert LETTER == Letters(1);
    LongOperations(turn.id, n);
    LettersAreAscii(1, n, turn.id, 1);
    assert [op] == Copies(op, 1);
    ShortOperationsAreAnswered(turn, [op]);
  }

  lemma KeyBoundIsReached(turn: Message, n: nat)
    requires IsPlainAscii(turn.id) && HasText(turn.id) && n + 93 + |turn.id| == RESPONSE_BYTES && n > 0
    ensures IsAnsweredWith(turn, [Said(Letters(n), LETTER, turn.id)])
  {
    var op := Said(Letters(n), LETTER, turn.id);
    assert LETTER == Letters(1);
    LongOperations(turn.id, n);
    LettersAreAscii(n, 1, turn.id, 1);
    assert [op] == Copies(op, 1);
    ShortOperationsAreAnswered(turn, [op]);
  }

  lemma BoundsAre(p: nat)
    requires 0 < p < RESPONSE_BYTES - 93
    ensures BoundsFor(p).Some?
    ensures var bounds := BoundsFor(p).value;
            && bounds.operations == (RESPONSE_BYTES - 11) / (83 + p) && bounds.operations > 0
            && bounds.valueBytes == bounds.keyBytes == RESPONSE_BYTES - 93 - p
  {
    WholeIsPositive(RESPONSE_BYTES - 11, 83 + p);
  }

  lemma WholeIsPositive(whole: nat, size: nat)
    requires 0 < size <= whole
    ensures whole / size > 0
  {
  }

  /** Whatever the length of an identifier that leaves room, accepted responses exist with as many operations as the
      bound allows, with a value of as many bytes, and with a key of as many bytes. */
  lemma ResponseBoundsAreReached(turn: Message)
    requires IsPlainAscii(turn.id) && HasText(turn.id) && |turn.id| < RESPONSE_BYTES - 93
    ensures var bounds := BoundsFor(|turn.id|).value;
            && IsAnsweredWith(turn, Copies(Said(LETTER, LETTER, turn.id), bounds.operations))
            && IsAnsweredWith(turn, [Said(LETTER, Letters(bounds.valueBytes), turn.id)])
            && IsAnsweredWith(turn, [Said(Letters(bounds.keyBytes), LETTER, turn.id)])
  {
    BoundsAre(|turn.id|);
    var bounds := BoundsFor(|turn.id|).value;
    CountBoundIsReached(turn, bounds.operations);
    ValueBoundIsReached(turn, bounds.valueBytes);
    KeyBoundIsReached(turn, bounds.keyBytes);
  }

  // ----- The payload -----

  function Controls(n: nat): (t: Text)
    ensures |t| == n && forall i :: 0 <= i < n ==> t[i] == 1
  {
    seq(n, i => 1)
  }

  lemma {:induction false} ControlsGrowMost(n: nat)
    ensures Utf8Len(Controls(n)) == n && Utf8Len(Escape(Controls(n))) == 6 * n
  {
    if n > 0 {
      assert Controls(n)[1..] == Controls(n - 1);
      ControlsGrowMost(n - 1);
      Utf8LenConcat(EscapeChar(1), Escape(Controls(n - 1)));
      Utf8LenBounds(EscapeChar(1));
    }
  }

  /** Before any response, a turn of n control characters makes a payload of exactly the bound; each response raises
      the bound by one allowance. */
  lemma PayloadBoundIsReached(id: Text, sequence: nat, n: nat)
    ensures var turn := Message(id, sequence, User, Controls(n));
            Utf8Len(PayloadText(turn, [])) == PayloadBytes(0, Utf8Len(turn.content), id)
    ensures forall j: nat :: PayloadBytes(j, n, id) == PayloadBytes(0, n, id) + 131072 * j
  {
    var turn := Message(id, sequence, User, Controls(n));
    ControlsGrowMost(n);
    Bracketed(QUOTE, Escape(Controls(n)), QUOTE);
    PayloadLen(turn, []);
    CompactObjectLen([]);
  }
}
