/** How many bytes of a completion each accepted operation must take. */
module ResponseSize {
  import opened Wrappers
  import opened Texts
  import opened Json
  import opened JsonSize
  import opened Facts
  import opened Extraction

  lemma FieldAt(ms: seq<(Text, Json)>, key: Text) returns (i: nat)
    requires Field(ms, key).Some?
    ensures i < |ms| && ms[i] == (key, Field(ms, key).value)
  {
    if ms[0].0 == key {
      i := 0;
    } else {
      i := FieldAt(ms[1..], key);
      i := i + 1;
    }
  }

  lemma StringTreeLen(t: Tree)
    requires ValidTree(t) && Meaning(t).Str?
    ensures QuotedLen(Meaning(t).text) <= Utf8Len(Spell(t))
  {
    StringIsNoShorter(t.pieces);
  }

  lemma AsciiQuoted(t: Text)
    requires IsAscii(t)
    ensures |t| + 2 <= QuotedLen(t)
  {
    QuoteGrowth(t);
    Utf8LenBounds(t);
  }

  /** The key of a member and the value it holds bound the member's bytes. */
  lemma MemberAtLeast(t: Tree, i: nat, key: Text, valueLen: nat)
    requires ValidTree(t) && t.ObjectTree? && i < |t.members|
    requires Meaning(t).members[i].0 == key && IsAscii(key)
    requires valueLen <= Utf8Len(Spell(t.members[i].value))
    ensures |key| + 4 + valueLen <= MemberLen(t.members[i])
  {
    StringIsNoShorter(t.members[i].key);
    AsciiQuoted(key);
  }

  lemma KindLen(t: Text)
    requires KindOf(t).Some?
    ensures 6 <= QuotedLen(t)
  {
    AsciiQuoted(t);
  }

  lemma {:induction false} SourceIdsLen(items: seq<Json>)
    requires SourceIds(items).Some?
    ensures |SourceIds(items).value| == |items|
    ensures forall i :: 0 <= i < |items| ==> items[i] == Str(SourceIds(items).value[i])
  {
    if items != [] {
      SourceIdsLen(items[1..]);
    }
  }

  /** A provenance array of one identifier. */
  lemma ProvenanceLen(t: Tree, id: Text)
    requires ValidTree(t) && Meaning(t).Arr? && SourceIds(Meaning(t).items) == Some([id])
    ensures Utf8Len(id) + 4 <= Utf8Len(Spell(t))
  {
    SourceIdsLen(Meaning(t).items);
    assert Meaning(t.elements[0].value) == Meaning(t).items[0] == Str(id);
    StringTreeLen(t.elements[0].value);
    QuoteGrowth(id);
    ArrayFits(t);
    assert ElementsLen(t.elements) == Utf8Len(Spell(t.elements[0].value)) + 1 + ElementsLen(t.elements[1..]);
  }

  /** The bytes, its comma included, of the smallest object that yields `op` citing `p` bytes of provenance. */
  function OperationFloor(op: Operation, p: nat): nat {
    match op
    case Assert(slot, value, _, _) => 77 + p + QuotedLen(slot) + QuotedLen(value)
    case Retract(slot, _, _) => 82 + p + QuotedLen(slot)
  }

  function OperationsFloor(ops: seq<Operation>, p: nat): nat {
    if ops == [] then 0 else OperationsFloor(ops[..|ops| - 1], p) + OperationFloor(ops[|ops| - 1], p)
  }

  lemma FiveOf(c: seq<nat>, i: nat, j: nat, k: nat, l: nat, m: nat)
    requires |c| == 5 && i < 5 && j < 5 && k < 5 && l < 5 && m < 5
    requires i != j && i != k && i != l && i != m && j != k && j != l && j != m && k != l && k != m && l != m
    ensures c[i] + c[j] + c[k] + c[l] + c[m] == c[0] + c[1] + c[2] + c[3] + c[4]
  {
  }

  function MemberLens(ms: seq<Member>): (c: seq<nat>)
    ensures |c| == |ms| && forall i :: 0 <= i < |ms| ==> c[i] == MemberLen(ms[i])
  {
    seq(|ms|, i requires 0 <= i < |ms| => MemberLen(ms[i]))
  }

  lemma FiveMembersLen(ms: seq<Member>)
    requires |ms| == 5
    ensures var c := MemberLens(ms); MembersLen(ms) == c[0] + c[1] + c[2] + c[3] + c[4]
  {
    assert MembersLen(ms) == MemberLen(ms[0]) + MembersLen(ms[1..]);
    assert MembersLen(ms[1..]) == MemberLen(ms[1]) + MembersLen(ms[1..][1..]);
    assert ms[1..][1..] == ms[2..];
    assert MembersLen(ms[2..]) == MemberLen(ms[2]) + MembersLen(ms[2..][1..]);
    assert ms[2..][1..] == ms[3..];
    assert MembersLen(ms[3..]) == MemberLen(ms[3]) + MembersLen(ms[3..][1..]);
    assert ms[3..][1..] == ms[4..];
    assert MembersLen(ms[4..]) == MemberLen(ms[4]) + MembersLen(ms[4..][1..]);
  }

  lemma FiveTotal(ms: seq<Member>, i: nat, j: nat, k: nat, l: nat, m: nat)
    requires |ms| == 5 && i < 5 && j < 5 && k < 5 && l < 5 && m < 5
    requires i != j && i != k && i != l && i != m && j != k && j != l && j != m && k != l && k != m && l != m
    ensures MemberLen(ms[i]) + MemberLen(ms[j]) + MemberLen(ms[k]) + MemberLen(ms[l]) + MemberLen(ms[m])
            == MembersLen(ms)
  {
    FiveMembersLen(ms);
    FiveOf(MemberLens(ms), i, j, k, l, m);
  }

  lemma MemberWith(t: Tree, key: Text) returns (i: nat)
    requires ValidTree(t) && t.ObjectTree? && Field(Meaning(t).members, key).Some?
    ensures i < |t.members| && Meaning(t).members[i].0 == key
    ensures ValidTree(t.members[i].value) && Meaning(t.members[i].value) == Field(Meaning(t).members, key).value
  {
    i := FieldAt(Meaning(t).members, key);
  }

  /** The members for the operator and the slot. */
  lemma OperatorAndSlot(t: Tree, op: Operation, i: nat, j: nat)
    requires ValidTree(t) && t.ObjectTree? && i < |t.members| && j < |t.members|
    requires Meaning(t).members[i].0 == Ascii("op") && Meaning(t).members[j].0 == Ascii("slot_key")
    requires Meaning(t.members[i].value) == Str(Ascii(if op.Assert? then "assert" else "retract"))
    requires Meaning(t.members[j].value) == Str(op.slotKey)
    ensures (if op.Assert? then 14 else 15) <= MemberLen(t.members[i])
    ensures 12 + QuotedLen(op.slotKey) <= MemberLen(t.members[j])
  {
    StringTreeLen(t.members[i].value);
    AsciiQuoted(Ascii(if op.Assert? then "assert" else "retract"));
    MemberAtLeast(t, i, Ascii("op"), if op.Assert? then 8 else 9);
    StringTreeLen(t.members[j].value);
    MemberAtLeast(t, j, Ascii("slot_key"), QuotedLen(op.slotKey));
  }

  lemma ValueMember(t: Tree, op: Operation, k: nat)
    requires ValidTree(t) && t.ObjectTree? && k < |t.members| && Meaning(t).members[k].0 == Ascii("value")
    requires Meaning(t.members[k].value) == if op.Assert? then Str(op.value) else Null
    ensures (if op.Assert? then 9 + QuotedLen(op.value) else 13) <= MemberLen(t.members[k])
  {
    if op.Assert? {
      StringTreeLen(t.members[k].value);
      MemberAtLeast(t, k, Ascii("value"), QuotedLen(op.value));
    } else {
      Utf8LenBounds(Spell(t.members[k].value));
      MemberAtLeast(t, k, Ascii("value"), 4);
    }
  }

  lemma KindAndSources(t: Tree, id: Text, l: nat, m: nat)
    requires ValidTree(t) && t.ObjectTree? && l < |t.members| && m < |t.members|
    requires Meaning(t).members[l].0 == Ascii("kind") && Meaning(t).members[m].0 == Ascii("source_message_ids")
    requires Meaning(t.members[l].value).Str? && KindOf(Meaning(t.members[l].value).text).Some?
    requires Meaning(t.members[m].value).Arr? && SourceIds(Meaning(t.members[m].value).items) == Some([id])
    ensures 14 <= MemberLen(t.members[l]) && 26 + Utf8Len(id) <= MemberLen(t.members[m])
  {
    StringTreeLen(t.members[l].value);
    KindLen(Meaning(t.members[l].value).text);
    MemberAtLeast(t, l, Ascii("kind"), 6);
    ProvenanceLen(t.members[m].value, id);
    MemberAtLeast(t, m, Ascii("source_message_ids"), Utf8Len(id) + 4);
  }

  /** The five members are different ones, because their keys differ in length. */
  lemma FiveSum(t: Tree, i: nat, j: nat, k: nat, l: nat, m: nat)
    requires ValidTree(t) && t.ObjectTree? && |t.members| == 5 && i < 5 && j < 5 && k < 5 && l < 5 && m < 5
    requires var ms := Meaning(t).members;
             |ms[i].0| == 2 && |ms[j].0| == 8 && |ms[k].0| == 5 && |ms[l].0| == 4 && |ms[m].0| == 18
    ensures MemberLen(t.members[i]) + MemberLen(t.members[j]) + MemberLen(t.members[k])
            + MemberLen(t.members[l]) + MemberLen(t.members[m]) + 1 <= Utf8Len(Spell(t))
  {
    ObjectFits(t);
    FiveTotal(t.members, i, j, k, l, m);
  }

  /** The object an accepted operation came from, with its comma, is at least the operation's floor. */
  lemma OperationObjectLen(t: Tree, id: Text)
    requires ValidTree(t) && AcceptPayload(Meaning(t), id).Some?
    ensures OperationFloor(AcceptPayload(Meaning(t), id).value, Utf8Len(id)) <= Utf8Len(Spell(t)) + 1
  {
    var op := FromPayload(Meaning(t)).value;
    var i := MemberWith(t, Ascii("op"));
    var j := MemberWith(t, Ascii("slot_key"));
    var k := MemberWith(t, Ascii("value"));
    var l := MemberWith(t, Ascii("kind"));
    var m := MemberWith(t, Ascii("source_message_ids"));
    OperatorAndSlot(t, op, i, j);
    ValueMember(t, op, k);
    KindAndSources(t, id, l, m);
    FiveSum(t, i, j, k, l, m);
  }

  lemma {:induction false} ElementsLenSplit(es: seq<Element>)
    requires es != []
    ensures var n := |es| - 1; ElementsLen(es) == ElementsLen(es[..n]) + Utf8Len(Spell(es[n].value)) + 1
  {
    if |es| > 1 {
      ElementsLenSplit(es[1..]);
      assert es[1..][..|es| - 2] == es[..|es| - 1][1..];
    } else {
      assert es[1..] == [];
    }
  }

  function ElementValues(es: seq<Element>): seq<Json>
    requires forall i :: 0 <= i < |es| ==> ValidTree(es[i].value)
  {
    seq(|es|, i requires 0 <= i < |es| => Meaning(es[i].value))
  }

  lemma {:induction false} AcceptedElementsLen(es: seq<Element>, id: Text)
    requires forall i :: 0 <= i < |es| ==> ValidTree(es[i].value)
    ensures OperationsFloor(AcceptedOps(ElementValues(es), id), Utf8Len(id)) <= ElementsLen(es)
  {
    if es != [] {
      var n := |es| - 1;
      AcceptedElementsLen(es[..n], id);
      ElementsLenSplit(es);
      assert ElementValues(es)[..n] == ElementValues(es[..n]);
      if AcceptPayload(Meaning(es[n].value), id).Some? {
        OperationObjectLen(es[n].value, id);
        var ops := AcceptedOps(ElementValues(es), id);
        assert ops[..|ops| - 1] == AcceptedOps(ElementValues(es[..n]), id);
      }
    }
  }

  /** The tree of a document that is exactly one `facts` array. */
  lemma FactsTree(c: Completion)
    requires WellParsed(c) && FactsArray(c).Some?
    ensures var t := c.document.value.root;
            && t.ObjectTree? && |t.members| == 1 && Meaning(t).members[0].0 == Ascii("facts")
            && var list := t.members[0].value;
            && ValidTree(list) && list.ArrayTree? && Meaning(list) == Arr(FactsArray(c).value)
  {
    var t := c.document.value.root;
    assert Meaning(t).members[0].1 == Meaning(t.members[0].value);
  }

  lemma ArrayMeaning(list: Tree)
    requires ValidTree(list) && list.ArrayTree?
    ensures forall i :: 0 <= i < |list.elements| ==> ValidTree(list.elements[i].value)
    ensures Meaning(list) == Arr(ElementValues(list.elements))
  {
  }

  /** Eleven bytes of frame, and for every accepted operation its floor, fit in the response text. */
  lemma ResponseHoldsItsOperations(c: Completion, turn: Message)
    requires WellParsed(c) && Operations(c, turn) != []
    ensures 11 + OperationsFloor(Operations(c, turn), Utf8Len(turn.id)) <= Utf8Len(c.text)
  {
    var d := c.document.value;
    var t := d.root;
    var list := t.members[0].value;
    FactsTree(c);
    ArrayMeaning(list);
    AcceptedElementsLen(list.elements, turn.id);
    ArrayFits(list);
    MemberAtLeast(t, 0, Ascii("facts"), Utf8Len(Spell(list)));
    ObjectFits(t);
    Utf8LenConcat(d.before + Spell(t), d.after);
    Utf8LenConcat(d.before, Spell(t));
  }
}
