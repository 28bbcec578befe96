/** Every compactly serialised text decodes to what was serialised. */
module JsonRoundTrip {
  import opened Texts
  import opened Json

  /** The piece that the serialiser writes for a character. */
  function PieceOf(c: CodePoint): Piece {
    if c == QUOTE || c == BACKSLASH || c == 8 || c == 9 || c == 10 || c == 12 || c == 13 then Short(c)
    else if c < 0x20 then Hex([0x30, 0x30, HexLetter(c / 16), HexLetter(c % 16)])
    else Raw(c)
  }

  lemma CharDecodes(c: CodePoint)
    ensures var p := PieceOf(c); ValidPiece(p) && SpellPiece(p) == EscapeChar(c) && PieceMeaning(p) == c
  {
    if PieceOf(c).Hex? {
      var digits := PieceOf(c).digits;
      assert HexDigit(digits[0]) == 0 && HexDigit(digits[1]) == 0;
      assert HexDigit(digits[2]) == c / 16 && HexDigit(digits[3]) == c % 16;
    }
  }

  function PiecesOf(t: Text): (ps: seq<Piece>)
    ensures |ps| == |t| && forall i :: 0 <= i < |t| ==> ps[i] == PieceOf(t[i])
  {
    seq(|t|, i requires 0 <= i < |t| => PieceOf(t[i]))
  }

  lemma {:induction false} EscapeIsSpelled(t: Text)
    ensures SpellPieces(PiecesOf(t)) == Escape(t)
  {
    if t != [] {
      EscapeIsSpelled(t[1..]);
      CharDecodes(t[0]);
      assert PiecesOf(t)[1..] == PiecesOf(t[1..]);
    }
  }

  lemma QuoteDecodes(t: Text)
    ensures ValidPieces(PiecesOf(t)) && SpellString(PiecesOf(t)) == Quote(t) && PiecesMeaning(PiecesOf(t)) == t
  {
    EscapeIsSpelled(t);
    forall i | 0 <= i < |t|
      ensures ValidPiece(PiecesOf(t)[i]) && PieceMeaning(PiecesOf(t)[i]) == t[i]
    {
      CharDecodes(t[i]);
    }
  }

  // ----- Objects -----

  function MemberOf(key: Text, value: Tree): Member {
    Member([], PiecesOf(key), [], [], value, [])
  }

  function StringOf(t: Text): Tree {
    StringTree(PiecesOf(t))
  }

  function PairMembers(pairs: seq<(Text, Text)>): (ms: seq<Member>)
    ensures |ms| == |pairs|
    ensures forall i :: 0 <= i < |pairs| ==> ms[i] == MemberOf(pairs[i].0, StringOf(pairs[i].1))
  {
    seq(|pairs|, i requires 0 <= i < |pairs| => MemberOf(pairs[i].0, StringOf(pairs[i].1)))
  }

  function PairsTree(pairs: seq<(Text, Text)>): Tree {
    ObjectTree([], PairMembers(pairs))
  }

  /** The object of the pairs, as a value. */
  function ObjectOf(pairs: seq<(Text, Text)>): Json {
    Obj(seq(|pairs|, i requires 0 <= i < |pairs| => (pairs[i].0, Str(pairs[i].1))))
  }

  lemma MemberIsSpelled(key: Text, value: Tree)
    ensures SpellMember(MemberOf(key, value)) == Quote(key) + [COLON] + Spell(value)
  {
    QuoteDecodes(key);
    assert [] + Quote(key) + [] + [COLON] + [] + Spell(value) + [] == Quote(key) + [COLON] + Spell(value);
  }

  lemma {:induction false} PairsAreSpelled(pairs: seq<(Text, Text)>)
    ensures SpellMembers(PairMembers(pairs)) == CompactPairs(pairs)
  {
    if pairs != [] {
      MemberIsSpelled(pairs[0].0, StringOf(pairs[0].1));
      QuoteDecodes(pairs[0].1);
      assert PairMembers(pairs)[1..] == PairMembers(pairs[1..]);
      PairsAreSpelled(pairs[1..]);
    }
  }

  lemma StringDecodes(t: Text)
    ensures ValidTree(StringOf(t)) && UniqueKeys(StringOf(t)) && Meaning(StringOf(t)) == Str(t)
    ensures Spell(StringOf(t)) == Quote(t)
  {
    QuoteDecodes(t);
  }

  /** The compact object of pairs with distinct keys decodes to those pairs. */
  lemma CompactObjectDecodes(pairs: seq<(Text, Text)>)
    requires DistinctKeys(pairs)
    ensures var tree := PairsTree(pairs);
            && ValidTree(tree) && UniqueKeys(tree)
            && Spell(tree) == CompactObject(pairs) && Meaning(tree) == ObjectOf(pairs)
  {
    var ms := PairMembers(pairs);
    PairsAreSpelled(pairs);
    forall i | 0 <= i < |pairs|
      ensures ValidPieces(ms[i].key) && PiecesMeaning(ms[i].key) == pairs[i].0
      ensures ValidTree(ms[i].value) && UniqueKeys(ms[i].value) && Meaning(ms[i].value) == Str(pairs[i].1)
    {
      QuoteDecodes(pairs[i].0);
      StringDecodes(pairs[i].1);
    }
    assert pairs == [] ==> [0x7B] + [] + [0x7D] == CompactObject(pairs);
  }

  // ----- An object of two members -----

  function TwoTree(first: Text, a: Tree, second: Text, b: Tree): Tree {
    ObjectTree([], [MemberOf(first, a), MemberOf(second, b)])
  }

  /** The text of an object of two members. */
  function Spelled(first: Text, a: Text, second: Text, b: Text): Text {
    [0x7B] + (Quote(first) + [COLON] + a + [COMMA] + (Quote(second) + [COLON] + b)) + [0x7D]
  }

  lemma TwoTreeMeans(first: Text, a: Tree, second: Text, b: Tree)
    requires first != second && ValidTree(a) && UniqueKeys(a) && ValidTree(b) && UniqueKeys(b)
    ensures var tree := TwoTree(first, a, second, b);
            ValidTree(tree) && UniqueKeys(tree) && Meaning(tree) == Obj([(first, Meaning(a)), (second, Meaning(b))])
  {
    QuoteDecodes(first);
    QuoteDecodes(second);
    var tree := TwoTree(first, a, second, b);
    assert Meaning(tree).members == [(first, Meaning(a)), (second, Meaning(b))];
  }

  lemma TwoSpelled(first: Text, a: Tree, second: Text, b: Tree)
    ensures Spell(TwoTree(first, a, second, b)) == Spelled(first, Spell(a), second, Spell(b))
  {
    var ms := [MemberOf(first, a), MemberOf(second, b)];
    MemberIsSpelled(first, a);
    MemberIsSpelled(second, b);
    var rest := ms[1..];
    assert rest == [MemberOf(second, b)];
    assert SpellMembers(rest) == SpellMember(rest[0]);
    assert SpellMembers(ms) == SpellMember(ms[0]) + [COMMA] + SpellMembers(rest);
  }

  lemma Regroup(a: Text, b: Text, c: Text)
    ensures a + (b + c) == a + b + c
  {
  }

  lemma SpelledFlat(first: Text, a: Text, second: Text, b: Text)
    ensures Spelled(first, a, second, b)
            == ([0x7B] + Quote(first) + [COLON]) + a + ([COMMA] + Quote(second) + [COLON]) + b + [0x7D]
  {
    Flatten([0x7B], Quote(first), [COLON], a, [COMMA], Quote(second), b);
  }

  lemma Flatten(o: Text, k: Text, c: Text, a: Text, m: Text, l: Text, b: Text)
    ensures o + (k + c + a + m + (l + c + b)) == (o + k + c) + a + (m + l + c) + b
  {
    var start := o + k + c + a;
    Regroup(o, k + c + a + m, l + c + b);
    Regroup(o, k + c + a, m);
    Regroup(o, k + c, a);
    Regroup(o, k, c);
    Regroup(start + m, l + c, b);
    Regroup(start + m, l, c);
    Regroup(start, m + l, c);
    Regroup(start, m, l);
  }

  /** Characters that are written as they are. */
  predicate IsPlain(t: Text) {
    forall i :: 0 <= i < |t| ==> t[i] >= 0x20 && t[i] != QUOTE && t[i] != BACKSLASH
  }

  lemma {:induction false} PlainIsUnescaped(t: Text)
    requires IsPlain(t)
    ensures Escape(t) == t
  {
    if t != [] {
      PlainIsUnescaped(t[1..]);
    }
  }
}
