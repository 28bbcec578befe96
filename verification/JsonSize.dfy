/** No spelling of a JSON value is shorter than its compact serialisation. */
module JsonSize {
  import opened Texts
  import opened Json

  // ----- String literals -----

  lemma PieceIsNoShorter(p: Piece)
    requires ValidPiece(p)
    ensures Utf8Len(EscapeChar(PieceMeaning(p))) <= Utf8Len(SpellPiece(p))
    ensures 1 <= Utf8Len(SpellPiece(p))
  {
    Utf8LenBounds(SpellPiece(p));
    Utf8LenBounds(EscapeChar(PieceMeaning(p)));
    match p
    case Raw(c) => assert EscapeChar(c) == [c];
    case Short(c) => 
    case Hex(digits) =>
    case SurrogatePair(high, low) =>
  }

  lemma ConcatIsNoShorter(a: Text, b: Text, c: Text, d: Text)
    requires Utf8Len(a) <= Utf8Len(c) && Utf8Len(b) <= Utf8Len(d)
    ensures Utf8Len(a + b) <= Utf8Len(c + d)
  {
    Utf8LenConcat(a, b);
    Utf8LenConcat(c, d);
  }

  lemma {:induction false} PiecesAreNoShorter(ps: seq<Piece>)
    requires ValidPieces(ps)
    ensures Utf8Len(Escape(PiecesMeaning(ps))) <= Utf8Len(SpellPieces(ps))
  {
    if ps != [] {
      PieceIsNoShorter(ps[0]);
      PiecesAreNoShorter(ps[1..]);
      var t := PiecesMeaning(ps);
      assert t[1..] == PiecesMeaning(ps[1..]);
      ConcatIsNoShorter(EscapeChar(t[0]), Escape(t[1..]), SpellPiece(ps[0]), SpellPieces(ps[1..]));
    }
  }

  function QuotedLen(t: Text): nat {
    Utf8Len(Quote(t))
  }

  lemma Bracketed(open: CodePoint, inside: Text, close: CodePoint)
    requires open < 0x80 && close < 0x80
    ensures Utf8Len([open] + inside + [close]) == Utf8Len(inside) + 2
  {
    Utf8LenConcat([open] + inside, [close]);
    Utf8LenConcat([open], inside);
  }

  lemma StringIsNoShorter(ps: seq<Piece>)
    requires ValidPieces(ps)
    ensures QuotedLen(PiecesMeaning(ps)) <= Utf8Len(SpellString(ps))
  {
    PiecesAreNoShorter(ps);
    Bracketed(QUOTE, SpellPieces(ps), QUOTE);
    Bracketed(QUOTE, Escape(PiecesMeaning(ps)), QUOTE);
  }

  /** Escaping costs between one and six bytes for every byte of the text. */
  lemma {:induction false} EscapeGrowth(t: Text)
    ensures Utf8Len(t) <= Utf8Len(Escape(t)) <= 6 * Utf8Len(t)
  {
    if t != [] {
      EscapeGrowth(t[1..]);
      Utf8LenConcat(EscapeChar(t[0]), Escape(t[1..]));
      Utf8LenBounds(EscapeChar(t[0]));
    }
  }

  lemma QuoteGrowth(t: Text)
    ensures Utf8Len(t) + 2 <= QuotedLen(t) <= 6 * Utf8Len(t) + 2
  {
    EscapeGrowth(t);
    Bracketed(QUOTE, Escape(t), QUOTE);
  }

  // ----- Arrays and objects -----

  /** The bytes of each element and of the comma or bracket that follows it. */
  function ElementsLen(es: seq<Element>): nat {
    if es == [] then 0 else Utf8Len(Spell(es[0].value)) + 1 + ElementsLen(es[1..])
  }

  function MemberLen(m: Member): nat {
    Utf8Len(SpellString(m.key)) + 1 + Utf8Len(Spell(m.value)) + 1
  }

  function MembersLen(ms: seq<Member>): nat {
    if ms == [] then 0 else MemberLen(ms[0]) + MembersLen(ms[1..])
  }

  lemma {:induction false} ElementsFit(es: seq<Element>)
    requires es != []
    ensures ElementsLen(es) <= Utf8Len(SpellElements(es)) + 1
  {
    Utf8LenConcat(es[0].before + Spell(es[0].value), es[0].after);
    Utf8LenConcat(es[0].before, Spell(es[0].value));
    if |es| > 1 {
      ElementsFit(es[1..]);
      Utf8LenConcat(SpellElement(es[0]) + [COMMA], SpellElements(es[1..]));
      Utf8LenConcat(SpellElement(es[0]), [COMMA]);
    }
  }

  lemma MemberFits(m: Member)
    ensures MemberLen(m) <= Utf8Len(SpellMember(m)) + 1
  {
    var a := m.before + SpellString(m.key);
    var b := a + m.colonBefore;
    var c := b + [COLON];
    var d := c + m.colonAfter;
    Utf8LenConcat(m.before, SpellString(m.key));
    Utf8LenConcat(a, m.colonBefore);
    Utf8LenConcat(b, [COLON]);
    Utf8LenConcat(c, m.colonAfter);
    Utf8LenConcat(d, Spell(m.value));
    Utf8LenConcat(d + Spell(m.value), m.after);
  }

  lemma {:induction false} MembersFit(ms: seq<Member>)
    requires ms != []
    ensures MembersLen(ms) <= Utf8Len(SpellMembers(ms)) + 1
  {
    MemberFits(ms[0]);
    if |ms| > 1 {
      MembersFit(ms[1..]);
      Utf8LenConcat(SpellMember(ms[0]) + [COMMA], SpellMembers(ms[1..]));
      Utf8LenConcat(SpellMember(ms[0]), [COMMA]);
    }
  }

  lemma ArrayFits(t: Tree)
    requires t.ArrayTree?
    ensures ElementsLen(t.elements) + 1 <= Utf8Len(Spell(t))
  {
    if t.elements == [] {
      Bracketed(0x5B, t.pad, 0x5D);
    } else {
      ElementsFit(t.elements);
      Bracketed(0x5B, SpellElements(t.elements), 0x5D);
    }
  }

  lemma ObjectFits(t: Tree)
    requires t.ObjectTree?
    ensures MembersLen(t.members) + 1 <= Utf8Len(Spell(t))
  {
    if t.members == [] {
      Bracketed(0x7B, t.pad, 0x7D);
    } else {
      MembersFit(t.members);
      Bracketed(0x7B, SpellMembers(t.members), 0x7D);
    }
  }

  /** One member's bytes can be set aside and the others still counted. */
  lemma {:induction false} Peel(ms: seq<Member>, i: nat)
    requires i < |ms|
    ensures MembersLen(ms) == MemberLen(ms[i]) + MembersLen(ms[..i] + ms[i + 1..])
  {
    if i == 0 {
      assert ms[..0] + ms[1..] == ms[1..];
    } else {
      Peel(ms[1..], i - 1);
      var rest := ms[..i] + ms[i + 1..];
      assert rest[0] == ms[0] && rest[1..] == ms[1..][..i - 1] + ms[1..][i..];
    }
  }

  // ----- Compact objects of string pairs -----

  function PairLen(key: Text, value: Text): nat {
    QuotedLen(key) + 1 + QuotedLen(value) + 1
  }

  function PairsLen(pairs: seq<(Text, Text)>): nat {
    if pairs == [] then 0 else PairLen(pairs[0].0, pairs[0].1) + PairsLen(pairs[1..])
  }

  lemma {:induction false} CompactPairsLen(pairs: seq<(Text, Text)>)
    requires pairs != []
    ensures Utf8Len(CompactPairs(pairs)) + 1 == PairsLen(pairs)
  {
    var key, value := Quote(pairs[0].0), Quote(pairs[0].1);
    Utf8LenConcat(key, [COLON]);
    Utf8LenConcat(key + [COLON], value);
    if |pairs| > 1 {
      CompactPairsLen(pairs[1..]);
      Utf8LenConcat(key + [COLON] + value, [COMMA]);
      Utf8LenConcat(key + [COLON] + value + [COMMA], CompactPairs(pairs[1..]));
    }
  }

  /** A serialised object costs its brackets and its pairs, less the comma the last pair does not need. */
  lemma CompactObjectLen(pairs: seq<(Text, Text)>)
    ensures Utf8Len(CompactObject(pairs)) == 2 + (if pairs == [] then 0 else PairsLen(pairs) - 1)
  {
    Bracketed(0x7B, CompactPairs(pairs), 0x7D);
    if pairs != [] {
      CompactPairsLen(pairs);
    }
  }
}
