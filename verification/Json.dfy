/** JSON values, the texts that spell them, and the compact serialisation used for every payload.
    A text that parses is represented by its concrete syntax tree: `Spell` gives back the text,
    white space and escapes included, and `Meaning` the value that parsing yields. */
module Json {
  import opened Texts

  datatype Json =
    | Null
    | Bool(b: bool)
    | Number(lexeme: Text)
    | Str(text: Text)
    | Arr(items: seq<Json>)
    | Obj(members: seq<(Text, Json)>)

  /** One character of a string literal. */
  datatype Piece =
    | Raw(c: CodePoint)
    | Short(c: CodePoint)
    | Hex(digits: Text)
    | SurrogatePair(high: Text, low: Text)

  datatype Tree =
    | NullTree
    | BoolTree(b: bool)
    | NumberTree(lexeme: Text)
    | StringTree(pieces: seq<Piece>)
    | ArrayTree(pad: Text, elements: seq<Element>)
    | ObjectTree(pad: Text, members: seq<Member>)

  /** `before` and `after` are white space; `pad` is the inside of an empty bracket pair. */
  datatype Element = Element(before: Text, value: Tree, after: Text)

  datatype Member = Member(before: Text, key: seq<Piece>, colonBefore: Text, colonAfter: Text, value: Tree, after: Text)

  const QUOTE: CodePoint := 0x22
  const BACKSLASH: CodePoint := 0x5C
  const COMMA: CodePoint := 0x2C
  const COLON: CodePoint := 0x3A

  // ----- String literals -----

  predicate IsHexDigit(c: CodePoint) {
    0x30 <= c <= 0x39 || 0x41 <= c <= 0x46 || 0x61 <= c <= 0x66
  }

  function HexDigit(c: CodePoint): (d: nat)
    requires IsHexDigit(c)
    ensures d < 16
  {
    if c <= 0x39 then c - 0x30 else if c <= 0x46 then c - 0x41 + 10 else c - 0x61 + 10
  }

  predicate IsHex4(t: Text) {
    |t| == 4 && forall i :: 0 <= i < 4 ==> IsHexDigit(t[i])
  }

  function HexValue(t: Text): (v: CodePoint)
    requires IsHex4(t)
    ensures v < 0x1_0000
  {
    ((HexDigit(t[0]) * 16 + HexDigit(t[1])) * 16 + HexDigit(t[2])) * 16 + HexDigit(t[3])
  }

  /** The letters after a backslash and the characters they stand for. */
  function ShortLetter(c: CodePoint): CodePoint {
    match c
    case 8 => 0x62
    case 9 => 0x74
    case 10 => 0x6E
    case 12 => 0x66
    case 13 => 0x72
    case _ => c
  }

  predicate HasShort(c: CodePoint) {
    c == QUOTE || c == BACKSLASH || c == 0x2F || c == 8 || c == 9 || c == 10 || c == 12 || c == 13
  }

  predicate ValidPiece(p: Piece) {
    match p
    case Raw(c) => c >= 0x20 && c != QUOTE && c != BACKSLASH
    case Short(c) => HasShort(c)
    case Hex(digits) => IsHex4(digits)
    case SurrogatePair(high, low) =>
      IsHex4(high) && IsHex4(low) && 0xD800 <= HexValue(high) < 0xDC00 && 0xDC00 <= HexValue(low) < 0xE000
  }

  function SpellPiece(p: Piece): Text {
    match p
    case Raw(c) => [c]
    case Short(c) => [BACKSLASH, ShortLetter(c)]
    case Hex(digits) => [BACKSLASH, 0x75] + digits
    case SurrogatePair(high, low) => [BACKSLASH, 0x75] + high + [BACKSLASH, 0x75] + low
  }

  function PieceMeaning(p: Piece): CodePoint
    requires ValidPiece(p)
  {
    match p
    case Raw(c) => c
    case Short(c) => c
    case Hex(digits) => HexValue(digits)
    case SurrogatePair(high, low) => 0x1_0000 + (HexValue(high) - 0xD800) * 0x400 + (HexValue(low) - 0xDC00)
  }

  predicate ValidPieces(ps: seq<Piece>) {
    forall i :: 0 <= i < |ps| ==> ValidPiece(ps[i])
  }

  function SpellPieces(ps: seq<Piece>): Text {
    if ps == [] then [] else SpellPiece(ps[0]) + SpellPieces(ps[1..])
  }

  function PiecesMeaning(ps: seq<Piece>): Text
    requires ValidPieces(ps)
  {
    seq(|ps|, i requires 0 <= i < |ps| => PieceMeaning(ps[i]))
  }

  function SpellString(ps: seq<Piece>): Text {
    [QUOTE] + SpellPieces(ps) + [QUOTE]
  }

  // ----- Documents -----

  predicate IsPadding(t: Text) {
    forall i :: 0 <= i < |t| ==> t[i] == 0x20 || t[i] == 9 || t[i] == 10 || t[i] == 13
  }

  predicate ValidTree(t: Tree) {
    match t
    case NullTree => true
    case BoolTree(_) => true
    case NumberTree(lexeme) => lexeme != [] && IsAscii(lexeme)
    case StringTree(pieces) => ValidPieces(pieces)
    case ArrayTree(pad, elements) =>
      IsPadding(pad)
      && forall i :: 0 <= i < |elements| ==>
        IsPadding(elements[i].before) && IsPadding(elements[i].after) && ValidTree(elements[i].value)
    case ObjectTree(pad, members) =>
      IsPadding(pad)
      && forall i :: 0 <= i < |members| ==>
        ValidPieces(members[i].key) && ValidTree(members[i].value)
        && IsPadding(members[i].before) && IsPadding(members[i].colonBefore)
        && IsPadding(members[i].colonAfter) && IsPadding(members[i].after)
  }

  function Spell(t: Tree): Text {
    match t
    case NullTree => [0x6E, 0x75, 0x6C, 0x6C]
    case BoolTree(b) => if b then [0x74, 0x72, 0x75, 0x65] else [0x66, 0x61, 0x6C, 0x73, 0x65]
    case NumberTree(lexeme) => lexeme
    case StringTree(pieces) => SpellString(pieces)
    case ArrayTree(pad, elements) =>
      if elements == [] then [0x5B] + pad + [0x5D] else [0x5B] + SpellElements(elements) + [0x5D]
    case ObjectTree(pad, members) =>
      if members == [] then [0x7B] + pad + [0x7D] else [0x7B] + SpellMembers(members) + [0x7D]
  }

  function SpellElement(e: Element): Text {
    e.before + Spell(e.value) + e.after
  }

  function SpellMember(m: Member): Text {
    m.before + SpellString(m.key) + m.colonBefore + [COLON] + m.colonAfter + Spell(m.value) + m.after
  }

  function SpellElements(es: seq<Element>): Text {
    if es == [] then []
    else if |es| == 1 then SpellElement(es[0])
    else SpellElement(es[0]) + [COMMA] + SpellElements(es[1..])
  }

  function SpellMembers(ms: seq<Member>): Text {
    if ms == [] then []
    else if |ms| == 1 then SpellMember(ms[0])
    else SpellMember(ms[0]) + [COMMA] + SpellMembers(ms[1..])
  }

  function Meaning(t: Tree): Json
    requires ValidTree(t)
  {
    match t
    case NullTree => Null
    case BoolTree(b) => Bool(b)
    case NumberTree(lexeme) => Number(lexeme)
    case StringTree(pieces) => Str(PiecesMeaning(pieces))
    case ArrayTree(_, elements) =>
      Arr(seq(|elements|, i requires 0 <= i < |elements| => Meaning(elements[i].value)))
    case ObjectTree(_, members) =>
      Obj(seq(|members|, i requires 0 <= i < |members| =>
        (PiecesMeaning(members[i].key), Meaning(members[i].value))))
  }

  /** A whole text: one value, with white space on either side. */
  datatype Document = Document(before: Text, root: Tree, after: Text)

  function SpellDocument(d: Document): Text {
    d.before + Spell(d.root) + d.after
  }

  /** `decode_json` rejects a repeated key of any object in the document. */
  predicate UniqueKeys(t: Tree)
    requires ValidTree(t)
  {
    match t
    case ArrayTree(_, elements) => forall i :: 0 <= i < |elements| ==> UniqueKeys(elements[i].value)
    case ObjectTree(_, members) =>
      (forall i, j :: 0 <= i < j < |members| ==> PiecesMeaning(members[i].key) != PiecesMeaning(members[j].key))
      && forall i :: 0 <= i < |members| ==> UniqueKeys(members[i].value)
    case _ => true
  }

  predicate ValidDocument(d: Document) {
    IsPadding(d.before) && IsPadding(d.after) && ValidTree(d.root) && UniqueKeys(d.root)
  }

  // ----- Compact serialisation -----

  function HexLetter(d: nat): CodePoint
    requires d < 16
  {
    if d < 10 then 0x30 + d else 0x61 + d - 10
  }

  function EscapeChar(c: CodePoint): Text {
    if c == QUOTE || c == BACKSLASH then [BACKSLASH, c]
    else if c == 8 || c == 9 || c == 10 || c == 12 || c == 13 then [BACKSLASH, ShortLetter(c)]
    else if c < 0x20 then [BACKSLASH, 0x75, 0x30, 0x30, HexLetter(c / 16), HexLetter(c % 16)]
    else [c]
  }

  function Escape(t: Text): Text {
    if t == [] then [] else EscapeChar(t[0]) + Escape(t[1..])
  }

  function Quote(t: Text): Text {
    [QUOTE] + Escape(t) + [QUOTE]
  }

  /** `key:value` pairs of strings, joined with commas. */
  function CompactPairs(pairs: seq<(Text, Text)>): Text {
    if pairs == [] then []
    else
      var pair := Quote(pairs[0].0) + [COLON] + Quote(pairs[0].1);
      if |pairs| == 1 then pair else pair + [COMMA] + CompactPairs(pairs[1..])
  }

  function CompactObject(pairs: seq<(Text, Text)>): Text {
    [0x7B] + CompactPairs(pairs) + [0x7D]
  }
}
