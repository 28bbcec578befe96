/** Unicode text as a sequence of code points. A Python `str` may also hold lone
    surrogates; such a text has no UTF-8 form. */
module Texts {
  type CodePoint = c: int | 0 <= c < 0x11_0000

  type Text = seq<CodePoint>

  /** NFC and the value normalisation used for deduplication (NFKC, case folding,
      white-space runs) are not computed here: every result holds for any such functions. */
  datatype Normalizers = Normalizers(nfc: Text -> Text, dedupKey: Text -> Text)

  ghost predicate KeepsAscii(n: Normalizers) {
    forall t: Text :: IsAscii(t) ==> n.nfc(t) == t
  }

  predicate IsAscii(t: Text) {
    forall i :: 0 <= i < |t| ==> t[i] < 0x80
  }

  /** An ASCII literal as a text. */
  function Ascii(s: string): (t: Text)
    requires forall i :: 0 <= i < |s| ==> s[i] as int < 0x80
    ensures |t| == |s| && IsAscii(t)
    ensures forall i :: 0 <= i < |s| ==> t[i] == s[i] as int
  {
    seq(|s|, i requires 0 <= i < |s| => s[i] as int)
  }

  predicate IsSurrogate(c: CodePoint) {
    0xD800 <= c < 0xE000
  }

  /** `encode("utf-8", errors="strict")` succeeds. */
  predicate Encodable(t: Text) {
    forall i :: 0 <= i < |t| ==> !IsSurrogate(t[i])
  }

  /** The characters that `str.strip` removes. */
  predicate IsSpace(c: CodePoint) {
    9 <= c <= 13 || 28 <= c <= 32 || c == 0x85 || c == 0xA0 || c == 0x1680 || 0x2000 <= c <= 0x200A
    || c == 0x2028 || c == 0x2029 || c == 0x202F || c == 0x205F || c == 0x3000
  }

  predicate IsBlank(t: Text) {
    forall i :: 0 <= i < |t| ==> IsSpace(t[i])
  }

  /** `str.strip`: the text without the spaces at either end. */
  function Strip(t: Text): Text {
    StripEnd(StripStart(t))
  }

  function StripStart(t: Text): Text {
    if t != [] && IsSpace(t[0]) then StripStart(t[1..]) else t
  }

  function StripEnd(t: Text): Text {
    if t != [] && IsSpace(t[|t| - 1]) then StripEnd(t[..|t| - 1]) else t
  }

  lemma {:induction false} StripStartShape(t: Text) returns (a: nat)
    ensures a <= |t| && StripStart(t) == t[a..] && forall i :: 0 <= i < a ==> IsSpace(t[i])
    ensures a < |t| ==> !IsSpace(t[a])
  {
    if t != [] && IsSpace(t[0]) {
      a := StripStartShape(t[1..]);
      assert forall i :: 0 < i < |t| ==> t[i] == t[1..][i - 1];
      a := a + 1;
    } else {
      a := 0;
    }
  }

  lemma {:induction false} StripEndShape(t: Text) returns (b: nat)
    ensures b <= |t| && StripEnd(t) == t[..b] && forall i :: b <= i < |t| ==> IsSpace(t[i])
    ensures b > 0 ==> !IsSpace(t[b - 1])
  {
    if t != [] && IsSpace(t[|t| - 1]) {
      b := StripEndShape(t[..|t| - 1]);
    } else {
      b := |t|;
      assert t[..b] == t;
    }
  }

  /** Stripping keeps one stretch of the text, with only spaces outside it and none at its ends. */
  lemma StripShape(t: Text) returns (a: nat, b: nat)
    ensures a <= b <= |t| && Strip(t) == t[a..b]
    ensures forall i :: 0 <= i < |t| && !IsSpace(t[i]) ==> a <= i < b
    ensures a < b ==> !IsSpace(t[a]) && !IsSpace(t[b - 1])
  {
    a := StripStartShape(t);
    var s := t[a..];
    var e := StripEndShape(s);
    b := a + e;
    assert Strip(t) == s[..e] == t[a..b];
    forall i | 0 <= i < |t| && !IsSpace(t[i])
      ensures a <= i < b
    {
      if i >= a {
        assert s[i - a] == t[i];
      }
    }
    if e > 0 {
      assert s[0] == t[a] && s[e - 1] == t[b - 1];
    }
  }

  /** What `_text` accepts. */
  predicate IsText(t: Text) {
    !IsBlank(t) && Encodable(t)
  }

  function Width(c: CodePoint): (w: nat)
    ensures 1 <= w <= 4
  {
    if c < 0x80 then 1 else if c < 0x800 then 2 else if c < 0x1_0000 then 3 else 4
  }

  /** The number of bytes of the UTF-8 form. */
  function Utf8Len(t: Text): nat {
    if t == [] then 0 else Width(t[0]) + Utf8Len(t[1..])
  }

  lemma {:induction false} Utf8LenConcat(a: Text, b: Text)
    ensures Utf8Len(a + b) == Utf8Len(a) + Utf8Len(b)
  {
    if a == [] {
      assert a + b == b;
    } else {
      assert (a + b)[1..] == a[1..] + b;
      Utf8LenConcat(a[1..], b);
    }
  }

  lemma {:induction false} Utf8LenBounds(t: Text)
    ensures |t| <= Utf8Len(t) <= 4 * |t|
    ensures IsAscii(t) ==> Utf8Len(t) == |t|
  {
    if t != [] {
      Utf8LenBounds(t[1..]);
    }
  }

  /** A mapping written as pairs, with no key twice. */
  ghost predicate DistinctKeys<V>(pairs: seq<(Text, V)>) {
    forall i, j :: 0 <= i < j < |pairs| ==> pairs[i].0 != pairs[j].0
  }
}
