/** The card-number and account-number checks of the payload scan, and the errors they detect. */
module Checksums {
  import opened Texts
  import opened Sorting

  // ----- Luhn -----

  type Digit = d: int | 0 <= d < 10

  /** What a digit adds at `index` places from the right. */
  function Term(index: nat, d: Digit): (v: Digit)
    ensures index % 2 == 0 ==> v == d
  {
    if index % 2 == 0 then d else if 2 * d > 9 then 2 * d - 9 else 2 * d
  }

  /** The sum over digits listed from the right. */
  function LuhnSum(fromRight: seq<Digit>): nat {
    if fromRight == [] then 0
    else
      var n := |fromRight| - 1;
      LuhnSum(fromRight[..n]) + Term(n, fromRight[n])
  }

  function LuhnTotal(digits: seq<Digit>): nat {
    LuhnSum(Reversed(digits))
  }

  predicate LuhnValid(digits: seq<Digit>) {
    LuhnTotal(digits) % 10 == 0
  }

  method CheckLuhn(digits: seq<Digit>) returns (valid: bool)
    ensures valid == LuhnValid(digits)
  {
    var total := 0;
    ghost var reversed := Reversed(digits);
    for index := 0 to |digits|
      invariant total == LuhnSum(reversed[..index])
    {
      assert reversed[..index + 1][..index] == reversed[..index];
      var value: int := digits[|digits| - 1 - index];
      if index % 2 == 1 {
        value := value * 2;
        if value > 9 {
          value := value - 9;
        }
      }
      total := total + value;
    }
    assert reversed[..|digits|] == reversed;
    valid := total % 10 == 0;
  }

  /** The sum changes by exactly the change of one term. */
  lemma {:induction false} LuhnReplace(s: seq<Digit>, i: nat, d: Digit)
    requires i < |s|
    ensures LuhnSum(s[i := d]) == LuhnSum(s) - Term(i, s[i]) + Term(i, d)
  {
    var n := |s| - 1;
    if i < n {
      LuhnReplace(s[..n], i, d);
      assert s[i := d][..n] == s[..n][i := d];
    } else {
      assert s[i := d][..n] == s[..n];
    }
  }

  lemma TotalReplace(digits: seq<Digit>, j: nat, d: Digit)
    requires j < |digits|
    ensures var i := |digits| - 1 - j;
            LuhnTotal(digits[j := d]) == LuhnTotal(digits) - Term(i, digits[j]) + Term(i, d)
  {
    var i := |digits| - 1 - j;
    assert Reversed(digits[j := d]) == Reversed(digits)[i := d];
    LuhnReplace(Reversed(digits), i, d);
  }

  lemma ShiftedMultiple(total: int, change: int)
    requires total % 10 == 0
    ensures (total + change) % 10 == 0 <==> change % 10 == 0
  {
  }

  lemma TermsDiffer(i: nat, a: Digit, b: Digit)
    requires a != b
    ensures (Term(i, b) - Term(i, a)) % 10 != 0
  {
  }

  /** A change of any one digit of a valid number, at any length, is rejected. */
  lemma LuhnDetectsSingleDigit(digits: seq<Digit>, j: nat, d: Digit)
    requires j < |digits| && LuhnValid(digits) && d != digits[j]
    ensures !LuhnValid(digits[j := d])
  {
    var i := |digits| - 1 - j;
    TotalReplace(digits, j, d);
    TermsDiffer(i, digits[j], d);
    ShiftedMultiple(LuhnTotal(digits), Term(i, d) - Term(i, digits[j]));
  }

  predicate ZeroAndNine(a: Digit, b: Digit) {
    (a == 0 && b == 9) || (a == 9 && b == 0)
  }

  lemma NeighbourTerms(i: nat, a: Digit, b: Digit)
    requires i > 0
    ensures (Term(i, b) - Term(i, a) + Term(i - 1, a) - Term(i - 1, b)) % 10 == 0 <==> a == b || ZeroAndNine(a, b)
  {
  }

  /** Exchanging two neighbours keeps the verdict exactly when they are equal or are 0 and 9. */
  lemma LuhnTranspositions(digits: seq<Digit>, j: nat)
    requires j + 1 < |digits| && LuhnValid(digits)
    ensures LuhnValid(digits[j := digits[j + 1]][j + 1 := digits[j]]) <==>
      digits[j] == digits[j + 1] || ZeroAndNine(digits[j], digits[j + 1])
  {
    var a, b := digits[j], digits[j + 1];
    var i := |digits| - 1 - j;
    TotalReplace(digits, j, b);
    TotalReplace(digits[j := b], j + 1, a);
    NeighbourTerms(i, a, b);
    ShiftedMultiple(LuhnTotal(digits), Term(i, b) - Term(i, a) + Term(i - 1, a) - Term(i - 1, b));
  }

  /** Every digit string has exactly one check digit. */
  lemma LuhnCheckDigit(prefix: seq<Digit>) returns (check: Digit)
    ensures forall d: Digit :: LuhnValid(prefix + [d]) <==> d == check
  {
    var total := LuhnTotal(prefix + [0]);
    check := (10 - total % 10) % 10;
    forall d: Digit
      ensures LuhnValid(prefix + [d]) <==> d == check
    {
      TotalReplace(prefix + [0], |prefix|, d);
      assert (prefix + [0])[|prefix| := d] == prefix + [d];
      OnlyComplement(total, d);
    }
  }

  lemma OnlyComplement(total: nat, d: Digit)
    ensures (total + d) % 10 == 0 <==> d == (10 - total % 10) % 10
  {
  }

  // ----- IBAN -----

  predicate IsAlphanumeric(c: CodePoint) {
    0x30 <= c <= 0x39 || 0x41 <= c <= 0x5A || 0x61 <= c <= 0x7A
  }

  /** `int(char, 36)`. */
  function Base36(c: CodePoint): (v: nat)
    requires IsAlphanumeric(c)
    ensures v < 36 && (v < 10 <==> c <= 0x39)
    ensures if v < 10 then c == 0x30 + v else c == 0x41 + v - 10 || c == 0x61 + v - 10
  {
    if c <= 0x39 then c - 0x30 else if c <= 0x5A then c - 0x41 + 10 else c - 0x61 + 10
  }

  ghost predicate AllAlphanumeric(t: Text) {
    forall i :: 0 <= i < |t| ==> IsAlphanumeric(t[i])
  }

  function WithoutSpaces(t: Text): Text {
    if t == [] then []
    else
      var front := WithoutSpaces(t[..|t| - 1]);
      if t[|t| - 1] == 0x20 then front else front + [t[|t| - 1]]
  }

  /** The decimal digits of a value below 36. */
  function Base10(v: nat): seq<Digit>
    requires v < 36
  {
    if v < 10 then [v] else [v / 10, v % 10]
  }

  function Numeric(t: Text): seq<Digit>
    requires AllAlphanumeric(t)
  {
    if t == [] then [] else Numeric(t[..|t| - 1]) + Base10(Base36(t[|t| - 1]))
  }

  /** The number that a string of decimal digits denotes. */
  function Number(ds: seq<Digit>): nat {
    if ds == [] then 0 else Number(ds[..|ds| - 1]) * 10 + ds[|ds| - 1]
  }

  predicate CompactValid(compact: Text)
    requires AllAlphanumeric(compact)
  {
    15 <= |compact| <= 34 && Number(Numeric(compact[4..] + compact[..4])) % 97 == 1
  }

  predicate IbanValid(candidate: Text)
    requires AllAlphanumeric(WithoutSpaces(candidate))
  {
    CompactValid(WithoutSpaces(candidate))
  }

  /** A number with the digits of a character's value put after it: one digit, or two for a letter. */
  function Shifted(v: nat, c: CodePoint): nat
    requires IsAlphanumeric(c)
  {
    (if Base36(c) < 10 then 10 * v else 100 * v) + Base36(c)
  }

  /** The number of a text, character by character. */
  function Value(t: Text): nat
    requires AllAlphanumeric(t)
  {
    if t == [] then 0 else Shifted(Value(t[..|t| - 1]), t[|t| - 1])
  }

  lemma NumberAppend(ds: seq<Digit>, c: CodePoint)
    requires IsAlphanumeric(c)
    ensures Number(ds + Base10(Base36(c))) == Shifted(Number(ds), c)
  {
    var v := Base36(c);
    if v < 10 {
      assert (ds + [v])[..|ds|] == ds;
    } else {
      var long := ds + [v / 10, v % 10];
      assert long[..|ds| + 1] == ds + [v / 10];
      assert (ds + [v / 10])[..|ds|] == ds;
    }
  }

  lemma {:induction false} NumberIsValue(t: Text)
    requires AllAlphanumeric(t)
    ensures Number(Numeric(t)) == Value(t)
  {
    if t != [] {
      NumberIsValue(t[..|t| - 1]);
      NumberAppend(Numeric(t[..|t| - 1]), t[|t| - 1]);
    }
  }

  lemma ValueAppend(t: Text, c: CodePoint)
    requires AllAlphanumeric(t) && IsAlphanumeric(c)
    ensures AllAlphanumeric(t + [c]) && Value(t + [c]) == Shifted(Value(t), c)
  {
    assert (t + [c])[..|t|] == t;
  }

  // ----- Arithmetic modulo 97 -----

  /** The two numbers have the same residue. */
  predicate Meets(x: int, y: int) {
    (x - y) % 97 == 0
  }

  lemma SameResidue(x: int, y: int)
    ensures x % 97 == y % 97 <==> Meets(x, y)
  {
    var q := (x - y) / 97;
  }

  /** Ten is invertible modulo 97, so powers of ten never absorb a difference. */
  lemma TenIsInvertible(x: int)
    ensures (x * 10) % 97 == 0 <==> x % 97 == 0
  {
    if x % 97 == 0 {
      assert x * 10 == 97 * (x / 97 * 10);
    }
    if (x * 10) % 97 == 0 {
      var k := (x * 10) / 97;
      assert x * 10 == 97 * k;
      assert x == 97 * (68 * k - 7 * x);
    }
  }

  /** One more character keeps apart what was apart, and together what was together. */
  lemma ShiftedMeets(x: nat, y: nat, c: CodePoint)
    requires IsAlphanumeric(c)
    ensures Meets(Shifted(x, c), Shifted(y, c)) <==> Meets(x, y)
  {
    var d: int := x as int - y as int;
    TenIsInvertible(d);
    TenIsInvertible(d * 10);
    if Base36(c) < 10 {
      assert Shifted(x, c) - Shifted(y, c) == d * 10;
    } else {
      assert Shifted(x, c) - Shifted(y, c) == d * 10 * 10;
    }
  }

  lemma MeetsStep(s: Text, t: Text, c: CodePoint)
    requires AllAlphanumeric(s) && AllAlphanumeric(t) && IsAlphanumeric(c)
    ensures AllAlphanumeric(s + [c]) && AllAlphanumeric(t + [c])
    ensures Meets(Value(s + [c]), Value(t + [c])) <==> Meets(Value(s), Value(t))
  {
    ValueAppend(s, c);
    ValueAppend(t, c);
    ShiftedMeets(Value(s), Value(t), c);
  }

  lemma LongerEnd(a: Text, b: Text, after: Text, meet: bool)
    requires AllAlphanumeric(after) && after != []
    requires var front := after[..|after| - 1];
             AllAlphanumeric(a + front) && AllAlphanumeric(b + front)
             && Meets(Value(a + front), Value(b + front)) == meet
    ensures AllAlphanumeric(a + after) && AllAlphanumeric(b + after)
    ensures Meets(Value(a + after), Value(b + after)) == meet
  {
    var front, c := after[..|after| - 1], after[|after| - 1];
    assert a + after == (a + front) + [c] && b + after == (b + front) + [c];
    MeetsStep(a + front, b + front, c);
  }

  /** What follows never makes two residues meet or part. */
  lemma {:induction false} EndsAlike(a: Text, b: Text, after: Text, meet: bool)
    requires AllAlphanumeric(a) && AllAlphanumeric(b) && AllAlphanumeric(after)
    requires Meets(Value(a), Value(b)) == meet
    ensures AllAlphanumeric(a + after) && AllAlphanumeric(b + after)
    ensures Meets(Value(a + after), Value(b + after)) == meet
  {
    if after == [] {
      assert a + after == a && b + after == b;
    } else {
      EndsAlike(a, b, after[..|after| - 1], meet);
      LongerEnd(a, b, after, meet);
    }
  }

  predicate SameClass(c: CodePoint, d: CodePoint) {
    IsAlphanumeric(c) && IsAlphanumeric(d) && (Base36(c) < 10 <==> Base36(d) < 10)
  }

  lemma OneChange(before: Text, c: CodePoint, d: CodePoint)
    requires AllAlphanumeric(before) && SameClass(c, d)
    ensures AllAlphanumeric(before + [c]) && AllAlphanumeric(before + [d])
    ensures Meets(Value(before + [c]), Value(before + [d])) <==> Base36(c) == Base36(d)
  {
    ValueAppend(before, c);
    ValueAppend(before, d);
    CloseMeet(Value(before + [c]), Value(before + [d]), Base36(c), Base36(d));
  }

  lemma CloseMeet(p: int, q: int, x: nat, y: nat)
    requires p - q == x - y && x < 36 && y < 36
    ensures Meets(p, q) <==> x == y
  {
  }

  /** The pairs whose exchange the check cannot see: equal values, and a digit with the letter of eleven
      times its value (1B, 2M and 3X). */
  predicate Blind(u: nat, v: nat) {
    u == v || (0 < u < 10 && v == 11 * u) || (0 < v < 10 && u == 11 * v)
  }

  /** Nine and ninety-nine are invertible modulo 97 too. */
  lemma SmallMultiple(factor: int, x: int)
    requires (factor == 9 || factor == 99) && -97 < x < 97
    ensures (factor * x) % 97 == 0 <==> x == 0
  {
    if (factor * x) % 97 == 0 {
      var k := (factor * x) / 97;
      assert factor * x == 97 * k;
      assert factor == 9 ==> x == 97 * (54 * k - 5 * x);
      assert factor == 99 ==> x == 97 * (49 * k - 50 * x);
    }
  }

  lemma ExchangedMeets(r: nat, a: CodePoint, b: CodePoint)
    requires IsAlphanumeric(a) && IsAlphanumeric(b)
    ensures Meets(Shifted(Shifted(r, a), b), Shifted(Shifted(r, b), a)) <==> Blind(Base36(a), Base36(b))
  {
    var u: int, v: int := Base36(a), Base36(b);
    if u < 10 && v < 10 {
      SmallMultiple(9, u - v);
    } else if u < 10 {
      SmallMultiple(9, 11 * u - v);
    } else if v < 10 {
      SmallMultiple(9, u - 11 * v);
    } else {
      SmallMultiple(99, u - v);
    }
  }

  lemma OneExchange(before: Text, a: CodePoint, b: CodePoint)
    requires AllAlphanumeric(before) && IsAlphanumeric(a) && IsAlphanumeric(b)
    ensures AllAlphanumeric(before + [a, b]) && AllAlphanumeric(before + [b, a])
    ensures Meets(Value(before + [a, b]), Value(before + [b, a])) <==> Blind(Base36(a), Base36(b))
  {
    assert before + [a, b] == (before + [a]) + [b] && before + [b, a] == (before + [b]) + [a];
    ValueAppend(before, a);
    ValueAppend(before + [a], b);
    ValueAppend(before, b);
    ValueAppend(before + [b], a);
    ExchangedMeets(Value(before), a, b);
  }

  // ----- What the IBAN check detects -----

  function Rearranged(compact: Text): Text
    requires |compact| >= 4
  {
    compact[4..] + compact[..4]
  }

  /** A text of the length of a valid one is valid exactly when the rearranged numbers meet. */
  lemma ValidityIsMeeting(compact: Text, changed: Text)
    requires AllAlphanumeric(compact) && CompactValid(compact) && AllAlphanumeric(changed) && |changed| == |compact|
    ensures AllAlphanumeric(Rearranged(compact)) && AllAlphanumeric(Rearranged(changed))
    ensures CompactValid(changed) <==> Meets(Value(Rearranged(compact)), Value(Rearranged(changed)))
  {
    NumberIsValue(Rearranged(compact));
    NumberIsValue(Rearranged(changed));
    SameResidue(Value(Rearranged(compact)), Value(Rearranged(changed)));
  }

  /** A stretch that the cut does not divide stays together when the text is rearranged. */
  lemma RearrangedAround(compact: Text, changed: Text, p: nat, k: nat) returns (before: Text, after: Text)
    requires 15 <= |compact| == |changed| && p + k <= |compact| && (4 <= p || p + k <= 4)
    requires compact[..p] == changed[..p] && compact[p + k..] == changed[p + k..]
    ensures Rearranged(compact) == before + compact[p..p + k] + after
    ensures Rearranged(changed) == before + changed[p..p + k] + after
  {
    if p >= 4 {
      before, after := compact[4..p], compact[p + k..] + compact[..4];
      assert compact[4..p] == compact[..p][4..] && changed[4..p] == changed[..p][4..];
      assert compact[..4] == compact[..p][..4] && changed[..4] == changed[..p][..4];
    } else {
      before, after := compact[4..] + compact[..p], compact[p + k..4];
      assert compact[4..] == compact[p + k..][4 - p - k..] && changed[4..] == changed[p + k..][4 - p - k..];
      assert compact[p + k..4] == compact[p + k..][..4 - p - k] && changed[p + k..4] == changed[p + k..][..4 - p - k];
    }
  }

  lemma PartsAreAlphanumeric(before: Text, x: Text, after: Text)
    requires AllAlphanumeric(before + x + after)
    ensures AllAlphanumeric(before) && AllAlphanumeric(x) && AllAlphanumeric(after)
  {
    var t := before + x + after;
    assert forall i :: 0 <= i < |before| ==> before[i] == t[i];
    assert forall i :: 0 <= i < |x| ==> x[i] == t[|before| + i];
    assert forall i :: 0 <= i < |after| ==> after[i] == t[|before| + |x| + i];
  }

  /** Replacing an undivided stretch of a valid text: the numbers up to the stretch's end decide. */
  lemma StretchDecides(compact: Text, changed: Text, p: nat, k: nat) returns (before: Text)
    requires AllAlphanumeric(compact) && AllAlphanumeric(changed) && CompactValid(compact)
    requires |compact| == |changed| && p + k <= |compact| && (4 <= p || p + k <= 4)
    requires compact[..p] == changed[..p] && compact[p + k..] == changed[p + k..]
    ensures AllAlphanumeric(before)
    ensures AllAlphanumeric(before + compact[p..p + k]) && AllAlphanumeric(before + changed[p..p + k])
    ensures CompactValid(changed) <==>
      Meets(Value(before + compact[p..p + k]), Value(before + changed[p..p + k]))
  {
    var after: Text;
    before, after := RearrangedAround(compact, changed, p, k);
    ValidityIsMeeting(compact, changed);
    PartsAreAlphanumeric(before, compact[p..p + k], after);
    PartsAreAlphanumeric(before, changed[p..p + k], after);
    var x, y := before + compact[p..p + k], before + changed[p..p + k];
    EndsAlike(x, y, after, Meets(Value(x), Value(y)));
  }

  lemma OnePlace(t: Text, changed: Text, p: nat)
    requires p < |t| && |changed| == |t| && changed == t[p := changed[p]]
    ensures t[p..p + 1] == [t[p]] && changed[p..p + 1] == [changed[p]]
    ensures t[..p] == changed[..p] && t[p + 1..] == changed[p + 1..]
  {
  }

  /** Changing one character to another of its class keeps a valid text valid only if the value is the same. */
  lemma CompactChange(compact: Text, p: nat, c: CodePoint)
    requires AllAlphanumeric(compact) && CompactValid(compact) && p < |compact| && SameClass(compact[p], c)
    ensures AllAlphanumeric(compact[p := c])
    ensures CompactValid(compact[p := c]) <==> Base36(c) == Base36(compact[p])
  {
    var changed := compact[p := c];
    OnePlace(compact, changed, p);
    var before := StretchDecides(compact, changed, p, 1);
    OneChange(before, compact[p], c);
  }

  lemma {:induction false} SpacesAside(t: Text, j: nat, c: CodePoint) returns (p: nat)
    requires j < |t| && t[j] != 0x20 && c != 0x20
    ensures p < |WithoutSpaces(t)| && WithoutSpaces(t)[p] == t[j] && p == |WithoutSpaces(t[..j])|
    ensures WithoutSpaces(t[j := c]) == WithoutSpaces(t)[p := c]
  {
    var n := |t| - 1;
    if j < n {
      p := SpacesAside(t[..n], j, c);
      assert t[..n][..j] == t[..j];
      assert t[j := c][..n] == t[..n][j := c];
    } else {
      p := |WithoutSpaces(t[..n])|;
      assert t[j := c][..n] == t[..n];
    }
  }

  /** At every permitted length and spacing, a digit changed to another digit, or a letter to another
      letter, is detected. */
  lemma IbanDetectsSingleChange(candidate: Text, j: nat, c: CodePoint)
    requires AllAlphanumeric(WithoutSpaces(candidate)) && IbanValid(candidate)
    requires j < |candidate| && SameClass(candidate[j], c)
    ensures AllAlphanumeric(WithoutSpaces(candidate[j := c]))
    ensures IbanValid(candidate[j := c]) <==> Base36(c) == Base36(candidate[j])
  {
    var p := SpacesAside(candidate, j, c);
    CompactChange(WithoutSpaces(candidate), p, c);
  }

  /** Exchanging two neighbours, other than the two on either side of the rearrangement's cut, keeps a
      valid text valid exactly for the blind pairs. */
  lemma IbanTranspositions(compact: Text, p: nat)
    requires AllAlphanumeric(compact) && CompactValid(compact) && p + 1 < |compact| && p != 3
    ensures AllAlphanumeric(compact[p := compact[p + 1]][p + 1 := compact[p]])
    ensures CompactValid(compact[p := compact[p + 1]][p + 1 := compact[p]])
            <==> Blind(Base36(compact[p]), Base36(compact[p + 1]))
  {
    var a, b := compact[p], compact[p + 1];
    var changed := compact[p := b][p + 1 := a];
    assert compact[p..p + 2] == [a, b] && changed[p..p + 2] == [b, a];
    var before := StretchDecides(compact, changed, p, 2);
    OneExchange(before, a, b);
  }
}
