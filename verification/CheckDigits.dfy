/** What the two checks compute: which digits of a card number are doubled, and which check digits an account
    number must carry. */
module CheckDigits {
  import opened Texts
  import opened Sorting
  import opened Checksums

  // ----- Luhn -----

  function DigitSum(v: nat): nat {
    v / 10 + v % 10
  }

  /** The sum of the digits, every second one from the right, beginning with the last but one, doubled and replaced
      by its digit sum. */
  function DoubledSum(digits: seq<Digit>): nat {
    if digits == [] then 0
    else
      var first: nat := digits[0];
      (if |digits| % 2 == 0 then DigitSum(2 * first) else first) + DoubledSum(digits[1..])
  }

  lemma {:induction false} TotalIsDoubledSum(digits: seq<Digit>)
    ensures LuhnTotal(digits) == DoubledSum(digits)
  {
    if digits != [] {
      var n := |digits| - 1;
      TotalIsDoubledSum(digits[1..]);
      assert Reversed(digits)[..n] == Reversed(digits[1..]);
      TermIsDigitSum(n, digits[0]);
    }
  }

  lemma TermIsDigitSum(place: nat, d: Digit)
    ensures var v: nat := d; Term(place, d) == if place % 2 == 1 then DigitSum(2 * v) else v
  {
  }

  /** A number passes exactly when that sum is a multiple of ten. */
  lemma LuhnIsDoubledSum(digits: seq<Digit>)
    ensures LuhnValid(digits) <==> exists tens: nat :: DoubledSum(digits) == 10 * tens
  {
    TotalIsDoubledSum(digits);
    if LuhnValid(digits) {
      assert DoubledSum(digits) == 10 * (DoubledSum(digits) / 10);
    }
  }

  // ----- IBAN -----

  /** The two numbers are alike modulo 97. */
  ghost predicate Alike(x: int, y: int) {
    exists k: int :: x - y == 97 * k
  }

  predicate IsNumeral(c: CodePoint) {
    0x30 <= c <= 0x39
  }

  lemma TwoDigitsAppended(t: Text, d1: CodePoint, d2: CodePoint)
    requires AllAlphanumeric(t) && IsNumeral(d1) && IsNumeral(d2)
    ensures AllAlphanumeric(t + [d1, d2])
    ensures Value(t + [d1, d2]) == 100 * Value(t) + 10 * (d1 - 0x30) + (d2 - 0x30)
  {
    assert t + [d1, d2] == (t + [d1]) + [d2];
    ValueAppend(t, d1);
    ValueAppend(t + [d1], d2);
  }

  lemma ResidueDecides(number: nat, zeros: nat, check: nat)
    requires number == zeros + check
    ensures number % 97 == 1 <==> Alike(check, 98 - zeros % 97)
    ensures 2 <= check <= 98 ==> (number % 97 == 1 <==> check == 98 - zeros % 97)
  {
    var r, q := zeros % 97, zeros / 97;
    if number % 97 == 1 {
      assert check - (98 - r) == 97 * (number / 97 - q - 1);
    }
    if k: int :| check - (98 - r) == 97 * k {
      assert number == 97 * (q + k + 1) + 1;
    }
  }

  lemma Rearranged(country: Text, check: Text, rest: Text)
    requires |country| == 2 && |check| == 2
    ensures var compact := country + check + rest;
            |compact| >= 4 && compact[4..] + compact[..4] == rest + country + check
  {
    var compact := country + check + rest;
    assert compact[..4] == country + check && compact[4..] == rest;
  }

  /** The value of two check digits. */
  function CheckValue(check: Text): nat
    requires |check| == 2 && IsNumeral(check[0]) && IsNumeral(check[1])
  {
    10 * (check[0] - 0x30) + (check[1] - 0x30)
  }

  /** The residue of the number read from the text and two zeros. */
  function Residue(base: Text): nat
    requires AllAlphanumeric(base)
  {
    TwoDigitsAppended(base, 0x30, 0x30);
    Value(base + [0x30, 0x30]) % 97
  }

  lemma BaseDecides(base: Text, check: Text)
    requires AllAlphanumeric(base) && |check| == 2 && IsNumeral(check[0]) && IsNumeral(check[1])
    ensures AllAlphanumeric(base + check)
    ensures Number(Numeric(base + check)) % 97 == 1 <==> Alike(CheckValue(check), 98 - Residue(base))
    ensures 2 <= CheckValue(check) <= 98 ==>
      (Number(Numeric(base + check)) % 97 == 1 <==> CheckValue(check) == 98 - Residue(base))
  {
    assert check == [check[0], check[1]];
    TwoDigitsAppended(base, check[0], check[1]);
    TwoDigitsAppended(base, 0x30, 0x30);
    NumberIsValue(base + check);
    ResidueDecides(Value(base + check), Value(base + [0x30, 0x30]), CheckValue(check));
  }

  lemma PartsAreAlphanumeric(a: Text, b: Text)
    requires AllAlphanumeric(a) && AllAlphanumeric(b)
    ensures AllAlphanumeric(a + b)
  {
  }

  lemma ValidMeans(candidate: Text, country: Text, check: Text, rest: Text)
    requires |country| == 2 && |check| == 2 && WithoutSpaces(candidate) == country + check + rest
    requires AllAlphanumeric(country) && AllAlphanumeric(rest) && AllAlphanumeric(check)
    ensures AllAlphanumeric(WithoutSpaces(candidate)) && AllAlphanumeric(rest + country + check)
    ensures IbanValid(candidate) <==> 11 <= |rest| <= 30 && Number(Numeric(rest + country + check)) % 97 == 1
  {
    Rearranged(country, check, rest);
    PartsAreAlphanumeric(rest, country);
    PartsAreAlphanumeric(rest + country, check);
    PartsAreAlphanumeric(country, check);
    PartsAreAlphanumeric(country + check, rest);
  }

  /** With `residue` that of the number read from the rest, the country and two zeros, an account number passes
      exactly when its length is permitted and its check digits are alike to 98 less the residue; of the values from
      02 to 98 that is one. */
  lemma IbanCheckDigits(candidate: Text, country: Text, check: Text, rest: Text)
    requires AllAlphanumeric(country) && AllAlphanumeric(rest) && |country| == 2
    requires |check| == 2 && IsNumeral(check[0]) && IsNumeral(check[1])
    requires WithoutSpaces(candidate) == country + check + rest
    ensures AllAlphanumeric(WithoutSpaces(candidate)) && AllAlphanumeric(rest + country)
    ensures IbanValid(candidate) <==> 11 <= |rest| <= 30 && Alike(CheckValue(check), 98 - Residue(rest + country))
    ensures 11 <= |rest| <= 30 && 2 <= CheckValue(check) <= 98 ==>
      (IbanValid(candidate) <==> CheckValue(check) == 98 - Residue(rest + country))
  {
    ValidMeans(candidate, country, check, rest);
    PartsAreAlphanumeric(rest, country);
    BaseDecides(rest + country, check);
  }
}
