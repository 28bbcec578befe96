/** Decimal numerals as `str` and format specifications print them. */
module Numerals {
  import opened Texts

  predicate IsDigit(c: CodePoint) {
    0x30 <= c <= 0x39
  }

  predicate AllDigits(t: Text) {
    forall i :: 0 <= i < |t| ==> IsDigit(t[i])
  }

  function Decimal(n: nat): (t: Text)
    ensures t != [] && AllDigits(t)
  {
    if n < 10 then [0x30 + n] else Decimal(n / 10) + [0x30 + n % 10]
  }

  /** The numeral, with zeros in front up to the given width. */
  function Padded(n: nat, width: nat): (t: Text)
    ensures AllDigits(t)
  {
    ZerosBefore(Decimal(n), width)
  }

  function ZerosBefore(t: Text, width: nat): (r: Text)
    requires AllDigits(t)
    ensures AllDigits(r)
    decreases width - |t|
  {
    if |t| >= width then t else ZerosBefore([0x30] + t, width)
  }

  function ValueOf(t: Text): nat
    requires AllDigits(t)
  {
    if t == [] then 0 else ValueOf(t[..|t| - 1]) * 10 + (t[|t| - 1] - 0x30)
  }

  lemma {:induction false} DecimalRoundTrip(n: nat)
    ensures ValueOf(Decimal(n)) == n
  {
    if n >= 10 {
      DecimalRoundTrip(n / 10);
      assert (Decimal(n / 10) + [0x30 + n % 10])[..|Decimal(n / 10)|] == Decimal(n / 10);
    } else {
      assert ValueOf([0x30 + n][..0]) == 0;
    }
  }

  lemma {:induction false} LeadingZero(t: Text)
    requires AllDigits(t)
    ensures AllDigits([0x30] + t) && ValueOf([0x30] + t) == ValueOf(t)
  {
    if t == [] {
      assert [0x30] + t == [0x30] && ValueOf([0x30][..0]) == 0;
    } else {
      var n := |t| - 1;
      LeadingZero(t[..n]);
      assert ([0x30] + t)[..n + 1] == [0x30] + t[..n];
    }
  }

  lemma {:induction false} ZerosKeepValue(t: Text, width: nat)
    requires AllDigits(t)
    ensures ValueOf(ZerosBefore(t, width)) == ValueOf(t)
    decreases width - |t|
  {
    if |t| < width {
      LeadingZero(t);
      ZerosKeepValue([0x30] + t, width);
    }
  }

  lemma PaddedRoundTrip(n: nat, width: nat)
    ensures ValueOf(Padded(n, width)) == n
  {
    DecimalRoundTrip(n);
    ZerosKeepValue(Decimal(n), width);
  }

  /** No numeral but zero begins with a zero. */
  lemma {:induction false} NoLeadingZero(n: nat)
    ensures n > 0 ==> Decimal(n)[0] != 0x30
    ensures |Decimal(0)| == 1
  {
    if n >= 10 {
      NoLeadingZero(n / 10);
    }
  }
}
