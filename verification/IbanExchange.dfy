/** The account-number check and the exchange of the two characters that its rearrangement moves to
    opposite ends: ten has order 96 modulo 97, more than twice the greatest permitted length. */
module IbanExchange {
  import opened Texts
  import opened Checksums

  // ----- Exchanges in a candidate as it is written -----

  lemma NextPlace(t: Text, j: nat)
    requires j + 1 < |t| && t[j] != 0x20
    ensures |WithoutSpaces(t[..j + 1])| == |WithoutSpaces(t[..j])| + 1
  {
    assert t[..j + 1][..j] == t[..j];
  }

  /** Exchanging neighbours of the written candidate exchanges neighbours of the text without spaces. */
  lemma ExchangeAside(t: Text, j: nat) returns (p: nat)
    requires j + 1 < |t| && t[j] != 0x20 && t[j + 1] != 0x20
    ensures p + 1 < |WithoutSpaces(t)| && p == |WithoutSpaces(t[..j])|
    ensures var compact := WithoutSpaces(t);
            && compact[p] == t[j] && compact[p + 1] == t[j + 1]
            && WithoutSpaces(t[j := t[j + 1]][j + 1 := t[j]]) == compact[p := compact[p + 1]][p + 1 := compact[p]]
  {
    var once := t[j := t[j + 1]];
    p := SpacesAside(t, j, t[j + 1]);
    var q := SpacesAside(t, j + 1, t[j]);
    NextPlace(t, j);
    var r := SpacesAside(once, j + 1, t[j]);
    NextPlace(once, j);
    assert once[..j] == t[..j];
  }

  /** `IbanTranspositions` and `IbanExchangeAcrossCut` for the candidate as it is written, at every spacing. */
  lemma IbanDetectsExchange(candidate: Text, j: nat)
    requires AllAlphanumeric(WithoutSpaces(candidate)) && IbanValid(candidate)
    requires j + 1 < |candidate| && candidate[j] != 0x20 && candidate[j + 1] != 0x20
    requires IsAlphanumeric(candidate[j]) && IsAlphanumeric(candidate[j + 1])
    ensures var changed := candidate[j := candidate[j + 1]][j + 1 := candidate[j]];
            var u, v := Base36(candidate[j]), Base36(candidate[j + 1]);
            && AllAlphanumeric(WithoutSpaces(changed))
            && (|WithoutSpaces(candidate[..j])| != 3 ==> (IbanValid(changed) <==> Blind(u, v)))
            && (|WithoutSpaces(candidate[..j])| == 3 && SameClass(candidate[j], candidate[j + 1]) ==>
                  (IbanValid(changed) <==> u == v))
  {
    var p := ExchangeAside(candidate, j);
    var compact := WithoutSpaces(candidate);
    assert forall i :: 0 <= i < |compact| ==> IsAlphanumeric(compact[i]);
    if p != 3 {
      IbanTranspositions(compact, p);
    } else if SameClass(candidate[j], candidate[j + 1]) {
      IbanExchangeAcrossCut(compact);
    }
  }

  // ----- The number behind a first character -----

  /** What a digit before the text is worth. */
  function Weight(t: Text): (m: nat)
    requires AllAlphanumeric(t)
  {
    if t == [] then 1
    else
      var front := Weight(t[..|t| - 1]);
      if Base36(t[|t| - 1]) < 10 then 10 * front else 100 * front
  }

  lemma WeightAppend(t: Text, c: CodePoint)
    requires AllAlphanumeric(t) && IsAlphanumeric(c)
    ensures AllAlphanumeric(t + [c])
    ensures Weight(t + [c]) == if Base36(c) < 10 then 10 * Weight(t) else 100 * Weight(t)
  {
    assert (t + [c])[..|t|] == t;
  }

  lemma ShiftedSum(b: nat, m: nat, v: nat, c: CodePoint)
    requires IsAlphanumeric(c)
    ensures Shifted(b * m + v, c) == b * (if Base36(c) < 10 then 10 * m else 100 * m) + Shifted(v, c)
  {
    assert b * (10 * m) == 10 * (b * m) && b * (100 * m) == 100 * (b * m);
  }

  lemma FrontStep(x: CodePoint, front: Text, c: CodePoint, b: nat)
    requires IsAlphanumeric(x) && AllAlphanumeric(front) && IsAlphanumeric(c) && AllAlphanumeric([x] + front)
    requires Value([x] + front) == b * Weight(front) + Value(front)
    ensures AllAlphanumeric(front + [c]) && AllAlphanumeric([x] + (front + [c]))
    ensures Value([x] + (front + [c])) == b * Weight(front + [c]) + Value(front + [c])
  {
    assert [x] + (front + [c]) == ([x] + front) + [c];
    ValueAppend([x] + front, c);
    ValueAppend(front, c);
    WeightAppend(front, c);
    ShiftedSum(b, Weight(front), Value(front), c);
  }

  lemma FrontAlone(x: CodePoint, t: Text)
    requires IsAlphanumeric(x) && t == []
    ensures AllAlphanumeric([x] + t) && Value([x] + t) == Base36(x) && Weight(t) == 1 && Value(t) == 0
  {
    assert [x] + t == [] + [x];
    ValueAppend([], x);
  }

  lemma {:induction false} FrontValue(x: CodePoint, t: Text, b: nat)
    requires IsAlphanumeric(x) && AllAlphanumeric(t) && b == Base36(x)
    ensures AllAlphanumeric([x] + t) && Value([x] + t) == b * Weight(t) + Value(t)
  {
    if t == [] {
      FrontAlone(x, t);
      assert b * 1 == b;
    } else {
      var front, c := t[..|t| - 1], t[|t| - 1];
      assert t == front + [c];
      FrontValue(x, front, b);
      FrontStep(x, front, c, b);
    }
  }

  // ----- Powers of ten modulo 97 -----

  function Power(k: nat): (r: nat)
    ensures r < 97
  {
    if k == 0 then 1 else Power(k - 1) * 10 % 97
  }

  lemma NextPower(k: nat, r: nat)
    requires Power(k) == r
    ensures Power(k + 1) == r * 10 % 97
  {
  }

  lemma FirstPowers()
    ensures Power(0) == 1 && Power(1) == 10 && Power(2) == 3 && Power(3) == 30 && Power(4) == 9 && Power(5) == 90
    ensures Power(6) == 27 && Power(7) == 76 && Power(8) == 81 && Power(9) == 34 && Power(10) == 49 && Power(11) == 5
    ensures Power(12) == 50 && Power(13) == 15 && Power(14) == 53 && Power(15) == 45 && Power(16) == 62
  {
    NextPower(0, 1);
    NextPower(1, 10);
    NextPower(2, 3);
    NextPower(3, 30);
    NextPower(4, 9);
    NextPower(5, 90);
    NextPower(6, 27);
    NextPower(7, 76);
    NextPower(8, 81);
    NextPower(9, 34);
    NextPower(10, 49);
    NextPower(11, 5);
    NextPower(12, 50);
    NextPower(13, 15);
    NextPower(14, 53);
    NextPower(15, 45);
  }

  lemma ReduceTimes(x: nat, c: nat)
    ensures (x % 97) * c % 97 == x * c % 97
  {
    var q := x / 97;
    assert x == 97 * q + x % 97;
    assert x * c == 97 * (q * c) + (x % 97) * c;
    SameResidue(x * c, (x % 97) * c);
  }

  /** Sixteen more factors of ten multiply the residue by 62. */
  lemma {:induction false} SixteenMore(k: nat)
    ensures Power(k + 16) == Power(k) * 62 % 97
  {
    if k == 0 {
      FirstPowers();
    } else {
      var r := Power(k - 1);
      SixteenMore(k - 1);
      NextPower(k - 1, r);
      NextPower(k + 15, r * 62 % 97);
      ReduceTimes(r * 62, 10);
      ReduceTimes(r * 10, 62);
    }
  }

  lemma TwoFactors(t: nat, c: nat, d: nat, e: nat, m: nat)
    requires c * d == e + 97 * m
    ensures (t * c % 97) * d % 97 == t * e % 97
  {
    ReduceTimes(t * c, d);
    Regroup(t, c, d, e, m);
    MultipleApart(t * c * d, t * e, t * m);
  }

  lemma Regroup(t: nat, c: nat, d: nat, e: nat, m: nat)
    requires c * d == e + 97 * m
    ensures t * c * d == t * e + 97 * (t * m)
  {
    assert t * c * d == t * (c * d);
    assert t * (e + 97 * m) == t * e + t * (97 * m);
    assert t * (97 * m) == 97 * (t * m);
  }

  lemma MultipleApart(x: int, y: int, k: int)
    requires x == y + 97 * k
    ensures x % 97 == y % 97
  {
    SameResidue(x, y);
  }

  lemma ThirtyTwoMore(k: nat)
    ensures Power(k + 32) == Power(k) * 61 % 97
  {
    SixteenMore(k);
    SixteenMore(k + 16);
    TwoFactors(Power(k), 62, 62, 61, 39);
  }

  lemma FortyEightMore(k: nat)
    ensures Power(k + 48) == Power(k) * 96 % 97
  {
    ThirtyTwoMore(k);
    SixteenMore(k + 32);
    TwoFactors(Power(k), 61, 62, 96, 38);
  }

  lemma SixtyFourMore(k: nat)
    ensures Power(k + 64) == Power(k) * 35 % 97
  {
    ThirtyTwoMore(k);
    ThirtyTwoMore(k + 32);
    TwoFactors(Power(k), 61, 61, 35, 38);
  }

  predicate IsLowPower(t: nat) {
    t == 1 || t == 10 || t == 3 || t == 30 || t == 9 || t == 90 || t == 27 || t == 76
    || t == 81 || t == 34 || t == 49 || t == 5 || t == 50 || t == 15 || t == 53 || t == 45
  }

  lemma LowPowers(k: nat)
    requires k < 16
    ensures IsLowPower(Power(k)) && (k > 0 ==> Power(k) != 1)
  {
    FirstPowers();
  }

  lemma LowPowersAvoidInverses(t: nat)
    requires IsLowPower(t)
    ensures t * 62 % 97 != 1 && t * 61 % 97 != 1 && t * 96 % 97 != 1 && t * 35 % 97 != 1
  {
  }

  /** Ten has no power of residue 1 up to twice the greatest permitted length. */
  lemma PowersAvoidOne(k: nat)
    requires 1 <= k <= 68
    ensures Power(k) != 1
  {
    var low := k % 16;
    LowPowers(low);
    LowPowersAvoidInverses(Power(low));
    if k == low {
    } else if k == low + 16 {
      SixteenMore(low);
    } else if k == low + 32 {
      ThirtyTwoMore(low);
    } else if k == low + 48 {
      FortyEightMore(low);
    } else {
      assert k == low + 64;
      SixtyFourMore(low);
    }
  }

  /** How many decimal digits a text stands for. */
  function Places(t: Text): (n: nat)
    requires AllAlphanumeric(t)
    ensures |t| <= n <= 2 * |t|
  {
    if t == [] then 0 else Places(t[..|t| - 1]) + if Base36(t[|t| - 1]) < 10 then 1 else 2
  }

  lemma TenfoldResidue(m: nat, k: nat)
    requires m % 97 == Power(k)
    ensures (10 * m) % 97 == Power(k + 1)
  {
    ReduceTimes(m, 10);
    NextPower(k, m % 97);
  }

  lemma {:induction false} WeightIsPower(t: Text)
    requires AllAlphanumeric(t)
    ensures Weight(t) % 97 == Power(Places(t))
  {
    if t != [] {
      var front := t[..|t| - 1];
      WeightIsPower(front);
      TenfoldResidue(Weight(front), Places(front));
      TenfoldResidue(10 * Weight(front), Places(front) + 1);
    }
  }

  lemma PrimeRemainder(d: nat)
    requires 1 < d < 36
    ensures 97 % d != 0
  {
  }

  lemma RemainderTimes(d: nat, z: int)
    requires 1 < d < 36 && (d * z) % 97 == 0
    ensures ((97 % d) * z) % 97 == 0
  {
    var q, r, k := 97 / d, 97 % d, (d * z) / 97;
    assert r == 97 - q * d;
    assert d * z == 97 * k;
    assert q * (d * z) == (q * d) * z;
    assert r * z == 97 * z - q * (d * z) == 97 * (z - q * k);
    MultipleApart(r * z, 0, z - q * k);
  }

  /** No factor below 36 makes a multiple of 97 of what is none. */
  lemma {:induction false} SmallFactor(d: nat, z: int)
    requires 0 < d < 36 && (d * z) % 97 == 0
    ensures z % 97 == 0
  {
    if d > 1 {
      PrimeRemainder(d);
      RemainderTimes(d, z);
      SmallFactor(97 % d, z);
    }
  }

  lemma Negated(z: int)
    ensures (-z) % 97 == 0 <==> z % 97 == 0
  {
    var k := z / 97;
  }

  lemma SmallSignedFactor(d: int, z: int)
    requires -36 < d < 36 && d != 0 && (d * z) % 97 == 0
    ensures z % 97 == 0
  {
    if d > 0 {
      SmallFactor(d, z);
    } else {
      assert (-d) * (-z) == d * z;
      SmallFactor(-d, -z);
      Negated(z);
    }
  }

  lemma NotAMultiple(d: int, z: int)
    requires -36 < d < 36 && z % 97 != 0
    ensures (d * z) % 97 == 0 <==> d == 0
  {
    if d != 0 && (d * z) % 97 == 0 {
      SmallSignedFactor(d, z);
    }
  }

  lemma CutDifference(u: int, v: int, w: int, m: int)
    ensures u * w + (m + v) - (v * w + (m + u)) == (u - v) * (w - 1)
  {
    assert (u - v) * (w - 1) == u * w - v * w - u + v;
  }

  lemma AcrossTheCut(p: int, q: int, u: nat, v: nat, w: nat, m: nat)
    requires p == u * w + (m + v) && q == v * w + (m + u)
    requires u < 36 && v < 36 && w % 97 != 1
    ensures Meets(p, q) <==> u == v
  {
    CutDifference(u, v, w, m);
    SameResidue(w, 1);
    NotAMultiple(u - v, w - 1);
  }

  lemma EndsOfRearranged(compact: Text, x: CodePoint, y: CodePoint) returns (mid: Text)
    requires 15 <= |compact| <= 34 && AllAlphanumeric(compact) && compact[4] == x && compact[3] == y
    ensures AllAlphanumeric(mid) && |mid| == |compact| - 2
    ensures Rearranged(compact) == [x] + (mid + [y]) && Rearranged(compact[3 := x][4 := y]) == [y] + (mid + [x])
  {
    mid := compact[5..] + compact[..3];
    assert compact[4..] == [x] + compact[5..] && compact[..4] == compact[..3] + [y];
    var changed := compact[3 := x][4 := y];
    assert changed[4..] == [y] + compact[5..] && changed[..4] == compact[..3] + [x];
  }

  lemma ValueOfEnds(x: CodePoint, mid: Text, y: CodePoint, w: nat, m: nat)
    requires IsAlphanumeric(x) && AllAlphanumeric(mid) && IsAlphanumeric(y) && AllAlphanumeric(mid + [y])
    requires w == Weight(mid + [y]) && m == if Base36(y) < 10 then 10 * Value(mid) else 100 * Value(mid)
    ensures AllAlphanumeric([x] + (mid + [y])) && Value([x] + (mid + [y])) == Base36(x) * w + (m + Base36(y))
  {
    FrontValue(x, mid + [y], Base36(x));
    ValueAppend(mid, y);
  }

  /** The two characters that the rearrangement moves to opposite ends: exchanging two digits, or two
      letters, keeps a valid text valid exactly when their values are equal. */
  lemma IbanExchangeAcrossCut(compact: Text)
    requires AllAlphanumeric(compact) && CompactValid(compact) && SameClass(compact[3], compact[4])
    ensures AllAlphanumeric(compact[3 := compact[4]][4 := compact[3]])
    ensures CompactValid(compact[3 := compact[4]][4 := compact[3]]) <==> Base36(compact[3]) == Base36(compact[4])
  {
    var x, y := compact[4], compact[3];
    var changed := compact[3 := x][4 := y];
    var mid := EndsOfRearranged(compact, x, y);
    WeightAppend(mid, x);
    WeightAppend(mid, y);
    var w, m := Weight(mid + [y]), if Base36(y) < 10 then 10 * Value(mid) else 100 * Value(mid);
    ValueOfEnds(x, mid, y, w, m);
    ValueOfEnds(y, mid, x, w, m);
    WeightIsPower(mid + [y]);
    PowersAvoidOne(Places(mid + [y]));
    ValidityIsMeeting(compact, changed);
    AcrossTheCut(Value(Rearranged(compact)), Value(Rearranged(changed)), Base36(x), Base36(y), w, m);
  }
}
