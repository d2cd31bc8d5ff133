/** The Luhn formula for payment cards (ISO/IEC 7812-1, Annex B). */
module Luhn {
  import opened Text
  import opened Checksums

  type Digit = d: nat | d <= 9

  /** The digits of a text, whatever stands between them. */
  function DigitsIn(value: string): seq<Digit> {
    if value == [] then []
    else (if IsDigit(value[0]) then [DigitValue(value[0])] else []) + DigitsIn(value[1..])
  }

  function Doubled(d: Digit): nat {
    if d * 2 > 9 then d * 2 - 9 else d * 2
  }

  /** What a digit adds, by its place counted from the right. */
  function Contribution(d: Digit, place: nat): nat {
    if place % 2 == 1 then Doubled(d) else d
  }

  function LuhnSum(ds: seq<Digit>, after: nat): nat {
    if ds == [] then 0 else Contribution(ds[0], |ds| - 1 + after) + LuhnSum(ds[1..], after)
  }

  predicate Accepted(value: string) {
    13 <= |DigitsIn(value)| <= 19 && LuhnSum(DigitsIn(value), 0) % 10 == 0
  }

  method ValidateLuhn(value: string) returns (ok: bool)
    ensures ok == Accepted(value)
  {
    hide DigitsIn, LuhnSum, Contribution;
    var digits := DigitsIn(value);
    if |digits| < 13 || |digits| > 19 {
      return false;
    }
    var sum, isEven := 0, false;
    NoDigits(digits);
    for i := |digits| downto 0
      invariant isEven == ((|digits| - i) % 2 == 1) && sum == LuhnSum(digits[i..], 0)
    {
      var digit: nat := digits[i];
      LuhnSumStep(digits, i);
      if isEven {
        digit := digit * 2;
        if digit > 9 {
          digit := digit - 9;
        }
      }
      sum := sum + digit;
      isEven := !isEven;
    }
    return sum % 10 == 0;
  }

  lemma {:induction false} LuhnSumStep(ds: seq<Digit>, i: nat)
    requires i < |ds|
    ensures LuhnSum(ds[i..], 0)
         == LuhnSum(ds[i + 1..], 0) + if (|ds| - i) % 2 == 0 then Doubled(ds[i]) else ds[i]
  {
    assert ds[i..][1..] == ds[i + 1..];
  }

  lemma {:induction false} NoDigits(ds: seq<Digit>)
    ensures ds[0..] == ds && LuhnSum(ds[|ds|..], 0) == 0
  {
  }

  lemma {:induction false} DigitsInConcat(a: string, b: string)
    ensures DigitsIn(a + b) == DigitsIn(a) + DigitsIn(b)
    decreases |a|
  {
    hide DigitsIn;
    if a == [] {
      assert a + b == b;
      NoDigitsIn();
    } else {
      DigitsInConcat(a[1..], b);
      assert a == [a[0]] + a[1..] && a + b == [a[0]] + (a[1..] + b);
      DigitsInCons(a[0], a[1..]);
      DigitsInCons(a[0], a[1..] + b);
    }
  }

  lemma {:induction false} DigitsInCons(c: char, rest: string)
    ensures DigitsIn([c] + rest) == if IsDigit(c) then [DigitValue(c)] + DigitsIn(rest) else DigitsIn(rest)
  {
    assert ([c] + rest)[1..] == rest;
  }

  lemma {:induction false} NoDigitsIn()
    ensures DigitsIn([]) == []
  {
  }

  lemma {:induction false} LuhnSumConcat(a: seq<Digit>, b: seq<Digit>, after: nat)
    ensures LuhnSum(a + b, after) == LuhnSum(a, |b| + after) + LuhnSum(b, after)
  {
    if a == [] {
      assert a + b == b;
    } else {
      LuhnSumConcat(a[1..], b, after);
      assert (a + b)[1..] == a[1..] + b;
    }
  }

  /** The sum of a text around a stretch of it. */
  lemma {:induction false} SumAround(p: string, m: string, q: string)
    ensures var before, mid, rest := DigitsIn(p), DigitsIn(m), DigitsIn(q);
            && |DigitsIn(p + m + q)| == |before| + |mid| + |rest|
            && LuhnSum(DigitsIn(p + m + q), 0)
            == LuhnSum(before, |mid| + |rest|) + LuhnSum(mid, |rest|) + LuhnSum(rest, 0)
  {
    hide DigitsIn, LuhnSum;
    DigitsInConcat(p + m, q);
    DigitsInConcat(p, m);
    LuhnSumConcat(DigitsIn(p) + DigitsIn(m), DigitsIn(q), 0);
    LuhnSumConcat(DigitsIn(p), DigitsIn(m), |DigitsIn(q)|);
  }

  /** Every single wrong digit is caught. */
  lemma {:induction false} CatchesOneDigit(p: string, a: char, d: char, q: string)
    requires IsDigit(a) && IsDigit(d) && a != d && Accepted(p + [a] + q)
    ensures !Accepted(p + [d] + q)
  {
    hide DigitsIn, LuhnSum;
    SumAround(p, [a], q);
    SumAround(p, [d], q);
    SumOfOne(a, |DigitsIn(q)|);
    SumOfOne(d, |DigitsIn(q)|);
  }

  lemma {:induction false} SumOfOne(c: char, after: nat)
    requires IsDigit(c)
    ensures DigitsIn([c]) == [DigitValue(c)] && LuhnSum(DigitsIn([c]), after) == Contribution(DigitValue(c), after)
  {
    assert DigitsIn([c]) == [DigitValue(c)];
  }

  lemma {:induction false} SumOfTwo(a: char, b: char, after: nat)
    requires IsDigit(a) && IsDigit(b)
    ensures |DigitsIn([a, b])| == 2
    ensures LuhnSum(DigitsIn([a, b]), after)
         == Contribution(DigitValue(a), 1 + after) + Contribution(DigitValue(b), after)
  {
    assert [a, b][1..] == [b];
    assert DigitsIn([b]) == [DigitValue(b)];
    var both: seq<Digit> := [DigitValue(a), DigitValue(b)];
    assert DigitsIn([a, b]) == both && both[1..] == [DigitValue(b)];
    SumOfOne(b, after);
  }

  /** Two exchanged neighbours go unnoticed exactly when they are equal or are 0 and 9. */
  lemma {:induction false} SwapExactly(p: string, a: char, b: char, q: string)
    requires IsDigit(a) && IsDigit(b) && Accepted(p + [a, b] + q)
    ensures Accepted(p + [b, a] + q) <==> a == b || {a, b} == {'0', '9'}
  {
    hide DigitsIn, LuhnSum, Contribution;
    SumAround(p, [a, b], q);
    SumAround(p, [b, a], q);
    SumOfTwo(a, b, |DigitsIn(q)|);
    SumOfTwo(b, a, |DigitsIn(q)|);
    Shift(LuhnSum(DigitsIn(p + [a, b] + q), 0), LuhnSum(DigitsIn(p + [b, a] + q), 0));
    SwappedContributions(a, b, |DigitsIn(q)|);
  }

  lemma {:induction false} SwappedContributions(a: char, b: char, after: nat)
    requires IsDigit(a) && IsDigit(b)
    ensures (Contribution(DigitValue(b), 1 + after) + Contribution(DigitValue(a), after)
             - (Contribution(DigitValue(a), 1 + after) + Contribution(DigitValue(b), after))) % 10 == 0
       <==> a == b || {a, b} == {'0', '9'}
  {
    assert {a, b} == {'0', '9'} <==> (a == '0' && b == '9') || (a == '9' && b == '0') by {
      assert {a, b} == {'0', '9'} ==> '0' in {a, b} && '9' in {a, b};
    }
    SwappedDigits(DigitValue(a), DigitValue(b), after);
  }

  lemma {:induction false} SwappedDigits(a: Digit, b: Digit, after: nat)
    ensures (Contribution(b, 1 + after) + Contribution(a, after)
             - (Contribution(a, 1 + after) + Contribution(b, after))) % 10 == 0
       <==> a == b || (a == 0 && b == 9) || (a == 9 && b == 0)
  {
  }

  /** Doubling adds the decimal digits of twice the digit. */
  lemma {:induction false} DoubledIsDigitSum(d: Digit)
    ensures Doubled(d) == 2 * d / 10 + 2 * d % 10
  {
  }

  /** A number passes exactly when it has 13 to 19 digits and its last one makes the sum of the others, the
      last but one and every second before it doubled, a multiple of ten. */
  lemma {:induction false} CheckDigitExactly(p: string, c: char, q: string)
    requires IsDigit(c) && DigitsIn(q) == []
    ensures var before := DigitsIn(p);
            Accepted(p + [c] + q) <==> 12 <= |before| <= 18 && DigitValue(c) == (10 - LuhnSum(before, 1) % 10) % 10
  {
    hide DigitsIn, LuhnSum;
    SumAround(p, [c], q);
    SumOfOne(c, 0);
    NoDigits([]);
  }
}
